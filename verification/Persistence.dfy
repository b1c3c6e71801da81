/**
 * Commit, reset and open as a protocol over storage that may fail: every write is given
 * its fate by a schedule, and every state that the disk goes through is listed.
 */
module Persistence {
  import opened Bytes
  import opened Keys
  import opened Options
  import opened FactTree
  import opened Blocks

  // ---- The durable state

  datatype Pointer = Unset | Null | At(root: Node)

  /** Records name the trees for which a revision has been written. */
  datatype Disk = Disk(blocks: BlockMap, records: set<Node>, pointer: Pointer)

  function PointerTo(v: Version): Pointer {
    if v.None? then Null else At(v.value)
  }

  function Pointed(p: Pointer): Version {
    if p.At? then Some(p.root) else None
  }

  predicate Recorded(d: Disk, v: Version) {
    v.None? || v.value in d.records
  }

  /** Every recorded revision is durable, and the current revision is a recorded one or none. */
  ghost predicate Safe(hash: Block -> Hash, d: Disk) {
    && (forall t :: t in d.records ==> Durable(hash, d.blocks, Some(t)))
    && (d.pointer.At? ==> d.pointer.root in d.records)
  }

  ghost predicate AllSafe(hash: Block -> Hash, states: seq<Disk>) {
    forall i :: 0 <= i < |states| ==> Safe(hash, states[i])
  }

  ghost predicate Grows(before: Disk, after: Disk) {
    Extended(before.blocks, after.blocks) && before.records <= after.records
  }

  /** Each state of the disk keeps what the earlier ones held. */
  ghost predicate Ordered(states: seq<Disk>) {
    forall i, j :: 0 <= i <= j < |states| ==> Grows(states[i], states[j])
  }

  function Last(d: Disk, states: seq<Disk>): Disk {
    if states == [] then d else states[|states| - 1]
  }

  // ---- Faults

  /** A write succeeds, is lost, or is reported failed although it took effect. */
  datatype Fault = Works | Lost | Late

  /** The writes of a flush in the order in which they end, with their fates. */
  type Writes = seq<(Node, Fault)>

  predicate AllWork(writes: Writes) {
    forall i :: 0 <= i < |writes| ==> writes[i].1.Works?
  }

  function Written(writes: Writes): set<Node> {
    set i | 0 <= i < |writes| :: writes[i].0
  }

  /** The nodes whose write took effect, reported or not. */
  function Landed(writes: Writes): set<Node> {
    set i | 0 <= i < |writes| && !writes[i].1.Lost? :: writes[i].0
  }

  /** A flush that meets no failure writes the whole delta; one that does may stop anywhere, writes under way landing
      or not. */
  predicate Scheduled(delta: set<Node>, writes: Writes) {
    Written(writes) <= delta && (AllWork(writes) ==> delta <= Written(writes))
  }

  /** What becomes of every storage operation of a commit and of its rollback. */
  datatype Schedule = Schedule(applies: bool, writes: Writes, record: Fault, pointer: Fault, found: bool,
    restore: Fault)

  // ---- What each operation does to the disk

  function PutBlock(hash: Block -> Hash, d: Disk, n: Node, f: Fault): Disk {
    if f.Lost? then d else d.(blocks := d.blocks[Address(hash, n) := Encode(hash, n)])
  }

  function PutRecord(d: Disk, t: Node, f: Fault): Disk {
    if f.Lost? then d else d.(records := d.records + {t})
  }

  function MovePointer(d: Disk, v: Version, f: Fault): Disk {
    if f.Lost? then d else d.(pointer := PointerTo(v))
  }

  function FlushStates(hash: Block -> Hash, d: Disk, writes: Writes): seq<Disk>
    decreases |writes|
  {
    if writes == [] then []
    else
      var next := PutBlock(hash, d, writes[0].0, writes[0].1);
      [next] + FlushStates(hash, next, writes[1..])
  }

  /** The states an operation takes the disk through, the tree it leaves in memory, and whether it succeeds. */
  datatype Run = Run(states: seq<Disk>, index: Version, ok: bool)

  /** Recording the revision and advancing the pointer, once the blocks are there. */
  function PublishRun(d: Disk, next: Version, record: Fault, pointer: Fault): Run {
    if next.None? then Run([MovePointer(d, next, pointer)], next, pointer.Works?)
    else
      var recorded := PutRecord(d, next.value, record);
      if !record.Works? then Run([recorded], next, false)
      else Run([recorded, MovePointer(recorded, next, pointer)], next, pointer.Works?)
  }

  function TransactRun(hash: Block -> Hash, d: Disk, index: Version, next: Version, s: Schedule): Run {
    if !s.applies then Run([], index, false)
    else
      var flushed := FlushStates(hash, d, s.writes);
      if !AllWork(s.writes) then Run(flushed, next, false)
      else
        var rest := PublishRun(Last(d, flushed), next, s.record, s.pointer);
        Run(flushed + rest.states, next, rest.ok)
  }

  function Target(d: Disk, revision: Option<Version>): Version {
    if revision.Some? then revision.value else Pointed(d.pointer)
  }

  function ResetRun(d: Disk, index: Version, revision: Option<Version>, found: bool, f: Fault): Run {
    var target := Target(d, revision);
    if !found || !Recorded(d, target) then Run([], index, false)
    else if revision.None? then Run([], target, true)
    else Run([MovePointer(d, target, f)], if f.Works? then target else index, f.Works?)
  }

  datatype Outcome = Done | RolledBack | Stranded

  function CommitRun(hash: Block -> Hash, d: Disk, index: Version, next: Version, s: Schedule): (Run, Outcome) {
    var first := TransactRun(hash, d, index, next, s);
    if first.ok then (first, Done)
    else
      var back := ResetRun(Last(d, first.states), first.index, Some(index), s.found, s.restore);
      (Run(first.states + back.states, back.index, false), if back.ok then RolledBack else Stranded)
  }

  // ---- Growth

  lemma {:induction false} GrowsFrom(a: Disk, b: Disk, c: Disk)
    requires Grows(a, b) && Grows(b, c)
    ensures Grows(a, c)
  {
  }

  lemma {:induction false} OrderedJoin(a: seq<Disk>, b: seq<Disk>)
    requires a != [] && Ordered(a) && Ordered([a[|a| - 1]] + b)
    ensures Ordered(a + b)
  {
    hide Grows;
    var last, tail := a[|a| - 1], [a[|a| - 1]] + b;
    forall i, j | 0 <= i <= j < |a + b| ensures Grows((a + b)[i], (a + b)[j]) {
      if i < |a| <= j {
        assert Grows(a[i], last) && Grows(tail[0], tail[j - |a| + 1]);
        GrowsFrom(a[i], last, b[j - |a|]);
      } else if |a| <= i {
        assert Grows(tail[i - |a| + 1], tail[j - |a| + 1]);
      }
    }
  }

  lemma {:induction false} GrowsItself(d: Disk)
    ensures Grows(d, d) && Ordered([d])
  {
  }

  lemma {:induction false} OrderedStep(d: Disk, next: Disk, rest: seq<Disk>)
    requires Grows(d, next) && Ordered([next] + rest)
    ensures Ordered([d] + ([next] + rest))
  {
    hide Grows;
    GrowsItself(d);
    GrowsItself(next);
    assert Ordered([d] + [next]);
    OrderedJoin([d, next], rest);
    assert [d, next] + rest == [d] + ([next] + rest);
  }

  lemma {:induction false} SafeGrows(hash: Block -> Hash, before: Disk, after: Disk)
    requires Safe(hash, before) && Grows(before, after)
    requires forall t :: t in after.records ==> t in before.records || Durable(hash, after.blocks, Some(t))
    requires after.pointer.At? ==> after.pointer.root in after.records
    ensures Safe(hash, after)
  {
    hide Durable, Extended;
    forall t | t in after.records ensures Durable(hash, after.blocks, Some(t)) {
      if t in before.records {
        DurableGrows(hash, before.blocks, after.blocks, Some(t));
      }
    }
  }

  /** The blocks that are and will be on disk do not collide. */
  ghost predicate Apart(hash: Block -> Hash, d: Disk, nodes: set<Node>) {
    Addressed(hash, d.blocks) && CollisionFree(hash, d.blocks.Values + BlocksOf(hash, nodes))
  }

  lemma {:induction false} PutBlockKeeps(hash: Block -> Hash, d: Disk, n: Node, f: Fault, nodes: set<Node>)
    requires Apart(hash, d, nodes) && n in nodes
    ensures var next := PutBlock(hash, d, n, f);
            && Grows(d, next) && Apart(hash, next, nodes) &&
              next.blocks.Values <= d.blocks.Values + BlocksOf(hash, nodes)
            && (Safe(hash, d) ==> Safe(hash, next)) && Flushed(hash, d.blocks, if f.Lost? then {} else {n}, next.blocks)
            && next.records == d.records && next.pointer == d.pointer
  {
    hide Flushed, Address, Encode, Durable, CollisionFree, Addressed, Safe;
    var next, values := PutBlock(hash, d, n, f), d.blocks.Values + BlocksOf(hash, nodes);
    assert Encode(hash, n) in BlocksOf(hash, nodes);
    GrowsItself(d);
    FlushedNothing(hash, d.blocks);
    if !f.Lost? {
      FewerCollisions(hash, values, d.blocks.Values + {Encode(hash, n)});
      WriteKeeps(hash, d.blocks, n);
      FlushExtends(hash, d.blocks, {n}, next.blocks);
      FewerCollisions(hash, values, next.blocks.Values + BlocksOf(hash, nodes));
      if Safe(hash, d) {
        SameRecordsSafe(hash, d, next);
      }
    }
  }

  lemma {:induction false} ApartFrom(hash: Block -> Hash, d: Disk, delta: set<Node>, writes: Writes)
    requires Apart(hash, d, delta) && Scheduled(delta, writes)
    ensures Apart(hash, d, Written(writes))
  {
    hide Encode, CollisionFree, Addressed;
    FewerCollisions(hash, d.blocks.Values + BlocksOf(hash, delta), d.blocks.Values + BlocksOf(hash, Written(writes)));
  }

  lemma {:induction false} SameRecordsSafe(hash: Block -> Hash, d: Disk, next: Disk)
    requires Safe(hash, d) && Grows(d, next) && next.records == d.records && next.pointer == d.pointer
    ensures Safe(hash, next)
  {
    SafeGrows(hash, d, next);
  }

  lemma {:induction false} FlushExtends(hash: Block -> Hash, before: BlockMap, delta: set<Node>, after: BlockMap)
    requires Flushed(hash, before, delta, after)
    ensures Extended(before, after)
  {
  }

  /** However the writes of a flush end, nothing is lost, no state is unsafe, and exactly the nodes whose write took
      effect were added: all of them if all work. */
  lemma {:induction false} FlushKeeps(hash: Block -> Hash, d: Disk, writes: Writes, nodes: set<Node>)
    requires Apart(hash, d, nodes) && Written(writes) <= nodes
    ensures var states := FlushStates(hash, d, writes);
            var end := Last(d, states);
            && Ordered([d] + states) && (Safe(hash, d) ==> AllSafe(hash, states))
            && end.records == d.records && end.pointer == d.pointer
            && Apart(hash, end, nodes) && end.blocks.Values <= d.blocks.Values + BlocksOf(hash, nodes)
            && |states| == |writes| && Flushed(hash, d.blocks, Landed(writes), end.blocks)
            && (AllWork(writes) ==> Landed(writes) == Written(writes))
    decreases |writes|
  {
    hide Flushed, Safe, Grows, Apart, PutBlock, Ordered, BlocksOf;
    if writes == [] {
      GrowsItself(d);
      FlushedNothing(hash, d.blocks);
      assert [d] + [] == [d] && Written(writes) == Landed(writes) == {};
    } else {
      var n, rest := writes[0].0, writes[1..];
      var next := PutBlock(hash, d, n, writes[0].1);
      var later := FlushStates(hash, next, rest);
      WrittenFirst(writes);
      PutBlockKeeps(hash, d, n, writes[0].1, nodes);
      FlushKeeps(hash, next, rest, nodes);
      OrderedStep(d, next, later);
      assert Last(d, [next] + later) == Last(next, later);
      var first := if writes[0].1.Lost? then {} else {n};
      FlushedTwice(hash, d.blocks, first, next.blocks, Landed(rest), Last(next, later).blocks);
      assert AllWork(writes) ==> AllWork(rest);
    }
  }

  lemma {:induction false} WrittenFirst(writes: Writes)
    requires writes != []
    ensures Written(writes) == {writes[0].0} + Written(writes[1..])
    ensures Landed(writes) == (if writes[0].1.Lost? then {} else {writes[0].0}) + Landed(writes[1..])
  {
    var first := if writes[0].1.Lost? then {} else {writes[0].0};
    forall n | n in Landed(writes) ensures n in first + Landed(writes[1..]) {
      var i :| 0 <= i < |writes| && !writes[i].1.Lost? && writes[i].0 == n;
      assert i > 0 ==> writes[1..][i - 1] == writes[i];
    }
    forall n | n in Written(writes) ensures n in {writes[0].0} + Written(writes[1..]) {
      var i :| 0 <= i < |writes| && writes[i].0 == n;
      assert i > 0 ==> writes[1..][i - 1].0 == n;
    }
  }

  lemma {:induction false} PublishKeeps(hash: Block -> Hash, d: Disk, next: Version, record: Fault, pointer: Fault)
    ensures var run := PublishRun(d, next, record, pointer);
            && Ordered([d] + run.states) && Last(d, run.states).blocks == d.blocks
            && (Safe(hash, d) && Durable(hash, d.blocks, next) ==> AllSafe(hash, run.states))
            && (run.ok ==>
              Last(d, run.states) ==
              Disk(d.blocks, if next.None? then d.records else d.records + {next.value}, PointerTo(next)))
            && (Last(d, run.states).pointer == d.pointer || Last(d, run.states).pointer == PointerTo(next))
  {
    hide Durable, Grows;
    var run := PublishRun(d, next, record, pointer);
    var first := run.states[0];
    GrowsRecords(d, first);
    GrowsItself(first);
    assert [first] + [] == [first];
    OrderedStep(d, first, []);
    if Safe(hash, d) && Durable(hash, d.blocks, next) {
      SafeGrows(hash, d, first);
    }
    if |run.states| == 2 {
      var second := run.states[1];
      GrowsRecords(first, second);
      GrowsItself(second);
      assert [second] + [] == [second];
      OrderedStep(first, second, []);
      OrderedStep(d, first, [second]);
      assert run.states == [first] + [second];
      if Safe(hash, first) {
        SafeGrows(hash, first, second);
      }
    } else {
      assert run.states == [first];
    }
  }

  lemma {:induction false} GrowsRecords(d: Disk, next: Disk)
    requires next.blocks == d.blocks && d.records <= next.records
    ensures Grows(d, next)
  {
  }

  /** What a successful commit leaves on disk. */
  ghost predicate Committed(hash: Block -> Hash, before: Disk, next: Version, delta: set<Node>, after: Disk) {
    && Flushed(hash, before.blocks, delta, after.blocks)
    && after.records == (if next.None? then before.records else before.records + {next.value})
    && after.pointer == PointerTo(next)
  }

  /** From a durable tree every state of a transaction is safe, whatever fails. */
  lemma {:induction false} TransactKeeps(hash: Block -> Hash, d: Disk, index: Version, next: Version, delta: set<Node>,
          s: Schedule)
    requires Apart(hash, d, delta) && Applied(index, next, delta) && Scheduled(delta, s.writes)
    ensures var run := TransactRun(hash, d, index, next, s);
            var end := Last(d, run.states);
            && Ordered([d] + run.states)
            && (Safe(hash, d) && Durable(hash, d.blocks, index) ==> AllSafe(hash, run.states))
            && (run.ok ==> Committed(hash, d, next, delta, end))
            && Addressed(hash, end.blocks) && end.blocks.Values <= d.blocks.Values + BlocksOf(hash, delta)
            && (end.pointer == d.pointer || end.pointer == PointerTo(next))
  {
    hide Flushed, Safe, Grows, Durable, FlushStates, PublishRun, Ordered, Applied, Written, CollisionFree, Addressed,
         BlocksOf;
    GrowsItself(d);
    assert [d] + [] == [d];
    if s.applies {
      var flushed := FlushStates(hash, d, s.writes);
      var mid := Last(d, flushed);
      FlushKeeps(hash, d, s.writes, delta);
      if AllWork(s.writes) {
        assert Written(s.writes) == delta;
        if Durable(hash, d.blocks, index) {
          FlushMakesDurable(hash, d.blocks, index, next, delta, mid.blocks);
        }
        var rest := PublishRun(mid, next, s.record, s.pointer);
        PublishKeeps(hash, mid, next, s.record, s.pointer);
        Chained(d, flushed, rest.states);
        SafeLast(hash, d, flushed);
      }
    }
  }

  lemma {:induction false} Chained(d: Disk, a: seq<Disk>, b: seq<Disk>)
    requires Ordered([d] + a) && Ordered([Last(d, a)] + b)
    ensures Ordered([d] + (a + b)) && Last(d, a + b) == Last(Last(d, a), b)
  {
    hide Ordered;
    assert ([d] + a)[|a|] == Last(d, a);
    OrderedJoin([d] + a, b);
    assert ([d] + a) + b == [d] + (a + b);
  }

  lemma {:induction false} SafeJoin(hash: Block -> Hash, a: seq<Disk>, b: seq<Disk>)
    ensures AllSafe(hash, a) && AllSafe(hash, b) ==> AllSafe(hash, a + b)
    ensures AllSafe(hash, a) && a != [] ==> Safe(hash, a[|a| - 1])
  {
    hide Safe;
  }

  lemma {:induction false} SafeLast(hash: Block -> Hash, d: Disk, states: seq<Disk>)
    ensures Safe(hash, d) && AllSafe(hash, states) ==> Safe(hash, Last(d, states))
  {
  }

  lemma {:induction false} ResetKeeps(hash: Block -> Hash, d: Disk, index: Version, revision: Option<Version>,
          found: bool, f: Fault)
    ensures var run := ResetRun(d, index, revision, found, f);
            var end := Last(d, run.states);
            && Ordered([d] + run.states) && (Safe(hash, d) ==> AllSafe(hash, run.states))
            && end.blocks == d.blocks && end.records == d.records
            && (run.ok ==>
              run.index == Target(d, revision) && Recorded(end, run.index) &&
              (revision.Some? ==> end.pointer == PointerTo(run.index)))
            && (!run.ok ==> run.index == index)
            && (revision.None? ==> end == d) &&
              (end.pointer == d.pointer || end.pointer == PointerTo(Target(d, revision)))
  {
    hide Durable, Extended;
    var run := ResetRun(d, index, revision, found, f);
    GrowsItself(d);
    if run.states == [] {
      assert [d] + [] == [d];
    } else {
      var first := run.states[0];
      GrowsRecords(d, first);
      GrowsItself(first);
      assert run.states == [first] && [first] + [] == [first];
      OrderedStep(d, first, []);
      if Safe(hash, d) {
        SafeGrows(hash, d, first);
      }
    }
  }

  /** The same for a whole commit; a rollback that succeeds leaves tree and pointer at the base revision. */
  lemma {:induction false} CommitKeeps(hash: Block -> Hash, d: Disk, index: Version, next: Version, delta: set<Node>,
          s: Schedule)
    requires Apart(hash, d, delta) && Applied(index, next, delta) && Scheduled(delta, s.writes)
    ensures var (run, outcome) := CommitRun(hash, d, index, next, s);
            var end := Last(d, run.states);
            && Ordered([d] + run.states)
            && (Safe(hash, d) && Durable(hash, d.blocks, index) ==> AllSafe(hash, run.states))
            && (outcome.Done? ==> run.index == next && Committed(hash, d, next, delta, end))
            && (outcome.RolledBack? ==> run.index == index && end.pointer == PointerTo(index))
            && (!outcome.Stranded? ==> Recorded(end, run.index))
            && (run.index == index || run.index == next)
            && end.pointer in {d.pointer, PointerTo(next), PointerTo(index)}
            && Addressed(hash, end.blocks) && end.blocks.Values <= d.blocks.Values + BlocksOf(hash, delta)
  {
    hide Flushed, Safe, Grows, Durable, TransactRun, ResetRun, Ordered, Applied, Apart, Addressed, BlocksOf;
    var first := TransactRun(hash, d, index, next, s);
    var mid := Last(d, first.states);
    TransactKeeps(hash, d, index, next, delta, s);
    TransactIndex(hash, d, index, next, s);
    if !first.ok {
      var back := ResetRun(mid, first.index, Some(index), s.found, s.restore);
      ResetKeeps(hash, mid, first.index, Some(index), s.found, s.restore);
      Chained(d, first.states, back.states);
      SafeLast(hash, d, first.states);
    }
  }

  lemma {:induction false} TransactIndex(hash: Block -> Hash, d: Disk, index: Version, next: Version, s: Schedule)
    ensures var run := TransactRun(hash, d, index, next, s);
            (run.index == index || run.index == next) && (run.ok ==> run.index == next)
  {
  }

  // ---- What becomes of each operation, from its schedule alone

  /** Every operation of the transaction works. */
  predicate Succeeds(next: Version, s: Schedule) {
    s.applies && AllWork(s.writes) && (next.Some? ==> s.record.Works?) && s.pointer.Works?
  }

  /** The transaction gets as far as recording its revision, and the record lands. */
  predicate RecordLands(next: Version, s: Schedule) {
    s.applies && AllWork(s.writes) && next.Some? && !s.record.Lost?
  }

  /** It gets as far as the pointer, and the pointer moves. */
  predicate PointerLands(next: Version, s: Schedule) {
    s.applies && AllWork(s.writes) && (next.Some? ==> s.record.Works?) && !s.pointer.Lost?
  }

  /** A transaction succeeds exactly when all of its operations work, and leaves exactly what landed. */
  lemma {:induction false} TransactDecides(hash: Block -> Hash, d: Disk, index: Version, next: Version, s: Schedule)
    requires Apart(hash, d, Written(s.writes))
    ensures var run := TransactRun(hash, d, index, next, s);
            var end := Last(d, run.states);
            && (run.ok <==> Succeeds(next, s)) && run.index == (if s.applies then next else index)
            && Flushed(hash, d.blocks, if s.applies then Landed(s.writes) else {}, end.blocks)
            && end.records == d.records + (if RecordLands(next, s) then {next.value} else {})
            && end.pointer == if PointerLands(next, s) then PointerTo(next) else d.pointer
  {
    hide Flushed, FlushStates, Apart, AllWork, Written, Landed;
    FlushedNothing(hash, d.blocks);
    FlushKeeps(hash, d, s.writes, Written(s.writes));
    if s.applies && AllWork(s.writes) {
      var flushed := FlushStates(hash, d, s.writes);
      LastJoined(d, flushed, PublishRun(Last(d, flushed), next, s.record, s.pointer).states);
    }
  }

  /** A reset succeeds exactly when the revision is found and recorded and, where one was asked for, the pointer write
      works. */
  lemma {:induction false} ResetDecides(d: Disk, index: Version, revision: Option<Version>, found: bool, f: Fault)
    ensures var run := ResetRun(d, index, revision, found, f);
            var target := if revision.Some? then revision.value else Pointed(d.pointer);
            var reached := found && (target.Some? ==> target.value in d.records);
            && (run.ok <==> reached && (revision.Some? ==> f.Works?)) && run.index == (if run.ok then target else index)
            && Last(d, run.states) ==
               if reached && revision.Some? && !f.Lost? then d.(pointer := PointerTo(target)) else d
  {
  }

  /** The base revision is recorded once the transaction is over. */
  predicate BaseRecorded(d: Disk, index: Version, next: Version, s: Schedule) {
    index.Some? ==> index.value in d.records || (next == index && RecordLands(next, s))
  }

  /** A commit is done exactly when every operation of its transaction works; otherwise it is rolled back exactly when
      the base revision is found and recorded and the pointer write of the rollback works. */
  lemma {:induction false} CommitDecides(hash: Block -> Hash, d: Disk, index: Version, next: Version, s: Schedule)
    requires Apart(hash, d, Written(s.writes))
    ensures var (run, outcome) := CommitRun(hash, d, index, next, s);
            var end := Last(d, run.states);
            var back := !Succeeds(next, s) && s.found && BaseRecorded(d, index, next, s);
            && (outcome.Done? <==> Succeeds(next, s)) && (outcome.RolledBack? <==> back && s.restore.Works?)
            && run.ok == outcome.Done?
            && run.index == (if outcome.RolledBack? || !s.applies then index else next)
            && Flushed(hash, d.blocks, if s.applies then Landed(s.writes) else {}, end.blocks)
            && end.records == d.records + (if RecordLands(next, s) then {next.value} else {})
            && end.pointer == if back && !s.restore.Lost? then PointerTo(index)
                              else if PointerLands(next, s) then PointerTo(next) else d.pointer
  {
    hide Flushed, TransactRun, ResetRun, Apart, AllWork, Written, Landed, PointerLands;
    TransactDecides(hash, d, index, next, s);
    var first := TransactRun(hash, d, index, next, s);
    var mid := Last(d, first.states);
    ResetDecides(mid, first.index, Some(index), s.found, s.restore);
    LastJoined(d, first.states, ResetRun(mid, first.index, Some(index), s.found, s.restore).states);
  }

  // ---- The store

  /** What opening a store finds: the tree of the pointed-to revision, if its record is there. */
  function Opened(d: Disk): Version {
    if d.pointer.At? && d.pointer.root in d.records then Some(d.pointer.root) else None
  }

  /**
   * One writer on one disk. `history` lists every state the disk has been in, so that it
   * also holds the states in which a crash may leave it.
   */
  class Artifacts {
    const hash: Block -> Hash
    var disk: Disk
    var index: Version
    ghost var history: seq<Disk>

    ghost predicate Valid()
      reads this
    {
      history != [] && history[|history| - 1] == disk
    }

    constructor Open(hash: Block -> Hash, d: Disk)
      ensures Valid() && this.hash == hash && disk == d && history == [d] && index == Opened(d)
      ensures index.Some? <==> d.pointer.At? && d.pointer.root in d.records
      ensures index.Some? ==> index.value == d.pointer.root
      ensures Safe(hash, d) ==> index == Pointed(d.pointer) && Durable(hash, d.blocks, index)
    {
      this.hash := hash;
      disk := d;
      index := Opened(d);
      history := [d];
    }

    method WriteBlock(n: Node, f: Fault) returns (ok: bool)
      requires Valid()
      modifies this
      ensures Valid() && index == old(index) && ok == f.Works?
      ensures disk == PutBlock(hash, old(disk), n, f) && history == old(history) + [disk]
    {
      if !f.Lost? {
        disk := disk.(blocks := disk.blocks[Address(hash, n) := Encode(hash, n)]);
      }
      history := history + [disk];
      ok := f.Works?;
    }

    method WriteRecord(t: Node, f: Fault) returns (ok: bool)
      requires Valid()
      modifies this
      ensures Valid() && index == old(index) && ok == f.Works?
      ensures disk == PutRecord(old(disk), t, f) && history == old(history) + [disk]
    {
      if !f.Lost? {
        disk := disk.(records := disk.records + {t});
      }
      history := history + [disk];
      ok := f.Works?;
    }

    method SetPointer(v: Version, f: Fault) returns (ok: bool)
      requires Valid()
      modifies this
      ensures Valid() && index == old(index) && ok == f.Works?
      ensures disk == MovePointer(old(disk), v, f) && history == old(history) + [disk]
    {
      if !f.Lost? {
        disk := disk.(pointer := PointerTo(v));
      }
      history := history + [disk];
      ok := f.Works?;
    }

    /** The block writes in the order in which they end, stragglers after a failure included. */
    method Flush(writes: Writes) returns (ok: bool)
      requires Valid()
      modifies this
      ensures Valid() && index == old(index) && ok == AllWork(writes)
      ensures history == old(history) + FlushStates(hash, old(disk), writes)
      ensures disk == Last(old(disk), FlushStates(hash, old(disk), writes))
    {
      hide PutBlock, FlushStates;
      ok := true;
      NoWrites(hash, disk, writes);
      for i := 0 to |writes|
        invariant Valid() && index == old(index) && ok == AllWork(writes[..i])
        invariant history == old(history) + FlushStates(hash, old(disk), writes[..i])
        invariant disk == Last(old(disk), FlushStates(hash, old(disk), writes[..i]))
      {
        OneMoreWrite(hash, old(disk), writes, i);
        var written := WriteBlock(writes[i].0, writes[i].1);
        ok := ok && written;
      }
      assert writes[..|writes|] == writes;
    }

    /** Moves to a revision: the given one, or else the stored one. */
    method Reset(revision: Option<Version>, found: bool, f: Fault) returns (ok: bool)
      requires Valid()
      modifies this
      ensures Valid()
      ensures var run := ResetRun(old(disk), old(index), revision, found, f);
              ok == run.ok && index == run.index && history == old(history) + run.states &&
                disk == Last(old(disk), run.states)
      ensures var target := if revision.Some? then revision.value else Pointed(old(disk.pointer));
              && (ok <==> found && Recorded(old(disk), target) && (revision.Some? ==> f.Works?))
              && (ok ==> index == target && (revision.Some? ==> disk.pointer == PointerTo(target)))
    {
      var target := if revision.Some? then revision.value else Pointed(disk.pointer);
      if !found || !Recorded(disk, target) {
        return false;
      }
      if revision.Some? {
        var moved := SetPointer(target, f);
        if !moved {
          return false;
        }
      }
      index := target;
      ok := true;
    }

    /** Applies a batch, makes its blocks durable, records the revision and only then advances the pointer. */
    method Transact(next: Version, s: Schedule) returns (ok: bool)
      requires Valid()
      modifies this
      ensures Valid()
      ensures var run := TransactRun(hash, old(disk), old(index), next, s);
              ok == run.ok && index == run.index && history == old(history) + run.states &&
                disk == Last(old(disk), run.states)
      ensures ok <==> Succeeds(next, s)
    {
      hide FlushStates, PutRecord, MovePointer, AllWork;
      if !s.applies {
        return false;
      }
      index := next;
      var flushed := Flush(s.writes);
      if !flushed {
        return false;
      }
      if next.Some? {
        var recorded := WriteRecord(next.value, s.record);
        if !recorded {
          return false;
        }
      }
      ok := SetPointer(next, s.pointer);
    }

    /** A failed transaction is rolled back to the revision it started from. */
    method Commit(next: Version, ghost delta: set<Node>, s: Schedule) returns (r: Outcome)
      requires Valid() && Apart(hash, disk, delta) && Applied(index, next, delta) && Scheduled(delta, s.writes)
      modifies this
      ensures Valid()
      ensures var (run, outcome) := CommitRun(hash, old(disk), old(index), next, s);
              r == outcome && index == run.index && history == old(history) + run.states &&
                disk == Last(old(disk), run.states)
      ensures old(AllSafe(hash, history)) && Durable(hash, old(disk.blocks), old(index)) ==> AllSafe(hash, history)
      ensures old(Ordered(history)) ==> Ordered(history)
      ensures r.Done? <==> Succeeds(next, s)
      ensures r.RolledBack? <==>
              !Succeeds(next, s) && s.found && BaseRecorded(old(disk), old(index), next, s) && s.restore.Works?
      ensures r.Done? ==> index == next && Committed(hash, old(disk), next, delta, disk)
      ensures r.RolledBack? ==> index == old(index) && disk.pointer == PointerTo(old(index))
    {
      hide TransactRun, ResetRun, Ordered, Safe, Durable, Committed, Apart, Applied, Scheduled, Succeeds, BaseRecorded;
      hide AllSafe, Grows, Flushed, AllWork, Recorded, RecordLands, PointerLands;
      CommitKeeps(hash, disk, index, next, delta, s);
      ApartFrom(hash, disk, delta, s.writes);
      CommitDecides(hash, disk, index, next, s);
      ghost var run := CommitRun(hash, disk, index, next, s).0;
      if Ordered(history) {
        OrderedJoin(history, run.states);
      }
      SafeJoin(hash, history, run.states);
      var base := index;
      var ok := Transact(next, s);
      if ok {
        return Done;
      }
      var restored := Reset(Some(base), s.found, s.restore);
      r := if restored then RolledBack else Stranded;
    }
  }

  lemma {:induction false} NoWrites(hash: Block -> Hash, d: Disk, writes: Writes)
    ensures FlushStates(hash, d, writes[..0]) == []
  {
  }

  lemma {:induction false} OneMoreWrite(hash: Block -> Hash, d: Disk, writes: Writes, i: nat)
    requires i < |writes|
    ensures var before := FlushStates(hash, d, writes[..i]);
            FlushStates(hash, d, writes[..i + 1]) ==
              before + [PutBlock(hash, Last(d, before), writes[i].0, writes[i].1)]
    ensures AllWork(writes[..i + 1]) == (AllWork(writes[..i]) && writes[i].1.Works?)
    decreases i
  {
    hide PutBlock;
    assert writes[..i + 1] == writes[..i] + [writes[i]];
    if i == 0 {
      assert writes[..1][1..] == [];
    } else {
      var next := PutBlock(hash, d, writes[0].0, writes[0].1);
      OneMoreWrite(hash, next, writes[1..], i - 1);
      assert writes[1..][..i] == writes[..i + 1][1..] && writes[1..][..i - 1] == writes[..i][1..];
    }
  }

  // ---- Whole sessions

  /** A recorded version is durable on a safe disk, so a commit may start from it. */
  lemma {:induction false} RecordedIsDurable(hash: Block -> Hash, d: Disk, v: Version)
    requires Safe(hash, d) && Recorded(d, v)
    ensures Durable(hash, d.blocks, v)
  {
  }

  /** Opening any safe disk, such as one a crash left behind, finds the pointed-to revision whole. */
  lemma {:induction false} OpenRecovers(hash: Block -> Hash, d: Disk)
    requires Safe(hash, d)
    ensures Opened(d) == Pointed(d.pointer) && Durable(hash, d.blocks, Opened(d)) && Recorded(d, Opened(d))
  {
    RecordedIsDurable(hash, d, Opened(d));
  }

  /** What a writer may do; what fails is part of it. */
  datatype Operation =
    | CommitBatch(batch: Version -> (Version, set<Node>), schedule: Version -> Schedule)
    | ResetTo(revision: Option<Version>, found: bool, fault: Fault)
    | Reopen

  /** The batch applies to every version and writes only blocks of the universe. */
  ghost predicate Applicable(hash: Block -> Hash, universe: set<Block>, op: Operation) {
    op.CommitBatch? ==> forall v ::
      Applied(v, op.batch(v).0, op.batch(v).1) && BlocksOf(hash, op.batch(v).1) <= universe &&
        Scheduled(op.batch(v).1, op.schedule(v).writes)
  }

  /** A writer: what is on disk and what is in memory. */
  datatype Writer = Writer(disk: Disk, index: Version)

  /** What one operation does to a writer, and the states it takes the disk through. */
  function Operate(hash: Block -> Hash, w: Writer, op: Operation): (Writer, seq<Disk>) {
    match op
    case CommitBatch(batch, schedule) =>
      var (run, _) := CommitRun(hash, w.disk, w.index, batch(w.index).0, schedule(w.index));
      (Writer(Last(w.disk, run.states), run.index), run.states)
    case ResetTo(revision, found, fault) =>
      var run := ResetRun(w.disk, w.index, revision, found, fault);
      (Writer(Last(w.disk, run.states), run.index), run.states)
    case Reopen => (Writer(w.disk, Opened(w.disk)), [])
  }

  function StatesOf(hash: Block -> Hash, w: Writer, ops: seq<Operation>): seq<Disk>
    decreases |ops|
  {
    if ops == [] then []
    else
      var (next, states) := Operate(hash, w, ops[0]);
      states + StatesOf(hash, next, ops[1..])
  }

  predicate Whole(hash: Block -> Hash, w: Writer) {
    Durable(hash, w.disk.blocks, w.index)
  }

  /** Every commit of the session starts from a tree that is on disk. */
  ghost predicate Careful(hash: Block -> Hash, w: Writer, ops: seq<Operation>)
    decreases |ops|
  {
    ops == [] ||
    ((ops[0].CommitBatch? ==> Whole(hash, w)) && Careful(hash, Operate(hash, w, ops[0]).0, ops[1..]))
  }

  /** What holds between the operations of a session, whatever it does. */
  ghost predicate Working(hash: Block -> Hash, universe: set<Block>, w: Writer) {
    Addressed(hash, w.disk.blocks) && w.disk.blocks.Values <= universe
  }

  lemma {:induction false} WithinUniverse(hash: Block -> Hash, universe: set<Block>, d: Disk, delta: set<Node>)
    requires CollisionFree(hash, universe) && Addressed(hash, d.blocks)
    requires d.blocks.Values <= universe && BlocksOf(hash, delta) <= universe
    ensures Apart(hash, d, delta)
  {
    FewerCollisions(hash, universe, d.blocks.Values + BlocksOf(hash, delta));
  }

  /** Operations lose nothing, and all but a commit of a tree that is not on disk leave only safe states. */
  lemma {:induction false} OperateKeeps(hash: Block -> Hash, universe: set<Block>, w: Writer, op: Operation)
    requires Working(hash, universe, w) && CollisionFree(hash, universe) && Applicable(hash, universe, op)
    ensures var (next, states) := Operate(hash, w, op);
            && Working(hash, universe, next) && Ordered([w.disk] + states) && next.disk == Last(w.disk, states)
            && (Safe(hash, w.disk) && (op.CommitBatch? ==> Whole(hash, w)) ==>
                AllSafe(hash, states) && Safe(hash, next.disk))
  {
    hide Safe, Grows, CommitRun, ResetRun, Ordered, Applied, Apart, Addressed, BlocksOf, CollisionFree, Scheduled,
         Durable;
    GrowsItself(w.disk);
    assert [w.disk] + [] == [w.disk];
    if op.CommitBatch? {
      var (to, delta) := op.batch(w.index);
      assert Applied(w.index, to, delta) && BlocksOf(hash, delta) <= universe;
      assert Scheduled(delta, op.schedule(w.index).writes);
      WithinUniverse(hash, universe, w.disk, delta);
      CommitKeeps(hash, w.disk, w.index, to, delta, op.schedule(w.index));
      SafeLast(hash, w.disk, CommitRun(hash, w.disk, w.index, to, op.schedule(w.index)).0.states);
    }
    if op.ResetTo? {
      ResetKeeps(hash, w.disk, w.index, op.revision, op.found, op.fault);
      SafeLast(hash, w.disk, ResetRun(w.disk, w.index, op.revision, op.found, op.fault).states);
    }
  }

  /** What an operation that meets no failure leaves in memory: the batch's tree, the revision asked for or else the
      pointed-to one, or what reopening finds. */
  lemma {:induction false} OperateReaches(hash: Block -> Hash, universe: set<Block>, w: Writer, op: Operation)
    requires Working(hash, universe, w) && CollisionFree(hash, universe) && Applicable(hash, universe, op)
    ensures var next := Operate(hash, w, op).0;
            match op
            case CommitBatch(batch, schedule) =>
              Succeeds(batch(w.index).0, schedule(w.index)) ==>
              next.index == batch(w.index).0 && Committed(hash, w.disk, batch(w.index).0, batch(w.index).1, next.disk)
            case ResetTo(revision, found, fault) =>
              var target := if revision.Some? then revision.value else Pointed(w.disk.pointer);
              found && Recorded(w.disk, target) && fault.Works? ==>
              && next.index == target
              && next.disk == if revision.None? then w.disk else w.disk.(pointer := PointerTo(target))
            case Reopen =>
              next.disk == w.disk && (next.index.Some? <==> w.disk.pointer.At? && w.disk.pointer.root in w.disk.records)
  {
    hide CommitRun, ResetRun, Applied, Apart, Addressed, BlocksOf, CollisionFree, Scheduled, Committed, Succeeds;
    if op.CommitBatch? {
      var (to, delta) := op.batch(w.index);
      assert Applied(w.index, to, delta) && BlocksOf(hash, delta) <= universe;
      assert Scheduled(delta, op.schedule(w.index).writes);
      WithinUniverse(hash, universe, w.disk, delta);
      CommitKeeps(hash, w.disk, w.index, to, delta, op.schedule(w.index));
      ApartFrom(hash, w.disk, delta, op.schedule(w.index).writes);
      CommitDecides(hash, w.disk, w.index, to, op.schedule(w.index));
    }
    if op.ResetTo? {
      ResetDecides(w.disk, w.index, op.revision, op.found, op.fault);
    }
  }

  /** The operation is a commit whose rollback failed too. */
  predicate Strands(hash: Block -> Hash, w: Writer, op: Operation) {
    op.CommitBatch? && CommitRun(hash, w.disk, w.index, op.batch(w.index).0, op.schedule(w.index)).1.Stranded?
  }

  /** The operation is a reopening, or a reset that succeeds. */
  predicate Restores(w: Writer, op: Operation) {
    op.Reopen? || (op.ResetTo? && ResetRun(w.disk, w.index, op.revision, op.found, op.fault).ok)
  }

  /** A tree in memory that is on disk stays so, unless a commit strands the writer; and a reopening or a reset that
      succeeds brings back one that is. */
  lemma {:induction false} StaysWhole(hash: Block -> Hash, universe: set<Block>, w: Writer, op: Operation)
    requires Working(hash, universe, w) && CollisionFree(hash, universe) && Applicable(hash, universe, op)
    requires Safe(hash, w.disk) && (Restores(w, op) || (Whole(hash, w) && !Strands(hash, w, op)))
    ensures Whole(hash, Operate(hash, w, op).0)
  {
    hide Safe, Grows, CommitRun, ResetRun, Ordered, Applied, Apart, Addressed, BlocksOf, CollisionFree, Scheduled,
         Durable;
    OperateKeeps(hash, universe, w, op);
    var (next, states) := Operate(hash, w, op);
    if op.CommitBatch? {
      var (to, delta) := op.batch(w.index);
      assert Applied(w.index, to, delta) && BlocksOf(hash, delta) <= universe;
      assert Scheduled(delta, op.schedule(w.index).writes);
      WithinUniverse(hash, universe, w.disk, delta);
      CommitKeeps(hash, w.disk, w.index, to, delta, op.schedule(w.index));
      RecordedIsDurable(hash, next.disk, next.index);
    }
    if op.ResetTo? {
      var run := ResetRun(w.disk, w.index, op.revision, op.found, op.fault);
      ResetKeeps(hash, w.disk, w.index, op.revision, op.found, op.fault);
      if run.ok {
        RecordedIsDurable(hash, next.disk, next.index);
      }
    }
    if op.Reopen? {
      OpenRecovers(hash, w.disk);
    }
  }

  /** No state of a session loses what an earlier one held, and if every commit starts from a tree that is on disk every
      state is safe. */
  lemma {:induction false} SessionsAreSafe(hash: Block -> Hash, universe: set<Block>, w: Writer, ops: seq<Operation>)
    requires Working(hash, universe, w) && CollisionFree(hash, universe)
    requires forall op :: op in ops ==> Applicable(hash, universe, op)
    ensures Ordered([w.disk] + StatesOf(hash, w, ops))
    ensures Safe(hash, w.disk) && Careful(hash, w, ops) ==> AllSafe(hash, StatesOf(hash, w, ops))
    decreases |ops|
  {
    hide Working, CollisionFree, Applicable, Operate, Safe, Ordered, Whole;
    if ops == [] {
      GrowsItself(w.disk);
      assert [w.disk] + [] == [w.disk];
    } else {
      var (next, states) := Operate(hash, w, ops[0]);
      assert ops[0] in ops;
      OperateKeeps(hash, universe, w, ops[0]);
      SessionsAreSafe(hash, universe, next, ops[1..]);
      Chained(w.disk, states, StatesOf(hash, next, ops[1..]));
    }
  }

  /** One operation of the writer on its store; reopening makes a new store over the same disk. */
  method Perform(store: Artifacts, op: Operation, ghost universe: set<Block>)
    returns (next: Artifacts, ghost added: seq<Disk>)
    requires store.Valid() && Working(store.hash, universe, Writer(store.disk, store.index))
    requires CollisionFree(store.hash, universe) && Applicable(store.hash, universe, op)
    modifies store
    ensures next == store || fresh(next)
    ensures next.Valid() && next.hash == store.hash
    ensures next.history == if op.Reopen? then [old(store.disk)] else old(store.history) + added
    ensures Operate(store.hash, old(Writer(store.disk, store.index)), op) == (Writer(next.disk, next.index), added)
  {
    hide Safe, Addressed, CollisionFree, Applied, Scheduled, Ordered, CommitRun, ResetRun, Opened, Durable, Committed;
    hide BlocksOf, Apart, AllSafe;
    next, added := store, [];
    if op.CommitBatch? {
      var (to, delta) := op.batch(store.index);
      assert Applied(store.index, to, delta) && BlocksOf(store.hash, delta) <= universe;
      assert Scheduled(delta, op.schedule(store.index).writes);
      WithinUniverse(store.hash, universe, store.disk, delta);
      added := CommitRun(store.hash, store.disk, store.index, to, op.schedule(store.index)).0.states;
      var _ := store.Commit(to, delta, op.schedule(store.index));
    }
    if op.ResetTo? {
      added := ResetRun(store.disk, store.index, op.revision, op.found, op.fault).states;
      var _ := store.Reset(op.revision, op.found, op.fault);
    }
    if op.Reopen? {
      next := new Artifacts.Open(store.hash, store.disk);
    }
  }

  /** The stores carry out such a session: the states the disk goes through are the ones listed. */
  method Session(hash: Block -> Hash, d: Disk, ops: seq<Operation>, ghost universe: set<Block>)
    returns (final: Disk, ghost states: seq<Disk>)
    requires Addressed(hash, d.blocks) && d.blocks.Values <= universe && CollisionFree(hash, universe)
    requires forall op :: op in ops ==> Applicable(hash, universe, op)
    ensures states == StatesOf(hash, Writer(d, Opened(d)), ops) && final == Last(d, states) && Ordered([d] + states)
    ensures Safe(hash, d) && Careful(hash, Writer(d, Opened(d)), ops) ==> AllSafe(hash, [d] + states)
  {
    hide Safe, Addressed, CollisionFree, Ordered, Opened, Durable, Applicable, Operate, Careful;
    ghost var start := Writer(d, Opened(d));
    SessionsAreSafe(hash, universe, start, ops);
    var store := new Artifacts.Open(hash, d);
    states := [];
    assert [] + StatesOf(hash, start, ops[0..]) == StatesOf(hash, start, ops) by { assert ops[0..] == ops; }
    for i := 0 to |ops|
      invariant fresh(store) && store.Valid() && store.hash == hash
      invariant Working(hash, universe, Writer(store.disk, store.index)) && store.disk == Last(d, states)
      invariant StatesOf(hash, start, ops) == states + StatesOf(hash, Writer(store.disk, store.index), ops[i..])
    {
      ghost var w := Writer(store.disk, store.index);
      assert ops[i] in ops && ops[i..][0] == ops[i] && ops[i..][1..] == ops[i + 1..];
      OperateKeeps(hash, universe, w, ops[i]);
      ghost var added;
      store, added := Perform(store, ops[i], universe);
      LastJoined(d, states, added);
      Rejoin(states, added, StatesOf(hash, Writer(store.disk, store.index), ops[i + 1..]));
      states := states + added;
    }
    assert ops[|ops|..] == [];
    final := store.disk;
  }

  lemma {:induction false} Rejoin(a: seq<Disk>, b: seq<Disk>, c: seq<Disk>)
    ensures a + (b + c) == (a + b) + c
  {
  }

  lemma {:induction false} LastJoined(d: Disk, a: seq<Disk>, b: seq<Disk>)
    ensures Last(d, a + b) == Last(Last(d, a), b)
  {
  }

  // ---- When a commit is safe, exactly

  ghost predicate CommitsSafely(hash: Block -> Hash, d: Disk, index: Version) {
    forall next, delta, after :: Applied(index, next, delta) && Committed(hash, d, next, delta, after) ==>
        Safe(hash, after)
  }

  /** Whatever the batch, a commit that succeeds keeps the disk safe exactly when the tree in memory is durable. */
  lemma {:induction false} SafeExactlyFromDurable(hash: Block -> Hash, d: Disk, index: Version)
    requires Safe(hash, d)
    ensures CommitsSafely(hash, d, index) <==> Durable(hash, d.blocks, index)
  {
    hide Durable, Flushed, Applied;
    if Durable(hash, d.blocks, index) {
      forall next, delta, after | Applied(index, next, delta) && Committed(hash, d, next, delta, after)
          ensures Safe(hash, after) {
        FlushMakesDurable(hash, d.blocks, index, next, delta, after.blocks);
        FlushExtends(hash, d.blocks, delta, after.blocks);
        SafeGrows(hash, d, after);
      }
    } else {
      var after := EmptyCommit(hash, d, index);
      assert !Safe(hash, after);
    }
  }

  /** An empty batch writes no blocks, whatever is missing. */
  lemma {:induction false} EmptyCommit(hash: Block -> Hash, d: Disk, index: Version) returns (after: Disk)
    requires !Durable(hash, d.blocks, index)
    ensures Applied(index, index, {}) && Committed(hash, d, index, {}, after)
    ensures after.pointer == At(index.value) && after.blocks == d.blocks && !Durable(hash, after.blocks, index) &&
            index.value in after.records
  {
    after := Disk(d.blocks, d.records + {index.value}, At(index.value));
  }

  const EMPTY := Disk(map[], {}, Unset)
  const LOST := Segment([Entry(Fill(KEY_LENGTH, 0), Removed)])
  const FAILING := Schedule(true, [(LOST, Lost)], Works, Works, true, Lost)
  const WORKING := Schedule(true, [], Works, Works, true, Works)

  /** A run: on an empty disk the only block of a commit is lost and so is the pointer write of the rollback, which
      strands the commit with the tree in memory; then an empty commit succeeds and points at a tree that is not
      stored. */
  lemma {:induction false} StrandedCommitDangles(hash: Block -> Hash)
    ensures Safe(hash, EMPTY) && Applied(None, Some(LOST), {LOST}) && Scheduled({LOST}, FAILING.writes)
    ensures CommitRun(hash, EMPTY, None, Some(LOST), FAILING) == (Run([EMPTY, EMPTY], Some(LOST), false), Stranded)
    ensures Applied(Some(LOST), Some(LOST), {}) && Scheduled({}, WORKING.writes)
    ensures var (run, outcome) := CommitRun(hash, EMPTY, Some(LOST), Some(LOST), WORKING);
            && outcome == Done && run.index == Some(LOST)
            && Last(EMPTY, run.states) == Disk(map[], {LOST}, At(LOST))
            && !Durable(hash, Last(EMPTY, run.states).blocks, run.index) && !Safe(hash, Last(EMPTY, run.states))
  {
    assert FAILING.writes[0] == (LOST, Lost) && Written(FAILING.writes) == {LOST};
    assert FlushStates(hash, EMPTY, FAILING.writes) == [EMPTY];
    assert [EMPTY] + [EMPTY] == [EMPTY, EMPTY];
    var end := Disk(map[], {LOST}, At(LOST));
    assert LOST in Nodes(Some(LOST)) && !Holds(hash, end.blocks, LOST);
    assert LOST in end.records;
    assert FlushStates(hash, EMPTY, WORKING.writes) == [];
  }
}
