/**
 * Reading a range of a pinned version of the tree block by block, while the store moves on.
 */
module Selecting {
  import opened Bytes
  import opened Keys
  import opened Options
  import opened FactTree
  import opened Facts
  import opened Blocks
  import opened Persistence
  import Scanning

  // ---- The walk

  predicate InRange(low: Key, high: Key, e: Entry) {
    Leq(low, e.key) && Leq(e.key, high)
  }

  function Within(low: Key, high: Key, entries: seq<Entry>): seq<Entry> {
    if entries == [] then []
    else (if InRange(low, high, entries[0]) then [entries[0]] else []) + Within(low, high, entries[1..])
  }

  /** What a segment contributes: its entries in range, up to the first one past it once the range has been entered. */
  datatype Part = Part(entries: seq<Entry>, entered: bool, over: bool)

  function Take(low: Key, high: Key, entries: seq<Entry>, entered: bool): Part
    decreases |entries|
  {
    if entries == [] then Part([], entered, false)
    else if InRange(low, high, entries[0]) then
      var rest := Take(low, high, entries[1..], true);
      Part([entries[0]] + rest.entries, rest.entered, rest.over)
    else if entered then Part([], true, true)
    else Take(low, high, entries[1..], false)
  }

  /** The first child that may hold the key, or else the last. */
  function Descend(links: seq<Link>, key: Key): (i: nat)
    requires links != []
    ensures i < |links|
    ensures forall k :: 0 <= k < i ==> !Leq(key, links[k].bound)
    decreases |links|
  {
    if |links| == 1 || Leq(key, links[0].bound) then 0 else 1 + Descend(links[1..], key)
  }

  function HashesOf(links: seq<Link>): seq<Hash> {
    seq(|links|, i requires 0 <= i < |links| => links[i].node)
  }

  /** Walks the tree from the leaf where the range begins, fetching each block from the disk as it is at that moment. */
  function Walk(disks: seq<BlockMap>, stack: seq<Hash>, low: Key, high: Key, seeking: bool,
          entered: bool): Option<seq<Entry>>
    decreases |disks|
  {
    if stack == [] then Some([])
    else if disks == [] || stack[0] !in disks[0] then None
    else match disks[0][stack[0]]
      case IndexBlock(links) =>
        var from := if seeking && links != [] then Descend(links, low) else 0;
        Walk(disks[1..], HashesOf(links[from..]) + stack[1..], low, high, seeking, entered)
      case SegmentBlock(entries) =>
        var part := Take(low, high, entries, entered);
        if part.over then Some(part.entries)
        else match Walk(disks[1..], stack[1..], low, high, false, part.entered)
          case None => None
          case Some(rest) => Some(part.entries + rest)
  }

  // ---- Search trees

  /** Keys strictly ascend. */
  ghost predicate Increasing(entries: seq<Entry>) {
    forall i, j :: 0 <= i < j < |entries| ==> Leq(entries[i].key, entries[j].key) && entries[i].key != entries[j].key
  }

  /** No node is empty. */
  predicate Full(n: Node) {
    match n
    case Segment(entries) => entries != []
    case Inner(children) => children != [] && forall i :: 0 <= i < |children| ==> Full(children[i])
  }

  function Size(n: Node): nat {
    match n
    case Segment(_) => 1
    case Inner(children) => 1 + SizeAll(children)
  }

  function SizeAll(ns: seq<Node>): nat {
    if ns == [] then 0 else Size(ns[0]) + SizeAll(ns[1..])
  }

  function Addresses(hash: Block -> Hash, ns: seq<Node>): seq<Hash> {
    seq(|ns|, i requires 0 <= i < |ns| => Address(hash, ns[i]))
  }

  // ---- Lists of entries

  lemma {:induction false} WithinJoined(low: Key, high: Key, a: seq<Entry>, b: seq<Entry>)
    ensures Within(low, high, a + b) == Within(low, high, a) + Within(low, high, b)
    decreases |a|
  {
    hide InRange;
    if a == [] {
      assert a + b == b;
    } else {
      var all := a + b;
      assert all[0] == a[0] && all[1..] == a[1..] + b;
      WithinJoined(low, high, a[1..], b);
      var first := if InRange(low, high, a[0]) then [a[0]] else [];
      assert Within(low, high, all) == first + (Within(low, high, a[1..]) + Within(low, high, b));
      assert Within(low, high, a) == first + Within(low, high, a[1..]);
    }
  }

  lemma {:induction false} WithinNothing(low: Key, high: Key, entries: seq<Entry>)
    requires forall i :: 0 <= i < |entries| ==> !InRange(low, high, entries[i])
    ensures Within(low, high, entries) == []
    decreases |entries|
  {
    hide InRange;
    if entries != [] {
      WithinNothing(low, high, entries[1..]);
    }
  }

  lemma {:induction false} WithinIs(low: Key, high: Key, entries: seq<Entry>, e: Entry)
    ensures e in Within(low, high, entries) <==> e in entries && InRange(low, high, e)
    decreases |entries|
  {
    hide InRange;
    if entries != [] {
      WithinIs(low, high, entries[1..], e);
      assert entries == [entries[0]] + entries[1..];
    }
  }

  lemma {:induction false} WithinIncreases(low: Key, high: Key, entries: seq<Entry>)
    requires Increasing(entries)
    ensures Increasing(Within(low, high, entries))
    decreases |entries|
  {
    hide InRange, Leq;
    if entries != [] {
      var rest := Within(low, high, entries[1..]);
      WithinIncreases(low, high, entries[1..]);
      forall i | 0 <= i < |rest| ensures Leq(entries[0].key, rest[i].key) && entries[0].key != rest[i].key {
        assert rest[i] in rest;
        WithinIs(low, high, entries[1..], rest[i]);
        var j :| 0 <= j < |entries[1..]| && entries[1..][j] == rest[i];
        assert entries[j + 1] == rest[i];
      }
    }
  }

  lemma {:induction false} IncreasingParts(a: seq<Entry>, b: seq<Entry>)
    requires Increasing(a + b)
    ensures Increasing(a) && Increasing(b)
    ensures forall i, j :: 0 <= i < |a| && 0 <= j < |b| ==> Leq(a[i].key, b[j].key)
  {
    hide Leq;
    var all := a + b;
    assert forall i :: 0 <= i < |a| ==> all[i] == a[i];
    assert forall j :: 0 <= j < |b| ==> all[|a| + j] == b[j];
    forall i, j | 0 <= i < j < |b| ensures Leq(b[i].key, b[j].key) && b[i].key != b[j].key {
      assert all[|a| + i] == b[i] && all[|a| + j] == b[j];
    }
    forall i, j | 0 <= i < |a| && 0 <= j < |b| ensures Leq(a[i].key, b[j].key) {
      assert all[i] == a[i] && all[|a| + j] == b[j];
    }
  }

  /** All keys are at or past the start of the range. */
  ghost predicate Past(low: Key, entries: seq<Entry>) {
    forall i :: 0 <= i < |entries| ==> Leq(low, entries[i].key)
  }

  /** Past the end of the range nothing is in it any more. */
  lemma {:induction false} NothingAfter(low: Key, high: Key, e: Entry, later: seq<Entry>)
    requires !Leq(e.key, high) && forall j :: 0 <= j < |later| ==> Leq(e.key, later[j].key)
    ensures Within(low, high, later) == []
  {
    hide Leq;
    forall j | 0 <= j < |later| ensures !InRange(low, high, later[j]) {
      if Leq(later[j].key, high) {
        LeqTransitive(e.key, later[j].key, high);
      }
    }
    WithinNothing(low, high, later);
  }

  /** A segment contributes what is in range; once past the range, nothing later is. */
  lemma {:induction false} TakeIs(low: Key, high: Key, entries: seq<Entry>, entered: bool, later: seq<Entry>)
    requires Increasing(entries + later) && (entered ==> Past(low, entries + later))
    ensures var part := Take(low, high, entries, entered);
            && part.entries == Within(low, high, entries) && (part.over ==> Within(low, high, later) == [])
            && (part.entered ==> Past(low, later))
    decreases |entries|
  {
    hide Leq, Increasing, Past;
    if entries == [] {
      assert entries + later == later;
    } else {
      var e, rest := entries[0], entries[1..];
      assert entries + later == [e] + (rest + later) && (entries + later)[1..] == rest + later;
      IncreasingParts([e], rest + later);
      PastTail(low, e, rest + later);
      if InRange(low, high, e) {
        TakeIs(low, high, rest, true, later);
      } else if entered {
        PastHead(low, entries + later);
        assert forall j :: 0 <= j < |rest + later| ==> Leq([e][0].key, (rest + later)[j].key);
        NothingAfter(low, high, e, rest + later);
        WithinJoined(low, high, rest, later);
        PastTailOf(low, entries, later);
      } else {
        TakeIs(low, high, rest, false, later);
      }
    }
  }

  lemma {:induction false} PastTail(low: Key, e: Entry, rest: seq<Entry>)
    requires Increasing([e] + rest)
    ensures Leq(low, e.key) ==> Past(low, rest)
  {
    hide Leq;
    IncreasingParts([e], rest);
    if Leq(low, e.key) {
      forall i | 0 <= i < |rest| ensures Leq(low, rest[i].key) {
        assert Leq([e][0].key, rest[i].key);
        LeqTransitive(low, e.key, rest[i].key);
      }
    }
  }

  lemma {:induction false} PastHead(low: Key, entries: seq<Entry>)
    requires Past(low, entries) && entries != []
    ensures Leq(low, entries[0].key)
  {
  }

  lemma {:induction false} PastTailOf(low: Key, a: seq<Entry>, b: seq<Entry>)
    requires Past(low, a + b)
    ensures Past(low, b)
  {
    hide Leq;
    assert forall j :: 0 <= j < |b| ==> (a + b)[|a| + j] == b[j];
  }

  // ---- Trees

  lemma {:induction false} Concatenated(hash: Block -> Hash, a: seq<Node>, b: seq<Node>)
    ensures EntriesAll(a + b) == EntriesAll(a) + EntriesAll(b) && SizeAll(a + b) == SizeAll(a) + SizeAll(b)
    ensures Addresses(hash, a + b) == Addresses(hash, a) + Addresses(hash, b)
  {
    hide Entries, Size, Address;
    if a == [] {
      assert a + b == b;
    } else {
      var all := a + b;
      assert all[0] == a[0] && all[1..] == a[1..] + b;
      Concatenated(hash, a[1..], b);
      assert EntriesAll(all) == Entries(a[0]) + (EntriesAll(a[1..]) + EntriesAll(b));
    }
  }

  lemma {:induction false} FullHasEntries(n: Node)
    requires Full(n)
    ensures Entries(n) != []
  {
    match n {
      case Segment(_) =>
      case Inner(children) => FullHasEntries(children[0]);
    }
  }

  /** A child whose highest key lies before the range has nothing in it. */
  lemma {:induction false} BelowHasNothing(low: Key, high: Key, n: Node)
    requires Full(n) && Increasing(Entries(n)) && !Leq(low, Upper(n))
    ensures Within(low, high, Entries(n)) == []
  {
    hide Leq, Entries;
    FullHasEntries(n);
    var entries := Entries(n);
    forall i | 0 <= i < |entries| ensures !InRange(low, high, entries[i]) {
      if Leq(low, entries[i].key) && i < |entries| - 1 {
        assert Leq(entries[i].key, entries[|entries| - 1].key);
        LeqTransitive(low, entries[i].key, Upper(n));
      }
    }
    WithinNothing(low, high, entries);
  }

  lemma {:induction false} SkippedHasNothing(low: Key, high: Key, children: seq<Node>, from: nat)
    requires from <= |children| && (forall i :: 0 <= i < |children| ==> Full(children[i])) &&
             Increasing(EntriesAll(children))
    requires forall k :: 0 <= k < from ==> !Leq(low, Upper(children[k]))
    ensures Within(low, high, EntriesAll(children)) == Within(low, high, EntriesAll(children[from..]))
    ensures exists skipped :: EntriesAll(children) == skipped + EntriesAll(children[from..])
    decreases from
  {
    hide Leq, Upper, Increasing, Full, Entries;
    if from == 0 {
      assert children[0..] == children;
      assert EntriesAll(children) == [] + EntriesAll(children[0..]);
    } else {
      var head, rest := children[0], children[1..];
      assert EntriesAll(children) == Entries(head) + EntriesAll(rest);
      IncreasingParts(Entries(head), EntriesAll(rest));
      BelowHasNothing(low, high, head);
      WithinJoined(low, high, Entries(head), EntriesAll(rest));
      SkippedHasNothing(low, high, rest, from - 1);
      assert rest[from - 1..] == children[from..];
      var skipped :| EntriesAll(rest) == skipped + EntriesAll(rest[from - 1..]);
      assert EntriesAll(children) == (Entries(head) + skipped) + EntriesAll(children[from..]);
    }
  }

  /** Every disk holds all nodes of these trees. */
  ghost predicate AllHeld(hash: Block -> Hash, disks: seq<BlockMap>, ns: seq<Node>) {
    forall i, n :: 0 <= i < |disks| && n in ns ==> Durable(hash, disks[i], Some(n))
  }

  ghost predicate AllFull(ns: seq<Node>) {
    forall i :: 0 <= i < |ns| ==> Full(ns[i])
  }

  lemma {:induction false} HeadHeld(hash: Block -> Hash, disks: seq<BlockMap>, ns: seq<Node>)
    requires disks != [] && ns != [] && AllHeld(hash, disks, ns)
    ensures Holds(hash, disks[0], ns[0]) && AllHeld(hash, disks[1..], ns[1..])
    ensures ns[0].Inner? ==> AllHeld(hash, disks[1..], ns[0].children)
  {
    hide Address, Encode, Holds;
    assert ns[0] in ns && ns[0] in Nodes(Some(ns[0]));
    forall i, n | 0 <= i < |disks| - 1 && n in ns[1..] ensures Durable(hash, disks[1..][i], Some(n)) {
      assert n in ns && disks[1..][i] == disks[i + 1];
    }
    if ns[0].Inner? {
      forall i, n | 0 <= i < |disks| - 1 && n in ns[0].children ensures Durable(hash, disks[1..][i], Some(n)) {
        var k :| 0 <= k < |ns[0].children| && ns[0].children[k] == n;
        assert Nodes(Some(n)) <= Nodes(Some(ns[0])) && disks[1..][i] == disks[i + 1];
      }
    }
  }

  lemma {:induction false} HeldParts(hash: Block -> Hash, disks: seq<BlockMap>, a: seq<Node>, from: nat, b: seq<Node>)
    requires from <= |a| && AllHeld(hash, disks, a) && AllHeld(hash, disks, b)
    ensures AllHeld(hash, disks, a[from..] + b)
  {
    hide Durable;
    forall n | n in a[from..] + b ensures n in a || n in b {
    }
  }

  lemma {:induction false} SizeParts(hash: Block -> Hash, children: seq<Node>, from: nat, rest: seq<Node>)
    requires from <= |children|
    ensures SizeAll(children[from..] + rest) <= SizeAll(children) + SizeAll(rest)
  {
    hide Size;
    assert children == children[..from] + children[from..];
    Concatenated(hash, children[..from], children[from..]);
    Concatenated(hash, children[from..], rest);
  }

  lemma {:induction false} LinksLead(hash: Block -> Hash, children: seq<Node>, from: nat)
    requires from <= |children|
    ensures var links := Encode(hash, Inner(children)).links;
            && |links| == |children| && (forall i :: 0 <= i < |children| ==> links[i].bound == Upper(children[i]))
            && HashesOf(links[from..]) == Addresses(hash, children[from..])
  {
    hide Address, Upper;
  }

  /** Where the walk goes on from an index block. */
  function From(hash: Block -> Hash, children: seq<Node>, low: Key, seeking: bool): (i: nat)
    requires children != []
    ensures i <= |children|
  {
    if seeking then Descend(Encode(hash, Inner(children)).links, low) else 0
  }

  lemma {:induction false} FromSkips(hash: Block -> Hash, children: seq<Node>, low: Key, seeking: bool)
    requires children != []
    ensures forall k :: 0 <= k < From(hash, children, low, seeking) ==> !Leq(low, Upper(children[k]))
  {
    hide Leq, Upper, Address;
    LinksLead(hash, children, 0);
  }

  lemma {:induction false} WalkInner(hash: Block -> Hash, disks: seq<BlockMap>, children: seq<Node>, rest: seq<Node>,
          low: Key, high: Key, seeking: bool, entered: bool)
    requires disks != [] && children != [] && Holds(hash, disks[0], Inner(children))
    ensures var from := From(hash, children, low, seeking);
            Walk(disks, Addresses(hash, [Inner(children)] + rest), low, high, seeking, entered) ==
            Walk(disks[1..], Addresses(hash, children[from..] + rest), low, high, seeking, entered)
  {
    hide Address, Upper, Descend, Leq;
    var n, from := Inner(children), From(hash, children, low, seeking);
    var stack := Addresses(hash, [n] + rest);
    assert stack[0] == Address(hash, n) && stack[1..] == Addresses(hash, rest);
    LinksLead(hash, children, from);
    Concatenated(hash, children[from..], rest);
  }

  lemma {:induction false} WalkSegment(hash: Block -> Hash, disks: seq<BlockMap>, entries: seq<Entry>, rest: seq<Node>,
          low: Key, high: Key, seeking: bool, entered: bool, later: seq<Entry>)
    requires disks != [] && Holds(hash, disks[0], Segment(entries))
    requires var part := Take(low, high, entries, entered);
             !part.over ==> Walk(disks[1..], Addresses(hash, rest), low, high, false, part.entered) == Some(later)
    ensures var part := Take(low, high, entries, entered);
            Walk(disks, Addresses(hash, [Segment(entries)] + rest), low, high, seeking, entered) ==
              Some(part.entries + (if part.over then [] else later))
  {
    hide Address, Take;
    var stack := Addresses(hash, [Segment(entries)] + rest);
    assert stack[0] == Address(hash, Segment(entries)) && stack[1..] == Addresses(hash, rest);
    var part := Take(low, high, entries, entered);
    assert part.entries + [] == part.entries;
  }

  /** The walk reads exactly the entries in range, in order. */
  lemma {:induction false} WalkReads(hash: Block -> Hash, disks: seq<BlockMap>, ns: seq<Node>, low: Key, high: Key,
          seeking: bool, entered: bool)
    requires AllHeld(hash, disks, ns) && AllFull(ns) && SizeAll(ns) <= |disks|
    requires Increasing(EntriesAll(ns)) && (entered ==> Past(low, EntriesAll(ns)))
    ensures Walk(disks, Addresses(hash, ns), low, high, seeking, entered) == Some(Within(low, high, EntriesAll(ns)))
    decreases SizeAll(ns)
  {
    hide AllHeld, Increasing, Past, Leq, Walk, Addresses, Take, Within, Holds, From, Upper;
    if ns == [] {
      WalkNothing(hash, disks, low, high, seeking, entered);
    } else {
      var n, rest := ns[0], ns[1..];
      assert ns == [n] + rest && disks != [];
      HeadHeld(hash, disks, ns);
      match n {
        case Segment(entries) =>
          var part, later := Take(low, high, entries, entered), EntriesAll(rest);
          TakeIs(low, high, entries, entered, later);
          WithinJoined(low, high, entries, later);
          IncreasingParts(entries, later);
          if !part.over {
            WalkReads(hash, disks[1..], rest, low, high, false, part.entered);
          }
          WalkSegment(hash, disks, entries, rest, low, high, seeking, entered, Within(low, high, later));
        case Inner(children) =>
          var from := From(hash, children, low, seeking);
          WalkInner(hash, disks, children, rest, low, high, seeking, entered);
          InnerEntries(hash, children, rest, low, high, seeking, entered);
          HeldParts(hash, disks[1..], children, from, rest);
          SizeParts(hash, children, from, rest);
          WalkReads(hash, disks[1..], children[from..] + rest, low, high, seeking, entered);
      }
    }
  }

  lemma {:induction false} WalkNothing(hash: Block -> Hash, disks: seq<BlockMap>, low: Key, high: Key, seeking: bool,
          entered: bool)
    ensures Walk(disks, Addresses(hash, []), low, high, seeking, entered) == Some(Within(low, high, EntriesAll([])))
  {
  }

  /** Skipping children before the range changes nothing that is in it. */
  lemma {:induction false} InnerEntries(hash: Block -> Hash, children: seq<Node>, rest: seq<Node>, low: Key, high: Key,
          seeking: bool, entered: bool)
    requires children != [] && AllFull(children) && Increasing(EntriesAll(children) + EntriesAll(rest))
    requires entered ==> Past(low, EntriesAll(children) + EntriesAll(rest))
    ensures var from := From(hash, children, low, seeking);
            var kept := EntriesAll(children[from..] + rest);
            && Within(low, high, kept) == Within(low, high, EntriesAll(children) + EntriesAll(rest))
            && Increasing(kept) && (entered ==> Past(low, kept)) && AllFull(children[from..])
  {
    hide Increasing, Past, Leq, Within, From, Upper, Full;
    var from := From(hash, children, low, seeking);
    var all, tail, later := EntriesAll(children), EntriesAll(children[from..]), EntriesAll(rest);
    IncreasingParts(all, later);
    FromSkips(hash, children, low, seeking);
    SkippedHasNothing(low, high, children, from);
    Concatenated(hash, children[from..], rest);
    WithinJoined(low, high, all, later);
    WithinJoined(low, high, tail, later);
    var skipped :| all == skipped + tail;
    assert all + later == skipped + (tail + later);
    IncreasingParts(skipped, tail + later);
    if entered {
      PastTailOf(low, skipped, tail + later);
    }
  }

  // ---- Selecting from a pinned version

  lemma {:induction false} KeysUnique(entries: seq<Entry>, i: nat, j: nat)
    requires Increasing(entries) && i < |entries| && j < |entries| && entries[i].key == entries[j].key
    ensures i == j
  {
    hide Leq;
  }

  /** The entries as the ordered map that scans are defined on. */
  function TreeOf(entries: seq<Entry>): (tree: Tree)
    requires Increasing(entries)
    ensures forall k: Key :: k in tree <==> exists i :: 0 <= i < |entries| && entries[i].key == k
    ensures forall i :: 0 <= i < |entries| ==> entries[i].key in tree && tree[entries[i].key] == entries[i].state
  {
    assert forall i, j :: 0 <= i < |entries| && 0 <= j < |entries| && entries[i].key == entries[j].key ==>
           entries[i].state == entries[j].state by {
      forall i, j | 0 <= i < |entries| && 0 <= j < |entries| && entries[i].key == entries[j].key ensures i == j {
        KeysUnique(entries, i, j);
      }
    }
    map i | 0 <= i < |entries| :: entries[i].key := entries[i].state
  }

  function KeysOf(entries: seq<Entry>): (r: seq<Key>)
    ensures |r| == |entries| && forall i :: 0 <= i < |r| ==> r[i] == entries[i].key
  {
    seq(|entries|, i requires 0 <= i < |entries| => entries[i].key)
  }

  lemma {:induction false} AscendingUnique(a: seq<bytes>, b: seq<bytes>)
    requires Ascending(a) && Ascending(b) && forall k :: k in a <==> k in b
    ensures a == b
    decreases |a|
  {
    hide Leq;
    if b != [] {
      assert b[0] in b;
    }
    if a != [] {
      assert a[0] in a;
      var i :| 0 <= i < |b| && b[i] == a[0];
      var j :| 0 <= j < |a| && a[j] == b[0];
      if i > 0 && j > 0 {
        assert Leq(b[0], b[i]) && Leq(a[0], a[j]);
        LeqAntisymmetric(a[0], b[0]);
      }
      assert a[0] == b[0];
      forall k ensures k in a[1..] <==> k in b[1..] {
        TailHas(a, k);
        TailHas(b, k);
      }
      AscendingUnique(a[1..], b[1..]);
      assert a == [a[0]] + a[1..] && b == [b[0]] + b[1..];
    }
  }

  lemma {:induction false} TailHas(a: seq<bytes>, k: bytes)
    requires Ascending(a) && a != []
    ensures k in a[1..] <==> k in a && k != a[0]
  {
    hide Leq;
    assert a == [a[0]] + a[1..];
    if k in a[1..] {
      var i :| 0 <= i < |a[1..]| && a[1..][i] == k;
      assert a[i + 1] == k;
    }
  }

  /** The entries in range are those the range read of the ordered map streams. */
  lemma {:induction false} RangeIsWithin(entries: seq<Entry>, low: Key, high: Key)
    requires Increasing(entries)
    ensures KeysOf(Within(low, high, entries)) == Scanning.RangeKeys(TreeOf(entries), low, high)
  {
    hide Leq, Within, TreeOf;
    var part, tree := Within(low, high, entries), TreeOf(entries);
    var keys, range := KeysOf(part), Scanning.RangeKeys(tree, low, high);
    WithinIncreases(low, high, entries);
    forall k ensures k in keys <==> k in range {
      if k in keys {
        var i :| 0 <= i < |part| && part[i].key == k;
        assert part[i] in part;
        WithinIs(low, high, entries, part[i]);
        var j :| 0 <= j < |entries| && entries[j] == part[i];
        assert entries[j].key in tree;
      }
      if k in range {
        var key: Key := k;
        var j :| 0 <= j < |entries| && entries[j].key == key;
        WithinIs(low, high, entries, entries[j]);
        var i :| 0 <= i < |part| && part[i] == entries[j];
        assert keys[i] == k;
      }
    }
    AscendingUnique(keys, range);
  }

  /** A version that is a search tree. */
  ghost predicate SearchTree(root: Node) {
    Full(root) && Increasing(Entries(root))
  }

  ghost function DisksAt(history: seq<Disk>, moments: seq<nat>): (r: seq<BlockMap>)
    requires forall k :: 0 <= k < |moments| ==> moments[k] < |history|
    ensures |r| == |moments| && forall k :: 0 <= k < |r| ==> r[k] == history[moments[k]].blocks
  {
    seq(|moments|, k requires 0 <= k < |moments| => history[moments[k]].blocks)
  }

  /** A range read of the version that was current when it began yields exactly that version's entries in range, in
      order, whatever is committed or reset between its block reads. */
  lemma {:induction false} ReadIsPinned(hash: Block -> Hash, history: seq<Disk>, start: nat, root: Node,
          moments: seq<nat>, low: Key, high: Key)
    requires Ordered(history) && start < |history| && Durable(hash, history[start].blocks, Some(root)) &&
             SearchTree(root)
    requires (forall k :: 0 <= k < |moments| ==> start <= moments[k] < |history|) && Size(root) <= |moments|
    ensures Walk(DisksAt(history, moments), [Address(hash, root)], low, high, true, false) ==
            Some(Within(low, high, Entries(root)))
  {
    hide Walk, Durable, Size, Entries, Address, Within, Full, Increasing, Extended;
    var disks := DisksAt(history, moments);
    forall i | 0 <= i < |disks| ensures Durable(hash, disks[i], Some(root)) {
      assert Grows(history[start], history[moments[i]]);
      DurableGrows(hash, history[start].blocks, history[moments[i]].blocks, Some(root));
    }
    assert AllHeld(hash, disks, [root]) && AllFull([root]);
    OneTree(hash, root);
    WalkReads(hash, disks, [root], low, high, true, false);
  }

  lemma {:induction false} OneTree(hash: Block -> Hash, root: Node)
    ensures SizeAll([root]) == Size(root) && EntriesAll([root]) == Entries(root) &&
            Addresses(hash, [root]) == [Address(hash, root)]
  {
    hide Address, Size, Entries;
    assert [root][1..] == [];
  }

  /** Both maps show the same under these keys. */
  predicate SameAt(tree: Tree, other: Tree, keys: seq<Key>) {
    forall k :: k in keys ==> k in tree && k in other && tree[k] == other[k]
  }

  lemma {:induction false} ChosenSame(f: Key -> bool, g: Key -> bool, keys: seq<Key>)
    requires forall k :: k in keys ==> f(k) == g(k)
    ensures Scanning.Chosen(f, keys) == Scanning.Chosen(g, keys)
  {
    if keys != [] {
      assert keys[|keys| - 1] in keys && forall k :: k in keys[..|keys| - 1] ==> k in keys;
      ChosenSame(f, g, keys[..|keys| - 1]);
    }
  }

  lemma {:induction false} HitsSame(h: Hasher, s: Selector, tree: Tree, other: Tree, keys: seq<Key>)
    requires SameAt(tree, other, keys)
    ensures Scanning.Hits(h, s, tree, keys) == Scanning.Hits(h, s, other, keys)
  {
    hide Scanning.EntryMatches;
    ChosenSame((k: Key) => Scanning.Hit(h, s, tree, k), (k: Key) => Scanning.Hit(h, s, other, k), keys);
  }

  lemma {:induction false} PartSame(entries: seq<Entry>, low: Key, high: Key)
    requires Increasing(entries)
    ensures var part := Within(low, high, entries);
            Increasing(part) && SameAt(TreeOf(entries), TreeOf(part), KeysOf(part))
  {
    hide Leq, Within, InRange;
    var part := Within(low, high, entries);
    WithinIncreases(low, high, entries);
    forall k | k in KeysOf(part)
        ensures k in TreeOf(entries) && k in TreeOf(part) && TreeOf(entries)[k] == TreeOf(part)[k] {
      var i :| 0 <= i < |part| && part[i].key == k;
      assert part[i] in part;
      WithinIs(low, high, entries, part[i]);
      var j :| 0 <= j < |entries| && entries[j] == part[i];
      assert entries[j].key in TreeOf(entries);
    }
  }

  /** The entries of a version; an empty tree has none. */
  function EntriesOf(v: Version): seq<Entry> {
    if v.None? then [] else Entries(v.value)
  }

  /** Where a version's root is; an empty tree has none, and its stream ends at once. */
  function Root(hash: Block -> Hash, v: Version): Option<Hash> {
    if v.None? then None else Some(Address(hash, v.value))
  }

  ghost predicate Searchable(v: Version) {
    Increasing(EntriesOf(v)) && (v.Some? ==> Full(v.value))
  }

  /** A select over a pinned version answers as a scan of that version does, whatever is written meanwhile. */
  method Select(h: Hasher, s: Selector, root: Option<Hash>, disks: seq<BlockMap>, ghost hash: Block -> Hash,
          ghost history: seq<Disk>, ghost start: nat, ghost v: Version, ghost moments: seq<nat>)
    returns (out: seq<Artifact>, failed: bool)
    requires s.Constrained() && Ordered(history) && start < |history| && Durable(hash, history[start].blocks, v)
    requires Searchable(v) && Consistent(h, TreeOf(EntriesOf(v)))
    requires forall k :: 0 <= k < |moments| ==> start <= moments[k] < |history|
    requires v.Some? ==> Size(v.value) <= |moments|
    requires root == Root(hash, v) && disks == DisksAt(history, moments)
    ensures Scanning.Shows(Scanning.Matching(h, s, TreeOf(EntriesOf(v))), out, failed)
  {
    hide *;
    RootOf(hash, v);
    if root.None? {
      EmptyMatches(h, s, v);
      return [], false;
    }
    var ix := Scanning.ChooseIndex(s);
    var low, high := Scanning.Low(h, ix, s), Scanning.High(h, ix, s);
    ReadIsPinned(hash, history, start, v.value, moments, low, high);
    PinnedRange(h, s, v.value);
    var read := Walk(disks, [root.value], low, high, true, false);
    var keys, part := KeysOf(read.value), TreeOf(read.value);
    out, failed := Scanning.Filter(h, s, part, keys);
  }

  lemma {:induction false} RootOf(hash: Block -> Hash, v: Version)
    ensures Root(hash, v).None? <==> v.None?
    ensures v.Some? ==> Root(hash, v) == Some(Address(hash, v.value)) && EntriesOf(v) == Entries(v.value)
    ensures v.Some? && Searchable(v) ==> SearchTree(v.value)
  {
    hide Address, Entries, Full, Increasing;
  }

  /** Nothing matches in an empty tree. */
  lemma {:induction false} EmptyMatches(h: Hasher, s: Selector, v: Version)
    requires v.None? && s.Constrained() && Searchable(v) && Consistent(h, TreeOf(EntriesOf(v)))
    ensures Scanning.Shows(Scanning.Matching(h, s, TreeOf(EntriesOf(v))), [], false)
  {
    hide Consistent, Scanning.Matching;
    var tree := TreeOf(EntriesOf(v));
    Scanning.MatchingStored(h, s, tree);
    var keys := Scanning.MatchingKeys(h, s, tree);
    assert forall k :: k in keys ==> k in tree;
    assert keys == [];
    assert Scanning.Matching(h, s, tree) == Scanning.FactsAt(tree, keys) by {
      MatchingIs(h, s, tree);
    }
  }

  lemma {:induction false} MatchingIs(h: Hasher, s: Selector, tree: Tree)
    requires Consistent(h, tree) && s.Constrained()
    ensures Scanning.AllStored(tree, Scanning.MatchingKeys(h, s, tree))
    ensures Scanning.Matching(h, s, tree) == Scanning.FactsAt(tree, Scanning.MatchingKeys(h, s, tree))
  {
    hide Consistent, Scanning.MatchingKeys;
    Scanning.MatchingStored(h, s, tree);
  }

  /** The filter of a scan finds in the entries read what it finds in the whole version. */
  lemma {:induction false} PinnedRange(h: Hasher, s: Selector, root: Node)
    requires s.Constrained() && SearchTree(root) && Consistent(h, TreeOf(Entries(root)))
    ensures var ix := Scanning.ChooseIndex(s);
            var part := Within(Scanning.Low(h, ix, s), Scanning.High(h, ix, s), Entries(root));
            && Increasing(part) && (forall k :: k in KeysOf(part) ==> k in TreeOf(part))
            && Scanning.AllStored(TreeOf(part), Scanning.Hits(h, s, TreeOf(part), KeysOf(part)))
            && Scanning.FactsAt(TreeOf(part), Scanning.Hits(h, s, TreeOf(part), KeysOf(part))) ==
              Scanning.Matching(h, s, TreeOf(Entries(root)))
  {
    hide Leq, Within, InRange, Entries, Full, TreeOf, Increasing, Consistent, Scanning.Hits, Scanning.Low,
         Scanning.High, Scanning.RangeKeys;
    var ix, entries := Scanning.ChooseIndex(s), Entries(root);
    var low, high := Scanning.Low(h, ix, s), Scanning.High(h, ix, s);
    var part := Within(low, high, entries);
    PartSame(entries, low, high);
    RangeIsWithin(entries, low, high);
    HitsSame(h, s, TreeOf(entries), TreeOf(part), KeysOf(part));
    Scanning.MatchingStored(h, s, TreeOf(entries));
    var hits := Scanning.Hits(h, s, TreeOf(part), KeysOf(part));
    assert hits == Scanning.MatchingKeys(h, s, TreeOf(entries));
    forall k | k in hits ensures k in TreeOf(part) && TreeOf(part)[k] == TreeOf(entries)[k] {
      assert k in KeysOf(part);
    }
    assert Scanning.AllStored(TreeOf(part), hits);
    forall i | 0 <= i < |hits|
        ensures Scanning.FactsAt(TreeOf(part), hits)[i] == Scanning.Matching(h, s, TreeOf(entries))[i] {
      assert hits[i] in hits;
    }
  }
}
