/** What every history of instructions leaves in the store, and what every scan of it yields. */
module History {
  import opened Bytes
  import opened Keys
  import opened Names
  import opened Options
  import opened Facts
  import opened FactTree
  import opened Scanning
  import Mutation

  // ---- One value per pair

  predicate AtMostOne(facts: FactSet, pair: bytes) {
    forall j, k :: j in facts && k in facts && Pair(j) == pair && Pair(k) == pair ==> j == k
  }

  /** Replace never leaves a pair that held at most one fact with more. */
  lemma {:induction false} ReplaceKeepsOne(h: Hasher, facts: FactSet, a: Artifact, pair: bytes)
    requires AtMostOne(facts, pair)
    ensures AtMostOne(Step(h, facts, Replace(a)), pair)
  {
    hide Pair, Id, ReadsAs;
    var left := ClearPair(facts, Pair(Id(h, a)), a.value);
    assert HasPair(left, Pair(Id(h, a))) || forall k :: k in left ==> Pair(k) != Pair(Id(h, a));
  }

  /** A pair is only ever replaced or retracted. */
  predicate NeverAsserted(h: Hasher, instructions: seq<Instruction>, pair: bytes) {
    forall i :: 0 <= i < |instructions| && Pair(Id(h, instructions[i].artifact)) == pair ==> !instructions[i].Assert?
  }

  lemma {:induction false} SingleValued(h: Hasher, facts: FactSet, instructions: seq<Instruction>, pair: bytes)
    requires AtMostOne(facts, pair) && NeverAsserted(h, instructions, pair)
    ensures AtMostOne(Fold(h, facts, instructions), pair)
  {
    if instructions != [] {
      var n := |instructions| - 1;
      SingleValued(h, facts, instructions[..n], pair);
      FoldPrefix(h, facts, instructions, n);
      assert instructions[..n + 1] == instructions;
      var before, last := Fold(h, facts, instructions[..n]), instructions[n];
      if last.Replace? {
        ReplaceKeepsOne(h, before, last.artifact, pair);
      }
    }
  }

  // ---- The plain reading of a history

  datatype Triple = Triple(entity: Uri, attribute: Attribute, value: Value)

  function TripleOf(a: Artifact): Triple {
    Triple(a.entity, a.attribute, a.value)
  }

  /** Facts as content: a set of triples, each with its cause. */
  type Plain = map<Triple, Option<Digest>>

  function ClearSubject(m: Plain, t: Triple): Plain {
    map u | u in m && (u.entity, u.attribute) != (t.entity, t.attribute) :: m[u]
  }

  function PlainStep(m: Plain, i: Instruction): Plain {
    var t := TripleOf(i.artifact);
    match i
    case Assert(a) => m[t := a.cause]
    case Retract(a) => m - {t}
    case Replace(a) => ClearSubject(m, t)[t := if t in m then m[t] else a.cause]
  }

  predicate SameSubject(t: Triple, u: Triple) {
    t.entity == u.entity && t.attribute == u.attribute
  }

  /** A Replace whose subject holds a value that cannot be read. */
  predicate PlainFails(m: Plain, i: Instruction) {
    i.Replace? && exists u :: u in m && SameSubject(u, TripleOf(i.artifact)) && !ReadBack(u.value).Readable?
  }

  predicate PlainFailsIn(instructions: seq<Instruction>) {
    if instructions == [] then false
    else
      var front := instructions[..|instructions| - 1];
      PlainFailsIn(front) || PlainFails(PlainFold(map[], front), instructions[|instructions| - 1])
  }

  function PlainFold(m: Plain, instructions: seq<Instruction>): Plain {
    if instructions == [] then m
    else PlainStep(PlainFold(m, instructions[..|instructions| - 1]), instructions[|instructions| - 1])
  }

  // ---- The plain reading without a fold

  predicate Writes(i: Instruction, t: Triple) {
    !i.Retract? && TripleOf(i.artifact) == t
  }

  predicate Asserts(i: Instruction, t: Triple) {
    i.Assert? && TripleOf(i.artifact) == t
  }

  /** It retracts the triple, or replaces its subject by another value. */
  predicate Erases(i: Instruction, t: Triple) {
    var u := TripleOf(i.artifact);
    (i.Retract? && u == t) || (i.Replace? && u != t && SameSubject(u, t))
  }

  /** Written here and not erased since. */
  ghost predicate Lasts(instructions: seq<Instruction>, t: Triple, k: nat) {
    && k < |instructions| && Writes(instructions[k], t)
    && forall j :: k < j < |instructions| ==> !Erases(instructions[j], t)
  }

  /** The write that a live triple has its cause from: the last Assert since it was last erased, or the Replace that
      brought it back if there was none. */
  ghost predicate GivesCause(instructions: seq<Instruction>, t: Triple, k: nat) {
    && Lasts(instructions, t, k) && (forall j :: k < j < |instructions| ==> !Asserts(instructions[j], t))
    && (instructions[k].Replace? ==> forall n: nat :: n < k ==> !Lasts(instructions[..k], t, n))
  }

  /** After every history a triple is live exactly when some write of it lasts, and it has its cause from the write that
      decides it. */
  lemma {:induction false} LiveIsLastWritten(instructions: seq<Instruction>, t: Triple)
    ensures t in PlainFold(map[], instructions) <==> exists k: nat :: Lasts(instructions, t, k)
    ensures t in PlainFold(map[], instructions) ==>
            exists k: nat :: GivesCause(instructions, t, k) &&
                             PlainFold(map[], instructions)[t] == instructions[k].artifact.cause
  {
    hide Writes, Asserts, Erases;
    if instructions != [] {
      var n: nat := |instructions| - 1;
      var front, last := instructions[..n], instructions[n];
      var before, after := PlainFold(map[], front), PlainFold(map[], instructions);
      LiveIsLastWritten(front, t);
      StepWrites(before, last, t);
      if Asserts(last, t) || (Writes(last, t) && t !in before) {
        assert instructions[..n] == front;
        assert Lasts(instructions, t, n) && GivesCause(instructions, t, n);
      } else if !Erases(last, t) && t in before {
        var k: nat :| GivesCause(front, t, k) && before[t] == front[k].artifact.cause;
        LastsLonger(instructions, t, k);
        assert instructions[..k] == front[..k];
        assert GivesCause(instructions, t, k);
      } else if exists k: nat :: Lasts(instructions, t, k) {
        var k: nat :| Lasts(instructions, t, k);
        LastsBefore(instructions, t, k);
      }
    }
  }

  lemma {:induction false} StepWrites(m: Plain, i: Instruction, t: Triple)
    ensures t in PlainStep(m, i) <==> Writes(i, t) || (t in m && !Erases(i, t))
    ensures t in PlainStep(m, i) ==> PlainStep(m, i)[t] == if Asserts(i, t) || t !in m then i.artifact.cause else m[t]
    ensures Asserts(i, t) ==> Writes(i, t) && !i.Replace?
    ensures !(Writes(i, t) && Erases(i, t))
    ensures Writes(i, t) && !Asserts(i, t) ==> i.Replace?
  {
  }

  lemma {:induction false} LastsLonger(instructions: seq<Instruction>, t: Triple, k: nat)
    requires instructions != [] && Lasts(instructions[..|instructions| - 1], t, k)
    requires !Erases(instructions[|instructions| - 1], t)
    ensures Lasts(instructions, t, k) && instructions[k] == instructions[..|instructions| - 1][k]
  {
    hide Writes, Erases;
    var front := instructions[..|instructions| - 1];
    assert forall j :: 0 <= j < |front| ==> front[j] == instructions[j];
  }

  lemma {:induction false} LastsBefore(instructions: seq<Instruction>, t: Triple, k: nat)
    requires instructions != [] && Lasts(instructions, t, k)
    ensures k == |instructions| - 1 || (Lasts(instructions[..|instructions| - 1], t, k) &&
              !Erases(instructions[|instructions| - 1], t))
  {
    hide Writes, Erases;
    var front := instructions[..|instructions| - 1];
    assert forall j :: 0 <= j < |front| ==> front[j] == instructions[j];
  }

  /** A Replace finds a write of its subject that has lasted and whose value cannot be read. */
  ghost predicate Meets(instructions: seq<Instruction>, k: nat, j: nat) {
    && j < k < |instructions| && instructions[k].Replace?
    && var u := TripleOf(instructions[j].artifact);
       Lasts(instructions[..k], u, j) && SameSubject(u, TripleOf(instructions[k].artifact)) &&
       !ReadBack(u.value).Readable?
  }

  /** A history fails exactly when some Replace meets such a write. */
  lemma {:induction false} FailsIsMeeting(instructions: seq<Instruction>)
    ensures PlainFailsIn(instructions) <==> exists k: nat, j: nat :: Meets(instructions, k, j)
  {
    hide Lasts, SameSubject, ReadBack, PlainFold;
    if instructions != [] {
      var n: nat := |instructions| - 1;
      var front, last := instructions[..n], instructions[n];
      FailsIsMeeting(front);
      if PlainFails(PlainFold(map[], front), last) {
        var u :| u in PlainFold(map[], front) && SameSubject(u, TripleOf(last.artifact)) &&
          !ReadBack(u.value).Readable?;
        LiveIsLastWritten(front, u);
        var j: nat :| Lasts(front, u, j);
        LastsWrites(front, u, j);
        assert Meets(instructions, n, j);
      } else if PlainFailsIn(front) {
        var k: nat, j: nat :| Meets(front, k, j);
        assert front[..k] == instructions[..k];
        assert Meets(instructions, k, j);
      }
      forall k: nat, j: nat | Meets(instructions, k, j) ensures PlainFailsIn(instructions) {
        if k < n {
          assert front[..k] == instructions[..k];
          assert Meets(front, k, j);
        } else {
          LiveIsLastWritten(front, TripleOf(instructions[j].artifact));
        }
      }
    }
  }

  lemma {:induction false} LastsWrites(instructions: seq<Instruction>, t: Triple, k: nat)
    requires Lasts(instructions, t, k)
    ensures k < |instructions| && TripleOf(instructions[k].artifact) == t
  {
  }

  /** The value reads back as itself or not at all. */
  predicate Whole(v: Value) {
    Sturdy(v) || !ReadBack(v).Readable?
  }

  /** The hash tells apart everything these two facts hash, and neither has a NUL. */
  predicate Apart(h: Hasher, t: Triple, u: Triple) {
    && Whole(t.value) && Whole(u.value)
    && NulFree(t.entity) && NulFree(t.attribute) && NulFree(u.entity) && NulFree(u.attribute)
    && TailsDistinguished(h, t.entity, u.entity)
    && (h(t.value.content) == h(u.value.content) ==> t.value.content == u.value.content)
  }

  ghost predicate AllApart(h: Hasher, universe: set<Triple>) {
    forall t, u :: t in universe && u in universe ==> Apart(h, t, u)
  }

  function FactOf(t: Triple, cause: Option<Digest>): Artifact {
    Artifact(t.attribute, t.entity, t.value, cause)
  }

  /** A fact's identity depends on its content alone. */
  function Identity(h: Hasher): Triple -> Key {
    t => Id(h, FactOf(t, None))
  }

  /** Identities tell triples apart by content, and pairs by subject. */
  ghost predicate Faithful(id: Triple -> Key, universe: set<Triple>) {
    forall t, u :: t in universe && u in universe ==>
      && Whole(t.value)
      && (id(t) == id(u) <==> t == u)
      && (Pair(id(t)) == Pair(id(u)) <==> t.entity == u.entity && t.attribute == u.attribute)
  }

  lemma {:induction false} IdIsContent(h: Hasher, a: Artifact, b: Artifact)
    requires Apart(h, TripleOf(a), TripleOf(b))
    ensures Id(h, a) == Id(h, b) <==> TripleOf(a) == TripleOf(b)
    ensures Pair(Id(h, a)) == Pair(Id(h, b)) <==> a.entity == b.entity && a.attribute == b.attribute
  {
    EntityBytesInjective(h, a.entity, b.entity);
    AttributeBytesInjective(a.attribute, b.attribute);
    Mutation.PairIsSubject(Id(h, a), Id(h, b));
    KeysDetermineParts(EAV, PartsFor(h, a), EAV, PartsFor(h, b));
  }

  lemma {:induction false} IdentityIsFaithful(h: Hasher, universe: set<Triple>)
    requires AllApart(h, universe)
    ensures Faithful(Identity(h), universe)
  {
    forall t, u | t in universe && u in universe
      ensures Whole(t.value)
      ensures Identity(h)(t) == Identity(h)(u) <==> t == u
      ensures Pair(Identity(h)(t)) == Pair(Identity(h)(u)) <==> t.entity == u.entity && t.attribute == u.attribute
    {
      IdIsContent(h, FactOf(t, None), FactOf(u, None));
    }
  }

  /** The identified facts are exactly these triples with these causes. */
  ghost predicate Represents(id: Triple -> Key, universe: set<Triple>, facts: FactSet, m: Plain) {
    && m.Keys <= universe
    && (forall t :: t in m ==> id(t) in facts && facts[id(t)] == FactOf(t, m[t]))
    && (forall k :: k in facts ==> TripleOf(facts[k]) in m && id(TripleOf(facts[k])) == k)
  }

  lemma {:induction false} AssertRepresents(id: Triple -> Key, universe: set<Triple>, facts: FactSet, m: Plain,
          t: Triple, cause: Option<Digest>)
    requires Faithful(id, universe) && t in universe && Represents(id, universe, facts, m)
    ensures Represents(id, universe, facts[id(t) := FactOf(t, cause)], m[t := cause])
  {
    hide Whole, Pair;
  }

  /** Keeping the facts that pass a test of their content keeps their triples. */
  lemma {:induction false} SubsetRepresents(id: Triple -> Key, universe: set<Triple>, facts: FactSet, m: Plain,
          kept: FactSet, left: Plain)
    requires Represents(id, universe, facts, m)
    requires forall k :: k in kept ==> k in facts && kept[k] == facts[k]
    requires forall t :: t in left ==> t in m && left[t] == m[t]
    requires forall k :: k in facts ==> (k in kept <==> TripleOf(facts[k]) in left)
    ensures Represents(id, universe, kept, left)
  {
  }

  lemma {:induction false} RetractRepresents(id: Triple -> Key, universe: set<Triple>, facts: FactSet, m: Plain,
          t: Triple)
    requires Faithful(id, universe) && t in universe && Represents(id, universe, facts, m)
    ensures Represents(id, universe, facts - {id(t)}, m - {t})
  {
    SubsetRepresents(id, universe, facts, m, facts - {id(t)}, m - {t});
  }

  /** A triple of the universe is present exactly where its identity is. */
  lemma {:induction false} PresentById(id: Triple -> Key, universe: set<Triple>, facts: FactSet, m: Plain, t: Triple)
    requires Faithful(id, universe) && t in universe && Represents(id, universe, facts, m)
    ensures id(t) in facts <==> t in m
    ensures id(t) in facts ==> facts[id(t)] == FactOf(t, m[t])
  {
  }

  lemma {:induction false} FailsRepresents(id: Triple -> Key, universe: set<Triple>, facts: FactSet, m: Plain,
          i: Instruction)
    requires Faithful(id, universe) && TripleOf(i.artifact) in universe && Represents(id, universe, facts, m)
    ensures FailsAt(id(TripleOf(i.artifact)), facts, i) <==> PlainFails(m, i)
  {
    hide Pair, ReadBack;
    if i.Replace? {
      if k :| k in facts && Pair(k) == Pair(id(TripleOf(i.artifact))) && !ReadBack(facts[k].value).Readable? {
        var u := TripleOf(facts[k]);
        assert u in m && id(u) == k;
      }
      if u :| u in m && SameSubject(u, TripleOf(i.artifact)) && !ReadBack(u.value).Readable? {
        assert id(u) in facts && facts[id(u)].value == u.value;
      }
    }
  }

  /** Without unreadable facts at the pair, clearing it leaves at most the fact with this very value. */
  lemma {:induction false} ClearIsExact(id: Triple -> Key, universe: set<Triple>, facts: FactSet, m: Plain, a: Artifact)
    requires Faithful(id, universe) && TripleOf(a) in universe && Represents(id, universe, facts, m)
    requires !FailsAt(id(TripleOf(a)), facts, Replace(a))
    ensures var pair := Pair(id(TripleOf(a)));
            forall k :: k in facts && Pair(k) == pair ==> (ReadsAs(facts[k].value, a.value) <==> k == id(TripleOf(a)))
  {
    hide Pair;
    forall k | k in facts && Pair(k) == Pair(id(TripleOf(a))) ensures ReadsAs(facts[k].value, a.value) <==>
        k == id(TripleOf(a)) {
      var u := TripleOf(facts[k]);
      assert u in universe && id(u) == k && Whole(u.value);
      assert facts[k].value == u.value;
    }
  }

  function OtherPairs(facts: FactSet, pair: bytes): FactSet {
    map k | k in facts && Pair(k) != pair :: facts[k]
  }

  lemma {:induction false} OthersRepresent(id: Triple -> Key, universe: set<Triple>, facts: FactSet, m: Plain,
          t: Triple)
    requires Faithful(id, universe) && t in universe && Represents(id, universe, facts, m)
    ensures Represents(id, universe, OtherPairs(facts, Pair(id(t))), ClearSubject(m, t))
  {
    SubsetRepresents(id, universe, facts, m, OtherPairs(facts, Pair(id(t))), ClearSubject(m, t));
  }

  /** Where only the fact itself reads as the value, Replace keeps the other pairs and that fact. */
  lemma {:induction false} ReplaceIs(id: Key, facts: FactSet, a: Artifact)
    requires forall k :: k in facts && Pair(k) == Pair(id) ==> (ReadsAs(facts[k].value, a.value) <==> k == id)
    ensures StepAt(id, facts, Replace(a)) == OtherPairs(facts, Pair(id))[id := if id in facts then facts[id] else a]
  {
    hide Pair, ReadsAs;
    var left := ClearPair(facts, Pair(id), a.value);
    if id in facts {
      assert id in left;
    }
  }

  lemma {:induction false} ReplaceRepresents(id: Triple -> Key, universe: set<Triple>, facts: FactSet, m: Plain,
          a: Artifact)
    requires Faithful(id, universe) && TripleOf(a) in universe && Represents(id, universe, facts, m)
    requires !FailsAt(id(TripleOf(a)), facts, Replace(a))
    ensures Represents(id, universe, StepAt(id(TripleOf(a)), facts, Replace(a)), PlainStep(m, Replace(a)))
  {
    hide Pair, ReadsAs, FailsAt, Represents, Faithful, OtherPairs, ClearSubject, StepAt;
    var t := TripleOf(a);
    var cause := if t in m then m[t] else a.cause;
    ClearIsExact(id, universe, facts, m, a);
    ReplaceIs(id(t), facts, a);
    PresentById(id, universe, facts, m, t);
    OthersRepresent(id, universe, facts, m, t);
    AssertRepresents(id, universe, OtherPairs(facts, Pair(id(t))), ClearSubject(m, t), t, cause);
  }

  lemma {:induction false} IdentityOf(h: Hasher, a: Artifact)
    ensures Identity(h)(TripleOf(a)) == Id(h, a)
  {
  }

  lemma {:induction false} StepAtRepresents(id: Triple -> Key, universe: set<Triple>, facts: FactSet, m: Plain,
          i: Instruction)
    requires Faithful(id, universe) && TripleOf(i.artifact) in universe && Represents(id, universe, facts, m)
    requires !FailsAt(id(TripleOf(i.artifact)), facts, i)
    ensures Represents(id, universe, StepAt(id(TripleOf(i.artifact)), facts, i), PlainStep(m, i))
  {
    var t := TripleOf(i.artifact);
    match i
    case Assert(a) =>
      AssertRepresents(id, universe, facts, m, t, a.cause);
    case Retract(a) =>
      RetractRepresents(id, universe, facts, m, t);
    case Replace(a) =>
      ReplaceRepresents(id, universe, facts, m, a);
  }

  lemma {:induction false} StepRepresents(h: Hasher, universe: set<Triple>, facts: FactSet, m: Plain, i: Instruction)
    requires Faithful(Identity(h), universe) && TripleOf(i.artifact) in universe &&
             Represents(Identity(h), universe, facts, m)
    ensures Fails(h, facts, i) <==> PlainFails(m, i)
    ensures !Fails(h, facts, i) ==> Represents(Identity(h), universe, Step(h, facts, i), PlainStep(m, i))
  {
    IdentityOf(h, i.artifact);
    FailsRepresents(Identity(h), universe, facts, m, i);
    if !Fails(h, facts, i) {
      StepAtRepresents(Identity(h), universe, facts, m, i);
    }
  }

  predicate Within(instructions: seq<Instruction>, universe: set<Triple>) {
    forall i :: 0 <= i < |instructions| ==> TripleOf(instructions[i].artifact) in universe
  }

  /** A history fails by key exactly when its plain reading does, and otherwise leaves exactly the plain facts. */
  lemma {:induction false} FoldRepresents(h: Hasher, universe: set<Triple>, instructions: seq<Instruction>)
    requires AllApart(h, universe) && Within(instructions, universe)
    ensures FailsIn(h, map[], instructions) <==> PlainFailsIn(instructions)
    ensures !FailsIn(h, map[], instructions) ==>
            Represents(Identity(h), universe, Fold(h, map[], instructions), PlainFold(map[], instructions))
  {
    hide AllApart, Faithful, Step, Fails, PlainFails, PlainStep, Represents, Identity;
    IdentityIsFaithful(h, universe);
    FailsLast(h, map[], instructions);
    if instructions == [] {
      NothingRepresents(Identity(h), universe);
      FoldNothing(h);
    } else {
      var n := |instructions| - 1;
      FoldRepresents(h, universe, instructions[..n]);
      FoldPrefix(h, map[], instructions, n);
      assert instructions[..n + 1] == instructions;
      if !FailsIn(h, map[], instructions[..n]) {
        StepRepresents(h, universe, Fold(h, map[], instructions[..n]), PlainFold(map[], instructions[..n]),
          instructions[n]);
      }
    }
  }

  lemma {:induction false} NothingRepresents(id: Triple -> Key, universe: set<Triple>)
    ensures Represents(id, universe, map[], map[])
  {
  }

  lemma {:induction false} FoldNothing(h: Hasher)
    ensures Fold(h, map[], []) == map[]
  {
  }

  /** The index agrees with filtering the plain facts: whichever index a scan
      ranges over, the facts it picks are the live triples the selector selects. */
  lemma {:induction false} ScanIsFilter(h: Hasher, universe: set<Triple>, instructions: seq<Instruction>, tree: Tree,
          s: Selector, a: Artifact)
    requires AllApart(h, universe) && Within(instructions, universe)
    requires Consistent(h, tree) && Live(tree) == Fold(h, map[], instructions) && !FailsIn(h, map[], instructions)
    requires TripleOf(a) in universe && NulFreeSelector(s) && Distinguished(h, s, a)
    ensures Picked(h, s, tree, a) <==>
              var m := PlainFold(map[], instructions);
              TripleOf(a) in m && m[TripleOf(a)] == a.cause && s.Selects(a)
  {
    hide Fold, PlainFold, Live, AllApart, Consistent, FailsIn;
    MatchIsFilter(h, universe, instructions, s, a);
  }

  /** The facts a history leaves, by their keys, that a selector matches by its key bytes. */
  ghost predicate MatchedBy(h: Hasher, instructions: seq<Instruction>, s: Selector, a: Artifact) {
    var facts := Fold(h, map[], instructions);
    Id(h, a) in facts && facts[Id(h, a)] == a && s.Matches(h, a)
  }

  lemma {:induction false} MatchIsFilter(h: Hasher, universe: set<Triple>, instructions: seq<Instruction>, s: Selector,
          a: Artifact)
    requires AllApart(h, universe) && Within(instructions, universe) && !FailsIn(h, map[], instructions)
    requires TripleOf(a) in universe && NulFreeSelector(s) && Distinguished(h, s, a)
    ensures MatchedBy(h, instructions, s, a) <==>
              var m := PlainFold(map[], instructions);
              TripleOf(a) in m && m[TripleOf(a)] == a.cause && s.Selects(a)
  {
    var t, m := TripleOf(a), PlainFold(map[], instructions);
    FoldRepresents(h, universe, instructions);
    IdentityIsFaithful(h, universe);
    IdentityOf(h, a);
    PresentById(Identity(h), universe, Fold(h, map[], instructions), m, t);
    assert Apart(h, t, t);
    MatchesIsSelects(h, s, a);
  }
}
