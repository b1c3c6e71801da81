/** Applying a batch of instructions to the artifact tree. */
module Mutation {
  import opened Bytes
  import opened Keys
  import opened Facts
  import opened Names
  import opened FactTree

  function PairLow(id: Key): Key {
    SetAttribute(EAV, SetEntity(EAV, MinKey(EAV), EntityPart(EAV, id)), AttributePart(EAV, id))
  }

  function PairHigh(id: Key): Key {
    SetAttribute(EAV, SetEntity(EAV, MaxKey(EAV), EntityPart(EAV, id)), AttributePart(EAV, id))
  }

  /** The range read for one entity and attribute holds exactly their entries. */
  lemma {:induction false} PairRange(id: Key, k: Key)
    requires id[0] == EAV.Tag()
    ensures Leq(PairLow(id), k) && Leq(k, PairHigh(id)) <==> Pair(k) == Pair(id)
  {
    assert PairLow(id) == Pair(id) + Fill(KEY_LENGTH - |Pair(id)|, 0);
    assert PairHigh(id) == Pair(id) + Fill(KEY_LENGTH - |Pair(id)|, 255);
    PaddingBrackets(Pair(id), k);
  }

  /** The entry in the way of setting a pair to this value. */
  predicate Superseded(tree: Tree, k: Key, value: Value) {
    k in Live(tree) && !ReadsAs(Live(tree)[k].value, value)
  }

  predicate HoldsValue(tree: Tree, k: Key, value: Value) {
    k in Live(tree) && ReadsAs(Live(tree)[k].value, value)
  }

  predicate Unreadable(tree: Tree, k: Key) {
    k in Live(tree) && !ReadBack(Live(tree)[k].value).Readable?
  }

  /** Sorts the entries of a range read into those to supersede and, if any, the one to keep; fails at one that
      cannot be decoded. */
  method Collect(tree: Tree, keys: seq<Key>, value: Value) returns (superseded: seq<Key>, foundSame: bool, failed: bool)
    requires forall i, j :: 0 <= i < j < |keys| ==> keys[i] != keys[j]
    requires forall k :: k in keys ==> k in tree && (tree[k].Added? <==> k in Live(tree))
    ensures failed <==> exists k :: k in keys && Unreadable(tree, k)
    ensures forall i, j :: 0 <= i < j < |superseded| ==> superseded[i] != superseded[j]
    ensures !failed ==> forall k :: k in superseded <==> k in keys && Superseded(tree, k, value)
    ensures !failed ==> (foundSame <==> exists k :: k in keys && HoldsValue(tree, k, value))
  {
    superseded, foundSame, failed := [], false, false;
    for n := 0 to |keys|
      invariant !failed && forall k :: k in keys[..n] ==> !Unreadable(tree, k)
      invariant forall i, j :: 0 <= i < j < |superseded| ==> superseded[i] != superseded[j]
      invariant forall k :: k in superseded <==> k in keys[..n] && Superseded(tree, k, value)
      invariant foundSame <==> exists k :: k in keys[..n] && HoldsValue(tree, k, value)
    {
      var key := keys[n];
      assert key in keys;
      assert keys[..n + 1] == keys[..n] + [key];
      assert key !in keys[..n];
      if tree[key].Added? {
        var current := FromDatum(tree[key].datum);
        if current.None? {
          assert Unreadable(tree, key);
          return superseded, foundSame, true;
        }
        if current.value.value == value {
          assert HoldsValue(tree, key, value);
          foundSame := true;
        } else {
          superseded := superseded + [key];
        }
      }
    }
    assert keys[..|keys|] == keys;
  }

  /** The facts of a pair with another value, and whether the wanted value is already there. */
  method FindPriors(h: Hasher, tree: Tree, artifact: Artifact)
    returns (superseded: seq<Key>, foundSame: bool, failed: bool)
    requires Consistent(h, tree)
    ensures failed <==> Fails(h, Live(tree), Replace(artifact))
    ensures forall i, j :: 0 <= i < j < |superseded| ==> superseded[i] != superseded[j]
    ensures !failed ==> forall k :: k in superseded <==>
            Pair(k) == Pair(Id(h, artifact)) && Superseded(tree, k, artifact.value)
    ensures !failed ==>
            (foundSame <==> exists k :: Pair(k) == Pair(Id(h, artifact)) && HoldsValue(tree, k, artifact.value))
  {
    hide Consistent, Live, Pair, Id, PairKeys, ReadBack, ReadsAs;
    var keys := PairKeys(tree, Id(h, artifact));
    PairIsRead(h, tree, artifact);
    PairEntries(h, tree, Id(h, artifact));
    superseded, foundSame, failed := Collect(tree, keys, artifact.value);
  }

  lemma {:induction false} PairIsRead(h: Hasher, tree: Tree, artifact: Artifact)
    requires Consistent(h, tree)
    ensures Id(h, artifact)[0] == EAV.Tag()
    ensures forall k :: k in Live(tree) && Pair(k) == Pair(Id(h, artifact)) ==> k in PairKeys(tree, Id(h, artifact))
  {
    hide Consistent, Pair, PairKeys;
    PairEntries(h, tree, Id(h, artifact));
  }

  /** The keys of a pair's entries in order, as the range read streams them. */
  function PairKeys(tree: Tree, id: Key): (keys: seq<Key>)
    ensures forall i, j :: 0 <= i < j < |keys| ==> keys[i] != keys[j]
  {
    var range := set k: Key | k in tree && Leq(PairLow(id), k) && Leq(k, PairHigh(id));
    var keys := Sorted(range);
    assert forall i :: 0 <= i < |keys| ==> keys[i] in keys;
    keys
  }

  lemma {:induction false} PairEntries(h: Hasher, tree: Tree, id: Key)
    requires Consistent(h, tree) && id[0] == EAV.Tag()
    ensures forall k: Key :: k in PairKeys(tree, id) <==> k in tree && Pair(k) == Pair(id)
    ensures forall k :: k in PairKeys(tree, id) ==> (tree[k].Added? <==> k in Live(tree))
  {
    forall k: Key ensures k in PairKeys(tree, id) <==> k in tree && Pair(k) == Pair(id) {
      PairRange(id, k);
    }
    forall k | k in PairKeys(tree, id) ensures tree[k].Added? <==> k in Live(tree) {
      assert k[0] == Pair(k)[0] == Pair(id)[0];
      AddedIsLive(h, tree, k);
    }
  }

  function Without(facts: FactSet, gone: seq<Key>): FactSet {
    map k | k in facts && k !in gone :: facts[k]
  }

  /** Deletes one fact from all three indexes. */
  method Delete(h: Hasher, tree: Tree, key: Key) returns (transient: Tree)
    requires Consistent(h, tree) && key in Live(tree)
    ensures Consistent(h, transient) && SameElsewhere(tree, transient)
    ensures Live(transient) == Live(tree) - {key}
  {
    DropFact(h, tree, key);
    AddedIsLive(h, tree, key);
    var valueKey, attributeKey := FromKey(VAE, EAV, key), FromKey(AEV, EAV, key);
    transient := tree - {key};
    transient := transient - {valueKey};
    transient := transient - {attributeKey};
  }

  /** Deletes the superseded facts. */
  method DeleteAll(h: Hasher, tree: Tree, gone: seq<Key>) returns (transient: Tree)
    requires Consistent(h, tree)
    requires forall i, j :: 0 <= i < j < |gone| ==> gone[i] != gone[j]
    requires forall k :: k in gone ==> k in Live(tree)
    ensures Consistent(h, transient) && SameElsewhere(tree, transient)
    ensures Live(transient) == Without(Live(tree), gone)
  {
    transient := tree;
    for n := 0 to |gone|
      invariant Consistent(h, transient) && SameElsewhere(tree, transient)
      invariant Live(transient) == Without(Live(tree), gone[..n])
    {
      var key := gone[n];
      WithoutOneMore(Live(tree), gone, n);
      transient := Delete(h, transient, key);
    }
    assert gone[..|gone|] == gone;
  }

  lemma {:induction false} WithoutOneMore(facts: FactSet, gone: seq<Key>, n: nat)
    requires n < |gone|
    requires forall i, j :: 0 <= i < j < |gone| ==> gone[i] != gone[j]
    requires forall k :: k in gone ==> k in facts
    ensures gone[n] in Without(facts, gone[..n])
    ensures Without(facts, gone[..n]) - {gone[n]} == Without(facts, gone[..n + 1])
  {
    assert gone[..n + 1] == gone[..n] + [gone[n]];
  }

  /** Writes one state under the three keys of a fact. */
  method PutAll(h: Hasher, tree: Tree, artifact: Artifact, state: State) returns (transient: Tree)
    ensures transient == Put(tree, PartsFor(h, artifact), state)
  {
    var entityKey := Id(h, artifact);
    var valueKey := FromKey(VAE, EAV, entityKey);
    var attributeKey := FromKey(AEV, EAV, entityKey);
    transient := tree;
    transient := transient[entityKey := state];
    transient := transient[attributeKey := state];
    transient := transient[valueKey := state];
  }

  lemma {:induction false} SamePairSameValue(h: Hasher, a: Artifact, b: Artifact)
    requires Pair(Id(h, a)) == Pair(Id(h, b)) && a.value == b.value
    ensures Id(h, a) == Id(h, b)
  {
    PairIsSubject(Id(h, a), Id(h, b));
    PartsDetermineKey(EAV, Id(h, a));
    PartsDetermineKey(EAV, Id(h, b));
  }

  lemma {:induction false} PairIsSubject(j: Key, k: Key)
    ensures Pair(j) == Pair(k) <==>
            j[0] == k[0] && EntityPart(EAV, j) == EntityPart(EAV, k) && AttributePart(EAV, j) == AttributePart(EAV, k)
  {
    assert Pair(j) == [j[0]] + EntityPart(EAV, j) + AttributePart(EAV, j);
    assert Pair(k) == [k[0]] + EntityPart(EAV, k) + AttributePart(EAV, k);
    assert EntityPart(EAV, j) == Pair(j)[1..65] && AttributePart(EAV, j) == Pair(j)[65..129];
    assert EntityPart(EAV, k) == Pair(k)[1..65] && AttributePart(EAV, k) == Pair(k)[65..129];
  }

  /** Deleting the superseded facts is clearing the pair of what does not read as the value. */
  lemma {:induction false} SupersedingClearsPair(tree: Tree, id: Key, value: Value, superseded: seq<Key>)
    requires forall k :: k in superseded <==> Pair(k) == Pair(id) && Superseded(tree, k, value)
    ensures Without(Live(tree), superseded) == ClearPair(Live(tree), Pair(id), value)
    ensures HasPair(ClearPair(Live(tree), Pair(id), value), Pair(id)) <==>
            exists k :: Pair(k) == Pair(id) && HoldsValue(tree, k, value)
  {
    hide Live, Pair, ReadsAs;
    var left := ClearPair(Live(tree), Pair(id), value);
    if k :| Pair(k) == Pair(id) && HoldsValue(tree, k, value) {
      assert k in left;
    }
  }

  /** No fact of the pair reads as the value without being it. */
  predicate Plain(facts: FactSet, pair: bytes, value: Value) {
    forall k :: k in facts && Pair(k) == pair && ReadsAs(facts[k].value, value) ==> facts[k].value == value
  }

  /** The pair holds the value, under its own identity, and nothing else. */
  predicate HoldsOnly(facts: FactSet, id: Key, value: Value) {
    id in facts && facts[id].value == value && forall k :: k in facts && Pair(k) == Pair(id) ==> k == id
  }

  ghost predicate OtherPairsSame(before: FactSet, after: FactSet, pair: bytes) {
    forall k :: Pair(k) != pair ==> (k in after <==> k in before) && (k in before ==> after[k] == before[k])
  }

  lemma {:induction false} SameValueIsSame(h: Hasher, tree: Tree, k: Key, a: Artifact)
    requires Consistent(h, tree) && k in Live(tree) && Pair(k) == Pair(Id(h, a)) && Live(tree)[k].value == a.value
    ensures k == Id(h, a)
  {
    assert k[0] == Pair(k)[0] == Id(h, a)[0];
    AddedIsLive(h, tree, k);
    SamePairSameValue(h, Live(tree)[k], a);
  }

  /** Exactly one live value is left, the replaced-in one, if and only if no other fact of the pair reads as it. */
  lemma {:induction false} ReplaceLeavesOne(h: Hasher, tree: Tree, a: Artifact)
    requires Consistent(h, tree)
    ensures var next := Step(h, Live(tree), Replace(a));
            && OtherPairsSame(Live(tree), next, Pair(Id(h, a)))
            && (HoldsOnly(next, Id(h, a), a.value) <==> Plain(Live(tree), Pair(Id(h, a)), a.value))
  {
    hide Consistent, Live, Id, ReadsAs;
    var facts, id := Live(tree), Id(h, a);
    var left := ClearPair(facts, Pair(id), a.value);
    if Plain(facts, Pair(id), a.value) {
      forall k | k in left && Pair(k) == Pair(id) ensures k == id {
        SameValueIsSame(h, tree, k, a);
      }
    } else {
      var k :| k in facts && Pair(k) == Pair(id) && ReadsAs(facts[k].value, a.value) && facts[k].value != a.value;
      assert k in left;
    }
  }

  /** The failing input: a symbol that goes on behind a NUL, then a Replace by the name before it. The stored symbol
      reads as that name, so it stays and the name itself never gets in. */
  lemma {:induction false} CutSymbolStays(h: Hasher, a: Artifact, b: Artifact, name: Attribute, rest: bytes)
    requires NulFree(name) && |name| + 1 + |rest| <= ATTRIBUTE_LENGTH && exists i :: 0 <= i < |rest| && rest[i] != 0
    requires a.value == Value(SYMBOL_TYPE, AttributeBytes(name + [0] + rest))
    requires b == a.(value := Value(SYMBOL_TYPE, AttributeBytes(name)))
    ensures var left := Fold(h, map[], [Assert(a), Replace(b)]);
            !FailsIn(h, map[], [Assert(a), Replace(b)]) && left == map[Id(h, a) := a] && a.value != b.value
  {
    hide AttributeBytes, Id, ReadBack;
    var history := [Assert(a), Replace(b)];
    assert history[..0] == [] && history[..1] == [Assert(a)] && history[..2] == history;
    SymbolsAreCut(name, rest);
    FoldPrefix(h, map[], history, 0);
    FoldPrefix(h, map[], history, 1);
    FailsLast(h, map[], [Assert(a)]);
    FailsLast(h, map[], history);
    assert [Assert(a)][..0] == [];
    SubjectIsPair(h, a, b);
    var facts: FactSet := map[Id(h, a) := a];
    assert Fold(h, map[], [Assert(a)]) == facts;
    assert ClearPair(facts, Pair(Id(h, b)), b.value) == facts;
  }

  lemma {:induction false} SubjectIsPair(h: Hasher, a: Artifact, b: Artifact)
    requires b.entity == a.entity && b.attribute == a.attribute
    ensures Pair(Id(h, a)) == Pair(Id(h, b))
  {
    PairIsSubject(Id(h, a), Id(h, b));
  }

  /** Clears the pair of everything but the value and sets it unless it was there. */
  method ApplyReplace(h: Hasher, tree: Tree, artifact: Artifact) returns (transient: Tree, failed: bool)
    requires Consistent(h, tree)
    ensures failed <==> Fails(h, Live(tree), Replace(artifact))
    ensures failed ==> transient == tree
    ensures Consistent(h, transient) && SameElsewhere(tree, transient)
    ensures !failed ==> Live(transient) == Step(h, Live(tree), Replace(artifact))
    ensures !failed ==> OtherPairsSame(Live(tree), Live(transient), Pair(Id(h, artifact)))
    ensures !failed ==>
            (HoldsOnly(Live(transient), Id(h, artifact), artifact.value) <==>
            Plain(Live(tree), Pair(Id(h, artifact)), artifact.value))
  {
    hide Consistent, Live, Pair, Id, ClearPair, Plain, HoldsOnly, OtherPairsSame, Fails, HoldsValue, Superseded;
    var superseded, foundSame;
    superseded, foundSame, failed := FindPriors(h, tree, artifact);
    if failed {
      return tree, true;
    }
    ReplaceLeavesOne(h, tree, artifact);
    SupersedingClearsPair(tree, Id(h, artifact), artifact.value, superseded);
    SupersededAreLive(tree, Id(h, artifact), artifact.value, superseded);
    transient := DeleteAll(h, tree, superseded);
    if !foundSame {
      PutFact(h, transient, artifact);
      var next := PutAll(h, transient, artifact, Added(ToDatum(artifact)));
      SameElsewhereTransitive(tree, transient, next);
      transient := next;
    }
  }

  lemma {:induction false} SupersededAreLive(tree: Tree, id: Key, value: Value, superseded: seq<Key>)
    requires forall k :: k in superseded <==> Pair(k) == Pair(id) && Superseded(tree, k, value)
    ensures forall k :: k in superseded ==> k in Live(tree)
  {
  }

  method ApplyOne(h: Hasher, tree: Tree, instruction: Instruction) returns (transient: Tree, failed: bool)
    requires Consistent(h, tree)
    ensures failed <==> Fails(h, Live(tree), instruction)
    ensures failed ==> transient == tree
    ensures Consistent(h, transient) && SameElsewhere(tree, transient)
    ensures !failed ==> Live(transient) == Step(h, Live(tree), instruction)
  {
    failed := false;
    match instruction {
      case Assert(artifact) =>
        PutFact(h, tree, artifact);
        transient := PutAll(h, tree, artifact, Added(ToDatum(artifact)));
      case Replace(artifact) =>
        transient, failed := ApplyReplace(h, tree, artifact);
      case Retract(artifact) =>
        HideFact(h, tree, artifact);
        transient := PutAll(h, tree, artifact, Removed);
    }
  }

  lemma {:induction false} SameElsewhereTransitive(t: Tree, u: Tree, w: Tree)
    requires SameElsewhere(t, u) && SameElsewhere(u, w)
    ensures SameElsewhere(t, w)
  {
  }

  /** Drains a batch of instructions into the tree, which stays as it was if one of them fails. */
  method Apply(h: Hasher, tree: Tree, instructions: seq<Instruction>) returns (next: Tree, failed: bool)
    requires Consistent(h, tree)
    ensures failed <==> FailsIn(h, Live(tree), instructions)
    ensures failed ==> next == tree
    ensures Consistent(h, next) && SameElsewhere(tree, next)
    ensures !failed ==> Live(next) == Fold(h, Live(tree), instructions)
  {
    hide Consistent, Live, Fold, Step, Fails;
    var transient := tree;
    ghost var start, facts := Live(tree), Live(tree);
    Nothing(h, start, instructions);
    for n := 0 to |instructions|
      invariant Consistent(h, transient) && SameElsewhere(tree, transient)
      invariant !FailsIn(h, start, instructions[..n])
      invariant Live(transient) == facts == Fold(h, start, instructions[..n])
    {
      FoldPrefix(h, start, instructions, n);
      FailsPrefix(h, start, instructions, n);
      facts := Step(h, facts, instructions[n]);
      var applied;
      applied, failed := ApplyOne(h, transient, instructions[n]);
      if failed {
        return tree, true;
      }
      SameElsewhereTransitive(tree, transient, applied);
      transient := applied;
    }
    assert instructions[..|instructions|] == instructions;
    return transient, false;
  }

  lemma {:induction false} Nothing(h: Hasher, facts: FactSet, instructions: seq<Instruction>)
    ensures !FailsIn(h, facts, instructions[..0]) && Fold(h, facts, instructions[..0]) == facts
  {
  }
}
