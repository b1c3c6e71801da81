/** The whole fact store: any history of batches and blob writes, then any scan. */
module Store {
  import opened Bytes
  import opened Facts
  import opened FactTree
  import opened History
  import opened Options
  import BlobIndex
  import Mutation
  import Scanning

  /** The plain facts a history leaves that a selector selects. */
  ghost predicate Answers(instructions: seq<Instruction>, s: Selector, a: Artifact) {
    var m := PlainFold(map[], instructions);
    TripleOf(a) in m && m[TripleOf(a)] == a.cause && s.Selects(a)
  }

  /** Nothing the selector asks for collides with a fact of the universe. */
  ghost predicate Asks(h: Hasher, universe: set<Triple>, s: Selector) {
    s.Constrained() && NulFreeSelector(s) && forall t :: t in universe ==> Distinguished(h, s, FactOf(t, None))
  }

  lemma {:induction false} MatchedAnswers(h: Hasher, universe: set<Triple>, instructions: seq<Instruction>, s: Selector,
          a: Artifact)
    requires AllApart(h, universe) && Within(instructions, universe) && Asks(h, universe, s)
    requires !FailsIn(h, map[], instructions)
    ensures MatchedBy(h, instructions, s, a) <==> Answers(instructions, s, a)
    ensures Answers(instructions, s, a) ==> Whole(a.value)
  {
    hide AllApart, Fold, PlainFold, Id, NulFreeSelector, Identity, FailsIn;
    FoldRepresents(h, universe, instructions);
    if MatchedBy(h, instructions, s, a) || Answers(instructions, s, a) {
      assert TripleOf(a) in universe;
      assert Distinguished(h, s, FactOf(TripleOf(a), None));
      MatchIsFilter(h, universe, instructions, s, a);
      WholeIn(h, universe, TripleOf(a));
    }
  }

  lemma {:induction false} WholeIn(h: Hasher, universe: set<Triple>, t: Triple)
    requires AllApart(h, universe) && t in universe
    ensures Whole(t.value)
  {
    assert Apart(h, t, t);
  }

  datatype Response = Answered(facts: seq<Artifact>) | NotApplied | NotRead(facts: seq<Artifact>)

  /** For every history and every selector, on any texts and with any hash: applying fails exactly when a Replace
      meets a value that cannot be read, and otherwise the scan shows exactly the matching facts, up to one it cannot
      read. */
  method Respond(h: Hasher, ops: seq<BlobIndex.Operation>, s: Selector)
    returns (r: Response, ghost matching: seq<Artifact>)
    requires s.Constrained()
    ensures r.NotApplied? <==> FailsIn(h, map[], BlobIndex.Instructions(ops))
    ensures !r.NotApplied? ==> forall a :: a in matching <==> MatchedBy(h, BlobIndex.Instructions(ops), s, a)
    ensures !r.NotApplied? ==> Scanning.InOrder(h, s, matching)
    ensures !r.NotApplied? ==> Scanning.Shows(matching, r.facts, r.NotRead?)
    ensures r.NotRead? ==> exists a :: a in matching && !Scanning.CanRead(a)
  {
    hide *;
    matching := [];
    var tree, failed := BlobIndex.RunAll(h, ops);
    if failed {
      return NotApplied, [];
    }
    TreeHolds(h, tree, ops);
    matching := Scanning.Matching(h, s, tree);
    Scanning.MatchingIsPicked(h, s, tree);
    forall a ensures Scanning.Picked(h, s, tree, a) <==> MatchedBy(h, BlobIndex.Instructions(ops), s, a) {
      PickedIsMatched(h, BlobIndex.Instructions(ops), tree, s, a);
    }
    var out, stopped := Scanning.Scan(h, tree, s);
    Scanning.ShowsFails(matching, out, stopped);
    r := if stopped then NotRead(out) else Answered(out);
  }

  lemma {:induction false} PickedIsMatched(h: Hasher, instructions: seq<Instruction>, tree: Tree, s: Selector,
          a: Artifact)
    requires Live(tree) == Fold(h, map[], instructions)
    ensures Scanning.Picked(h, s, tree, a) <==> MatchedBy(h, instructions, s, a)
  {
    hide Live, Fold;
  }

  /** Whatever was applied and stored before, a scan returns exactly the plain facts it asks for, each once. Applying
      fails exactly when a Replace meets a value that cannot be read, the scan when it has to show one. */
  method Answer(h: Hasher, ops: seq<BlobIndex.Operation>, s: Selector, ghost universe: set<Triple>)
    returns (r: Response)
    requires AllApart(h, universe) && Within(BlobIndex.Instructions(ops), universe) && Asks(h, universe, s)
    ensures r.NotApplied? <==> PlainFailsIn(BlobIndex.Instructions(ops))
    ensures r.NotRead? <==>
            && !PlainFailsIn(BlobIndex.Instructions(ops))
            && exists a :: Answers(BlobIndex.Instructions(ops), s, a) && !Scanning.CanRead(a)
    ensures r.Answered? ==> forall a :: a in r.facts <==> Answers(BlobIndex.Instructions(ops), s, a)
    ensures r.Answered? ==> Scanning.InOrder(h, s, r.facts)
    ensures r.Answered? ==> forall i, j :: 0 <= i < j < |r.facts| ==> r.facts[i] != r.facts[j]
  {
    hide *;
    FoldRepresents(h, universe, BlobIndex.Instructions(ops));
    AsksSomething(h, universe, s);
    ghost var matching;
    r, matching := Respond(h, ops, s);
    if !r.NotApplied? {
      forall a
        ensures MatchedBy(h, BlobIndex.Instructions(ops), s, a) <==> Answers(BlobIndex.Instructions(ops), s, a)
      {
        MatchedAnswers(h, universe, BlobIndex.Instructions(ops), s, a);
      }
      Scanning.ShowsFails(matching, r.facts, r.NotRead?);
      if r.Answered? {
        forall a | a in matching ensures Sturdy(a.value) {
          MatchedAnswers(h, universe, BlobIndex.Instructions(ops), s, a);
          WholeAndReadable(a);
        }
        DistinctInOrder(h, s, matching);
      }
    }
  }

  lemma {:induction false} AsksSomething(h: Hasher, universe: set<Triple>, s: Selector)
    requires Asks(h, universe, s)
    ensures s.Constrained()
  {
  }

  lemma {:induction false} WholeAndReadable(a: Artifact)
    requires Whole(a.value)
    ensures Scanning.CanRead(a) ==> Sturdy(a.value)
  {
  }

  lemma {:induction false} DistinctInOrder(h: Hasher, s: Selector, facts: seq<Artifact>)
    requires Scanning.InOrder(h, s, facts)
    ensures forall i, j :: 0 <= i < j < |facts| ==> facts[i] != facts[j]
  {
    hide Leq, Scanning.SortKey;
  }

  lemma {:induction false} TreeHolds(h: Hasher, tree: Tree, ops: seq<BlobIndex.Operation>)
    requires BlobIndex.Holds(h, tree, BlobIndex.Instructions(ops), BlobIndex.LastPut(ops))
    ensures Consistent(h, tree) && Live(tree) == Fold(h, map[], BlobIndex.Instructions(ops))
  {
  }

  // ---- A record goes in and does not come out

  /** A record can be asserted into any store; then every Replace of its pair fails, and so does every scan that
      matches it. */
  lemma {:induction false} RecordsAreStuck(h: Hasher, facts: FactSet, a: Artifact, b: Artifact)
    requires a.value.dataType == RECORD_TYPE && b.entity == a.entity && b.attribute == a.attribute
    ensures !FailsIn(h, facts, [Assert(a)]) && !Scanning.CanRead(a)
    ensures FailsIn(h, facts, [Assert(a), Replace(b)])
    ensures forall tree, s: Selector ::
              Consistent(h, tree) && Live(tree) == Fold(h, facts, [Assert(a)]) && s.Matches(h, a) ==>
              Scanning.Picked(h, s, tree, a)
  {
    var after := Fold(h, facts, [Assert(a)]);
    assert [Assert(a)][..0] == [] && [Assert(a), Replace(b)][..1] == [Assert(a)];
    FoldPrefix(h, facts, [Assert(a)], 0);
    assert [Assert(a)][..1] == [Assert(a)];
    FailsLast(h, facts, [Assert(a)]);
    FailsLast(h, facts, [Assert(a), Replace(b)]);
    assert Id(h, a) in after && after[Id(h, a)] == a;
    Mutation.SubjectIsPair(h, a, b);
  }
}
