/** Compiling a rule: the checks on its head and body, and what an accepted rule promises. */
module Rules {
  import opened Environments
  import opened Planner
  import opened Query
  import opened Meaning
  import opened Orders
  import opened Exactness
  import opened Narrowing
  import opened Operands
  import opened Bodies

  datatype Verdict =
    | Accepted
    | OptionalHead(name: Name)
    | NegatedOptional
    | Infeasible(required: set<Name>)
    | Unbound(name: Name)

  /** Every positive slot of the name admits absence. */
  predicate InferredOptional(premises: seq<Premise>, n: Name) {
    n in Mentioned(premises) && n !in Demanded(premises)
  }

  predicate NegatesOptional(premises: seq<Premise>) {
    exists p :: p in premises && p.Unless? && p.proposition.LeftJoin?
  }

  /** No required operand may be absent, no left join is negated, the narrowed premises can be ordered from nothing,
      and they bind every required operand. */
  ghost predicate Acceptable(premises: seq<Premise>, operands: seq<Name>) {
    && (forall n :: n in operands ==> !InferredOptional(premises, n))
    && !NegatesOptional(premises)
    && Plannable(ShapeOf, {}, Narrowed(premises))
    && (forall n :: n in operands ==> n in After(ShapeOf, {}, premises))
  }

  /** Some operand is inferred optional, though every one of them must have a value. */
  predicate HasOptionalHead(premises: seq<Premise>, operands: seq<Name>) {
    exists n :: n in operands && InferredOptional(premises, n)
  }

  /** The first of the operands for which the test holds. */
  predicate FirstOf(operands: seq<Name>, test: Name -> bool, n: Name) {
    exists i :: 0 <= i < |operands| && operands[i] == n && test(n) && forall k :: 0 <= k < i ==> !test(operands[k])
  }

  /** A name is inferred optional exactly when positive premises mention it and it stands nowhere where only a value
      will do. */
  lemma {:induction false} InferredIsStanding(premises: seq<Premise>, n: Name)
    ensures InferredOptional(premises, n) <==>
            && (exists p :: p in premises && p.When? && n in VarsOf(p.proposition))
            && !exists p :: p in premises && StandsPresent(p, n)
  {
    hide VarsOf, StandsPresent, DemandedBy;
    forall p ensures n in DemandedBy(p) <==> StandsPresent(p, n) {
      DemandedIsStanding(p, n);
    }
  }

  /** The checks in turn, each reporting the first operand that fails it. */
  method Compile(premises: seq<Premise>, operands: seq<Name>) returns (r: Verdict)
    ensures r.Accepted? <==> Acceptable(premises, operands)
    ensures r.OptionalHead? <==> HasOptionalHead(premises, operands)
    ensures r.OptionalHead? ==> FirstOf(operands, n => InferredOptional(premises, n), r.name)
    ensures (forall n :: n in operands ==> exists p :: p in premises && StandsPresent(p, n)) ==> !r.OptionalHead?
    ensures r.NegatedOptional? <==> !HasOptionalHead(premises, operands) && NegatesOptional(premises)
    ensures r.Infeasible? <==>
            && !HasOptionalHead(premises, operands) && !NegatesOptional(premises)
            && !Plannable(ShapeOf, {}, Narrowed(premises))
    ensures r.Infeasible? ==> r.required != {} && Unreachable(ShapeOf, {}, Narrowed(premises), r.required)
    ensures r.Unbound? ==> FirstOf(operands, n => n !in After(ShapeOf, {}, premises), r.name)
  {
    hide Plannable, After, Demanded, Mentioned, Narrow, Ordering, TotalCost, Recorded, Greedy, Unreachable, InTurns;
    hide StandsPresent, DemandedBy, Taken, Bound;
    var present := Infer(premises);
    var mentioned := Mentioned(premises);
    for i := 0 to |operands|
      invariant forall k :: 0 <= k < i ==> !InferredOptional(premises, operands[k])
    {
      if operands[i] in mentioned && operands[i] !in present {
        assert operands[i] in operands && InferredOptional(premises, operands[i]);
        return OptionalHead(operands[i]);
      }
    }
    if NegatesOptional(premises) {
      return NegatedOptional;
    }
    var plan := Plan(ShapeOf, {}, Narrow(premises, present));
    match plan {
      case RequiredBindings(required) => return Infeasible(required);
      case Planned(_, _, binds) =>
        NarrowedBinds(premises, present, {});
        for i := 0 to |operands|
          invariant forall k :: 0 <= k < i ==> operands[k] in binds
        {
          if operands[i] !in binds {
            assert operands[i] in operands;
            return Unbound(operands[i]);
          }
        }
        r := Accepted;
    }
  }

  /** An accepted rule can be planned in every scope, and every order there leaves its operands bound. */
  lemma {:induction false} AcceptedEverywhere(premises: seq<Premise>, operands: seq<Name>, scope: set<Name>,
          order: seq<Premise>)
    requires Acceptable(premises, operands)
    ensures Plannable(ShapeOf, scope, Narrowed(premises))
    ensures Ordering(ShapeOf, scope, Narrowed(premises), order) ==> forall n :: n in operands ==>
            n in After(ShapeOf, scope, order)
  {
    hide Plannable, After, Narrowed, InferredOptional, NegatesOptional, Gives;
    PlannableGrows(ShapeOf, {}, scope, Narrowed(premises));
    AfterIsUnion(ShapeOf, {}, premises);
    AfterIsUnion(ShapeOf, scope, premises);
    NarrowedBindsAll(premises, scope);
    if Ordering(ShapeOf, scope, Narrowed(premises), order) {
      BindsAnyOrder(ShapeOf, scope, Narrowed(premises), order);
    }
  }

  lemma {:induction false} NarrowedBindsAll(premises: seq<Premise>, scope: set<Name>)
    ensures After(ShapeOf, scope, Narrowed(premises)) == After(ShapeOf, scope, premises)
  {
    NarrowedBinds(premises, Demanded(premises), scope);
  }

  lemma {:induction false} OperandIsDemanded(premises: seq<Premise>, operands: seq<Name>, n: Name)
    requires Acceptable(premises, operands) && n in operands
    ensures n in Demanded(premises)
  {
    hide Plannable, Gives, DemandedBy, VarsOf, Narrowed;
    AfterIsUnion(ShapeOf, {}, premises);
    assert n in After(ShapeOf, {}, premises);
    var p :| p in premises && n in Gives(ShapeOf(p));
    GivesVars(p);
    assert n in Mentioned(premises);
    assert !InferredOptional(premises, n);
  }

  /** In every row that an accepted rule calls for, in any scope, each required operand has a value. */
  lemma {:induction false} HeadsArePresent(db: seq<Fact>, premises: seq<Premise>, operands: seq<Name>, scope: set<Name>,
          rows: seq<Row>, r: Row, n: Name)
    requires Acceptable(premises, operands) && Answers(db, premises, scope, rows, r) && n in operands
    ensures HasValue(r, n)
  {
    hide Holds, DemandedBy, Acceptable;
    OperandIsDemanded(premises, operands, n);
    var q :| q in premises && n in DemandedBy(q);
    DemandedIsPresent(db, q, {}, n, r);
  }

  // ---- The rows that an accepted rule yields

  lemma {:induction false} WellPosedIsClosed(p: Premise, absentable: set<Name>)
    requires WellPosed(p, absentable)
    ensures Closed(p, Gaps(absentable, {}))
  {
  }

  /** A well-posed premise fixes a name that it demands. */
  lemma {:induction false} DemandFixes(p: Premise, present: set<Name>, absentable: set<Name>, n: Name)
    requires n in DemandedBy(p) && n in present && WellPosed(NarrowOne(p, present), absentable)
    ensures Fixes(NarrowOne(p, present), n, Gaps(absentable, {}))
  {
  }

  /** In a posed body every demanded name is secured. */
  lemma {:induction false} PosedSecures(premises: seq<Premise>, arriving: set<Name>, n: Name)
    requires Posed(Narrowed(premises), arriving) && n in Demanded(premises)
    ensures Secured(Narrowed(premises), arriving, n)
  {
    hide WellPosed, Fixes, Closed, NarrowOne, Absentable, DemandedBy;
    var narrowed := Narrowed(premises);
    var absentable := Absentable(narrowed, arriving);
    ArrivingIsAbsentable(narrowed, arriving);
    forall q | q in narrowed ensures Closed(q, Gaps(absentable, {})) {
      WellPosedIsClosed(q, absentable);
    }
    var p :| p in premises && n in DemandedBy(p);
    var i :| 0 <= i < |premises| && premises[i] == p;
    assert narrowed[i] == NarrowOne(p, Demanded(premises)) && narrowed[i] in narrowed;
    DemandFixes(p, Demanded(premises), absentable, n);
    SecuredIsWeakest(narrowed, arriving, Gaps(absentable, {}), narrowed[i], n);
  }

  /** Every row that any order of an accepted rule yields, in any scope, gives a required operand a value if the operand
      is secured; in a posed body all of them are. */
  lemma {:induction false} OperandsDelivered(db: seq<Fact>, premises: seq<Premise>, operands: seq<Name>,
          scope: set<Name>, input: Stream, arriving: set<Name>, order: seq<Premise>, r: Row, n: Name)
    requires Acceptable(premises, operands) && n in operands && Fed(input, scope, arriving)
    requires Ordering(ShapeOf, scope, Narrowed(premises), order) && r in Run(db, order, input).rows
    ensures Posed(Narrowed(premises), arriving) ==> Secured(Narrowed(premises), arriving, n)
    ensures Secured(Narrowed(premises), arriving, n) ==> HasValue(r, n)
  {
    hide *;
    if Posed(Narrowed(premises), arriving) {
      OperandIsDemanded(premises, operands, n);
      PosedSecures(premises, arriving, n);
    }
    SecuredIsDelivered(db, Narrowed(premises), scope, input, arriving, order, r, n);
  }

  // ---- Accepted rules that lose an operand

  /** Accepted with this required operand, in the order it is written in, which is also the order planning picks; yet on
      an empty store evaluation yields this row. */
  ghost predicate Yields(premises: seq<Premise>, operand: Name, row: Row) {
    && Acceptable(premises, [operand]) && Narrowed(premises) == premises
    && Greedy(ShapeOf, {}, premises).Done? && Premises(Greedy(ShapeOf, {}, premises).steps) == premises
    && Run([], premises, One(map[])) == One(row)
  }

  lemma {:induction false} LostIsUnsecured(premises: seq<Premise>, operand: Name, row: Row)
    requires Yields(premises, operand, row) && !HasValue(row, operand)
    ensures !Secured(premises, {}, operand) && !Posed(premises, {})
  {
    hide Run, Greedy, Narrowed, Secured, Posed, Acceptable, HasValue;
    DoneIsOrdering(ShapeOf, {}, premises);
    OperandsDelivered([], premises, [operand], {}, One(map[]), {}, premises, row, operand);
  }

  /** An equality demands the operand, but two absences that were carried to it compare equal. */
  lemma {:induction false} AbsentOperand()
    ensures var body := [LOOKUP, CARRY_L, CARRY_Y, SAME];
            var row: Row := map["x" := Absent, "l" := Absent, "y" := Absent];
            Yields(body, "l", row) && !HasValue(row, "l") && !Secured(body, {}, "l")
  {
    hide Run, Greedy, Narrowed, Secured, Ordering, InTurn, ShapeOf;
    var body := [LOOKUP, CARRY_L, CARRY_Y, SAME];
    OrderMatters();
    AbsentInTurn();
    GreedyKeepsTurns(ShapeOf, {}, body);
    AbsentAccepted();
    LostIsUnsecured(body, "l", map["x" := Absent, "l" := Absent, "y" := Absent]);
  }

  lemma {:induction false} AbsentAccepted()
    ensures Acceptable([LOOKUP, CARRY_L, CARRY_Y, SAME], ["l"])
  {
    hide Run, Narrowed, Ordering, Gives, ShapeOf, Greedy;
    var body := [LOOKUP, CARRY_L, CARRY_Y, SAME];
    OrderMatters();
    assert Occurrences(SAME.proposition)[0] == Occurrence(Var("l", false), false) && SAME == body[3];
    OccurrenceDemands(body, SAME, Occurrence(Var("l", false), false));
    GivesVars(CARRY_L);
    assert CARRY_L == body[1] && "l" in Gives(ShapeOf(CARRY_L));
    AfterIsUnion(ShapeOf, {}, body);
    assert Ordering(ShapeOf, {}, Narrowed(body), body);
  }

  lemma {:induction false} EqualCost(left: Term, right: Term, env: set<Name>)
    requires Known(left, env) || Known(right, env)
    ensures Ready(ShapeOf(When(Equal(left, right))), env) &&
            Cost(ShapeOf(When(Equal(left, right))), env) == EQUALITY_COST
  {
    KnownEqualIsReady(left, right, env);
  }

  lemma {:induction false} AbsentInTurn()
    ensures InTurn(ShapeOf, {}, [LOOKUP, CARRY_L, CARRY_Y, SAME])
  {
    hide Ready, Gives, ShapeOf, Cost;
    var x, l, y := {"x"}, {"x", "l"}, {"x", "l", "y"};
    GivesVars(LOOKUP);
    GivesVars(CARRY_L);
    GivesVars(CARRY_Y);
    KnownLeftJoinIsReady(Const("a"), Const("e"), Var("x", true), {});
    assert !Ready(ShapeOf(CARRY_L), {}) && !Ready(ShapeOf(CARRY_Y), {}) && !Ready(ShapeOf(SAME), {}) by {
      NothingKnown(Var("x", true), Var("l", true));
      NothingKnown(Var("x", true), Var("y", true));
      NothingKnown(Var("l", false), Var("y", false));
    }
    NothingKnown(Var("l", false), Var("y", false));
    EqualCost(Var("x", true), Var("l", true), x);
    EqualCost(Var("x", true), Var("y", true), x);
    EqualCost(Var("x", true), Var("y", true), l);
    EqualCost(Var("l", false), Var("y", false), l);
    EqualCost(Var("l", false), Var("y", false), y);
    var body := [LOOKUP, CARRY_L, CARRY_Y, SAME];
    assert body[1..] == [CARRY_L, CARRY_Y, SAME] && body[1..][1..] == [CARRY_Y, SAME] && [CARRY_Y, SAME][1..] == [SAME];
    assert {} + Gives(ShapeOf(LOOKUP)) == x && x + Gives(ShapeOf(CARRY_L)) == l && l + Gives(ShapeOf(CARRY_Y)) == y;
    assert !Ready(ShapeOf(SAME), x) by {
      if Ready(ShapeOf(SAME), x) {
        ReadyEqual(Var("l", false), Var("y", false), x);
      }
    }
    assert InTurn(ShapeOf, y, [SAME]);
    assert InTurn(ShapeOf, l, [CARRY_Y, SAME]);
    assert InTurn(ShapeOf, x, [CARRY_L, CARRY_Y, SAME]);
  }

  lemma {:induction false} NothingKnown(left: Term, right: Term)
    requires left.Var? && right.Var?
    ensures !Ready(ShapeOf(When(Equal(left, right))), {})
  {
    hide Ready, ShapeOf;
    if Ready(ShapeOf(When(Equal(left, right))), {}) {
      ReadyEqual(left, right, {});
    }
  }

  const FIRST := When(LeftJoin(Const("a"), Const("e"), Var("x", false)))
  const SECOND := When(LeftJoin(Var("t", false), Const("e"), Var("x", false)))

  /** An optional lookup demands its attribute, but lets a value that is absent already pass without one. */
  lemma {:induction false} UnboundOperand()
    ensures var row: Row := map["x" := Absent];
            Yields([FIRST, SECOND], "t", row) && !HasValue(row, "t") && !Secured([FIRST, SECOND], {}, "t")
  {
    hide Run, Greedy, Narrowed, Secured, InTurn, ShapeOf, StepRows, PremiseRow;
    var body, row: Row := [FIRST, SECOND], map["x" := Absent];
    UnboundInTurn();
    GreedyKeepsTurns(ShapeOf, {}, body);
    UnboundAccepted();
    assert PremiseRow([], FIRST, map[]) == One(row) && PremiseRow([], SECOND, row) == One(row) by {
      UnboundSteps();
    }
    OneRow([], FIRST, map[]);
    OneRow([], SECOND, row);
    RunTwo([], FIRST, SECOND, One(map[]));
    LostIsUnsecured(body, "t", row);
  }

  lemma {:induction false} UnboundSteps()
    ensures var row: Row := map["x" := Absent];
            PremiseRow([], FIRST, map[]) == One(row) && PremiseRow([], SECOND, row) == One(row)
  {
    var row: Row := map["x" := Absent];
    EmptyLookup(Const("a"), Const("e"), Var("x", false), map[]);
    EmptyLookup(Var("t", false), Const("e"), Var("x", false), row);
    assert row["x" := Absent] == row;
  }

  lemma {:induction false} RunTwo(db: seq<Fact>, p: Premise, q: Premise, input: Stream)
    ensures Run(db, [p, q], input) == StepRows(db, q, StepRows(db, p, input))
  {
    hide StepRows;
    assert [p, q][1..] == [q] && [q][1..] == [];
    assert Run(db, [q], StepRows(db, p, input)) == StepRows(db, q, StepRows(db, p, input));
  }

  lemma {:induction false} UnboundInTurn()
    ensures InTurn(ShapeOf, {}, [FIRST, SECOND])
  {
    hide Ready, Gives, ShapeOf, Cost;
    GivesVars(FIRST);
    assert {} + Gives(ShapeOf(FIRST)) == {"x"};
    KnownLeftJoinIsReady(Const("a"), Const("e"), Var("x", false), {});
    KnownLeftJoinIsReady(Var("t", false), Const("e"), Var("x", false), {"x"});
    assert !Ready(ShapeOf(SECOND), {}) by {
      if Ready(ShapeOf(SECOND), {}) {
        ReadyLeftJoin(Var("t", false), Const("e"), Var("x", false), {});
      }
    }
    assert [FIRST, SECOND][1..] == [SECOND];
    assert InTurn(ShapeOf, {"x"}, [SECOND]);
  }

  lemma {:induction false} UnboundAccepted()
    ensures Acceptable([FIRST, SECOND], ["t"]) && Narrowed([FIRST, SECOND]) == [FIRST, SECOND]
  {
    hide Ready, Gives, ShapeOf, InTurn, Greedy;
    var body := [FIRST, SECOND];
    assert Occurrences(SECOND.proposition)[0] == Occurrence(Var("t", false), false) && SECOND == body[1];
    OccurrenceDemands(body, SECOND, Occurrence(Var("t", false), false));
    forall p | p in body ensures "x" !in DemandedBy(p) {
      assert p == FIRST || p == SECOND;
    }
    assert "x" !in Demanded(body);
    assert Narrowed(body) == body;
    GivesVars(SECOND);
    assert "t" in Gives(ShapeOf(SECOND));
    AfterIsUnion(ShapeOf, {}, body);
    UnboundInTurn();
    GreedyKeepsTurns(ShapeOf, {}, body);
    DoneIsOrdering(ShapeOf, {}, body);
    assert Ordering(ShapeOf, {}, Narrowed(body), body);
  }

  // ---- A rule that loses nothing although its operand is not secured

  const FOUND := When(Scan(Const("a"), Const("e"), Var("z", false)))

  /** With a scan of what the optional lookup looks for beside it, the lookup never comes back absent. */
  lemma {:induction false} UnsecuredButKept(db: seq<Fact>, order: seq<Premise>, input: Stream, r: Row)
    requires multiset(order) == multiset([FOUND, LOOKUP, CARRY_L, CARRY_Y, SAME]) && r in Run(db, order, input).rows
    ensures HasValue(r, "l") && !Secured([FOUND, LOOKUP, CARRY_L, CARRY_Y, SAME], {}, "l")
  {
    hide Run, Secured, PremiseRow;
    var body := [FOUND, LOOKUP, CARRY_L, CARRY_Y, SAME];
    SameElements(order, body);
    assert FOUND == body[0] && LOOKUP == body[1] && CARRY_L == body[2];
    var row, mid := RunPasses(db, order, input, r, FOUND);
    var found := ScanFinds(db, row, mid);
    row, mid := RunPasses(db, order, input, r, LOOKUP);
    LookupFinds(db, row, mid, found);
    row, mid := RunPasses(db, order, input, r, CARRY_L);
    assert "l" in mid && "x" in mid && mid["l"] == mid["x"] by {
      CarryAgrees(db, row, mid);
    }
    NotSecured();
  }

  lemma {:induction false} ScanFinds(db: seq<Fact>, row: Row, mid: Row) returns (f: Fact)
    requires mid in PremiseRow(db, FOUND, row).rows
    ensures f in db && f.the == "a" && f.of == "e"
  {
    hide Extensions;
    f := ExtensionFrom(db, Const("a"), Const("e"), Var("z", false), row, mid);
  }

  lemma {:induction false} ExtensionFrom(db: seq<Fact>, the: Term, of: Term, value: Term, row: Row, r: Row)
    returns (f: Fact)
    requires r in Extensions(db, the, of, value, row).rows
    ensures f in db && SelectsFact(row, the, of, value, f)
  {
    hide Merge, SelectsFact;
    var front := db[..|db| - 1];
    f := db[|db| - 1];
    if r in Extensions(front, the, of, value, row).rows {
      f := ExtensionFrom(front, the, of, value, row, r);
    }
  }

  lemma {:induction false} LookupFinds(db: seq<Fact>, row: Row, mid: Row, found: Fact)
    requires mid in PremiseRow(db, LOOKUP, row).rows && found in db && found.the == "a" && found.of == "e"
    ensures HasValue(mid, "x")
  {
    hide ScanRow;
    var the, of, value := Const("a"), Const("e"), Var("x", true);
    assert Takes(row, the, Present(found.the)) && Takes(row, of, Present(found.of));
    assert !Unmatched(db, the, of, row);
    EmptyScanIsAbsence(db, the, of, Wildcard(false), row);
    if Lookup(row, value).None? {
      EmptyScanIsAbsence(db, the, of, value, row);
    }
    ScanYields(db, the, of, value, row, mid);
  }

  lemma {:induction false} CarryAgrees(db: seq<Fact>, row: Row, mid: Row)
    requires mid in PremiseRow(db, CARRY_L, row).rows
    ensures "l" in mid && "x" in mid && mid["l"] == mid["x"]
  {
  }

  lemma {:induction false} NotSecured()
    ensures !Secured([FOUND, LOOKUP, CARRY_L, CARRY_Y, SAME], {}, "l")
  {
    hide Settle;
    var body := [FOUND, LOOKUP, CARRY_L, CARRY_Y, SAME];
    var g := GapsOf(body, {});
    SettledIsClosed(body, g);
    assert Closed(body[1], g) && Closed(body[2], g) && Closed(body[3], g);
    assert {"x", "l", "y"} <= g.absent;
    forall p | p in body ensures !Fixes(p, "l", g) {
      assert p == FOUND || p == LOOKUP || p == CARRY_L || p == CARRY_Y || p == SAME;
    }
  }
}
