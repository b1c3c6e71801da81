/**
 * Rule bodies as they are authored, narrowed, ordered and evaluated: every complete feasible
 * order of a posed body yields the rows that the authored premises call for, and bodies
 * outside the condition where the order shows.
 */
module Bodies {
  import opened Options
  import opened Environments
  import opened Planner
  import opened Query
  import opened Meaning
  import opened Orders
  import opened Exactness
  import opened Narrowing
  import opened Counting

  // ---- Every order gives the answers of the authored body

  /** All complete feasible orders of the narrowed body give, without error, exactly the rows the authored body calls
      for. */
  lemma {:induction false} OrdersAgree(db: seq<Fact>, premises: seq<Premise>, scope: set<Name>, input: Stream,
          arriving: set<Name>, a: seq<Premise>, b: seq<Premise>)
    requires Ordering(ShapeOf, scope, Narrowed(premises), a) && Ordering(ShapeOf, scope, Narrowed(premises), b)
    requires Fed(input, scope, arriving) && Posed(Narrowed(premises), arriving)
    ensures !Run(db, a, input).broken && !Run(db, b, input).broken
    ensures forall r :: r in Run(db, a, input).rows <==> r in Run(db, b, input).rows
    ensures forall r :: r in Run(db, a, input).rows <==> Answers(db, premises, scope, input.rows, r)
    ensures multiset(Run(db, a, input).rows) == multiset(Run(db, b, input).rows)
    ensures forall r :: multiset(Run(db, a, input).rows)[r] == Times(db, premises, scope, input.rows, r)
  {
    hide *;
    OrdersCount(db, premises, scope, input, arriving, a, b);
    var narrowed := Narrowed(premises);
    var absentable := Absentable(narrowed, arriving);
    ArrivingIsAbsentable(narrowed, arriving);
    FedGrows(input, scope, arriving, absentable);
    PosedMeans(narrowed, arriving);
    OrderIrrelevant(db, narrowed, scope, input, absentable, a, b);
    forall r ensures Answers(db, narrowed, scope, input.rows, r) <==> Answers(db, premises, scope, input.rows, r) {
      NarrowingKeepsAnswers(db, premises, scope, input.rows, r);
    }
  }

  /** Inference, narrowing, planning and evaluation in a row: the greedy order of the narrowed body is run, and on a
      posed body that gives the answers of the authored one. */
  method PlanAndEvaluate(db: seq<Fact>, premises: seq<Premise>, scope: set<Name>, input: Stream,
          ghost arriving: set<Name>)
    returns (r: Option<Stream>)
    ensures r.Some? <==> Plannable(ShapeOf, scope, Narrowed(premises))
    ensures r.Some? ==>
            var plan := Greedy(ShapeOf, scope, Narrowed(premises));
            plan.Done? && r.value == Run(db, Premises(plan.steps), input)
    ensures r.Some? && Fed(input, scope, arriving) && Posed(Narrowed(premises), arriving) ==>
            && !r.value.broken
            && (forall row :: row in r.value.rows <==> Answers(db, premises, scope, input.rows, row))
            && forall row :: multiset(r.value.rows)[row] == Times(db, premises, scope, input.rows, row)
  {
    hide *;
    var present := Infer(premises);
    var narrowed := Narrow(premises, present);
    NarrowedIs(premises);
    var plan := Plan(ShapeOf, scope, narrowed);
    GreedyMeans(ShapeOf, scope, narrowed);
    match plan {
      case RequiredBindings(_) => return None;
      case Planned(steps, _, _) =>
        var order := Premises(steps);
        if Fed(input, scope, arriving) && Posed(Narrowed(premises), arriving) {
          OrdersAgree(db, premises, scope, input, arriving, order, order);
        }
        r := Some(Run(db, order, input));
    }
  }

  /** Narrowing changes no answer: orders of the authored body, where it has any and is posed itself, agree with those
      of the narrowed one. */
  lemma {:induction false} DemotionKeepsRows(db: seq<Fact>, premises: seq<Premise>, scope: set<Name>, input: Stream,
          arriving: set<Name>, a: seq<Premise>, b: seq<Premise>)
    requires Fed(input, scope, arriving) && Posed(premises, arriving) && Posed(Narrowed(premises), arriving)
    requires Ordering(ShapeOf, scope, premises, a) && Ordering(ShapeOf, scope, Narrowed(premises), b)
    ensures forall r :: r in Run(db, a, input).rows <==> r in Run(db, b, input).rows
  {
    hide *;
    var absentable := Absentable(premises, arriving);
    ArrivingIsAbsentable(premises, arriving);
    FedGrows(input, scope, arriving, absentable);
    PosedMeans(premises, arriving);
    OrderIrrelevant(db, premises, scope, input, absentable, a, a);
    OrdersAgree(db, premises, scope, input, arriving, b, b);
  }

  // ---- What narrowing gives for free

  /** No equality lets an absence pass from a name that may be absent to one that is inferred present. */
  predicate Leakless(premises: seq<Premise>) {
    forall p :: p in premises && Ties(p) ==>
      (p.proposition.left.name in Demanded(premises) <==> p.proposition.right.name in Demanded(premises))
  }

  /** The names whose every positive slot admits absence, and those that arrive absent. */
  function Optionals(premises: seq<Premise>, arriving: set<Name>): set<Name> {
    Mentioned(premises) + arriving - Demanded(premises)
  }

  /** What is left to ask of a premise: nothing about absence, unless it is negated. */
  predicate Shapely(p: Premise, present: set<Name>, optionals: set<Name>) {
    match p
    case When(Scan(the, of, value)) => ScanPosed(the, of, value)
    case When(LeftJoin(the, of, value)) =>
      if value.Var? && value.name in present then ScanPosed(the, of, value)
      else !of.Wildcard? && (value.Var? ==> NameOf(the) <= NameOf(of))
    case When(Equal(left, right)) => !(left.Wildcard? && right.Wildcard?)
    case Unless(_) => WellPosed(p, optionals)
  }

  lemma {:induction false} OccurrenceDemands(premises: seq<Premise>, p: Premise, s: Occurrence)
    requires p in premises && p.When? && s in Occurrences(p.proposition) && s.term.Var? && !s.admits
    ensures s.term.name in Demanded(premises)
  {
    assert s.term.name in DemandedBy(p);
  }

  lemma {:induction false} Mentions(premises: seq<Premise>, p: Premise)
    requires p in premises && p.When?
    ensures VarsOf(p.proposition) <= Mentioned(premises)
  {
  }

  lemma {:induction false} KeptLeftJoin(premises: seq<Premise>, the: Term, of: Term, value: Term, arriving: set<Name>)
    requires When(LeftJoin(the, of, value)) in premises && !of.Wildcard?
    requires value.Var? ==> value.name !in Demanded(premises) && NameOf(the) <= NameOf(of)
    ensures LeftJoinPosed(the, of, value, Optionals(premises, arriving))
  {
    hide Demanded, Mentioned;
    var p := When(LeftJoin(the, of, value));
    Mentions(premises, p);
    if the.Var? {
      OccurrenceDemands(premises, p, Occurrences(p.proposition)[0]);
    }
    if of.Var? {
      OccurrenceDemands(premises, p, Occurrences(p.proposition)[1]);
    }
  }

  lemma {:induction false} SettledByDemand(premises: seq<Premise>, left: Term, right: Term, arriving: set<Name>)
    requires When(Equal(left, right)) in premises && Leakless(premises)
    ensures Settled(left, right, Optionals(premises, arriving))
  {
    hide Demanded, Mentioned;
    var p := When(Equal(left, right));
    Mentions(premises, p);
    assert Ties(p) ==> (left.name in Demanded(premises) <==> right.name in Demanded(premises));
    if left.Var? && !AllowsAbsence(left) {
      OccurrenceDemands(premises, p, Occurrences(p.proposition)[0]);
    }
    if right.Var? && !AllowsAbsence(right) {
      OccurrenceDemands(premises, p, Occurrences(p.proposition)[1]);
    }
  }

  lemma {:induction false} NarrowOnePosed(premises: seq<Premise>, p: Premise, arriving: set<Name>)
    requires p in premises && Leakless(premises) && Shapely(p, Demanded(premises), Optionals(premises, arriving))
    ensures WellPosed(NarrowOne(p, Demanded(premises)), Optionals(premises, arriving))
  {
    hide Demanded, Optionals, Settled, LeftJoinPosed, Leakless;
    match p {
      case When(Scan(the, of, value)) =>
      case When(LeftJoin(the, of, value)) =>
        if !(value.Var? && value.name in Demanded(premises)) {
          KeptLeftJoin(premises, the, of, value, arriving);
        }
      case When(Equal(left, right)) => SettledByDemand(premises, left, right, arriving);
      case Unless(_) =>
    }
  }

  /** Narrowing settles every question of absence among the positive premises of a leakless body. */
  lemma {:induction false} NarrowingSettles(premises: seq<Premise>, arriving: set<Name>)
    requires arriving !! Demanded(premises) && Leakless(premises)
    requires forall p :: p in premises ==> Shapely(p, Demanded(premises), Optionals(premises, arriving))
    ensures Posed(Narrowed(premises), arriving)
  {
    hide Demanded, WellPosed, Shapely, NarrowOne, Leakless, Mentioned, Absentable;
    var present, optionals := Demanded(premises), Optionals(premises, arriving);
    forall p | p in Narrowed(premises) ensures WellPosed(p, optionals) {
      var i :| 0 <= i < |premises| && NarrowOne(premises[i], present) == p;
      NarrowOnePosed(premises, premises[i], arriving);
    }
    PosedIsWeakest(Narrowed(premises), arriving, optionals);
  }

  // ---- Bodies that narrowing changes

  const OPTIONAL_A := When(LeftJoin(Const("a"), Const("e"), Var("x", false)))
  const OPTIONAL_B := When(LeftJoin(Const("b"), Const("e"), Var("y", false)))
  const UNTYPED_EQUAL := When(Equal(Var("x", false), Var("y", false)))

  /** Two optional lookups and an untyped equality of their values: the equality demands both, so both become scans. */
  lemma {:induction false} UntypedEqualityDemotes()
    ensures var body := [OPTIONAL_A, OPTIONAL_B, UNTYPED_EQUAL];
            && Narrowed(body) ==
              [When(Scan(Const("a"), Const("e"), Var("x", false))), When(Scan(Const("b"), Const("e"), Var("y", false))),
              UNTYPED_EQUAL]
            && Posed(Narrowed(body), {})
  {
    hide Posed;
    var body := [OPTIONAL_A, OPTIONAL_B, UNTYPED_EQUAL];
    DemandsBoth();
    NarrowingSettles(body, {});
  }

  lemma {:induction false} DemandsBoth()
    ensures {"x", "y"} <= Demanded([OPTIONAL_A, OPTIONAL_B, UNTYPED_EQUAL])
  {
    var body, slots := [OPTIONAL_A, OPTIONAL_B, UNTYPED_EQUAL], Occurrences(UNTYPED_EQUAL.proposition);
    assert body[2] in body && slots[0] in slots && slots[1] in slots;
    OccurrenceDemands(body, UNTYPED_EQUAL, slots[0]);
    OccurrenceDemands(body, UNTYPED_EQUAL, slots[1]);
  }

  const OPTIONAL_OPEN := When(LeftJoin(Const("a"), Var("e", false), Var("x", false)))
  const EQUAL_CONST := When(Equal(Var("x", false), Const("v")))

  /** An optional lookup of an unbound entity waits forever; once an equality makes it a scan, the body can be
      ordered. */
  lemma {:induction false} NarrowingUnblocks()
    ensures var body := [OPTIONAL_OPEN, EQUAL_CONST];
            !Plannable(ShapeOf, {}, body) && Plannable(ShapeOf, {}, Narrowed(body))
  {
    hide Ready, Gives, Runs;
    var body, scan := [OPTIONAL_OPEN, EQUAL_CONST], When(Scan(Const("a"), Var("e", false), Var("x", false)));
    NeverReady();
    GivesVars(EQUAL_CONST);
    forall order: seq<Premise> ensures !Ordering(ShapeOf, {}, body, order) {
      if Ordering(ShapeOf, {}, body, order) {
        SameElements(order, body);
        assert body[0] in body;
        NothingGetsFurther(ShapeOf, {}, order, {"x"}, [OPTIONAL_OPEN]);
      }
    }
    NarrowsToScan();
    KnownScanIsReady(Const("a"), Var("e", false), Var("x", false), {});
    KnownEqualIsReady(Var("x", false), Const("v"), {} + Gives(ShapeOf(scan)));
    RunsTwo({}, scan, EQUAL_CONST);
    assert Ordering(ShapeOf, {}, Narrowed(body), [scan, EQUAL_CONST]);
  }

  lemma {:induction false} NeverReady()
    ensures !Ready(ShapeOf(OPTIONAL_OPEN), {"x"})
  {
    if Ready(ShapeOf(OPTIONAL_OPEN), {"x"}) {
      ReadyLeftJoin(Const("a"), Var("e", false), Var("x", false), {"x"});
    }
  }

  lemma {:induction false} NarrowsToScan()
    ensures Narrowed([OPTIONAL_OPEN, EQUAL_CONST]) ==
            [When(Scan(Const("a"), Var("e", false), Var("x", false))), EQUAL_CONST]
  {
    var body, slots := [OPTIONAL_OPEN, EQUAL_CONST], Occurrences(EQUAL_CONST.proposition);
    assert body[1] in body && slots[0] in slots;
    OccurrenceDemands(body, EQUAL_CONST, slots[0]);
  }

  lemma {:induction false} RunsTwo(env: set<Name>, p: Premise, q: Premise)
    requires Ready(ShapeOf(p), env) && Ready(ShapeOf(q), env + Gives(ShapeOf(p)))
    ensures Runs(ShapeOf, env, [p, q])
  {
    hide Ready, Gives;
    assert [p, q][1..] == [q] && [q][1..] == [];
    assert Runs(ShapeOf, env + Gives(ShapeOf(p)), [q]);
  }

  // ---- A body whose order shows

  const LOOKUP := When(LeftJoin(Const("a"), Const("e"), Var("x", true)))
  const CARRY_L := When(Equal(Var("x", true), Var("l", true)))
  const CARRY_Y := When(Equal(Var("x", true), Var("y", true)))
  const SAME := When(Equal(Var("l", false), Var("y", false)))

  /** An optional value carried into two names that an untyped equality then compares. The equality demands both names,
      but neither is looked up, so narrowing changes nothing. Where the value is missing the row survives if both names
      are bound before they are compared, and is dropped if one is not. */
  lemma {:induction false} OrderMatters()
    ensures var body := [LOOKUP, CARRY_L, CARRY_Y, SAME];
            var other := [LOOKUP, CARRY_L, SAME, CARRY_Y];
            && Narrowed(body) == body && Ordering(ShapeOf, {}, body, body) && Ordering(ShapeOf, {}, body, other)
            && Run([], body, One(map[])) == One(map["x" := Absent, "l" := Absent, "y" := Absent])
            && Run([], other, One(map[])) == NOTHING
  {
    hide Run, Runs, StepRows, PremiseRow, Ready, Gives, Narrowed;
    var body, other := [LOOKUP, CARRY_L, CARRY_Y, SAME], [LOOKUP, CARRY_L, SAME, CARRY_Y];
    NothingToNarrow();
    BothRun();
    assert body == [LOOKUP, CARRY_L] + [CARRY_Y] + [SAME] && other == [LOOKUP, CARRY_L] + [SAME] + [CARRY_Y];
    AbsenceSteps();
    var x, xl, all: Row := map["x" := Absent], map["x" := Absent, "l" := Absent],
      map["x" := Absent, "l" := Absent, "y" := Absent];
    OneRow([], LOOKUP, map[]);
    OneRow([], CARRY_L, x);
    OneRow([], CARRY_Y, xl);
    OneRow([], SAME, all);
    OneRow([], SAME, xl);
    NoRow([], CARRY_Y);
    RunFour([], LOOKUP, CARRY_L, CARRY_Y, SAME, One(map[]));
    RunFour([], LOOKUP, CARRY_L, SAME, CARRY_Y, One(map[]));
  }

  /** So the body is not posed. */
  lemma {:induction false} OrderMattersOutside()
    ensures !Posed(Narrowed([LOOKUP, CARRY_L, CARRY_Y, SAME]), {})
  {
    hide Posed, Run, Ordering, Narrowed;
    var body, other := [LOOKUP, CARRY_L, CARRY_Y, SAME], [LOOKUP, CARRY_L, SAME, CARRY_Y];
    OrderMatters();
    var all: Row := map["x" := Absent, "l" := Absent, "y" := Absent];
    assert all in Run([], body, One(map[])).rows && all !in Run([], other, One(map[])).rows;
    if Posed(Narrowed(body), {}) {
      OrdersAgree([], body, {}, One(map[]), {}, body, other);
    }
  }

  lemma {:induction false} NothingToNarrow()
    ensures Narrowed([LOOKUP, CARRY_L, CARRY_Y, SAME]) == [LOOKUP, CARRY_L, CARRY_Y, SAME]
  {
    var body := [LOOKUP, CARRY_L, CARRY_Y, SAME];
    forall p | p in body ensures "x" !in DemandedBy(p) {
      assert p == LOOKUP || p == CARRY_L || p == CARRY_Y || p == SAME;
    }
    assert "x" !in Demanded(body);
  }

  lemma {:induction false} AbsenceSteps()
    ensures var x: Row := map["x" := Absent];
            var xl: Row := map["x" := Absent, "l" := Absent];
            var all: Row := map["x" := Absent, "l" := Absent, "y" := Absent];
            && PremiseRow([], LOOKUP, map[]) == One(x) && PremiseRow([], CARRY_L, x) == One(xl)
            && PremiseRow([], CARRY_Y, xl) == One(all) && PremiseRow([], SAME, all) == One(all)
            && PremiseRow([], SAME, xl) == NOTHING
  {
  }

  lemma {:induction false} BothRun()
    ensures Runs(ShapeOf, {}, [LOOKUP, CARRY_L, CARRY_Y, SAME]) && Runs(ShapeOf, {}, [LOOKUP, CARRY_L, SAME, CARRY_Y])
  {
    hide Ready, Gives, Runs;
    GivesVars(LOOKUP);
    GivesVars(CARRY_L);
    GivesVars(CARRY_Y);
    GivesVars(SAME);
    assert {} + Gives(ShapeOf(LOOKUP)) == {"x"};
    assert {"x"} + Gives(ShapeOf(CARRY_L)) == {"x", "l"};
    KnownLeftJoinIsReady(Const("a"), Const("e"), Var("x", true), {});
    KnownEqualIsReady(Var("x", true), Var("l", true), {"x"});
    KnownEqualIsReady(Var("x", true), Var("y", true), {"x", "l"});
    KnownEqualIsReady(Var("l", false), Var("y", false), {"x", "l"});
    KnownEqualIsReady(Var("x", true), Var("y", true), {"x", "l"} + Gives(ShapeOf(SAME)));
    KnownEqualIsReady(Var("l", false), Var("y", false), {"x", "l"} + Gives(ShapeOf(CARRY_Y)));
    RunsFour({}, LOOKUP, CARRY_L, CARRY_Y, SAME);
    RunsFour({}, LOOKUP, CARRY_L, SAME, CARRY_Y);
  }

  lemma {:induction false} RunsFour(env: set<Name>, p: Premise, q: Premise, r: Premise, s: Premise)
    requires Ready(ShapeOf(p), env)
    requires var first := env + Gives(ShapeOf(p));
             var second := first + Gives(ShapeOf(q));
             Ready(ShapeOf(q), first) && Ready(ShapeOf(r), second) && Ready(ShapeOf(s), second + Gives(ShapeOf(r)))
    ensures Runs(ShapeOf, env, [p, q, r, s])
  {
    hide Ready, Gives;
    var first := env + Gives(ShapeOf(p));
    var second := first + Gives(ShapeOf(q));
    assert [p, q, r, s][1..] == [q, r, s] && [q, r, s][1..] == [r, s];
    RunsTwo(second, r, s);
    assert Runs(ShapeOf, first, [q, r, s]);
  }

  lemma {:induction false} RunFour(db: seq<Fact>, p: Premise, q: Premise, r: Premise, s: Premise, input: Stream)
    ensures Run(db, [p, q, r, s], input) == StepRows(db, s, StepRows(db, r, StepRows(db, q, StepRows(db, p, input))))
  {
    hide StepRows;
    var first := StepRows(db, p, input);
    var second := StepRows(db, q, first);
    assert [p, q, r, s][1..] == [q, r, s] && [q, r, s][1..] == [r, s] && [r, s][1..] == [s] && [s][1..] == [];
    assert Run(db, [r, s], second) == Run(db, [s], StepRows(db, r, second));
    assert Run(db, [q, r, s], first) == Run(db, [r, s], second);
  }

  lemma {:induction false} OneRow(db: seq<Fact>, p: Premise, row: Row)
    ensures StepRows(db, p, One(row)) == PremiseRow(db, p, row)
  {
    hide PremiseRow;
    var f := (r: Row) => PremiseRow(db, p, r);
    assert Each(f, [row][..0]) == NOTHING;
    assert Each(f, [row]) == Then(NOTHING, f(row));
  }

  lemma {:induction false} NoRow(db: seq<Fact>, p: Premise)
    ensures StepRows(db, p, NOTHING) == NOTHING
  {
    hide PremiseRow;
  }
}
