/**
 * Whole rule bodies: every complete feasible order of the premises yields the same rows,
 * the ones that the premises' relations call for.
 */
module Orders {
  import opened Environments
  import opened Feasibility
  import opened Planner
  import opened Query
  import opened Meaning

  // ---- Bodies that evaluation answers without error

  /** Only these names may be absent in the row. */
  predicate Within(row: Row, absentable: set<Name>) {
    forall n :: n in row && row[n].Absent? ==> n in absentable
  }

  predicate MayBeAbsent(t: Term, absentable: set<Name>) {
    t.Var? && t.name in absentable
  }

  /** No absence can pass from a term that may be absent to one that may not, and none is equal to another unasked. */
  predicate Settled(left: Term, right: Term, absentable: set<Name>) {
    if AllowsAbsence(left) && AllowsAbsence(right) then left.Var? && right.Var? ==>
        (left.name in absentable <==> right.name in absentable)
    else if AllowsAbsence(right) then !MayBeAbsent(left, absentable)
    else if AllowsAbsence(left) then !MayBeAbsent(right, absentable)
    else !(MayBeAbsent(left, absentable) && MayBeAbsent(right, absentable))
  }

  predicate MeetsAbsence(t: Term, absentable: set<Name>) {
    MayBeAbsent(t, absentable) || (t.Wildcard? && t.optional)
  }

  /** The same for an equality whose names are all bound already. */
  predicate SettledBound(left: Term, right: Term, absentable: set<Name>) {
    || (AllowsAbsence(left) && AllowsAbsence(right))
    || (!(MayBeAbsent(left, absentable) && MeetsAbsence(right, absentable)) &&
        !(MayBeAbsent(right, absentable) && MeetsAbsence(left, absentable)))
  }

  predicate SomeNamedOrConst(the: Term, of: Term, value: Term) {
    !(the.Wildcard? && of.Wildcard? && value.Wildcard?)
  }

  /** A name that occurs twice leaves nothing else to look a fact up by. */
  predicate RepeatAlone(s: Term, t: Term, other: Term) {
    s.Var? && t.Var? && s.name == t.name ==> other.Wildcard? || (other.Var? && other.name == s.name)
  }

  predicate ScanPosed(the: Term, of: Term, value: Term) {
    SomeNamedOrConst(the, of, value) && RepeatAlone(the, of, value) && RepeatAlone(the, value, of) &&
      RepeatAlone(of, value, the)
  }

  /** The names that a left join may find absent. */
  function Widened(the: Term, of: Term, value: Term): set<Name> {
    if the.Wildcard? then {} else NameOf(value) - NameOf(of) - NameOf(the)
  }

  /** In every feasible row that knows the entity the value is a constant or the entity itself. */
  predicate PinnedBy(of: Term, value: Term) {
    value.Const? || (value.Var? && NameOf(value) <= NameOf(of))
  }

  /** The entity is there, no row can leave the attribute open while it claims the value absent, and none can hold
      an absent attribute. */
  predicate LeftJoinPosed(the: Term, of: Term, value: Term, absentable: set<Name>) {
    && !of.Wildcard? && !MayBeAbsent(of, absentable) && Widened(the, of, value) <= absentable
    && (MayBeAbsent(value, absentable) ==> NameOf(the) <= NameOf(of) + NameOf(value))
    && (MayBeAbsent(the, absentable) ==> PinnedBy(of, value))
  }

  /** A premise that evaluation answers on every feasible row whose absences are within these names. */
  predicate WellPosed(p: Premise, absentable: set<Name>) {
    match p
    case When(Scan(the, of, value)) => ScanPosed(the, of, value)
    case When(LeftJoin(the, of, value)) => LeftJoinPosed(the, of, value, absentable)
    case When(Equal(left, right)) => !(left.Wildcard? && right.Wildcard?) && Settled(left, right, absentable)
    case Unless(Scan(the, of, value)) => SomeNamedOrConst(the, of, value)
    case Unless(LeftJoin(the, of, value)) =>
      && !of.Wildcard? && !MayBeAbsent(of, absentable)
      && (MayBeAbsent(the, absentable) ==> !value.Wildcard? && !MayBeAbsent(value, absentable))
    case Unless(Equal(left, right)) => !(left.Wildcard? && right.Wildcard?) && SettledBound(left, right, absentable)
  }

  // ---- What feasibility says of each kind of premise

  lemma {:induction false} GivesVars(p: Premise)
    ensures Gives(ShapeOf(p)) == if p.When? then VarsOf(p.proposition) else {}
  {
    hide PremiseCost;
    var slots := PropositionSlots(p.proposition);
    if p.When? {
      assert forall n :: n in Vars(slots) <==> exists i :: 0 <= i < |slots| && slots[i].param == Named(n);
      match p.proposition {
        case Scan(the, of, value) =>
          assert slots[0].param == ParamOf(the) && slots[1].param == ParamOf(of) && slots[2].param == ParamOf(value);
        case LeftJoin(the, of, value) =>
          assert slots[0].param == ParamOf(the) && slots[1].param == ParamOf(of) && slots[2].param == ParamOf(value);
        case Equal(left, right) => assert slots[0].param == ParamOf(left) && slots[1].param == ParamOf(right);
      }
    }
  }

  predicate Known(t: Term, env: set<Name>) {
    t.Const? || (t.Var? && t.name in env)
  }

  lemma {:induction false} NotOpen(slots: seq<Slot>, env: set<Name>, i: nat)
    requires Feasible(slots, env) && i < |slots| && Open(slots[i], env)
    ensures !Waits(slots, env, slots[i])
  {
    assert slots[i].param.name !in Needs(slots, env);
  }

  lemma {:induction false} ReadyScan(the: Term, of: Term, value: Term, env: set<Name>)
    requires Ready(ShapeOf(When(Scan(the, of, value))), env) && SomeNamedOrConst(the, of, value)
    ensures Known(the, env) || Known(of, env) || Known(value, env)
  {
    var slots := ScanSlots(the, of, value);
    if !Known(the, env) && !Known(of, env) && !Known(value, env) {
      assert !GroupMet(slots, env, 0);
      var i := if the.Var? then 0 else if of.Var? then 1 else 2;
      NotOpen(slots, env, i);
    }
  }

  lemma {:induction false} ReadyLeftJoin(the: Term, of: Term, value: Term, env: set<Name>)
    requires Ready(ShapeOf(When(LeftJoin(the, of, value))), env) && !of.Wildcard?
    ensures Known(of, env)
    ensures NameOf(the) + NameOf(value) <= env || Known(the, env) || Known(value, env)
  {
    var slots := PropositionSlots(LeftJoin(the, of, value));
    if of.Var? && of.name !in env {
      NotOpen(slots, env, 1);
    }
    if !Known(the, env) && !Known(value, env) && !(NameOf(the) + NameOf(value) <= env) {
      assert !GroupMet(slots, env, 0);
      NotOpen(slots, env, if the.Var? then 0 else 2);
    }
  }

  /** On a feasible row of a posed left join the attribute is fixed or the value present. */
  lemma {:induction false} PosedClaims(the: Term, of: Term, value: Term, row: Row, absentable: set<Name>)
    requires Ready(ShapeOf(When(LeftJoin(the, of, value))), row.Keys) && LeftJoinPosed(the, of, value, absentable) &&
             Within(row, absentable)
    ensures IsPresent(row, of) && (Fixed(row, the) || Lookup(row, value).Some?)
    ensures !OpenClaim(row, the, value) && !AbsentAttribute(row, the, value)
  {
    hide Ready;
    ReadyLeftJoin(the, of, value, row.Keys);
  }

  lemma {:induction false} ReadyEqual(left: Term, right: Term, env: set<Name>)
    requires Ready(ShapeOf(When(Equal(left, right))), env) && !(left.Wildcard? && right.Wildcard?)
    ensures Known(left, env) || Known(right, env)
  {
    var slots := PropositionSlots(Equal(left, right));
    if !Known(left, env) && !Known(right, env) {
      assert !GroupMet(slots, env, 0);
      NotOpen(slots, env, if left.Var? then 0 else 1);
    }
  }

  /** A negation runs only once all its names are bound. */
  lemma {:induction false} ReadyUnless(q: Proposition, env: set<Name>)
    requires Ready(ShapeOf(Unless(q)), env)
    ensures VarsOf(q) <= env
  {
    GivesVars(When(q));
    var slots, negated := PropositionSlots(q), SlotsOf(Unless(q));
    forall n | n in VarsOf(q) ensures n in env {
      var i :| 0 <= i < |slots| && slots[i].param == Named(n);
      if n !in env {
        NotOpen(negated, env, i);
      }
    }
  }

  // ---- Each step is a join

  ghost predicate Joins(db: seq<Fact>, p: Premise, row: Row, r: Row) {
    Adds(row, Gives(ShapeOf(p)), r) && Holds(db, p, r)
  }

  ghost predicate StepIsJoin(db: seq<Fact>, p: Premise, row: Row, out: Stream) {
    !out.broken && forall r :: r in out.rows <==> Joins(db, p, row, r)
  }

  lemma {:induction false} NoSlack(left: Term, right: Term, row: Row, absentable: set<Name>)
    requires Settled(left, right, absentable) && Within(row, absentable)
    ensures !Slack(left, right, row)
  {
  }

  lemma {:induction false} NoSlackBound(left: Term, right: Term, row: Row, absentable: set<Name>)
    requires SettledBound(left, right, absentable) && Within(row, absentable) &&
             NameOf(left) + NameOf(right) <= row.Keys
    ensures !Slack(left, right, row)
  {
  }

  lemma {:induction false} RepeatsAreBound(the: Term, of: Term, value: Term, row: Row)
    requires ScanPosed(the, of, value) && (Known(the, row.Keys) || Known(of, row.Keys) || Known(value, row.Keys))
    ensures Unrepeated(row, the, of, value)
  {
  }

  lemma {:induction false} KnownIsLookup(row: Row, t: Term)
    ensures Known(t, row.Keys) <==> Lookup(row, t).Some?
    ensures !t.Wildcard? && NameOf(t) <= row.Keys ==> Known(t, row.Keys)
    ensures Known(t, row.Keys) && !Blocked(row, t) ==> IsPresent(row, t)
  {
  }

  lemma {:induction false} NotAbsent(row: Row, t: Term, absentable: set<Name>)
    requires Within(row, absentable) && !MayBeAbsent(t, absentable)
    ensures !Blocked(row, t)
  {
  }

  lemma {:induction false} PropositionIsJoin(db: seq<Fact>, q: Proposition, row: Row, absentable: set<Name>)
    requires Ready(ShapeOf(When(q)), row.Keys) && WellPosed(When(q), absentable) && Within(row, absentable)
    ensures IsJoin(db, q, row, PropositionRow(db, q, row))
  {
    hide Ready, Within, ScanRow, LeftJoinRow, EqualRow, Lookup, Settled, IsJoin, Slack, Blocked, IsPresent;
    match q {
      case Scan(the, of, value) =>
        ReadyScan(the, of, value, row.Keys);
        RepeatsAreBound(the, of, value, row);
        KnownIsLookup(row, the);
        KnownIsLookup(row, of);
        KnownIsLookup(row, value);
        ScanIsJoin(db, the, of, value, row);
      case LeftJoin(the, of, value) =>
        PosedClaims(the, of, value, row, absentable);
        LeftJoinIsJoin(db, the, of, value, row);
      case Equal(left, right) =>
        ReadyEqual(left, right, row.Keys);
        KnownIsLookup(row, left);
        KnownIsLookup(row, right);
        NoSlack(left, right, row, absentable);
        EqualIsJoin(db, left, right, row);
    }
  }

  lemma {:induction false} BoundClaims(the: Term, of: Term, value: Term, row: Row, absentable: set<Name>)
    requires NameOf(the) + NameOf(of) + NameOf(value) <= row.Keys && Within(row, absentable)
    requires MayBeAbsent(the, absentable) ==> !value.Wildcard? && !MayBeAbsent(value, absentable)
    ensures Fixed(row, the) && !OpenClaim(row, the, value) && !AbsentAttribute(row, the, value)
  {
  }

  lemma {:induction false} BoundPropositionIsJoin(db: seq<Fact>, q: Proposition, row: Row, absentable: set<Name>)
    requires VarsOf(q) <= row.Keys && WellPosed(Unless(q), absentable) && Within(row, absentable)
    ensures IsJoin(db, q, row, PropositionRow(db, q, row))
  {
    hide Within, ScanRow, LeftJoinRow, EqualRow, Lookup, SettledBound, IsJoin, Slack, Blocked, IsPresent;
    match q {
      case Scan(the, of, value) =>
        KnownIsLookup(row, the);
        KnownIsLookup(row, of);
        KnownIsLookup(row, value);
        ScanIsJoin(db, the, of, value, row);
      case LeftJoin(the, of, value) =>
        KnownIsLookup(row, of);
        NotAbsent(row, of, absentable);
        BoundClaims(the, of, value, row, absentable);
        LeftJoinIsJoin(db, the, of, value, row);
      case Equal(left, right) =>
        KnownIsLookup(row, left);
        KnownIsLookup(row, right);
        NoSlackBound(left, right, row, absentable);
        EqualIsJoin(db, left, right, row);
    }
  }

  lemma {:induction false} AddsNothing(row: Row, names: set<Name>, r: Row)
    requires names <= row.Keys
    ensures Adds(row, names, r) <==> r == row
  {
    if Adds(row, names, r) {
      assert r.Keys == row.Keys;
    }
  }

  lemma {:induction false} NegationIsJoin(db: seq<Fact>, q: Proposition, row: Row, absentable: set<Name>)
    requires Ready(ShapeOf(Unless(q)), row.Keys) && WellPosed(Unless(q), absentable) && Within(row, absentable)
    ensures NegateRow(row, PropositionRow(db, q, row)) == if HoldsProposition(db, q, row) then NOTHING else One(row)
  {
    hide Ready, WellPosed, Within, PropositionRow, HoldsProposition, VarsOf, Adds;
    ReadyUnless(q, row.Keys);
    BoundPropositionIsJoin(db, q, row, absentable);
    var inner := PropositionRow(db, q, row);
    forall r ensures JoinsProposition(db, q, row, r) <==> r == row && HoldsProposition(db, q, row) {
      AddsNothing(row, VarsOf(q), r);
    }
    assert row in inner.rows <==> HoldsProposition(db, q, row);
    assert inner.rows != [] ==> inner.rows[0] in inner.rows;
  }

  lemma {:induction false} PremiseIsJoin(db: seq<Fact>, p: Premise, row: Row, absentable: set<Name>)
    requires Ready(ShapeOf(p), row.Keys) && WellPosed(p, absentable) && Within(row, absentable)
    ensures StepIsJoin(db, p, row, PremiseRow(db, p, row))
  {
    hide Ready, WellPosed, Within, PropositionRow, HoldsProposition, Gives, VarsOf, Adds, NegateRow;
    GivesVars(p);
    match p {
      case When(q) =>
        PropositionIsJoin(db, q, row, absentable);
        assert forall r :: Joins(db, p, row, r) <==> JoinsProposition(db, q, row, r);
      case Unless(q) =>
        NegationIsJoin(db, q, row, absentable);
        forall r ensures Joins(db, p, row, r) <==> r == row && !HoldsProposition(db, q, row) {
          AddsNothing(row, {}, r);
        }
    }
  }

  // ---- Absences stay where they may be

  lemma {:induction false} ScanIsPresent(db: seq<Fact>, the: Term, of: Term, value: Term, r: Row, n: Name)
    requires HoldsScan(db, the, of, value, r) && n in NameOf(the) + NameOf(of) + NameOf(value)
    ensures n in r && r[n].Present?
  {
  }

  lemma {:induction false} NewIsWithin(db: seq<Fact>, q: Proposition, row: Row, r: Row, absentable: set<Name>, n: Name)
    requires Ready(ShapeOf(When(q)), row.Keys) && WellPosed(When(q), absentable) && Within(row, absentable)
    requires JoinsProposition(db, q, row, r) && n in VarsOf(q) && r[n].Absent?
    ensures n in absentable
  {
    match q {
      case Scan(the, of, value) => ScanIsPresent(db, the, of, value, r, n);
      case LeftJoin(the, of, value) => ReadyLeftJoin(the, of, value, row.Keys);
      case Equal(left, right) => ReadyEqual(left, right, row.Keys);
    }
  }

  lemma {:induction false} JoinStaysWithin(db: seq<Fact>, p: Premise, row: Row, r: Row, absentable: set<Name>)
    requires Ready(ShapeOf(p), row.Keys) && WellPosed(p, absentable) && Within(row, absentable) && Joins(db, p, row, r)
    ensures Within(r, absentable)
  {
    GivesVars(p);
    forall n | n in r && r[n].Absent? ensures n in absentable {
      if n !in row {
        NewIsWithin(db, p.proposition, row, r, absentable, n);
      }
    }
  }

  // ---- Premises look only at their own names

  function Restrict(row: Row, names: set<Name>): Row {
    map n | n in row && n in names :: row[n]
  }

  lemma {:induction false} TakesLocal(row: Row, names: set<Name>, t: Term, b: Binding)
    requires NameOf(t) <= names
    ensures Takes(row, t, b) <==> Takes(Restrict(row, names), t, b)
  {
  }

  lemma {:induction false} HoldsLocal(db: seq<Fact>, q: Proposition, row: Row, names: set<Name>)
    requires VarsOf(q) <= names
    ensures HoldsProposition(db, q, row) <==> HoldsProposition(db, q, Restrict(row, names))
  {
    hide Takes, Restrict;
    var small := Restrict(row, names);
    match q {
      case Scan(the, of, value) =>
        forall b ensures (Takes(row, the, b) <==> Takes(small, the, b)) &&
            (Takes(row, of, b) <==> Takes(small, of, b)) && (Takes(row, value, b) <==> Takes(small, value, b)) {
          TakesLocal(row, names, the, b);
          TakesLocal(row, names, of, b);
          TakesLocal(row, names, value, b);
        }
      case LeftJoin(the, of, value) =>
        forall b ensures (Takes(row, the, b) <==> Takes(small, the, b)) &&
            (Takes(row, of, b) <==> Takes(small, of, b)) && (Takes(row, value, b) <==> Takes(small, value, b)) {
          TakesLocal(row, names, the, b);
          TakesLocal(row, names, of, b);
          TakesLocal(row, names, value, b);
        }
      case Equal(left, right) =>
        forall b ensures (Takes(row, left, b) <==> Takes(small, left, b)) &&
            (Takes(row, right, b) <==> Takes(small, right, b)) {
          TakesLocal(row, names, left, b);
          TakesLocal(row, names, right, b);
        }
    }
  }

  // ---- A step over a stream

  /** Rows that all bind exactly these names and are absent only where they may be. */
  predicate Fed(input: Stream, scope: set<Name>, absentable: set<Name>) {
    !input.broken && forall row :: row in input.rows ==> row.Keys == scope && Within(row, absentable)
  }

  ghost predicate StepAnswers(db: seq<Fact>, p: Premise, scope: set<Name>, rows: seq<Row>, r: Row) {
    r.Keys == scope + Gives(ShapeOf(p)) && Restrict(r, scope) in rows && Holds(db, p, r)
  }

  lemma {:induction false} AddsIsRestrict(row: Row, names: set<Name>, r: Row)
    ensures Adds(row, names, r) <==> r.Keys == row.Keys + names && Restrict(r, row.Keys) == row
  {
    if Adds(row, names, r) {
      assert Restrict(r, row.Keys).Keys == row.Keys;
    }
    if Restrict(r, row.Keys) == row {
      assert forall n :: n in row ==> r[n] == Restrict(r, row.Keys)[n];
    }
  }

  lemma {:induction false} EachJoins(db: seq<Fact>, p: Premise, scope: set<Name>, rows: seq<Row>, absentable: set<Name>)
    requires Ready(ShapeOf(p), scope) && WellPosed(p, absentable) && Fed(Stream(rows, false), scope, absentable)
    ensures var out := Each(row => PremiseRow(db, p, row), rows);
            !out.broken && forall r :: r in out.rows <==> exists row :: row in rows && Joins(db, p, row, r)
  {
    hide Ready, WellPosed, Within, PremiseRow, Joins;
    if rows != [] {
      var last, front := rows[|rows| - 1], rows[..|rows| - 1];
      assert last in rows && forall row :: row in front ==> row in rows;
      EachJoins(db, p, scope, front, absentable);
      PremiseIsJoin(db, p, last, absentable);
      assert forall row :: row in rows <==> row in front || row == last;
    }
  }

  lemma {:induction false} StepMeans(db: seq<Fact>, p: Premise, scope: set<Name>, input: Stream, absentable: set<Name>)
    requires Ready(ShapeOf(p), scope) && WellPosed(p, absentable) && Fed(input, scope, absentable)
    ensures var out := StepRows(db, p, input);
            && Fed(out, scope + Gives(ShapeOf(p)), absentable)
            && forall r :: r in out.rows <==> StepAnswers(db, p, scope, input.rows, r)
  {
    hide Ready, WellPosed, Within, PremiseRow, Holds, Gives, Restrict, Each, Adds;
    EachJoins(db, p, scope, input.rows, absentable);
    var out := StepRows(db, p, input);
    assert out.rows == Each(row => PremiseRow(db, p, row), input.rows).rows + [];
    forall r ensures r in out.rows <==> StepAnswers(db, p, scope, input.rows, r) {
      if row :| row in input.rows && Joins(db, p, row, r) {
        AddsIsRestrict(row, Gives(ShapeOf(p)), r);
      }
      if StepAnswers(db, p, scope, input.rows, r) {
        AddsIsRestrict(Restrict(r, scope), Gives(ShapeOf(p)), r);
        assert Joins(db, p, Restrict(r, scope), r);
      }
    }
    forall r | r in out.rows ensures r.Keys == scope + Gives(ShapeOf(p)) && Within(r, absentable) {
      var row :| row in input.rows && Joins(db, p, row, r);
      JoinStaysWithin(db, p, row, r, absentable);
    }
  }

  // ---- Whole bodies

  /** The rows a body calls for, whatever the order of its premises. */
  ghost predicate Answers(db: seq<Fact>, premises: seq<Premise>, scope: set<Name>, rows: seq<Row>, r: Row) {
    && r.Keys == After(ShapeOf, scope, premises)
    && Restrict(r, scope) in rows
    && forall p :: p in premises ==> Holds(db, p, r)
  }

  lemma {:induction false} RestrictTwice(row: Row, small: set<Name>, large: set<Name>)
    requires small <= large
    ensures Restrict(Restrict(row, large), small) == Restrict(row, small)
    ensures large <= row.Keys ==> Restrict(row, large).Keys == large
  {
  }

  lemma {:induction false} AnswersStep(db: seq<Fact>, order: seq<Premise>, scope: set<Name>, rows: seq<Row>, r: Row)
    requires order != [] && Ready(ShapeOf(order[0]), scope)
    ensures var wider := scope + Gives(ShapeOf(order[0]));
            Answers(db, order, scope, rows, r) <==>
            && r.Keys == After(ShapeOf, wider, order[1..])
            && StepAnswers(db, order[0], scope, rows, Restrict(r, wider))
            && forall p :: p in order[1..] ==> Holds(db, p, r)
  {
    hide Ready, HoldsProposition, Gives, Restrict, VarsOf;
    var p, wider := order[0], scope + Gives(ShapeOf(order[0]));
    assert forall q :: q in order <==> q == p || q in order[1..];
    RestrictTwice(r, scope, wider);
    GivesVars(p);
    if p.Unless? {
      ReadyUnless(p.proposition, scope);
    }
    HoldsLocal(db, p.proposition, r, wider);
    assert After(ShapeOf, scope, order) == After(ShapeOf, wider, order[1..]);
    if r.Keys == After(ShapeOf, wider, order[1..]) {
      assert Holds(db, p, r) <==> Holds(db, p, Restrict(r, wider));
      assert Restrict(r, wider).Keys == wider;
    }
  }

  /** Running a feasible order of well-posed premises yields exactly the rows the body calls for. */
  lemma {:induction false} RunMeans(db: seq<Fact>, order: seq<Premise>, scope: set<Name>, input: Stream,
          absentable: set<Name>)
    requires Runs(ShapeOf, scope, order) && Fed(input, scope, absentable)
    requires forall p :: p in order ==> WellPosed(p, absentable)
    ensures !Run(db, order, input).broken
    ensures forall r :: r in Run(db, order, input).rows <==> Answers(db, order, scope, input.rows, r)
    decreases |order|
  {
    hide Ready, WellPosed, Holds, Gives, Restrict, StepRows, StepAnswers, Within;
    if order == [] {
      forall r ensures r in input.rows <==> Answers(db, order, scope, input.rows, r) {
        WholeRow(r, scope);
      }
    } else {
      var wider, mid := scope + Gives(ShapeOf(order[0])), StepRows(db, order[0], input);
      StepMeans(db, order[0], scope, input, absentable);
      RunMeans(db, order[1..], wider, mid, absentable);
      forall r ensures Answers(db, order[1..], wider, mid.rows, r) <==> Answers(db, order, scope, input.rows, r) {
        AnswersStep(db, order, scope, input.rows, r);
      }
    }
  }

  lemma {:induction false} WholeRow(r: Row, scope: set<Name>)
    ensures r.Keys == scope ==> Restrict(r, scope) == r
  {
  }

  /** All complete feasible orders give the same rows, without error. */
  lemma {:induction false} OrderIrrelevant(db: seq<Fact>, premises: seq<Premise>, scope: set<Name>, input: Stream,
          absentable: set<Name>, a: seq<Premise>, b: seq<Premise>)
    requires Ordering(ShapeOf, scope, premises, a) && Ordering(ShapeOf, scope, premises, b) &&
             Fed(input, scope, absentable)
    requires forall p :: p in premises ==> WellPosed(p, absentable)
    ensures !Run(db, a, input).broken && !Run(db, b, input).broken
    ensures forall r :: r in Run(db, a, input).rows <==> r in Run(db, b, input).rows
    ensures forall r :: r in Run(db, a, input).rows <==> Answers(db, premises, scope, input.rows, r)
  {
    hide WellPosed, Run, Runs, Fed;
    SameElements(a, premises);
    SameElements(b, premises);
    RunMeans(db, a, scope, input, absentable);
    RunMeans(db, b, scope, input, absentable);
    BindsAnyOrder(ShapeOf, scope, premises, a);
    BindsAnyOrder(ShapeOf, scope, premises, b);
  }
}
