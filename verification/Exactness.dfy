/**
 * Where evaluation departs from the relational meaning: which feasible premises fail, and
 * which conditions on a premise are needed.
 */
module Exactness {
  import opened Options
  import opened Environments
  import opened Feasibility
  import opened Planner
  import opened Query
  import opened Meaning
  import opened Orders

  // ---- Feasible premises that still fail

  /** Two parts of a fact would go to one unbound name. */
  predicate Clash(row: Row, s: Term, v: Value, t: Term, w: Value) {
    s.Var? && t.Var? && s.name == t.name && s.name !in row && v != w
  }

  predicate Clashes(row: Row, the: Term, of: Term, value: Term, f: Fact) {
    Clash(row, the, f.the, of, f.of) || Clash(row, the, f.the, value, f.value) || Clash(row, of, f.of, value, f.value)
  }

  /** What a caller can look for before evaluating a feasible premise. */
  ghost predicate Unanswerable(db: seq<Fact>, q: Proposition, row: Row) {
    match q
    case Scan(the, of, value) =>
      || !SomeNamedOrConst(the, of, value)
      || (!Blocked(row, the) && !Blocked(row, of) && !Blocked(row, value) &&
          exists f :: f in db && SelectsFact(row, the, of, value, f) && Clashes(row, the, of, value, f))
    case LeftJoin(the, of, value) => of.Wildcard? || Blocked(row, of)
    case Equal(left, right) => left.Wildcard? && right.Wildcard?
  }

  lemma {:induction false} MergeFails(row: Row, the: Term, of: Term, value: Term, f: Fact)
    requires SelectsFact(row, the, of, value, f)
    ensures Merge(row, the, of, value, f).None? <==> Clashes(row, the, of, value, f)
  {
  }

  lemma {:induction false} ExtensionsBreak(db: seq<Fact>, the: Term, of: Term, value: Term, row: Row)
    ensures Extensions(db, the, of, value, row).broken <==>
            exists f :: f in db && SelectsFact(row, the, of, value, f) && Clashes(row, the, of, value, f)
  {
    hide Merge, SelectsFact, Clashes;
    if db != [] {
      var last, front := db[|db| - 1], db[..|db| - 1];
      ExtensionsBreak(front, the, of, value, row);
      if SelectsFact(row, the, of, value, last) {
        MergeFails(row, the, of, value, last);
      }
      assert forall f :: f in db <==> f in front || f == last;
    }
  }

  /** A feasible premise fails on a row exactly when it is unanswerable there. */
  lemma {:induction false} FeasibleFails(db: seq<Fact>, q: Proposition, row: Row)
    requires Ready(ShapeOf(When(q)), row.Keys)
    ensures PropositionRow(db, q, row).broken <==> Unanswerable(db, q, row)
  {
    hide Ready, Extensions, SelectsFact, Clashes, LeftJoinRow, EqualRow;
    match q {
      case Scan(the, of, value) =>
        ExtensionsBreak(db, the, of, value, row);
        if SomeNamedOrConst(the, of, value) {
          ReadyScan(the, of, value, row.Keys);
        }
      case LeftJoin(the, of, value) => LeftJoinFails(db, the, of, value, row);
      case Equal(left, right) => EqualFails(left, right, row);
    }
  }

  /** So does its negation. */
  lemma {:induction false} NegationFails(db: seq<Fact>, q: Proposition, row: Row)
    requires Ready(ShapeOf(Unless(q)), row.Keys)
    ensures PremiseRow(db, Unless(q), row).broken <==> Unanswerable(db, q, row)
  {
    hide Ready, ShapeOf, PropositionRow, Unanswerable;
    ReadyUnless(q, row.Keys);
    AllBoundIsReady(When(q), row.Keys);
    FeasibleFails(db, q, row);
    BoundFailsAtOnce(db, q, row);
  }

  /** Whatever the row, a negation decides on the first thing that its inner evaluation comes to: a match drops the row,
      also if a failure would have followed; only a failure that comes first is passed on. */
  lemma {:induction false} NegationDecides(db: seq<Fact>, q: Proposition, row: Row)
    ensures var inner, out := PropositionRow(db, q, row), PremiseRow(db, Unless(q), row);
            && (out.rows == [row] <==> inner == NOTHING) && (out.rows == [] || out.rows == [row])
            && (out.broken <==> inner == BROKEN)
  {
    hide PropositionRow;
  }

  /** With all names bound, what fails yields nothing first. */
  lemma {:induction false} BoundFailsAtOnce(db: seq<Fact>, q: Proposition, row: Row)
    requires VarsOf(q) <= row.Keys
    ensures PropositionRow(db, q, row).broken ==> PropositionRow(db, q, row).rows == []
  {
    hide Extensions;
    match q {
      case Scan(the, of, value) =>
        ExtensionsFit(db, the, of, value, row);
      case LeftJoin(the, of, value) =>
        ExtensionsFit(db, the, of, value, row);
        ExtensionsFit(db, the, of, Wildcard(false), row);
      case Equal(left, right) =>
    }
  }

  lemma {:induction false} LeftJoinFails(db: seq<Fact>, the: Term, of: Term, value: Term, row: Row)
    requires Ready(ShapeOf(When(LeftJoin(the, of, value))), row.Keys)
    ensures LeftJoinRow(db, the, of, value, row).broken <==> of.Wildcard? || Blocked(row, of)
  {
    hide Ready, ScanRow;
    if !of.Wildcard? {
      ReadyLeftJoin(the, of, value, row.Keys);
      KnownIsLookup(row, of);
      KnownIsLookup(row, the);
      KnownIsLookup(row, value);
      if IsPresent(row, of) {
        LeftJoinIsJoin(db, the, of, value, row);
        if OpenClaim(row, the, value) {
          OpenClaimPasses(db, the, of, value, row);
        } else if AbsentAttribute(row, the, value) {
          AbsentAttributePasses(db, the, of, value, row);
        }
      }
    }
  }

  lemma {:induction false} EqualFails(left: Term, right: Term, row: Row)
    requires Ready(ShapeOf(When(Equal(left, right))), row.Keys)
    ensures EqualRow(left, right, row).broken <==> left.Wildcard? && right.Wildcard?
  {
    hide Ready;
    if !(left.Wildcard? && right.Wildcard?) {
      ReadyEqual(left, right, row.Keys);
      EqualYields(left, right, row);
    }
  }

  // ---- The conditions on a premise are exact

  /** On every feasible row within the names, evaluation is the join and stays within them. */
  ghost predicate Faithful(p: Premise, absentable: set<Name>) {
    forall db: seq<Fact>, row: Row :: Ready(ShapeOf(p), row.Keys) && Within(row, absentable) ==>
        Answered(db, p, row, absentable)
  }

  ghost predicate Answered(db: seq<Fact>, p: Premise, row: Row, absentable: set<Name>) {
    StepIsJoin(db, p, row, PremiseRow(db, p, row)) && forall r :: Joins(db, p, row, r) ==> Within(r, absentable)
  }

  lemma {:induction false} WellPosedIsFaithful(p: Premise, absentable: set<Name>)
    requires WellPosed(p, absentable)
    ensures Faithful(p, absentable)
  {
    hide WellPosed, Ready, Within, StepIsJoin, Joins;
    forall db: seq<Fact>, row: Row | Ready(ShapeOf(p), row.Keys) && Within(row, absentable)
        ensures Answered(db, p, row, absentable) {
      PremiseIsJoin(db, p, row, absentable);
      forall r | Joins(db, p, row, r) ensures Within(r, absentable) {
        JoinStaysWithin(db, p, row, r, absentable);
      }
    }
  }

  /** A row that binds these names, absent where asked. */
  function SampleRow(names: set<Name>, absent: set<Name>): Row {
    map n | n in names :: if n in absent then Absent else Present("v")
  }

  lemma {:induction false} AllBoundIsReady(p: Premise, env: set<Name>)
    requires VarsOf(p.proposition) <= env
    ensures Ready(ShapeOf(p), env)
  {
    GivesVars(When(p.proposition));
    var slots, own := SlotsOf(p), PropositionSlots(p.proposition);
    assert |slots| == |own| && forall i :: 0 <= i < |slots| ==> slots[i].param == own[i].param;
    forall i | 0 <= i < |slots| ensures !Open(slots[i], env) {
      if slots[i].param.Named? {
        assert own[i].param.name in Vars(own);
      }
    }
  }

  lemma {:induction false} KnownScanIsReady(the: Term, of: Term, value: Term, env: set<Name>)
    requires Known(the, env) || Known(of, env) || Known(value, env)
    ensures Ready(ShapeOf(When(Scan(the, of, value))), env)
  {
    var slots := ScanSlots(the, of, value);
    var i := if Known(the, env) then 0 else if Known(of, env) then 1 else 2;
    assert slots[i].requirement == Required(Some(0)) && IsBound(slots[i].param, env);
    assert GroupMet(slots, env, 0);
  }

  lemma {:induction false} KnownLeftJoinIsReady(the: Term, of: Term, value: Term, env: set<Name>)
    requires (of.Wildcard? || Known(of, env)) && (Known(the, env) || Known(value, env))
    ensures Ready(ShapeOf(When(LeftJoin(the, of, value))), env)
  {
    var slots := PropositionSlots(LeftJoin(the, of, value));
    var i := if Known(the, env) then 0 else 2;
    assert slots[i].requirement == Required(Some(0)) && IsBound(slots[i].param, env);
    assert GroupMet(slots, env, 0);
  }

  lemma {:induction false} KnownEqualIsReady(left: Term, right: Term, env: set<Name>)
    requires Known(left, env) || Known(right, env)
    ensures Ready(ShapeOf(When(Equal(left, right))), env)
  {
    var slots := PropositionSlots(Equal(left, right));
    var i := if Known(left, env) then 0 else 1;
    assert slots[i].requirement == Required(Some(0)) && IsBound(slots[i].param, env);
    assert GroupMet(slots, env, 0);
  }

  lemma {:induction false} BrokenIsUnfaithful(db: seq<Fact>, p: Premise, row: Row, absentable: set<Name>)
    requires Ready(ShapeOf(p), row.Keys) && Within(row, absentable) && PremiseRow(db, p, row).broken
    ensures !Faithful(p, absentable)
  {
    assert !Answered(db, p, row, absentable);
  }

  lemma {:induction false} ClashBreaks(the: Term, of: Term, value: Term, f: Fact, row: Row)
    requires SelectsFact(row, the, of, value, f) && Clashes(row, the, of, value, f)
    requires Lookup(row, the).Some? || Lookup(row, of).Some? || Lookup(row, value).Some?
    ensures ScanRow([f], the, of, value, row).broken
  {
    hide Extensions, Clashes;
    ExtensionsBreak([f], the, of, value, row);
    assert f in [f];
  }

  /** A scan by a repeated unbound name and something known clashes on some store. */
  lemma {:induction false} HalfRepeatFails(the: Term, of: Term, value: Term, absentable: set<Name>)
    returns (db: seq<Fact>, row: Row)
    requires !RepeatAlone(the, of, value) || !RepeatAlone(the, value, of) || !RepeatAlone(of, value, the)
    ensures Ready(ShapeOf(When(Scan(the, of, value))), row.Keys) && Within(row, absentable) &&
            ScanRow(db, the, of, value, row).broken
  {
    hide Ready, ScanRow;
    var other := if !RepeatAlone(the, of, value) then value else if !RepeatAlone(the, value, of) then of else the;
    row := SampleRow(NameOf(other), {});
    var known := if other.Const? then other.value else "v";
    var one, two := known + "1", known + "2";
    assert one[|known|] != two[|known|];
    var f := if !RepeatAlone(the, of, value) then Fact(one, two, known)
             else if !RepeatAlone(the, value, of) then Fact(one, known, two) else Fact(known, one, two);
    db := [f];
    KnownScanIsReady(the, of, value, row.Keys);
    ClashBreaks(the, of, value, f, row);
  }

  lemma {:induction false} ScanIsUnfaithful(the: Term, of: Term, value: Term, absentable: set<Name>)
    requires !ScanPosed(the, of, value)
    ensures !Faithful(When(Scan(the, of, value)), absentable)
  {
    hide Faithful, Ready, Extensions;
    var p := When(Scan(the, of, value));
    if !SomeNamedOrConst(the, of, value) {
      var row: Row := map[];
      AllBoundIsReady(p, row.Keys);
      BrokenIsUnfaithful([], p, row, absentable);
    } else {
      var db, row := HalfRepeatFails(the, of, value, absentable);
      BrokenIsUnfaithful(db, p, row, absentable);
    }
  }

  lemma {:induction false} EscapeIsUnfaithful(db: seq<Fact>, p: Premise, row: Row, r: Row, absentable: set<Name>)
    requires Ready(ShapeOf(p), row.Keys) && Within(row, absentable) && Joins(db, p, row, r) && !Within(r, absentable)
    ensures !Faithful(p, absentable)
  {
    assert !Answered(db, p, row, absentable);
  }

  lemma {:induction false} NoEntityIsUnfaithful(the: Term, of: Term, value: Term, absentable: set<Name>)
    requires of.Wildcard? || MayBeAbsent(of, absentable)
    ensures !Faithful(When(LeftJoin(the, of, value)), absentable)
  {
    hide Faithful, Ready;
    var p := When(LeftJoin(the, of, value));
    var row := SampleRow(VarsOf(p.proposition), NameOf(of));
    AllBoundIsReady(p, row.Keys);
    BrokenIsUnfaithful([], p, row, absentable);
  }

  lemma {:induction false} WideningEscapes(the: Term, of: Term, value: Term, absentable: set<Name>)
    requires !of.Wildcard? && !(Widened(the, of, value) <= absentable)
    ensures !Faithful(When(LeftJoin(the, of, value)), absentable)
  {
    hide Faithful, Ready, Gives, ScanRow;
    var p := When(LeftJoin(the, of, value));
    var row := SampleRow(NameOf(of) + NameOf(the), {});
    var r := row[value.name := Absent];
    KnownLeftJoinIsReady(the, of, value, row.Keys);
    GivesVars(p);
    assert Adds(row, VarsOf(p.proposition), r);
    var e := if of.Const? then of.value else "v";
    var a := if the.Const? then the.value else "v";
    assert Takes(r, the, Present(a)) && Takes(r, of, Present(e)) && Takes(r, value, Absent) &&
           Unmatched([], the, of, r);
    EscapeIsUnfaithful([], p, row, r, absentable);
  }

  lemma {:induction false} NotJoinIsUnfaithful(db: seq<Fact>, q: Proposition, row: Row, absentable: set<Name>)
    requires Ready(ShapeOf(When(q)), row.Keys) && Within(row, absentable) &&
             !IsJoin(db, q, row, PropositionRow(db, q, row))
    ensures !Faithful(When(q), absentable)
  {
    hide Ready, Gives, PropositionRow, Within, VarsOf;
    var p := When(q);
    GivesVars(p);
    assert forall r :: Joins(db, p, row, r) <==> JoinsProposition(db, q, row, r);
    assert !StepIsJoin(db, p, row, PremiseRow(db, p, row));
    assert !Answered(db, p, row, absentable);
  }

  lemma {:induction false} OpenClaimIsUnfaithful(the: Term, of: Term, value: Term, absentable: set<Name>)
    requires !of.Wildcard? && !MayBeAbsent(of, absentable)
    requires MayBeAbsent(value, absentable) && !(NameOf(the) <= NameOf(of) + NameOf(value))
    ensures !Faithful(When(LeftJoin(the, of, value)), absentable)
  {
    hide Ready, LeftJoinRow, Faithful;
    var row := SampleRow(NameOf(of) + NameOf(value), NameOf(value));
    KnownLeftJoinIsReady(the, of, value, row.Keys);
    OpenClaimPasses([], the, of, value, row);
    NotJoinIsUnfaithful([], LeftJoin(the, of, value), row, absentable);
  }

  lemma {:induction false} AbsentAttributeIsUnfaithful(the: Term, of: Term, value: Term, absentable: set<Name>)
    requires !of.Wildcard? && !MayBeAbsent(of, absentable) && MayBeAbsent(the, absentable) && !PinnedBy(of, value)
    ensures !Faithful(When(LeftJoin(the, of, value)), absentable)
  {
    hide Ready, LeftJoinRow, Faithful;
    var row := SampleRow(NameOf(of) + NameOf(the), NameOf(the));
    KnownLeftJoinIsReady(the, of, value, row.Keys);
    AbsentAttributePasses([], the, of, value, row);
    NotJoinIsUnfaithful([], LeftJoin(the, of, value), row, absentable);
  }

  lemma {:induction false} LeftJoinIsUnfaithful(the: Term, of: Term, value: Term, absentable: set<Name>)
    requires !LeftJoinPosed(the, of, value, absentable)
    ensures !Faithful(When(LeftJoin(the, of, value)), absentable)
  {
    hide Faithful;
    if of.Wildcard? || MayBeAbsent(of, absentable) {
      NoEntityIsUnfaithful(the, of, value, absentable);
    } else if !(Widened(the, of, value) <= absentable) {
      WideningEscapes(the, of, value, absentable);
    } else if MayBeAbsent(value, absentable) && !(NameOf(the) <= NameOf(of) + NameOf(value)) {
      OpenClaimIsUnfaithful(the, of, value, absentable);
    } else {
      AbsentAttributeIsUnfaithful(the, of, value, absentable);
    }
  }

  lemma {:induction false} SlackIsUnfaithful(p: Premise, row: Row, absentable: set<Name>)
    requires p.proposition.Equal? && Slack(p.proposition.left, p.proposition.right, row)
    requires Ready(ShapeOf(p), row.Keys) && Within(row, absentable) && (p.Unless? ==> VarsOf(p.proposition) <= row.Keys)
    ensures !Faithful(p, absentable)
  {
    hide Ready, Gives, Slack, EqualRow, Filled, HoldsEqual, Adds;
    var left, right := p.proposition.left, p.proposition.right;
    GivesVars(p);
    SlackIsBound(left, right, row);
    EqualYields(left, right, row);
    var r := Filled(left, right, row);
    assert r in EqualRow(left, right, row).rows && !HoldsEqual(left, right, r);
    AddsNothing(row, {}, row);
    if p.Unless? {
      AddsNothing(row, NameOf(left) + NameOf(right), r);
      assert Joins([], p, row, row);
    }
    assert !StepIsJoin([], p, row, PremiseRow([], p, row));
    assert !Answered([], p, row, absentable);
  }

  lemma {:induction false} SlackIsBound(left: Term, right: Term, row: Row)
    requires Slack(left, right, row)
    ensures !(Lookup(row, left).None? && Lookup(row, right).None?)
  {
  }

  lemma {:induction false} EqualIsUnfaithful(left: Term, right: Term, absentable: set<Name>)
    requires !Settled(left, right, absentable)
    ensures !Faithful(When(Equal(left, right)), absentable)
  {
    hide Faithful, Ready, Gives;
    var p := When(Equal(left, right));
    GivesVars(p);
    var absent := (NameOf(left) + NameOf(right)) * absentable;
    var row := SampleRow(absent, absent);
    KnownEqualIsReady(left, right, row.Keys);
    if AllowsAbsence(left) && AllowsAbsence(right) {
      var r := if left.name in absentable then row[right.name := Absent] else row[left.name := Absent];
      assert Takes(r, left, Absent) && Takes(r, right, Absent);
      EscapeIsUnfaithful([], p, row, r, absentable);
    } else {
      if AllowsAbsence(right) && right.Var? && right.name in absentable {
        assert Blocked(row, left) && Blocked(row, right);
      }
      SlackIsUnfaithful(p, row, absentable);
    }
  }

  lemma {:induction false} WildEqualIsUnfaithful(p: Premise, absentable: set<Name>)
    requires p.proposition.Equal? && p.proposition.left.Wildcard? && p.proposition.right.Wildcard?
    ensures !Faithful(p, absentable)
  {
    hide Faithful, Ready;
    var row: Row := map[];
    AllBoundIsReady(p, row.Keys);
    BrokenIsUnfaithful([], p, row, absentable);
  }

  lemma {:induction false} NegatedAbsentAttribute(the: Term, of: Term, value: Term, absentable: set<Name>)
    requires !of.Wildcard? && !MayBeAbsent(of, absentable) && MayBeAbsent(the, absentable)
    requires value.Wildcard? || MayBeAbsent(value, absentable)
    ensures !Faithful(Unless(LeftJoin(the, of, value)), absentable)
  {
    hide Ready, Gives, LeftJoinRow;
    var p := Unless(LeftJoin(the, of, value));
    var row := SampleRow(NameOf(of) + NameOf(the) + NameOf(value), NameOf(the) + NameOf(value));
    AllBoundIsReady(p, row.Keys);
    AbsentAttributePasses([], the, of, value, row);
    GivesVars(p);
    AddsNothing(row, {}, row);
    assert !exists a :: Takes(row, the, Present(a));
    assert Joins([], p, row, row) && PremiseRow([], p, row) == NOTHING;
    assert !StepIsJoin([], p, row, PremiseRow([], p, row));
    assert !Answered([], p, row, absentable);
  }

  lemma {:induction false} NegationIsUnfaithful(q: Proposition, absentable: set<Name>)
    requires !WellPosed(Unless(q), absentable) && (q.Equal? ==> !(q.left.Wildcard? && q.right.Wildcard?))
    ensures !Faithful(Unless(q), absentable)
  {
    hide Faithful, Ready;
    var p := Unless(q);
    match q {
      case Scan(the, of, value) =>
        var row: Row := map[];
        AllBoundIsReady(p, row.Keys);
        BrokenIsUnfaithful([], p, row, absentable);
      case LeftJoin(the, of, value) =>
        if of.Wildcard? || MayBeAbsent(of, absentable) {
          var row := SampleRow(VarsOf(q), NameOf(of));
          AllBoundIsReady(p, row.Keys);
          BrokenIsUnfaithful([], p, row, absentable);
        } else {
          NegatedAbsentAttribute(the, of, value, absentable);
        }
      case Equal(left, right) =>
        var row := SampleRow(NameOf(left) + NameOf(right), NameOf(left) + NameOf(right));
        AllBoundIsReady(p, row.Keys);
        SlackIsUnfaithful(p, row, absentable);
    }
  }

  /** A premise is answered faithfully on every feasible row exactly when it is well posed. */
  lemma {:induction false} WellPosedIsExact(p: Premise, absentable: set<Name>)
    ensures Faithful(p, absentable) <==> WellPosed(p, absentable)
  {
    hide Faithful, Settled, ScanPosed, LeftJoinPosed, SettledBound;
    if WellPosed(p, absentable) {
      WellPosedIsFaithful(p, absentable);
    } else {
      match p {
        case When(Scan(the, of, value)) => ScanIsUnfaithful(the, of, value, absentable);
        case When(LeftJoin(the, of, value)) => LeftJoinIsUnfaithful(the, of, value, absentable);
        case When(Equal(left, right)) =>
          if left.Wildcard? && right.Wildcard? {
            WildEqualIsUnfaithful(p, absentable);
          } else {
            EqualIsUnfaithful(left, right, absentable);
          }
        case Unless(q) =>
          if q.Equal? && q.left.Wildcard? && q.right.Wildcard? {
            WildEqualIsUnfaithful(p, absentable);
          } else {
            NegationIsUnfaithful(q, absentable);
          }
      }
    }
  }
}
