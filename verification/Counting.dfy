/**
 * How often evaluation yields each row: a scan once for every fact it selects, in their
 * order, and a whole body once for every way of satisfying its premises, in any order.
 */
module Counting {
  import opened Environments
  import opened Planner
  import opened Query
  import opened Meaning
  import opened Orders
  import opened Narrowing
  import opened Options

  // ---- One scan

  /** These are the positions of the selected facts, ascending, and the rows fit them one by one. */
  ghost predicate OneByOne(db: seq<Fact>, the: Term, of: Term, value: Term, row: Row, at: seq<nat>, rows: seq<Row>) {
    && (forall k :: 0 <= k < |at| ==> at[k] < |db| && SelectsFact(row, the, of, value, db[at[k]]))
    && (forall i :: 0 <= i < |db| && SelectsFact(row, the, of, value, db[i]) ==> i in at)
    && (forall j, k :: 0 <= j < k < |at| ==> at[j] < at[k])
    && |rows| == |at| && forall k :: 0 <= k < |at| ==> Fits(row, the, of, value, db[at[k]], rows[k])
  }

  /** A scan that knows something and is not blocked yields one row for each fact that its terms select, in the order of
      the facts. */
  lemma {:induction false} ScanYieldsEach(db: seq<Fact>, the: Term, of: Term, value: Term, row: Row)
    returns (at: seq<nat>)
    requires Unrepeated(row, the, of, value)
    requires !(Lookup(row, the).None? && Lookup(row, of).None? && Lookup(row, value).None?)
    requires !Blocked(row, the) && !Blocked(row, of) && !Blocked(row, value)
    ensures !ScanRow(db, the, of, value, row).broken
    ensures OneByOne(db, the, of, value, row, at, ScanRow(db, the, of, value, row).rows)
  {
    hide OneByOne, Extensions;
    at := ExtensionsYieldEach(db, the, of, value, row);
  }

  lemma {:induction false} ExtensionsYieldEach(db: seq<Fact>, the: Term, of: Term, value: Term, row: Row)
    returns (at: seq<nat>)
    requires Unrepeated(row, the, of, value)
    ensures !Extensions(db, the, of, value, row).broken
    ensures OneByOne(db, the, of, value, row, at, Extensions(db, the, of, value, row).rows)
  {
    hide SelectsFact, Merge, Fits, Unrepeated, OneByOne;
    if db == [] {
      at := [];
      NoneSelected(the, of, value, row);
    } else {
      var n, front := |db| - 1, db[..|db| - 1];
      at := ExtensionsYieldEach(front, the, of, value, row);
      var rows := Extensions(front, the, of, value, row).rows;
      if SelectsFact(row, the, of, value, db[n]) {
        MergeFits(row, the, of, value, db[n]);
        OneMoreSelected(db, the, of, value, row, at, rows, Merge(row, the, of, value, db[n]).value);
        at := at + [n];
      } else {
        NoMoreSelected(db, the, of, value, row, at, rows);
        assert rows + [] == rows;
      }
    }
  }

  lemma {:induction false} NoneSelected(the: Term, of: Term, value: Term, row: Row)
    ensures OneByOne([], the, of, value, row, [], [])
  {
  }

  lemma {:induction false} OneMoreSelected(db: seq<Fact>, the: Term, of: Term, value: Term, row: Row, at: seq<nat>,
          rows: seq<Row>, r: Row)
    requires db != [] && OneByOne(db[..|db| - 1], the, of, value, row, at, rows)
    requires SelectsFact(row, the, of, value, db[|db| - 1]) && Fits(row, the, of, value, db[|db| - 1], r)
    ensures OneByOne(db, the, of, value, row, at + [|db| - 1], rows + [r])
  {
    hide SelectsFact, Fits;
    var n, front := |db| - 1, db[..|db| - 1];
    forall i | 0 <= i < |db| && SelectsFact(row, the, of, value, db[i]) ensures i in at + [n] {
      if i < n {
        assert front[i] == db[i];
      }
    }
    forall k | 0 <= k < |at| ensures db[at[k]] == front[at[k]] {
      assert at[k] < n;
    }
  }

  lemma {:induction false} NoMoreSelected(db: seq<Fact>, the: Term, of: Term, value: Term, row: Row, at: seq<nat>,
          rows: seq<Row>)
    requires db != [] && OneByOne(db[..|db| - 1], the, of, value, row, at, rows)
    requires !SelectsFact(row, the, of, value, db[|db| - 1])
    ensures OneByOne(db, the, of, value, row, at, rows)
  {
    hide SelectsFact, Fits;
    var n, front := |db| - 1, db[..|db| - 1];
    forall i | 0 <= i < |db| && SelectsFact(row, the, of, value, db[i]) ensures i in at {
      assert front[i] == db[i];
    }
    forall k | 0 <= k < |at| ensures db[at[k]] == front[at[k]] {
      assert at[k] < n;
    }
  }

  /** Where in the store the facts are that make a scan hold in this row. */
  function Places(db: seq<Fact>, the: Term, of: Term, value: Term, r: Row): set<nat> {
    set i: nat | i < |db| && TakesFact(r, the, of, value, db[i])
  }

  lemma {:induction false} PlaceIs(db: seq<Fact>, the: Term, of: Term, value: Term, r: Row, i: nat)
    ensures i in Places(db, the, of, value, r) <==> i < |db| && TakesFact(r, the, of, value, db[i])
  {
    hide TakesFact;
  }

  lemma {:induction false} OneMorePlace(db: seq<Fact>, the: Term, of: Term, value: Term, r: Row)
    requires db != []
    ensures var n := |db| - 1;
            |Places(db, the, of, value, r)| ==
            |Places(db[..n], the, of, value, r)| + if TakesFact(r, the, of, value, db[n]) then 1 else 0
  {
    hide TakesFact, Places;
    var n: nat := |db| - 1;
    var all, front := Places(db, the, of, value, r), Places(db[..n], the, of, value, r);
    var last := if TakesFact(r, the, of, value, db[n]) then {n} else {};
    forall i: nat ensures i in all <==> i in front + last {
      PlaceIs(db, the, of, value, r, i);
      PlaceIs(db[..n], the, of, value, r, i);
    }
    PlaceIs(db[..n], the, of, value, r, n);
    assert all == front + last;
  }

  lemma {:induction false} ExtensionCount(row: Row, the: Term, of: Term, value: Term, f: Fact, r: Row)
    requires Unrepeated(row, the, of, value)
    ensures !Extension(row, the, of, value, f).broken
    ensures multiset(Extension(row, the, of, value, f).rows)[r] == if Fits(row, the, of, value, f, r) then 1 else 0
  {
    hide SelectsFact, Merge, Fits, Unrepeated;
    ExtensionFits(row, the, of, value, f);
  }

  lemma {:induction false} ExtensionsCount(db: seq<Fact>, the: Term, of: Term, value: Term, row: Row, r: Row)
    requires Unrepeated(row, the, of, value)
    ensures !Extensions(db, the, of, value, row).broken
    ensures multiset(Extensions(db, the, of, value, row).rows)[r] ==
            if Adds(row, NameOf(the) + NameOf(of) + NameOf(value), r) then |Places(db, the, of, value, r)| else 0
  {
    hide Unrepeated, Extension, Adds, TakesFact, Places;
    if db == [] {
      NoPlaces(the, of, value, r);
    } else {
      var n := |db| - 1;
      ExtensionsCount(db[..n], the, of, value, row, r);
      ExtensionCount(row, the, of, value, db[n], r);
      OneMorePlace(db, the, of, value, r);
    }
  }

  lemma {:induction false} NoPlaces(the: Term, of: Term, value: Term, r: Row)
    ensures Places([], the, of, value, r) == {}
  {
  }

  /** A scan yields a row as often as there are facts that make it hold there. */
  lemma {:induction false} ScanCounts(db: seq<Fact>, the: Term, of: Term, value: Term, row: Row, r: Row)
    requires Unrepeated(row, the, of, value)
    requires !(Lookup(row, the).None? && Lookup(row, of).None? && Lookup(row, value).None?)
    ensures !ScanRow(db, the, of, value, row).broken
    ensures multiset(ScanRow(db, the, of, value, row).rows)[r] ==
            if Adds(row, NameOf(the) + NameOf(of) + NameOf(value), r) then |Places(db, the, of, value, r)| else 0
  {
    hide Unrepeated, Extensions, Adds, TakesFact;
    ExtensionsCount(db, the, of, value, row, r);
    if Blocked(row, the) || Blocked(row, of) || Blocked(row, value) {
      forall f ensures !Fits(row, the, of, value, f, r) {
        AbsentNeverFits(row, the, of, value, f, r);
      }
      if Adds(row, NameOf(the) + NameOf(of) + NameOf(value), r) {
        assert forall i :: 0 <= i < |db| ==> !Fits(row, the, of, value, db[i], r);
        assert Places(db, the, of, value, r) == {};
      }
    }
  }

  // ---- One premise

  /** The facts a premise can be satisfied by in this row. */
  function PlacesOf(db: seq<Fact>, p: Premise, r: Row): set<nat> {
    match p
    case When(Scan(the, of, value)) => Places(db, the, of, value, r)
    case When(LeftJoin(the, of, value)) => Places(db, the, of, value, r)
    case _ => {}
  }

  /** In how many ways a premise holds in this row: once for each fact that satisfies it, and once where it holds
      without one. */
  ghost function Ways(db: seq<Fact>, p: Premise, r: Row): nat {
    if !Holds(db, p, r) then 0
    else if PlacesOf(db, p, r) == {} then 1
    else |PlacesOf(db, p, r)|
  }

  lemma {:induction false} WaysIsHolds(db: seq<Fact>, p: Premise, r: Row)
    ensures Ways(db, p, r) > 0 <==> Holds(db, p, r)
  {
  }

  lemma {:induction false} CountOne(rows: seq<Row>, r: Row)
    requires |rows| <= 1 && r in rows
    ensures multiset(rows)[r] == 1
  {
    assert rows == [r];
  }

  lemma {:induction false} EqualOnce(left: Term, right: Term, row: Row)
    ensures |EqualRow(left, right, row).rows| <= 1
  {
  }

  /** A left join yields what its scan does, or at most one row where the scan has none to offer. */
  lemma {:induction false} LeftJoinOnce(db: seq<Fact>, the: Term, of: Term, value: Term, row: Row)
    requires IsPresent(row, of)
    ensures var out, found := LeftJoinRow(db, the, of, value, row), ScanRow(db, the, of, value, row);
            out.rows == found.rows || (|out.rows| <= 1 && found.rows == [])
  {
    hide Extensions;
  }

  lemma {:induction false} ScanHolds(db: seq<Fact>, the: Term, of: Term, value: Term, r: Row)
    ensures HoldsScan(db, the, of, value, r) <==> Places(db, the, of, value, r) != {}
  {
    if f :| f in db && TakesFact(r, the, of, value, f) {
      var i :| 0 <= i < |db| && db[i] == f;
      assert i in Places(db, the, of, value, r);
    }
    if i :| i in Places(db, the, of, value, r) {
      assert db[i] in db;
    }
  }

  lemma {:induction false} LeftJoinCounts(db: seq<Fact>, the: Term, of: Term, value: Term, row: Row,
          absentable: set<Name>, r: Row)
    requires Ready(ShapeOf(When(LeftJoin(the, of, value))), row.Keys) && LeftJoinPosed(the, of, value, absentable)
    requires Within(row, absentable) && r in LeftJoinRow(db, the, of, value, row).rows
    requires Adds(row, VarsOf(LeftJoin(the, of, value)), r) && HoldsLeftJoin(db, the, of, value, r)
    ensures multiset(LeftJoinRow(db, the, of, value, row).rows)[r] == Ways(db, When(LeftJoin(the, of, value)), r)
  {
    hide Ready, ShapeOf, LeftJoinRow, ScanRow, LeftJoinPosed, Within, Places, HoldsLeftJoin, Adds, Blocked;
    PosedClaims(the, of, value, row, absentable);
    assert Unrepeated(row, the, of, value);
    ScanCounts(db, the, of, value, row, r);
    LeftJoinOnce(db, the, of, value, row);
    var out, found := LeftJoinRow(db, the, of, value, row), ScanRow(db, the, of, value, row);
    if out.rows == found.rows {
      assert multiset(found.rows)[r] > 0;
    } else {
      CountOne(out.rows, r);
    }
  }

  /** A feasible well-posed premise yields a row once for each way in which it holds there. */
  lemma {:induction false} PremiseCounts(db: seq<Fact>, p: Premise, row: Row, absentable: set<Name>, r: Row)
    requires Ready(ShapeOf(p), row.Keys) && WellPosed(p, absentable) && Within(row, absentable)
    ensures multiset(PremiseRow(db, p, row).rows)[r] ==
            if Adds(row, Gives(ShapeOf(p)), r) then Ways(db, p, r) else 0
  {
    hide Ready, ShapeOf, Gives, Within, Adds, ScanRow, LeftJoinRow, EqualRow, HoldsProposition, Places;
    hide ScanPosed, LeftJoinPosed, Settled, SettledBound;
    PremiseIsJoin(db, p, row, absentable);
    GivesVars(p);
    var rows := PremiseRow(db, p, row).rows;
    if r in rows {
      assert Joins(db, p, row, r);
      match p {
        case When(Scan(the, of, value)) =>
          KnownScanCounts(db, the, of, value, row, r);
        case When(LeftJoin(the, of, value)) =>
          assert HoldsProposition(db, p.proposition, r);
          LeftJoinHolds(db, the, of, value, r);
          LeftJoinCounts(db, the, of, value, row, absentable, r);
        case When(Equal(left, right)) =>
          EqualOnce(left, right, row);
          CountOne(rows, r);
        case Unless(_) =>
          CountOne(rows, r);
      }
    }
  }

  lemma {:induction false} LeftJoinHolds(db: seq<Fact>, the: Term, of: Term, value: Term, r: Row)
    ensures HoldsProposition(db, LeftJoin(the, of, value), r) <==> HoldsLeftJoin(db, the, of, value, r)
  {
    hide HoldsLeftJoin;
  }

  lemma {:induction false} KnownScanCounts(db: seq<Fact>, the: Term, of: Term, value: Term, row: Row, r: Row)
    requires Ready(ShapeOf(When(Scan(the, of, value))), row.Keys) && ScanPosed(the, of, value)
    requires Adds(row, VarsOf(Scan(the, of, value)), r) && HoldsProposition(db, Scan(the, of, value), r)
    ensures multiset(ScanRow(db, the, of, value, row).rows)[r] == Ways(db, When(Scan(the, of, value)), r)
  {
    hide Ready, ShapeOf, ScanRow, Adds, Places, Lookup, TakesFact;
    ReadyScan(the, of, value, row.Keys);
    RepeatsAreBound(the, of, value, row);
    KnownIsLookup(row, the);
    KnownIsLookup(row, of);
    KnownIsLookup(row, value);
    ScanCounts(db, the, of, value, row, r);
    ScanHolds(db, the, of, value, r);
  }

  // ---- One step

  lemma {:induction false} EachSums(f: Row -> Stream, rows: seq<Row>, target: Row, ways: nat, r: Row)
    requires forall row :: row in rows ==> !f(row).broken
    requires forall row :: row in rows ==> multiset(f(row).rows)[r] == if row == target then ways else 0
    ensures !Each(f, rows).broken && multiset(Each(f, rows).rows)[r] == multiset(rows)[target] * ways
  {
    if rows != [] {
      var front, last := rows[..|rows| - 1], rows[|rows| - 1];
      assert last in rows && forall row :: row in front ==> row in rows;
      EachSums(f, front, target, ways, r);
      EachAppends(f, rows, r);
      CountLast(rows, target);
      var n := multiset(front)[target];
      if last == target {
        Distributes(n, ways);
      }
    }
  }

  lemma {:induction false} EachAppends(f: Row -> Stream, rows: seq<Row>, r: Row)
    requires rows != [] && !Each(f, rows[..|rows| - 1]).broken && !f(rows[|rows| - 1]).broken
    ensures var front, last := Each(f, rows[..|rows| - 1]), f(rows[|rows| - 1]);
            !Each(f, rows).broken && multiset(Each(f, rows).rows)[r] == multiset(front.rows)[r] + multiset(last.rows)[r]
  {
  }

  lemma {:induction false} CountLast(rows: seq<Row>, target: Row)
    requires rows != []
    ensures multiset(rows)[target] ==
            multiset(rows[..|rows| - 1])[target] + if rows[|rows| - 1] == target then 1 else 0
  {
    assert rows == rows[..|rows| - 1] + [rows[|rows| - 1]];
  }

  lemma Distributes(n: nat, ways: nat)
    ensures (n + 1) * ways == n * ways + ways
  {
  }

  /** A step yields a row once for each time its restriction came in and each way in which the premise holds. */
  lemma {:induction false} StepCounts(db: seq<Fact>, p: Premise, scope: set<Name>, input: Stream,
          absentable: set<Name>, r: Row)
    requires Ready(ShapeOf(p), scope) && WellPosed(p, absentable) && Fed(input, scope, absentable)
    ensures multiset(StepRows(db, p, input).rows)[r] ==
            if r.Keys == scope + Gives(ShapeOf(p)) then multiset(input.rows)[Restrict(r, scope)] * Ways(db, p, r) else 0
  {
    hide Ready, WellPosed, Within, PremiseRow, Ways, Gives, ShapeOf, Adds, Each, Restrict;
    var f := (row: Row) => PremiseRow(db, p, row);
    var fits := r.Keys == scope + Gives(ShapeOf(p));
    var ways := if fits then Ways(db, p, r) else 0;
    forall row | row in input.rows
      ensures !f(row).broken && multiset(f(row).rows)[r] == if row == Restrict(r, scope) then ways else 0
    {
      PremiseIsJoin(db, p, row, absentable);
      PremiseCounts(db, p, row, absentable, r);
      AddsIsRestrict(row, Gives(ShapeOf(p)), r);
    }
    EachSums(f, input.rows, Restrict(r, scope), ways, r);
    StepIsEach(db, p, input);
  }

  lemma {:induction false} StepIsEach(db: seq<Fact>, p: Premise, input: Stream)
    requires !input.broken
    ensures StepRows(db, p, input).rows == Each(row => PremiseRow(db, p, row), input.rows).rows
  {
    hide Each, PremiseRow;
  }

  // ---- Whole bodies

  /** In how many ways all premises hold in this row. */
  ghost function WaysAll(db: seq<Fact>, premises: seq<Premise>, r: Row): nat {
    if premises == [] then 1 else Ways(db, premises[0], r) * WaysAll(db, premises[1..], r)
  }

  /** How often a body calls for a row: once for each input row it extends and each way of satisfying all premises. */
  ghost function Times(db: seq<Fact>, premises: seq<Premise>, scope: set<Name>, rows: seq<Row>, r: Row): nat {
    if r.Keys == After(ShapeOf, scope, premises) then multiset(rows)[Restrict(r, scope)] * WaysAll(db, premises, r)
    else 0
  }

  lemma {:induction false} WaysAllIsHold(db: seq<Fact>, premises: seq<Premise>, r: Row)
    ensures WaysAll(db, premises, r) > 0 <==> forall p :: p in premises ==> Holds(db, p, r)
  {
    hide Ways, Holds;
    if premises != [] {
      WaysIsHolds(db, premises[0], r);
      WaysAllIsHold(db, premises[1..], r);
      assert forall p :: p in premises <==> p == premises[0] || p in premises[1..];
      Positive(Ways(db, premises[0], r), WaysAll(db, premises[1..], r));
    }
  }

  lemma Positive(m: nat, n: nat)
    ensures m * n > 0 <==> m > 0 && n > 0
  {
  }

  /** A row is called for exactly when it is called for at least once. */
  lemma {:induction false} TimesIsAnswers(db: seq<Fact>, premises: seq<Premise>, scope: set<Name>, rows: seq<Row>,
          r: Row)
    ensures Times(db, premises, scope, rows, r) > 0 <==> Answers(db, premises, scope, rows, r)
  {
    hide WaysAll, Holds, After, Restrict;
    WaysAllIsHold(db, premises, r);
    Positive(multiset(rows)[Restrict(r, scope)], WaysAll(db, premises, r));
  }

  lemma {:induction false} WaysLocal(db: seq<Fact>, p: Premise, r: Row, names: set<Name>)
    requires VarsOf(p.proposition) <= names
    ensures Ways(db, p, r) == Ways(db, p, Restrict(r, names))
  {
    hide Restrict, HoldsProposition, Takes;
    HoldsLocal(db, p.proposition, r, names);
    var small := Restrict(r, names);
    match p {
      case When(Scan(the, of, value)) => PlacesLocal(db, the, of, value, r, names);
      case When(LeftJoin(the, of, value)) => PlacesLocal(db, the, of, value, r, names);
      case _ =>
    }
  }

  lemma {:induction false} PlacesLocal(db: seq<Fact>, the: Term, of: Term, value: Term, r: Row, names: set<Name>)
    requires NameOf(the) + NameOf(of) + NameOf(value) <= names
    ensures Places(db, the, of, value, r) == Places(db, the, of, value, Restrict(r, names))
  {
    hide Restrict, Takes;
    forall i: nat | i < |db|
      ensures TakesFact(r, the, of, value, db[i]) <==> TakesFact(Restrict(r, names), the, of, value, db[i])
    {
      TakesLocal(r, names, the, Present(db[i].the));
      TakesLocal(r, names, of, Present(db[i].of));
      TakesLocal(r, names, value, Present(db[i].value));
    }
  }

  lemma Associates(a: nat, b: nat, c: nat)
    ensures a * b * c == a * (b * c)
  {
  }

  /** Running a feasible order of well-posed premises yields every row as often as the body calls for it. */
  lemma {:induction false} RunCounts(db: seq<Fact>, order: seq<Premise>, scope: set<Name>, input: Stream,
          absentable: set<Name>, r: Row)
    requires Runs(ShapeOf, scope, order) && Fed(input, scope, absentable)
    requires forall p :: p in order ==> WellPosed(p, absentable)
    ensures multiset(Run(db, order, input).rows)[r] == Times(db, order, scope, input.rows, r)
    decreases |order|
  {
    hide Ready, WellPosed, Gives, ShapeOf, StepRows, Fed, Ways, Restrict;
    if order == [] {
      WholeRow(r, scope);
      KeysOfFed(input, scope, absentable);
    } else {
      var p := order[0];
      var wider, mid := scope + Gives(ShapeOf(p)), StepRows(db, p, input);
      assert p in order && forall q :: q in order[1..] ==> q in order;
      StepMeans(db, p, scope, input, absentable);
      RunCounts(db, order[1..], wider, mid, absentable, r);
      if r.Keys == After(ShapeOf, wider, order[1..]) {
        RestrictTwice(r, scope, wider);
        StepCounts(db, p, scope, input, absentable, Restrict(r, wider));
        OwnNames(p, scope);
        WaysLocal(db, p, r, wider);
        Associates(multiset(input.rows)[Restrict(r, scope)], Ways(db, p, r), WaysAll(db, order[1..], r));
      }
    }
  }

  lemma {:induction false} KeysOfFed(input: Stream, scope: set<Name>, absentable: set<Name>)
    requires Fed(input, scope, absentable)
    ensures forall row :: row in input.rows ==> row.Keys == scope
  {
  }

  lemma {:induction false} OwnNames(p: Premise, scope: set<Name>)
    requires Ready(ShapeOf(p), scope)
    ensures VarsOf(p.proposition) <= scope + Gives(ShapeOf(p))
  {
    hide Ready, ShapeOf, Gives, VarsOf;
    GivesVars(p);
    if p.Unless? {
      ReadyUnless(p.proposition, scope);
    }
  }

  // ---- In any order, narrowed or not

  lemma {:induction false} WaysWithout(db: seq<Fact>, premises: seq<Premise>, i: nat, r: Row)
    requires i < |premises|
    ensures WaysAll(db, premises, r) == Ways(db, premises[i], r) * WaysAll(db, Removed(premises, i), r)
    decreases |premises|
  {
    hide Ways;
    if i == 0 {
      assert Removed(premises, i) == premises[1..];
    } else {
      var first, rest := Ways(db, premises[0], r), premises[1..];
      WaysWithout(db, rest, i - 1, r);
      assert Removed(premises, i) == [premises[0]] + Removed(rest, i - 1);
      assert Removed(premises, i)[1..] == Removed(rest, i - 1);
      Swaps(first, Ways(db, premises[i], r), WaysAll(db, Removed(rest, i - 1), r));
    }
  }

  lemma Swaps(a: nat, b: nat, c: nat)
    ensures a * (b * c) == b * (a * c)
  {
    Associates(a, b, c);
    Associates(b, a, c);
  }

  lemma {:induction false} WaysAnyOrder(db: seq<Fact>, a: seq<Premise>, b: seq<Premise>, r: Row)
    requires multiset(a) == multiset(b)
    ensures WaysAll(db, a, r) == WaysAll(db, b, r)
    decreases |a|
  {
    hide Ways;
    if a == [] {
      assert |multiset(a)| == |multiset(b)|;
    } else {
      assert a[0] in multiset(b);
      var i :| 0 <= i < |b| && b[i] == a[0];
      RemovedOne(b, i);
      assert a == [a[0]] + a[1..];
      assert multiset(a[1..]) == multiset(a) - multiset{a[0]} == multiset(Removed(b, i));
      WaysAnyOrder(db, a[1..], Removed(b, i), r);
      WaysWithout(db, b, i, r);
    }
  }

  lemma {:induction false} NarrowOneWays(db: seq<Fact>, p: Premise, present: set<Name>, r: Row)
    requires forall n :: n in present ==> n in r && r[n].Present?
    ensures Ways(db, NarrowOne(p, present), r) == Ways(db, p, r)
  {
    hide Holds, Takes;
    NarrowOneHolds(db, p, present, r);
    match p {
      case When(Scan(the, of, value)) => StampedPlaces(db, the, of, value, present, r);
      case When(LeftJoin(the, of, value)) =>
        if value.Var? && value.name in present {
          DemotedWays(db, the, of, value, r);
        }
      case _ =>
    }
  }

  lemma {:induction false} StampedPlaces(db: seq<Fact>, the: Term, of: Term, value: Term, present: set<Name>, r: Row)
    ensures Places(db, Stamp(the, present), Stamp(of, present), Stamp(value, present), r) ==
            Places(db, the, of, value, r)
  {
    hide Takes, Stamp;
    forall i: nat | i < |db|
      ensures TakesFact(r, Stamp(the, present), Stamp(of, present), Stamp(value, present), db[i]) <==>
              TakesFact(r, the, of, value, db[i])
    {
      StampTakes(r, the, present, Present(db[i].the));
      StampTakes(r, of, present, Present(db[i].of));
      StampTakes(r, value, present, Present(db[i].value));
    }
  }

  lemma {:induction false} DemotedWays(db: seq<Fact>, the: Term, of: Term, value: Term, r: Row)
    requires value.Var? && value.name in r && r[value.name].Present?
    ensures Ways(db, When(Scan(the, of, Var(value.name, false))), r) == Ways(db, When(LeftJoin(the, of, value)), r)
  {
    var scan := Var(value.name, false);
    forall b ensures Takes(r, scan, b) <==> Takes(r, value, b) {
    }
    assert Places(db, the, of, scan, r) == Places(db, the, of, value, r);
    DemotedHolds(db, the, of, value, r);
    ScanHolds(db, the, of, scan, r);
  }

  lemma {:induction false} NarrowWays(db: seq<Fact>, premises: seq<Premise>, present: set<Name>, r: Row)
    requires forall n :: n in present ==> n in r && r[n].Present?
    ensures WaysAll(db, Narrow(premises, present), r) == WaysAll(db, premises, r)
    decreases |premises|
  {
    hide Ways, NarrowOne;
    if premises != [] {
      assert Narrow(premises, present)[0] == NarrowOne(premises[0], present);
      assert Narrow(premises, present)[1..] == Narrow(premises[1..], present);
      NarrowOneWays(db, premises[0], present, r);
      NarrowWays(db, premises[1..], present, r);
    }
  }

  /** Narrowing changes no count. */
  lemma {:induction false} NarrowingKeepsTimes(db: seq<Fact>, premises: seq<Premise>, scope: set<Name>,
          rows: seq<Row>, r: Row)
    ensures Times(db, Narrowed(premises), scope, rows, r) == Times(db, premises, scope, rows, r)
  {
    hide WaysAll, After, Restrict, Answers, Holds, DemandedBy, Times;
    TimesIsAnswers(db, premises, scope, rows, r);
    TimesIsAnswers(db, Narrowed(premises), scope, rows, r);
    NarrowingKeepsAnswers(db, premises, scope, rows, r);
    if Answers(db, premises, scope, rows, r) {
      AnswersHold(db, premises, scope, rows, r);
      forall n | n in Demanded(premises) ensures n in r && r[n].Present? {
        var p :| p in premises && n in DemandedBy(p);
        DemandedIsPresent(db, p, {}, n, r);
      }
      NarrowedTimes(db, premises, scope, rows, r);
    }
  }

  lemma {:induction false} AnswersHold(db: seq<Fact>, premises: seq<Premise>, scope: set<Name>, rows: seq<Row>, r: Row)
    requires Answers(db, premises, scope, rows, r)
    ensures forall p :: p in premises ==> Holds(db, p, r)
  {
    hide Holds;
  }

  lemma {:induction false} NarrowedTimes(db: seq<Fact>, premises: seq<Premise>, scope: set<Name>, rows: seq<Row>,
          r: Row)
    requires forall n :: n in Demanded(premises) ==> n in r && r[n].Present?
    ensures Times(db, Narrowed(premises), scope, rows, r) == Times(db, premises, scope, rows, r)
  {
    hide WaysAll, After, Restrict, Demanded;
    NarrowedIs(premises);
    NarrowWays(db, premises, Demanded(premises), r);
    NarrowedBinds(premises, Demanded(premises), scope);
  }

  /** Every complete feasible order of the narrowed form of a posed body yields every row exactly as often as the
      authored body calls for it, so any two orders yield the same rows equally often. */
  lemma {:induction false} OrdersCount(db: seq<Fact>, premises: seq<Premise>, scope: set<Name>, input: Stream,
          arriving: set<Name>, a: seq<Premise>, b: seq<Premise>)
    requires Ordering(ShapeOf, scope, Narrowed(premises), a) && Ordering(ShapeOf, scope, Narrowed(premises), b)
    requires Fed(input, scope, arriving) && Posed(Narrowed(premises), arriving)
    ensures forall r :: multiset(Run(db, a, input).rows)[r] == Times(db, premises, scope, input.rows, r)
    ensures multiset(Run(db, a, input).rows) == multiset(Run(db, b, input).rows)
  {
    hide *;
    forall r
      ensures multiset(Run(db, a, input).rows)[r] == Times(db, premises, scope, input.rows, r)
      ensures multiset(Run(db, b, input).rows)[r] == Times(db, premises, scope, input.rows, r)
    {
      OrderCounts(db, premises, scope, input, arriving, a, r);
      OrderCounts(db, premises, scope, input, arriving, b, r);
    }
  }

  lemma {:induction false} OrderCounts(db: seq<Fact>, premises: seq<Premise>, scope: set<Name>, input: Stream,
          arriving: set<Name>, order: seq<Premise>, r: Row)
    requires Ordering(ShapeOf, scope, Narrowed(premises), order)
    requires Fed(input, scope, arriving) && Posed(Narrowed(premises), arriving)
    ensures multiset(Run(db, order, input).rows)[r] == Times(db, premises, scope, input.rows, r)
  {
    hide Run, Runs, Fed, Narrowed, Posed, WellPosed, WaysAll, After, Restrict, Absentable;
    var narrowed := Narrowed(premises);
    var absentable := Absentable(narrowed, arriving);
    ArrivingIsAbsentable(narrowed, arriving);
    FedGrows(input, scope, arriving, absentable);
    PosedMeans(narrowed, arriving);
    SameElements(order, narrowed);
    RunCounts(db, order, scope, input, absentable, r);
    BindsAnyOrder(ShapeOf, scope, narrowed, order);
    WaysAnyOrder(db, order, narrowed, r);
    NarrowingKeepsTimes(db, premises, scope, input.rows, r);
  }

  // ---- Bodies of scans

  predicate Satisfies(db: seq<Fact>, premises: seq<Premise>, r: Row, tuple: seq<nat>) {
    && |tuple| == |premises|
    && forall k :: 0 <= k < |tuple| ==> tuple[k] in PlacesOf(db, premises[k], r)
  }

  /** The choices of one fact for each premise that make all of them hold in this row. */
  ghost function Tuples(db: seq<Fact>, premises: seq<Premise>, r: Row): set<seq<nat>> {
    if premises == [] then {[]}
    else Paired(PlacesOf(db, premises[0], r), Tuples(db, premises[1..], r))
  }

  function Prefixed(i: nat, tuples: set<seq<nat>>): set<seq<nat>> {
    set t | t in tuples :: [i] + t
  }

  function Paired(firsts: set<nat>, tuples: set<seq<nat>>): set<seq<nat>> {
    set i, t | i in firsts && t in tuples :: [i] + t
  }

  lemma {:induction false} PrefixedIs(i: nat, tuples: set<seq<nat>>, s: seq<nat>)
    ensures s in Prefixed(i, tuples) <==> s != [] && s[0] == i && s[1..] in tuples
  {
    if s != [] && s[0] == i && s[1..] in tuples {
      assert s == [i] + s[1..];
    }
    if t :| t in tuples && s == [i] + t {
      assert s[1..] == t;
    }
  }

  lemma {:induction false} PairedIs(firsts: set<nat>, tuples: set<seq<nat>>, s: seq<nat>)
    ensures s in Paired(firsts, tuples) <==> s != [] && s[0] in firsts && s[1..] in tuples
  {
    if s != [] && s[0] in firsts && s[1..] in tuples {
      assert s == [s[0]] + s[1..];
    }
    if i, t :| i in firsts && t in tuples && s == [i] + t {
      assert s[1..] == t;
    }
  }

  lemma {:induction false} TuplesSatisfy(db: seq<Fact>, premises: seq<Premise>, r: Row, tuple: seq<nat>)
    ensures tuple in Tuples(db, premises, r) <==> Satisfies(db, premises, r, tuple)
    decreases |premises|
  {
    hide PlacesOf, Paired;
    if premises != [] {
      PairedIs(PlacesOf(db, premises[0], r), Tuples(db, premises[1..], r), tuple);
      if tuple != [] {
        TuplesSatisfy(db, premises[1..], r, tuple[1..]);
        assert forall k :: 1 <= k < |tuple| ==> tuple[k] == tuple[1..][k - 1];
        assert |tuple| == |premises| ==> forall k :: 1 <= k < |tuple| ==> premises[k] == premises[1..][k - 1];
        assert forall k :: 0 <= k < |tuple[1..]| ==> tuple[1..][k] == tuple[k + 1];
      }
    }
  }

  lemma {:induction false} PrefixedSize(i: nat, tuples: set<seq<nat>>)
    ensures |Prefixed(i, tuples)| == |tuples|
  {
    hide Prefixed;
    if tuples == {} {
      forall s ensures s !in Prefixed(i, tuples) {
        PrefixedIs(i, tuples, s);
      }
      assert Prefixed(i, tuples) == {};
    } else {
      var t :| t in tuples;
      var rest, first := tuples - {t}, [i] + t;
      assert first[1..] == t;
      PrefixedSize(i, rest);
      forall s ensures s in Prefixed(i, tuples) <==> s in Prefixed(i, rest) + {first} {
        PrefixedIs(i, tuples, s);
        PrefixedIs(i, rest, s);
        assert s != [] && s[0] == i && s[1..] == t ==> s == first;
      }
      PrefixedIs(i, rest, first);
      assert Prefixed(i, tuples) == Prefixed(i, rest) + {first};
    }
  }

  lemma {:induction false} PairedSize(firsts: set<nat>, tuples: set<seq<nat>>)
    ensures |Paired(firsts, tuples)| == |firsts| * |tuples|
  {
    hide Paired, Prefixed;
    if firsts == {} {
      forall s ensures s !in Paired(firsts, tuples) {
        PairedIs(firsts, tuples, s);
      }
      assert Paired(firsts, tuples) == {};
    } else {
      var i :| i in firsts;
      var rest := firsts - {i};
      PairedSize(rest, tuples);
      PrefixedSize(i, tuples);
      forall s
        ensures s in Paired(firsts, tuples) <==> s in Paired(rest, tuples) + Prefixed(i, tuples)
        ensures !(s in Paired(rest, tuples) && s in Prefixed(i, tuples))
      {
        PairedIs(firsts, tuples, s);
        PairedIs(rest, tuples, s);
        PrefixedIs(i, tuples, s);
      }
      assert Paired(firsts, tuples) == Paired(rest, tuples) + Prefixed(i, tuples);
      Distributes(|rest|, |tuples|);
    }
  }

  /** A body of scans calls for a row once per choice of facts that produces it, for each input row it extends. */
  lemma {:induction false} ScansCountTuples(db: seq<Fact>, premises: seq<Premise>, scope: set<Name>, rows: seq<Row>,
          r: Row)
    requires forall p :: p in premises ==> p.When? && p.proposition.Scan?
    ensures WaysAll(db, premises, r) == |Tuples(db, premises, r)|
    ensures r.Keys == After(ShapeOf, scope, premises) ==>
            Times(db, premises, scope, rows, r) == multiset(rows)[Restrict(r, scope)] * |Tuples(db, premises, r)|
    decreases |premises|
  {
    hide After, Restrict, Places, Paired;
    if premises != [] {
      var p := premises[0];
      assert p in premises && forall q :: q in premises[1..] ==> q in premises;
      ScansCountTuples(db, premises[1..], scope, rows, r);
      ScanHolds(db, p.proposition.the, p.proposition.of, p.proposition.value, r);
      PairedSize(PlacesOf(db, p, r), Tuples(db, premises[1..], r));
    }
  }
}
