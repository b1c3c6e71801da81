/**
 * What the rows of a run may lack although the plan counts on it, and which names every run
 * of a body delivers all the same.
 */
module Operands {
  import opened Environments
  import opened Planner
  import opened Query
  import opened Meaning
  import opened Orders
  import opened Exactness
  import opened Narrowing

  /** Names that may be absent, and names that the plan counts as bound and a row may not hold. */
  datatype Gaps = Gaps(absent: set<Name>, missing: set<Name>)

  predicate Covers(larger: Gaps, g: Gaps) {
    g.absent <= larger.absent && g.missing <= larger.missing
  }

  /** A row where the plan counts these names as bound. */
  predicate Arrives(row: Row, env: set<Name>, g: Gaps) {
    Within(row, g.absent) && row.Keys <= env <= row.Keys + g.missing
  }

  predicate HasValue(row: Row, n: Name) {
    n in row && row[n].Present?
  }

  /** On every row that may arrive, the step yields only rows that may arrive at the next one. */
  ghost predicate Keeps(p: Premise, g: Gaps) {
    forall db, row, env, r ::
      Ready(ShapeOf(p), env) && Arrives(row, env, g) && r in PremiseRow(db, p, row).rows ==>
      Arrives(r, env + Gives(ShapeOf(p)), g)
  }

  /** On every row that may arrive, the step yields only rows in which the name has a value. */
  ghost predicate Delivers(p: Premise, n: Name, g: Gaps) {
    forall db, row, env, r ::
      Ready(ShapeOf(p), env) && Arrives(row, env, g) && r in PremiseRow(db, p, row).rows ==> HasValue(r, n)
  }

  // ---- The same, read off the premise

  /** An optional lookup may find its value absent; an equality carries an absence into a term that admits it. */
  function NewlyAbsent(p: Premise, g: Gaps): set<Name> {
    match p
    case When(LeftJoin(the, of, value)) =>
      if of.Wildcard? then {}
      else if NameOf(value) <= g.missing then NameOf(value) - NameOf(of)
      else Widened(the, of, value)
    case When(Equal(left, right)) =>
      (if MayBeAbsent(left, g.absent) && AllowsAbsence(right) then NameOf(right) else {}) +
      (if MayBeAbsent(right, g.absent) && AllowsAbsence(left) then NameOf(left) else {})
    case _ => {}
  }

  /** An optional lookup of a value that is absent, or may be, leaves an open attribute open. */
  function NewlyMissing(p: Premise, g: Gaps): set<Name> {
    match p
    case When(LeftJoin(the, of, value)) =>
      if !of.Wildcard? && value.Var? && value.name !in NameOf(of) + NameOf(the) && value.name in g.absent + g.missing
      then NameOf(the) - NameOf(of)
      else {}
    case _ => {}
  }

  predicate Closed(p: Premise, g: Gaps) {
    NewlyAbsent(p, g) <= g.absent && NewlyMissing(p, g) <= g.missing
  }

  /** An equality that yields no row with an absent name on its one side. */
  predicate FixesSide(side: Term, other: Term, g: Gaps) {
    && !(MayBeAbsent(side, g.absent) && (MayBeAbsent(other, g.absent) || AllowsAbsence(other)))
    && !(AllowsAbsence(side) && MayBeAbsent(other, g.absent))
  }

  predicate FixesLookup(the: Term, of: Term, value: Term, n: Name, g: Gaps) {
    var gaps := g.absent + g.missing;
    || of.Wildcard? || n in NameOf(of) || PinnedBy(of, value)
    || (n !in gaps && if n in NameOf(the) then NameOf(value) - {n} !! gaps else the.Wildcard?)
  }

  /** The premise gives this name of its own a value. */
  predicate Fixes(p: Premise, n: Name, g: Gaps) {
    match p
    case When(Scan(the, of, value)) => n in VarsOf(p.proposition)
    case When(LeftJoin(the, of, value)) => n in VarsOf(p.proposition) && FixesLookup(the, of, value, n, g)
    case When(Equal(left, right)) =>
      && n in VarsOf(p.proposition)
      && (n in NameOf(left) ==> FixesSide(left, right, g)) && (n in NameOf(right) ==> FixesSide(right, left, g))
    case Unless(_) => false
  }

  // ---- What a step can yield

  lemma {:induction false} BindYields(row: Row, t: Term, b: Binding)
    requires Bind(row, t, b).Some?
    ensures Adds(row, NameOf(t), Bind(row, t, b).value)
    ensures forall n :: n in NameOf(t) ==> Bind(row, t, b).value[n] == b
  {
  }

  lemma {:induction false} MergeYields(row: Row, the: Term, of: Term, value: Term, f: Fact)
    requires Merge(row, the, of, value, f).Some?
    ensures var r := Merge(row, the, of, value, f).value;
            && Adds(row, NameOf(the) + NameOf(of) + NameOf(value), r)
            && forall n :: n in NameOf(the) + NameOf(of) + NameOf(value) ==> r[n].Present?
  {
    hide Bind, NameOf;
    var first := Bind(row, the, Present(f.the));
    BindYields(row, the, Present(f.the));
    var second := Bind(first.value, of, Present(f.of));
    BindYields(first.value, of, Present(f.of));
    BindYields(second.value, value, Present(f.value));
  }

  lemma {:induction false} ExtensionsYield(db: seq<Fact>, the: Term, of: Term, value: Term, row: Row, r: Row)
    requires r in Extensions(db, the, of, value, row).rows
    ensures Adds(row, NameOf(the) + NameOf(of) + NameOf(value), r)
    ensures forall n :: n in NameOf(the) + NameOf(of) + NameOf(value) ==> r[n].Present?
  {
    hide Merge, SelectsFact, Adds;
    var front, last := db[..|db| - 1], db[|db| - 1];
    if r in Extensions(front, the, of, value, row).rows {
      ExtensionsYield(front, the, of, value, row, r);
    } else {
      MergeYields(row, the, of, value, last);
    }
  }

  lemma {:induction false} ScanYields(db: seq<Fact>, the: Term, of: Term, value: Term, row: Row, r: Row)
    requires r in ScanRow(db, the, of, value, row).rows
    ensures Adds(row, NameOf(the) + NameOf(of) + NameOf(value), r)
    ensures forall n :: n in NameOf(the) + NameOf(of) + NameOf(value) ==> r[n].Present?
  {
    hide Extensions;
    ExtensionsYield(db, the, of, value, row, r);
  }

  /** Rows of the scan, the row itself where it claims the value absent, or the row with the value made absent. */
  lemma {:induction false} LeftJoinYields(db: seq<Fact>, the: Term, of: Term, value: Term, row: Row, r: Row)
    requires r in LeftJoinRow(db, the, of, value, row).rows
    ensures IsPresent(row, of)
    ensures || r in ScanRow(db, the, of, value, row).rows
            || (r == row && Blocked(row, value))
            || (r == row && value.Wildcard?)
            || (value.Var? && value.name !in row && r == row[value.name := Absent])
  {
    hide ScanRow;
  }

  lemma {:induction false} EqualBinds(left: Term, right: Term, row: Row, r: Row)
    requires r in EqualRow(left, right, row).rows
    ensures Adds(row, NameOf(left) + NameOf(right), r)
    ensures EqualRow(left, right, row) == EqualRow(right, left, row)
  {
  }

  /** Where a side is absent it was so and met another absence, or the other side's absence was carried into it. */
  lemma {:induction false} EqualAbsent(left: Term, right: Term, row: Row, r: Row)
    requires r in EqualRow(left, right, row).rows && left.Var? && left.name in r && r[left.name].Absent?
    ensures || (Blocked(row, left) && (Blocked(row, right) || AllowsAbsence(right)))
            || (left.name !in row && AllowsAbsence(left) && Blocked(row, right))
  {
  }

  /** A step only ever extends a row, by names of its own. */
  lemma {:induction false} StepExtends(db: seq<Fact>, p: Premise, row: Row, r: Row)
    requires r in PremiseRow(db, p, row).rows
    ensures Extends(r, row) && r.Keys <= row.Keys + VarsOf(p.proposition)
  {
    hide ScanRow, LeftJoinRow, EqualRow;
    match p {
      case When(Scan(the, of, value)) => ScanYields(db, the, of, value, row, r);
      case When(LeftJoin(the, of, value)) =>
        LeftJoinYields(db, the, of, value, row, r);
        if r in ScanRow(db, the, of, value, row).rows {
          ScanYields(db, the, of, value, row, r);
        }
      case When(Equal(left, right)) => EqualBinds(left, right, row, r);
      case Unless(_) =>
    }
  }

  // ---- Closed steps keep the gaps, and only they do

  lemma {:induction false} AddsPresent(row: Row, env: set<Name>, names: set<Name>, r: Row, g: Gaps)
    requires Arrives(row, env, g) && Adds(row, names, r) && forall n :: n in names && n !in row ==> r[n].Present?
    ensures Arrives(r, env + names, g)
  {
  }

  lemma {:induction false} LookupKeeps(db: seq<Fact>, the: Term, of: Term, value: Term, row: Row, env: set<Name>,
          r: Row, g: Gaps)
    requires Ready(ShapeOf(When(LeftJoin(the, of, value))), env) && Arrives(row, env, g)
    requires Closed(When(LeftJoin(the, of, value)), g) && r in LeftJoinRow(db, the, of, value, row).rows
    ensures Arrives(r, env + VarsOf(LeftJoin(the, of, value)), g)
  {
    hide Ready, ShapeOf, LeftJoinRow, ScanRow;
    LeftJoinYields(db, the, of, value, row, r);
    assert !of.Wildcard? && NameOf(of) <= row.Keys;
    ReadyLeftJoin(the, of, value, env);
    if r in ScanRow(db, the, of, value, row).rows {
      ScanYields(db, the, of, value, row, r);
      AddsPresent(row, env, VarsOf(LeftJoin(the, of, value)), r, g);
    } else if the.Var? && the.name !in r {
      assert the.name in g.missing;
    }
  }

  lemma {:induction false} EqualKeeps(left: Term, right: Term, row: Row, env: set<Name>, r: Row, g: Gaps)
    requires Arrives(row, env, g) && Closed(When(Equal(left, right)), g) && r in EqualRow(left, right, row).rows
    ensures Arrives(r, env + VarsOf(Equal(left, right)), g)
  {
    hide EqualRow;
    EqualBinds(left, right, row, r);
    if left.Var? && r[left.name].Absent? {
      EqualAbsent(left, right, row, r);
    }
    if right.Var? && r[right.name].Absent? {
      EqualAbsent(right, left, row, r);
    }
  }

  lemma {:induction false} ClosedKeeps(db: seq<Fact>, p: Premise, row: Row, env: set<Name>, r: Row, g: Gaps)
    requires Ready(ShapeOf(p), env) && Arrives(row, env, g) && Closed(p, g) && r in PremiseRow(db, p, row).rows
    ensures Arrives(r, env + Gives(ShapeOf(p)), g)
  {
    hide Ready, ShapeOf, Gives, LeftJoinRow, ScanRow, EqualRow, Arrives, Closed, Adds;
    GivesVars(p);
    match p {
      case When(Scan(the, of, value)) =>
        ScanYields(db, the, of, value, row, r);
        AddsPresent(row, env, VarsOf(p.proposition), r, g);
      case When(LeftJoin(the, of, value)) => LookupKeeps(db, the, of, value, row, env, r, g);
      case When(Equal(left, right)) => EqualKeeps(left, right, row, env, r, g);
      case Unless(_) => assert env + {} == env;
    }
  }

  /** What an optional lookup does at a known entity on a store without facts. */
  lemma {:induction false} EmptyLookup(the: Term, of: Term, value: Term, row: Row)
    requires IsPresent(row, of) && !IsPresent(row, value)
    ensures LeftJoinRow([], the, of, value, row) == One(if value.Var? then row[value.name := Absent] else row)
  {
    assert Blocked(row, value) ==> row[value.name := Absent] == row;
  }

  lemma {:induction false} Breaks(p: Premise, g: Gaps, row: Row, env: set<Name>, r: Row)
    requires Ready(ShapeOf(p), env) && Arrives(row, env, g) && r in PremiseRow([], p, row).rows
    requires !Arrives(r, env + Gives(ShapeOf(p)), g)
    ensures !Keeps(p, g)
  {
  }

  /** The names an optional lookup may lack: its entity is bound, its value is not, its attribute if there is another.
      */
  function SampleLookup(the: Term, of: Term, value: Term): Row {
    SampleRow(NameOf(the) + NameOf(of) - (NameOf(value) - NameOf(of)), {})
  }

  lemma {:induction false} AbsentEscapes(the: Term, of: Term, value: Term, g: Gaps)
    requires !(NewlyAbsent(When(LeftJoin(the, of, value)), g) <= g.absent)
    ensures !Keeps(When(LeftJoin(the, of, value)), g)
  {
    hide Keeps, Ready, Gives, ShapeOf, LeftJoinRow;
    var p, row := When(LeftJoin(the, of, value)), SampleLookup(the, of, value);
    var env := row.Keys + (NameOf(value) * g.missing);
    EmptyLookup(the, of, value, row);
    KnownLeftJoinIsReady(the, of, value, env);
    var r := row[value.name := Absent];
    assert r[value.name].Absent? && value.name !in g.absent;
    Breaks(p, g, row, env, r);
  }

  lemma {:induction false} MissingEscapes(the: Term, of: Term, value: Term, g: Gaps)
    requires !(NewlyMissing(When(LeftJoin(the, of, value)), g) <= g.missing)
    ensures !Keeps(When(LeftJoin(the, of, value)), g)
  {
    hide Keeps, Ready, Gives, ShapeOf, LeftJoinRow;
    var p := When(LeftJoin(the, of, value));
    var row := SampleRow(NameOf(of) + (NameOf(value) * g.absent), NameOf(value));
    var env := row.Keys + NameOf(value);
    EmptyLookup(the, of, value, row);
    KnownLeftJoinIsReady(the, of, value, env);
    var r := row[value.name := Absent];
    GivesVars(p);
    assert the.name !in r && the.name !in g.missing && the.name in Gives(ShapeOf(p));
    Breaks(p, g, row, env, r);
  }

  lemma {:induction false} CarryEscapes(left: Term, right: Term, g: Gaps)
    requires MayBeAbsent(left, g.absent) && AllowsAbsence(right) && !(NameOf(right) <= g.absent)
    ensures !Keeps(When(Equal(left, right)), g) && !Keeps(When(Equal(right, left)), g)
  {
    hide Keeps, Ready, Gives, ShapeOf;
    var row: Row := map[left.name := Absent];
    var r := row[right.name := Absent];
    KnownEqualIsReady(left, right, row.Keys);
    KnownEqualIsReady(right, left, row.Keys);
    assert r[right.name].Absent?;
    Breaks(When(Equal(left, right)), g, row, row.Keys, r);
    Breaks(When(Equal(right, left)), g, row, row.Keys, r);
  }

  lemma {:induction false} ClosedIsExact(p: Premise, g: Gaps)
    ensures Keeps(p, g) <==> Closed(p, g)
  {
    hide Ready, Gives, ShapeOf, PremiseRow, Arrives, Widened;
    if Closed(p, g) {
      forall db, row, env, r |
        Ready(ShapeOf(p), env) && Arrives(row, env, g) && r in PremiseRow(db, p, row).rows
        ensures Arrives(r, env + Gives(ShapeOf(p)), g)
      {
        ClosedKeeps(db, p, row, env, r, g);
      }
    } else {
      hide Keeps;
      match p {
        case When(LeftJoin(the, of, value)) =>
          if !(NewlyAbsent(p, g) <= g.absent) {
            AbsentEscapes(the, of, value, g);
          } else {
            MissingEscapes(the, of, value, g);
          }
        case When(Equal(left, right)) =>
          if MayBeAbsent(left, g.absent) && AllowsAbsence(right) && !(NameOf(right) <= g.absent) {
            CarryEscapes(left, right, g);
          } else {
            CarryEscapes(right, left, g);
          }
        case _ =>
      }
    }
  }

  // ---- Fixing a name is delivering it

  lemma {:induction false} LookupDelivers(db: seq<Fact>, the: Term, of: Term, value: Term, n: Name, row: Row,
          env: set<Name>, r: Row, g: Gaps)
    requires Ready(ShapeOf(When(LeftJoin(the, of, value))), env) && Arrives(row, env, g)
    requires n in VarsOf(LeftJoin(the, of, value)) && FixesLookup(the, of, value, n, g)
    requires r in LeftJoinRow(db, the, of, value, row).rows
    ensures HasValue(r, n)
  {
    hide Ready, ShapeOf, LeftJoinRow, ScanRow;
    LeftJoinYields(db, the, of, value, row, r);
    assert !of.Wildcard? && NameOf(of) <= row.Keys;
    ReadyLeftJoin(the, of, value, env);
    if r in ScanRow(db, the, of, value, row).rows {
      ScanYields(db, the, of, value, row, r);
    }
  }

  lemma {:induction false} EqualDelivers(left: Term, right: Term, n: Name, row: Row, r: Row, g: Gaps)
    requires Within(row, g.absent) && Fixes(When(Equal(left, right)), n, g) && r in EqualRow(left, right, row).rows
    ensures HasValue(r, n)
  {
    hide EqualRow;
    EqualBinds(left, right, row, r);
    if r[n].Absent? {
      if n in NameOf(left) {
        EqualAbsent(left, right, row, r);
      } else {
        EqualAbsent(right, left, row, r);
      }
    }
  }

  lemma {:induction false} FixesDelivers(db: seq<Fact>, p: Premise, n: Name, row: Row, env: set<Name>, r: Row, g: Gaps)
    requires Ready(ShapeOf(p), env) && Arrives(row, env, g) && Fixes(p, n, g) && r in PremiseRow(db, p, row).rows
    ensures HasValue(r, n)
  {
    hide Ready, ShapeOf, LeftJoinRow, ScanRow, EqualRow, FixesLookup, FixesSide;
    match p {
      case When(Scan(the, of, value)) => ScanYields(db, the, of, value, row, r);
      case When(LeftJoin(the, of, value)) => LookupDelivers(db, the, of, value, n, row, env, r, g);
      case When(Equal(left, right)) => EqualDelivers(left, right, n, row, r, g);
    }
  }

  lemma {:induction false} Loses(p: Premise, n: Name, g: Gaps, row: Row, env: set<Name>, r: Row)
    requires Ready(ShapeOf(p), env) && Arrives(row, env, g) && r in PremiseRow([], p, row).rows && !HasValue(r, n)
    ensures !Delivers(p, n, g)
  {
  }

  lemma {:induction false} EqualLoses(side: Term, other: Term, g: Gaps)
    requires side.Var? && !FixesSide(side, other, g)
    ensures !Delivers(When(Equal(side, other)), side.name, g) && !Delivers(When(Equal(other, side)), side.name, g)
  {
    hide Delivers, Ready, ShapeOf;
    var names := (NameOf(side) + NameOf(other)) * g.absent;
    var row := SampleRow(names, names);
    KnownEqualIsReady(side, other, row.Keys);
    KnownEqualIsReady(other, side, row.Keys);
    var with := row[side.name := Absent];
    var r := if other.Var? then with[other.name := Absent] else with;
    assert (side.name in row ==> with == row) && (other.Var? && other.name in row ==> r == with);
    assert EqualRow(side, other, row) == One(r) && EqualRow(other, side, row) == One(r);
    Loses(When(Equal(side, other)), side.name, g, row, row.Keys, r);
    Loses(When(Equal(other, side)), side.name, g, row, row.Keys, r);
  }

  lemma {:induction false} LookupLoses(the: Term, of: Term, value: Term, n: Name, g: Gaps)
    requires n in VarsOf(LeftJoin(the, of, value)) && !FixesLookup(the, of, value, n, g)
    ensures !Delivers(When(LeftJoin(the, of, value)), n, g)
  {
    hide Delivers, Ready, ShapeOf, LeftJoinRow;
    var p := When(LeftJoin(the, of, value));
    var own := NameOf(the) + NameOf(value) - NameOf(of);
    var absent := own * g.absent;
    var present := NameOf(of) + (if n in NameOf(the) then {} else NameOf(the) - NameOf(value)) - absent;
    var row := SampleRow(present + absent, absent);
    var env := row.Keys + (own * g.missing);
    assert !IsPresent(row, value);
    if Known(the, env) || Known(value, env) {
      KnownLeftJoinIsReady(the, of, value, env);
    } else {
      AllBoundIsReady(p, env);
    }
    EmptyLookup(the, of, value, row);
    var r := if value.Var? then row[value.name := Absent] else row;
    Loses(p, n, g, row, env, r);
  }

  /** A premise delivers a name of its own on every row that may arrive exactly when it fixes it. */
  lemma {:induction false} FixesIsExact(p: Premise, n: Name, g: Gaps)
    requires p.When? && n in VarsOf(p.proposition)
    ensures Delivers(p, n, g) <==> Fixes(p, n, g)
  {
    hide Ready, ShapeOf, PremiseRow, Arrives, FixesLookup, FixesSide, HasValue;
    if Fixes(p, n, g) {
      forall db, row, env, r |
        Ready(ShapeOf(p), env) && Arrives(row, env, g) && r in PremiseRow(db, p, row).rows
        ensures HasValue(r, n)
      {
        FixesDelivers(db, p, n, row, env, r, g);
      }
    } else {
      hide Delivers;
      match p {
        case When(LeftJoin(the, of, value)) => LookupLoses(the, of, value, n, g);
        case When(Equal(left, right)) =>
          if n in NameOf(left) && !FixesSide(left, right, g) {
            EqualLoses(left, right, g);
          } else {
            EqualLoses(right, left, g);
          }
      }
    }
  }

  // ---- Whole bodies

  predicate AllClosed(premises: seq<Premise>, g: Gaps) {
    forall p :: p in premises ==> Closed(p, g)
  }

  function Wider(premises: seq<Premise>, g: Gaps): Gaps {
    Gaps(g.absent + set p, n | p in premises && n in NewlyAbsent(p, g) :: n,
         g.missing + set p, n | p in premises && n in NewlyMissing(p, g) :: n)
  }

  /** The least gaps beyond these that every step keeps. */
  function Settle(premises: seq<Premise>, g: Gaps): (r: Gaps)
    ensures Covers(r, g) && Wider(premises, r) == r
    decreases AllNames(premises) - g.absent, AllNames(premises) - g.missing
  {
    var wider := Wider(premises, g);
    if wider == g then g else
      assert
        || AllNames(premises) - wider.absent < AllNames(premises) - g.absent
        || (wider.absent == g.absent && AllNames(premises) - wider.missing < AllNames(premises) - g.missing)
      by {
        WiderShrinks(premises, g);
      }
      Settle(premises, wider)
  }

  lemma {:induction false} NewNames(p: Premise, g: Gaps)
    ensures NewlyAbsent(p, g) + NewlyMissing(p, g) <= VarsOf(p.proposition)
  {
  }

  lemma {:induction false} WiderShrinks(premises: seq<Premise>, g: Gaps)
    requires Wider(premises, g) != g
    ensures var wider := Wider(premises, g);
            || AllNames(premises) - wider.absent < AllNames(premises) - g.absent
            || (wider.absent == g.absent && AllNames(premises) - wider.missing < AllNames(premises) - g.missing)
  {
    hide NewlyAbsent, NewlyMissing, VarsOf;
    var wider := Wider(premises, g);
    forall p | p in premises ensures NewlyAbsent(p, g) + NewlyMissing(p, g) <= AllNames(premises) {
      NewNames(p, g);
    }
    if wider.absent != g.absent {
      var n :| n in wider.absent && n !in g.absent;
      assert n in AllNames(premises) - g.absent && n !in AllNames(premises) - wider.absent;
    } else {
      var n :| n in wider.missing && n !in g.missing;
      assert n in AllNames(premises) - g.missing && n !in AllNames(premises) - wider.missing;
    }
  }

  lemma {:induction false} NewlyGrows(p: Premise, g: Gaps, larger: Gaps)
    requires Covers(larger, g)
    ensures NewlyAbsent(p, g) <= NewlyAbsent(p, larger) && NewlyMissing(p, g) <= NewlyMissing(p, larger)
  {
  }

  lemma {:induction false} SettledIsClosed(premises: seq<Premise>, g: Gaps)
    ensures Wider(premises, g) == g <==> AllClosed(premises, g)
  {
    hide NewlyAbsent, NewlyMissing;
    if Wider(premises, g) == g {
      forall p | p in premises ensures Closed(p, g) {
        assert NewlyAbsent(p, g) <= Wider(premises, g).absent && NewlyMissing(p, g) <= Wider(premises, g).missing;
      }
    }
  }

  lemma {:induction false} SettleIsLeast(premises: seq<Premise>, g: Gaps, closed: Gaps)
    requires Covers(closed, g) && AllClosed(premises, closed)
    ensures Covers(closed, Settle(premises, g))
    decreases AllNames(premises) - g.absent, AllNames(premises) - g.missing
  {
    hide NewlyAbsent, NewlyMissing;
    var wider := Wider(premises, g);
    if wider != g {
      forall p | p in premises ensures NewlyAbsent(p, g) <= closed.absent && NewlyMissing(p, g) <= closed.missing {
        NewlyGrows(p, g, closed);
        assert Closed(p, closed);
      }
      assert Covers(closed, wider);
      WiderShrinks(premises, g);
      SettleIsLeast(premises, wider, closed);
    }
  }

  /** What the rows of a run of this body may lack, if these names may be absent on arrival. */
  function GapsOf(premises: seq<Premise>, arriving: set<Name>): Gaps {
    Settle(premises, Gaps(arriving, {}))
  }

  /** Some premise fixes the name, whatever the rows lack. */
  predicate Secured(premises: seq<Premise>, arriving: set<Name>, n: Name) {
    exists p :: p in premises && Fixes(p, n, GapsOf(premises, arriving))
  }

  lemma {:induction false} FixesShrinks(p: Premise, n: Name, g: Gaps, fewer: Gaps)
    requires Covers(g, fewer) && Fixes(p, n, g)
    ensures Fixes(p, n, fewer)
  {
  }

  lemma {:induction false} SecuredIsWeakest(premises: seq<Premise>, arriving: set<Name>, g: Gaps, p: Premise, n: Name)
    requires arriving <= g.absent && AllClosed(premises, g) && p in premises && Fixes(p, n, g)
    ensures Secured(premises, arriving, n)
  {
    hide AllClosed, Fixes, Settle;
    SettleIsLeast(premises, Gaps(arriving, {}), g);
    FixesShrinks(p, n, g, GapsOf(premises, arriving));
  }

  /** A name is secured exactly when some gaps are kept by every step and some premise delivers it across them. */
  lemma {:induction false} SecuredIsExact(premises: seq<Premise>, arriving: set<Name>, n: Name)
    ensures Secured(premises, arriving, n) <==>
            exists g: Gaps, p ::
              && arriving <= g.absent && (forall q :: q in premises ==> Keeps(q, g))
              && p in premises && p.When? && n in VarsOf(p.proposition) && Delivers(p, n, g)
  {
    hide Keeps, Delivers, Closed, Settle;
    if Secured(premises, arriving, n) {
      var g := GapsOf(premises, arriving);
      var p :| p in premises && Fixes(p, n, g);
      SettledIsClosed(premises, g);
      forall q | q in premises ensures Keeps(q, g) {
        ClosedIsExact(q, g);
      }
      FixesIsExact(p, n, g);
    }
    if g: Gaps, p :|
      && arriving <= g.absent && (forall q :: q in premises ==> Keeps(q, g))
      && p in premises && p.When? && n in VarsOf(p.proposition) && Delivers(p, n, g)
    {
      forall q | q in premises ensures Closed(q, g) {
        ClosedIsExact(q, g);
      }
      FixesIsExact(p, n, g);
      SecuredIsWeakest(premises, arriving, g, p, n);
    }
  }

  // ---- Runs

  lemma {:induction false} EachFrom(f: Row -> Stream, rows: seq<Row>, r: Row)
    requires r in Each(f, rows).rows
    ensures exists row :: row in rows && r in f(row).rows
  {
    var front, last := rows[..|rows| - 1], rows[|rows| - 1];
    if r in Each(f, front).rows {
      EachFrom(f, front, r);
    } else {
      assert last in rows && r in f(last).rows;
    }
  }

  lemma {:induction false} StepFrom(db: seq<Fact>, p: Premise, input: Stream, r: Row) returns (row: Row)
    requires r in StepRows(db, p, input).rows
    ensures row in input.rows && r in PremiseRow(db, p, row).rows
  {
    hide PremiseRow;
    var f := (row: Row) => PremiseRow(db, p, row);
    assert r in Each(f, input.rows).rows;
    EachFrom(f, input.rows, r);
    row :| row in input.rows && r in f(row).rows;
  }

  ghost predicate AllArrive(input: Stream, env: set<Name>, g: Gaps) {
    forall row :: row in input.rows ==> Arrives(row, env, g)
  }

  ghost predicate AllHave(input: Stream, n: Name) {
    forall row :: row in input.rows ==> HasValue(row, n)
  }

  lemma {:induction false} StepArrives(db: seq<Fact>, p: Premise, input: Stream, env: set<Name>, g: Gaps, n: Name)
    requires Ready(ShapeOf(p), env) && AllArrive(input, env, g) && Closed(p, g)
    ensures AllArrive(StepRows(db, p, input), env + Gives(ShapeOf(p)), g)
    ensures AllHave(input, n) || Fixes(p, n, g) ==> AllHave(StepRows(db, p, input), n)
  {
    hide Ready, ShapeOf, Gives, Arrives, Closed, Fixes, StepRows, PremiseRow;
    forall r | r in StepRows(db, p, input).rows
      ensures Arrives(r, env + Gives(ShapeOf(p)), g)
      ensures AllHave(input, n) || Fixes(p, n, g) ==> HasValue(r, n)
    {
      var row := StepFrom(db, p, input, r);
      ClosedKeeps(db, p, row, env, r, g);
      StepExtends(db, p, row, r);
      if Fixes(p, n, g) {
        FixesDelivers(db, p, n, row, env, r, g);
      }
    }
  }

  lemma {:induction false} RunArrives(db: seq<Fact>, order: seq<Premise>, input: Stream, env: set<Name>, g: Gaps,
          n: Name)
    requires Runs(ShapeOf, env, order) && AllArrive(input, env, g) && AllClosed(order, g)
    ensures AllArrive(Run(db, order, input), After(ShapeOf, env, order), g)
    ensures AllHave(input, n) || (exists p :: p in order && Fixes(p, n, g)) ==> AllHave(Run(db, order, input), n)
    decreases |order|
  {
    hide Ready, ShapeOf, Gives, Closed, Fixes, StepRows, AllArrive, AllHave;
    if order != [] {
      assert order[0] in order && forall p :: p in order <==> p == order[0] || p in order[1..];
      StepArrives(db, order[0], input, env, g, n);
      RunArrives(db, order[1..], StepRows(db, order[0], input), env + Gives(ShapeOf(order[0])), g, n);
    }
  }

  /** Every feasible order of every body, posed or not, gives a secured name a value in every row it yields; and what
      its rows lack of the plan's names is missable. */
  lemma {:induction false} SecuredIsDelivered(db: seq<Fact>, premises: seq<Premise>, scope: set<Name>, input: Stream,
          arriving: set<Name>, order: seq<Premise>, r: Row, n: Name)
    requires Fed(input, scope, arriving) && Ordering(ShapeOf, scope, premises, order) && r in Run(db, order, input).rows
    ensures Secured(premises, arriving, n) ==> HasValue(r, n)
    ensures Arrives(r, After(ShapeOf, scope, premises), GapsOf(premises, arriving))
  {
    hide Run, Runs, Settle, Fixes, Closed, After;
    var g := GapsOf(premises, arriving);
    SettledIsClosed(premises, g);
    SameElements(order, premises);
    BindsAnyOrder(ShapeOf, scope, premises, order);
    assert AllArrive(input, scope, g);
    RunArrives(db, order, input, scope, g, n);
  }

  lemma {:induction false} ExtendsTwice(a: Row, b: Row, c: Row)
    requires Extends(a, b) && Extends(b, c)
    ensures Extends(a, c)
  {
  }

  lemma {:induction false} RunExtends(db: seq<Fact>, order: seq<Premise>, input: Stream, r: Row) returns (row: Row)
    requires r in Run(db, order, input).rows
    ensures row in input.rows && Extends(r, row)
    decreases |order|
  {
    hide StepRows, PremiseRow;
    if order == [] {
      row := r;
    } else {
      var mid := RunExtends(db, order[1..], StepRows(db, order[0], input), r);
      row := StepFrom(db, order[0], input, mid);
      StepExtends(db, order[0], row, mid);
      ExtendsTwice(r, mid, row);
    }
  }

  /** A row that a run yields has passed every premise. */
  lemma {:induction false} RunPasses(db: seq<Fact>, order: seq<Premise>, input: Stream, r: Row, p: Premise)
    returns (row: Row, mid: Row)
    requires r in Run(db, order, input).rows && p in order
    ensures mid in PremiseRow(db, p, row).rows && Extends(r, mid)
    decreases |order|
  {
    hide StepRows, PremiseRow, Extends;
    var next := StepRows(db, order[0], input);
    if p == order[0] {
      mid := RunExtends(db, order[1..], next, r);
      row := StepFrom(db, p, input, mid);
    } else {
      row, mid := RunPasses(db, order[1..], next, r, p);
    }
  }
}
