/**
 * What premises mean as relations over rows, and that evaluating a premise is a join
 * with its relation.
 */
module Meaning {
  import opened Options
  import opened Environments
  import opened Query

  // ---- The relational meaning

  /** In this row the term stands for this binding. */
  predicate Takes(row: Row, t: Term, b: Binding) {
    match t
    case Const(v) => b == Present(v)
    case Var(n, _) => n in row && row[n] == b
    case Wildcard(_) => true
  }

  predicate TakesFact(row: Row, the: Term, of: Term, value: Term, f: Fact) {
    Takes(row, the, Present(f.the)) && Takes(row, of, Present(f.of)) && Takes(row, value, Present(f.value))
  }

  ghost predicate HoldsScan(db: seq<Fact>, the: Term, of: Term, value: Term, row: Row) {
    exists f :: f in db && TakesFact(row, the, of, value, f)
  }

  /** No fact has the attribute and the entity that the row names. */
  ghost predicate Unmatched(db: seq<Fact>, the: Term, of: Term, row: Row) {
    forall f :: f in db ==> !(Takes(row, the, Present(f.the)) && Takes(row, of, Present(f.of)))
  }

  /** Attribute and entity have values; a fact as for the scan, or an absent value where no fact matches. */
  ghost predicate HoldsLeftJoin(db: seq<Fact>, the: Term, of: Term, value: Term, row: Row) {
    && (exists a :: Takes(row, the, Present(a))) && (exists e :: Takes(row, of, Present(e)))
    && (HoldsScan(db, the, of, value, row) || (Takes(row, value, Absent) && Unmatched(db, the, of, row)))
  }

  /** Equal values; two absences are equal when both terms admit absence. */
  ghost predicate HoldsEqual(left: Term, right: Term, row: Row) {
    exists b :: Takes(row, left, b) && Takes(row, right, b) &&
      (b.Absent? ==> AllowsAbsence(left) && AllowsAbsence(right))
  }

  ghost predicate HoldsProposition(db: seq<Fact>, p: Proposition, row: Row) {
    match p
    case Scan(the, of, value) => HoldsScan(db, the, of, value, row)
    case LeftJoin(the, of, value) => HoldsLeftJoin(db, the, of, value, row)
    case Equal(left, right) => HoldsEqual(left, right, row)
  }

  ghost predicate Holds(db: seq<Fact>, p: Premise, row: Row) {
    match p
    case When(q) => HoldsProposition(db, q, row)
    case Unless(q) => !HoldsProposition(db, q, row)
  }

  // ---- Joins

  function NameOf(t: Term): set<Name> {
    if t.Var? then {t.name} else {}
  }

  function VarsOf(p: Proposition): set<Name> {
    match p
    case Scan(the, of, value) => NameOf(the) + NameOf(of) + NameOf(value)
    case LeftJoin(the, of, value) => NameOf(the) + NameOf(of) + NameOf(value)
    case Equal(left, right) => NameOf(left) + NameOf(right)
  }

  predicate Extends(larger: Row, row: Row) {
    row.Keys <= larger.Keys && forall n :: n in row ==> larger[n] == row[n]
  }

  /** `r` is the row with values for exactly these further names. */
  predicate Adds(row: Row, names: set<Name>, r: Row) {
    Extends(r, row) && r.Keys == row.Keys + names
  }

  ghost predicate JoinsProposition(db: seq<Fact>, p: Proposition, row: Row, r: Row) {
    Adds(row, VarsOf(p), r) && HoldsProposition(db, p, r)
  }

  /** A stream without error that yields exactly the joined rows. */
  ghost predicate IsJoin(db: seq<Fact>, p: Proposition, row: Row, out: Stream) {
    !out.broken && forall r :: r in out.rows <==> JoinsProposition(db, p, row, r)
  }

  // ---- The scan is a join

  /** No name that is still to be bound occurs twice. */
  predicate Unrepeated(row: Row, the: Term, of: Term, value: Term) {
    && (NameOf(the) * NameOf(of) <= row.Keys) && (NameOf(the) * NameOf(value) <= row.Keys)
    && (NameOf(of) * NameOf(value) <= row.Keys)
  }

  ghost predicate Fits(row: Row, the: Term, of: Term, value: Term, f: Fact, r: Row) {
    Adds(row, NameOf(the) + NameOf(of) + NameOf(value), r) && TakesFact(r, the, of, value, f)
  }

  lemma {:induction false} BindAdds(row: Row, t: Term, b: Binding)
    requires Lookup(row, t).None? || Lookup(row, t) == Some(b)
    ensures Bind(row, t, b).Some? && Adds(row, NameOf(t), Bind(row, t, b).value) && Takes(Bind(row, t, b).value, t, b)
  {
  }

  lemma {:induction false} MergeFits(row: Row, the: Term, of: Term, value: Term, f: Fact)
    requires SelectsFact(row, the, of, value, f) && Unrepeated(row, the, of, value)
    ensures Merge(row, the, of, value, f).Some? && Fits(row, the, of, value, f, Merge(row, the, of, value, f).value)
  {
    hide Bind, Adds, Takes, Lookup, NameOf;
    var a, e, v := Present(f.the), Present(f.of), Present(f.value);
    BindAdds(row, the, a);
    var first := Bind(row, the, a).value;
    StillSelects(row, first, the, of, f.of);
    BindAdds(first, of, e);
    var second := Bind(first, of, e).value;
    StillSelects(row, first, the, value, f.value);
    AddsKeys(row, NameOf(the), first);
    StillSelects(first, second, of, value, f.value);
    BindAdds(second, value, v);
    var third := Bind(second, value, v).value;
    AddsMore(row, NameOf(the), first, NameOf(of), second);
    AddsMore(row, NameOf(the) + NameOf(of), second, NameOf(value), third);
    StillTakes(first, the, a, NameOf(of), second);
    StillTakes(second, the, a, NameOf(value), third);
    StillTakes(second, of, e, NameOf(value), third);
  }

  lemma {:induction false} AddsKeys(row: Row, names: set<Name>, r: Row)
    requires Adds(row, names, r)
    ensures row.Keys <= r.Keys
  {
  }

  lemma {:induction false} AddsMore(row: Row, names: set<Name>, r: Row, more: set<Name>, s: Row)
    requires Adds(row, names, r) && Adds(r, more, s)
    ensures Adds(row, names + more, s)
  {
  }

  lemma {:induction false} StillTakes(row: Row, t: Term, b: Binding, names: set<Name>, r: Row)
    requires Takes(row, t, b) && Adds(row, names, r)
    ensures Takes(r, t, b)
  {
  }

  lemma {:induction false} StillSelects(row: Row, r: Row, bound: Term, t: Term, v: Value)
    requires Selects(row, t, v) && Adds(row, NameOf(bound), r) && NameOf(bound) * NameOf(t) <= row.Keys
    ensures Selects(r, t, v)
  {
  }

  lemma {:induction false} FitsOnce(row: Row, the: Term, of: Term, value: Term, f: Fact, r: Row, s: Row)
    requires Fits(row, the, of, value, f, r)
    ensures SelectsFact(row, the, of, value, f)
    ensures Fits(row, the, of, value, f, s) ==> r == s
  {
    if Fits(row, the, of, value, f, s) {
      assert r.Keys == s.Keys;
      assert forall n :: n in r ==> r[n] == s[n];
    }
  }

  lemma {:induction false} ExtensionFits(row: Row, the: Term, of: Term, value: Term, f: Fact)
    requires Unrepeated(row, the, of, value)
    ensures !Extension(row, the, of, value, f).broken
    ensures forall r :: r in Extension(row, the, of, value, f).rows <==> Fits(row, the, of, value, f, r)
  {
    if SelectsFact(row, the, of, value, f) {
      MergeFits(row, the, of, value, f);
    }
    forall r | Fits(row, the, of, value, f, r) ensures r in Extension(row, the, of, value, f).rows {
      FitsOnce(row, the, of, value, f, r, r);
      FitsOnce(row, the, of, value, f, r, Merge(row, the, of, value, f).value);
    }
  }

  lemma {:induction false} ExtensionsFit(db: seq<Fact>, the: Term, of: Term, value: Term, row: Row)
    requires Unrepeated(row, the, of, value)
    ensures !Extensions(db, the, of, value, row).broken
    ensures forall r :: r in Extensions(db, the, of, value, row).rows <==>
            exists f :: f in db && Fits(row, the, of, value, f, r)
  {
    hide Extension, Fits, Unrepeated;
    if db != [] {
      var last, front := db[|db| - 1], db[..|db| - 1];
      ExtensionsFit(front, the, of, value, row);
      ExtensionFits(row, the, of, value, last);
      assert forall f :: f in db <==> f in front || f == last;
    }
  }

  lemma {:induction false} ScanIsJoin(db: seq<Fact>, the: Term, of: Term, value: Term, row: Row)
    requires Unrepeated(row, the, of, value)
    requires !(Lookup(row, the).None? && Lookup(row, of).None? && Lookup(row, value).None?)
    ensures IsJoin(db, Scan(the, of, value), row, ScanRow(db, the, of, value, row))
  {
    var out, p := ScanRow(db, the, of, value, row), Scan(the, of, value);
    ExtensionsFit(db, the, of, value, row);
    forall r ensures JoinsProposition(db, p, row, r) <==> exists f :: f in db && Fits(row, the, of, value, f, r) {
      if JoinsProposition(db, p, row, r) {
        var f :| f in db && TakesFact(r, the, of, value, f);
        assert Fits(row, the, of, value, f, r);
      }
    }
    if Blocked(row, the) || Blocked(row, of) || Blocked(row, value) {
      forall f, r ensures !Fits(row, the, of, value, f, r) {
        AbsentNeverFits(row, the, of, value, f, r);
      }
    }
  }

  lemma {:induction false} AbsentNeverFits(row: Row, the: Term, of: Term, value: Term, f: Fact, r: Row)
    requires Blocked(row, the) || Blocked(row, of) || Blocked(row, value)
    ensures !Fits(row, the, of, value, f, r)
  {
    if Fits(row, the, of, value, f, r) {
      FitsOnce(row, the, of, value, f, r, r);
    }
  }

  // ---- The left join is a join with the widened relation

  /** The relation of an optional attribute: its facts, and absence where it has none. */
  ghost predicate Related(db: seq<Fact>, attribute: Value, entity: Value, b: Binding) {
    match b
    case Present(v) => Fact(attribute, entity, v) in db
    case Absent => forall f :: f in db ==> f.the != attribute || f.of != entity
  }

  /** With attribute and entity known, the left join is membership in that relation. */
  lemma {:induction false} LeftJoinIsRelated(db: seq<Fact>, the: Term, a: Value, of: Term, e: Value, value: Term,
          r: Row)
    requires Lookup(r, the) == Some(Present(a)) && Lookup(r, of) == Some(Present(e))
    ensures HoldsLeftJoin(db, the, of, value, r) <==> exists b :: Related(db, a, e, b) && Takes(r, value, b)
  {
    assert Takes(r, the, Present(a)) && Takes(r, of, Present(e));
    if HoldsScan(db, the, of, value, r) {
      var f :| f in db && TakesFact(r, the, of, value, f);
      assert f == Fact(a, e, f.value);
      assert Related(db, a, e, Present(f.value)) && Takes(r, value, Present(f.value));
    }
    if Takes(r, value, Absent) && Unmatched(db, the, of, r) {
      assert Related(db, a, e, Absent);
    }
    if b :| Related(db, a, e, b) && Takes(r, value, b) {
      if b.Present? {
        assert TakesFact(r, the, of, value, Fact(a, e, b.value));
      }
    }
  }

  /** The term is decided by the row alone: extending the row does not change what it takes. */
  predicate Fixed(row: Row, t: Term) {
    NameOf(t) <= row.Keys
  }

  lemma {:induction false} FixedTakes(row: Row, names: set<Name>, r: Row, t: Term, b: Binding)
    requires Adds(row, names, r) && Fixed(row, t)
    ensures Takes(r, t, b) <==> Takes(row, t, b)
  {
  }

  lemma {:induction false} FixedUnmatched(db: seq<Fact>, the: Term, of: Term, row: Row, names: set<Name>, r: Row)
    requires Adds(row, names, r) && Fixed(row, the) && Fixed(row, of)
    ensures Unmatched(db, the, of, r) <==> Unmatched(db, the, of, row)
  {
    hide Takes, Adds, Fixed;
    forall f: Fact
        ensures (Takes(r, the, Present(f.the)) <==> Takes(row, the, Present(f.the))) &&
        (Takes(r, of, Present(f.of)) <==> Takes(row, of, Present(f.of))) {
      FixedTakes(row, names, r, the, Present(f.the));
      FixedTakes(row, names, r, of, Present(f.of));
    }
  }

  /** Before the value is bound, a scan at a known entity comes back empty exactly when no fact matches. */
  lemma {:induction false} EmptyScanIsAbsence(db: seq<Fact>, the: Term, of: Term, value: Term, row: Row)
    requires IsPresent(row, of) && Lookup(row, value).None? && Fixed(row, the)
    ensures !ScanRow(db, the, of, value, row).broken
    ensures ScanRow(db, the, of, value, row).rows == [] <==> Unmatched(db, the, of, row)
  {
    hide ScanRow, Extends;
    var out, p := ScanRow(db, the, of, value, row), Scan(the, of, value);
    ScanIsJoin(db, the, of, value, row);
    if out.rows != [] {
      var r := out.rows[0];
      assert r in out.rows && JoinsProposition(db, p, row, r);
      var f :| f in db && TakesFact(r, the, of, value, f);
      FixedTakes(row, VarsOf(p), r, the, Present(f.the));
      FixedTakes(row, VarsOf(p), r, of, Present(f.of));
    }
    if !Unmatched(db, the, of, row) {
      var f :| f in db && Takes(row, the, Present(f.the)) && Takes(row, of, Present(f.of));
      FactJoins(db, f, the, of, value, row);
    }
  }

  lemma {:induction false} FactJoins(db: seq<Fact>, f: Fact, the: Term, of: Term, value: Term, row: Row)
    requires f in db && Takes(row, the, Present(f.the)) && Takes(row, of, Present(f.of)) && Lookup(row, value).None?
    ensures exists r :: JoinsProposition(db, Scan(the, of, value), row, r)
  {
    hide Bind;
    BindAdds(row, value, Present(f.value));
    var r := Bind(row, value, Present(f.value)).value;
    StillTakes(row, the, Present(f.the), NameOf(value), r);
    StillTakes(row, of, Present(f.of), NameOf(value), r);
    assert TakesFact(r, the, of, value, f);
    assert JoinsProposition(db, Scan(the, of, value), row, r);
  }

  lemma {:induction false} PresentTakes(row: Row, t: Term, names: set<Name>, r: Row)
    requires IsPresent(row, t) && Adds(row, names, r)
    ensures (exists v :: Takes(r, t, Present(v))) && !Takes(r, t, Absent)
  {
    assert Takes(r, t, Present(Lookup(row, t).value.value));
  }

  lemma {:induction false} FixedHasValue(row: Row, t: Term, names: set<Name>, r: Row)
    requires Fixed(row, t) && !Blocked(row, t) && Adds(row, names, r)
    ensures exists v :: Takes(r, t, Present(v))
  {
    if t.Wildcard? {
      assert Takes(r, t, Present(""));
    } else {
      PresentTakes(row, t, names, r);
    }
  }

  lemma {:induction false} ConfirmIsJoin(db: seq<Fact>, the: Term, of: Term, value: Term, row: Row)
    requires IsPresent(row, of) && Blocked(row, value) && Fixed(row, the) && !Blocked(row, the)
    ensures IsJoin(db, LeftJoin(the, of, value), row, LeftJoinRow(db, the, of, value, row))
  {
    EmptyScanIsAbsence(db, the, of, Wildcard(false), row);
    PresentTakes(row, of, {}, row);
    FixedHasValue(row, the, {}, row);
    forall r ensures JoinsProposition(db, LeftJoin(the, of, value), row, r) <==>
        r == row && Unmatched(db, the, of, row) {
      if Adds(row, VarsOf(LeftJoin(the, of, value)), r) {
        assert r == row;
      }
    }
  }

  lemma {:induction false} WidenIsJoin(db: seq<Fact>, the: Term, of: Term, value: Term, row: Row)
    requires IsPresent(row, of) && Lookup(row, value).None? && Fixed(row, the) && !Blocked(row, the)
    ensures IsJoin(db, LeftJoin(the, of, value), row, LeftJoinRow(db, the, of, value, row))
  {
    hide ScanRow;
    var p, q := LeftJoin(the, of, value), Scan(the, of, value);
    var found, wide := ScanRow(db, the, of, value, row), Bind(row, value, Absent).value;
    EmptyScanIsAbsence(db, the, of, value, row);
    ScanIsJoin(db, the, of, value, row);
    BindAdds(row, value, Absent);
    forall r ensures JoinsProposition(db, p, row, r) <==>
                     JoinsProposition(db, q, row, r) || (r == wide && Unmatched(db, the, of, row)) {
      WidenedRow(db, the, of, value, row, r);
    }
  }

  lemma {:induction false} WidenedRow(db: seq<Fact>, the: Term, of: Term, value: Term, row: Row, r: Row)
    requires IsPresent(row, of) && Lookup(row, value).None? && Fixed(row, the) && !Blocked(row, the)
    ensures JoinsProposition(db, LeftJoin(the, of, value), row, r) <==>
            JoinsProposition(db, Scan(the, of, value), row, r) ||
            (r == Bind(row, value, Absent).value && Unmatched(db, the, of, row))
  {
    var names, wide := VarsOf(Scan(the, of, value)), Bind(row, value, Absent).value;
    BindAdds(row, value, Absent);
    assert Adds(row, names, wide);
    if Adds(row, names, r) {
      PresentTakes(row, of, names, r);
      FixedHasValue(row, the, names, r);
      FixedUnmatched(db, the, of, row, names, r);
      assert Takes(r, value, Absent) <==> r == wide;
    }
  }

  lemma {:induction false} PinnedIsJoin(db: seq<Fact>, the: Term, of: Term, value: Term, row: Row)
    requires IsPresent(row, of) && IsPresent(row, value)
    ensures IsJoin(db, LeftJoin(the, of, value), row, LeftJoinRow(db, the, of, value, row))
  {
    var p, q := LeftJoin(the, of, value), Scan(the, of, value);
    ScanIsJoin(db, the, of, value, row);
    forall r ensures JoinsProposition(db, p, row, r) <==> JoinsProposition(db, q, row, r) {
      if Adds(row, VarsOf(p), r) {
        PresentTakes(row, of, VarsOf(p), r);
        PresentTakes(row, value, VarsOf(p), r);
        if f :| f in db && TakesFact(r, the, of, value, f) {
          assert Takes(r, the, Present(f.the));
        }
      }
    }
  }

  /** The row leaves the attribute open although it claims that the value is absent. */
  predicate OpenClaim(row: Row, the: Term, value: Term) {
    !Fixed(row, the) && Blocked(row, value)
  }

  /** The attribute itself is absent and nothing pins the value. */
  predicate AbsentAttribute(row: Row, the: Term, value: Term) {
    Blocked(row, the) && !IsPresent(row, value)
  }

  /** On every feasible row with a known entity the left join is the join with the widened relation, whether the value
      arrives unbound, present or absent, if and only if its attribute is not left open by a claimed absence and is
      not absent itself. */
  lemma {:induction false} LeftJoinIsJoin(db: seq<Fact>, the: Term, of: Term, value: Term, row: Row)
    requires IsPresent(row, of) && (Fixed(row, the) || Lookup(row, value).Some?)
    ensures IsJoin(db, LeftJoin(the, of, value), row, LeftJoinRow(db, the, of, value, row)) <==>
            !OpenClaim(row, the, value) && !AbsentAttribute(row, the, value)
  {
    hide IsJoin, LeftJoinRow, Fixed, Lookup, IsPresent, Blocked;
    PresentOrBlocked(row, value);
    if OpenClaim(row, the, value) {
      OpenClaimPasses(db, the, of, value, row);
    } else if IsPresent(row, value) {
      PinnedIsJoin(db, the, of, value, row);
    } else if Blocked(row, the) {
      AbsentAttributePasses(db, the, of, value, row);
    } else if Blocked(row, value) {
      ConfirmIsJoin(db, the, of, value, row);
    } else {
      WidenIsJoin(db, the, of, value, row);
    }
  }

  /** With an absent attribute the row passes, the value becoming absent, although no attribute was looked up. */
  lemma {:induction false} AbsentAttributePasses(db: seq<Fact>, the: Term, of: Term, value: Term, row: Row)
    requires IsPresent(row, of) && AbsentAttribute(row, the, value)
    ensures !LeftJoinRow(db, the, of, value, row).broken && LeftJoinRow(db, the, of, value, row).rows != []
    ensures !IsJoin(db, LeftJoin(the, of, value), row, LeftJoinRow(db, the, of, value, row))
  {
    var out := LeftJoinRow(db, the, of, value, row);
    var r := if Blocked(row, value) then row else Bind(row, value, Absent).value;
    assert out == One(r) && r in out.rows;
    assert Takes(r, the, Absent) && !exists a :: Takes(r, the, Present(a));
  }

  lemma {:induction false} PresentOrBlocked(row: Row, t: Term)
    ensures IsPresent(row, t) || Blocked(row, t) || Lookup(row, t).None?
    ensures Blocked(row, t) ==> Lookup(row, t).Some?
  {
  }

  lemma {:induction false} UnusedAttribute(db: seq<Fact>) returns (a: Value)
    ensures forall f :: f in db ==> |f.the| < |a|
  {
    if db == [] {
      a := "";
    } else {
      var shorter := UnusedAttribute(db[..|db| - 1]);
      a := shorter + db[|db| - 1].the + "a";
      forall f | f in db ensures |f.the| < |a| {
        assert f in db[..|db| - 1] || f == db[|db| - 1];
      }
    }
  }

  lemma {:induction false} ProbeFinds(db: seq<Fact>, the: Term, of: Term, row: Row)
    requires IsPresent(row, of) && !Fixed(row, the)
    ensures !ScanRow(db, the, of, Wildcard(false), row).broken
    ensures ScanRow(db, the, of, Wildcard(false), row).rows != [] <==>
            exists f :: f in db && Takes(row, of, Present(f.of))
  {
    hide ScanRow;
    var probe := ScanRow(db, the, of, Wildcard(false), row);
    ScanIsJoin(db, the, of, Wildcard(false), row);
    if probe.rows != [] {
      var r := probe.rows[0];
      assert r in probe.rows;
      var f :| f in db && TakesFact(r, the, of, Wildcard(false), f);
      FixedTakes(row, NameOf(the) + NameOf(of), r, of, Present(f.of));
    }
    if f :| f in db && Takes(row, of, Present(f.of)) {
      var r := row[the.name := Present(f.the)];
      assert TakesFact(r, the, of, Wildcard(false), f);
      assert JoinsProposition(db, Scan(the, of, Wildcard(false)), row, r);
    }
  }

  /** With the attribute open and the value claimed absent the row passes as it is, or not at all: the attribute
      stays unbound, though the plan counts it as bound. */
  lemma {:induction false} OpenClaimPasses(db: seq<Fact>, the: Term, of: Term, value: Term, row: Row)
    requires IsPresent(row, of) && OpenClaim(row, the, value)
    ensures LeftJoinRow(db, the, of, value, row) ==
            (if exists f :: f in db && Takes(row, of, Present(f.of)) then NOTHING else One(row))
    ensures the.Var? && the.name !in row
    ensures !IsJoin(db, LeftJoin(the, of, value), row, LeftJoinRow(db, the, of, value, row))
  {
    ProbeFinds(db, the, of, row);
    var a := UnusedAttribute(db);
    var r := row[the.name := Present(a)];
    PresentTakes(row, of, NameOf(the), r);
    assert Takes(r, the, Present(a)) && Unmatched(db, the, of, r);
    assert JoinsProposition(db, LeftJoin(the, of, value), row, r);
  }

  /** A row whose value is not pinned is never dropped. */
  lemma {:induction false} UnpinnedRowSurvives(db: seq<Fact>, the: Term, of: Term, value: Term, row: Row)
    requires IsPresent(row, of) && Fixed(row, the) && Lookup(row, value).None?
    ensures LeftJoinRow(db, the, of, value, row).rows != []
  {
    EmptyScanIsAbsence(db, the, of, value, row);
  }

  // ---- Equality, and when it is a join

  /** Equality lets an absence through although not both terms admit it. */
  predicate Slack(left: Term, right: Term, row: Row) {
    && !(AllowsAbsence(left) && AllowsAbsence(right))
    && ((Blocked(row, left) && Blocked(row, right)) ||
        (Blocked(row, left) && Lookup(row, right).None? && AllowsAbsence(right)) ||
        (Blocked(row, right) && Lookup(row, left).None? && AllowsAbsence(left)))
  }

  /** Filling the unbound side of an equality. */
  function Filled(left: Term, right: Term, row: Row): Row {
    match (Lookup(row, left), Lookup(row, right))
    case (Some(l), None) => if right.Var? then row[right.name := l] else row
    case (None, Some(r)) => if left.Var? then row[left.name := r] else row
    case _ => row
  }

  lemma {:induction false} FilledIsOnly(left: Term, right: Term, row: Row, r: Row)
    requires !(Lookup(row, left).None? && Lookup(row, right).None?)
    requires Adds(row, NameOf(left) + NameOf(right), r)
    ensures (exists b :: Takes(r, left, b) && Takes(r, right, b)) ==> r == Filled(left, right, row)
  {
    if b :| Takes(r, left, b) && Takes(r, right, b) {
      assert r.Keys == Filled(left, right, row).Keys;
      assert forall n :: n in r ==> r[n] == Filled(left, right, row)[n];
    }
  }

  lemma {:induction false} EqualYields(left: Term, right: Term, row: Row)
    requires !(Lookup(row, left).None? && Lookup(row, right).None?)
    ensures var out, r := EqualRow(left, right, row), Filled(left, right, row);
            && !out.broken && (out.rows == [] || out.rows == [r])
            && (out.rows == [r] <==> HoldsEqual(left, right, r) || Slack(left, right, row))
            && (Slack(left, right, row) ==> !HoldsEqual(left, right, r))
            && Adds(row, NameOf(left) + NameOf(right), r)
  {
    var r := Filled(left, right, row);
    match (Lookup(row, left), Lookup(row, right)) {
      case (Some(l), Some(x)) => assert Takes(r, left, l) && Takes(r, right, x);
      case (Some(l), None) => assert Takes(r, left, l) && Takes(r, right, l);
      case (None, Some(x)) => assert Takes(r, left, x) && Takes(r, right, x);
    }
  }

  /** Equality is a join with its relation on exactly the rows without slack. */
  lemma {:induction false} EqualIsJoin(db: seq<Fact>, left: Term, right: Term, row: Row)
    requires !(Lookup(row, left).None? && Lookup(row, right).None?)
    ensures IsJoin(db, Equal(left, right), row, EqualRow(left, right, row)) <==> !Slack(left, right, row)
  {
    hide EqualRow, Slack, Filled, Lookup, Takes, Adds;
    var out, f := EqualRow(left, right, row), Filled(left, right, row);
    EqualYields(left, right, row);
    forall r ensures JoinsProposition(db, Equal(left, right), row, r) <==> r == f && HoldsEqual(left, right, f) {
      if JoinsProposition(db, Equal(left, right), row, r) {
        FilledIsOnly(left, right, row, r);
      }
    }
    if Slack(left, right, row) {
      assert f in out.rows;
    }
  }
}
