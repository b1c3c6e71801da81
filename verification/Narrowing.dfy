/**
 * What planning does to a body before it orders it: inference finds the names that some
 * positive premise demands present, and an optional lookup of such a name is demoted to
 * the plain scan it wraps.
 */
module Narrowing {
  import opened Environments
  import opened Planner
  import opened Query
  import opened Meaning
  import opened Orders
  import opened Exactness

  // ---- Inference, as far as absence goes

  /** A slot's term, and whether the slot's kind admits absence. */
  datatype Occurrence = Occurrence(term: Term, admits: bool)

  /** Attribute and entity slots demand values, an optional lookup's value slot never does, and any other slot says
      what its term's kind says. */
  function Occurrences(q: Proposition): seq<Occurrence> {
    match q
    case Scan(the, of, value) => [Occurrence(the, false), Occurrence(of, false),
      Occurrence(value, AllowsAbsence(value))]
    case LeftJoin(the, of, value) => [Occurrence(the, false), Occurrence(of, false), Occurrence(value, true)]
    case Equal(left, right) => [Occurrence(left, AllowsAbsence(left)), Occurrence(right, AllowsAbsence(right))]
  }

  /** The names a premise demands present; a negation demands nothing. */
  function DemandedBy(p: Premise): set<Name> {
    if p.Unless? then {}
    else set s | s in Occurrences(p.proposition) && s.term.Var? && !s.admits :: s.term.name
  }

  function Demanded(premises: seq<Premise>): set<Name> {
    set p, n | p in premises && n in DemandedBy(p) :: n
  }

  /** The names that positive premises mention. */
  function Mentioned(premises: seq<Premise>): set<Name> {
    set p, n | p in premises && p.When? && n in VarsOf(p.proposition) :: n
  }

  /** The name stands where only a value will do: for an attribute or an entity, or as the value of a scan or a side of
      an equality whose term does not admit absence. */
  predicate StandsPresent(p: Premise, n: Name) {
    match p
    case When(Scan(the, of, value)) =>
      n in NameOf(the) || n in NameOf(of) || (n in NameOf(value) && !AllowsAbsence(value))
    case When(LeftJoin(the, of, value)) => n in NameOf(the) || n in NameOf(of)
    case When(Equal(left, right)) =>
      (n in NameOf(left) && !AllowsAbsence(left)) || (n in NameOf(right) && !AllowsAbsence(right))
    case Unless(_) => false
  }

  /** A premise demands exactly the names that stand in such a place. */
  lemma {:induction false} DemandedIsStanding(p: Premise, n: Name)
    ensures n in DemandedBy(p) <==> StandsPresent(p, n)
  {
    if p.When? {
      var slots := Occurrences(p.proposition);
      assert forall s :: s in slots <==> s == slots[0] || s == slots[1] || (|slots| == 3 && s == slots[2]);
    }
  }

  method Demands(p: Premise) returns (present: set<Name>)
    ensures present == DemandedBy(p)
  {
    present := {};
    if p.When? {
      var slots := Occurrences(p.proposition);
      for j := 0 to |slots|
        invariant present == set s | s in slots[..j] && s.term.Var? && !s.admits :: s.term.name
      {
        assert slots[..j + 1] == slots[..j] + [slots[j]];
        if slots[j].term.Var? && !slots[j].admits {
          present := present + {slots[j].term.name};
        }
      }
      assert slots[..|slots|] == slots;
    }
  }

  method Infer(premises: seq<Premise>) returns (present: set<Name>)
    ensures present == Demanded(premises)
    ensures forall n :: n in present <==> exists p :: p in premises && StandsPresent(p, n)
  {
    present := {};
    for i := 0 to |premises|
      invariant present == Demanded(premises[..i])
    {
      OneMorePremise(premises, i);
      var demands := Demands(premises[i]);
      present := present + demands;
    }
    assert premises[..|premises|] == premises;
    forall p, n ensures n in DemandedBy(p) <==> StandsPresent(p, n) {
      DemandedIsStanding(p, n);
    }
  }

  lemma {:induction false} OneMorePremise(premises: seq<Premise>, i: nat)
    requires i < |premises|
    ensures Demanded(premises[..i + 1]) == Demanded(premises[..i]) + DemandedBy(premises[i])
  {
    hide DemandedBy;
    assert premises[..i + 1] == premises[..i] + [premises[i]];
  }

  // ---- Narrowing

  function Stamp(t: Term, present: set<Name>): Term {
    if t.Var? then Var(t.name, t.name !in present) else t
  }

  function NarrowOne(p: Premise, present: set<Name>): Premise {
    match p
    case When(Scan(the, of, value)) => When(Scan(Stamp(the, present), Stamp(of, present), Stamp(value, present)))
    case When(LeftJoin(the, of, value)) =>
      if value.Var? && value.name in present then When(Scan(the, of, Var(value.name, false))) else p
    case _ => p
  }

  function Narrow(premises: seq<Premise>, present: set<Name>): (r: seq<Premise>)
    ensures |r| == |premises| && forall i :: 0 <= i < |r| ==> r[i] == NarrowOne(premises[i], present)
  {
    seq(|premises|, i requires 0 <= i < |premises| => NarrowOne(premises[i], present))
  }

  function Narrowed(premises: seq<Premise>): seq<Premise> {
    Narrow(premises, Demanded(premises))
  }

  // ---- Narrowing keeps the meaning

  /** In the narrowed body a scan's name admits absence exactly when it is inferred optional, and an optional lookup is
      left exactly where its value is. */
  lemma {:induction false} NarrowedKinds(premises: seq<Premise>, i: nat)
    requires i < |premises| && premises[i].When?
    ensures match Narrowed(premises)[i].proposition
            case Scan(the, of, value) =>
              && (premises[i].proposition.Scan? ==>
                  (the.Var? ==> !AllowsAbsence(the)) && (of.Var? ==> !AllowsAbsence(of)))
              && (value.Var? ==> (AllowsAbsence(value) <==> value.name !in Demanded(premises)))
            case LeftJoin(the, of, value) =>
              premises[i].proposition.LeftJoin? && (value.Var? ==> value.name !in Demanded(premises))
            case Equal(left, right) => premises[i].proposition == Equal(left, right)
  {
    var p := premises[i];
    forall n | StandsPresent(p, n) ensures n in Demanded(premises) {
      DemandedIsStanding(p, n);
      assert p in premises;
    }
  }

  /** Where a premise holds, the names it demands have values; so they do where its narrowed form holds. */
  lemma {:induction false} DemandedIsPresent(db: seq<Fact>, p: Premise, present: set<Name>, n: Name, r: Row)
    requires n in DemandedBy(p) && (Holds(db, p, r) || Holds(db, NarrowOne(p, present), r))
    ensures n in r && r[n].Present?
  {
  }

  lemma {:induction false} StampTakes(r: Row, t: Term, present: set<Name>, b: Binding)
    ensures Takes(r, Stamp(t, present), b) <==> Takes(r, t, b)
  {
  }

  lemma {:induction false} StampedScanHolds(db: seq<Fact>, the: Term, of: Term, value: Term, present: set<Name>, r: Row)
    ensures HoldsScan(db, Stamp(the, present), Stamp(of, present), Stamp(value, present), r) <==>
            HoldsScan(db, the, of, value, r)
  {
    hide Takes, Stamp;
    forall b ensures (Takes(r, Stamp(the, present), b) <==> Takes(r, the, b)) &&
        (Takes(r, Stamp(of, present), b) <==> Takes(r, of, b)) &&
        (Takes(r, Stamp(value, present), b) <==> Takes(r, value, b)) {
      StampTakes(r, the, present, b);
      StampTakes(r, of, present, b);
      StampTakes(r, value, present, b);
    }
  }

  lemma {:induction false} DemotedHolds(db: seq<Fact>, the: Term, of: Term, value: Term, r: Row)
    requires value.Var? && value.name in r && r[value.name].Present?
    ensures HoldsLeftJoin(db, the, of, value, r) <==> HoldsScan(db, the, of, Var(value.name, false), r)
  {
    var scalar := Var(value.name, false);
    assert forall b :: Takes(r, value, b) <==> Takes(r, scalar, b);
    if f :| f in db && TakesFact(r, the, of, scalar, f) {
      assert TakesFact(r, the, of, value, f) && Takes(r, the, Present(f.the)) && Takes(r, of, Present(f.of));
    }
    if f :| f in db && TakesFact(r, the, of, value, f) {
      assert TakesFact(r, the, of, scalar, f);
    }
  }

  lemma {:induction false} NarrowOneHolds(db: seq<Fact>, p: Premise, present: set<Name>, r: Row)
    requires forall n :: n in present ==> n in r && r[n].Present?
    ensures Holds(db, p, r) <==> Holds(db, NarrowOne(p, present), r)
  {
    hide HoldsScan, HoldsLeftJoin, HoldsEqual, Stamp;
    if p.When? {
      match p.proposition {
        case Scan(the, of, value) => StampedScanHolds(db, the, of, value, present, r);
        case LeftJoin(the, of, value) =>
          if value.Var? && value.name in present {
            DemotedHolds(db, the, of, value, r);
          }
        case Equal(_, _) =>
      }
    }
  }

  lemma {:induction false} NarrowedGives(p: Premise, present: set<Name>)
    ensures Gives(ShapeOf(NarrowOne(p, present))) == Gives(ShapeOf(p))
  {
    hide Gives;
    GivesVars(p);
    GivesVars(NarrowOne(p, present));
  }

  lemma {:induction false} NarrowedBinds(premises: seq<Premise>, present: set<Name>, scope: set<Name>)
    ensures After(ShapeOf, scope, Narrow(premises, present)) == After(ShapeOf, scope, premises)
  {
    hide Gives, NarrowOne;
    var narrowed := Narrow(premises, present);
    AfterIsUnion(ShapeOf, scope, premises);
    AfterIsUnion(ShapeOf, scope, narrowed);
    forall n ensures n in GivesAll(ShapeOf, narrowed) <==> n in GivesAll(ShapeOf, premises) {
      if n in GivesAll(ShapeOf, narrowed) {
        var i :| 0 <= i < |narrowed| && n in Gives(ShapeOf(narrowed[i]));
        NarrowedGives(premises[i], present);
        assert premises[i] in premises;
      }
      if n in GivesAll(ShapeOf, premises) {
        var i :| 0 <= i < |premises| && n in Gives(ShapeOf(premises[i]));
        NarrowedGives(premises[i], present);
        assert narrowed[i] in narrowed;
      }
    }
  }

  ghost predicate AllHold(db: seq<Fact>, premises: seq<Premise>, r: Row) {
    forall p :: p in premises ==> Holds(db, p, r)
  }

  lemma {:induction false} NarrowedHolds(db: seq<Fact>, premises: seq<Premise>, r: Row)
    ensures AllHold(db, Narrowed(premises), r) <==> AllHold(db, premises, r)
  {
    hide Holds, NarrowOne, DemandedBy;
    var present, narrowed := Demanded(premises), Narrowed(premises);
    if AllHold(db, premises, r) || AllHold(db, narrowed, r) {
      forall n | n in present ensures n in r && r[n].Present? {
        var i :| 0 <= i < |premises| && n in DemandedBy(premises[i]);
        assert premises[i] in premises && narrowed[i] in narrowed;
        DemandedIsPresent(db, premises[i], present, n, r);
      }
      forall i | 0 <= i < |premises| ensures Holds(db, premises[i], r) && Holds(db, narrowed[i], r) {
        assert premises[i] in premises && narrowed[i] in narrowed;
        NarrowOneHolds(db, premises[i], present, r);
      }
    }
  }

  /** The narrowed body calls for exactly the rows that the authored one calls for. */
  lemma {:induction false} NarrowingKeepsAnswers(db: seq<Fact>, premises: seq<Premise>, scope: set<Name>,
          rows: seq<Row>, r: Row)
    ensures Answers(db, Narrowed(premises), scope, rows, r) <==> Answers(db, premises, scope, rows, r)
  {
    hide Restrict, Holds;
    NarrowedBinds(premises, Demanded(premises), scope);
    NarrowedHolds(db, premises, r);
  }

  // ---- Which names may be absent

  /** Names that some step may find absent or make absent out of another absence. */
  function Sources(premises: seq<Premise>): set<Name> {
    set p, n | p in premises && p.When? && p.proposition.LeftJoin? &&
               n in Widened(p.proposition.the, p.proposition.of, p.proposition.value) :: n
  }

  /** An equality of two names whose terms both admit absence. */
  predicate Ties(p: Premise) {
    p.When? && p.proposition.Equal? && p.proposition.left.Var? && p.proposition.right.Var? &&
    AllowsAbsence(p.proposition.left) && AllowsAbsence(p.proposition.right)
  }

  function Tied(p: Premise, names: set<Name>): set<Name> {
    if Ties(p) && (p.proposition.left.name in names || p.proposition.right.name in names) then VarsOf(p.proposition)
        else {}
  }

  function Spread(premises: seq<Premise>, names: set<Name>): set<Name> {
    names + set p, n | p in premises && n in Tied(p, names) :: n
  }

  function AllNames(premises: seq<Premise>): set<Name> {
    set p, n | p in premises && n in VarsOf(p.proposition) :: n
  }

  /** The names reached from these through such equalities. */
  function Reach(premises: seq<Premise>, names: set<Name>): (r: set<Name>)
    ensures names <= r && Spread(premises, r) == r
    decreases AllNames(premises) - names
  {
    var wider := Spread(premises, names);
    if wider == names then names else
      assert AllNames(premises) - wider < AllNames(premises) - names by {
        SpreadShrinks(premises, names);
      }
      Reach(premises, wider)
  }

  /** The names that may be absent in some row, if these may be on arrival. */
  function Absentable(premises: seq<Premise>, arriving: set<Name>): set<Name> {
    Reach(premises, arriving + Sources(premises))
  }

  predicate AllPosed(premises: seq<Premise>, absentable: set<Name>) {
    forall p :: p in premises ==> WellPosed(p, absentable)
  }

  lemma {:induction false} ReachIsLeast(premises: seq<Premise>, names: set<Name>, closed: set<Name>)
    requires names <= closed && Spread(premises, closed) == closed
    ensures Reach(premises, names) <= closed
    decreases AllNames(premises) - names
  {
    hide Tied;
    var wider := Spread(premises, names);
    if wider != names {
      forall n | n in wider ensures n in closed {
        if n !in names {
          var p :| p in premises && n in Tied(p, names);
          TiedGrows(p, names, closed);
          assert n in Spread(premises, closed);
        }
      }
      SpreadShrinks(premises, names);
      ReachIsLeast(premises, wider, closed);
    }
  }

  lemma {:induction false} SpreadShrinks(premises: seq<Premise>, names: set<Name>)
    requires Spread(premises, names) != names
    ensures AllNames(premises) - Spread(premises, names) < AllNames(premises) - names
  {
    var wider := Spread(premises, names);
    assert !(wider <= names);
    var n :| n in wider && n !in names;
    var p :| p in premises && n in Tied(p, names);
    assert n in AllNames(premises) - names && n !in AllNames(premises) - wider;
  }

  lemma {:induction false} TiedGrows(p: Premise, names: set<Name>, larger: set<Name>)
    requires names <= larger
    ensures Tied(p, names) <= Tied(p, larger)
  {
  }

  lemma {:induction false} PosedIsClosed(premises: seq<Premise>, absentable: set<Name>)
    requires AllPosed(premises, absentable)
    ensures Sources(premises) <= absentable && Spread(premises, absentable) == absentable
  {
    forall p, n | p in premises && n in Tied(p, absentable) ensures n in absentable {
      assert WellPosed(p, absentable);
    }
    forall n | n in Sources(premises) ensures n in absentable {
      var p :| p in premises && p.When? && p.proposition.LeftJoin? &&
        n in Widened(p.proposition.the, p.proposition.of, p.proposition.value);
      assert WellPosed(p, absentable);
    }
  }

  /** Being well posed for some set of names is being well posed for fewer, as long as they are closed. */
  lemma {:induction false} PosedShrinks(p: Premise, absentable: set<Name>, fewer: set<Name>)
    requires WellPosed(p, absentable) && fewer <= absentable
    requires Tied(p, fewer) <= fewer
    requires p.When? && p.proposition.LeftJoin? ==>
             Widened(p.proposition.the, p.proposition.of, p.proposition.value) <= fewer
    ensures WellPosed(p, fewer)
  {
  }

  /** The body is well posed for the names that may be absent in it. */
  predicate Posed(premises: seq<Premise>, arriving: set<Name>) {
    AllPosed(premises, Absentable(premises, arriving))
  }

  /** That is the weakest such condition: it holds whenever any set of names will do. */
  lemma {:induction false} PosedIsWeakest(premises: seq<Premise>, arriving: set<Name>, absentable: set<Name>)
    requires arriving <= absentable && AllPosed(premises, absentable)
    ensures Posed(premises, arriving)
  {
    hide WellPosed, Tied, Widened;
    var least := Absentable(premises, arriving);
    PosedIsClosed(premises, absentable);
    ReachIsLeast(premises, arriving + Sources(premises), absentable);
    forall p | p in premises ensures WellPosed(p, least) {
      assert Tied(p, least) <= Spread(premises, least);
      PosedShrinks(p, absentable, least);
    }
  }

  /** Some set of names, closed under evaluation, on which every step is answered faithfully: exactly for posed
      bodies. */
  lemma {:induction false} PosedIsExact(premises: seq<Premise>, arriving: set<Name>)
    ensures Posed(premises, arriving) <==>
            exists absentable: set<Name> :: arriving <= absentable && forall p :: p in premises ==>
              Faithful(p, absentable)
  {
    hide Faithful, WellPosed, Absentable;
    if Posed(premises, arriving) {
      var least := Absentable(premises, arriving);
      ArrivingIsAbsentable(premises, arriving);
      forall p | p in premises ensures Faithful(p, least) {
        WellPosedIsExact(p, least);
      }
    }
    if absentable: set<Name> :| arriving <= absentable && forall p :: p in premises ==> Faithful(p, absentable) {
      forall p | p in premises ensures WellPosed(p, absentable) {
        WellPosedIsExact(p, absentable);
      }
      PosedIsWeakest(premises, arriving, absentable);
    }
  }

  lemma {:induction false} ArrivingIsAbsentable(premises: seq<Premise>, arriving: set<Name>)
    ensures arriving <= Absentable(premises, arriving)
  {
  }

  lemma {:induction false} FedGrows(input: Stream, scope: set<Name>, names: set<Name>, more: set<Name>)
    requires Fed(input, scope, names) && names <= more
    ensures Fed(input, scope, more)
  {
  }

  lemma {:induction false} PosedMeans(premises: seq<Premise>, arriving: set<Name>)
    requires Posed(premises, arriving)
    ensures forall p :: p in premises ==> WellPosed(p, Absentable(premises, arriving))
  {
  }

  lemma {:induction false} NarrowedIs(premises: seq<Premise>)
    ensures Narrowed(premises) == Narrow(premises, Demanded(premises))
  {
  }
}
