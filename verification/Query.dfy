/**
 * How one premise of a rule body turns a row into rows: attribute scans, optional
 * left joins, equality constraints and negations.
 */
module Query {
  import opened Options
  import opened Environments
  import opened Feasibility
  import opened Planner

  type Value = string

  datatype Fact = Fact(the: Value, of: Value, value: Value)

  /** `optional` says that the term's kind admits absence. */
  datatype Term = Const(value: Value) | Var(name: Name, optional: bool) | Wildcard(optional: bool)

  predicate AllowsAbsence(t: Term) {
    !t.Const? && t.optional
  }

  datatype Proposition =
    | Scan(the: Term, of: Term, value: Term)
    | LeftJoin(the: Term, of: Term, value: Term)
    | Equal(left: Term, right: Term)

  datatype Premise = When(proposition: Proposition) | Unless(proposition: Proposition)

  // ---- Rows

  /** Unbound names are missing from a row; an absent one was looked up and not found. */
  datatype Binding = Present(value: Value) | Absent

  type Row = map<Name, Binding>

  function Lookup(row: Row, t: Term): Option<Binding> {
    match t
    case Const(v) => Some(Present(v))
    case Var(n, _) => if n in row then Some(row[n]) else None
    case Wildcard(_) => None
  }

  /** Binding merges: a name already holding something else is a conflict. */
  function Bind(row: Row, t: Term, b: Binding): Option<Row> {
    if !t.Var? then Some(row)
    else if t.name !in row then Some(row[t.name := b])
    else if row[t.name] == b then Some(row)
    else None
  }

  // ---- Streams of rows

  /** The rows a stream yields, and whether it then ends in an error. */
  datatype Stream = Stream(rows: seq<Row>, broken: bool)

  const NOTHING := Stream([], false)
  const BROKEN := Stream([], true)

  function One(row: Row): Stream {
    Stream([row], false)
  }

  function Then(a: Stream, b: Stream): Stream {
    if a.broken then a else Stream(a.rows + b.rows, b.broken)
  }

  // ---- The scalar scan

  predicate Blocked(row: Row, t: Term) {
    Lookup(row, t) == Some(Absent)
  }

  /** Whether the selector built from a row lets a fact's part through. */
  predicate Selects(row: Row, t: Term, v: Value) {
    Lookup(row, t).None? || Lookup(row, t) == Some(Present(v))
  }

  predicate SelectsFact(row: Row, the: Term, of: Term, value: Term, f: Fact) {
    Selects(row, the, f.the) && Selects(row, of, f.of) && Selects(row, value, f.value)
  }

  function Merge(row: Row, the: Term, of: Term, value: Term, f: Fact): Option<Row> {
    match Bind(row, the, Present(f.the))
    case None => None
    case Some(first) =>
      match Bind(first, of, Present(f.of))
      case None => None
      case Some(second) => Bind(second, value, Present(f.value))
  }

  function Extension(row: Row, the: Term, of: Term, value: Term, f: Fact): Stream {
    if !SelectsFact(row, the, of, value, f) then NOTHING
    else match Merge(row, the, of, value, f)
      case None => BROKEN
      case Some(r) => One(r)
  }

  function Extensions(db: seq<Fact>, the: Term, of: Term, value: Term, row: Row): Stream {
    if db == [] then NOTHING
    else Then(Extensions(db[..|db| - 1], the, of, value, row), Extension(row, the, of, value, db[|db| - 1]))
  }

  function ScanRow(db: seq<Fact>, the: Term, of: Term, value: Term, row: Row): Stream {
    if Blocked(row, the) || Blocked(row, of) || Blocked(row, value) then NOTHING
    else if Lookup(row, the).None? && Lookup(row, of).None? && Lookup(row, value).None? then BROKEN
    else Extensions(db, the, of, value, row)
  }

  // ---- The left join

  predicate IsPresent(row: Row, t: Term) {
    match Lookup(row, t)
    case Some(Present(_)) => true
    case _ => false
  }

  /** A claimed absence stands when probing for any value finds none. */
  function Confirm(row: Row, probe: Stream): Stream {
    if probe.rows != [] then NOTHING else if probe.broken then BROKEN else One(row)
  }

  /** Without a match an unpinned value becomes absent. */
  function Widen(row: Row, value: Term, found: Stream): Stream {
    if found.broken || found.rows != [] || IsPresent(row, value) then found
    else match Bind(row, value, Absent)
      case None => BROKEN
      case Some(r) => One(r)
  }

  function LeftJoinRow(db: seq<Fact>, the: Term, of: Term, value: Term, row: Row): Stream {
    if !IsPresent(row, of) then BROKEN
    else if Blocked(row, value) then Confirm(row, ScanRow(db, the, of, Wildcard(false), row))
    else Widen(row, value, ScanRow(db, the, of, value, row))
  }

  // ---- Equality and negation

  function Carry(row: Row, t: Term, b: Binding): Stream {
    if b.Absent? && !AllowsAbsence(t) then NOTHING
    else match Bind(row, t, b)
      case None => BROKEN
      case Some(r) => One(r)
  }

  function EqualRow(left: Term, right: Term, row: Row): Stream {
    match (Lookup(row, left), Lookup(row, right))
    case (Some(l), Some(r)) => if l == r then One(row) else NOTHING
    case (Some(l), None) => Carry(row, right, l)
    case (None, Some(r)) => Carry(row, left, r)
    case (None, None) => BROKEN
  }

  function PropositionRow(db: seq<Fact>, p: Proposition, row: Row): Stream {
    match p
    case Scan(the, of, value) => ScanRow(db, the, of, value, row)
    case LeftJoin(the, of, value) => LeftJoinRow(db, the, of, value, row)
    case Equal(left, right) => EqualRow(left, right, row)
  }

  /** A negation looks at the first thing its inner stream yields. */
  function NegateRow(row: Row, inner: Stream): Stream {
    if inner.rows != [] then NOTHING else if inner.broken then BROKEN else One(row)
  }

  function PremiseRow(db: seq<Fact>, p: Premise, row: Row): Stream {
    match p
    case When(q) => PropositionRow(db, q, row)
    case Unless(q) => NegateRow(row, PropositionRow(db, q, row))
  }

  /** A step maps the incoming stream row by row and stops at the first error. */
  function Each(f: Row -> Stream, rows: seq<Row>): Stream {
    if rows == [] then NOTHING else Then(Each(f, rows[..|rows| - 1]), f(rows[|rows| - 1]))
  }

  function StepRows(db: seq<Fact>, p: Premise, input: Stream): Stream {
    Then(Each(row => PremiseRow(db, p, row), input.rows), Stream([], input.broken))
  }

  /** A conjunction feeds each step's rows to the next. */
  function Run(db: seq<Fact>, order: seq<Premise>, input: Stream): Stream {
    if order == [] then input else Run(db, order[1..], StepRows(db, order[0], input))
  }

  // ---- What the planner sees of a premise

  function ParamOf(t: Term): Param {
    match t
    case Const(_) => Constant
    case Var(n, _) => Named(n)
    case Wildcard(_) => Blank
  }

  /** The attribute, entity, value and cause of a scan form one choice group; the cause is blank here. */
  function ScanSlots(the: Term, of: Term, value: Term): seq<Slot> {
    [Slot(ParamOf(the), Required(Some(0))), Slot(ParamOf(of), Required(Some(0))),
     Slot(ParamOf(value), Required(Some(0))), Slot(Blank, Required(Some(0)))]
  }

  function PropositionSlots(p: Proposition): seq<Slot> {
    match p
    case Scan(the, of, value) => ScanSlots(the, of, value)
    case LeftJoin(the, of, value) => ScanSlots(the, of, value)[1 := Slot(ParamOf(of), Required(None))]
    case Equal(left, right) => [Slot(ParamOf(left), Required(Some(0))), Slot(ParamOf(right), Required(Some(0)))]
  }

  function NegatedSlot(s: Slot): Slot {
    Slot(s.param, if s.param.Blank? then Optional else Required(None))
  }

  function SlotsOf(p: Premise): seq<Slot> {
    match p
    case When(q) => PropositionSlots(q)
    case Unless(q) =>
      var slots := PropositionSlots(q);
      seq(|slots|, i requires 0 <= i < |slots| => NegatedSlot(slots[i]))
  }

  const LOOKUP_COST := 100
  const RANGE_READ_COST := 200
  const RANGE_SCAN_COST := 1_000
  const INDEX_SCAN_COST := 5_000
  const VERIFICATION_COST := 100
  const EQUALITY_COST := 1
  const NEGATION_OVERHEAD := 100

  /** Whether an attribute holds one value or many. */
  datatype Cardinality = Single | Many

  /** The cost of a scan by what it knows. */
  function ScanCost(c: Cardinality, the: bool, of: bool, value: bool): Option<nat> {
    match (the, of, value)
    case (true, true, true) => Some(LOOKUP_COST)
    case (true, true, false) => Some(if c.Single? then LOOKUP_COST else RANGE_READ_COST)
    case (true, false, true) => Some(if c.Single? then RANGE_READ_COST + VERIFICATION_COST else RANGE_READ_COST)
    case (false, true, _) => Some(if c.Single? then RANGE_READ_COST else RANGE_SCAN_COST)
    case (true, false, false) => Some(if c.Single? then RANGE_SCAN_COST + VERIFICATION_COST else INDEX_SCAN_COST)
    case (false, false, true) => Some(if c.Single? then INDEX_SCAN_COST + VERIFICATION_COST else INDEX_SCAN_COST)
    case (false, false, false) => None
  }

  function PropositionCost(c: Cardinality, p: Proposition, env: set<Name>): Option<nat> {
    match p
    case Scan(the, of, value) => ScanCost(c, IsBound(ParamOf(the), env), IsBound(ParamOf(of), env),
      IsBound(ParamOf(value), env))
    case LeftJoin(the, of, value) => ScanCost(c, IsBound(ParamOf(the), env), IsBound(ParamOf(of), env),
      IsBound(ParamOf(value), env))
    case Equal(left, right) => if IsBound(ParamOf(left), env) || IsBound(ParamOf(right), env) then Some(EQUALITY_COST)
      else None
  }

  function PremiseCost(c: Cardinality, p: Premise, env: set<Name>): Option<nat> {
    match p
    case When(q) => PropositionCost(c, q, env)
    case Unless(q) =>
      match PropositionCost(c, q, env)
      case None => None
      case Some(cost) => Some(cost + NEGATION_OVERHEAD)
  }

  predicate SomethingKnown(p: Proposition, env: set<Name>) {
    match p
    case Scan(the, of, value) => IsBound(ParamOf(the), env) || IsBound(ParamOf(of), env) || IsBound(ParamOf(value), env)
    case LeftJoin(the, of, value) => IsBound(ParamOf(the), env) || IsBound(ParamOf(of), env) ||
      IsBound(ParamOf(value), env)
    case Equal(left, right) => IsBound(ParamOf(left), env) || IsBound(ParamOf(right), env)
  }

  /** The estimate that planning uses where an attribute has this cardinality. */
  function ShapeFor(c: Cardinality, p: Premise): Shape {
    Shape(SlotsOf(p), p.Unless?, env => PremiseCost(c, p, env))
  }

  /** A scan reads every fact, so it is estimated for many values. */
  function ShapeOf(p: Premise): Shape {
    ShapeFor(Many, p)
  }

  /** An estimate is missing exactly when no term is known, and knowing more never costs more, whatever the
      cardinality. */
  lemma {:induction false} CostShrinks(c: Cardinality, p: Premise, env: set<Name>, larger: set<Name>)
    requires env <= larger
    ensures PremiseCost(c, p, env).Some? <==> SomethingKnown(p.proposition, env)
    ensures Cost(ShapeFor(c, p), larger) <= Cost(ShapeFor(c, p), env)
  {
    BoundGrows(c, p.proposition, env, larger);
  }

  lemma {:induction false} BoundGrows(c: Cardinality, p: Proposition, env: set<Name>, larger: set<Name>)
    requires env <= larger
    ensures PropositionCost(c, p, env).Some? ==>
            PropositionCost(c, p, larger).Some? &&
              PropositionCost(c, p, larger).value <= PropositionCost(c, p, env).value
    ensures PropositionCost(c, p, larger).Some? ==>
            PropositionCost(c, p, larger).value <= INDEX_SCAN_COST + VERIFICATION_COST
    ensures PropositionCost(c, p, env).Some? <==> SomethingKnown(p, env)
  {
  }

  // ---- The left join as a loop over rows

  /** A constant, or a name that is bound. */
  predicate Determined(t: Term, env: set<Name>) {
    t.Const? || (t.Var? && t.name in env)
  }

  /** The place of a lookup in the ranking, by which of its attribute, entity and value are determined, lowest first;
      a negated one comes at or just before the next place. */
  function LookupRank(c: Cardinality, the: bool, of: bool, value: bool, negated: bool): nat {
    match c
    case Many =>
      if the && of && value then if negated then 3 else 1
      else if the && (of || value) then if negated then 4 else 3
      else if of then if negated then 6 else 5
      else if the || value then if negated then 8 else 7
      else 10
    case Single =>
      if the && of then if negated then 3 else 1
      else if of then if negated then 4 else 3
      else if the && value then if negated then 5 else 4
      else if the then if negated then 7 else 6
      else if value then if negated then 9 else 8
      else 10
  }

  /** Equalities come before every lookup, negated ones after full lookups alone. */
  function Rank(c: Cardinality, p: Premise, env: set<Name>): nat {
    match p.proposition
    case Equal(left, right) =>
      if !Determined(left, env) && !Determined(right, env) then 10 else if p.When? then 0 else 2
    case q => LookupRank(c, Determined(q.the, env), Determined(q.of, env), Determined(q.value, env), p.Unless?)
  }

  /** Estimates compare as the places do, for premises of every kind and both cardinalities. */
  lemma {:induction false} CostRanks(c: Cardinality, p: Premise, q: Premise, env: set<Name>)
    ensures Cost(ShapeFor(c, p), env) <= Cost(ShapeFor(c, q), env) <==> Rank(c, p, env) <= Rank(c, q, env)
  {
    hide Rank, PremiseCost;
    RankAmount(c, p, env);
    RankAmount(c, q, env);
  }

  /** What a premise is planned at: scans and lookups as for attributes of many values. */
  lemma {:induction false} PlannedCost(p: Premise, env: set<Name>)
    ensures Cost(ShapeOf(p), env) == Amount(Many, Rank(Many, p, env))
  {
    hide Rank, PremiseCost, Amount;
    RankAmount(Many, p, env);
  }

  /** What each place costs. */
  function Amount(c: Cardinality, rank: nat): nat {
    match rank
    case 0 => 1
    case 1 => 100
    case 2 => 101
    case 3 => 200
    case 4 => 300
    case 5 => if c.Single? then 400 else 1_000
    case 6 => 1_100
    case 7 => if c.Single? then 1_200 else 5_000
    case 8 => 5_100
    case 9 => 5_200
    case _ => MAX_COST
  }

  lemma {:induction false} RankAmount(c: Cardinality, p: Premise, env: set<Name>)
    ensures Rank(c, p, env) <= 10 && Cost(ShapeFor(c, p), env) == Amount(c, Rank(c, p, env))
  {
    match p.proposition {
      case Scan(the, of, value) =>
      case LeftJoin(the, of, value) =>
      case Equal(left, right) =>
    }
  }

  method EvaluateLeftJoin(db: seq<Fact>, the: Term, of: Term, value: Term, input: Stream) returns (r: Stream)
    ensures r == StepRows(db, When(LeftJoin(the, of, value)), input)
  {
    ghost var f := (row: Row) => PremiseRow(db, When(LeftJoin(the, of, value)), row);
    var output: seq<Row> := [];
    for i := 0 to |input.rows|
      invariant Each(f, input.rows[..i]) == Stream(output, false)
    {
      var base := input.rows[i];
      assert input.rows[..i + 1][..i] == input.rows[..i];
      EachStops(f, input.rows, i + 1);
      if !IsPresent(base, of) {
        return Stream(output, true);
      }
      if Blocked(base, value) {
        var probe := ScanRow(db, the, of, Wildcard(false), base);
        var found := probe.rows != [];
        if !found && probe.broken {
          return Stream(output, true);
        }
        if !found {
          output := output + [base];
        }
      } else {
        var pinned := IsPresent(base, value);
        var inner := ScanRow(db, the, of, value, base);
        var produced := inner.rows != [];
        output := output + inner.rows;
        if inner.broken {
          return Stream(output, true);
        }
        if !produced && !pinned {
          var fallback := Bind(base, value, Absent);
          if fallback.None? {
            return Stream(output, true);
          }
          output := output + [fallback.value];
        }
      }
    }
    assert input.rows[..|input.rows|] == input.rows;
    r := Stream(output, input.broken);
  }

  /** Rows after an error are never reached. */
  lemma {:induction false} EachStops(f: Row -> Stream, rows: seq<Row>, n: nat)
    requires n <= |rows|
    ensures Each(f, rows[..n]).broken ==> Each(f, rows) == Each(f, rows[..n])
    decreases |rows|
  {
    if n < |rows| {
      assert rows[..|rows| - 1][..n] == rows[..n];
      EachStops(f, rows[..|rows| - 1], n);
    } else {
      assert rows[..n] == rows;
    }
  }
}
