/**
 * The greedy planner: it orders premises by repeatedly taking the cheapest one
 * that is feasible under the names bound so far.
 */
module Planner {
  import opened Options
  import opened Environments
  import opened Feasibility

  /** What planning knows about a premise. A missing estimate is the costliest one. */
  datatype Shape = Shape(slots: seq<Slot>, negated: bool, estimate: set<Name> -> Option<nat>)

  const MAX_COST := 0xFFFF_FFFF_FFFF_FFFF

  function Cost(s: Shape, env: set<Name>): nat {
    match s.estimate(env)
    case Some(cost) => cost
    case None => MAX_COST
  }

  predicate Ready(s: Shape, env: set<Name>) {
    Feasible(s.slots, env)
  }

  function Gives(s: Shape): set<Name> {
    Provides(s.slots, s.negated)
  }

  /** The names bound after a run of premises. */
  function After<P>(shape: P -> Shape, env: set<Name>, order: seq<P>): (r: set<Name>)
    ensures env <= r
    decreases |order|
  {
    if order == [] then env else After(shape, env + Gives(shape(order[0])), order[1..])
  }

  /** Each premise is feasible under the scope and what the earlier ones bind. */
  ghost predicate Runs<P>(shape: P -> Shape, env: set<Name>, order: seq<P>)
    decreases |order|
  {
    order == [] || (Ready(shape(order[0]), env) && Runs(shape, env + Gives(shape(order[0])), order[1..]))
  }

  /** A complete feasible order of these premises. */
  ghost predicate Ordering<P>(shape: P -> Shape, env: set<Name>, premises: seq<P>, order: seq<P>) {
    multiset(order) == multiset(premises) && Runs(shape, env, order)
  }

  ghost predicate Plannable<P(!new)>(shape: P -> Shape, env: set<Name>, premises: seq<P>) {
    exists order: seq<P> :: Ordering(shape, env, premises, order)
  }

  datatype Step<P> = Step(premise: P, cost: nat, binds: set<Name>, env: set<Name>)

  datatype Outcome<P> =
    | Planned(steps: seq<Step<P>>, cost: nat, binds: set<Name>)
    | RequiredBindings(required: set<Name>)

  function Premises<P>(steps: seq<Step<P>>): (r: seq<P>)
    ensures |r| == |steps| && forall i :: 0 <= i < |r| ==> r[i] == steps[i].premise
  {
    seq(|steps|, i requires 0 <= i < |steps| => steps[i].premise)
  }

  function TotalCost<P>(steps: seq<Step<P>>): nat {
    if steps == [] then 0 else TotalCost(steps[..|steps| - 1]) + steps[|steps| - 1].cost
  }

  function Removed<P>(s: seq<P>, index: nat): seq<P>
    requires index < |s|
  {
    s[..index] + s[index + 1..]
  }

  /** Among the first `n` premises: the earliest of the cheapest feasible ones, if any is feasible. */
  function Best<P>(shape: P -> Shape, env: set<Name>, premises: seq<P>, n: nat): (r: Option<nat>)
    requires n <= |premises|
    ensures r.None? <==> forall i :: 0 <= i < n ==> !Ready(shape(premises[i]), env)
    ensures r.Some? ==> r.value < n && Ready(shape(premises[r.value]), env)
    ensures r.Some? ==> forall i :: 0 <= i < n && Ready(shape(premises[i]), env) ==>
      Cost(shape(premises[r.value]), env) <= Cost(shape(premises[i]), env)
    ensures r.Some? ==> forall i :: 0 <= i < r.value && Ready(shape(premises[i]), env) ==>
      Cost(shape(premises[r.value]), env) < Cost(shape(premises[i]), env)
  {
    if n == 0 then None
    else
      var best := Best(shape, env, premises, n - 1);
      var last := shape(premises[n - 1]);
      if Ready(last, env) && (best.None? || Cost(last, env) < Cost(shape(premises[best.value]), env))
      then Some(n - 1) else best
  }

  /** How greedy ordering ends: with every premise placed, or with none of the rest feasible. */
  datatype Ending<P> = Done(steps: seq<Step<P>>) | Stuck(bound: set<Name>, rest: seq<P>)

  function Prepend<P>(steps: seq<Step<P>>, e: Ending<P>): Ending<P> {
    match e
    case Done(later) => Done(steps + later)
    case Stuck(_, _) => e
  }

  function StepOf<P>(shape: P -> Shape, env: set<Name>, p: P): Step<P> {
    Step(p, Cost(shape(p), env), Binds(shape(p).slots, shape(p).negated, env), env)
  }

  function Greedy<P>(shape: P -> Shape, env: set<Name>, premises: seq<P>): Ending<P>
    decreases |premises|
  {
    if premises == [] then Done([])
    else
      match Best(shape, env, premises, |premises|)
      case None => Stuck(env, premises)
      case Some(i) =>
        var step := StepOf(shape, env, premises[i]);
        Prepend([step], Greedy(shape, env + step.binds, Removed(premises, i)))
  }

  // ---- The loop computes the greedy order

  method Plan<P(!new)>(shape: P -> Shape, scope: set<Name>, premises: seq<P>) returns (r: Outcome<P>)
    ensures r.Planned? <==> Plannable(shape, scope, premises)
    ensures r.Planned? ==> Ordering(shape, scope, premises, Premises(r.steps)) && Recorded(shape, scope, r.steps)
    ensures r.Planned? ==> r.binds == After(shape, scope, premises) - scope && r.cost == TotalCost(r.steps)
    ensures r.Planned? ==> exists at :: InTurns(shape, scope, premises, at) && Premises(r.steps) == Taken(premises, at)
    ensures r.RequiredBindings? ==> r.required != {} && Unreachable(shape, scope, premises, r.required)
    ensures match Greedy(shape, scope, premises)
            case Done(steps) => r == Planned(steps, TotalCost(steps), Bound(scope, steps) - scope)
            case Stuck(bound, rest) => rest != [] && r == RequiredBindings(Needs(shape(rest[0]).slots, bound))
  {
    hide *;
    GreedyMeans(shape, scope, premises);
    var bound := new Environment(scope);
    var remaining := premises;
    var steps: seq<Step<P>> := [];
    var cost := 0;
    NoStepsYet(scope, Greedy(shape, scope, premises));
    while remaining != []
      invariant Greedy(shape, scope, premises) == Prepend(steps, Greedy(shape, bound.variables, remaining))
      invariant cost == TotalCost(steps) && bound.variables == Bound(scope, steps)
      invariant fresh(bound)
      decreases |remaining|
    {
      var best := Select(shape, bound.variables, remaining);
      match best {
        case None =>
          NoneReady(shape, bound.variables, remaining);
          StuckStays(steps, bound.variables, remaining);
          var required := Fail(shape, bound.variables, remaining);
          StuckIsUnreachable(shape, scope, premises);
          return RequiredBindings(required);
        case Some(index) =>
          var premise := remaining[index];
          var step := StepOf(shape, bound.variables, premise);
          GreedyStep(shape, bound.variables, remaining);
          PrependOne(steps, step, Greedy(shape, bound.variables + step.binds, Removed(remaining, index)));
          OneMoreStep(scope, steps, step);
          RemovedLength(remaining, index);
          remaining := Removed(remaining, index);
          cost := cost + step.cost;
          var _ := bound.Extend(step.binds);
          steps := steps + [step];
      }
    }
    AllPlaced(shape, bound.variables, steps);
    GreedyTurns(shape, scope, premises);
    r := Planned(steps, cost, bound.variables - scope);
  }

  method Select<P>(shape: P -> Shape, env: set<Name>, premises: seq<P>) returns (best: Option<nat>)
    ensures best == Best(shape, env, premises, |premises|)
  {
    best := None;
    for index := 0 to |premises|
      invariant best == Best(shape, env, premises, index)
    {
      var s := shape(premises[index]);
      var binds, needs := Categorize(s.slots, s.negated, env);
      if needs == {} {
        var cost := Cost(s, env);
        if best.None? || cost < Cost(shape(premises[best.value]), env) {
          best := Some(index);
        }
      }
    }
  }

  /** The first premise with unmet needs; one is always found, because none is feasible. */
  method Fail<P>(shape: P -> Shape, env: set<Name>, remaining: seq<P>) returns (required: set<Name>)
    requires remaining != [] && forall i :: 0 <= i < |remaining| ==> !Ready(shape(remaining[i]), env)
    ensures required == Needs(shape(remaining[0]).slots, env) && required != {}
  {
    for index := 0 to |remaining|
      invariant index > 0 ==> Ready(shape(remaining[0]), env)
    {
      var binds, needs := Categorize(shape(remaining[index]).slots, shape(remaining[index]).negated, env);
      if needs != {} {
        return needs;
      }
    }
    assert false;
  }

  function Bound<P>(scope: set<Name>, steps: seq<Step<P>>): set<Name> {
    if steps == [] then scope else Bound(scope, steps[..|steps| - 1]) + steps[|steps| - 1].binds
  }

  lemma NoStepsYet<P>(scope: set<Name>, e: Ending<P>)
    ensures e == Prepend([], e) && TotalCost<P>([]) == 0 && Bound<P>(scope, []) == scope
  {
    if e.Done? {
      assert [] + e.steps == e.steps;
    }
  }

  lemma GreedyStep<P>(shape: P -> Shape, env: set<Name>, premises: seq<P>)
    requires premises != [] && Best(shape, env, premises, |premises|).Some?
    ensures var i := Best(shape, env, premises, |premises|).value;
            var step := StepOf(shape, env, premises[i]);
            && i < |premises| && step.premise == premises[i]
            && Greedy(shape, env, premises) == Prepend([step], Greedy(shape, env + step.binds, Removed(premises, i)))
  {
  }

  lemma NoneReady<P>(shape: P -> Shape, env: set<Name>, premises: seq<P>)
    requires premises != [] && Best(shape, env, premises, |premises|).None?
    ensures Greedy(shape, env, premises) == Stuck(env, premises)
    ensures forall i :: 0 <= i < |premises| ==> !Ready(shape(premises[i]), env)
  {
  }

  lemma StuckStays<P>(steps: seq<Step<P>>, env: set<Name>, premises: seq<P>)
    ensures Prepend(steps, Stuck(env, premises)) == Stuck(env, premises)
  {
  }

  lemma AllPlaced<P>(shape: P -> Shape, env: set<Name>, steps: seq<Step<P>>)
    ensures Prepend(steps, Greedy(shape, env, [])) == Done(steps)
  {
    assert steps + [] == steps;
  }

  lemma RemovedLength<P>(s: seq<P>, index: nat)
    requires index < |s|
    ensures |Removed(s, index)| == |s| - 1
  {
  }

  lemma PrependOne<P>(steps: seq<Step<P>>, step: Step<P>, e: Ending<P>)
    ensures Prepend(steps, Prepend([step], e)) == Prepend(steps + [step], e)
  {
    if e.Done? {
      assert steps + ([step] + e.steps) == (steps + [step]) + e.steps;
    }
  }

  lemma OneMoreStep<P>(scope: set<Name>, steps: seq<Step<P>>, step: Step<P>)
    ensures TotalCost(steps + [step]) == TotalCost(steps) + step.cost
    ensures Bound(scope, steps + [step]) == Bound(scope, steps) + step.binds
  {
    assert (steps + [step])[..|steps|] == steps;
  }

  // ---- A greedy order that ends is a complete feasible order

  lemma {:induction false} RemovedOne<P>(s: seq<P>, index: nat)
    requires index < |s|
    ensures multiset(s) == multiset{s[index]} + multiset(Removed(s, index))
    ensures forall p :: p in s <==> p == s[index] || p in Removed(s, index)
  {
    assert s == s[..index] + [s[index]] + s[index + 1..];
  }

  /** Every step carries the names bound when it runs and the names it adds. */
  ghost predicate Recorded<P>(shape: P -> Shape, env: set<Name>, steps: seq<Step<P>>)
    decreases |steps|
  {
    steps == [] ||
      (var s := shape(steps[0].premise);
       && steps[0].env == env && steps[0].binds == (if s.negated then {} else Vars(s.slots) - env)
       && (match s.estimate(env) case Some(cost) => steps[0].cost == cost case None => steps[0].cost == MAX_COST)
       && Recorded(shape, env + steps[0].binds, steps[1..]))
  }

  lemma {:induction false} DoneIsOrdering<P(!new)>(shape: P -> Shape, env: set<Name>, premises: seq<P>)
    requires Greedy(shape, env, premises).Done?
    ensures var steps := Greedy(shape, env, premises).steps;
            Ordering(shape, env, premises, Premises(steps)) && Recorded(shape, env, steps)
    decreases |premises|
  {
    if premises != [] {
      var i := Best(shape, env, premises, |premises|).value;
      var step := StepOf(shape, env, premises[i]);
      var rest := Removed(premises, i);
      var later := Greedy(shape, env + step.binds, rest);
      GreedyStep(shape, env, premises);
      FirstStep(shape, env, premises[i], later.steps);
      DoneIsOrdering(shape, env + step.binds, rest);
      RemovedOne(premises, i);
    }
  }

  lemma {:induction false} FirstStep<P>(shape: P -> Shape, env: set<Name>, p: P, later: seq<Step<P>>)
    requires Ready(shape(p), env)
    ensures var step := StepOf(shape, env, p);
            && env + step.binds == env + Gives(shape(p))
            && ([step] + later)[1..] == later
            && Premises([step] + later) == [p] + Premises(later)
            && multiset(Premises([step] + later)) == multiset{p} + multiset(Premises(later))
            && Premises([step] + later)[1..] == Premises(later)
  {
    FeasibleBindsVars(shape(p).slots, shape(p).negated, env);
    assert Premises([StepOf(shape, env, p)] + later) == [p] + Premises(later);
  }

  /** Each premise is feasible in its turn, and no feasible one after it is cheaper. */
  ghost predicate InTurn<P>(shape: P -> Shape, env: set<Name>, order: seq<P>)
    decreases |order|
  {
    order == [] ||
    (&& Ready(shape(order[0]), env)
     && (forall p :: p in order[1..] && Ready(shape(p), env) ==> Cost(shape(order[0]), env) <= Cost(shape(p), env))
     && InTurn(shape, env + Gives(shape(order[0])), order[1..]))
  }

  lemma {:induction false} HeadIsBest<P>(shape: P -> Shape, env: set<Name>, order: seq<P>)
    requires order != [] && Ready(shape(order[0]), env)
    requires forall p :: p in order[1..] && Ready(shape(p), env) ==> Cost(shape(order[0]), env) <= Cost(shape(p), env)
    ensures Best(shape, env, order, |order|) == Some(0) && Removed(order, 0) == order[1..]
  {
    hide Ready, Cost;
    assert forall i :: 1 <= i < |order| ==> order[i] in order[1..];
  }

  /** The greedy order leaves such premises as they stand. */
  lemma {:induction false} GreedyKeepsTurns<P>(shape: P -> Shape, env: set<Name>, order: seq<P>)
    requires InTurn(shape, env, order)
    ensures Greedy(shape, env, order).Done? && Premises(Greedy(shape, env, order).steps) == order
    decreases |order|
  {
    hide Greedy, Ready, Gives, Cost, Best, Removed, StepOf, Premises;
    if order == [] {
      AllPlaced<P>(shape, env, []);
      NoStepsYet(env, Greedy(shape, env, order));
    } else {
      var step := StepOf(shape, env, order[0]);
      HeadIsBest(shape, env, order);
      GreedyStep(shape, env, order);
      FirstStep(shape, env, order[0], []);
      GreedyKeepsTurns(shape, env + step.binds, order[1..]);
      FirstStep(shape, env, order[0], Greedy(shape, env + step.binds, order[1..]).steps);
    }
  }

  // ---- Which order it is

  /** The premises at these positions. */
  ghost function Taken<P>(premises: seq<P>, at: seq<nat>): (r: seq<P>)
    requires forall k :: 0 <= k < |at| ==> at[k] < |premises|
    ensures |r| == |at| && forall k :: 0 <= k < |r| ==> r[k] == premises[at[k]]
  {
    seq(|at|, k requires 0 <= k < |at| => premises[at[k]])
  }

  /** Feasible in its turn, and of all feasible premises still to come the cheapest, the earliest of them on a tie. */
  ghost predicate Turns<P>(shape: P -> Shape, env: set<Name>, premises: seq<P>, at: seq<nat>)
    requires forall k :: 0 <= k < |at| ==> at[k] < |premises|
    decreases |at|
  {
    at == [] ||
    (var first := shape(premises[at[0]]);
     && Ready(first, env)
     && (forall k :: 0 < k < |at| && Ready(shape(premises[at[k]]), env) ==>
          || Cost(first, env) < Cost(shape(premises[at[k]]), env)
          || (Cost(first, env) == Cost(shape(premises[at[k]]), env) && at[0] < at[k]))
     && Turns(shape, env + Gives(first), premises, at[1..]))
  }

  ghost predicate InTurns<P>(shape: P -> Shape, env: set<Name>, premises: seq<P>, at: seq<nat>) {
    && |at| == |premises| && (forall k :: 0 <= k < |at| ==> at[k] < |premises|)
    && (forall i, j :: 0 <= i < j < |at| ==> at[i] != at[j])
    && Turns(shape, env, premises, at)
  }

  lemma {:induction false} TakenWithout<P>(premises: seq<P>, at: seq<nat>, i: nat)
    requires (forall k :: 0 <= k < |at| ==> at[k] < |premises|) && i < |at|
    ensures Taken(premises, Removed(at, i)) == Removed(Taken(premises, at), i)
  {
  }

  /** Where greedy ordering of some of the premises ends well, it has taken them in turn. */
  lemma {:induction false} GreedyTakes<P>(shape: P -> Shape, env: set<Name>, premises: seq<P>, left: seq<nat>)
    returns (at: seq<nat>)
    requires forall k :: 0 <= k < |left| ==> left[k] < |premises|
    requires forall i, j :: 0 <= i < j < |left| ==> left[i] < left[j]
    requires Greedy(shape, env, Taken(premises, left)).Done?
    ensures multiset(at) == multiset(left) && |at| == |left| && forall k :: 0 <= k < |at| ==> at[k] < |premises|
    ensures Turns(shape, env, premises, at)
    ensures Premises(Greedy(shape, env, Taken(premises, left)).steps) == Taken(premises, at)
    decreases |left|
  {
    hide Ready, Gives, Cost, Greedy, Best, StepOf, Premises, Removed, Turns, Taken;
    var rest := Taken(premises, left);
    if left == [] {
      at := [];
      NothingTaken(shape, env, premises);
    } else {
      if Best(shape, env, rest, |rest|).None? {
        NoneReady(shape, env, rest);
      }
      var i := Best(shape, env, rest, |rest|).value;
      var step := StepOf(shape, env, rest[i]);
      GreedyStep(shape, env, rest);
      TakenWithout(premises, left, i);
      FirstStep(shape, env, rest[i], []);
      WithoutAscends(left, i);
      var later := GreedyTakes(shape, env + step.binds, premises, Removed(left, i));
      at := [left[i]] + later;
      RemovedOne(left, i);
      FirstStep(shape, env, rest[i], Greedy(shape, env + step.binds, Removed(rest, i)).steps);
      FirstTurn(shape, env, premises, left, i, later);
      assert Taken(premises, at) == [rest[i]] + Taken(premises, later);
    }
  }

  lemma {:induction false} NothingTaken<P>(shape: P -> Shape, env: set<Name>, premises: seq<P>)
    ensures Turns(shape, env, premises, []) && Taken(premises, []) == []
    ensures Greedy(shape, env, Taken(premises, [])) == Done([]) && Premises<P>([]) == []
  {
  }

  lemma {:induction false} WithoutAscends(left: seq<nat>, i: nat)
    requires i < |left| && forall i, j :: 0 <= i < j < |left| ==> left[i] < left[j]
    ensures |Removed(left, i)| == |left| - 1
    ensures forall k :: 0 <= k < |left| - 1 ==> Removed(left, i)[k] == left[if k < i then k else k + 1]
    ensures forall i', j' :: 0 <= i' < j' < |left| - 1 ==> Removed(left, i)[i'] < Removed(left, i)[j']
  {
  }

  lemma {:induction false} FirstTurn<P>(shape: P -> Shape, env: set<Name>, premises: seq<P>, left: seq<nat>, i: nat,
          later: seq<nat>)
    requires forall k :: 0 <= k < |left| ==> left[k] < |premises|
    requires forall i, j :: 0 <= i < j < |left| ==> left[i] < left[j]
    requires left != [] && Best(shape, env, Taken(premises, left), |left|) == Some(i)
    requires i < |left| && multiset(later) == multiset(Removed(left, i))
    requires forall k :: 0 <= k < |later| ==> later[k] < |premises|
    requires Turns(shape, env + Gives(shape(premises[left[i]])), premises, later)
    ensures Turns(shape, env, premises, [left[i]] + later)
  {
    hide Ready, Gives, Cost;
    var at := [left[i]] + later;
    assert at[1..] == later;
    forall k | 0 < k < |at| ensures exists j :: 0 <= j < |left| && j != i && left[j] == at[k] {
      assert at[k] in multiset(later);
      var j :| 0 <= j < |Removed(left, i)| && Removed(left, i)[j] == at[k];
      assert left[if j < i then j else j + 1] == at[k];
    }
  }

  lemma {:induction false} GreedyTurns<P>(shape: P -> Shape, env: set<Name>, premises: seq<P>)
    ensures Greedy(shape, env, premises).Done? ==>
            exists at :: InTurns(shape, env, premises, at) &&
                         Premises(Greedy(shape, env, premises).steps) == Taken(premises, at)
  {
    hide Turns, Greedy;
    var all := seq(|premises|, i requires 0 <= i < |premises| => i as nat);
    assert Taken(premises, all) == premises;
    if Greedy(shape, env, premises).Done? {
      var at := GreedyTakes(shape, env, premises, all);
      Distinct(at, all);
      assert InTurns(shape, env, premises, at);
    }
  }

  lemma {:induction false} Distinct(at: seq<nat>, all: seq<nat>)
    requires multiset(at) == multiset(all) && forall i, j :: 0 <= i < j < |all| ==> all[i] < all[j]
    ensures forall i, j :: 0 <= i < j < |at| ==> at[i] != at[j]
  {
    forall i, j | 0 <= i < j < |at| ensures at[i] != at[j] {
      if at[i] == at[j] {
        assert at == at[..i] + [at[i]] + at[i + 1..j] + [at[j]] + at[j + 1..];
        assert multiset(at)[at[i]] >= 2;
        OnlyOnce(all, at[i]);
      }
    }
  }

  lemma {:induction false} OnlyOnce(all: seq<nat>, n: nat)
    requires forall i, j :: 0 <= i < j < |all| ==> all[i] < all[j]
    ensures multiset(all)[n] <= 1
  {
    if all != [] {
      OnlyOnce(all[1..], n);
      assert all == [all[0]] + all[1..];
      assert forall k :: k in all[1..] ==> all[0] < k;
    }
  }

  /** There is only one such order. */
  lemma {:induction false} TurnsAreUnique<P>(shape: P -> Shape, env: set<Name>, premises: seq<P>, a: seq<nat>,
          b: seq<nat>)
    requires (forall k :: 0 <= k < |a| ==> a[k] < |premises|) && (forall k :: 0 <= k < |b| ==> b[k] < |premises|)
    requires Turns(shape, env, premises, a) && Turns(shape, env, premises, b) && multiset(a) == multiset(b)
    ensures a == b
    decreases |a|
  {
    hide Ready, Gives, Cost, Turns;
    if a == [] || b == [] {
      assert |multiset(a)| == |multiset(b)|;
    } else {
      SameFirst(shape, env, premises, a, b);
      TurnsOn(shape, env, premises, a);
      TurnsOn(shape, env, premises, b);
      assert a == [a[0]] + a[1..] && b == [b[0]] + b[1..];
      assert multiset(a[1..]) == multiset(a) - multiset{a[0]} == multiset(b[1..]);
      TurnsAreUnique(shape, env + Gives(shape(premises[a[0]])), premises, a[1..], b[1..]);
    }
  }

  lemma {:induction false} TurnsOn<P>(shape: P -> Shape, env: set<Name>, premises: seq<P>, at: seq<nat>)
    requires (forall k :: 0 <= k < |at| ==> at[k] < |premises|) && at != [] && Turns(shape, env, premises, at)
    ensures Turns(shape, env + Gives(shape(premises[at[0]])), premises, at[1..])
  {
    hide Ready, Gives, Cost;
  }

  lemma {:induction false} SameFirst<P>(shape: P -> Shape, env: set<Name>, premises: seq<P>, a: seq<nat>, b: seq<nat>)
    requires (forall k :: 0 <= k < |a| ==> a[k] < |premises|) && (forall k :: 0 <= k < |b| ==> b[k] < |premises|)
    requires a != [] && b != [] && multiset(a) == multiset(b)
    requires Turns(shape, env, premises, a) && Turns(shape, env, premises, b)
    ensures a[0] == b[0]
  {
    hide Ready, Gives, Cost;
    assert a[0] in multiset(b) && b[0] in multiset(a);
    var i :| 0 <= i < |b| && b[i] == a[0];
    var j :| 0 <= j < |a| && a[j] == b[0];
  }

  // ---- What is reported when there is none

  /** No feasible run of the premises, complete or not, binds any of these names. */
  ghost predicate Unreachable<P(!new)>(shape: P -> Shape, env: set<Name>, premises: seq<P>, names: set<Name>) {
    forall order :: Runs(shape, env, order) && (forall p :: p in order ==> p in premises) ==>
      names !! After(shape, env, order)
  }

  lemma {:induction false} StuckIsUnreachable<P(!new)>(shape: P -> Shape, env: set<Name>, premises: seq<P>)
    ensures var e := Greedy(shape, env, premises);
            e.Stuck? ==> e.rest != [] && Unreachable(shape, env, premises, Needs(shape(e.rest[0]).slots, e.bound))
  {
    hide Greedy, Runs, After, Needs;
    var e := Greedy(shape, env, premises);
    if e.Stuck? {
      RequiredIsUnreachable(shape, env, premises, []) by {
        NothingRuns(shape, env);
      }
      forall order | Runs(shape, env, order) && (forall p :: p in order ==> p in premises)
        ensures Needs(shape(e.rest[0]).slots, e.bound) !! After(shape, env, order)
      {
        RequiredIsUnreachable(shape, env, premises, order);
      }
    }
  }

  lemma NothingRuns<P>(shape: P -> Shape, env: set<Name>)
    ensures Runs(shape, env, [])
  {
  }

  // ---- Greedy ordering is complete

  lemma {:induction false} ReadyGrows(s: Shape, env: set<Name>, larger: set<Name>)
    requires env <= larger && Ready(s, env)
    ensures Ready(s, larger)
  {
    NeedsShrink(s.slots, env, larger);
  }

  /** Where greedy ordering stops, nothing left is feasible and everything else has been bound. */
  lemma {:induction false} StuckIsClosed<P>(shape: P -> Shape, env: set<Name>, premises: seq<P>)
    requires Greedy(shape, env, premises).Stuck?
    ensures var e := Greedy(shape, env, premises);
            && env <= e.bound && e.rest != []
            && (forall p :: p in e.rest ==> p in premises && !Ready(shape(p), e.bound))
            && (forall p :: p in premises ==> p in e.rest || Gives(shape(p)) <= e.bound)
    decreases |premises|
  {
    if Best(shape, env, premises, |premises|).None? {
      NoneReady(shape, env, premises);
    } else {
      var i := Best(shape, env, premises, |premises|).value;
      GreedyStep(shape, env, premises);
      FirstStep(shape, env, premises[i], []);
      StuckIsClosed(shape, env + StepOf(shape, env, premises[i]).binds, Removed(premises, i));
      RemovedOne(premises, i);
    }
  }

  /** No feasible run of the premises, complete or not, gets past a stuck bound set. */
  lemma {:induction false} NothingGetsFurther<P>(shape: P -> Shape, env: set<Name>, order: seq<P>, bound: set<Name>,
          rest: seq<P>)
    requires env <= bound && Runs(shape, env, order)
    requires forall p :: p in rest ==> !Ready(shape(p), bound)
    requires forall p :: p in order ==> p in rest || Gives(shape(p)) <= bound
    ensures After(shape, env, order) <= bound && forall p :: p in order ==> p !in rest
    decreases |order|
  {
    if order != [] {
      var p := order[0];
      if p in rest {
        ReadyGrows(shape(p), env, bound);
      }
      assert forall q :: q in order[1..] ==> q in order;
      NothingGetsFurther(shape, env + Gives(shape(p)), order[1..], bound, rest);
      assert forall q :: q in order ==> q == p || q in order[1..];
    }
  }

  lemma {:induction false} SameElements<P>(a: seq<P>, b: seq<P>)
    requires multiset(a) == multiset(b)
    ensures forall p :: p in a <==> p in b
  {
    forall p ensures p in a <==> p in b {
      assert p in a <==> p in multiset(a);
      assert p in b <==> p in multiset(b);
    }
  }

  lemma {:induction false} StuckHasNoOrder<P>(shape: P -> Shape, env: set<Name>, premises: seq<P>, order: seq<P>)
    requires Greedy(shape, env, premises).Stuck?
    ensures !Ordering(shape, env, premises, order)
  {
    hide Greedy, Best, Ready;
    var e := Greedy(shape, env, premises);
    StuckIsClosed(shape, env, premises);
    assert e.rest[0] in e.rest && e.rest[0] in premises;
    if Ordering(shape, env, premises, order) {
      SameElements(order, premises);
      NothingGetsFurther(shape, env, order, e.bound, e.rest);
    }
  }

  /** The planner finds an order exactly when there is one. */
  lemma {:induction false} GreedyIsComplete<P(!new)>(shape: P -> Shape, env: set<Name>, premises: seq<P>)
    ensures Greedy(shape, env, premises).Done? <==> Plannable(shape, env, premises)
  {
    hide Greedy, Ordering;
    if Greedy(shape, env, premises).Done? {
      DoneIsOrdering(shape, env, premises);
    } else {
      forall order: seq<P> ensures !Ordering(shape, env, premises, order) {
        StuckHasNoOrder(shape, env, premises, order);
      }
    }
  }

  /** The names reported missing are ones no feasible run of the premises can ever bind. */
  lemma {:induction false} RequiredIsUnreachable<P>(shape: P -> Shape, env: set<Name>, premises: seq<P>, order: seq<P>)
    requires Greedy(shape, env, premises).Stuck?
    requires Runs(shape, env, order) && forall p :: p in order ==> p in premises
    ensures var e := Greedy(shape, env, premises);
            e.rest != [] && Needs(shape(e.rest[0]).slots, e.bound) != {}
            && Needs(shape(e.rest[0]).slots, e.bound) !! After(shape, env, order)
  {
    var e := Greedy(shape, env, premises);
    StuckIsClosed(shape, env, premises);
    NothingGetsFurther(shape, env, order, e.bound, e.rest);
    assert e.rest[0] in e.rest;
    NeedsAreUnbound(shape(e.rest[0]).slots, e.bound);
  }

  lemma {:induction false} RecordedBinds<P>(shape: P -> Shape, env: set<Name>, steps: seq<Step<P>>)
    requires Recorded(shape, env, steps) && steps != []
    ensures env + steps[0].binds == env + Gives(shape(steps[0].premise))
    ensures Recorded(shape, env + steps[0].binds, steps[1..])
  {
    hide Vars;
  }

  lemma {:induction false} BoundIsAfter<P>(shape: P -> Shape, env: set<Name>, steps: seq<Step<P>>)
    requires Recorded(shape, env, steps) && Runs(shape, env, Premises(steps))
    ensures Bound(env, steps) == After(shape, env, Premises(steps))
    decreases |steps|
  {
    hide Ready, Gives;
    if steps != [] {
      var rest := steps[1..];
      RecordedBinds(shape, env, steps);
      assert Premises(steps)[1..] == Premises(rest) && Premises(steps)[0] == steps[0].premise;
      BoundIsAfter(shape, env + steps[0].binds, rest);
      BoundFrom(env, steps);
    }
  }

  lemma {:induction false} BoundFrom<P>(env: set<Name>, steps: seq<Step<P>>)
    requires steps != []
    ensures Bound(env, steps) == Bound(env + steps[0].binds, steps[1..])
    decreases |steps|
  {
    if |steps| > 1 {
      BoundFrom(env, steps[..|steps| - 1]);
      assert steps[..|steps| - 1][1..] == steps[1..][..|steps| - 2];
    }
  }

  lemma {:induction false} GreedyMeans<P(!new)>(shape: P -> Shape, env: set<Name>, premises: seq<P>)
    ensures Greedy(shape, env, premises).Done? <==> Plannable(shape, env, premises)
    ensures match Greedy(shape, env, premises)
            case Done(steps) =>
              && Ordering(shape, env, premises, Premises(steps)) && Recorded(shape, env, steps)
              && Bound(env, steps) == After(shape, env, premises)
            case Stuck(bound, rest) => rest != [] && Needs(shape(rest[0]).slots, bound) != {}
  {
    GreedyIsComplete(shape, env, premises);
    match Greedy(shape, env, premises) {
      case Done(steps) =>
        DoneIsOrdering(shape, env, premises);
        BoundIsAfter(shape, env, steps);
        BindsAnyOrder(shape, env, premises, Premises(steps));
      case Stuck(bound, rest) =>
        StuckIsClosed(shape, env, premises);
        assert rest[0] in rest;
    }
  }

  // ---- What a plan binds does not depend on the order

  ghost function GivesAll<P>(shape: P -> Shape, order: seq<P>): set<Name> {
    set p, n | p in order && n in Gives(shape(p)) :: n
  }

  lemma {:induction false} AfterIsUnion<P>(shape: P -> Shape, env: set<Name>, order: seq<P>)
    ensures After(shape, env, order) == env + GivesAll(shape, order)
    decreases |order|
  {
    if order != [] {
      AfterIsUnion(shape, env + Gives(shape(order[0])), order[1..]);
      assert forall q :: q in order <==> q == order[0] || q in order[1..];
    }
  }

  lemma {:induction false} BindsAnyOrder<P>(shape: P -> Shape, env: set<Name>, premises: seq<P>, order: seq<P>)
    requires multiset(order) == multiset(premises)
    ensures After(shape, env, order) == After(shape, env, premises)
  {
    AfterIsUnion(shape, env, order);
    AfterIsUnion(shape, env, premises);
    SameElements(order, premises);
    assert GivesAll(shape, order) == GivesAll(shape, premises);
  }

  lemma {:induction false} RunsGrow<P>(shape: P -> Shape, env: set<Name>, larger: set<Name>, order: seq<P>)
    requires env <= larger && Runs(shape, env, order)
    ensures Runs(shape, larger, order)
    decreases |order|
  {
    if order != [] {
      ReadyGrows(shape(order[0]), env, larger);
      RunsGrow(shape, env + Gives(shape(order[0])), larger + Gives(shape(order[0])), order[1..]);
    }
  }

  /** Premises that can be ordered in one scope can be ordered in every larger one. */
  lemma {:induction false} PlannableGrows<P(!new)>(shape: P -> Shape, env: set<Name>, larger: set<Name>,
          premises: seq<P>)
    requires env <= larger && Plannable(shape, env, premises)
    ensures Plannable(shape, larger, premises)
  {
    var order: seq<P> :| Ordering(shape, env, premises, order);
    RunsGrow(shape, env, larger, order);
    assert Ordering(shape, larger, premises, order);
  }
}
