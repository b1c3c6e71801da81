/**
 * The set of bound variable names that planning carries along.
 */
module Environments {
  type Name = string

  class Environment {
    var variables: set<Name>

    constructor (names: set<Name>)
      ensures variables == names
    {
      variables := names;
    }

    /** Adds every name of `other` and reports the ones that were new. */
    method Extend(other: set<Name>) returns (delta: set<Name>)
      modifies this
      ensures variables == old(variables) + other
      ensures delta == other - old(variables)
    {
      delta := {};
      var rest := other;
      while rest != {}
        invariant rest <= other
        invariant variables == old(variables) + (other - rest)
        invariant delta == (other - rest) - old(variables)
        decreases |rest|
      {
        var name :| name in rest;
        if name !in variables {
          delta := delta + {name};
        }
        variables := variables + {name};
        rest := rest - {name};
      }
    }
  }
}

/**
 * When a premise may run: which names it still needs and which it will bind,
 * from the requirement on each of its slots and the names bound so far.
 */
module Feasibility {
  import opened Options
  import opened Environments

  /** A term as planning sees it. */
  datatype Param = Constant | Blank | Named(name: Name)

  predicate IsBound(p: Param, env: set<Name>) {
    p.Constant? || (p.Named? && p.name in env)
  }

  /** A required slot of a choice group is met as soon as one slot of the group is. */
  datatype Requirement = Required(group: Option<nat>) | Optional

  datatype Slot = Slot(param: Param, requirement: Requirement)

  predicate InGroup(s: Slot) {
    s.requirement.Required? && s.requirement.group.Some?
  }

  function Vars(slots: seq<Slot>): set<Name> {
    set i | 0 <= i < |slots| && slots[i].param.Named? :: slots[i].param.name
  }

  predicate GroupMet(slots: seq<Slot>, env: set<Name>, group: nat) {
    exists i :: 0 <= i < |slots| && slots[i].requirement == Required(Some(group)) && IsBound(slots[i].param, env)
  }

  /** Whether an unbound name in this slot keeps the premise waiting. */
  predicate Waits(slots: seq<Slot>, env: set<Name>, s: Slot) {
    s.requirement.Required? && (InGroup(s) ==> !GroupMet(slots, env, s.requirement.group.value))
  }

  predicate Open(s: Slot, env: set<Name>) {
    s.param.Named? && s.param.name !in env
  }

  function Needs(slots: seq<Slot>, env: set<Name>): set<Name> {
    set i | 0 <= i < |slots| && Open(slots[i], env) && Waits(slots, env, slots[i]) :: slots[i].param.name
  }

  function Binds(slots: seq<Slot>, negated: bool, env: set<Name>): set<Name> {
    set i | 0 <= i < |slots| && !negated && Open(slots[i], env) && !Waits(slots, env, slots[i]) :: slots[i].param.name
  }

  predicate Feasible(slots: seq<Slot>, env: set<Name>) {
    Needs(slots, env) == {}
  }

  /** The names a premise leaves bound once it has run. */
  function Provides(slots: seq<Slot>, negated: bool): set<Name> {
    if negated then {} else Vars(slots)
  }

  method Categorize(slots: seq<Slot>, negated: bool, env: set<Name>) returns (binds: set<Name>, needs: set<Name>)
    ensures binds == Binds(slots, negated, env) && needs == Needs(slots, env)
  {
    var met := MetGroups(slots, env);
    binds, needs := {}, {};
    for i := 0 to |slots|
      invariant needs == set k | 0 <= k < i && Open(slots[k], env) && Waits(slots, env, slots[k]) :: slots[k].param.name
      invariant binds == set k | 0 <= k < i && !negated && Open(slots[k], env) &&
                !Waits(slots, env, slots[k]) :: slots[k].param.name
    {
      var s := slots[i];
      if Open(s, env) {
        match s.requirement {
          case Required(Some(group)) =>
            if group in met {
              if !negated {
                binds := binds + {s.param.name};
              }
            } else {
              needs := needs + {s.param.name};
            }
          case Required(None) => needs := needs + {s.param.name};
          case Optional =>
            if !negated {
              binds := binds + {s.param.name};
            }
        }
      }
    }
  }

  method MetGroups(slots: seq<Slot>, env: set<Name>) returns (met: set<nat>)
    ensures forall g :: g in met <==> GroupMet(slots, env, g)
  {
    met := {};
    for i := 0 to |slots|
      invariant forall g :: g in met <==>
                exists k :: 0 <= k < i && slots[k].requirement == Required(Some(g)) && IsBound(slots[k].param, env)
    {
      if InGroup(slots[i]) && IsBound(slots[i].param, env) {
        met := met + {slots[i].requirement.group.value};
      }
    }
  }

  /** The slot holds this name unbound, and is required outright or through a group none of whose slots is bound. */
  predicate Demanding(slots: seq<Slot>, env: set<Name>, i: nat, n: Name) {
    && i < |slots| && slots[i].param == Named(n)
    && match slots[i].requirement
       case Optional => false
       case Required(None) => true
       case Required(Some(g)) =>
         forall j :: 0 <= j < |slots| && slots[j].requirement == Required(Some(g)) ==>
           slots[j].param == Blank || (slots[j].param.Named? && slots[j].param.name !in env)
  }

  /** A name is needed exactly when it is unbound and some slot demands it; a premise is feasible exactly when no slot
      demands an unbound name. */
  lemma {:induction false} NeedsAre(slots: seq<Slot>, env: set<Name>, n: Name)
    ensures n in Needs(slots, env) <==> n !in env && exists i :: Demanding(slots, env, i, n)
  {
    forall i | 0 <= i < |slots| && slots[i].param == Named(n)
      ensures Waits(slots, env, slots[i]) <==> Demanding(slots, env, i, n)
    {
      if InGroup(slots[i]) {
        var g := slots[i].requirement.group.value;
        assert GroupMet(slots, env, g) <==>
               exists j :: 0 <= j < |slots| && slots[j].requirement == Required(Some(g)) &&
                 IsBound(slots[j].param, env);
      }
    }
    if n in Needs(slots, env) {
      var i :| 0 <= i < |slots| && Open(slots[i], env) && Waits(slots, env, slots[i]) && slots[i].param.name == n;
      assert Demanding(slots, env, i, n);
    }
    if n !in env && exists i :: Demanding(slots, env, i, n) {
      var i: nat :| Demanding(slots, env, i, n);
      assert Open(slots[i], env) && Waits(slots, env, slots[i]);
    }
  }

  /** A name is bound by running exactly when the premise is positive, and the name is unbound and stands in some slot
      that does not demand it. */
  lemma {:induction false} BindsAre(slots: seq<Slot>, negated: bool, env: set<Name>, n: Name)
    ensures n in Binds(slots, negated, env) <==>
            && !negated && n !in env
            && exists i: nat :: i < |slots| && slots[i].param == Named(n) && !Demanding(slots, env, i, n)
  {
    forall i: nat | i < |slots| && slots[i].param == Named(n)
      ensures Waits(slots, env, slots[i]) <==> Demanding(slots, env, i, n)
    {
      if InGroup(slots[i]) {
        var g := slots[i].requirement.group.value;
        assert GroupMet(slots, env, g) <==>
               exists j :: 0 <= j < |slots| && slots[j].requirement == Required(Some(g)) &&
                 IsBound(slots[j].param, env);
      }
    }
    if n in Binds(slots, negated, env) {
      var i :| 0 <= i < |slots| && Open(slots[i], env) && !Waits(slots, env, slots[i]) && slots[i].param.name == n;
      assert !Demanding(slots, env, i, n);
    }
    if !negated && n !in env &&
       (exists i: nat :: i < |slots| && slots[i].param == Named(n) && !Demanding(slots, env, i, n)) {
      var i: nat :| i < |slots| && slots[i].param == Named(n) && !Demanding(slots, env, i, n);
      assert Open(slots[i], env) && !Waits(slots, env, slots[i]);
    }
  }

  /** Every open name is needed or about to be bound, and nothing else is. */
  lemma OpenIsNeededOrBound(slots: seq<Slot>, env: set<Name>)
    ensures Needs(slots, env) + Binds(slots, false, env) == Vars(slots) - env
  {
    forall n | n in Vars(slots) - env ensures n in Needs(slots, env) + Binds(slots, false, env) {
      var i :| 0 <= i < |slots| && slots[i].param == Named(n);
      assert Open(slots[i], env);
    }
  }

  /** Running a feasible premise binds exactly the names it mentions, whatever was bound before. */
  lemma FeasibleBindsVars(slots: seq<Slot>, negated: bool, env: set<Name>)
    requires Feasible(slots, env)
    ensures env + Binds(slots, negated, env) == env + Provides(slots, negated)
  {
    OpenIsNeededOrBound(slots, env);
    if negated {
      assert Binds(slots, negated, env) == {};
    }
  }

  lemma GroupMetGrows(slots: seq<Slot>, env: set<Name>, larger: set<Name>, group: nat)
    requires env <= larger && GroupMet(slots, env, group)
    ensures GroupMet(slots, larger, group)
  {
    var i :| 0 <= i < |slots| && slots[i].requirement == Required(Some(group)) && IsBound(slots[i].param, env);
    assert IsBound(slots[i].param, larger);
  }

  /** Binding more names never makes a premise need more. */
  lemma NeedsShrink(slots: seq<Slot>, env: set<Name>, larger: set<Name>)
    requires env <= larger
    ensures Needs(slots, larger) <= Needs(slots, env)
  {
    forall i | 0 <= i < |slots| && Open(slots[i], larger) && Waits(slots, larger, slots[i])
      ensures Open(slots[i], env) && Waits(slots, env, slots[i])
    {
      if InGroup(slots[i]) && GroupMet(slots, env, slots[i].requirement.group.value) {
        GroupMetGrows(slots, env, larger, slots[i].requirement.group.value);
      }
    }
  }

  /** A premise waits for a name, so its needs are never among the bound ones. */
  lemma NeedsAreUnbound(slots: seq<Slot>, env: set<Name>)
    ensures Needs(slots, env) !! env
  {
  }
}
