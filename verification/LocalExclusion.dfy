/** Excluding from an update the modules whose code is absent, with all that depends on them
    (odoo_manager_web.py: local_ignore_plan, cancel_missing_module_operations_job, available_update_modules). */
module LocalExclusion {
  type States = map<string, string>

  predicate Transient(state: string) {
    state == "to install" || state == "to upgrade" || state == "to remove"
  }

  predicate ActiveState(state: string) {
    state == "installed" || Transient(state)
  }

  predicate ActiveIn(states: States, name: string) {
    name in states && ActiveState(states[name])
  }

  /** A database: the states of its modules, the code available, what was excluded before, and the modules
      without code by nature. `dependencies` pairs each active module with one of its dependencies. */
  datatype Base = Base(
    states: States,
    available: set<string>,
    excluded: set<string>,
    databaseOnly: set<string>,
    dependencies: seq<(string, string)>)

  /** A requested module that can be excluded: its operation is pending and its code is absent. */
  function Candidates(b: Base, requested: set<string>): set<string> {
    set n | n in requested && n in b.states && Transient(b.states[n]) && n !in b.available && n !in b.databaseOnly
  }

  // --- The closure ----------------------------------------------------------------------------------------

  /** It holds every active module that depends on one of its own. */
  ghost predicate Closed(b: Base, s: set<string>) {
    forall i :: 0 <= i < |b.dependencies| ==>
      var (dependent, dependency) := b.dependencies[i];
      && dependency in s && dependent in b.states
      && b.states[dependent] in {"installed", "to install", "to upgrade", "to remove"}
      ==> dependent in s
  }

  ghost predicate Least(b: Base, from: set<string>, s: set<string>) {
    from <= s && Closed(b, s) && forall t: set<string> :: from <= t && Closed(b, t) ==> s <= t
  }

  ghost predicate BelowClosed(b: Base, from: set<string>, s: set<string>) {
    forall t: set<string> :: from <= t && Closed(b, t) ==> s <= t
  }

  lemma {:induction false} DependentIsNeeded(b: Base, from: set<string>, s: set<string>, i: nat)
    requires BelowClosed(b, from, s) && i < |b.dependencies|
    requires b.dependencies[i].1 in s && ActiveIn(b.states, b.dependencies[i].0)
    ensures BelowClosed(b, from, s + {b.dependencies[i].0})
  {
    forall t: set<string> | from <= t && Closed(b, t) ensures s + {b.dependencies[i].0} <= t {
      assert b.dependencies[i].1 in t;
    }
  }

  /** What is excluded: the candidates, what was excluded before, and all the active modules that depend on
      them. `automatic` are those added by the closure. */
  method LocalIgnorePlan(b: Base, requested: set<string>)
    returns (candidates: set<string>, invalid: set<string>, automatic: set<string>)
    ensures candidates == Candidates(b, requested) && invalid == requested - candidates
    ensures forall n :: n in candidates <==>
      && n in requested && n in b.states && b.states[n] in {"to install", "to upgrade", "to remove"}
      && n !in b.available && n !in b.databaseOnly
    ensures Least(b, candidates + b.excluded, candidates + b.excluded + automatic)
    ensures automatic !! candidates + b.excluded
    ensures forall n :: n in automatic ==> ActiveIn(b.states, n)
  {
    hide ActiveIn, Closed, BelowClosed;
    candidates := Candidates(b, requested);
    invalid := requested - candidates;
    ghost var from := candidates + b.excluded;
    var excluded := candidates + b.excluded;
    automatic := {};
    assert BelowClosed(b, from, from) by {
      StartIsBelow(b, from);
    }
    var changed := true;
    while changed
      invariant excluded == from + automatic && automatic !! from
      invariant BelowClosed(b, from, excluded)
      invariant forall n :: n in automatic ==> ActiveIn(b.states, n) && n in b.states
      invariant !changed ==> Closed(b, excluded)
      decreases b.states.Keys - automatic, changed
    {
      changed := false;
      ghost var before := automatic;
      for i := 0 to |b.dependencies|
        invariant excluded == from + automatic && automatic !! from && before <= automatic
        invariant BelowClosed(b, from, excluded)
        invariant forall n :: n in automatic ==> ActiveIn(b.states, n) && n in b.states
        invariant changed ==> before < automatic
        invariant !changed ==> automatic == before && ClosedUpTo(b, excluded, i)
      {
        var (dependent, dependency) := b.dependencies[i];
        if dependency in excluded && dependent !in excluded && ActiveIn(b.states, dependent) {
          DependentIsNeeded(b, from, excluded, i);
          ActiveIsKnown(b.states, dependent);
          assert dependent !in automatic;
          excluded := excluded + {dependent};
          automatic := automatic + {dependent};
          changed := true;
        }
      }
      if !changed {
        ClosedToTheEnd(b, excluded);
      } else {
        ShrinkingRest(b.states.Keys, before, automatic);
      }
    }
    ClosedIsLeast(b, from, excluded);
  }

  ghost predicate ClosedUpTo(b: Base, s: set<string>, n: nat)
    requires n <= |b.dependencies|
  {
    forall i :: 0 <= i < n ==>
      b.dependencies[i].1 in s && ActiveIn(b.states, b.dependencies[i].0) ==> b.dependencies[i].0 in s
  }

  lemma {:induction false} ShrinkingRest(all: set<string>, before: set<string>, after: set<string>)
    requires before < after <= all
    ensures all - after < all - before
  {
    var n :| n in after && n !in before;
    assert n in all - before && n !in all - after;
  }

  lemma {:induction false} StartIsBelow(b: Base, from: set<string>)
    ensures BelowClosed(b, from, from)
  {
  }

  lemma {:induction false} ActiveIsKnown(states: States, name: string)
    requires ActiveIn(states, name)
    ensures name in states
  {
  }

  lemma {:induction false} ClosedToTheEnd(b: Base, s: set<string>)
    requires ClosedUpTo(b, s, |b.dependencies|)
    ensures Closed(b, s)
  {
  }

  lemma {:induction false} ClosedIsLeast(b: Base, from: set<string>, s: set<string>)
    requires from <= s && Closed(b, s) && BelowClosed(b, from, s)
    ensures Least(b, from, s)
  {
  }

  // --- The database after the exclusion -----------------------------------------------------------------------

  /** What the transaction writes: a pending installation is cancelled, another operation leaves its module
      installed. */
  function Reset(state: string): string {
    if state == "to install" then "uninstalled" else "installed"
  }

  function ResetModules(b: Base, candidates: set<string>, automatic: set<string>): set<string> {
    candidates + set n | n in automatic && n in b.states && Transient(b.states[n])
  }

  function After(b: Base, candidates: set<string>, automatic: set<string>): Base {
    var reset := ResetModules(b, candidates, automatic);
    var states := map n | n in b.states ::
      if n in reset && Transient(b.states[n]) then Reset(b.states[n]) else b.states[n];
    // Remembered: the modules reset to installed, and the automatic ones that already were.
    var retained := set n | n in b.states && states[n] == "installed" && (n in reset || n in automatic);
    b.(states := states, excluded := b.excluded + retained)
  }

  /** The exclusions an update takes into account. */
  function Exceptions(b: Base): set<string> {
    set n | n in b.excluded && n in b.states && b.states[n] == "installed"
  }

  function UpdateList(b: Base): set<string> {
    set n | n in b.states && n in b.available && n !in Exceptions(b)
            && (b.states[n] == "installed" || b.states[n] == "to upgrade")
  }

  /** A chain of dependencies through modules active before the exclusion. */
  ghost predicate DependsOn(b: Base, path: seq<string>)
    decreases |path|
  {
    path != []
    && (|path| == 1
        || ((path[0], path[1]) in b.dependencies && ActiveIn(b.states, path[0]) && DependsOn(b, path[1..])))
  }

  /** A closed set holds everything that leads to it. */
  lemma {:induction false} DependentsAreIn(b: Base, s: set<string>, path: seq<string>)
    requires Closed(b, s) && DependsOn(b, path) && path[|path| - 1] in s
    ensures path[0] in s
    decreases |path|
  {
    if |path| > 1 {
      DependentsAreIn(b, s, path[1..]);
      var i :| 0 <= i < |b.dependencies| && b.dependencies[i] == (path[0], path[1]);
    }
  }

  /** A module excluded before that is again to be upgraded, its code being back. */
  predicate Reactivated(b: Base, n: string) {
    n in b.excluded && n in b.available && n in b.states && b.states[n] == "to upgrade"
  }

  lemma {:induction false} ListedIsReactivated(b: Base, candidates: set<string>, automatic: set<string>, n: string)
    requires forall c :: c in candidates ==> c !in b.available
    requires automatic !! candidates + b.excluded && forall a :: a in automatic ==> ActiveIn(b.states, a)
    requires n in candidates + b.excluded + automatic
    ensures n in UpdateList(After(b, candidates, automatic)) <==> Reactivated(b, n)
  {
    var after := After(b, candidates, automatic);
    if n in automatic {
      assert n in after.states;
    } else if n in candidates {
      assert n !in after.available;
    } else {
      assert n in b.states ==> after.states[n] == b.states[n];
    }
  }

  /** The states the transaction leaves, and the modules remembered as excluded. */
  lemma {:induction false} StatesAfter(b: Base, candidates: set<string>, automatic: set<string>, n: string)
    requires n in b.states && forall c :: c in candidates ==> c in b.states && Transient(b.states[c])
    ensures var after, pending := After(b, candidates, automatic), {"to install", "to upgrade", "to remove"};
      && after.states.Keys == b.states.Keys && after.available == b.available
      && after.states[n] == (
           if (n in candidates || n in automatic) && b.states[n] in pending then
             if b.states[n] == "to install" then "uninstalled" else "installed"
           else b.states[n])
      && (n in after.excluded <==>
            n in b.excluded || (n in automatic && b.states[n] == "installed")
            || ((n in candidates || n in automatic) && b.states[n] in {"to upgrade", "to remove"}))
  {
  }

  /** The update list after the exclusion: what has its code and is not swept along, installed and never excluded
      before, or waiting to be upgraded. */
  lemma {:induction false} ListedIff(b: Base, candidates: set<string>, automatic: set<string>, n: string)
    requires forall c :: c in candidates ==> c !in b.available && c in b.states && Transient(b.states[c])
    requires forall a :: a in automatic ==> ActiveIn(b.states, a)
    ensures n in UpdateList(After(b, candidates, automatic)) <==>
      && n in b.states && n in b.available && n !in automatic
      && ((b.states[n] == "installed" && n !in b.excluded) || b.states[n] == "to upgrade")
  {
    if n in b.states {
      StatesAfter(b, candidates, automatic, n);
    }
  }

  /** After the exclusion, no module of the update list is excluded or depends on an excluded one, if and only
      if no module excluded before is waiting to be upgraded again. */
  lemma {:induction false} UpdateListIsCleanIff(
    b: Base, requested: set<string>, candidates: set<string>, automatic: set<string>)
    requires candidates == Candidates(b, requested)
    requires Least(b, candidates + b.excluded, candidates + b.excluded + automatic)
    requires automatic !! candidates + b.excluded && forall n :: n in automatic ==> ActiveIn(b.states, n)
    ensures (forall path :: DependsOn(b, path) && path[|path| - 1] in candidates + b.excluded + automatic
               ==> path[0] !in UpdateList(After(b, candidates, automatic)))
            <==> (forall n :: n in b.excluded ==> !Reactivated(b, n))
  {
    hide After, UpdateList, Closed, ActiveIn;
    var all := candidates + b.excluded + automatic;
    var list := UpdateList(After(b, candidates, automatic));
    if forall n :: n in b.excluded ==> !Reactivated(b, n) {
      forall path | DependsOn(b, path) && path[|path| - 1] in all ensures path[0] !in list {
        DependentsAreIn(b, all, path);
        ListedIsReactivated(b, candidates, automatic, path[0]);
      }
    } else {
      var n :| n in b.excluded && Reactivated(b, n);
      ListedIsReactivated(b, candidates, automatic, n);
      assert DependsOn(b, [n]) && [n][|[n]| - 1] in all;
    }
  }
}
