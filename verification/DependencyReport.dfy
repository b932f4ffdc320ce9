/** Which installed modules Odoo will not load, and why (odoo_manager_core/module_dependencies.py). */
module DependencyReport {
  import opened Sets

  datatype Entry = Entry(depends: seq<string>, installable: bool)
  type Graph = map<string, Entry>

  /** Code absent from the project, or not installable. */
  predicate Unavailable(graph: Graph, name: string) {
    name !in graph || !graph[name].installable
  }

  /** A project: its manifests, the modules its database says are active, and those without code. */
  datatype Project = Project(graph: Graph, active: set<string>, databaseOnly: set<string>)

  function Candidates(p: Project): set<string> {
    set name | name in p.active - p.databaseOnly && !Unavailable(p.graph, name)
  }

  /** The dependencies that keep a module from loading, given those already known not to load. */
  predicate Blocks(p: Project, notLoaded: set<string>, dependency: string) {
    dependency !in p.databaseOnly && (dependency in notLoaded || Unavailable(p.graph, dependency))
  }

  function Blocking(p: Project, notLoaded: set<string>, depends: seq<string>): (r: seq<string>)
    ensures forall d :: d in r <==> d in depends && Blocks(p, notLoaded, d)
  {
    if depends == [] then []
    else (if Blocks(p, notLoaded, depends[0]) then [depends[0]] else []) + Blocking(p, notLoaded, depends[1..])
  }

  // --- The fixpoint -----------------------------------------------------------------------------------

  /** A set that holds every available active module with a blocking dependency. */
  ghost predicate Closed(p: Project, s: set<string>) {
    forall name, d ::
      && name in p.active && name !in p.databaseOnly && name in p.graph && p.graph[name].installable
      && d in p.graph[name].depends && d !in p.databaseOnly
      && (d in s || d !in p.graph || !p.graph[d].installable)
      ==> name in s
  }

  ghost predicate Least(p: Project, s: set<string>) {
    Closed(p, s) && forall t: set<string> :: Closed(p, t) ==> s <= t
  }

  /** Why a module is not loaded: dependencies found before it, or unavailable; all the unavailable ones. */
  ghost predicate Explained(p: Project, notLoaded: map<string, seq<string>>, rank: map<string, nat>, name: string)
    requires name in notLoaded && name in rank && name in p.graph
  {
    && notLoaded[name] != []
    && (forall d :: d in notLoaded[name] ==>
          && d in p.graph[name].depends && d !in p.databaseOnly
          && (d in notLoaded ==> d in rank && rank[d] < rank[name])
          && (d !in notLoaded ==> d !in p.graph || !p.graph[d].installable))
    && (forall d :: d in p.graph[name].depends && d !in p.databaseOnly && (d !in p.graph || !p.graph[d].installable)
          ==> d in notLoaded[name])
  }

  /** `rank` is the order in which the modules were found: the recorded relation has no cycle even when
      the dependencies have some. */
  ghost predicate Recorded(p: Project, notLoaded: map<string, seq<string>>, rank: map<string, nat>) {
    && rank.Keys == notLoaded.Keys && notLoaded.Keys <= Candidates(p)
    && (forall name :: name in rank ==> rank[name] < |notLoaded|)
    && (forall name :: name in notLoaded ==> Explained(p, notLoaded, rank, name))
  }

  ghost predicate BelowClosed(p: Project, s: set<string>) {
    forall t: set<string> :: Closed(p, t) ==> s <= t
  }

  lemma {:induction false} FoundIsNeeded(p: Project, s: set<string>, name: string)
    requires BelowClosed(p, s) && name in Candidates(p) && Blocking(p, s, p.graph[name].depends) != []
    ensures BelowClosed(p, s + {name})
  {
    var d := Blocking(p, s, p.graph[name].depends)[0];
    forall t: set<string> | Closed(p, t) ensures s + {name} <= t {
      assert d in p.graph[name].depends && Blocks(p, t, d);
    }
  }

  /** One pass over the modules not yet known not to load. */
  method Pass(p: Project, found: map<string, seq<string>>, ghost ranks: map<string, nat>)
    returns (notLoaded: map<string, seq<string>>, ghost rank: map<string, nat>, changed: bool)
    requires Recorded(p, found, ranks) && BelowClosed(p, found.Keys)
    ensures Recorded(p, notLoaded, rank) && BelowClosed(p, notLoaded.Keys)
    ensures changed ==> found.Keys < notLoaded.Keys
    ensures !changed ==> notLoaded == found && Closed(p, found.Keys)
  {
    hide Recorded, BelowClosed, Closed, Unavailable, Blocking;
    notLoaded, rank, changed := found, ranks, false;
    var names := Enumerate(Candidates(p) - found.Keys);
    for i := 0 to |names|
      invariant Recorded(p, notLoaded, rank) && BelowClosed(p, notLoaded.Keys)
      invariant found.Keys <= notLoaded.Keys && forall j :: i <= j < |names| ==> names[j] !in notLoaded
      invariant changed ==> found.Keys < notLoaded.Keys
      invariant !changed ==> notLoaded == found
      invariant !changed ==> forall j :: 0 <= j < i ==> NotBlocked(p, found.Keys, names[j])
    {
      var name := names[i];
      assert name in names && name !in notLoaded;
      CandidateHasCode(p, name);
      var blocking := Blocking(p, notLoaded.Keys, p.graph[name].depends);
      if blocking != [] {
        FoundIsNeeded(p, notLoaded.Keys, name);
        RecordOne(p, notLoaded, rank, name);
        rank := rank[name := |notLoaded|];
        KeyAdded(notLoaded, name, blocking);
        notLoaded := notLoaded[name := blocking];
        changed := true;
      }
    }
    if !changed {
      NothingFound(p, notLoaded.Keys, names);
    }
  }

  lemma {:induction false} CandidateHasCode(p: Project, name: string)
    requires name in Candidates(p)
    ensures name in p.graph && p.graph[name].installable
  {
  }

  ghost predicate NotBlocked(p: Project, s: set<string>, name: string) {
    name in p.graph && Blocking(p, s, p.graph[name].depends) == []
  }

  lemma {:induction false} RecordOne(
    p: Project, notLoaded: map<string, seq<string>>, rank: map<string, nat>, name: string)
    requires Recorded(p, notLoaded, rank) && name in Candidates(p) && name !in notLoaded
    requires Blocking(p, notLoaded.Keys, p.graph[name].depends) != []
    ensures var blocking := Blocking(p, notLoaded.Keys, p.graph[name].depends);
            Recorded(p, notLoaded[name := blocking], rank[name := |notLoaded|])
  {
    hide Unavailable, Blocking, Explained, Candidates;
    CandidateHasCode(p, name);
    var blocking := Blocking(p, notLoaded.Keys, p.graph[name].depends);
    var notLoaded', rank' := notLoaded[name := blocking], rank[name := |notLoaded|];
    KeyAdded(notLoaded, name, blocking);
    KeyAdded(rank, name, |notLoaded|);
    forall n | n in notLoaded'
      ensures n in p.graph && Explained(p, notLoaded', rank', n)
    {
      CandidateHasCode(p, n);
      if n == name {
        NewExplained(p, notLoaded, rank, name);
      } else {
        StillExplained(p, notLoaded, rank, n, name, blocking);
      }
    }
  }

  lemma {:induction false} NewExplained(
    p: Project, notLoaded: map<string, seq<string>>, rank: map<string, nat>, name: string)
    requires rank.Keys == notLoaded.Keys && forall n :: n in rank ==> rank[n] < |notLoaded|
    requires name in Candidates(p) && name !in notLoaded
    requires Blocking(p, notLoaded.Keys, p.graph[name].depends) != []
    ensures var blocking := Blocking(p, notLoaded.Keys, p.graph[name].depends);
            Explained(p, notLoaded[name := blocking], rank[name := |notLoaded|], name)
  {
    hide Blocking;
    var blocking := Blocking(p, notLoaded.Keys, p.graph[name].depends);
    assert forall d :: d in blocking ==> Blocks(p, notLoaded.Keys, d);
  }

  lemma {:induction false} StillExplained(
    p: Project, notLoaded: map<string, seq<string>>, rank: map<string, nat>, n: string,
    name: string, blocking: seq<string>)
    requires rank.Keys == notLoaded.Keys && n in notLoaded && n in p.graph && Explained(p, notLoaded, rank, n)
    requires name in Candidates(p) && name !in notLoaded
    ensures Explained(p, notLoaded[name := blocking], rank[name := |notLoaded|], n)
  {
    assert !Unavailable(p.graph, name);
    hide Unavailable;
  }

  lemma {:induction false} NothingFound(p: Project, s: set<string>, names: seq<string>)
    requires forall n :: n in names <==> n in Candidates(p) - s
    requires forall j :: 0 <= j < |names| ==> NotBlocked(p, s, names[j])
    ensures Closed(p, s)
  {
    forall n | n in Candidates(p) - s ensures NotBlocked(p, s, n) {
      assert n in names;
      var j :| 0 <= j < |names| && names[j] == n;
    }
    forall name, d | name in Candidates(p) && d in p.graph[name].depends && Blocks(p, s, d) ensures name in s {
      assert NotBlocked(p, s, name) ==> d in Blocking(p, s, p.graph[name].depends);
    }
    assert forall d :: d !in p.databaseOnly && (d in s || d !in p.graph || !p.graph[d].installable) ==> Blocks(p, s, d);
  }

  /** The modules that are loaded only depend on modules that will load too. */
  ghost predicate LoadedAreClosed(p: Project, notLoaded: set<string>) {
    && (forall name :: name in notLoaded ==>
          name in p.active && name !in p.databaseOnly && name in p.graph && p.graph[name].installable)
    && (forall name, d ::
          && name in p.active && name !in p.databaseOnly && name in p.graph && p.graph[name].installable
          && name !in notLoaded && d in p.graph[name].depends && d !in p.databaseOnly
          ==> d in p.graph && p.graph[d].installable && d !in notLoaded)
  }

  lemma {:induction false} ClosedIsLeast(p: Project, s: set<string>)
    requires s <= Candidates(p) && Closed(p, s) && BelowClosed(p, s)
    ensures Least(p, s) && LoadedAreClosed(p, s)
  {
  }

  /** The modules that will not load: the least set closed under blocking, whatever the order of the
      passes; the others only depend on modules that will. */
  method FindNotLoaded(p: Project) returns (notLoaded: map<string, seq<string>>, ghost rank: map<string, nat>)
    ensures Least(p, notLoaded.Keys) && LoadedAreClosed(p, notLoaded.Keys)
    ensures Recorded(p, notLoaded, rank) && Ranked(notLoaded, rank)
  {
    hide BelowClosed, Closed, Unavailable, Explained, Least, LoadedAreClosed;
    notLoaded, rank := map[], map[];
    assert BelowClosed(p, {}) by {
      NothingIsBelow(p);
    }
    var changed := true;
    while changed
      invariant Recorded(p, notLoaded, rank) && BelowClosed(p, notLoaded.Keys)
      invariant !changed ==> Closed(p, notLoaded.Keys)
      decreases |Candidates(p)| - |notLoaded.Keys|, changed
    {
      ghost var before := notLoaded.Keys;
      notLoaded, rank, changed := Pass(p, notLoaded, rank);
      if changed {
        Growing(before, notLoaded.Keys, Candidates(p));
      }
    }
    ClosedIsLeast(p, notLoaded.Keys);
    RecordedIsRanked(p, notLoaded, rank);
  }

  lemma {:induction false} NothingIsBelow(p: Project)
    ensures BelowClosed(p, {})
  {
  }

  // --- Root causes --------------------------------------------------------------------------------------

  /** The recorded relation has no cycle: each cause was found before what it keeps from loading. */
  ghost predicate Ranked(notLoaded: map<string, seq<string>>, rank: map<string, nat>) {
    && rank.Keys == notLoaded.Keys
    && forall n, d :: n in notLoaded && d in notLoaded[n] && d in notLoaded ==> rank[d] < rank[n]
  }

  ghost function Height(rank: map<string, nat>, name: string): nat {
    if name in rank then rank[name] + 1 else 0
  }

  /** The modules at the end of the recorded relation from `name`. */
  ghost function Roots(notLoaded: map<string, seq<string>>, rank: map<string, nat>, name: string): set<string>
    requires Ranked(notLoaded, rank)
    decreases Height(rank, name), 0
  {
    if name !in notLoaded then {name} else RootsOf(notLoaded, rank, name, |notLoaded[name]|)
  }

  /** Those reached through the first `n` causes of `name`. */
  ghost function RootsOf(notLoaded: map<string, seq<string>>, rank: map<string, nat>, name: string, n: nat): set<string>
    requires Ranked(notLoaded, rank) && name in notLoaded && n <= |notLoaded[name]|
    decreases Height(rank, name) - 1, 1, n
  {
    if n == 0 then {}
    else
      var d := notLoaded[name][n - 1];
      assert d in notLoaded[name];
      RootsOf(notLoaded, rank, name, n - 1) + Roots(notLoaded, rank, d)
  }

  lemma {:induction false} RecordedIsRanked(p: Project, notLoaded: map<string, seq<string>>, rank: map<string, nat>)
    requires Recorded(p, notLoaded, rank)
    ensures Ranked(notLoaded, rank)
  {
    hide Unavailable;
  }

  ghost predicate TrueRoots(p: Project, notLoaded: map<string, seq<string>>, roots: set<string>) {
    forall r :: r in roots ==>
      (r !in p.graph || !p.graph[r].installable) && r !in notLoaded && r !in p.databaseOnly
  }

  /** Every module that will not load has a root cause, and only unavailable modules are root causes. */
  lemma {:induction false} RootsAreUnavailable(
    p: Project, notLoaded: map<string, seq<string>>, rank: map<string, nat>, name: string)
    requires Recorded(p, notLoaded, rank) && Ranked(notLoaded, rank) && name in notLoaded
    ensures Roots(notLoaded, rank, name) != {} && TrueRoots(p, notLoaded, Roots(notLoaded, rank, name))
    decreases rank[name], 1, 0
  {
    CausesAreUnavailable(p, notLoaded, rank, name, |notLoaded[name]|);
  }

  lemma {:induction false} CausesAreUnavailable(
    p: Project, notLoaded: map<string, seq<string>>, rank: map<string, nat>, name: string, n: nat)
    requires Recorded(p, notLoaded, rank) && Ranked(notLoaded, rank) && name in notLoaded && n <= |notLoaded[name]|
    ensures n > 0 ==> RootsOf(notLoaded, rank, name, n) != {}
    ensures TrueRoots(p, notLoaded, RootsOf(notLoaded, rank, name, n))
    decreases rank[name], 0, n
  {
    hide Candidates;
    if n > 0 {
      var d := notLoaded[name][n - 1];
      assert d in notLoaded[name];
      CausesAreUnavailable(p, notLoaded, rank, name, n - 1);
      if d in notLoaded {
        RootsAreUnavailable(p, notLoaded, rank, d);
      }
    }
  }

  ghost predicate CacheFits(
    notLoaded: map<string, seq<string>>, rank: map<string, nat>, cache: map<string, set<string>>)
    requires Ranked(notLoaded, rank)
  {
    forall n :: n in cache ==> cache[n] == Roots(notLoaded, rank, n)
  }

  /** The recursive search with its cache. The guard against a cycle never cuts: on the way down the
      modules already met were all found later than the one looked at. */
  method RootCauses(
    notLoaded: map<string, seq<string>>, ghost rank: map<string, nat>,
    name: string, trail: seq<string>, known: map<string, set<string>>)
    returns (causes: set<string>, cache: map<string, set<string>>)
    requires Ranked(notLoaded, rank) && CacheFits(notLoaded, rank, known)
    requires forall t :: t in trail ==> t in notLoaded && Height(rank, t) > Height(rank, name)
    ensures causes == Roots(notLoaded, rank, name) && CacheFits(notLoaded, rank, cache)
    decreases Height(rank, name)
  {
    cache := known;
    if name in cache {
      return cache[name], cache;
    }
    if name !in notLoaded {
      return {name}, cache;
    }
    causes := {};
    for n := 0 to |notLoaded[name]|
      invariant causes == RootsOf(notLoaded, rank, name, n) && CacheFits(notLoaded, rank, cache)
    {
      var dependency := notLoaded[name][n];
      assert dependency in notLoaded[name];
      if dependency !in trail {
        var found;
        found, cache := RootCauses(notLoaded, rank, dependency, trail + [name], cache);
        causes := causes + found;
      }
    }
    cache := cache[name := causes];
  }
}
