/** What Odoo will install for a request (odoo_manager_core/manifests.py, module_install_plan). */
module InstallPlan {
  import opened Sets

  datatype Entry = Entry(
    depends: seq<string>,
    autoInstall: bool,
    triggers: seq<string>,
    installable: bool,
    countryRestricted: bool)

  /** A request: the manifests, what the database has already (base among it), and the modules asked for. */
  datatype Request = Request(graph: map<string, Entry>, installed: set<string>, requested: seq<string>)

  /** Code present, installable and not installed yet. */
  predicate Addable(q: Request, name: string) {
    name in q.graph && q.graph[name].installable && name !in q.installed
  }

  predicate AutoCandidate(q: Request, name: string) {
    && name in q.graph && q.graph[name].autoInstall && q.graph[name].installable
    && q.graph[name].triggers != [] && !q.graph[name].countryRestricted
  }

  /** All its triggers are or will be installed, one of them by this plan. */
  predicate Triggered(q: Request, s: set<string>, name: string)
    requires name in q.graph
  {
    && (forall t :: t in q.graph[name].triggers ==> t in q.installed || t in s)
    && (exists t :: t in q.graph[name].triggers && t in s)
  }

  // --- The least set to install -------------------------------------------------------------------------

  ghost predicate Closed(q: Request, s: set<string>) {
    && (forall n :: n in q.requested && n in q.graph && q.graph[n].installable && n !in q.installed ==> n in s)
    && (forall n, d ::
          && n in s && n in q.graph && d in q.graph[n].depends
          && d in q.graph && q.graph[d].installable && d !in q.installed
          ==> d in s)
    && (forall n ::
          && n in q.graph && q.graph[n].autoInstall && q.graph[n].installable && !q.graph[n].countryRestricted
          && n !in q.installed && (forall t :: t in q.graph[n].triggers ==> t in q.installed || t in s)
          && (exists t :: t in q.graph[n].triggers && t in s)
          ==> n in s)
  }

  ghost predicate BelowClosed(q: Request, s: set<string>) {
    forall t: set<string> :: Closed(q, t) ==> s <= t
  }

  ghost predicate Least(q: Request, s: set<string>) {
    Closed(q, s) && BelowClosed(q, s)
  }

  /** What the plan remembers: who asked for each module, and what could not be added. */
  datatype Plan = Plan(toInstall: map<string, string>, missing: map<string, string>, uninstallable: map<string, string>)

  /** A name the plan has dealt with. */
  predicate Known(q: Request, plan: Plan, name: string) {
    name in q.installed || name in plan.toInstall || name in plan.missing || name in plan.uninstallable
  }

  /** Every name recorded aside really cannot be added. */
  ghost predicate Sound(q: Request, plan: Plan) {
    && (forall n :: n in plan.toInstall ==> n in q.graph && q.graph[n].installable && n !in q.installed)
    && (forall n :: n in plan.missing ==> n !in q.graph && n !in q.installed)
    && (forall n :: n in plan.uninstallable ==> n in q.graph && !q.graph[n].installable && n !in q.installed)
  }

  /** A module was asked for by the request, or added after the module that depends on it. */
  ghost predicate Parented(
    q: Request, toInstall: map<string, string>, rank: map<string, nat>, roots: set<string>, n: string)
    requires n in toInstall
  {
    var parent := toInstall[n];
    (parent == "" && n in roots)
    || (parent in toInstall && parent in rank && n in rank && rank[parent] < rank[n]
        && parent in q.graph && n in q.graph[parent].depends)
  }

  /** Following the parents leads back to a module of `roots`, recorded without a parent. */
  ghost predicate Traced(q: Request, plan: Plan, rank: map<string, nat>, roots: set<string>) {
    && rank.Keys == plan.toInstall.Keys
    && (forall n :: n in rank ==> rank[n] < |plan.toInstall|)
    && (forall n :: n in plan.toInstall ==> Parented(q, plan.toInstall, rank, roots, n))
  }

  /** The dependencies of every module to install are dealt with, or still on the stack. */
  ghost predicate Covered(q: Request, plan: Plan, stack: seq<(string, string)>) {
    forall n, d :: n in plan.toInstall && n in q.graph && d in q.graph[n].depends
      ==> Known(q, plan, d) || exists i :: 0 <= i < |stack| && stack[i].0 == d
  }

  /** The request itself asks for this name, or a module already to be installed. */
  ghost predicate AskedFor(q: Request, plan: Plan, roots: set<string>, n: string, parent: string) {
    (parent == "" && n in roots)
    || (parent in plan.toInstall && parent in q.graph && n in q.graph[parent].depends)
  }

  ghost predicate Asked(q: Request, plan: Plan, roots: set<string>, stack: seq<(string, string)>) {
    forall i :: 0 <= i < |stack| ==> AskedFor(q, plan, roots, stack[i].0, stack[i].1)
  }

  /** Every name recorded aside is recorded with who asked for it. */
  ghost predicate Reported(q: Request, plan: Plan, roots: set<string>) {
    && (forall n :: n in plan.missing ==> AskedFor(q, plan, roots, n, plan.missing[n]))
    && (forall n :: n in plan.uninstallable ==> AskedFor(q, plan, roots, n, plan.uninstallable[n]))
  }

  /** Every addable name on the stack belongs to each closed set. */
  ghost predicate Wanted(q: Request, stack: seq<(string, string)>) {
    forall t: set<string> :: Closed(q, t) ==>
      forall i :: 0 <= i < |stack| && Addable(q, stack[i].0) ==> stack[i].0 in t
  }

  function Dependencies(depends: seq<string>, parent: string): (r: seq<(string, string)>)
    ensures |r| == |depends| && forall i :: 0 <= i < |r| ==> r[i] == (depends[i], parent)
  {
    seq(|depends|, i requires 0 <= i < |depends| => (depends[i], parent))
  }

  ghost predicate Inv(
    q: Request, plan: Plan, rank: map<string, nat>, roots: set<string>, stack: seq<(string, string)>)
  {
    && Sound(q, plan) && Traced(q, plan, rank, roots) && Covered(q, plan, stack)
    && Asked(q, plan, roots, stack) && Wanted(q, stack) && BelowClosed(q, plan.toInstall.Keys)
    && Reported(q, plan, roots)
  }

  /** Dropping from the top of the stack a name already dealt with. */
  lemma {:induction false} Dropped(
    q: Request, plan: Plan, plan': Plan, rank: map<string, nat>, roots: set<string>, stack: seq<(string, string)>)
    requires stack != [] && Inv(q, plan, rank, roots, stack)
    requires plan'.toInstall == plan.toInstall && Sound(q, plan') && Known(q, plan', stack[|stack| - 1].0)
    requires plan.missing.Keys <= plan'.missing.Keys && plan.uninstallable.Keys <= plan'.uninstallable.Keys
    requires Reported(q, plan', roots)
    ensures Inv(q, plan', rank, roots, stack[..|stack| - 1])
  {
    hide Closed, Addable, Sound, Parented, Reported;
    DroppedCovered(q, plan, plan', stack);
    hide Covered;
  }

  lemma {:induction false} DroppedCovered(q: Request, plan: Plan, plan': Plan, stack: seq<(string, string)>)
    requires stack != [] && Covered(q, plan, stack)
    requires plan'.toInstall == plan.toInstall && Known(q, plan', stack[|stack| - 1].0)
    requires plan.missing.Keys <= plan'.missing.Keys && plan.uninstallable.Keys <= plan'.uninstallable.Keys
    ensures Covered(q, plan', stack[..|stack| - 1])
  {
    var rest := stack[..|stack| - 1];
    forall n, d | n in plan'.toInstall && n in q.graph && d in q.graph[n].depends
      ensures Known(q, plan', d) || exists i :: 0 <= i < |rest| && rest[i].0 == d
    {
      assert Known(q, plan, d) ==> Known(q, plan', d);
      if !Known(q, plan', d) {
        var i :| 0 <= i < |stack| && stack[i].0 == d;
        assert rest[i] == stack[i];
      }
    }
  }

  /** Adding the name on top of the stack. */
  lemma {:induction false} Added(
    q: Request, plan: Plan, rank: map<string, nat>, roots: set<string>, stack: seq<(string, string)>)
    requires stack != [] && Inv(q, plan, rank, roots, stack)
    requires var (n, _) := stack[|stack| - 1]; Addable(q, n) && n !in plan.toInstall
    ensures var (n, parent) := stack[|stack| - 1];
            Inv(q, plan.(toInstall := plan.toInstall[n := parent]), rank[n := |plan.toInstall|], roots,
                stack[..|stack| - 1] + Dependencies(q.graph[n].depends, n))
  {
    var (n, parent) := stack[|stack| - 1];
    var plan' := plan.(toInstall := plan.toInstall[n := parent]);
    var rank' := rank[n := |plan.toInstall|];
    var rest, pushed := stack[..|stack| - 1], Dependencies(q.graph[n].depends, n);
    AddedSound(q, plan, n, parent);
    AddedTraced(q, plan, rank, roots, n, parent);
    AddedCovered(q, plan, stack);
    AddedAsked(q, plan, roots, stack);
    AddedReported(q, plan, roots, n, parent);
    AddedWanted(q, plan, stack);
  }

  lemma {:induction false} AddedSound(q: Request, plan: Plan, n: string, parent: string)
    requires Sound(q, plan) && Addable(q, n)
    ensures Sound(q, plan.(toInstall := plan.toInstall[n := parent]))
  {
  }

  lemma {:induction false} AddedReported(q: Request, plan: Plan, roots: set<string>, n: string, parent: string)
    requires Reported(q, plan, roots)
    ensures Reported(q, plan.(toInstall := plan.toInstall[n := parent]), roots)
  {
  }

  /** The name on top of the stack can be recorded aside. */
  lemma {:induction false} TopIsAsked(
    q: Request, plan: Plan, rank: map<string, nat>, roots: set<string>, stack: seq<(string, string)>)
    requires stack != [] && Inv(q, plan, rank, roots, stack)
    ensures AskedFor(q, plan, roots, stack[|stack| - 1].0, stack[|stack| - 1].1) && Reported(q, plan, roots)
  {
    hide Sound, Traced, Covered, Wanted, BelowClosed, Reported, AskedFor;
  }

  lemma {:induction false} AddedTraced(
    q: Request, plan: Plan, rank: map<string, nat>, roots: set<string>, n: string, parent: string)
    requires Traced(q, plan, rank, roots) && n !in plan.toInstall
    requires (parent == "" && n in roots)
             || (parent in plan.toInstall && parent in q.graph && n in q.graph[parent].depends)
    ensures Traced(q, plan.(toInstall := plan.toInstall[n := parent]), rank[n := |plan.toInstall|], roots)
  {
    KeyAdded(plan.toInstall, n, parent);
    KeyAdded(rank, n, |plan.toInstall|);
    var toInstall', rank' := plan.toInstall[n := parent], rank[n := |plan.toInstall|];
    forall m | m in toInstall' ensures Parented(q, toInstall', rank', roots, m) {
      assert m != n ==> Parented(q, plan.toInstall, rank, roots, m);
    }
  }

  lemma {:induction false} AddedCovered(q: Request, plan: Plan, stack: seq<(string, string)>)
    requires stack != [] && Covered(q, plan, stack) && stack[|stack| - 1].0 in q.graph
    ensures var (n, parent) := stack[|stack| - 1];
            Covered(q, plan.(toInstall := plan.toInstall[n := parent]),
                    stack[..|stack| - 1] + Dependencies(q.graph[n].depends, n))
  {
    var (n, parent) := stack[|stack| - 1];
    var plan' := plan.(toInstall := plan.toInstall[n := parent]);
    var rest, pushed := stack[..|stack| - 1], Dependencies(q.graph[n].depends, n);
    var after := rest + pushed;
    forall m, d | m in plan'.toInstall && m in q.graph && d in q.graph[m].depends
      ensures Known(q, plan', d) || exists i :: 0 <= i < |after| && after[i].0 == d
    {
      if m == n {
        var i :| 0 <= i < |q.graph[n].depends| && q.graph[n].depends[i] == d;
        assert after[|rest| + i] == (d, n);
      } else if !Known(q, plan', d) {
        assert !Known(q, plan, d);
        var i :| 0 <= i < |stack| && stack[i].0 == d;
        assert after[i] == stack[i];
      }
    }
  }

  lemma {:induction false} AddedAsked(q: Request, plan: Plan, roots: set<string>, stack: seq<(string, string)>)
    requires stack != [] && Asked(q, plan, roots, stack) && stack[|stack| - 1].0 in q.graph
    ensures var (n, parent) := stack[|stack| - 1];
            Asked(q, plan.(toInstall := plan.toInstall[n := parent]), roots,
                  stack[..|stack| - 1] + Dependencies(q.graph[n].depends, n))
  {
  }

  lemma {:induction false} AddedWanted(q: Request, plan: Plan, stack: seq<(string, string)>)
    requires stack != [] && Wanted(q, stack) && BelowClosed(q, plan.toInstall.Keys) && Addable(q, stack[|stack| - 1].0)
    ensures var (n, parent) := stack[|stack| - 1];
            && BelowClosed(q, plan.toInstall[n := parent].Keys)
            && Wanted(q, stack[..|stack| - 1] + Dependencies(q.graph[n].depends, n))
  {
    var (n, parent) := stack[|stack| - 1];
    var pushed := Dependencies(q.graph[n].depends, n);
    assert plan.toInstall[n := parent].Keys == plan.toInstall.Keys + {n};
    forall t: set<string> | Closed(q, t)
      ensures n in t && forall i :: 0 <= i < |pushed| && Addable(q, pushed[i].0) ==> pushed[i].0 in t
    {
    }
  }

  /** The nested `add`: a module and, through the stack, everything it needs. */
  method Add(q: Request, plan0: Plan, ghost rank0: map<string, nat>, ghost roots: set<string>, name: string)
    returns (plan: Plan, ghost rank: map<string, nat>)
    requires Inv(q, plan0, rank0, roots, []) && name in roots && Wanted(q, [(name, "")])
    ensures Inv(q, plan, rank, roots, []) && Known(q, plan, name)
    ensures plan0.toInstall.Keys <= plan.toInstall.Keys
    ensures Addable(q, name) ==> name in plan.toInstall
    ensures plan0.missing.Keys <= plan.missing.Keys && plan0.uninstallable.Keys <= plan.uninstallable.Keys
  {
    hide Sound, Traced, Covered, Asked, Wanted, BelowClosed, Closed, Reported, AskedFor;
    plan, rank := plan0, rank0;
    var stack := [(name, "")];
    Pushed(q, plan, rank, roots, name);
    while stack != []
      invariant Inv(q, plan, rank, roots, stack)
      invariant plan0.toInstall.Keys <= plan.toInstall.Keys
      invariant plan0.missing.Keys <= plan.missing.Keys && plan0.uninstallable.Keys <= plan.uninstallable.Keys
      invariant Known(q, plan, name) || stack == [(name, "")]
      decreases q.graph.Keys - plan.toInstall.Keys, |stack|
    {
      var (current, parent) := stack[|stack| - 1];
      TopIsAsked(q, plan, rank, roots, stack);
      if current in q.installed || current in plan.toInstall {
        Dropped(q, plan, plan, rank, roots, stack);
        stack := stack[..|stack| - 1];
      } else if current !in q.graph {
        var plan' := if current in plan.missing then plan else plan.(missing := plan.missing[current := parent]);
        SetAside(q, plan, plan', roots, current, parent);
        Dropped(q, plan, plan', rank, roots, stack);
        plan := plan';
        stack := stack[..|stack| - 1];
      } else if !q.graph[current].installable {
        var plan' := if current in plan.uninstallable then plan
                     else plan.(uninstallable := plan.uninstallable[current := parent]);
        SetAside(q, plan, plan', roots, current, parent);
        Dropped(q, plan, plan', rank, roots, stack);
        plan := plan';
        stack := stack[..|stack| - 1];
      } else {
        Added(q, plan, rank, roots, stack);
        assert current in q.graph.Keys - plan.toInstall.Keys;
        assert current !in q.graph.Keys - plan.toInstall[current := parent].Keys;
        rank := rank[current := |plan.toInstall|];
        stack := stack[..|stack| - 1] + Dependencies(q.graph[current].depends, current);
        plan := plan.(toInstall := plan.toInstall[current := parent]);
      }
    }
    KnownAddable(q, plan, name);
  }

  lemma {:induction false} Pushed(
    q: Request, plan: Plan, rank: map<string, nat>, roots: set<string>, name: string)
    requires Inv(q, plan, rank, roots, []) && name in roots && Wanted(q, [(name, "")])
    ensures Inv(q, plan, rank, roots, [(name, "")])
  {
    hide Closed;
  }

  lemma {:induction false} SetAside(
    q: Request, plan: Plan, plan': Plan, roots: set<string>, n: string, parent: string)
    requires Sound(q, plan) && Reported(q, plan, roots) && AskedFor(q, plan, roots, n, parent) && n !in q.installed
    requires (n !in q.graph && plan' == if n in plan.missing then plan else plan.(missing := plan.missing[n := parent]))
             || (n in q.graph && !q.graph[n].installable
                 && plan' == if n in plan.uninstallable then plan
                             else plan.(uninstallable := plan.uninstallable[n := parent]))
    ensures Sound(q, plan') && Known(q, plan', n) && plan'.toInstall == plan.toInstall && Reported(q, plan', roots)
    ensures plan.missing.Keys <= plan'.missing.Keys && plan.uninstallable.Keys <= plan'.uninstallable.Keys
  {
  }

  lemma {:induction false} KnownAddable(q: Request, plan: Plan, name: string)
    requires Sound(q, plan) && Known(q, plan, name)
    ensures Addable(q, name) ==> name in plan.toInstall
  {
  }

  // --- The whole plan -----------------------------------------------------------------------------------

  function Requested(q: Request): set<string> {
    set n | n in q.requested
  }

  function Candidates(q: Request): set<string> {
    set n | n in q.graph && AutoCandidate(q, n)
  }

  /** The requested modules that can be added are all to be installed. */
  ghost predicate Honoured(q: Request, plan: Plan, names: seq<string>) {
    forall n :: n in names ==> Known(q, plan, n) && (Addable(q, n) ==> n in plan.toInstall)
  }

  /** The modules installed automatically: triggered, and not asked for. */
  ghost predicate Automatic(q: Request, plan: Plan, auto: set<string>) {
    forall n :: n in auto ==>
      && n in plan.toInstall && n !in q.requested && n in q.graph
      && q.graph[n].autoInstall && q.graph[n].installable && q.graph[n].triggers != [] && !q.graph[n].countryRestricted
  }

  lemma {:induction false} RequestedIsWanted(q: Request, name: string)
    requires name in q.requested
    ensures Wanted(q, [(name, "")])
  {
  }

  lemma {:induction false} TriggeredIsWanted(q: Request, s: set<string>, name: string)
    requires BelowClosed(q, s) && AutoCandidate(q, name) && name !in q.installed && Triggered(q, s, name)
    ensures Wanted(q, [(name, "")])
  {
    forall t: set<string> | Closed(q, t) ensures name in t {
      assert s <= t;
      assert Triggered(q, t, name);
    }
  }

  lemma {:induction false} MoreRoots(
    q: Request, plan: Plan, rank: map<string, nat>, roots: set<string>, roots': set<string>)
    requires Inv(q, plan, rank, roots, []) && roots <= roots'
    ensures Inv(q, plan, rank, roots', [])
  {
    hide Closed, Sound, Covered, Wanted, BelowClosed;
    forall n | n in plan.toInstall ensures Parented(q, plan.toInstall, rank, roots', n) {
      assert Parented(q, plan.toInstall, rank, roots, n);
    }
  }

  lemma {:induction false} EmptyPlan(q: Request, roots: set<string>)
    ensures Inv(q, Plan(map[], map[], map[]), map[], roots, [])
  {
  }

  /** Nothing left to trigger: the plan is closed. */
  lemma {:induction false} PlanIsClosed(q: Request, plan: Plan)
    requires Sound(q, plan) && Covered(q, plan, []) && Honoured(q, plan, q.requested)
    requires forall n :: n in Candidates(q) ==> Settled(q, plan, n)
    ensures Closed(q, plan.toInstall.Keys)
  {
    var s := plan.toInstall.Keys;
    forall n, d | n in s && n in q.graph && d in q.graph[n].depends && Addable(q, d) ensures d in s {
      assert Known(q, plan, d);
    }
    forall n | AutoCandidate(q, n) && n !in q.installed && Triggered(q, s, n) ensures n in s {
      assert Settled(q, plan, n);
    }
  }

  ghost predicate Settled(q: Request, plan: Plan, n: string) {
    n in q.graph && (n in q.installed || n in plan.toInstall || !Triggered(q, plan.toInstall.Keys, n))
  }

  method AddRequested(q: Request) returns (plan: Plan, ghost rank: map<string, nat>)
    ensures Inv(q, plan, rank, Requested(q), []) && Honoured(q, plan, q.requested)
  {
    hide Inv, Addable, Wanted;
    plan, rank := Plan(map[], map[], map[]), map[];
    EmptyPlan(q, Requested(q));
    for i := 0 to |q.requested|
      invariant Inv(q, plan, rank, Requested(q), []) && Honoured(q, plan, q.requested[..i])
    {
      RequestedIsWanted(q, q.requested[i]);
      plan, rank := Add(q, plan, rank, Requested(q), q.requested[i]);
      assert q.requested[..i + 1] == q.requested[..i] + [q.requested[i]];
    }
    assert q.requested[..|q.requested|] == q.requested;
  }

  /** One pass over the candidates. */
  method AutoPass(q: Request, plan0: Plan, ghost rank0: map<string, nat>, auto0: set<string>)
    returns (plan: Plan, ghost rank: map<string, nat>, auto: set<string>, changed: bool)
    requires Inv(q, plan0, rank0, Requested(q) + auto0, []) && Honoured(q, plan0, q.requested)
    requires Automatic(q, plan0, auto0)
    ensures Inv(q, plan, rank, Requested(q) + auto, []) && Honoured(q, plan, q.requested) && Automatic(q, plan, auto)
    ensures changed ==> plan0.toInstall.Keys < plan.toInstall.Keys
    ensures !changed ==> plan == plan0 && forall n :: n in Candidates(q) ==> Settled(q, plan, n)
  {
    hide Inv, Wanted, Triggered;
    plan, rank, auto, changed := plan0, rank0, auto0, false;
    var names := Enumerate(Candidates(q));
    for i := 0 to |names|
      invariant Inv(q, plan, rank, Requested(q) + auto, [])
      invariant Honoured(q, plan, q.requested) && Automatic(q, plan, auto)
      invariant plan0.toInstall.Keys <= plan.toInstall.Keys
      invariant changed ==> plan0.toInstall.Keys < plan.toInstall.Keys
      invariant !changed ==> plan == plan0
      invariant !changed ==> forall j :: 0 <= j < i ==> Settled(q, plan, names[j])
    {
      var name := names[i];
      assert name in names;
      if name !in q.installed && name !in plan.toInstall && Triggered(q, plan.toInstall.Keys, name) {
        InvIsBelow(q, plan, rank, Requested(q) + auto);
        TriggeredIsWanted(q, plan.toInstall.Keys, name);
        MoreRoots(q, plan, rank, Requested(q) + auto, Requested(q) + (auto + {name}));
        auto := auto + {name};
        ghost var before := plan.toInstall.Keys;
        plan, rank := Add(q, plan, rank, Requested(q) + auto, name);
        assert before < plan.toInstall.Keys;
        changed := true;
      }
    }
    if !changed {
      forall n | n in Candidates(q) ensures Settled(q, plan, n) {
        assert n in names;
        var j :| 0 <= j < |names| && names[j] == n;
      }
    }
  }

  lemma {:induction false} InvIsBelow(q: Request, plan: Plan, rank: map<string, nat>, roots: set<string>)
    requires Inv(q, plan, rank, roots, [])
    ensures BelowClosed(q, plan.toInstall.Keys)
    ensures plan.toInstall.Keys <= q.graph.Keys
  {
    hide Closed;
  }

  /** Automatic installations, until a pass triggers nothing more. */
  method AddAutomatic(q: Request, plan0: Plan, ghost rank0: map<string, nat>)
    returns (plan: Plan, auto: set<string>, ghost rank: map<string, nat>)
    requires Inv(q, plan0, rank0, Requested(q), []) && Honoured(q, plan0, q.requested)
    ensures Inv(q, plan, rank, Requested(q) + auto, []) && Honoured(q, plan, q.requested) && Automatic(q, plan, auto)
    ensures forall n :: n in Candidates(q) ==> Settled(q, plan, n)
  {
    hide Inv, Honoured, Automatic, Settled, Candidates, Requested;
    plan, rank, auto := plan0, rank0, {};
    assert Requested(q) + {} == Requested(q);
    NothingAutomatic(q, plan);
    InvIsBelow(q, plan, rank, Requested(q));
    var changed := true;
    while changed
      invariant Inv(q, plan, rank, Requested(q) + auto, [])
      invariant Honoured(q, plan, q.requested) && Automatic(q, plan, auto)
      invariant !changed ==> forall n :: n in Candidates(q) ==> Settled(q, plan, n)
      invariant plan.toInstall.Keys <= q.graph.Keys
      decreases |q.graph.Keys| - |plan.toInstall.Keys|, changed
    {
      ghost var before := plan.toInstall.Keys;
      plan, rank, auto, changed := AutoPass(q, plan, rank, auto);
      InvIsBelow(q, plan, rank, Requested(q) + auto);
      if changed {
        Growing(before, plan.toInstall.Keys, q.graph.Keys);
      }
    }
  }

  /** Asked for by the request or by a module to install. */
  ghost predicate Needed(q: Request, plan: Plan, n: string) {
    n in q.requested || exists m :: m in plan.toInstall && m in q.graph && n in q.graph[m].depends
  }

  /** The names recorded aside are exactly the needed ones that cannot be installed, each with the reason. */
  ghost predicate AsideExactly(q: Request, plan: Plan) {
    && (forall n :: n in plan.missing <==> Needed(q, plan, n) && n !in q.installed && n !in q.graph)
    && (forall n :: n in plan.uninstallable <==>
         Needed(q, plan, n) && n !in q.installed && n in q.graph && !q.graph[n].installable)
  }

  lemma {:induction false} AsideIsExact(q: Request, plan: Plan, auto: set<string>)
    requires Sound(q, plan) && Covered(q, plan, []) && Reported(q, plan, Requested(q) + auto)
    requires Honoured(q, plan, q.requested) && Automatic(q, plan, auto)
    ensures AsideExactly(q, plan)
  {
    forall n | Needed(q, plan, n) ensures Known(q, plan, n) {
    }
  }

  /** The other modules of the plan are there because one of its modules depends on them. */
  ghost predicate Dependency(q: Request, plan: Plan, n: string) {
    && n in plan.toInstall && plan.toInstall[n] in plan.toInstall && plan.toInstall[n] in q.graph
    && n in q.graph[plan.toInstall[n]].depends
  }

  /** The plan installs the least set closed under dependencies and automatic installation, so it does
      not depend on the order of the request nor of the candidates; what is neither requested nor automatic is a
      dependency; the parents lead back to a requested or automatic module; and what is recorded aside is exactly
      what is needed and cannot be installed. */
  method ModuleInstallPlan(q: Request)
    returns (plan: Plan, auto: set<string>, ghost rank: map<string, nat>)
    ensures Least(q, plan.toInstall.Keys)
    ensures Sound(q, plan) && Honoured(q, plan, q.requested) && AsideExactly(q, plan)
    ensures Traced(q, plan, rank, Requested(q) + auto)
    ensures Automatic(q, plan, auto)
    ensures forall n :: n in plan.toInstall && n !in q.requested && n !in auto ==> Dependency(q, plan, n)
  {
    hide Inv, Sound, Closed, BelowClosed, Honoured, Automatic, Settled, Traced, Requested, Candidates, Covered,
         Reported, AsideExactly, Dependency;
    plan, rank := AddRequested(q);
    plan, auto, rank := AddAutomatic(q, plan, rank);
    InvIsBelow(q, plan, rank, Requested(q) + auto);
    InvParts(q, plan, rank, Requested(q) + auto);
    PlanIsClosed(q, plan);
    AsideIsExact(q, plan, auto);
    OthersAreDependencies(q, plan, rank, auto);
  }

  lemma {:induction false} OthersAreDependencies(q: Request, plan: Plan, rank: map<string, nat>, auto: set<string>)
    requires Traced(q, plan, rank, Requested(q) + auto)
    ensures forall n :: n in plan.toInstall && n !in q.requested && n !in auto ==> Dependency(q, plan, n)
  {
    forall n | n in plan.toInstall && n !in q.requested && n !in auto ensures Dependency(q, plan, n) {
      assert Parented(q, plan.toInstall, rank, Requested(q) + auto, n);
    }
  }

  // --- The report ---------------------------------------------------------------------------------------

  ghost predicate Lists(names: seq<string>, s: set<string>) {
    && (forall n :: n in names <==> n in s)
    && (forall i, j :: 0 <= i < j < |names| ==> names[i] != names[j])
  }

  lemma {:induction false} ListLength(names: seq<string>, s: set<string>)
    requires Lists(names, s)
    ensures |names| == |s|
    decreases |names|
  {
    if names == [] {
      assert s == {};
    } else {
      var n, rest := names[0], names[1..];
      forall m ensures m in rest <==> m in s - {n} {
        assert m in s <==> m in names;
        if m in rest {
          var i :| 0 <= i < |rest| && rest[i] == m;
          assert names[i + 1] == m;
        }
      }
      ListLength(rest, s - {n});
    }
  }

  /** `list(dict.fromkeys(names))`: each name once. */
  method Deduplicated(names: seq<string>) returns (r: seq<string>)
    ensures Lists(r, set n | n in names)
  {
    r := [];
    for i := 0 to |names|
      invariant Lists(r, set n | n in names[..i])
    {
      assert names[..i + 1] == names[..i] + [names[i]];
      if names[i] !in r {
        r := r + [names[i]];
      }
    }
    assert names[..|names|] == names;
  }

  lemma {:induction false} OneMoreListed(names: seq<string>, s: set<string>, n: string)
    requires Lists(names, s) && n !in s
    ensures Lists(names + [n], s + {n})
  {
  }

  lemma {:induction false} NothingListed()
    ensures Lists([], {})
  {
  }

  /** The requested modules that are to be installed, in the order of the request. */
  method Kept(q: Request, plan: Plan) returns (requested: seq<string>)
    ensures Lists(requested, plan.toInstall.Keys * Requested(q))
  {
    var asked := Deduplicated(q.requested);
    requested := [];
    ghost var seen: set<string> := {};
    for i := 0 to |asked|
      invariant seen == set n | n in asked[..i]
      invariant Lists(requested, plan.toInstall.Keys * seen)
    {
      assert asked[..i + 1] == asked[..i] + [asked[i]];
      assert asked[i] !in asked[..i];
      if asked[i] in plan.toInstall {
        OneMoreListed(requested, plan.toInstall.Keys * seen, asked[i]);
        assert plan.toInstall.Keys * seen + {asked[i]} == plan.toInstall.Keys * (seen + {asked[i]});
        requested := requested + [asked[i]];
      } else {
        assert plan.toInstall.Keys * seen == plan.toInstall.Keys * (seen + {asked[i]});
      }
      seen := seen + {asked[i]};
    }
    assert asked[..|asked|] == asked;
    assert seen == Requested(q);
  }

  /** The other modules, the automatic ones apart. */
  method NewModules(news: set<string>, auto: set<string>) returns (dependencies: seq<string>, automatic: seq<string>)
    ensures Lists(dependencies, news - auto) && Lists(automatic, news * auto)
  {
    hide Lists;
    dependencies, automatic := [], [];
    NothingListed();
    var rest := news;
    assert (news - rest) - auto == {} && (news - rest) * auto == {};
    while rest != {}
      invariant rest <= news
      invariant Lists(dependencies, (news - rest) - auto) && Lists(automatic, (news - rest) * auto)
      decreases rest
    {
      var n :| n in rest;
      OneFewer(news, rest, auto, n);
      if n in auto {
        OneMoreListed(automatic, (news - rest) * auto, n);
        automatic := automatic + [n];
      } else {
        OneMoreListed(dependencies, (news - rest) - auto, n);
        dependencies := dependencies + [n];
      }
      rest := rest - {n};
    }
    assert news - rest == news;
  }

  lemma {:induction false} OneFewer(news: set<string>, rest: set<string>, auto: set<string>, n: string)
    requires n in rest && rest <= news
    ensures n in auto ==> (news - (rest - {n})) - auto == (news - rest) - auto
    ensures n in auto ==> (news - (rest - {n})) * auto == (news - rest) * auto + {n}
    ensures n !in auto ==> (news - (rest - {n})) - auto == (news - rest) - auto + {n}
    ensures n !in auto ==> (news - (rest - {n})) * auto == (news - rest) * auto
    ensures n !in news - rest
  {
  }

  /** The three lists of the report share out the modules to install, each listed once. */
  method Report(q: Request, plan: Plan, auto: set<string>)
    returns (requested: seq<string>, dependencies: seq<string>, automatic: seq<string>)
    ensures Lists(requested, plan.toInstall.Keys * Requested(q))
    ensures Lists(dependencies, plan.toInstall.Keys - Requested(q) - auto)
    ensures Lists(automatic, (plan.toInstall.Keys - Requested(q)) * auto)
    ensures |requested| + |dependencies| + |automatic| == |plan.toInstall|
  {
    hide Lists, Requested;
    requested := Kept(q, plan);
    var news := plan.toInstall.Keys - Requested(q);
    dependencies, automatic := NewModules(news, auto);
    ListLength(requested, plan.toInstall.Keys * Requested(q));
    ListLength(dependencies, news - auto);
    ListLength(automatic, news * auto);
    SharedOut(plan.toInstall.Keys, Requested(q), auto);
  }

  /** The order of the request changes nothing to what is installed. */
  lemma {:induction false} LeastIgnoresOrder(q: Request, q': Request, s: set<string>, s': set<string>)
    requires q'.graph == q.graph && q'.installed == q.installed && Requested(q') == Requested(q)
    requires Least(q, s) && Least(q', s')
    ensures s == s'
  {
    assert forall n :: n in q.requested <==> n in Requested(q);
    assert forall n :: n in q'.requested <==> n in Requested(q');
    SameClosed(q, q', s);
    SameClosed(q', q, s');
  }

  lemma {:induction false} SameClosed(q: Request, q': Request, s: set<string>)
    requires q'.graph == q.graph && q'.installed == q.installed && Requested(q') == Requested(q) && Closed(q, s)
    ensures Closed(q', s)
  {
    assert forall n :: n in q'.requested ==> n in Requested(q');
    assert forall n :: Triggered'(q, s, n) == Triggered'(q', s, n);
  }

  predicate Triggered'(q: Request, s: set<string>, name: string) {
    name in q.graph && Triggered(q, s, name)
  }

  lemma {:induction false} NothingAutomatic(q: Request, plan: Plan)
    ensures Automatic(q, plan, {})
  {
  }

  lemma {:induction false} InvParts(q: Request, plan: Plan, rank: map<string, nat>, roots: set<string>)
    requires Inv(q, plan, rank, roots, [])
    ensures Sound(q, plan) && Covered(q, plan, []) && Traced(q, plan, rank, roots) && Reported(q, plan, roots)
  {
    hide Closed;
  }

  lemma {:induction false} SharedOut(s: set<string>, r: set<string>, auto: set<string>)
    ensures |s * r| + |s - r - auto| + |(s - r) * auto| == |s|
  {
    assert s == s * r + (s - r) && (s - r) == (s - r - auto) + (s - r) * auto;
  }

  // --- The parents --------------------------------------------------------------------------------------

  /** From a module to install up to one of the roots, each time to the module that asked for it. */
  ghost predicate ParentChain(q: Request, plan: Plan, roots: set<string>, chain: seq<string>)
    decreases |chain|
  {
    && chain != [] && chain[0] in plan.toInstall
    && if |chain| == 1 then chain[0] in roots
       else
         && chain[1] == plan.toInstall[chain[0]] && chain[1] in q.graph && chain[0] in q.graph[chain[1]].depends
         && ParentChain(q, plan, roots, chain[1..])
  }

  lemma {:induction false} ParentsReachARoot(
    q: Request, plan: Plan, rank: map<string, nat>, roots: set<string>, n: string) returns (chain: seq<string>)
    requires Traced(q, plan, rank, roots) && n in plan.toInstall
    ensures ParentChain(q, plan, roots, chain) && chain[0] == n
    decreases rank[n]
  {
    var parent := plan.toInstall[n];
    assert Parented(q, plan.toInstall, rank, roots, n);
    if parent == "" && n in roots {
      chain := [n];
    } else {
      var rest := ParentsReachARoot(q, plan, rank, roots, parent);
      chain := [n] + rest;
      assert chain[1..] == rest;
    }
  }
}
