/** What the scheduler keeps apart, said of the jobs' resources: "*" stands for every project, and only for
    projects; any other resource is held by one job at a time. */
module JobExclusion {
  import opened JobQueue
  import opened JobQueueProofs

  /** The resource is a project, or all of them. */
  predicate OfProjects(resource: string) {
    resource == "*" || (|resource| >= 8 && resource[..8] == "project:")
  }

  predicate TouchesProjects(resources: set<string>) {
    exists r :: r in resources && OfProjects(r)
  }

  /** Two jobs that must not run at the same time. */
  predicate Crosses(a: set<string>, b: set<string>) {
    || a * b != {}
    || ("*" in a && TouchesProjects(b))
    || ("*" in b && TouchesProjects(a))
  }

  predicate Working(j: Job) {
    j.status == Running || j.status == Cancelling
  }

  function WorkingIds(jobs: seq<Job>): set<nat> {
    set j | j in jobs && Working(j) :: j.id
  }

  lemma {:induction false} ConflictIsCrossing(a: Job, b: Job)
    ensures Conflict(a, b) <==> Crosses(a.resources, b.resources)
  {
    assert forall r: string :: IsProject(r) <==> OfProjects(r);
    if r :| r in a.resources && r in b.resources {
      assert r in a.resources * b.resources;
    }
    if a.resources * b.resources != {} {
      var r :| r in a.resources * b.resources;
      assert r in a.resources && r in b.resources;
    }
  }

  lemma {:induction false} WorkingAreCounted(jobs: seq<Job>)
    requires Sorted(jobs)
    ensures |WorkingIds(jobs)| == ActiveCount(jobs)
    decreases |jobs|
  {
    if jobs == [] {
      assert WorkingIds(jobs) == {};
    } else {
      var rest := jobs[1..];
      WorkingAreCounted(rest);
      FirstIsOldest(jobs);
      FirstAside(jobs);
    }
  }

  lemma {:induction false} FirstIsOldest(jobs: seq<Job>)
    requires Sorted(jobs) && jobs != []
    ensures forall j :: j in jobs[1..] ==> j.id > jobs[0].id
  {
    forall j | j in jobs[1..] ensures j.id > jobs[0].id {
      var k :| 0 <= k < |jobs| - 1 && jobs[k + 1] == j;
    }
  }

  lemma {:induction false} FirstAside(jobs: seq<Job>)
    requires jobs != []
    ensures WorkingIds(jobs) == WorkingIds(jobs[1..]) + if Working(jobs[0]) then {jobs[0].id} else {}
  {
    hide Working;
    assert jobs == [jobs[0]] + jobs[1..];
  }

  /** In every reachable state: at most four jobs work; no two of them hold the same resource; and beside one that
      holds "*" none holds "*" or a project. */
  lemma {:induction false} WorkingJobsAreApart(events: seq<Event>)
    requires Runs(START, events)
    ensures var jobs := After(START, events).jobs;
      && |WorkingIds(jobs)| <= 4
      && (forall a, b :: a in jobs && b in jobs && a.id != b.id && Working(a) && Working(b) ==>
            && a.resources !! b.resources
            && ("*" in a.resources ==> forall r :: r in b.resources ==> !OfProjects(r)))
  {
    hide Conflict, Crosses;
    AlwaysSafe(events);
    StartIsSafeState();
    RunKeeps(START, events);
    var jobs := After(START, events).jobs;
    WorkingAreCounted(jobs);
    forall a, b | a in jobs && b in jobs && a.id != b.id && Working(a) && Working(b)
      ensures a.resources !! b.resources
      ensures "*" in a.resources ==> forall r :: r in b.resources ==> !OfProjects(r)
    {
      ConflictIsCrossing(a, b);
      Apart(a.resources, b.resources);
    }
  }

  lemma {:induction false} Apart(a: set<string>, b: set<string>)
    requires !Crosses(a, b)
    ensures a !! b
    ensures "*" in a ==> forall r :: r in b ==> !OfProjects(r)
  {
    assert a * b == {};
    forall r ensures !(r in a && r in b) {
      assert r !in a * b;
    }
  }

  /** After a pass that follows any run, a job waits only when four others work or when an earlier one that is not
      finished holds one of its resources, or all the projects where it holds one, or a project where it holds them
      all. So two jobs with no resource in common, neither holding "*", never hold each other back, and "*" holds
      back nothing but projects. */
  lemma {:induction false} NoneWaitsInVain(events: seq<Event>, b: Job)
    requires Runs(START, events) && Enabled(After(START, events), Pass)
    requires b in Next(After(START, events), Pass).jobs && b.status == Queued
    ensures var jobs := Next(After(START, events), Pass).jobs;
      || |WorkingIds(jobs)| == 4
      || exists a :: a in jobs && a.id < b.id && (Working(a) || a.status == Queued) && Crosses(a.resources, b.resources)
  {
    hide Conflict, Crosses, PassFrom;
    StartIsSafeState();
    RunKeeps(START, events);
    var before := After(START, events).jobs;
    var jobs := PassFrom(before, 0);
    PassJustifies(before);
    WorkingAreCounted(jobs);
    assert Justified(jobs, b);
    if a :| a in jobs && a.id < b.id && Unfinished(a) && Conflict(a, b) {
      ConflictIsCrossing(a, b);
    }
  }

  /** The thread of a job that failed or was stopped cancels exactly the waiting jobs that cross it; one that is
      done cancels none. */
  lemma {:induction false} ReleaseByResources(s: State, k: nat, i: nat)
    requires k < |s.ending| && i < |s.jobs|
    ensures var after, ended := Next(s, Release(k)).jobs, s.ending[k];
      && |after| == |s.jobs|
      && after[i] == s.jobs[i].(status :=
           if (ended.status == Failed || ended.status == Cancelled) && s.jobs[i].status == Queued
              && Crosses(ended.resources, s.jobs[i].resources)
           then Cancelled else s.jobs[i].status)
  {
    hide Conflict, Crosses;
    ConflictIsCrossing(s.ending[k], s.jobs[i]);
  }

  // --- The jobs a lock region hands over ----------------------------------------------------------------------

  /** Exactly the jobs changed, at their places, each once and in the order of the table. */
  ghost predicate HandsOver(before: seq<Job>, after: seq<Job>, handed: seq<Job>, places: seq<nat>) {
    && |places| == |handed| && (forall m, n :: 0 <= m < n < |places| ==> places[m] < places[n])
    && (forall m :: 0 <= m < |places| ==>
          places[m] < |after| && places[m] < |before| && handed[m] == after[places[m]]
          && after[places[m]] != before[places[m]])
    && (forall i: nat :: i < |after| && i < |before| && after[i] != before[i] ==> i in places)
  }

  /** The threads to start after a pass, and the jobs to report after an end. */
  lemma {:induction false} ChangedAreHandedOver(before: seq<Job>, after: seq<Job>) returns (places: seq<nat>)
    requires |before| == |after|
    ensures HandsOver(before, after, Changed(before, after), places)
    decreases |after|
  {
    hide HandsOver;
    NothingHandedOver();
    if after == [] {
      assert before == [];
      places := [];
    } else {
      var n: nat := |after| - 1;
      places := ChangedAreHandedOver(before[..n], after[..n]);
      OneMoreLooked(before, after, Changed(before[..n], after[..n]), places);
      if after[n] != before[n] {
        places := places + [n];
      } else {
        assert Changed(before, after) == Changed(before[..n], after[..n]);
      }
    }
  }

  lemma {:induction false} NothingHandedOver()
    ensures HandsOver([], [], [], [])
  {
  }

  lemma {:induction false} OneMoreLooked(before: seq<Job>, after: seq<Job>, handed: seq<Job>, places: seq<nat>)
    requires |before| == |after| > 0
    requires var n := |after| - 1; HandsOver(before[..n], after[..n], handed, places)
    ensures var n := |after| - 1;
      if after[n] == before[n] then HandsOver(before, after, handed, places)
      else HandsOver(before, after, handed + [after[n]], places + [n])
  {
    var n := |after| - 1;
    forall i: nat | i < n && after[i] != before[i] ensures i in places {
      assert after[..n][i] == after[i] && before[..n][i] == before[i];
    }
    forall m | 0 <= m < |places|
      ensures places[m] < n && handed[m] == after[places[m]] && after[places[m]] != before[places[m]]
    {
      assert after[..n][places[m]] == after[places[m]];
    }
  }

  // --- The jobs kept in the table ---------------------------------------------------------------------------

  predicate Finished(j: Job) {
    j.status == Done || j.status == Failed || j.status == Cancelled
  }

  function FinishedCount(jobs: seq<Job>): nat {
    if jobs == [] then 0 else (if Finished(jobs[0]) then 1 else 0) + FinishedCount(jobs[1..])
  }

  lemma {:induction false} PruneDropsOldest(jobs: seq<Job>, excess: nat)
    requires Sorted(jobs)
    ensures forall j :: j in Prune(jobs, excess) ==> j in jobs
    ensures forall j :: j in jobs && !Finished(j) ==> j in Prune(jobs, excess)
    ensures forall a, b :: a in jobs && b in jobs && a.id < b.id && Finished(a) && b !in Prune(jobs, excess)
              ==> a !in Prune(jobs, excess)
    ensures |Prune(jobs, excess)| ==
              |jobs| - if excess < FinishedCount(jobs) then excess else FinishedCount(jobs)
    decreases |jobs|
  {
    CountIsSmall(jobs);
    if jobs != [] && excess > 0 {
      var rest := jobs[1..];
      PruneDropsOldest(rest, if Unfinished(jobs[0]) then excess else excess - 1);
      FirstIsOldest(jobs);
    }
  }

  lemma {:induction false} CountIsSmall(jobs: seq<Job>)
    ensures FinishedCount(jobs) <= |jobs|
  {
    if jobs != [] {
      CountIsSmall(jobs[1..]);
    }
  }

  /** Sixty jobs are kept: beyond, the oldest finished ones are forgotten, and no other. */
  lemma {:induction false} SixtyAreKept(jobs: seq<Job>)
    requires Sorted(jobs)
    ensures |jobs| < 60 ==> Retained(jobs) == jobs
    ensures forall j :: j in jobs && !Finished(j) ==> j in Retained(jobs)
    ensures forall a, b :: a in jobs && b in jobs && a.id < b.id && Finished(a) && b !in Retained(jobs)
              ==> a !in Retained(jobs)
    ensures |jobs| >= 60 ==>
      |Retained(jobs)| == if FinishedCount(jobs) >= |jobs| - 59 then 59 else |jobs| - FinishedCount(jobs)
  {
    if |jobs| >= 60 {
      PruneDropsOldest(jobs, |jobs| - 59);
    }
  }
}
