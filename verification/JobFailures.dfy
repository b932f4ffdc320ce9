/** What a failure or a stop takes along: the final status of a job and the cancellation of the jobs that wait
    for it are two lock regions, and a scheduling pass may come between them. */
module JobFailures {
  import opened JobQueue
  import opened JobQueueProofs

  predicate Fails(status: Status) {
    status.Failed? || status.Cancelled?
  }

  /** No active job conflicts with the one that has ended. */
  ghost predicate NoneActive(jobs: seq<Job>, ended: Job) {
    forall b :: b in jobs && Active(b) ==> !Conflict(ended, b)
  }

  /** Nothing that conflicts with the job that has ended is waiting or running any more. */
  ghost predicate NoneLeft(jobs: seq<Job>, ended: Job) {
    forall b :: b in jobs && Unfinished(b) ==> !Conflict(ended, b)
  }

  function Ended(s: State, i: nat, status: Status): Job
    requires i < |s.jobs|
  {
    s.jobs[i].(status := status)
  }

  // --- When the cancellation takes everything -------------------------------------------------------------

  /** The cancellation leaves nothing that conflicts if and only if no such job is active when it comes. */
  lemma {:induction false} ReleaseCancelsAllIff(s: State, k: nat)
    requires k < |s.ending| && Fails(s.ending[k].status)
    ensures NoneLeft(Next(s, Release(k)).jobs, s.ending[k]) <==> NoneActive(s.jobs, s.ending[k])
  {
    hide Conflict;
    var ended := s.ending[k];
    var after := Next(s, Release(k)).jobs;
    assert after == CancelConflicting(s.jobs, ended);
    forall n | 0 <= n < |after|
      ensures Unfinished(after[n]) && Conflict(ended, after[n]) <==> Active(s.jobs[n]) && Conflict(ended, s.jobs[n])
    {
      SameConflict(ended, ended, s.jobs[n], after[n]);
    }
    if NoneActive(s.jobs, ended) {
      forall b | b in after && Unfinished(b) ensures !Conflict(ended, b) {
        var n :| 0 <= n < |after| && after[n] == b;
        assert s.jobs[n] in s.jobs;
      }
    }
    if NoneLeft(after, ended) {
      forall b | b in s.jobs && Active(b) ensures !Conflict(ended, b) {
        var n :| 0 <= n < |s.jobs| && s.jobs[n] == b;
        assert after[n] in after;
      }
    }
  }

  /** When a job ends no other active one conflicts with it. */
  lemma {:induction false} NoneActiveAtTheEnd(s: State, i: nat, status: Status)
    requires Inv(s) && Enabled(s, End(i, status))
    ensures NoneActive(Next(s, End(i, status)).jobs, Ended(s, i, status))
  {
    hide Conflict;
    var ended, after := Ended(s, i, status), Next(s, End(i, status)).jobs;
    forall b | b in after && Active(b) ensures !Conflict(ended, b) {
      var n :| 0 <= n < |after| && after[n] == b;
      assert n != i && s.jobs[n] == b && s.jobs[i] in s.jobs;
      SortedMeans(s.jobs, i, n);
      ActiveJobsNeverConflict(s.jobs, s.jobs[i], b);
      SameConflict(s.jobs[i], ended, b, b);
    }
  }

  /** A scheduling pass is the only step that makes a job active. */
  lemma {:induction false} OnlyAPassStarts(s: State, e: Event, ended: Job)
    requires Enabled(s, e) && !e.Pass? && NoneActive(s.jobs, ended)
    ensures NoneActive(Next(s, e).jobs, ended)
  {
    hide Conflict, Prune;
    var after := Next(s, e).jobs;
    forall b | b in after && Active(b) ensures !Conflict(ended, b) {
      var a := WasActive(s, e, b);
      SameConflict(ended, ended, a, b);
    }
  }

  lemma {:induction false} WasActive(s: State, e: Event, b: Job) returns (a: Job)
    requires Enabled(s, e) && !e.Pass? && b in Next(s, e).jobs && Active(b)
    ensures a in s.jobs && Active(a) && a.resources == b.resources
  {
    hide Conflict, Prune;
    match e
    case Submit(_, _) =>
      PruneKeeps(s.jobs, if |s.jobs| >= MAX_RETAINED_JOBS then |s.jobs| - MAX_RETAINED_JOBS + 1 else 0);
      a := b;
    case Pass =>
    case Release(k) =>
      var n :| 0 <= n < |s.jobs| && Next(s, e).jobs[n] == b;
      a := s.jobs[n];
    case _ =>
      var n :| 0 <= n < |s.jobs| && Next(s, e).jobs[n] == b;
      a := s.jobs[n];
  }

  lemma {:induction false} PruneKeeps(jobs: seq<Job>, excess: nat)
    ensures forall j :: j in Prune(jobs, excess) ==> j in jobs
  {
    if jobs != [] && excess > 0 {
      PruneKeeps(jobs[1..], if Unfinished(jobs[0]) then excess else excess - 1);
    }
  }

  lemma {:induction false} NoneActiveWithoutAPass(s: State, events: seq<Event>, ended: Job)
    requires Runs(s, events) && (forall e :: e in events ==> !e.Pass?) && NoneActive(s.jobs, ended)
    ensures NoneActive(After(s, events).jobs, ended)
    decreases |events|
  {
    hide Enabled, Next, NoneActive;
    if events != [] {
      assert events[0] in events;
      OnlyAPassStarts(s, events[0], ended);
      NoneActiveWithoutAPass(Next(s, events[0]), events[1..], ended);
    }
  }

  /** Whatever happens between the end of a job that failed or was stopped and its cancellation of the others, a
      scheduling pass excepted: no job that conflicts with it is left waiting or running. */
  lemma {:induction false} FailureCancelsDependents(s: State, i: nat, status: Status, mid: seq<Event>, k: nat)
    requires Inv(s) && Enabled(s, End(i, status)) && Fails(status)
    requires var t := Next(s, End(i, status));
      && Runs(t, mid) && (forall e :: e in mid ==> !e.Pass?)
      && k < |After(t, mid).ending| && After(t, mid).ending[k] == Ended(s, i, status)
    ensures var t := After(Next(s, End(i, status)), mid);
      Enabled(t, Release(k)) && NoneLeft(Next(t, Release(k)).jobs, Ended(s, i, status))
  {
    hide Inv, NoneActive, NoneLeft, Runs, After;
    var t := Next(s, End(i, status));
    NoneActiveAtTheEnd(s, i, status);
    NoneActiveWithoutAPass(t, mid, Ended(s, i, status));
    ReleaseCancelsAllIff(After(t, mid), k);
  }

  // --- When a pass comes between --------------------------------------------------------------------------

  /** The run of the window: the job ends, a pass that was owed runs, and only then are the others cancelled. */
  function Window(s: State, i: nat, status: Status): seq<Event> {
    [End(i, status), Pass, Release(|s.ending|)]
  }

  lemma {:induction false} WindowRuns(s: State, i: nat, status: Status)
    requires Enabled(s, End(i, status)) && Fails(status) && s.owed > 0
    ensures var t := Next(s, End(i, status));
      && Runs(s, Window(s, i, status))
      && After(s, Window(s, i, status)).jobs == CancelConflicting(PassFrom(t.jobs, 0), Ended(s, i, status))
  {
    hide PassFrom, CancelConflicting;
    var w := Window(s, i, status);
    var t := Next(s, End(i, status));
    var p := Next(t, Pass);
    var u := Next(p, Release(|s.ending|));
    assert w[1..] == [Pass, Release(|s.ending|)] && w[1..][1..] == [Release(|s.ending|)] && w[1..][1..][1..] == [];
    assert Runs(u, []) && After(u, []) == u;
    assert Runs(p, [Release(|s.ending|)]) && After(p, [Release(|s.ending|)]) == u;
    assert Runs(t, w[1..]) && After(t, w[1..]) == u;
  }

  /** Each job waiting and in conflict when the other ended: running for good if the pass starts it, cancelled
      otherwise. */
  lemma {:induction false} PassInTheWindow(s: State, i: nat, status: Status, j: nat)
    requires Enabled(s, End(i, status)) && Fails(status) && s.owed > 0
    requires j < |s.jobs| && s.jobs[j].status.Queued? && Conflict(Ended(s, i, status), s.jobs[j])
    ensures var t := Next(s, End(i, status));
      && Runs(s, Window(s, i, status)) && |After(s, Window(s, i, status)).jobs| == |s.jobs|
      && After(s, Window(s, i, status)).jobs[j] ==
           s.jobs[j].(status := if PassFrom(t.jobs, 0)[j].status.Running? then Running else Cancelled)
  {
    hide PassFrom, Conflict, Runs, After;
    var t := Next(s, End(i, status));
    WindowRuns(s, i, status);
    PassOnlyStarts(t.jobs, 0, j);
    SameConflict(Ended(s, i, status), Ended(s, i, status), s.jobs[j], PassFrom(t.jobs, 0)[j]);
  }

  lemma {:induction false} PassOnlyStarts(jobs: seq<Job>, k: nat, j: nat)
    requires k <= |jobs| && j < |jobs|
    ensures PassFrom(jobs, k)[j] == jobs[j]
      || (jobs[j].status.Queued? && PassFrom(jobs, k)[j] == jobs[j].(status := Running))
    ensures j < k ==> PassFrom(jobs, k)[j] == jobs[j]
    decreases |jobs| - k
  {
    hide Starts;
    if k < |jobs| {
      StartsIsQueued(jobs, k);
      PassOnlyStarts(if Starts(jobs, k) then jobs[k := jobs[k].(status := Running)] else jobs, k + 1, j);
    }
  }

  lemma {:induction false} StartsIsQueued(jobs: seq<Job>, k: nat)
    requires k < |jobs|
    ensures Starts(jobs, k) ==> jobs[k].status.Queued?
  {
  }

  /** With a pass owed, something that conflicts survives the cancellation if and only if that pass starts a job
      that was waiting for the one that ended. */
  lemma {:induction false} WindowIff(s: State, i: nat, status: Status)
    requires Inv(s) && Enabled(s, End(i, status)) && Fails(status) && s.owed > 0
    ensures var t, ended := Next(s, End(i, status)), Ended(s, i, status);
      && Runs(s, Window(s, i, status))
      && (!NoneLeft(After(s, Window(s, i, status)).jobs, ended) <==>
            exists j :: 0 <= j < |t.jobs| && t.jobs[j].status.Queued? && Conflict(ended, t.jobs[j])
                        && PassFrom(t.jobs, 0)[j].status.Running?)
  {
    hide PassFrom, Conflict, Runs, After, Inv, NoneLeft, CancelConflicting;
    var t, ended := Next(s, End(i, status)), Ended(s, i, status);
    var p := Next(t, Pass);
    WindowRuns(s, i, status);
    NoneActiveAtTheEnd(s, i, status);
    ReleaseCancelsAllIff(p, |s.ending|);
    forall j | 0 <= j < |t.jobs|
      ensures Active(p.jobs[j]) && Conflict(ended, p.jobs[j]) <==>
        t.jobs[j].status.Queued? && Conflict(ended, t.jobs[j]) && p.jobs[j].status.Running?
    {
      PassOnlyStarts(t.jobs, 0, j);
      SameConflict(ended, ended, t.jobs[j], p.jobs[j]);
      assert t.jobs[j] in t.jobs;
    }
    SomeActive(p.jobs, ended);
  }

  lemma {:induction false} SomeActive(jobs: seq<Job>, ended: Job)
    ensures !NoneActive(jobs, ended) <==> exists j :: 0 <= j < |jobs| && Active(jobs[j]) && Conflict(ended, jobs[j])
  {
    hide Conflict;
    if !NoneActive(jobs, ended) {
      var b :| b in jobs && Active(b) && Conflict(ended, b);
      var j :| 0 <= j < |jobs| && jobs[j] == b;
    }
  }

  /** The pass starts the first job that can start. */
  lemma {:induction false} FirstStarts(jobs: seq<Job>, k: nat, j: nat)
    requires k <= j < |jobs| && Starts(jobs, j) && forall h :: k <= h < j ==> !Starts(jobs, h)
    ensures PassFrom(jobs, k)[j].status.Running?
    decreases |jobs| - k
  {
    hide Starts;
    if k < j {
      FirstStarts(jobs, k + 1, j);
    } else {
      PassOnlyStarts(jobs[j := jobs[j].(status := Running)], j + 1, j);
    }
  }

  // --- The window is reached ------------------------------------------------------------------------------

  const FIRST := Job(1, {"project:p"}, true, Queued)
  const SECOND := Job(2, {"project:p"}, true, Queued)

  /** A job runs, another one waits for it, and the pass that follows the second submission is still owed. */
  const ONE_WAITS := State([FIRST.(status := Running), SECOND], 3, [], 1)
  const BEFORE: seq<Event> := [Submit({"project:p"}, true), Pass, Submit({"project:p"}, true)]

  lemma {:induction false} RunsThen(s: State, a: seq<Event>, b: seq<Event>)
    requires Runs(s, a) && Runs(After(s, a), b)
    ensures Runs(s, a + b) && After(s, a + b) == After(After(s, a), b)
    decreases |a|
  {
    hide Enabled, Next;
    if a == [] {
      assert a + b == b;
    } else {
      assert (a + b)[1..] == a[1..] + b && (a + b)[0] == a[0];
      RunsThen(Next(s, a[0]), a[1..], b);
    }
  }

  lemma {:induction false} OneJobStarts(job: Job)
    requires job.status.Queued?
    ensures PassFrom([job], 0) == [job.(status := Running)]
  {
    assert [job][1..] == [] && ActiveCount([job][1..]) == 0;
    assert ActiveCount([job]) == 0 && !Blocked([job], 0);
    FirstStarts([job], 0, 0);
    PassOnlyStarts([job], 0, 0);
  }

  lemma {:induction false} OneWaits()
    ensures Runs(START, BEFORE) && After(START, BEFORE) == ONE_WAITS
  {
    var s1, s2 := State([FIRST], 2, [], 1), State([FIRST.(status := Running)], 2, [], 0);
    OneJobStarts(FIRST);
    hide PassFrom;
    assert Next(START, BEFORE[0]) == s1 && Next(s1, Pass) == s2 && Next(s2, BEFORE[2]) == ONE_WAITS;
    assert BEFORE[1..] == [Pass, BEFORE[2]] && BEFORE[1..][1..] == [BEFORE[2]] && BEFORE[1..][1..][1..] == [];
    assert Runs(ONE_WAITS, []) && After(ONE_WAITS, []) == ONE_WAITS;
    assert Runs(s2, [BEFORE[2]]) && After(s2, [BEFORE[2]]) == ONE_WAITS;
    assert Runs(s1, BEFORE[1..]) && After(s1, BEFORE[1..]) == ONE_WAITS;
  }

  /** From the empty queue: a job fails, a pass starts the one that waited for it, and that one runs on. */
  lemma {:induction false} FailureWindow()
    ensures var run := BEFORE + Window(ONE_WAITS, 0, Failed);
      && Conflict(FIRST, SECOND) && Runs(START, run)
      && After(START, run).jobs == [FIRST.(status := Failed), SECOND.(status := Running)]
  {
    var failed := FIRST.(status := Failed);
    var jobs := [failed, SECOND];
    assert Conflict(FIRST, SECOND) && Conflict(failed, SECOND) by {
      assert "project:p" in FIRST.resources && "project:p" in SECOND.resources && "project:p" in failed.resources;
    }
    assert Starts(jobs, 1) && !Starts(jobs, 0) by {
      assert jobs[1..] == [SECOND] && [SECOND][1..] == [] && ActiveCount([SECOND]) == 0;
    }
    hide Starts, PassFrom, Conflict, Runs, After;
    assert Next(ONE_WAITS, End(0, Failed)).jobs == jobs;
    OneWaits();
    FirstStarts(jobs, 0, 1);
    PassInTheWindow(ONE_WAITS, 0, Failed, 1);
    WindowRuns(ONE_WAITS, 0, Failed);
    PassOnlyStarts(jobs, 0, 0);
    RunsThen(START, BEFORE, Window(ONE_WAITS, 0, Failed));
  }
}
