/** The queue as a transition system, each lock region being one step: safety over every run, and the
    queue empties. */
module JobQueueProofs {
  import opened JobQueue

  /** `ending`: threads whose job has its final status and that have yet to release the queue.
      `owed`: callers that have left their lock region and are about to run a scheduling pass. */
  datatype State = State(jobs: seq<Job>, nextId: nat, ending: seq<Job>, owed: nat)

  datatype Event =
    | Submit(resources: set<string>, cancellable: bool)
    | Pass
    | Withdraw(i: nat)
    | Stopping(i: nat)
    | End(i: nat, status: Status)
    | Release(k: nat)

  const START := State([], 1, [], 0)

  predicate Enabled(s: State, e: Event) {
    match e
    case Submit(_, _) => true
    case Pass => s.owed > 0
    case Withdraw(i) => i < |s.jobs| && s.jobs[i].status.Queued?
    case Stopping(i) => i < |s.jobs| && s.jobs[i].status.Running?
    case End(i, status) => i < |s.jobs| && Active(s.jobs[i]) && (status.Done? || status.Failed? || status.Cancelled?)
    case Release(k) => k < |s.ending|
  }

  function Next(s: State, e: Event): State
    requires Enabled(s, e)
  {
    match e
    case Submit(resources, cancellable) =>
      State(Retained(s.jobs) + [Job(s.nextId, resources, cancellable, Queued)], s.nextId + 1, s.ending, s.owed + 1)
    case Pass => s.(jobs := PassFrom(s.jobs, 0), owed := s.owed - 1)
    case Withdraw(i) => s.(jobs := s.jobs[i := s.jobs[i].(status := Cancelled)], owed := s.owed + 1)
    case Stopping(i) => s.(jobs := s.jobs[i := s.jobs[i].(status := Cancelling)])
    case End(i, status) =>
      var ended := s.jobs[i].(status := status);
      s.(jobs := s.jobs[i := ended], ending := s.ending + [ended])
    case Release(k) =>
      s.(jobs := Released(s.jobs, s.ending[k]), ending := s.ending[..k] + s.ending[k + 1..], owed := s.owed + 1)
  }

  predicate Runs(s: State, events: seq<Event>)
    decreases |events|
  {
    events == [] || (Enabled(s, events[0]) && Runs(Next(s, events[0]), events[1..]))
  }

  function After(s: State, events: seq<Event>): State
    requires Runs(s, events)
    decreases |events|
  {
    if events == [] then s else After(Next(s, events[0]), events[1..])
  }

  // --- The invariant --------------------------------------------------------------------------------

  ghost predicate Sorted(jobs: seq<Job>) {
    forall i, j :: 0 <= i < j < |jobs| ==> jobs[i].id < jobs[j].id
  }

  /** No active job conflicts with an earlier one that is not finished. */
  ghost predicate InOrder(jobs: seq<Job>) {
    forall a, b :: a in jobs && b in jobs && a.id < b.id && Unfinished(a) && Active(b) ==> !Conflict(a, b)
  }

  /** A waiting job has a reason to wait. */
  ghost predicate Justified(jobs: seq<Job>, b: Job) {
    ActiveCount(jobs) == MAX_RUNNING_JOBS
    || exists a :: a in jobs && a.id < b.id && Unfinished(a) && Conflict(a, b)
  }

  ghost predicate AllJustified(jobs: seq<Job>) {
    forall b :: b in jobs && b.status.Queued? ==> Justified(jobs, b)
  }

  ghost predicate Safe(jobs: seq<Job>) {
    Sorted(jobs) && ActiveCount(jobs) <= MAX_RUNNING_JOBS && InOrder(jobs)
  }

  ghost predicate Inv(s: State) {
    && Safe(s.jobs) && (forall j :: j in s.jobs ==> j.id < s.nextId)
    && (AllJustified(s.jobs) || s.owed > 0 || s.ending != [])
  }

  lemma {:induction false} ConflictSymmetric(a: Job, b: Job)
    ensures Conflict(a, b) <==> Conflict(b, a)
  {
  }

  lemma {:induction false} SortedMeans(jobs: seq<Job>, i: nat, j: nat)
    requires Sorted(jobs) && i < |jobs| && j < |jobs|
    ensures i < j <==> jobs[i].id < jobs[j].id
    ensures i == j <==> jobs[i].id == jobs[j].id
  {
  }

  /** Changing the status of one job, in ways that cannot break the order. */
  lemma {:induction false} StatusChange(jobs: seq<Job>, k: nat, status: Status)
    requires k < |jobs| && Safe(jobs)
    requires var j := jobs[k].(status := status);
             (Unfinished(j) ==> Unfinished(jobs[k])) && (Active(j) ==> Active(jobs[k]))
    ensures Safe(jobs[k := jobs[k].(status := status)])
  {
    hide Conflict;
    var job := jobs[k].(status := status);
    ActiveCountUpdate(jobs, k, job);
    var after := jobs[k := job];
    forall a, b | a in after && b in after && a.id < b.id && Unfinished(a) && Active(b) ensures !Conflict(a, b) {
      var a0, b0 := if a == job then jobs[k] else a, if b == job then jobs[k] else b;
      assert a0 in jobs && b0 in jobs;
      SameConflict(a0, a, b0, b);
    }
  }

  lemma {:induction false} SameConflict(a: Job, a': Job, b: Job, b': Job)
    requires a.resources == a'.resources && b.resources == b'.resources
    ensures Conflict(a, b) == Conflict(a', b')
  {
  }

  // --- The scheduling pass --------------------------------------------------------------------------

  lemma {:induction false} StartIsSafe(jobs: seq<Job>, k: nat)
    requires k < |jobs| && Safe(jobs) && Starts(jobs, k)
    ensures Safe(jobs[k := jobs[k].(status := Running)])
  {
    hide Conflict;
    var job := jobs[k].(status := Running);
    var after := jobs[k := job];
    ActiveCountUpdate(jobs, k, job);
    forall a, b | a in after && b in after && a.id < b.id && Unfinished(a) && Active(b) ensures !Conflict(a, b) {
      var i :| 0 <= i < |after| && after[i] == a;
      var j :| 0 <= j < |after| && after[j] == b;
      if i == k || j == k {
        var other := if i == k then j else i;
        SortedMeans(jobs, i, j);
        SameConflict(jobs[k], job, jobs[other], after[other]);
        ConflictSymmetric(job, after[other]);
        assert !Conflict(jobs[k], jobs[other]);
      } else {
        assert jobs[i] == a && jobs[j] == b;
      }
    }
  }

  /** What holds back a job seen by the pass: the limit, an active job or an earlier waiting one. */
  ghost predicate HeldBack(jobs: seq<Job>, k: nat)
    requires k < |jobs|
  {
    ActiveCount(jobs) >= MAX_RUNNING_JOBS || Blocked(jobs, k)
  }

  lemma {:induction false} StillHeldBack(jobs: seq<Job>, k: nat, i: nat)
    requires i < k < |jobs| && jobs[k].status.Queued? && HeldBack(jobs, i)
    ensures HeldBack(jobs[k := jobs[k].(status := Running)], i)
  {
    hide Conflict;
    var job := jobs[k].(status := Running);
    var after := jobs[k := job];
    ActiveCountUpdate(jobs, k, job);
    if Blocked(jobs, i) {
      var w :| 0 <= w < |jobs| && w != i && (Active(jobs[w]) || (w < i && jobs[w].status.Queued?))
        && Conflict(jobs[i], jobs[w]);
      assert after[w] == jobs[w] && after[i] == jobs[i];
    }
  }

  lemma {:induction false} PassIsSafe(jobs: seq<Job>, k: nat)
    requires k <= |jobs| && Safe(jobs)
    requires forall i :: 0 <= i < k && jobs[i].status.Queued? ==> HeldBack(jobs, i)
    ensures Safe(PassFrom(jobs, k))
    ensures forall i :: 0 <= i < |jobs| && PassFrom(jobs, k)[i].status.Queued? ==> HeldBack(PassFrom(jobs, k), i)
    ensures forall i :: 0 <= i < |jobs| ==> PassFrom(jobs, k)[i].id == jobs[i].id
    decreases |jobs| - k
  {
    hide Safe, HeldBack;
    if k < |jobs| {
      if Starts(jobs, k) {
        StartIsSafe(jobs, k);
        forall i | 0 <= i < k && jobs[i].status.Queued?
          ensures HeldBack(jobs[k := jobs[k].(status := Running)], i)
        {
          StillHeldBack(jobs, k, i);
        }
        PassIsSafe(jobs[k := jobs[k].(status := Running)], k + 1);
      } else {
        NotStarted(jobs, k);
        PassIsSafe(jobs, k + 1);
      }
    }
  }

  lemma {:induction false} NotStarted(jobs: seq<Job>, k: nat)
    requires k < |jobs| && !Starts(jobs, k)
    ensures jobs[k].status.Queued? ==> HeldBack(jobs, k)
  {
  }

  /** After a pass, what holds a job back came before it: a later job never overtakes it. */
  lemma {:induction false} HeldBackIsJustified(jobs: seq<Job>, k: nat)
    requires k < |jobs| && Safe(jobs) && jobs[k].status.Queued? && HeldBack(jobs, k)
    ensures Justified(jobs, jobs[k])
  {
    hide Conflict;
    if ActiveCount(jobs) < MAX_RUNNING_JOBS {
      var w :| 0 <= w < |jobs| && w != k && (Active(jobs[w]) || (w < k && jobs[w].status.Queued?))
        && Conflict(jobs[k], jobs[w]);
      SortedMeans(jobs, w, k);
      ConflictSymmetric(jobs[k], jobs[w]);
      assert jobs[w] in jobs && jobs[k] in jobs;
    }
  }

  lemma {:induction false} PassJustifies(jobs: seq<Job>)
    requires Safe(jobs)
    ensures Safe(PassFrom(jobs, 0)) && AllJustified(PassFrom(jobs, 0))
  {
    hide Safe, HeldBack, Justified;
    PassIsSafe(jobs, 0);
    var after := PassFrom(jobs, 0);
    forall b | b in after && b.status.Queued? ensures Justified(after, b) {
      var k :| 0 <= k < |after| && after[k] == b;
      HeldBackIsJustified(after, k);
    }
  }

  // --- The other steps --------------------------------------------------------------------------------

  lemma {:induction false} PruneIsSafe(jobs: seq<Job>, excess: nat)
    requires Sorted(jobs)
    ensures Sorted(Prune(jobs, excess)) && ActiveCount(Prune(jobs, excess)) == ActiveCount(jobs)
    ensures forall j :: j in Prune(jobs, excess) ==> j in jobs
    ensures forall j :: j in jobs && Unfinished(j) ==> j in Prune(jobs, excess)
    decreases |jobs|
  {
    if jobs != [] && excess > 0 {
      var rest := jobs[1..];
      PruneIsSafe(rest, if Unfinished(jobs[0]) then excess else excess - 1);
      if Unfinished(jobs[0]) {
        var kept := Prune(rest, excess);
        assert ([jobs[0]] + kept)[1..] == kept;
        forall j | 0 <= j < |kept| ensures jobs[0].id < kept[j].id {
          assert kept[j] in rest;
        }
      }
    }
  }

  lemma {:induction false} SubmitKeeps(s: State, e: Event)
    requires Inv(s) && e.Submit?
    ensures Inv(Next(s, e))
  {
    hide Conflict, Prune, AllJustified;
    var excess := if |s.jobs| >= MAX_RETAINED_JOBS then |s.jobs| - MAX_RETAINED_JOBS + 1 else 0;
    var kept, job := Retained(s.jobs), Job(s.nextId, e.resources, e.cancellable, Queued);
    PruneIsSafe(s.jobs, excess);
    ActiveCountAppend(kept, [job]);
    assert [job][1..] == [];
    forall a, b | a in kept + [job] && b in kept + [job] && a.id < b.id && Unfinished(a) && Active(b)
      ensures !Conflict(a, b)
    {
      assert b in s.jobs && a in s.jobs;
    }
  }

  lemma {:induction false} CancelConflictingIsSafe(jobs: seq<Job>, ended: Job)
    requires Safe(jobs)
    ensures Safe(CancelConflicting(jobs, ended))
    ensures forall j :: j in CancelConflicting(jobs, ended) ==> exists i :: i in jobs && i.id == j.id
  {
    hide Conflict;
    var after := CancelConflicting(jobs, ended);
    SameActive(jobs, after);
    forall j | j in after
      ensures exists i :: i in jobs && i.id == j.id
      ensures Unfinished(j) ==> j in jobs
    {
      var k :| 0 <= k < |after| && after[k] == j;
      assert jobs[k] in jobs;
    }
    hide CancelConflicting;
    forall a, b | a in after && b in after && a.id < b.id && Unfinished(a) && Active(b) ensures !Conflict(a, b) {
      assert a in jobs && b in jobs;
    }
  }

  lemma {:induction false} SameActive(a: seq<Job>, b: seq<Job>)
    requires |a| == |b| && forall i :: 0 <= i < |a| ==> (Active(a[i]) <==> Active(b[i]))
    ensures ActiveCount(a) == ActiveCount(b)
  {
    if a != [] {
      SameActive(a[1..], b[1..]);
    }
  }

  lemma {:induction false} StepKeeps(s: State, e: Event)
    requires Inv(s) && Enabled(s, e)
    ensures Inv(Next(s, e))
  {
    hide AllJustified, PassFrom, CancelConflicting, Retained, Safe;
    match e
    case Submit(_, _) => SubmitKeeps(s, e);
    case Pass =>
      PassJustifies(s.jobs);
      PassKeepsIds(s.jobs, s.nextId);
    case Withdraw(i) => StatusChange(s.jobs, i, Cancelled);
    case Stopping(i) =>
      StatusChange(s.jobs, i, Cancelling);
      if AllJustified(s.jobs) {
        StoppingJustifies(s.jobs, i);
      }
    case End(i, status) => StatusChange(s.jobs, i, status);
    case Release(k) => CancelConflictingIsSafe(s.jobs, s.ending[k]);
  }

  lemma {:induction false} PassKeepsIds(jobs: seq<Job>, nextId: nat)
    requires Safe(jobs) && forall j :: j in jobs ==> j.id < nextId
    ensures forall j :: j in PassFrom(jobs, 0) ==> j.id < nextId
  {
    hide PassFrom, HeldBack;
    PassIsSafe(jobs, 0);
    var after := PassFrom(jobs, 0);
    forall j | j in after ensures j.id < nextId {
      var k :| 0 <= k < |after| && after[k] == j;
      assert jobs[k] in jobs;
    }
  }

  lemma {:induction false} StoppingJustifies(jobs: seq<Job>, i: nat)
    requires i < |jobs| && jobs[i].status.Running? && AllJustified(jobs)
    ensures AllJustified(jobs[i := jobs[i].(status := Cancelling)])
  {
    hide Conflict;
    var job := jobs[i].(status := Cancelling);
    var after := jobs[i := job];
    ActiveCountUpdate(jobs, i, job);
    forall b | b in after && b.status.Queued? ensures Justified(after, b) {
      assert b in jobs && Justified(jobs, b);
      if ActiveCount(jobs) != MAX_RUNNING_JOBS {
        var a :| a in jobs && a.id < b.id && Unfinished(a) && Conflict(a, b);
        var a' := if a == jobs[i] then job else a;
        SameConflict(a, a', b, b);
        assert a' in after by {
          var k :| 0 <= k < |jobs| && jobs[k] == a;
          assert a == jobs[i] ==> after[i] == a';
          assert a != jobs[i] ==> after[k] == a';
        }
      }
    }
  }

  lemma {:induction false} RunKeeps(s: State, events: seq<Event>)
    requires Inv(s) && Runs(s, events)
    ensures Inv(After(s, events))
    decreases |events|
  {
    hide Inv, Enabled, Next;
    if events != [] {
      StepKeeps(s, events[0]);
      RunKeeps(Next(s, events[0]), events[1..]);
    }
  }

  lemma {:induction false} StartIsSafeState()
    ensures Inv(START)
  {
  }

  lemma {:induction false} ActiveJobsNeverConflict(jobs: seq<Job>, a: Job, b: Job)
    requires Safe(jobs) && a in jobs && b in jobs && a.id != b.id && Active(a) && Active(b)
    ensures !Conflict(a, b)
  {
    ConflictSymmetric(a, b);
  }

  /** In every reachable state: at most four active jobs; no two of them conflict; none conflicts with an
      earlier unfinished job, so conflicting jobs start in order of arrival; and a waiting job without a
      reason to wait has a scheduling pass coming. */
  lemma {:induction false} AlwaysSafe(events: seq<Event>)
    requires Runs(START, events)
    ensures var s := After(START, events);
      && ActiveCount(s.jobs) <= MAX_RUNNING_JOBS
      && (forall a, b :: a in s.jobs && b in s.jobs && a.id != b.id && Active(a) && Active(b) ==> !Conflict(a, b))
      && (forall a, b :: a in s.jobs && b in s.jobs && a.id < b.id && Unfinished(a) && Conflict(a, b) ==> !Active(b))
      && (AllJustified(s.jobs) || s.owed > 0 || s.ending != [])
  {
    hide Conflict;
    StartIsSafeState();
    RunKeeps(START, events);
    var s := After(START, events);
    forall a, b | a in s.jobs && b in s.jobs && a.id != b.id && Active(a) && Active(b) ensures !Conflict(a, b) {
      ActiveJobsNeverConflict(s.jobs, a, b);
    }
  }

  // --- The reason shown -----------------------------------------------------------------------------

  ghost predicate TrueReason(jobs: seq<Job>, job: Job, reason: Reason) {
    match reason
    case Behind(other) => other in jobs && other.id < job.id && Unfinished(other) && Conflict(job, other)
    case LimitReached => ActiveCount(jobs) == MAX_RUNNING_JOBS
  }

  lemma {:induction false} ReasonFound(jobs: seq<Job>, job: Job)
    requires Sorted(jobs)
    ensures match WaitingReason(jobs, job)
            case Behind(other) => other in jobs && other.id < job.id && Unfinished(other) && Conflict(job, other)
            case LimitReached => forall a :: a in jobs && a.id < job.id && Unfinished(a) ==> !Conflict(job, a)
    decreases |jobs|
  {
    hide Conflict;
    if jobs != [] && jobs[0].id < job.id && !(Unfinished(jobs[0]) && Conflict(job, jobs[0])) {
      ReasonFound(jobs[1..], job);
    }
  }

  /** After a pass, the reason shown is true although it only looks at earlier jobs. */
  lemma {:induction false} ReasonIsTrue(jobs: seq<Job>, job: Job)
    requires Safe(jobs) && job in PassFrom(jobs, 0) && job.status.Queued?
    ensures TrueReason(PassFrom(jobs, 0), job, WaitingReason(PassFrom(jobs, 0), job))
  {
    hide Conflict, PassFrom;
    var after := PassFrom(jobs, 0);
    PassJustifies(jobs);
    ReasonFound(after, job);
    assert Justified(after, job);
    if a :| a in after && a.id < job.id && Unfinished(a) && Conflict(a, job) {
      ConflictSymmetric(a, job);
    }
  }

  // --- The queue empties ----------------------------------------------------------------------------

  function Weight(j: Job): nat {
    match j.status
    case Queued => 5
    case Running => 4
    case Cancelling => 3
    case _ => 0
  }

  function TotalWeight(jobs: seq<Job>): nat {
    if jobs == [] then 0 else Weight(jobs[0]) + TotalWeight(jobs[1..])
  }

  function Measure(s: State): nat {
    TotalWeight(s.jobs) + 2 * |s.ending| + s.owed
  }

  lemma {:induction false} LighterJobs(a: seq<Job>, b: seq<Job>)
    requires |a| == |b| && forall i :: 0 <= i < |a| ==> Weight(a[i]) <= Weight(b[i])
    ensures TotalWeight(a) <= TotalWeight(b)
  {
    if a != [] {
      LighterJobs(a[1..], b[1..]);
    }
  }

  lemma {:induction false} WeightUpdate(jobs: seq<Job>, k: nat, j: Job)
    requires k < |jobs|
    ensures TotalWeight(jobs[k := j]) == TotalWeight(jobs) - Weight(jobs[k]) + Weight(j)
  {
    if k == 0 {
      assert jobs[k := j][1..] == jobs[1..];
    } else {
      assert jobs[k := j][1..] == jobs[1..][k - 1 := j];
      WeightUpdate(jobs[1..], k - 1, j);
    }
  }

  lemma {:induction false} PassIsLighter(jobs: seq<Job>, k: nat)
    requires k <= |jobs|
    ensures TotalWeight(PassFrom(jobs, k)) <= TotalWeight(jobs)
    decreases |jobs| - k
  {
    hide Blocked;
    if k < |jobs| {
      if Starts(jobs, k) {
        WeightUpdate(jobs, k, jobs[k].(status := Running));
        PassIsLighter(jobs[k := jobs[k].(status := Running)], k + 1);
      } else {
        PassIsLighter(jobs, k + 1);
      }
    }
  }

  /** Without a submission, every step makes the queue lighter. */
  lemma {:induction false} StepIsLighter(s: State, e: Event)
    requires Enabled(s, e) && !e.Submit?
    ensures Measure(Next(s, e)) < Measure(s)
  {
    hide PassFrom, Conflict;
    match e
    case Submit(_, _) =>
    case Pass => PassIsLighter(s.jobs, 0);
    case Withdraw(i) => WeightUpdate(s.jobs, i, s.jobs[i].(status := Cancelled));
    case Stopping(i) => WeightUpdate(s.jobs, i, s.jobs[i].(status := Cancelling));
    case End(i, status) => WeightUpdate(s.jobs, i, s.jobs[i].(status := status));
    case Release(k) => LighterJobs(Released(s.jobs, s.ending[k]), s.jobs);
  }

  /** Steps that do not depend on the user: a pass, the end of a running job, the release of the queue. */
  predicate Progress(e: Event) {
    e.Pass? || e.End? || e.Release?
  }

  predicate Drained(s: State) {
    s.owed == 0 && s.ending == [] && forall j :: j in s.jobs ==> !Unfinished(j)
  }

  lemma {:induction false} FirstUnfinished(jobs: seq<Job>, k: nat) returns (i: nat)
    requires k < |jobs| && Unfinished(jobs[k])
    ensures i < |jobs| && Unfinished(jobs[i]) && forall j :: 0 <= j < i ==> !Unfinished(jobs[j])
  {
    if Unfinished(jobs[0]) {
      i := 0;
    } else {
      i := FirstUnfinished(jobs[1..], k - 1);
      i := i + 1;
    }
  }

  lemma {:induction false} NoneUnfinishedBefore(jobs: seq<Job>, i: nat)
    requires Sorted(jobs) && i < |jobs| && forall j :: 0 <= j < i ==> !Unfinished(jobs[j])
    ensures forall a :: a in jobs && a.id < jobs[i].id ==> !Unfinished(a)
  {
    forall a | a in jobs && a.id < jobs[i].id ensures !Unfinished(a) {
      var n :| 0 <= n < |jobs| && jobs[n] == a;
      SortedMeans(jobs, n, i);
    }
  }

  lemma {:induction false} SomeActive(jobs: seq<Job>) returns (i: nat)
    requires ActiveCount(jobs) > 0
    ensures i < |jobs| && Active(jobs[i])
  {
    if Active(jobs[0]) {
      i := 0;
    } else {
      i := SomeActive(jobs[1..]);
      i := i + 1;
    }
  }

  /** No reachable state is stuck: unless everything is finished, some step can be taken that does not
      depend on the user. */
  lemma {:induction false} NeverStuck(s: State) returns (e: Event)
    requires Inv(s) && !Drained(s)
    ensures Enabled(s, e) && Progress(e)
  {
    hide Conflict;
    if s.owed > 0 {
      e := Pass;
    } else if s.ending != [] {
      e := Release(0);
    } else {
      var j :| j in s.jobs && Unfinished(j);
      var k :| 0 <= k < |s.jobs| && s.jobs[k] == j;
      var i := FirstUnfinished(s.jobs, k);
      if !Active(s.jobs[i]) {
        var b := s.jobs[i];
        assert Justified(s.jobs, b);
        NoneUnfinishedBefore(s.jobs, i);
        i := SomeActive(s.jobs);
      }
      e := End(i, Done);
    }
  }

  /** With no new submission the queue empties: a run has at most `Measure` steps, and where it can no
      longer progress every job is finished. */
  lemma {:induction false} QueueDrains(s: State, events: seq<Event>)
    requires Inv(s) && Runs(s, events) && forall e :: e in events ==> !e.Submit?
    ensures |events| <= Measure(s)
    ensures Drained(After(s, events)) || exists e :: Progress(e) && Enabled(After(s, events), e)
  {
    RunKeeps(s, events);
    RunIsShort(s, events);
    if !Drained(After(s, events)) {
      var e := NeverStuck(After(s, events));
    }
  }

  lemma {:induction false} RunIsShort(s: State, events: seq<Event>)
    requires Runs(s, events) && forall e :: e in events ==> !e.Submit?
    ensures |events| + Measure(After(s, events)) <= Measure(s)
    decreases |events|
  {
    hide Enabled, Next, Measure;
    if events != [] {
      StepIsLighter(s, events[0]);
      RunIsShort(Next(s, events[0]), events[1..]);
    }
  }
}
