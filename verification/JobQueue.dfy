/** The queue of actions: submission, scheduling, cancellation and end of a job
    (odoo_manager_core/job_queue.py). */
module JobQueue {
  const MAX_RETAINED_JOBS: nat := 60
  const MAX_RUNNING_JOBS: nat := 4

  datatype Status = Queued | Running | Cancelling | Done | Failed | Cancelled

  datatype Job = Job(id: nat, resources: set<string>, cancellable: bool, status: Status)

  predicate Active(j: Job) {
    j.status.Running? || j.status.Cancelling?
  }

  predicate Unfinished(j: Job) {
    j.status.Queued? || Active(j)
  }

  predicate IsProject(resource: string) {
    resource == "*" || "project:" <= resource
  }

  /** Same resource, or one covers every project and the other touches one. */
  predicate Conflict(a: Job, b: Job) {
    || (exists r :: r in a.resources && r in b.resources)
    || ("*" in a.resources && exists r :: r in b.resources && IsProject(r))
    || ("*" in b.resources && exists r :: r in a.resources && IsProject(r))
  }

  function ActiveCount(jobs: seq<Job>): nat {
    if jobs == [] then 0 else (if Active(jobs[0]) then 1 else 0) + ActiveCount(jobs[1..])
  }

  // --- One scheduling pass ------------------------------------------------------------------------

  /** Job `k` conflicts with an active job, or with an earlier one still waiting. */
  predicate Blocked(jobs: seq<Job>, k: nat)
    requires k < |jobs|
  {
    exists i :: 0 <= i < |jobs| && i != k && (Active(jobs[i]) || (i < k && jobs[i].status.Queued?))
                && Conflict(jobs[k], jobs[i])
  }

  predicate Starts(jobs: seq<Job>, k: nat)
    requires k < |jobs|
  {
    jobs[k].status.Queued? && ActiveCount(jobs) < MAX_RUNNING_JOBS && !Blocked(jobs, k)
  }

  /** The pass over the jobs from `k` on, in order of arrival. */
  function PassFrom(jobs: seq<Job>, k: nat): (r: seq<Job>)
    requires k <= |jobs|
    ensures |r| == |jobs|
    decreases |jobs| - k
  {
    if k == |jobs| then jobs
    else PassFrom(if Starts(jobs, k) then jobs[k := jobs[k].(status := Running)] else jobs, k + 1)
  }

  // --- The other lock regions ----------------------------------------------------------------------

  /** Without the first `excess` finished jobs. */
  function Prune(jobs: seq<Job>, excess: nat): seq<Job> {
    if jobs == [] || excess == 0 then jobs
    else if Unfinished(jobs[0]) then [jobs[0]] + Prune(jobs[1..], excess)
    else Prune(jobs[1..], excess - 1)
  }

  lemma {:induction false} PruneOne(jobs: seq<Job>, i: nat, excess: nat)
    requires i < |jobs|
    ensures Prune(jobs[i..], excess) ==
      if excess > 0 && !Unfinished(jobs[i]) then Prune(jobs[i + 1..], excess - 1)
      else [jobs[i]] + Prune(jobs[i + 1..], excess)
  {
    assert jobs[i..][0] == jobs[i] && jobs[i..][1..] == jobs[i + 1..];
    if excess == 0 {
      assert Prune(jobs[i + 1..], 0) == jobs[i + 1..];
    }
  }

  lemma {:induction false} PruneNone(excess: nat)
    ensures Prune([], excess) == []
  {
  }

  function Retained(jobs: seq<Job>): seq<Job> {
    Prune(jobs, if |jobs| >= MAX_RETAINED_JOBS then |jobs| - MAX_RETAINED_JOBS + 1 else 0)
  }

  function CancelConflicting(jobs: seq<Job>, ended: Job): (r: seq<Job>)
    ensures |r| == |jobs|
  {
    seq(|jobs|, i requires 0 <= i < |jobs| =>
      if jobs[i].status.Queued? && Conflict(ended, jobs[i]) then jobs[i].(status := Cancelled) else jobs[i])
  }

  /** The end of a job's thread: a failure or a stop takes along the waiting jobs it conflicts with. */
  function Released(jobs: seq<Job>, ended: Job): seq<Job> {
    if ended.status.Failed? || ended.status.Cancelled? then CancelConflicting(jobs, ended) else jobs
  }

  /** The jobs a lock region has changed, in order, as they are after it. */
  function Changed(before: seq<Job>, after: seq<Job>): seq<Job>
    requires |before| == |after|
  {
    if after == [] then []
    else
      var n := |after| - 1;
      Changed(before[..n], after[..n]) + if after[n] != before[n] then [after[n]] else []
  }

  lemma {:induction false} NothingChanged(jobs: seq<Job>)
    ensures Changed(jobs[..0], jobs[..0]) == [] && Changed(jobs, jobs) == []
  {
    if jobs != [] {
      NothingChanged(jobs[..|jobs| - 1]);
    }
  }

  lemma {:induction false} ChangedNext(before: seq<Job>, after: seq<Job>, k: nat)
    requires |before| == |after| && k < |after|
    ensures Changed(before[..k + 1], after[..k + 1]) ==
      Changed(before[..k], after[..k]) + if after[k] != before[k] then [after[k]] else []
  {
    assert before[..k + 1][..k] == before[..k] && after[..k + 1][..k] == after[..k];
  }

  datatype Reason = Behind(other: Job) | LimitReached

  /** What the interface shows of a waiting job: only earlier jobs are looked at. */
  function WaitingReason(jobs: seq<Job>, job: Job): Reason {
    if jobs == [] || jobs[0].id >= job.id then LimitReached
    else if Unfinished(jobs[0]) && Conflict(job, jobs[0]) then Behind(jobs[0])
    else WaitingReason(jobs[1..], job)
  }

  // --- The table ------------------------------------------------------------------------------------

  datatype CancelOutcome = Unknown | AlreadyFinished | NotCancellable | Removed | AlreadyCancelling | MustAsk

  function Index(jobs: seq<Job>, id: nat): (i: nat)
    ensures i <= |jobs| && (i < |jobs| ==> jobs[i].id == id)
    ensures forall j :: 0 <= j < i ==> jobs[j].id != id
  {
    if jobs == [] || jobs[0].id == id then 0 else 1 + Index(jobs[1..], id)
  }

  lemma {:induction false} ActiveCountAppend(a: seq<Job>, b: seq<Job>)
    ensures ActiveCount(a + b) == ActiveCount(a) + ActiveCount(b)
  {
    if a == [] {
      assert a + b == b;
    } else {
      assert (a + b)[1..] == a[1..] + b;
      ActiveCountAppend(a[1..], b);
    }
  }

  lemma {:induction false} ActiveCountUpdate(jobs: seq<Job>, k: nat, j: Job)
    requires k < |jobs|
    ensures ActiveCount(jobs[k := j])
            == ActiveCount(jobs) - (if Active(jobs[k]) then 1 else 0) + (if Active(j) then 1 else 0)
  {
    assert jobs[k := j] == jobs[..k] + ([j] + jobs[k + 1..]) && jobs == jobs[..k] + ([jobs[k]] + jobs[k + 1..]);
    ActiveCountAppend(jobs[..k], [j] + jobs[k + 1..]);
    ActiveCountAppend(jobs[..k], [jobs[k]] + jobs[k + 1..]);
    assert ([j] + jobs[k + 1..])[1..] == ([jobs[k]] + jobs[k + 1..])[1..];
  }

  method Retain(jobs: seq<Job>) returns (kept: seq<Job>)
    ensures kept == Retained(jobs)
  {
    hide Prune;
    var excess: nat := if |jobs| >= MAX_RETAINED_JOBS then |jobs| - MAX_RETAINED_JOBS + 1 else 0;
    kept := [];
    assert jobs[0..] == jobs;
    for i := 0 to |jobs|
      invariant kept + Prune(jobs[i..], excess) == Retained(jobs)
    {
      PruneOne(jobs, i, excess);
      if excess > 0 && !Unfinished(jobs[i]) {
        excess := excess - 1;
      } else {
        kept := kept + [jobs[i]];
      }
    }
    PruneNone(excess);
    assert jobs[|jobs|..] == [];
  }

  class JobTable {
    var jobs: seq<Job>
    var nextId: nat

    constructor ()
      ensures jobs == [] && nextId == 1
    {
      jobs, nextId := [], 1;
    }

    /** The lock region of a job's creation; a scheduling pass follows it. */
    method Add(resources: set<string>, cancellable: bool) returns (job: Job)
      modifies this
      ensures job == Job(old(nextId), resources, cancellable, Queued)
      ensures jobs == Retained(old(jobs)) + [job] && nextId == old(nextId) + 1
    {
      job := Job(nextId, resources, cancellable, Queued);
      nextId := nextId + 1;
      var kept := Retain(jobs);
      jobs := kept + [job];
    }

    method ActiveJobs() returns (active: seq<Job>)
      ensures |active| == ActiveCount(jobs) && ListsActive(jobs, active)
    {
      active := [];
      for i := 0 to |jobs|
        invariant |active| == ActiveCount(jobs[..i]) && ListsActive(jobs[..i], active)
      {
        assert jobs[..i + 1] == jobs[..i] + [jobs[i]];
        ActiveCountAppend(jobs[..i], [jobs[i]]);
        assert [jobs[i]][1..] == [];
        assert forall k :: 0 <= k < i ==> jobs[..i][k] == jobs[..i + 1][k];
        if Active(jobs[i]) {
          active := active + [jobs[i]];
        }
      }
      assert jobs[..|jobs|] == jobs;
    }

    /** One scheduling pass: starts, in order of arrival, the jobs that cross no active one. */
    method Schedule() returns (toStart: seq<Job>)
      modifies this`jobs
      ensures jobs == PassFrom(old(jobs), 0)
      ensures toStart == Changed(old(jobs), jobs)
      ensures forall j :: j in toStart ==> j.status.Running?
    {
      hide ListsActive, ListsWaiting, Blocked, ActiveCount, Conflict, Changed;
      var active := ActiveJobs();
      toStart := [];
      var waiting: seq<Job> := [];
      NothingWaits(jobs);
      NothingChanged(jobs);
      for k := 0 to |jobs|
        invariant |jobs| == |old(jobs)| && PassFrom(jobs, k) == PassFrom(old(jobs), 0)
        invariant |active| == ActiveCount(jobs) && ListsActive(jobs, active) && ListsWaiting(jobs, k, waiting)
        invariant forall i :: k <= i < |jobs| ==> jobs[i] == old(jobs)[i]
        invariant toStart == Changed(old(jobs)[..k], jobs[..k])
        invariant forall j :: j in toStart ==> j.status.Running?
      {
        var job := jobs[k];
        ChangedNext(old(jobs), jobs, k);
        WaitingGrows(jobs, k, waiting);
        if job.status.Queued? {
          // An earlier job still blocked keeps its priority on its resources.
          var blocked := exists j :: j in active + waiting && Conflict(job, j);
          BlockedMeans(jobs, k, active, waiting);
          if |active| >= MAX_RUNNING_JOBS || blocked {
            waiting := waiting + [job];
          } else {
            job := job.(status := Running);
            ActiveCountUpdate(jobs, k, job);
            StartedStays(jobs, k, active, waiting);
            ChangedNext(old(jobs), jobs[k := job], k);
            assert jobs[k := job][..k] == jobs[..k];
            jobs := jobs[k := job];
            active := active + [job];
            toStart := toStart + [job];
          }
        }
      }
      assert old(jobs)[..|jobs|] == old(jobs) && jobs[..|jobs|] == jobs;
    }

    /** The first lock region of a stop request: a waiting job leaves the queue, a running one must be
        asked through its control. */
    method BeginCancel(id: nat) returns (outcome: CancelOutcome)
      modifies this`jobs
      ensures var i := Index(old(jobs), id);
              outcome == (if i == |old(jobs)| then Unknown else match old(jobs)[i].status
                          case Queued => Removed
                          case Running => if old(jobs)[i].cancellable then MustAsk else NotCancellable
                          case Cancelling => AlreadyCancelling
                          case _ => AlreadyFinished)
              && jobs == if outcome.Removed? then old(jobs)[i := old(jobs)[i].(status := Cancelled)] else old(jobs)
    {
      var i := Index(jobs, id);
      if i == |jobs| {
        return Unknown;
      }
      var job := jobs[i];
      if !Unfinished(job) {
        return AlreadyFinished;
      }
      if job.status.Running? && !job.cancellable {
        return NotCancellable;
      }
      if job.status.Queued? {
        jobs := jobs[i := job.(status := Cancelled)];
        return Removed;
      }
      return if job.status.Cancelling? then AlreadyCancelling else MustAsk;
    }

    /** The last lock region of an accepted stop request: the job may have ended meanwhile. */
    method MarkCancelling(id: nat)
      modifies this`jobs
      ensures var i := Index(old(jobs), id);
              jobs == if i < |old(jobs)| && old(jobs)[i].status.Running?
                      then old(jobs)[i := old(jobs)[i].(status := Cancelling)] else old(jobs)
    {
      var i := Index(jobs, id);
      if i < |jobs| && jobs[i].status.Running? {
        jobs := jobs[i := jobs[i].(status := Cancelling)];
      }
    }

    /** The final status of a job, written by its own thread. */
    method MarkEnded(id: nat, status: Status)
      modifies this`jobs
      ensures var i := Index(old(jobs), id);
              jobs == if i < |old(jobs)| && (status.Done? ==> Active(old(jobs)[i]))
                      then old(jobs)[i := old(jobs)[i].(status := status)] else old(jobs)
    {
      var i := Index(jobs, id);
      if i < |jobs| {
        if !status.Done? || Active(jobs[i]) {
          jobs := jobs[i := jobs[i].(status := status)];
        }
      }
    }

    /** The lock region that ends a job's thread. */
    method Release(ended: Job) returns (dependents: seq<Job>)
      modifies this`jobs
      ensures jobs == Released(old(jobs), ended)
      ensures dependents == Changed(old(jobs), jobs)
    {
      hide Conflict, Changed;
      NothingChanged(jobs);
      dependents := [];
      if ended.status.Failed? || ended.status.Cancelled? {
        for i := 0 to |jobs|
          invariant |jobs| == |old(jobs)|
          invariant forall k :: 0 <= k < i ==> jobs[k] == CancelConflicting(old(jobs), ended)[k]
          invariant forall k :: i <= k < |jobs| ==> jobs[k] == old(jobs)[k]
          invariant dependents == Changed(old(jobs)[..i], jobs[..i])
        {
          var other := jobs[i];
          ChangedNext(old(jobs), jobs, i);
          if other.status.Queued? && Conflict(ended, other) {
            other := other.(status := Cancelled);
            ChangedNext(old(jobs), jobs[i := other], i);
            assert jobs[i := other][..i] == jobs[..i];
            jobs := jobs[i := other];
            dependents := dependents + [other];
          }
        }
      }
      assert old(jobs)[..|jobs|] == old(jobs) && jobs[..|jobs|] == jobs;
    }

    method Reason(job: Job) returns (reason: Reason)
      ensures reason == WaitingReason(jobs, job)
    {
      assert jobs[0..] == jobs;
      for i := 0 to |jobs|
        invariant WaitingReason(jobs[i..], job) == WaitingReason(jobs, job)
      {
        var other := jobs[i];
        assert jobs[i..][0] == other && jobs[i..][1..] == jobs[i + 1..];
        if other.id >= job.id {
          break;
        }
        if Unfinished(other) && Conflict(job, other) {
          return Behind(other);
        }
      }
      return LimitReached;
    }
  }

  ghost predicate ListsActive(jobs: seq<Job>, active: seq<Job>) {
    forall j :: j in active <==> exists i :: 0 <= i < |jobs| && jobs[i] == j && Active(j)
  }

  ghost predicate ListsWaiting(jobs: seq<Job>, k: nat, waiting: seq<Job>)
    requires k <= |jobs|
  {
    forall j :: j in waiting <==> exists i :: 0 <= i < k && jobs[i] == j && j.status.Queued?
  }

  lemma {:induction false} NothingWaits(jobs: seq<Job>)
    ensures ListsWaiting(jobs, 0, [])
  {
  }

  lemma {:induction false} WaitingGrows(jobs: seq<Job>, k: nat, waiting: seq<Job>)
    requires k < |jobs| && ListsWaiting(jobs, k, waiting)
    ensures if jobs[k].status.Queued? then ListsWaiting(jobs, k + 1, waiting + [jobs[k]])
            else ListsWaiting(jobs, k + 1, waiting)
  {
  }

  lemma {:induction false} BlockedMeans(jobs: seq<Job>, k: nat, active: seq<Job>, waiting: seq<Job>)
    requires k < |jobs| && jobs[k].status.Queued?
    requires ListsActive(jobs, active) && ListsWaiting(jobs, k, waiting)
    ensures (exists j :: j in active + waiting && Conflict(jobs[k], j)) <==> Blocked(jobs, k)
  {
    hide Conflict;
    if j :| j in active + waiting && Conflict(jobs[k], j) {
      assert j in active || j in waiting;
    }
    if Blocked(jobs, k) {
      var i :| 0 <= i < |jobs| && i != k && (Active(jobs[i]) || (i < k && jobs[i].status.Queued?))
        && Conflict(jobs[k], jobs[i]);
      assert jobs[i] in active || jobs[i] in waiting;
      assert jobs[i] in active + waiting;
    }
  }

  lemma {:induction false} StartedStays(before: seq<Job>, k: nat, active: seq<Job>, waiting: seq<Job>)
    requires k < |before| && before[k].status.Queued?
    requires ListsActive(before, active) && ListsWaiting(before, k, waiting)
    ensures var job := before[k].(status := Running);
            ListsActive(before[k := job], active + [job]) && ListsWaiting(before[k := job], k + 1, waiting)
  {
    var job := before[k].(status := Running);
    var jobs := before[k := job];
    forall j ensures j in active + [job] <==> exists i :: 0 <= i < |jobs| && jobs[i] == j && Active(j) {
      if j in active {
        var i :| 0 <= i < |before| && before[i] == j && Active(j);
        assert jobs[i] == j;
      }
      if j == job {
        assert jobs[k] == j;
      }
      if i :| 0 <= i < |jobs| && jobs[i] == j && Active(j) {
        assert i != k ==> before[i] == j;
      }
    }
    forall j ensures j in waiting <==> exists i :: 0 <= i < k + 1 && jobs[i] == j && j.status.Queued? {
      if j in waiting {
        var i :| 0 <= i < k && before[i] == j && j.status.Queued?;
        assert jobs[i] == j;
      }
      if i :| 0 <= i < k + 1 && jobs[i] == j && j.status.Queued? {
        assert before[i] == j;
      }
    }
  }
}
