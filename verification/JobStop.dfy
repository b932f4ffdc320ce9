/** The three lock regions of a stop request (odoo_manager_core/job_queue.py: cancel_job) together with the job's
    own thread and its control. */
module JobStop {
  import opened JobQueue
  import C = JobControl
  import P = JobControlProofs

  /** One job: its status in the table, its control and thread, and the requests that have left the first lock
      region (`asking`) or have been accepted by the control (`asked`). */
  datatype State = State(status: Status, cancellable: bool, started: bool, system: P.System, asking: nat, asked: nat)

  datatype Event =
    | Start
    | Withdraw
    | Ask
    | Request
    | Mark
    | Work(e: P.Event)
    | Finish

  /** The final status of a job whose thread is over. */
  function Final(end: P.End): Status {
    match end
    case Done => Status.Done
    case Failed => Status.Failed
    case Cancelled => Status.Cancelled
  }

  predicate Open(s: State) {
    s.status.Running? || s.status.Cancelling?
  }

  predicate Enabled(s: State, e: Event) {
    match e
    case Start => s.status.Queued?
    case Withdraw => s.status.Queued?
    case Ask => s.status.Running? && s.cancellable
    case Request => s.asking > 0
    case Mark => s.asked > 0
    case Work(e) => Open(s) && !e.Request? && P.Enabled(s.system, e)
    case Finish => Open(s) && s.system.phase.Ended?
  }

  function Outcome(s: State): C.Outcome {
    C.Requested(s.system.control).1
  }

  function Next(s: State, e: Event): State
    requires Enabled(s, e)
  {
    match e
    case Start => s.(status := Running, started := true)
    case Withdraw => s.(status := Status.Cancelled)
    case Ask => s.(asking := s.asking + 1)
    case Request =>
      if Outcome(s).Refused? then s.(asking := s.asking - 1)
      else s.(system := P.Next(s.system, P.Request), asking := s.asking - 1, asked := s.asked + 1)
    case Mark => s.(status := if s.status.Running? then Cancelling else s.status, asked := s.asked - 1)
    case Work(e) => s.(system := P.Next(s.system, e))
    case Finish => s.(status := Final(s.system.phase.end))
  }

  predicate Runs(s: State, events: seq<Event>)
    decreases |events|
  {
    events == [] || (Enabled(s, events[0]) && Runs(Next(s, events[0]), events[1..]))
  }

  function After(s: State, events: seq<Event>): State
    requires Runs(s, events)
    decreases |events|
  {
    if events == [] then s else After(Next(s, events[0]), events[1..])
  }

  /** A job just submitted. */
  function Submitted(cancellable: bool): State {
    State(Queued, cancellable, false, P.START, 0, 0)
  }

  ghost predicate Inv(s: State) {
    && (s.status.Queued? ==> !s.started)
    && (!s.started ==> s.system == P.START && s.asking == 0 && s.asked == 0
                       && (s.status.Queued? || s.status.Cancelled?))
    && (s.status.Cancelling? || s.asked > 0 ==> s.system.control.cancel)
    && (s.asking > 0 || s.asked > 0 || s.system.control.cancel ==> s.cancellable)
    && (s.system.phase.Reverting? || s.system.phase == P.Ended(P.Cancelled) ==> s.system.control.cancel)
    && (s.started && !Open(s) ==> s.system.phase.Ended? && s.status == Final(s.system.phase.end))
  }

  lemma {:induction false} WorkKeepsTheFlag(s: P.System, e: P.Event)
    requires P.Enabled(s, e) && !e.Request?
    requires s.phase.Reverting? || s.phase == P.Ended(P.Cancelled) ==> s.control.cancel
    ensures P.Next(s, e).control.cancel == s.control.cancel
    ensures var t := P.Next(s, e); t.phase.Reverting? || t.phase == P.Ended(P.Cancelled) ==> t.control.cancel
    ensures s.phase.Ended? ==> P.Next(s, e).phase == s.phase
  {
  }

  lemma {:induction false} StepKeeps(s: State, e: Event)
    requires Inv(s) && Enabled(s, e)
    ensures Inv(Next(s, e))
  {
    if e.Work? {
      hide P.Next, P.Enabled;
      WorkKeepsTheFlag(s.system, e.e);
    }
  }

  lemma {:induction false} RunKeeps(s: State, events: seq<Event>)
    requires Inv(s) && Runs(s, events)
    ensures Inv(After(s, events))
    decreases |events|
  {
    hide Inv, Enabled, Next;
    if events != [] {
      StepKeeps(s, events[0]);
      RunKeeps(Next(s, events[0]), events[1..]);
    }
  }

  /** Over every interleaving of any number of requests with the job's thread: a job shown as stopping has its
      flag set; one that ends stopped was withdrawn before it started, or was asked to stop and its thread ended so;
      one that cannot be stopped never is. */
  lemma {:induction false} StoppingMeansAsked(cancellable: bool, events: seq<Event>)
    requires Runs(Submitted(cancellable), events)
    ensures var s := After(Submitted(cancellable), events);
      && (s.status.Cancelling? ==> s.system.control.cancel)
      && (s.status.Cancelled? ==> !s.started || (s.system.control.cancel && s.system.phase == P.Ended(P.Cancelled)))
      && (!cancellable ==> !s.status.Cancelling? && (s.status.Cancelled? ==> !s.started))
  {
    CancellableStays(Submitted(cancellable), events);
    RunKeeps(Submitted(cancellable), events);
  }

  lemma {:induction false} CancellableStays(s: State, events: seq<Event>)
    requires Runs(s, events)
    ensures After(s, events).cancellable == s.cancellable
    decreases |events|
  {
    hide P.Next, P.Enabled;
    if events != [] {
      CancellableStays(Next(s, events[0]), events[1..]);
    }
  }

  /** A request is refused exactly in an irreversible step with no stop asked before, and then changes neither the
      status nor the control; otherwise the flag is set. */
  lemma {:induction false} RefusalChangesNothing(s: State)
    requires Enabled(s, Request)
    ensures Outcome(s).Refused? <==> !s.system.control.cancel && C.Irreversible(s.system.control.steps)
    ensures Outcome(s).Refused? ==> Next(s, Request) == s.(asking := s.asking - 1)
    ensures !Outcome(s).Refused? ==> Next(s, Request).system.control.cancel && Next(s, Request).asked == s.asked + 1
  {
  }
}
