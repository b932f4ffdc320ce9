/** The stop protocol over every interleaving of stop requests with the job's own thread. */
module JobControlProofs {
  import opened JobControl

  datatype End = Done | Failed | Cancelled

  /** Where the job's thread is: in its action, running its reverts, or finished. */
  datatype Phase = Body | Reverting(todo: seq<Entry>) | Ended(end: End)

  datatype Registration = Registered(entry: Entry) | Discarded(entry: Entry)

  /** The control, the thread, and the history that the properties speak of: the flag's value when each
      open step was entered, how many checkpoints raised, what was registered, and what ran. */
  datatype System = System(
    control: State,
    phase: Phase,
    flags: seq<bool>,
    raises: nat,
    history: seq<Registration>,
    executed: seq<Entry>)

  const START := System(INITIAL, Body, [], 0, [], [])

  datatype Event =
    | Request
    | Check
    | Enter(step: Step)
    | Leave(error: bool)
    | Register(entry: Entry)
    | Discard(entry: Entry)
    | Finish(failure: bool)
    | RunRevert
    | LateRegister(entry: Entry)

  /** The job ends stopped when the stop was requested and its action failed or was interrupted. */
  predicate EndsCancelled(c: State, failure: bool) {
    c.cancel && (failure || c.raised)
  }

  predicate Enabled(s: System, e: Event) {
    match e
    case Request => true
    case Check => !s.phase.Ended?
    case Enter(_) => s.phase.Body?
    case Leave(_) => s.phase.Body? && s.control.steps != [] && s.flags != []
    case Register(_) => s.phase.Body?
    case Discard(_) => s.phase.Body?
    case Finish(_) => s.phase.Body? && s.control.steps == []
    case RunRevert => s.phase.Reverting?
    case LateRegister(_) => s.phase.Reverting?
  }

  function Raise(s: System, checked: (State, bool)): System {
    s.(control := checked.0, raises := s.raises + if checked.1 then 1 else 0)
  }

  function Next(s: System, e: Event): System
    requires Enabled(s, e)
  {
    match e
    case Request => s.(control := Requested(s.control).0)
    case Check => Raise(s, Checked(s.control))
    case Enter(step) => s.(control := Entered(s.control, step), flags := s.flags + [s.control.cancel])
    case Leave(error) =>
      var left := s.(control := Left(s.control), flags := s.flags[..|s.flags| - 1]);
      if error then left else Raise(left, Checked(left.control))
    case Register(entry) =>
      s.(control := s.control.(reverts := s.control.reverts + [entry]), history := s.history + [Registered(entry)])
    case Discard(entry) =>
      s.(control := s.control.(reverts := Remove(s.control.reverts, entry)), history := s.history + [Discarded(entry)])
    case Finish(failure) =>
      if EndsCancelled(s.control, failure) then
        s.(control := Cleaning(s.control).(reverts := []), phase := Reverting(Reversed(s.control.reverts)))
      else s.(phase := Ended(if failure then Failed else Done))
    case RunRevert =>
      var todo := s.phase.todo;
      if todo == [] then s.(phase := Ended(Cancelled))
      else s.(phase := Reverting(todo[1..]), executed := s.executed + [todo[0]])
    case LateRegister(entry) => s.(control := s.control.(reverts := s.control.reverts + [entry]))
  }

  predicate Runs(s: System, events: seq<Event>)
    decreases |events|
  {
    events == [] || (Enabled(s, events[0]) && Runs(Next(s, events[0]), events[1..]))
  }

  function After(s: System, events: seq<Event>): System
    requires Runs(s, events)
    decreases |events|
  {
    if events == [] then s else After(Next(s, events[0]), events[1..])
  }

  /** The reverts a history leaves, oldest first. */
  function Pending(history: seq<Registration>): seq<Entry>
    decreases |history|
  {
    if history == [] then []
    else
      var last, before := history[|history| - 1], Pending(history[..|history| - 1]);
      match last
      case Registered(entry) => before + [entry]
      case Discarded(entry) => Remove(before, entry)
  }

  ghost predicate Inv(s: System) {
    && s.raises <= 1 && (s.raises == 1 ==> s.control.raised)
    && (s.control.raised ==> s.control.cancel)
    && (s.phase.Body? && s.control.raised ==> s.raises == 1)
    && |s.flags| == |s.control.steps|
    && (forall i :: 0 <= i < |s.flags| && s.control.steps[i].irreversible ==> s.flags[i] == s.control.cancel)
    && (s.phase != Body ==> s.control.steps == [])
    && match s.phase
       case Body => s.executed == [] && s.control.reverts == Pending(s.history)
       case Reverting(todo) => s.control.raised && s.executed + todo == Reversed(Pending(s.history))
       case Ended(Cancelled) => s.control.raised && s.executed == Reversed(Pending(s.history))
       case Ended(_) => s.executed == [] && s.raises == 0
  }

  /** A checkpoint raises outside every protected step, before any cleanup, and only after a request. */
  lemma {:induction false} RaisesOnlyWhenFree(s: System, e: Event)
    requires Inv(s) && Enabled(s, e) && Next(s, e).raises > s.raises
    ensures Next(s, e).control.steps == [] && !s.control.raised && s.control.cancel && s.raises == 0 && s.phase.Body?
  {
  }

  lemma {:induction false} PendingSnoc(history: seq<Registration>, r: Registration)
    ensures Pending(history + [r]) == match r
                                      case Registered(entry) => Pending(history) + [entry]
                                      case Discarded(entry) => Remove(Pending(history), entry)
  {
    assert (history + [r])[..|history|] == history;
  }

  lemma {:induction false} StepKeeps(s: System, e: Event)
    requires Inv(s) && Enabled(s, e)
    ensures Inv(Next(s, e))
  {
    hide Pending, Remove;
    match e
    case Register(entry) => PendingSnoc(s.history, Registered(entry));
    case Discard(entry) => PendingSnoc(s.history, Discarded(entry));
    case RunRevert =>
      if s.phase.todo != [] {
        assert s.executed + [s.phase.todo[0]] + s.phase.todo[1..] == s.executed + s.phase.todo;
      } else {
        assert s.executed + [] == s.executed;
      }
    case Finish(failure) => assert [] + Reversed(s.control.reverts) == Reversed(s.control.reverts);
    case _ =>
  }

  lemma {:induction false} AlwaysKept(s: System, events: seq<Event>)
    requires Inv(s) && Runs(s, events)
    ensures Inv(After(s, events))
    decreases |events|
  {
    hide Inv, Enabled, Next;
    if events != [] {
      StepKeeps(s, events[0]);
      AlwaysKept(Next(s, events[0]), events[1..]);
    }
  }

  /** Whatever the interleaving: at most one checkpoint raises; a job whose checkpoint raised ends
      stopped, even if its action swallowed the interruption; it runs each pending revert exactly once,
      newest first, if it ends stopped, and none otherwise. */
  lemma {:induction false} StopProtocol(events: seq<Event>)
    requires Runs(START, events) && After(START, events).phase.Ended?
    ensures var s := After(START, events);
            && s.raises <= 1
            && (s.raises == 1 ==> s.phase.end == Cancelled)
            && s.executed == if s.phase.end == Cancelled then Reversed(Pending(s.history)) else []
  {
    hide Runs, After, Pending;
    assert Pending([]) == [] by { NothingPending(); }
    AlwaysKept(START, events);
  }

  lemma {:induction false} NothingPending()
    ensures Pending([]) == []
  {
  }

  // --- When a stop is heard ---------------------------------------------------------------------------

  ghost predicate NothingIrreversible(c: State) {
    forall i :: 0 <= i < |c.steps| ==> !c.steps[i].irreversible
  }

  /** The answer to a request, and the flag it leaves. */
  lemma {:induction false} AnswerIff(c: State)
    ensures var (after, answer) := Requested(c);
      && (answer == Already <==> c.cancel)
      && (answer == Refused <==> !c.cancel && !NothingIrreversible(c))
      && (answer == Deferred <==> !c.cancel && NothingIrreversible(c) && c.steps != [])
      && (answer == Accepted <==> !c.cancel && c.steps == [])
      && after == c.(cancel := c.cancel || NothingIrreversible(c))
  {
    if Irreversible(c.steps) {
      var i :| 0 <= i < |c.steps| && c.steps[i].irreversible;
      assert !NothingIrreversible(c);
    }
  }

  /** A checkpoint raises exactly when a stop was asked for, none raised or cleans up, and no step is protected; the
      end of the outermost protected step is one. */
  lemma {:induction false} RaisesIff(s: System, e: Event)
    requires Enabled(s, e)
    ensures Next(s, e).raises == s.raises + (
      if s.control.cancel && !s.control.raised
         && ((e == Check && s.control.steps == []) || (e == Leave(false) && |s.control.steps| == 1)) then 1 else 0)
    ensures Next(s, e).raises > s.raises ==> Next(s, e).control.raised
  {
    hide Inv, Requested;
  }

  /** Leaving a step gives back the steps as they were before it was entered. */
  lemma {:induction false} LeaveUndoesEnter(s: System, step: Step, error: bool)
    requires s.phase.Body?
    ensures Enabled(s, Enter(step))
    ensures var within := Next(s, Enter(step));
      && within.control.steps == s.control.steps + [step] && Enabled(within, Leave(error))
      && Next(within, Leave(error)).control.steps == s.control.steps
  {
    var steps := s.control.steps + [step];
    assert steps[..|steps| - 1] == s.control.steps;
  }

  /** The state after the first `k` events. */
  function At(events: seq<Event>, k: nat): System
    requires k <= |events| && Runs(START, events)
  {
    RunsPart(START, events, k);
    After(START, events[..k])
  }

  lemma {:induction false} RunsPart(s: System, events: seq<Event>, k: nat)
    requires k <= |events| && Runs(s, events)
    ensures Runs(s, events[..k])
    ensures k < |events| ==> Enabled(After(s, events[..k]), events[k]) && Runs(s, events[..k + 1])
                             && After(s, events[..k + 1]) == Next(After(s, events[..k]), events[k])
    decreases k
  {
    hide Enabled, Next;
    if k > 0 {
      RunsPart(Next(s, events[0]), events[1..], k - 1);
      assert events[..k][1..] == events[1..][..k - 1];
      if k < |events| {
        assert events[..k + 1][1..] == events[1..][..k];
      }
    } else if k < |events| {
      assert events[..1][1..] == [];
    }
  }

  lemma {:induction false} OneMore(events: seq<Event>, k: nat)
    requires k < |events| && Runs(START, events)
    ensures Enabled(At(events, k), events[k]) && At(events, k + 1) == Next(At(events, k), events[k])
  {
    RunsPart(START, events, k);
  }

  /** Over every run: the flag is set exactly when some request came while no irreversible step was open, and the
      mark of the job's processes changed exactly when the cleanup began. */
  lemma {:induction false} FlagIff(events: seq<Event>, n: nat)
    requires n <= |events| && Runs(START, events)
    ensures At(events, n).control.cancel
            <==> exists k :: 0 <= k < n && events[k] == Request && NothingIrreversible(At(events, k).control)
    ensures At(events, n).control.token == if At(events, n).control.raised then 1 else 0
    decreases n
  {
    hide Runs, After, NothingIrreversible;
    if n == 0 {
      assert At(events, 0) == START by { AtStart(events); }
    } else {
      FlagIff(events, n - 1);
      OneMore(events, n - 1);
      var s, e := At(events, n - 1), events[n - 1];
      AnswerIff(s.control);
      EventFlag(s, e);
    }
  }

  lemma {:induction false} AtStart(events: seq<Event>)
    requires Runs(START, events)
    ensures At(events, 0) == START
  {
    assert events[..0] == [];
  }

  lemma {:induction false} EventFlag(s: System, e: Event)
    requires Enabled(s, e)
    ensures Next(s, e).control.cancel == if e == Request then Requested(s.control).0.cancel else s.control.cancel
    ensures Next(s, e).control.token == s.control.token
              + if Next(s, e).control.raised && !s.control.raised then 1 else 0
    ensures s.control.raised ==> Next(s, e).control.raised
  {
    hide Irreversible;
  }

  /** How a job ends: stopped exactly when a stop had been asked for by the time its action was over, and the action
      failed or a checkpoint had raised; else failed or done as its action says. */
  lemma {:induction false} EndIs(events: seq<Event>, k: nat, failure: bool)
    requires k < |events| && Runs(START, events) && events[k] == Finish(failure)
    requires At(events, |events|).phase.Ended?
    ensures At(events, |events|).phase.end ==
      if At(events, k).control.cancel && (failure || At(events, k).raises == 1) then Cancelled
      else if failure then Failed else Done
  {
    hide Runs, After, Inv, At, Enabled, Next;
    OneMore(events, k);
    InvAt(events, k);
    FinishedAs(At(events, k), failure);
    EndKept(events, k + 1, |events|, if At(events, k).control.cancel && (failure || At(events, k).raises == 1)
                                     then Cancelled else if failure then Failed else Done);
  }

  /** The end is decided. */
  predicate Towards(s: System, end: End) {
    match s.phase
    case Body => false
    case Reverting(_) => end == Cancelled
    case Ended(e) => e == end
  }

  lemma {:induction false} FinishedAs(s: System, failure: bool)
    requires Inv(s) && Enabled(s, Finish(failure))
    ensures Towards(Next(s, Finish(failure)),
                    if s.control.cancel && (failure || s.raises == 1) then Cancelled
                    else if failure then Failed else Done)
  {
    hide Pending, Reversed;
  }

  lemma {:induction false} InvAt(events: seq<Event>, k: nat)
    requires k <= |events| && Runs(START, events)
    ensures Inv(At(events, k))
  {
    hide Runs, After, Pending;
    RunsPart(START, events, k);
    NothingPending();
    AlwaysKept(START, events[..k]);
  }

  lemma {:induction false} EndKept(events: seq<Event>, k: nat, n: nat, end: End)
    requires k <= n <= |events| && Runs(START, events) && Towards(At(events, k), end)
    ensures Towards(At(events, n), end)
    decreases n - k
  {
    hide Runs, At;
    if k < n {
      OneMore(events, k);
      EndKept(events, k + 1, n, end);
    }
  }

  // --- Irreversible steps ---------------------------------------------------------------------------

  /** While the step at depth `d` stays open. */
  ghost predicate StaysOpen(s: System, events: seq<Event>, d: nat)
    decreases |events|
  {
    Runs(s, events) && d < |s.control.steps| && (events == [] || StaysOpen(Next(s, events[0]), events[1..], d))
  }

  /** No request is accepted while an irreversible step is open: the flag does not change. */
  lemma {:induction false} IrreversibleKeepsFlag(s: System, events: seq<Event>, d: nat)
    requires Inv(s) && StaysOpen(s, events, d) && s.control.steps[d].irreversible
    ensures After(s, events).control.cancel == s.control.cancel
    decreases |events|
  {
    if events != [] {
      var next := Next(s, events[0]);
      StepKeeps(s, events[0]);
      assert next.control.cancel == s.control.cancel && next.control.steps[d] == s.control.steps[d];
      IrreversibleKeepsFlag(next, events[1..], d);
    }
  }

  // --- Discarding a revert ----------------------------------------------------------------------------

  /** The registrations never discarded, in order. */
  function NeverDiscarded(history: seq<Registration>): seq<Entry>
    decreases |history|
  {
    if history == [] then []
    else
      var last, before := history[|history| - 1], NeverDiscarded(history[..|history| - 1]);
      match last
      case Registered(entry) => before + [entry]
      case Discarded(entry) => Without(before, entry.uid)
  }

  function Without(entries: seq<Entry>, uid: nat): seq<Entry> {
    if entries == [] then []
    else (if entries[0].uid == uid then [] else [entries[0]]) + Without(entries[1..], uid)
  }

  function Values(entries: seq<Entry>): seq<(string, nat)> {
    seq(|entries|, i requires 0 <= i < |entries| => (entries[i].name, entries[i].callback))
  }

  ghost predicate DistinctIds(entries: seq<Entry>) {
    forall i, j :: 0 <= i < j < |entries| ==> entries[i].uid != entries[j].uid
  }

  function FirstSame(entries: seq<Entry>, entry: Entry): (i: nat)
    requires exists k :: 0 <= k < |entries| && Same(entries[k], entry)
    ensures i < |entries| && Same(entries[i], entry) && forall k :: 0 <= k < i ==> !Same(entries[k], entry)
  {
    if Same(entries[0], entry) then 0 else FirstSame(entries[1..], entry) + 1
  }

  lemma {:induction false} RemoveAt(entries: seq<Entry>, entry: Entry, i: nat)
    requires i < |entries| && Same(entries[i], entry) && forall k :: 0 <= k < i ==> !Same(entries[k], entry)
    ensures Remove(entries, entry) == entries[..i] + entries[i + 1..]
  {
    if i > 0 {
      var rest := entries[1..];
      RemoveAt(rest, entry, i - 1);
      assert [entries[0]] + (rest[..i - 1] + rest[i..]) == entries[..i] + entries[i + 1..];
    }
  }

  lemma {:induction false} WithoutAt(entries: seq<Entry>, j: nat)
    requires DistinctIds(entries) && j < |entries|
    ensures Without(entries, entries[j].uid) == entries[..j] + entries[j + 1..]
  {
    if j == 0 {
      NotThere(entries[1..], entries[0].uid);
    } else {
      WithoutAt(entries[1..], j - 1);
    }
  }

  lemma {:induction false} NotThere(entries: seq<Entry>, uid: nat)
    requires forall i :: 0 <= i < |entries| ==> entries[i].uid != uid
    ensures Without(entries, uid) == entries
  {
    if entries != [] {
      NotThere(entries[1..], uid);
    }
  }

  /** Discarding a pending revert removes that very one, as far as running them can tell, if and only if
      every revert from the first equal one up to it is equal to it. */
  lemma {:induction false} DiscardIsExactIff(entries: seq<Entry>, j: nat)
    requires DistinctIds(entries) && j < |entries|
    ensures var i := FirstSame(entries, entries[j]);
            Values(Remove(entries, entries[j])) == Values(Without(entries, entries[j].uid))
            <==> forall k :: i <= k <= j ==> Same(entries[k], entries[j])
  {
    hide Remove, Without, FirstSame, DistinctIds;
    var i := FirstSame(entries, entries[j]);
    assert i <= j;
    var r, w := entries[..i] + entries[i + 1..], entries[..j] + entries[j + 1..];
    RemoveAt(entries, entries[j], i);
    WithoutAt(entries, j);
    hide Same;
    if Values(r) == Values(w) {
      forall k | i <= k < j ensures Same(entries[k + 1], entries[k]) {
        assert r[k] == entries[k + 1] && w[k] == entries[k];
        assert Values(r)[k] == Values(w)[k];
        SameValues(r[k], w[k]);
      }
      AllSame(entries, i, j);
    }
    if forall k :: i <= k <= j ==> Same(entries[k], entries[j]) {
      forall k | 0 <= k < |r| ensures Values(r)[k] == Values(w)[k] {
        if i <= k < j {
          assert r[k] == entries[k + 1] && w[k] == entries[k];
          SameValues(entries[k], entries[j]);
          SameValues(entries[k + 1], entries[j]);
        } else {
          assert r[k] == w[k];
        }
      }
      assert Values(r) == Values(w);
    }
  }

  lemma {:induction false} SameValues(a: Entry, b: Entry)
    ensures Same(a, b) <==> (a.name, a.callback) == (b.name, b.callback)
  {
  }

  lemma {:induction false} AllSame(entries: seq<Entry>, i: nat, j: nat)
    requires i <= j < |entries| && forall k :: i <= k < j ==> Same(entries[k + 1], entries[k])
    ensures forall k :: i <= k <= j ==> Same(entries[k], entries[j])
    decreases j - i
  {
    if i < j {
      AllSame(entries, i + 1, j);
      assert Same(entries[i + 1], entries[i]);
    }
  }

  /** Registrations are told apart by their name and callback, and each is made once. */
  ghost predicate Distinguishable(history: seq<Registration>) {
    && (forall a, b :: a in history && b in history ==> (a.entry.uid == b.entry.uid <==> Same(a.entry, b.entry)))
    && (forall i, j :: 0 <= i < j < |history| && history[i].Registered? && history[j].Registered?
          ==> history[i].entry.uid != history[j].entry.uid)
  }

  lemma {:induction false} RemoveIsWithout(entries: seq<Entry>, entry: Entry)
    requires DistinctIds(entries) && forall e :: e in entries ==> (Same(e, entry) <==> e.uid == entry.uid)
    ensures Remove(entries, entry) == Without(entries, entry.uid)
  {
    if entries != [] {
      if Same(entries[0], entry) {
        NotThere(entries[1..], entry.uid);
      } else {
        RemoveIsWithout(entries[1..], entry);
      }
    }
  }

  lemma {:induction false} WithoutKeeps(entries: seq<Entry>, uid: nat)
    requires DistinctIds(entries)
    ensures DistinctIds(Without(entries, uid)) && forall e :: e in Without(entries, uid) ==> e in entries
  {
    if entries != [] {
      var kept := Without(entries[1..], uid);
      WithoutKeeps(entries[1..], uid);
      forall j | 0 <= j < |kept| ensures entries[0].uid != kept[j].uid {
        assert kept[j] in entries[1..];
      }
    }
  }

  /** Then exactly the reverts never discarded are pending, in order of registration. */
  lemma {:induction false} PendingIsNeverDiscarded(history: seq<Registration>)
    requires Distinguishable(history)
    ensures Pending(history) == NeverDiscarded(history) && DistinctIds(Pending(history))
    ensures forall e :: e in Pending(history) ==> Registered(e) in history
    decreases |history|
  {
    hide Same;
    if history != [] {
      var before, last := history[..|history| - 1], history[|history| - 1];
      assert history == before + [last];
      PendingIsNeverDiscarded(before);
      assert last in history && forall r :: r in before ==> r in history;
      match last
      case Registered(entry) =>
        forall i | 0 <= i < |Pending(before)| ensures Pending(before)[i].uid != entry.uid {
          assert Registered(Pending(before)[i]) in before;
          var k :| 0 <= k < |before| && before[k] == Registered(Pending(before)[i]);
          assert history[k] == before[k] && history[|before|] == last;
        }
      case Discarded(entry) =>
        forall e | e in Pending(before) ensures Same(e, entry) <==> e.uid == entry.uid {
          assert Registered(e) in history;
          assert Registered(e).entry.uid == last.entry.uid <==> Same(Registered(e).entry, last.entry);
        }
        RemoveIsWithout(Pending(before), entry);
        WithoutKeeps(Pending(before), entry.uid);
    }
  }
}
