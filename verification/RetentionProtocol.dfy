/** The deletion of databases past their deadline, against extensions and hourly readings (odoo_manager_web.py:
    database_retention_job, drop_expired_database, schedule_database_retention, extend_database_retention_view). */
module RetentionProtocol {
  import opened Text
  import opened Retention

  /** Where the deletion job is. From the moment a database is looked at again to the end of its deletion, the
      job holds the lock that an extension needs. */
  datatype Phase =
    | Idle
    | Listed(due: seq<string>, seen: Live)
    | Checked(name: string, oid: nat, due: seq<string>, seen: Live)
    | Dropping(name: string, oid: nat, due: seq<string>, seen: Live)
    | Dropped(name: string, due: seq<string>, seen: Live)

  /** `nextOid` is the oid PostgreSQL gives next; it never gives the same one twice.
      `told` keeps what was answered to the user: the new deadline of each extension accepted, by database. */
  datatype State = State(
    live: Live,
    nextOid: nat,
    databases: Databases,
    uncertain: set<string>,
    now: int,
    phase: Phase,
    told: map<(string, nat), int>)

  datatype Event =
    | Tick(later: int)
    | DatabaseCreated(name: string)
    | Remembered(name: string, origin: Origin, source: Option<string>)
    | HourlyReconcile
    | Extend(name: string)
    | JobLists(order: seq<string>)
    | JobChecks
    | JobVerifies
    | JobDrops
    | JobDropFails(dropped: bool)
    | JobForgets
    | JobStops

  predicate Locked(phase: Phase) {
    phase.Checked? || phase.Dropping? || phase.Dropped?
  }

  ghost predicate Enabled(s: State, e: Event) {
    match e
    case Tick(later) => later >= s.now
    case DatabaseCreated(name) => name !in s.live
    case Remembered(name, _, _) => s.phase.Idle? && name in s.live && name !in SYSTEM_DATABASES
    case HourlyReconcile => true
    case Extend(name) => !Locked(s.phase)
    case JobLists(order) => s.phase.Idle? &&
      (forall name :: name in order <==> name in Expired(Reconciled(s.databases, s.live, s.now), s.now))
    case JobChecks => s.phase.Listed? && s.phase.due != []
    case JobVerifies => s.phase.Checked?
    case JobDrops => s.phase.Dropping?
    case JobDropFails(_) => s.phase.Dropping?
    case JobForgets => s.phase.Dropped?
    case JobStops => s.phase.Listed? || s.phase.Checked?
  }

  /** The oids of the registry, as the job copied them when it listed the databases. */
  function Seen(databases: Databases): Live {
    map name | name in databases :: databases[name].oid
  }

  predicate Accepts(s: State, name: string) {
    name !in s.uncertain && Extension(s.databases, name, s.now).Some?
  }

  ghost function Next(s: State, e: Event): State
    requires Enabled(s, e)
  {
    match e
    case Tick(later) => s.(now := later)
    case DatabaseCreated(name) => s.(live := s.live[name := s.nextOid], nextOid := s.nextOid + 1)
    case Remembered(name, origin, source) =>
      s.(databases := Arrived(s.databases, name, s.live[name], origin, source, s.now))
    case HourlyReconcile => s.(databases := Reconciled(s.databases, s.live, s.now))
    case Extend(name) =>
      if Accepts(s, name) then
        s.(databases := Extended(s.databases, name, s.now),
           told := s.told[(name, s.databases[name].oid) := Extension(s.databases, name, s.now).value])
      else s
    case JobLists(order) =>
      var databases := Reconciled(s.databases, s.live, s.now);
      s.(databases := databases, phase := Listed(order, Seen(databases)))
    case JobChecks =>
      var name, rest := s.phase.due[0], s.phase.due[1..];
      if name in Expired(s.databases, s.now) && name in s.phase.seen && s.databases[name].oid == s.phase.seen[name]
      then s.(phase := Checked(name, s.databases[name].oid, rest, s.phase.seen))
      else s.(phase := Listed(rest, s.phase.seen))
    case JobVerifies =>
      if s.phase.name in s.live && s.live[s.phase.name] == s.phase.oid
      then s.(uncertain := s.uncertain + {s.phase.name},
              phase := Dropping(s.phase.name, s.phase.oid, s.phase.due, s.phase.seen))
      else s.(phase := Listed(s.phase.due, s.phase.seen))
    case JobDrops =>
      s.(live := s.live - {s.phase.name}, phase := Dropped(s.phase.name, s.phase.due, s.phase.seen))
    case JobDropFails(dropped) =>
      s.(live := if dropped then s.live - {s.phase.name} else s.live, phase := Idle)
    case JobForgets =>
      s.(databases := s.databases - {s.phase.name}, uncertain := s.uncertain - {s.phase.name},
         phase := Listed(s.phase.due, s.phase.seen))
    case JobStops => s.(phase := Idle)
  }

  ghost predicate Possible(s: State, events: seq<Event>)
    decreases |events|
  {
    events != [] ==> Enabled(s, events[0]) && Possible(Next(s, events[0]), events[1..])
  }

  ghost function After(s: State, events: seq<Event>): State
    requires Possible(s, events)
    decreases |events|
  {
    if events == [] then s else After(Next(s, events[0]), events[1..])
  }

  // --- What every step keeps -------------------------------------------------------------------------------

  /** Noting the arrival of an extended database leaves it no deadline, one not before the answer, or an answer
      already past. */
  predicate KeepsAnswer(s: State, e: Event) {
    e.Remembered? && e.name in s.live && (e.name, s.live[e.name]) in s.told ==>
      var deadline := ArrivalDeadline(s.databases, e.origin, e.source, s.now);
      deadline.None? || Max(deadline.value, s.now) >= s.told[(e.name, s.live[e.name])]
  }

  ghost predicate AllKeepAnswers(s: State, events: seq<Event>)
    requires Possible(s, events)
    decreases |events|
  {
    events != [] ==> KeepsAnswer(s, events[0]) && AllKeepAnswers(Next(s, events[0]), events[1..])
  }

  /** A database extended is recorded, as long as it is there, with no deadline or one that cannot be used before
      the deadline answered. */
  ghost predicate Promises(live: Live, databases: Databases, told: map<(string, nat), int>, now: int) {
    && (forall name, oid :: (name, oid) in told && name in live && live[name] == oid ==> Known(databases, name, oid))
    && (forall name, oid :: (name, oid) in told && Known(databases, name, oid) ==>
         databases[name].expiresAt.None? || Max(databases[name].expiresAt.value, now) >= told[(name, oid)])
  }

  /** The database the job is about to delete is still the one recorded, and still past its deadline. */
  ghost predicate JobIsRight(s: State) {
    match s.phase
    case Idle => true
    case Listed(_, seen) => seen.Keys !! SYSTEM_DATABASES
    case Checked(name, oid, _, seen) =>
      && seen.Keys !! SYSTEM_DATABASES && name !in SYSTEM_DATABASES && oid < s.nextOid
      && name in seen && seen[name] == oid
      && (name in s.live && s.live[name] == oid ==>
            Known(s.databases, name, oid) && name in Expired(s.databases, s.now))
    case Dropping(name, oid, _, seen) =>
      && seen.Keys !! SYSTEM_DATABASES && name !in SYSTEM_DATABASES && name in s.uncertain
      && name in seen && seen[name] == oid
      && name in s.live && s.live[name] == oid
      && Known(s.databases, name, oid) && name in Expired(s.databases, s.now)
    case Dropped(name, _, seen) =>
      && seen.Keys !! SYSTEM_DATABASES && name in s.uncertain
      && (name in s.live ==> (name, s.live[name]) !in s.told)
  }

  ghost predicate Bounded(s: State) {
    && (forall name :: name in s.live ==> s.live[name] < s.nextOid)
    && (forall name :: name in s.databases ==> s.databases[name].oid < s.nextOid)
    && (forall name, oid :: (name, oid) in s.told ==> oid < s.nextOid && name !in SYSTEM_DATABASES)
    && SYSTEM_DATABASES !! s.databases.Keys
  }

  /** What every step keeps, arrivals of any kind included. */
  ghost predicate Right(s: State) {
    Bounded(s) && JobIsRight(s)
  }

  lemma {:induction false} JobStepIsRight(s: State, e: Event)
    requires Right(s) && Enabled(s, e)
    requires e.JobLists? || e.JobChecks? || e.JobVerifies? || e.JobDrops? || e.JobDropFails? || e.JobForgets?
             || e.JobStops?
    ensures Right(Next(s, e))
  {
    hide Extension;
  }

  lemma {:induction false} WorldStepIsRight(s: State, e: Event)
    requires Right(s) && Enabled(s, e)
    requires e.Tick? || e.DatabaseCreated? || e.Remembered? || e.HourlyReconcile? || e.Extend?
    ensures Right(Next(s, e))
  {
    hide ArrivalDeadline;
  }

  lemma {:induction false} StaysRight(s: State, events: seq<Event>)
    requires Right(s) && Possible(s, events)
    ensures Right(After(s, events))
    decreases |events|
  {
    hide Right, Next, Enabled;
    if events != [] {
      StepIsRight(s, events[0]);
      StaysRight(Next(s, events[0]), events[1..]);
    }
  }

  lemma {:induction false} StepIsRight(s: State, e: Event)
    requires Right(s) && Enabled(s, e)
    ensures Right(Next(s, e))
  {
    hide Right, Next, Enabled;
    match e
    case Tick(_) => WorldStepIsRight(s, e);
    case DatabaseCreated(_) => WorldStepIsRight(s, e);
    case Remembered(_, _, _) => WorldStepIsRight(s, e);
    case HourlyReconcile => WorldStepIsRight(s, e);
    case Extend(_) => WorldStepIsRight(s, e);
    case _ => JobStepIsRight(s, e);
  }

  ghost predicate Inv(s: State) {
    Right(s) && Promises(s.live, s.databases, s.told, s.now)
  }

  /** A reading forgets no promise: a database still there with its oid keeps its record. */
  lemma {:induction false} ReadingKeeps(s: State)
    requires Inv(s)
    ensures Promises(s.live, Reconciled(s.databases, s.live, s.now), s.told, s.now)
  {
  }

  lemma {:induction false} ExtensionKeeps(s: State, name: string)
    requires Inv(s) && !Locked(s.phase) && Accepts(s, name)
    ensures Inv(Next(s, Extend(name)))
  {
    WorldStepIsRight(s, Extend(name));
  }

  lemma {:induction false} WorldKeeps(s: State, e: Event)
    requires Inv(s) && Enabled(s, e) && KeepsAnswer(s, e) && (e.Tick? || e.DatabaseCreated? || e.Remembered?)
    ensures Promises(Next(s, e).live, Next(s, e).databases, s.told, Next(s, e).now)
  {
    hide Reconciled, Extension, ArrivalDeadline, JobIsRight;
  }

  lemma {:induction false} DeletionKeeps(s: State, e: Event)
    requires Inv(s) && Enabled(s, e)
    requires e.JobChecks? || e.JobVerifies? || e.JobDrops? || e.JobDropFails? || e.JobForgets? || e.JobStops?
    ensures Promises(Next(s, e).live, Next(s, e).databases, Next(s, e).told, Next(s, e).now)
  {
    hide Reconciled, Extension;
  }

  /** Every step keeps the answers, but for an arrival that sets an earlier deadline. */
  lemma {:induction false} StepKeeps(s: State, e: Event)
    requires Inv(s) && Enabled(s, e) && KeepsAnswer(s, e)
    ensures Inv(Next(s, e))
  {
    StepIsRight(s, e);
    hide Right, Reconciled, Promises;
    if e.HourlyReconcile? || e.JobLists? {
      ReadingKeeps(s);
    } else if e.Extend? {
      hide Extension;
      if Accepts(s, e.name) {
        ExtensionKeeps(s, e.name);
      }
    } else if e.Tick? || e.DatabaseCreated? || e.Remembered? {
      WorldKeeps(s, e);
    } else {
      DeletionKeeps(s, e);
    }
  }

  lemma {:induction false} AlwaysKept(s: State, events: seq<Event>)
    requires Inv(s) && Possible(s, events) && AllKeepAnswers(s, events)
    ensures Inv(After(s, events))
    decreases |events|
  {
    hide Inv, Next, KeepsAnswer, Enabled;
    if events != [] {
      StepKeeps(s, events[0]);
      AlwaysKept(Next(s, events[0]), events[1..]);
    }
  }

  // --- Safety over whole runs ------------------------------------------------------------------------------

  predicate Drops(e: Event) {
    e.JobDrops? || (e.JobDropFails? && e.dropped)
  }

  /** Before anything: no extension answered yet, no deletion under way. */
  ghost predicate Start(s: State) {
    Bounded(s) && s.phase.Idle? && s.told == map[]
  }

  lemma {:induction false} StartIsGood(s: State)
    requires Start(s)
    ensures Inv(s)
  {
  }

  /** Not before any deadline answered for the database about to be deleted. */
  ghost predicate OnTime(s: State) {
    s.phase.Dropping? && (s.phase.name, s.phase.oid) in s.told ==> s.told[(s.phase.name, s.phase.oid)] <= s.now
  }

  /** Over every run, whatever arrivals are noted: the job only deletes a database that is still the recorded one,
      by name and oid, as it was when the job listed the databases, and past its current deadline; never
      PostgreSQL's own. */
  lemma {:induction false} DropsOnlyWhatIsDue(s: State, events: seq<Event>, e: Event)
    requires Start(s) && Possible(s, events)
    requires Enabled(After(s, events), e) && Drops(e)
    ensures var t := After(s, events);
      && t.phase.Dropping?
      && t.phase.name in t.live && t.live[t.phase.name] == t.phase.oid
      && Known(t.databases, t.phase.name, t.phase.oid)
      && t.databases[t.phase.name].expiresAt.Some? && t.databases[t.phase.name].expiresAt.value <= t.now
      && t.phase.name in t.phase.seen && t.phase.seen[t.phase.name] == t.phase.oid && t.phase.name != "postgres"
      && Next(t, e).live == t.live - {t.phase.name}
  {
    StartIsGood(s);
    StaysRight(s, events);
  }

  /** A deletion that succeeds leaves neither the database nor its record, and touches no other. */
  lemma {:induction false} DeletionIsComplete(s: State)
    requires s.phase.Dropping?
    ensures Enabled(s, JobDrops) && Enabled(Next(s, JobDrops), JobForgets)
    ensures var t := Next(Next(s, JobDrops), JobForgets);
      && (forall name :: name in t.live <==> name in s.live && name != s.phase.name)
      && (forall name :: name in t.live ==> t.live[name] == s.live[name])
      && (forall name :: name in t.databases <==> name in s.databases && name != s.phase.name)
      && (forall name :: name in t.databases ==> t.databases[name] == s.databases[name])
      && t.phase == Listed(s.phase.due, s.phase.seen) && t.told == s.told
  {
    hide Reconciled, Extension;
  }

  lemma {:induction false} GoodIsOnTime(s: State)
    requires Inv(s)
    ensures OnTime(s)
  {
  }

  /** A later answer about the same database never gives an earlier deadline. */
  lemma {:induction false} AnswersOnlyGrow(s: State, events: seq<Event>, name: string, oid: nat)
    requires Inv(s) && Possible(s, events) && AllKeepAnswers(s, events) && (name, oid) in s.told
    ensures (name, oid) in After(s, events).told && After(s, events).told[(name, oid)] >= s.told[(name, oid)]
    decreases |events|
  {
    hide Inv, KeepsAnswer, Enabled, Next;
    if events != [] {
      StepKeeps(s, events[0]);
      AnswerGrows(s, events[0], name, oid);
      AnswersOnlyGrow(Next(s, events[0]), events[1..], name, oid);
    }
  }

  lemma {:induction false} AnswerGrows(s: State, e: Event, name: string, oid: nat)
    requires Inv(s) && Enabled(s, e) && (name, oid) in s.told
    ensures (name, oid) in Next(s, e).told && Next(s, e).told[(name, oid)] >= s.told[(name, oid)]
  {
    hide Reconciled;
  }

  /** An extension accepted at any moment is never followed by a deletion of that database before the deadline
      answered. */
  lemma {:induction false} ExtensionIsHonoured(s: State, before: seq<Event>, name: string, after: seq<Event>, e: Event)
    requires Start(s) && Possible(s, before) && AllKeepAnswers(s, before)
    requires Enabled(After(s, before), Extend(name)) && Accepts(After(s, before), name)
    requires var t := Next(After(s, before), Extend(name));
      Possible(t, after) && AllKeepAnswers(t, after) && Enabled(After(t, after), e) && Drops(e)
    ensures var t := After(s, before);
      var u := After(Next(t, Extend(name)), after);
      u.phase.name == name && u.phase.oid == t.databases[name].oid ==>
        u.now >= Extension(t.databases, name, t.now).value
  {
    StartIsGood(s);
    AlwaysKept(s, before);
    var t := After(s, before);
    var extended := Next(t, Extend(name));
    var oid := t.databases[name].oid;
    ExtensionKeeps(t, name);
    AlwaysKept(extended, after);
    GoodIsOnTime(After(extended, after));
    AnswersOnlyGrow(extended, after, name, oid);
  }

  // --- After a deletion that failed ----------------------------------------------------------------------------

  /** No deletion of this name succeeds during the run. */
  ghost predicate NeverForgotten(s: State, events: seq<Event>, name: string)
    requires Possible(s, events)
    decreases |events|
  {
    events != [] ==>
      !(events[0].JobForgets? && s.phase.name == name) && NeverForgotten(Next(s, events[0]), events[1..], name)
  }

  lemma {:induction false} StaysUncertain(s: State, events: seq<Event>, name: string)
    requires name in s.uncertain && Possible(s, events) && NeverForgotten(s, events, name)
    ensures name in After(s, events).uncertain
    decreases |events|
  {
    hide Reconciled, Extension;
    if events != [] {
      StaysUncertain(Next(s, events[0]), events[1..], name);
    }
  }

  /** From the deletion that fails on, no extension of that name is accepted until a deletion of it succeeds. */
  lemma {:induction false} FailedDropBlocks(s: State, dropped: bool, events: seq<Event>)
    requires Right(s) && s.phase.Dropping? && Possible(Next(s, JobDropFails(dropped)), events)
    requires NeverForgotten(Next(s, JobDropFails(dropped)), events, s.phase.name)
    ensures !Accepts(After(Next(s, JobDropFails(dropped)), events), s.phase.name)
  {
    StaysUncertain(Next(s, JobDropFails(dropped)), events, s.phase.name);
  }

  lemma {:induction false} Prefix(s: State, events: seq<Event>, k: nat)
    requires Possible(s, events) && k <= |events|
    ensures Possible(s, events[..k])
    decreases k
  {
    hide Enabled, Next;
    if k > 0 {
      assert events[..k][0] == events[0] && events[..k][1..] == events[1..][..k - 1];
      Prefix(Next(s, events[0]), events[1..], k - 1);
    }
  }

  ghost predicate Released(s: State, events: seq<Event>, name: string, k: nat)
    requires Possible(s, events) && k <= |events|
  {
    Prefix(s, events, k);
    name !in After(s, events[..k]).uncertain
  }

  lemma {:induction false} ReleasedLater(s: State, events: seq<Event>, name: string, k: nat)
    requires events != [] && Possible(s, events) && k < |events|
    ensures Released(s, events, name, k + 1) <==> Released(Next(s, events[0]), events[1..], name, k)
  {
    hide Enabled, Next;
    Prefix(s, events, k + 1);
    assert events[..k + 1][0] == events[0] && events[..k + 1][1..] == events[1..][..k];
  }

  /** A name refused becomes acceptable at some moment of a run if and only if a deletion of it succeeds then. */
  lemma {:induction false} RefusedUntilForgotten(s: State, events: seq<Event>, name: string)
    requires name in s.uncertain && Possible(s, events)
    ensures (exists k :: 0 <= k <= |events| && Released(s, events, name, k)) <==> !NeverForgotten(s, events, name)
    decreases |events|
  {
    if events == [] {
      assert forall k :: 0 <= k <= 0 ==> events[..k] == [];
    } else {
      var t := Next(s, events[0]);
      forall k | 0 <= k < |events|
        ensures Released(s, events, name, k + 1) <==> Released(t, events[1..], name, k)
      {
        ReleasedLater(s, events, name, k);
      }
      assert !Released(s, events, name, 0) by {
        assert events[..0] == [];
      }
      if events[0].JobForgets? && s.phase.name == name {
        assert events[1..][..0] == [];
        assert Released(t, events[1..], name, 0);
        assert Released(s, events, name, 1);
      } else {
        RefusedUntilForgotten(t, events[1..], name);
        if k :| 0 <= k <= |events| && Released(s, events, name, k) {
          assert Released(t, events[1..], name, k - 1);
        }
        if k :| 0 <= k <= |events[1..]| && Released(t, events[1..], name, k) {
          assert Released(s, events, name, k + 1);
        }
      }
    }
  }

  /** The refusal goes by name: it also holds for a new database of that name, unknown to the deletion. */
  lemma {:induction false} RefusalOutlivesTheDatabase(s: State)
    requires Inv(s) && s.phase.Dropping?
    ensures var name := s.phase.name;
      var again := [JobDropFails(true), DatabaseCreated(name), HourlyReconcile];
      && Possible(s, again)
      && var t := After(s, again);
         && Known(t.databases, name, s.nextOid) && t.databases[name].expiresAt == Some(t.now + RETENTION_SECONDS)
         && Extension(t.databases, name, t.now).Some? && !Accepts(t, name)
  {
    var name := s.phase.name;
    var again := [JobDropFails(true), DatabaseCreated(name), HourlyReconcile];
    var s1 := Next(s, again[0]);
    var s2 := Next(s1, again[1]);
    var s3 := Next(s2, again[2]);
    assert again[1..] == [again[1], again[2]] && again[1..][1..] == [again[2]];
    assert again[1..][1..][1..] == [];
    assert After(s3, []) == s3;
    assert Possible(s3, []);
    assert After(s2, [again[2]]) == s3;
  }

  // --- The order of an arrival and an extension -----------------------------------------------------------------

  /** The step from one state of a run to the next one. */
  ghost predicate Step(s: State, e: Event, t: State) {
    Enabled(s, e) && Next(s, e) == t
  }

  lemma {:induction false} NothingMore(s: State)
    ensures Possible(s, []) && After(s, []) == s && AllKeepAnswers(s, [])
  {
  }

  lemma {:induction false} OneMore(s: State, run: seq<Event>, k: nat, t: State)
    requires k < |run| && Step(s, run[k], t) && Possible(t, run[k + 1..])
    ensures Possible(s, run[k..]) && After(s, run[k..]) == After(t, run[k + 1..])
    ensures AllKeepAnswers(s, run[k..]) <==> KeepsAnswer(s, run[k]) && AllKeepAnswers(t, run[k + 1..])
  {
    assert run[k..][0] == run[k] && run[k..][1..] == run[k + 1..];
  }

  lemma {:induction false} Enumerated(names: set<string>, first: string) returns (order: seq<string>)
    requires first in names
    ensures order != [] && order[0] == first && forall n :: n in order <==> n in names
  {
    order := [first];
    var rest := names - {first};
    while rest != {}
      invariant order != [] && order[0] == first
      invariant forall n :: n in names <==> n in order || n in rest
      decreases rest
    {
      var n :| n in rest;
      order := order + [n];
      rest := rest - {n};
    }
  }

  /** A recorded database is listed for deletion once its deadline has come. */
  lemma {:induction false} ListedWhenDue(s: State, name: string, due: int)
    returns (late: State, order: seq<string>, listed: State)
    requires s.phase.Idle? && name in s.live && name !in SYSTEM_DATABASES && Known(s.databases, name, s.live[name])
    requires s.databases[name].expiresAt.Some? && due == Max(s.databases[name].expiresAt.value, s.now)
    ensures late == s.(now := due) && Step(s, Tick(due), late) && Step(late, JobLists(order), listed)
    ensures listed.phase.Listed? && listed.phase.due != [] && listed.phase.due[0] == name
    ensures name in listed.phase.seen && listed.phase.seen[name] == s.live[name]
    ensures Known(listed.databases, name, s.live[name]) && name in Expired(listed.databases, due)
    ensures listed == late.(phase := listed.phase, databases := listed.databases)
  {
    late := Next(s, Tick(due));
    order := Enumerated(Expired(Reconciled(late.databases, late.live, due), due), name);
    listed := Next(late, JobLists(order));
  }

  lemma {:induction false} CheckedAndVerified(listed: State, name: string)
    returns (checked: State, dropping: State)
    requires listed.phase.Listed? && listed.phase.due != [] && listed.phase.due[0] == name && name in listed.live
    requires name in listed.phase.seen && listed.phase.seen[name] == listed.live[name]
    requires Known(listed.databases, name, listed.live[name]) && name in Expired(listed.databases, listed.now)
    ensures Step(listed, JobChecks, checked) && Step(checked, JobVerifies, dropping) && Enabled(dropping, JobDrops)
    ensures dropping.phase.name == name && dropping.phase.oid == listed.live[name]
    ensures dropping.now == listed.now && dropping.told == listed.told
  {
    checked := Next(listed, JobChecks);
    dropping := Next(checked, JobVerifies);
  }

  /** Where a recorded deadline comes before the deadline answered, the job deletes too early. */
  lemma {:induction false} DroppedTooEarly(s: State, name: string) returns (run: seq<Event>)
    requires s.phase.Idle? && name in s.live && name !in SYSTEM_DATABASES && Known(s.databases, name, s.live[name])
    requires s.databases[name].expiresAt.Some? && (name, s.live[name]) in s.told
    requires Max(s.databases[name].expiresAt.value, s.now) < s.told[(name, s.live[name])]
    ensures |run| == 4 && run[0].Tick? && run[1].JobLists? && run[2] == JobChecks && run[3] == JobVerifies
    ensures Possible(s, run) && AllKeepAnswers(s, run) && !OnTime(After(s, run)) && Enabled(After(s, run), JobDrops)
  {
    hide Possible, After, AllKeepAnswers, Step, Enabled, Next, Expired;
    var due := Max(s.databases[name].expiresAt.value, s.now);
    var late, order, listed := ListedWhenDue(s, name, due);
    var checked, dropping := CheckedAndVerified(listed, name);
    run := [Tick(due), JobLists(order), JobChecks, JobVerifies];
    NothingMore(dropping);
    assert run[4..] == [] && run[0..] == run;
    OneMore(checked, run, 3, dropping);
    OneMore(listed, run, 2, checked);
    OneMore(late, run, 1, listed);
    OneMore(s, run, 0, late);
  }

  /** Noting an arrival that sets an earlier deadline than the one answered: Remembered, then the four steps, and
      the database is deleted before the deadline answered. */
  lemma {:induction false} LateArrivalBreaksTheAnswer(s: State, e: Event) returns (run: seq<Event>)
    requires Inv(s) && Enabled(s, e) && !KeepsAnswer(s, e)
    ensures var t := Next(s, e);
      && Possible(t, run) && AllKeepAnswers(t, run) && !OnTime(After(t, run)) && Enabled(After(t, run), JobDrops)
      && |run| == 4 && run[0].Tick? && run[1].JobLists? && run[2] == JobChecks && run[3] == JobVerifies
  {
    run := DroppedTooEarly(Next(s, e), e.name);
  }

  /** In every good state, noting an arrival is harmless to every later run if and only if it keeps the answer. */
  lemma {:induction false} ArrivalIsHarmlessIff(s: State, e: Event)
    requires Inv(s) && Enabled(s, e) && e.Remembered?
    ensures KeepsAnswer(s, e) <==>
      forall run :: Possible(Next(s, e), run) && AllKeepAnswers(Next(s, e), run) ==> OnTime(After(Next(s, e), run))
  {
    hide Inv, Enabled, Next, KeepsAnswer, OnTime;
    var t := Next(s, e);
    if KeepsAnswer(s, e) {
      StepKeeps(s, e);
      forall run | Possible(t, run) && AllKeepAnswers(t, run) ensures OnTime(After(t, run)) {
        AlwaysKept(t, run);
        GoodIsOnTime(After(t, run));
      }
    } else {
      var run := LateArrivalBreaksTheAnswer(s, e);
    }
  }

  ghost predicate Fresh(s: State, name: string) {
    && Start(s) && s.live == map[] && s.databases == map[] && s.uncertain == {} && name !in SYSTEM_DATABASES
  }

  /** Such an arrival does happen: a reading discovers the restored database before its arrival is noted, and an
      extension is accepted in between. */
  lemma {:induction false} LateArrivalHappens(s: State, name: string) returns (found: State, extended: State)
    requires Fresh(s, name)
    ensures Step(Next(s, DatabaseCreated(name)), HourlyReconcile, found)
    ensures Accepts(found, name) && Step(found, Extend(name), extended) && Inv(extended)
    ensures var noted := Remembered(name, Restored, None); Enabled(extended, noted) && !KeepsAnswer(extended, noted)
  {
    StartIsGood(s);
    var created := Next(s, DatabaseCreated(name));
    assert created.live == map[name := s.nextOid];
    StepKeeps(s, DatabaseCreated(name));
    found := Next(created, HourlyReconcile);
    StepKeeps(created, HourlyReconcile);
    var record := Record(s.nextOid, Detected, s.now, Some(s.now + RETENTION_SECONDS));
    assert found.databases == map[name := record];
    extended := Next(found, Extend(name));
    StepKeeps(found, Extend(name));
  }
}
