/** The retention registry of a project (odoo_manager_core/database_retention.py): when each database arrived and
    when it is due to be deleted. */
module Retention {
  import opened Text

  const DAY_SECONDS := 24 * 60 * 60
  const RETENTION_SECONDS := 30 * DAY_SECONDS
  const SYSTEM_DATABASES: set<string> := {"postgres"}

  datatype Origin = EmptyBase | Restored | Duplicated | Detected

  /** No deadline: the database is kept. */
  datatype Record = Record(oid: nat, origin: Origin, arrivedAt: int, expiresAt: Option<int>)

  type Databases = map<string, Record>

  type Live = map<string, nat>

  function Max(a: int, b: int): int {
    if a > b then a else b
  }

  function Expired(databases: Databases, now: int): set<string> {
    set name | name in databases && databases[name].expiresAt.Some? && databases[name].expiresAt.value <= now
  }

  // --- What the registry becomes ---------------------------------------------------------------------------

  /** A copy keeps the deadline of the database it comes from. */
  function ArrivalDeadline(databases: Databases, origin: Origin, source: Option<string>, now: int): Option<int> {
    if origin.Duplicated? && source.Some? && source.value in databases then databases[source.value].expiresAt
    else if origin.EmptyBase? then None
    else Some(now + RETENTION_SECONDS)
  }

  function Arrived(databases: Databases, name: string, oid: nat, origin: Origin, source: Option<string>, now: int)
    : Databases
  {
    databases[name := Record(oid, origin, now, ArrivalDeadline(databases, origin, source, now))]
  }

  predicate Known(databases: Databases, name: string, oid: nat) {
    name in databases && databases[name].oid == oid
  }

  /** A database is the one of the registry when it has both its name and its oid. */
  function Reconciled(databases: Databases, live: Live, now: int): Databases {
    map name | name in live && name !in SYSTEM_DATABASES ::
      if Known(databases, name, live[name]) then databases[name]
      else Record(live[name], Detected, now, Some(now + RETENTION_SECONDS))
  }

  /** None when there is nothing to extend: no such database, or no deadline. */
  function Extension(databases: Databases, name: string, now: int): Option<int> {
    if name in databases && databases[name].expiresAt.Some?
    then Some(Max(databases[name].expiresAt.value, now) + RETENTION_SECONDS)
    else None
  }

  function Extended(databases: Databases, name: string, now: int): Databases {
    var deadline := Extension(databases, name, now);
    if deadline.Some? then databases[name := databases[name].(expiresAt := deadline)] else databases
  }

  // --- The registry ------------------------------------------------------------------------------------------

  class RetentionStore {
    var databases: Databases
    var inventoriedAt: Option<int>

    constructor ()
      ensures databases == map[] && inventoriedAt == None
    {
      databases, inventoriedAt := map[], None;
    }

    method RecordArrival(name: string, oid: nat, origin: Origin, source: Option<string>, now: int)
      modifies this`databases
      ensures databases == Arrived(old(databases), name, oid, origin, source, now)
      ensures databases[name].expiresAt == None <==>
        origin.EmptyBase? || (origin.Duplicated? && source.Some? && source.value in old(databases)
                              && old(databases)[source.value].expiresAt == None)
    {
      var expiresAt := if origin.EmptyBase? then None else Some(now + RETENTION_SECONDS);
      if origin.Duplicated? && source.Some? {
        if source.value in databases {
          expiresAt := databases[source.value].expiresAt;
        }
      }
      databases := databases[name := Record(oid, origin, now, expiresAt)];
    }

    /** Aligns the registry on the databases present: forgets what is gone or replaced, dates what is new. */
    method Reconcile(live: Live, now: int)
      modifies this
      ensures databases == Reconciled(old(databases), live, now)
      ensures databases != old(databases) ==> inventoriedAt == Some(now)
      ensures inventoriedAt == old(inventoriedAt) ||
        (inventoriedAt == Some(now) && (databases != old(databases) || old(inventoriedAt) == None
                                        || now - old(inventoriedAt).value >= 86400))
      ensures inventoriedAt.Some? && (inventoriedAt.value > now - 86400)
    {
      var listed: Live := map name | name in live && name !in SYSTEM_DATABASES :: live[name];
      var changed := false;
      var names := databases.Keys;
      while names != {}
        invariant names <= databases.Keys <= old(databases).Keys
        invariant forall name :: name in old(databases) ==>
          (name in databases <==> name in names || (name in listed && listed[name] == old(databases)[name].oid))
        invariant forall name :: name in databases ==> databases[name] == old(databases)[name]
        invariant changed <==> databases != old(databases)
        invariant inventoriedAt == old(inventoriedAt)
        decreases names
      {
        var name :| name in names;
        names := names - {name};
        if !(name in listed && listed[name] == databases[name].oid) {
          databases := databases - {name};
          changed := true;
        }
      }
      ghost var kept := databases;
      var arrivals := listed.Keys;
      while arrivals != {}
        invariant arrivals <= listed.Keys
        invariant databases.Keys == kept.Keys + (listed.Keys - arrivals)
        invariant forall name :: name in kept ==> databases[name] == kept[name]
        invariant forall name :: name in databases && name !in kept ==>
          databases[name] == Record(listed[name], Detected, now, Some(now + RETENTION_SECONDS))
        invariant changed <==> kept != old(databases) || databases != kept
        invariant inventoriedAt == old(inventoriedAt)
        decreases arrivals
      {
        var name :| name in arrivals;
        arrivals := arrivals - {name};
        if name !in databases {
          databases := databases[name := Record(listed[name], Detected, now, Some(now + RETENTION_SECONDS))];
          changed := true;
        }
      }
      assert databases.Keys == listed.Keys;
      assert databases == Reconciled(old(databases), live, now);
      if changed || inventoriedAt.None? || now - inventoriedAt.value >= DAY_SECONDS {
        inventoriedAt := Some(now);
      }
    }

    /** Pushes the deadline back thirty days; refused when there is no record, or no deadline. */
    method Extend(name: string, now: int) returns (deadline: Option<int>)
      modifies this`databases
      ensures deadline == Extension(old(databases), name, now)
      ensures databases == Extended(old(databases), name, now)
      ensures deadline.Some? ==> name in databases && databases[name].expiresAt == deadline
    {
      if name !in databases || databases[name].expiresAt.None? {
        return None;
      }
      deadline := Some(Max(databases[name].expiresAt.value, now) + RETENTION_SECONDS);
      databases := databases[name := databases[name].(expiresAt := deadline)];
    }

    method Forget(name: string)
      modifies this`databases
      ensures databases == old(databases) - {name}
    {
      databases := databases - {name};
    }
  }

  /** Reconciling twice with the same databases changes nothing the second time, however late it is. */
  lemma {:induction false} ReconcileIsStable(databases: Databases, live: Live, now: int, later: int)
    ensures Reconciled(Reconciled(databases, live, now), live, later) == Reconciled(databases, live, now)
    ensures forall name :: name in live && name !in SYSTEM_DATABASES ==>
      Known(Reconciled(databases, live, now), name, live[name])
  {
    var once := Reconciled(databases, live, now);
    var twice := Reconciled(once, live, later);
    assert forall name :: name in once ==> Known(once, name, live[name]);
    assert twice.Keys == once.Keys;
    assert forall name :: name in once ==> twice[name] == once[name];
  }

  // --- When a database is due, in seconds --------------------------------------------------------------------

  /** The deadline of a recorded database is reached. */
  predicate DueAt(databases: Databases, name: string, now: int) {
    && name in databases && databases[name].expiresAt.Some?
    && databases[name].expiresAt.value <= now
  }

  /** A database that arrives is due thirty days later, and not before; an empty base never is, and a copy is when
      the database it comes from was. No other deadline moves. */
  lemma {:induction false} DueAfterArrival(
    databases: Databases, name: string, oid: nat, origin: Origin, source: Option<string>, now: int, later: int)
    ensures var after := Expired(Arrived(databases, name, oid, origin, source, now), later);
      && (name in after <==>
           if origin == Duplicated && source.Some? && source.value in databases
           then DueAt(databases, source.value, later)
           else origin != EmptyBase && later >= now + 2592000)
      && (forall other :: other != name ==> (other in after <==> DueAt(databases, other, later)))
  {
  }

  /** After a reading of the databases present, one already recorded under this oid is due as before, any other
      thirty days after the reading; nothing absent is due, and PostgreSQL's own database never is. */
  lemma {:induction false} DueAfterReading(databases: Databases, live: Live, now: int, later: int, name: string)
    ensures name in Expired(Reconciled(databases, live, now), later) <==>
      && name in live && name != "postgres"
      && if name in databases && databases[name].oid == live[name] then DueAt(databases, name, later)
         else later >= now + 2592000
  {
  }

  /** An extension is accepted exactly for a database with a deadline, which is then due thirty days after that
      deadline and after the present, whichever is later. No other deadline moves. */
  lemma {:induction false} DueAfterExtension(databases: Databases, name: string, now: int, later: int)
    ensures Extension(databases, name, now).Some? <==> name in databases && databases[name].expiresAt.Some?
    ensures Extension(databases, name, now).Some? ==>
      (later >= Extension(databases, name, now).value <==>
         later >= databases[name].expiresAt.value + 2592000 && later >= now + 2592000)
    ensures var after := Expired(Extended(databases, name, now), later);
      && (name in after <==> DueAt(databases, name, later - 2592000) && later >= now + 2592000)
      && (forall other :: other != name ==> (other in after <==> DueAt(databases, other, later)))
  {
  }
}
