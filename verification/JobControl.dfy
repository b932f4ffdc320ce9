/** Stopping a running job: checkpoints, protected steps and reverts (odoo_manager_core/jobs.py). */
module JobControl {
  datatype Step = Step(name: string, irreversible: bool)

  /** A revert: two registrations are equal for Python when name and callback are; `uid` tells them apart. */
  datatype Entry = Entry(uid: nat, name: string, callback: nat)

  predicate Same(a: Entry, b: Entry) {
    a.name == b.name && a.callback == b.callback
  }

  datatype Outcome = Accepted | Deferred | Refused | Already

  /** The control's fields; `token` counts the marks given to the job's processes. */
  datatype State = State(cancel: bool, raised: bool, steps: seq<Step>, reverts: seq<Entry>, token: nat)

  const INITIAL := State(false, false, [], [], 0)

  predicate Irreversible(steps: seq<Step>) {
    exists i :: 0 <= i < |steps| && steps[i].irreversible
  }

  function Requested(s: State): (State, Outcome) {
    if s.cancel then (s, Already)
    else if Irreversible(s.steps) then (s, Refused)
    else (s.(cancel := true), if s.steps != [] then Deferred else Accepted)
  }

  function Cleaning(s: State): State {
    if s.raised then s else s.(raised := true, token := s.token + 1)
  }

  /** The state after a checkpoint, and whether it raises. */
  function Checked(s: State): (State, bool) {
    if s.cancel && !s.raised && s.steps == [] then (Cleaning(s), true) else (s, false)
  }

  function Entered(s: State, step: Step): State {
    s.(steps := s.steps + [step])
  }

  function Left(s: State): State
    requires s.steps != []
  {
    s.(steps := s.steps[..|s.steps| - 1])
  }

  /** `list.remove`: without the first equal entry. */
  function Remove(reverts: seq<Entry>, entry: Entry): seq<Entry> {
    if reverts == [] then []
    else if Same(reverts[0], entry) then reverts[1..]
    else [reverts[0]] + Remove(reverts[1..], entry)
  }

  function Reversed(reverts: seq<Entry>): (r: seq<Entry>)
    ensures |r| == |reverts| && forall i :: 0 <= i < |r| ==> r[i] == reverts[|reverts| - 1 - i]
  {
    if reverts == [] then [] else Reversed(reverts[1..]) + [reverts[0]]
  }

  class Control {
    var cancel: bool
    var raised: bool
    var steps: seq<Step>
    var reverts: seq<Entry>
    var token: nat

    function Abs(): State
      reads this
    {
      State(cancel, raised, steps, reverts, token)
    }

    constructor ()
      ensures Abs() == INITIAL
    {
      cancel, raised, steps, reverts, token := false, false, [], [], 0;
    }

    /** An irreversible step refuses the stop, a protected one postpones it. */
    method RequestCancel() returns (outcome: Outcome)
      modifies this`cancel
      ensures Abs() == Requested(old(Abs())).0 && outcome == Requested(old(Abs())).1
    {
      if cancel {
        return Already;
      }
      var i := 0;
      while i < |steps|
        invariant i <= |steps| && forall j :: 0 <= j < i ==> !steps[j].irreversible
      {
        if steps[i].irreversible {
          return Refused;
        }
        i := i + 1;
      }
      cancel := true;
      outcome := if steps != [] then Deferred else Accepted;
    }

    /** No checkpoint raises any more: the reverts must run to their end. */
    method BeginCleanup()
      modifies this`raised, this`token
      ensures Abs() == Cleaning(old(Abs()))
    {
      if !raised {
        raised := true;
        // Cleaning commands carry another mark: the stop only aims at the interrupted step.
        token := token + 1;
      }
    }

    method Checkpoint() returns (raises: bool)
      modifies this`raised, this`token
      ensures Abs() == Checked(old(Abs())).0 && raises == Checked(old(Abs())).1
    {
      if !(cancel && !raised && steps == []) {
        return false;
      }
      BeginCleanup();
      return true;
    }

    method EnterProtected(name: string, irreversible: bool)
      modifies this`steps
      ensures Abs() == Entered(old(Abs()), Step(name, irreversible))
    {
      steps := steps + [Step(name, irreversible)];
    }

    /** The end of a protected step: a stop requested meanwhile takes effect, unless an error is under way. */
    method LeaveProtected(error: bool) returns (raises: bool)
      requires steps != []
      modifies this`steps, this`raised, this`token
      ensures Abs() == if error then Left(old(Abs())) else Checked(Left(old(Abs()))).0
      ensures raises == (!error && Checked(Left(old(Abs()))).1)
    {
      steps := steps[..|steps| - 1];
      if error {
        return false;
      }
      raises := Checkpoint();
    }

    method OnCancel(entry: Entry)
      modifies this`reverts
      ensures Abs() == old(Abs()).(reverts := old(reverts) + [entry])
    {
      reverts := reverts + [entry];
    }

    method DiscardRevert(entry: Entry)
      modifies this`reverts
      ensures Abs() == old(Abs()).(reverts := Remove(old(reverts), entry))
    {
      assert reverts[0..] == reverts;
      for i := 0 to |reverts|
        invariant reverts == old(reverts)
        invariant Remove(reverts, entry) == reverts[..i] + Remove(reverts[i..], entry)
      {
        assert reverts[i..][0] == reverts[i] && reverts[i..][1..] == reverts[i + 1..];
        if Same(reverts[i], entry) {
          reverts := reverts[..i] + reverts[i + 1..];
          return;
        }
        assert reverts[..i + 1] == reverts[..i] + [reverts[i]];
      }
      assert reverts[..|reverts|] == reverts;
    }

    /** The lock region that takes the reverts, newest first; they run once it is left. */
    method TakeReverts() returns (todo: seq<Entry>)
      modifies this`raised, this`token, this`reverts
      ensures todo == Reversed(old(reverts)) && Abs() == Cleaning(old(Abs())).(reverts := [])
    {
      BeginCleanup();
      todo := [];
      var i := 0;
      while i < |reverts|
        invariant i <= |reverts| && reverts == old(reverts) && Abs() == Cleaning(old(Abs()))
        invariant todo == Reversed(reverts[..i])
      {
        ReversedSnoc(reverts[..i], reverts[i]);
        assert reverts[..i + 1] == reverts[..i] + [reverts[i]];
        todo := [reverts[i]] + todo;
        i := i + 1;
      }
      assert reverts[..|reverts|] == reverts;
      reverts := [];
    }
  }

  lemma {:induction false} ReversedSnoc(reverts: seq<Entry>, entry: Entry)
    ensures Reversed(reverts + [entry]) == [entry] + Reversed(reverts)
  {
    if reverts == [] {
      assert [] + [entry] == [entry] && [entry][1..] == [];
    } else {
      assert (reverts + [entry])[1..] == reverts[1..] + [entry];
      ReversedSnoc(reverts[1..], entry);
    }
  }
}
