/** The output of a job, kept short by the manager (odoo_manager_core/job_queue.py: _append_output,
    job_output_payload) and followed piece by piece by the interface (odoo-manager-next/lib/job-output.ts). */
module JobOutput {
  import opened Text

  const JOB_OUTPUT_LIMIT: nat := 120_000

  /** Python's `s[-n:]` for n > 0. */
  function Last(s: string, n: nat): string {
    if |s| <= n then s else s[|s| - n..]
  }

  /** The pieces of output sent: what follows `start`, or the whole window when `start` is 0. */
  datatype Payload = Payload(output: string, start: nat, total: nat)

  /** What the interface has recomposed, and the length of the output it goes up to. */
  datatype Shown = Shown(output: string, total: nat)

  // --- The manager -------------------------------------------------------------------------------------------

  function Appended(output: string, text: string): string {
    if |output + text| > 2 * JOB_OUTPUT_LIMIT then Last(output + text, JOB_OUTPUT_LIMIT) else output + text
  }

  function Sent(output: string, total: nat, from: Option<nat>): Payload
    requires |output| <= total
  {
    var window := Last(output, JOB_OUTPUT_LIMIT);
    if from.Some? && from.value != 0 && total - |window| <= from.value <= total
    then Payload(window[|window| - (total - from.value)..], from.value, total)
    else Payload(window, 0, total)
  }

  /** Nothing written is changed: the output kept is the end of everything written, at least as long as what is
      sent. */
  ghost predicate KeepsTheEnd(output: string, total: nat, log: string) {
    && total == |log|
    && |output| <= |log| && output == log[|log| - |output|..]
    && (|output| < |log| ==> |output| >= JOB_OUTPUT_LIMIT)
  }

  class Output {
    var output: string
    var outputTotal: nat

    constructor (saved: string)
      ensures output == saved && KeepsTheEnd(output, outputTotal, saved)
    {
      output, outputTotal := saved, |saved|;
    }

    method AppendOutput(text: string, ghost log: string)
      requires KeepsTheEnd(output, outputTotal, log)
      modifies this
      ensures output == Appended(old(output), text) && outputTotal == |log + text|
      ensures KeepsTheEnd(output, outputTotal, log + text)
      ensures if |old(output) + text| <= 240_000 then output == old(output) + text else |output| == 120_000
    {
      AppendKeepsTheEnd(output, outputTotal, log, text);
      output := output + text;
      outputTotal := outputTotal + |text|;
      if |output| > JOB_OUTPUT_LIMIT * 2 {
        output := Last(output, JOB_OUTPUT_LIMIT);
      }
    }

    method OutputPayload(from: Option<nat>, ghost log: string) returns (p: Payload)
      requires KeepsTheEnd(output, outputTotal, log)
      ensures p == Sent(output, outputTotal, from) && True(p, log)
    {
      SentIsTrue(output, outputTotal, log, from);
      var window := Last(output, JOB_OUTPUT_LIMIT);
      var windowStart := outputTotal - |window|;
      if from.Some? && from.value != 0 {
        if windowStart <= from.value <= outputTotal {
          return Payload(window[|window| - (outputTotal - from.value)..], from.value, outputTotal);
        }
      }
      p := Payload(window, 0, outputTotal);
    }
  }

  lemma {:induction false} AppendKeepsTheEnd(output: string, total: nat, log: string, text: string)
    requires KeepsTheEnd(output, total, log)
    ensures KeepsTheEnd(Appended(output, text), total + |text|, log + text)
  {
    var long := output + text;
    assert long == (log + text)[|log + text| - |long|..];
    if |long| > 2 * JOB_OUTPUT_LIMIT {
      assert Last(long, JOB_OUTPUT_LIMIT) == (log + text)[|log + text| - JOB_OUTPUT_LIMIT..];
    }
  }

  // --- The pieces ----------------------------------------------------------------------------------------------

  /** The piece tells the truth about everything written: exactly the missing text, or exactly the last window. */
  ghost predicate True(p: Payload, log: string) {
    && p.total <= |log| && p.start <= p.total
    && p.output == if p.start > 0 then log[p.start..p.total] else Last(log[..p.total], JOB_OUTPUT_LIMIT)
  }

  lemma {:induction false} SentIsTrue(output: string, total: nat, log: string, from: Option<nat>)
    requires KeepsTheEnd(output, total, log)
    ensures True(Sent(output, total, from), log)
    ensures Sent(output, total, from).total == |log|
    ensures Sent(output, total, from).start > 0 <==>
      from.Some? && 0 < from.value <= |log| && |log| - from.value <= |Last(output, JOB_OUTPUT_LIMIT)|
  {
    var window := Last(output, JOB_OUTPUT_LIMIT);
    assert window == log[|log| - |window|..];
    assert log[..|log|] == log;
  }

  /** What is written later does not make a piece false. */
  lemma {:induction false} StaysTrue(p: Payload, log: string, more: string)
    requires True(p, log)
    ensures True(p, log + more)
  {
    assert (log + more)[..p.total] == log[..p.total];
    assert (log + more)[p.start..p.total] == log[p.start..p.total];
  }

  // --- The interface -------------------------------------------------------------------------------------------

  /** Appends a piece that follows what is shown, replaces it by a whole window, and forgets everything when a
      piece follows something else. */
  function Merged(shown: Option<Shown>, p: Payload): Option<Shown> {
    if p.start > 0 then
      if shown.None? || shown.value.total != p.start then None
      else Some(Shown(Last(shown.value.output + p.output, JOB_OUTPUT_LIMIT), p.total))
    else Some(Shown(p.output, p.total))
  }

  /** What the interface asks to continue from: nothing when it has nothing. */
  function Asked(shown: Option<Shown>): Option<nat> {
    if shown.Some? && shown.value.total != 0 then Some(shown.value.total) else None
  }

  ghost predicate Faithful(shown: Option<Shown>, log: string) {
    shown.Some? ==>
      && shown.value.total <= |log|
      && shown.value.output == Last(log[..shown.value.total], JOB_OUTPUT_LIMIT)
  }

  lemma {:induction false} MergeIsFaithful(shown: Option<Shown>, p: Payload, log: string)
    requires Faithful(shown, log) && True(p, log)
    ensures Faithful(Merged(shown, p), log)
  {
    if p.start > 0 && shown.Some? && shown.value.total == p.start {
      LastOfMore(log[..p.start], p.output);
      assert log[..p.start] + log[p.start..p.total] == log[..p.total];
    }
  }

  lemma {:induction false} LastOfMore(s: string, more: string)
    ensures Last(Last(s, JOB_OUTPUT_LIMIT) + more, JOB_OUTPUT_LIMIT) == Last(s + more, JOB_OUTPUT_LIMIT)
  {
  }

  // --- Writing, asking and receiving, in any order ---------------------------------------------------------------

  /** `sent` holds every piece ever sent: it may be received late, out of order, or twice. */
  datatype System = System(log: string, output: string, total: nat, sent: set<Payload>, shown: Option<Shown>)

  datatype Event = Writes(text: string) | Asks(from: Option<nat>) | Receives(p: Payload)

  predicate Enabled(s: System, e: Event) {
    |s.output| <= s.total && (e.Receives? ==> e.p in s.sent)
  }

  function Next(s: System, e: Event): System
    requires Enabled(s, e)
  {
    match e
    case Writes(text) => s.(log := s.log + text, output := Appended(s.output, text), total := s.total + |text|)
    case Asks(from) => s.(sent := s.sent + {Sent(s.output, s.total, from)})
    case Receives(p) => s.(shown := Merged(s.shown, p))
  }

  ghost predicate Possible(s: System, events: seq<Event>)
    decreases |events|
  {
    events != [] ==> Enabled(s, events[0]) && Possible(Next(s, events[0]), events[1..])
  }

  ghost function After(s: System, events: seq<Event>): System
    requires Possible(s, events)
    decreases |events|
  {
    if events == [] then s else After(Next(s, events[0]), events[1..])
  }

  ghost predicate Inv(s: System) {
    && KeepsTheEnd(s.output, s.total, s.log)
    && (forall p :: p in s.sent ==> True(p, s.log))
    && Faithful(s.shown, s.log)
  }

  lemma {:induction false} StepKeeps(s: System, e: Event)
    requires Inv(s) && Enabled(s, e)
    ensures Inv(Next(s, e))
  {
    hide KeepsTheEnd, True, Merged, Sent, Appended;
    match e
    case Writes(text) =>
      AppendKeepsTheEnd(s.output, s.total, s.log, text);
      forall p | p in s.sent ensures True(p, s.log + text) {
        StaysTrue(p, s.log, text);
      }
      if s.shown.Some? {
        assert (s.log + text)[..s.shown.value.total] == s.log[..s.shown.value.total];
      }
    case Asks(from) => SentIsTrue(s.output, s.total, s.log, from);
    case Receives(p) => MergeIsFaithful(s.shown, p, s.log);
  }

  /** Whatever is written, asked and received, and in whatever order the pieces arrive, the interface shows the
      last window of the output as it was at some length, or nothing. */
  lemma {:induction false} ShowsTheLog(s: System, events: seq<Event>)
    requires Inv(s) && Possible(s, events)
    ensures Inv(After(s, events))
    decreases |events|
  {
    hide Inv, Next, Enabled;
    if events != [] {
      StepKeeps(s, events[0]);
      ShowsTheLog(Next(s, events[0]), events[1..]);
    }
  }

  /** One question answered at once brings the interface up to date, whatever it was showing. */
  lemma {:induction false} OnePollCatchesUp(s: System)
    requires Inv(s)
    ensures Possible(s, [Asks(Asked(s.shown)), Receives(Sent(s.output, s.total, Asked(s.shown)))])
    ensures var t := Next(s, Asks(Asked(s.shown)));
      Next(t, Receives(Sent(s.output, s.total, Asked(s.shown)))).shown
        == Some(Shown(Last(s.log, JOB_OUTPUT_LIMIT), |s.log|))
  {
    hide Appended, Last, Faithful, True, KeepsTheEnd;
    LengthIsKnown(s);
    var p := Sent(s.output, s.total, Asked(s.shown));
    SentIsTrue(s.output, s.total, s.log, Asked(s.shown));
    var merged := Merged(s.shown, p);
    MergeIsFaithful(s.shown, p, s.log);
    WholeLog(merged, s.log);
    var events := [Asks(Asked(s.shown)), Receives(p)];
    assert events[1..] == [Receives(p)] && events[1..][1..] == [];
    assert Possible(Next(Next(s, events[0]), events[1]), []);
    assert Possible(Next(s, events[0]), events[1..]);
  }

  /** An interface not too far behind asks for, and is sent, exactly what it misses. */
  lemma {:induction false} OnlyTheMissing(s: System)
    requires Inv(s) && s.shown.Some? && s.shown.value.total > 0
    ensures var p := Sent(s.output, s.total, Asked(s.shown));
      if |s.log| - s.shown.value.total <= |s.output| && |s.log| - s.shown.value.total <= 120_000
      then p == Payload(s.log[s.shown.value.total..], s.shown.value.total, |s.log|)
      else p.start == 0
  {
    hide Appended;
    var from := s.shown.value.total;
    SentIsTrue(s.output, s.total, s.log, Some(from));
    assert s.log[from..|s.log|] == s.log[from..];
  }

  lemma {:induction false} LengthIsKnown(s: System)
    requires Inv(s)
    ensures |s.output| <= s.total == |s.log|
  {
  }

  lemma {:induction false} WholeLog(shown: Option<Shown>, log: string)
    requires Faithful(shown, log) && shown.Some? && shown.value.total == |log|
    ensures shown == Some(Shown(Last(log, JOB_OUTPUT_LIMIT), |log|))
  {
    assert log[..|log|] == log;
  }
}
