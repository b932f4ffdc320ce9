/** Downloading a backup that resumes where a cut stopped it (odoo_manager_core/remote_backups.py:
    download_backup), against a storage free to cut, to read short and to refuse to resume. */
module Download {
  import opened Text

  const RETRIES := 5

  type Bytes = seq<char>

  /** One connection of the storage. `range` is the start its Content-Range claims, `sizes` the most each read
      gives before the connection ends, broken or as if the object ended there. */
  datatype Connection =
    | NotOpened(denied: bool)
    | Opened(range: Option<nat>, sizes: seq<nat>, broken: bool)

  datatype Outcome = Returned(size: nat) | Interrupted | Incomplete | Denied | StillRunning

  /** The file written so far and the failures in a row. */
  datatype State = State(file: Bytes, failures: nat)

  datatype Progress = Ended(outcome: Outcome, file: Bytes) | Continue(state: State)

  // --- One connection --------------------------------------------------------------------------------------

  function Chunk(remote: Bytes, at: nat, size: nat): Bytes
    requires at <= |remote|
  {
    remote[at..if at + size <= |remote| then at + size else |remote|]
  }

  /** The bytes the reads give one after the other, up to the first empty one. */
  function Served(remote: Bytes, at: nat, sizes: seq<nat>): (n: nat)
    requires at <= |remote|
    ensures at + n <= |remote|
    decreases |sizes|
  {
    if sizes == [] || Chunk(remote, at, sizes[0]) == [] then 0
    else
      var n := |Chunk(remote, at, sizes[0])|;
      n + Served(remote, at + n, sizes[1..])
  }

  /** Whether an empty read comes before the end of the connection. */
  predicate ReadsEnd(remote: Bytes, at: nat, sizes: seq<nat>)
    requires at <= |remote|
    decreases |sizes|
  {
    && sizes != []
    && (Chunk(remote, at, sizes[0]) == []
        || ReadsEnd(remote, at + |Chunk(remote, at, sizes[0])|, sizes[1..]))
  }

  /** Where the content sent starts: the start claimed counts for nothing but being there. */
  function Start(remote: Bytes, position: nat, range: Option<nat>): (start: nat)
    ensures start <= |remote|
  {
    if position == 0 || range.None? then 0
    else if range.value <= |remote| then range.value
    else |remote|
  }

  function Written(remote: Bytes, s: State, c: Connection): State
    requires c.Opened?
  {
    var start := Start(remote, |s.file|, c.range);
    var n := Served(remote, start, c.sizes);
    State((if c.range.None? then [] else s.file) + remote[start..start + n], if n > 0 then 0 else s.failures)
  }

  function Failed(s: State, final: Outcome): Progress {
    if s.failures + 1 > RETRIES then Ended(final, s.file) else Continue(s.(failures := s.failures + 1))
  }

  /** The last check, on the size of the file closed. */
  function Closed(file: Bytes, total: nat): (Outcome, Bytes) {
    (if total > 0 && |file| != total then Incomplete else Returned(|file|), file)
  }

  function Attempt(remote: Bytes, total: nat, s: State, c: Connection): Progress {
    if c.NotOpened? then if c.denied then Ended(Denied, s.file) else Failed(s, Interrupted)
    else
      var w := Written(remote, s, c);
      if c.broken && !ReadsEnd(remote, Start(remote, |s.file|, c.range), c.sizes) then Failed(w, Interrupted)
      else if total == 0 then Ended(Returned(|w.file|), w.file)
      else if |w.file| < total then Failed(w, Incomplete)
      else Continue(w)
  }

  /** The connections one after the other. */
  function Run(remote: Bytes, total: nat, s: State, script: seq<Connection>): (Outcome, Bytes)
    decreases |script|
  {
    if total > 0 && |s.file| >= total then Closed(s.file, total)
    else if script == [] then (StillRunning, s.file)
    else
      match Attempt(remote, total, s, script[0])
      case Ended(outcome, file) => (outcome, file)
      case Continue(next) => Run(remote, total, next, script[1..])
  }

  // --- The download ----------------------------------------------------------------------------------------

  lemma {:induction false} NextRead(remote: Bytes, at: nat, sizes: seq<nat>, i: nat)
    requires at <= |remote| && i <= |sizes|
    ensures i == |sizes| ==> Served(remote, at, sizes[i..]) == 0 && !ReadsEnd(remote, at, sizes[i..])
    ensures i < |sizes| ==>
      var n := |Chunk(remote, at, sizes[i])|;
      && (n == 0 ==> Served(remote, at, sizes[i..]) == 0 && ReadsEnd(remote, at, sizes[i..]))
      && (n > 0 ==>
        && Served(remote, at, sizes[i..]) == n + Served(remote, at + n, sizes[i + 1..])
        && ReadsEnd(remote, at, sizes[i..]) == ReadsEnd(remote, at + n, sizes[i + 1..]))
  {
    assert i < |sizes| ==> sizes[i..][0] == sizes[i] && sizes[i..][1..] == sizes[i + 1..];
  }

  lemma {:induction false} NextConnection(remote: Bytes, total: nat, s: State, script: seq<Connection>, i: nat)
    requires i <= |script|
    ensures Run(remote, total, s, script[i..]) ==
      if total > 0 && |s.file| >= total then Closed(s.file, total)
      else if i == |script| then (StillRunning, s.file)
      else
        match Attempt(remote, total, s, script[i])
        case Ended(outcome, file) => (outcome, file)
        case Continue(next) => Run(remote, total, next, script[i + 1..])
  {
    assert i < |script| ==> script[i..][0] == script[i] && script[i..][1..] == script[i + 1..];
  }

  lemma {:induction false} Longer(kept: Bytes, remote: Bytes, start: nat, at: nat, n: nat)
    requires start <= at && at + n <= |remote|
    ensures (kept + remote[start..at]) + remote[at..at + n] == kept + remote[start..at + n]
  {
    assert remote[start..at] + remote[at..at + n] == remote[start..at + n];
  }

  /** Writes what the connection gives; `broken` when it ends in an error. */
  method Receive(remote: Bytes, c: Connection, file0: Bytes, failures0: nat)
    returns (file: Bytes, failures: nat, broken: bool)
    requires c.Opened?
    ensures State(file, failures) == Written(remote, State(file0, failures0), c)
    ensures broken == (c.broken && !ReadsEnd(remote, Start(remote, |file0|, c.range), c.sizes))
  {
    hide Served, ReadsEnd, Start;
    file, failures := file0, failures0;
    var position := |file|;
    var at := Start(remote, position, c.range);
    ghost var start := at;
    if position > 0 && c.range.None? {
      file := [];
    }
    ghost var kept := file;
    var i := 0;
    assert c.sizes[0..] == c.sizes;
    while i < |c.sizes|
      invariant 0 <= i <= |c.sizes|
      invariant start <= at <= |remote|
      invariant file == kept + remote[start..at]
      invariant failures == if at > start then 0 else failures0
      invariant at + Served(remote, at, c.sizes[i..]) == start + Served(remote, start, c.sizes)
      invariant ReadsEnd(remote, at, c.sizes[i..]) == ReadsEnd(remote, start, c.sizes)
    {
      var chunk := Chunk(remote, at, c.sizes[i]);
      NextRead(remote, at, c.sizes, i);
      if chunk == [] {
        broken := false;
        return;
      }
      Longer(kept, remote, start, at, |chunk|);
      file := file + chunk;
      failures := 0;
      at := at + |chunk|;
      i := i + 1;
    }
    NextRead(remote, at, c.sizes, i);
    broken := c.broken;
  }

  method DownloadBackup(remote: Bytes, total: nat, script: seq<Connection>) returns (outcome: Outcome, file: Bytes)
    ensures (outcome, file) == Run(remote, total, State([], 0), script)
  {
    hide Served, ReadsEnd, Written, Run, Start;
    file := [];
    var failures: nat := 0;
    var used := 0;
    assert script[0..] == script;
    while true
      invariant 0 <= used <= |script|
      invariant Run(remote, total, State(file, failures), script[used..]) == Run(remote, total, State([], 0), script)
      decreases |script| - used
    {
      NextConnection(remote, total, State(file, failures), script, used);
      if total > 0 && |file| >= total {
        break;
      }
      if used == |script| {
        return StillRunning, file;
      }
      var c := script[used];
      used := used + 1;
      var broken := true;
      if c.Opened? {
        file, failures, broken := Receive(remote, c, file, failures);
      } else if c.denied {
        return Denied, file;
      }
      if broken {
        failures := failures + 1;
        if failures > RETRIES {
          return Interrupted, file;
        }
        continue;
      }
      if total == 0 {
        return Returned(|file|), file;
      }
      if |file| < total {
        failures := failures + 1;
        if failures > RETRIES {
          return Incomplete, file;
        }
      }
    }
    outcome := if |file| != total then Incomplete else Returned(|file|);
  }

  // --- The file is always the beginning of the object -----------------------------------------------------

  /** What the storage owes to a resumption: to start where it was asked to, or, unless it must resume, to say
      that it starts from the beginning. */
  predicate Honours(c: Connection, position: nat, mustResume: bool) {
    c.Opened? && position > 0 ==> if c.range.Some? then c.range.value == position else !mustResume
  }

  ghost predicate HonoursAll(remote: Bytes, total: nat, s: State, script: seq<Connection>, mustResume: bool)
    decreases |script|
  {
    script != [] && (total == 0 || |s.file| < total) ==>
      && Honours(script[0], |s.file|, mustResume)
      && var p := Attempt(remote, total, s, script[0]);
         (p.Continue? ==> HonoursAll(remote, total, p.state, script[1..], mustResume))
  }

  /** A connection leaves a beginning of the object exactly when what it sends belongs where the file stopped;
      the start it claims is not looked at. */
  lemma {:induction false} KeepsPrefixIff(remote: Bytes, s: State, c: Connection)
    requires c.Opened? && s.file <= remote
    ensures var position, start := |s.file|, Start(remote, |s.file|, c.range);
      var n := Served(remote, start, c.sizes);
      Written(remote, s, c).file <= remote <==>
        c.range.None? || (position + n <= |remote| && remote[start..start + n] == remote[position..position + n])
  {
    hide Served;
    var start := Start(remote, |s.file|, c.range);
    var sent := remote[start..start + Served(remote, start, c.sizes)];
    PrefixGrows(remote, s.file, sent);
    PrefixGrows(remote, [], sent);
  }

  lemma {:induction false} PrefixGrows(remote: Bytes, file: Bytes, sent: Bytes)
    requires file <= remote
    ensures file + sent <= remote <==>
      |file| + |sent| <= |remote| && sent == remote[|file|..|file| + |sent|]
  {
    if |file| + |sent| <= |remote| {
      assert remote[..|file| + |sent|] == file + remote[|file|..|file| + |sent|];
      if file + sent <= remote {
        assert (file + sent)[|file|..] == sent;
      }
    }
  }

  lemma {:induction false} HonouredKeepsPrefix(remote: Bytes, total: nat, s: State, c: Connection, mustResume: bool)
    requires s.file <= remote && Honours(c, |s.file|, mustResume)
    ensures match Attempt(remote, total, s, c)
      case Ended(_, file) => file <= remote
      case Continue(next) => next.file <= remote
  {
    if c.Opened? {
      KeepsPrefixIff(remote, s, c);
    }
  }

  /** Whatever the cuts, the short reads and the refusals to resume, the file is a beginning of the object; a
      download that returns with the size announced has written exactly that much of it. */
  lemma {:induction false} FileIsPrefix(remote: Bytes, total: nat, s: State, script: seq<Connection>)
    requires s.file <= remote && HonoursAll(remote, total, s, script, false)
    ensures var (outcome, file) := Run(remote, total, s, script);
      && file <= remote
      && (outcome.Returned? ==> outcome.size == |file|)
      && (outcome.Returned? && total > 0 ==> |file| == total)
      && (outcome.Returned? && total == |remote| > 0 ==> file == remote)
    decreases |script|
  {
    if (total == 0 || |s.file| < total) && script != [] {
      hide Attempt;
      HonouredKeepsPrefix(remote, total, s, script[0], false);
      ReturnsOnlyUnknown(remote, total, s, script[0]);
      var p := Attempt(remote, total, s, script[0]);
      if p.Continue? {
        FileIsPrefix(remote, total, p.state, script[1..]);
      }
    }
  }

  /** Only an object of unknown size is accepted as soon as a connection ends well. */
  lemma {:induction false} ReturnsOnlyUnknown(remote: Bytes, total: nat, s: State, c: Connection)
    ensures var p := Attempt(remote, total, s, c);
      p.Ended? && p.outcome.Returned? ==> total == 0 && p.outcome.size == |p.file|
  {
  }

  /** The start claimed is not compared with the start asked for: a file of the right size and the wrong content
      is returned. */
  lemma {:induction false} WrongStartIsAccepted()
    ensures var cut, elsewhere := Opened(None, [1], true), Opened(Some(0), [1], false);
      && Run("ab", 2, State("", 0), [cut, elsewhere]) == (Returned(2), "aa")
      && !Honours(elsewhere, 1, false)
  {
    var cut, elsewhere := Opened(None, [1], true), Opened(Some(0), [1], false);
    OneByte("ab", "", 0, cut);
    OneByte("ab", "a", 1, elsewhere);
    assert Attempt("ab", 2, State("", 0), cut) == Continue(State("a", 1));
    assert Attempt("ab", 2, State("a", 1), elsewhere) == Continue(State("aa", 0));
    NextConnection("ab", 2, State("", 0), [cut, elsewhere], 0);
    NextConnection("ab", 2, State("a", 1), [cut, elsewhere], 1);
    NextConnection("ab", 2, State("aa", 0), [cut, elsewhere], 2);
    assert [cut, elsewhere][0..] == [cut, elsewhere];
  }

  /** A connection that sends the first byte of the object and ends. */
  lemma {:induction false} OneByte(remote: Bytes, file: Bytes, failures: nat, c: Connection)
    requires |remote| > 1 && c.Opened? && c.sizes == [1] && Start(remote, |file|, c.range) == 0
    ensures Written(remote, State(file, failures), c) == State((if c.range.None? then [] else file) + remote[..1], 0)
    ensures !ReadsEnd(remote, 0, c.sizes)
  {
    NextRead(remote, 0, c.sizes, 0);
    NextRead(remote, 1, c.sizes, 1);
    assert c.sizes[0..] == c.sizes;
    assert Chunk(remote, 0, 1) == remote[0..1];
  }

  // --- The download ends -------------------------------------------------------------------------------------

  /** The connections left: a byte received is worth a whole new series of failures. */
  ghost function Left(remote: Bytes, s: State): int {
    (|remote| - |s.file|) * (RETRIES + 2) + RETRIES - s.failures
  }

  lemma {:induction false} LeftDecreases(remote: Bytes, total: nat, s: State, c: Connection)
    requires s.file <= remote && s.failures <= RETRIES && (total == 0 || |s.file| < total)
    requires Honours(c, |s.file|, true)
    ensures var p := Attempt(remote, total, s, c);
      p.Continue? ==>
        && p.state.file <= remote && p.state.failures <= RETRIES
        && 0 <= Left(remote, p.state) < Left(remote, s)
  {
    HonouredKeepsPrefix(remote, total, s, c, true);
    var p := Attempt(remote, total, s, c);
    if p.Continue? && c.Opened? {
      var w := Written(remote, s, c);
      assert w.file == s.file + remote[|s.file|..|s.file| + |w.file| - |s.file|];
      if |w.file| == |s.file| {
        assert w.failures == s.failures;
      }
    }
  }

  /** A resumption refused: the storage starts again from the beginning. */
  predicate Refuses(c: Connection, position: nat) {
    c.Opened? && position > 0 && c.range.None?
  }

  /** The resumptions refused along the run. */
  ghost function Refusals(remote: Bytes, total: nat, s: State, script: seq<Connection>): nat
    decreases |script|
  {
    if script == [] || (total > 0 && |s.file| >= total) then 0
    else
      var p := Attempt(remote, total, s, script[0]);
      (if Refuses(script[0], |s.file|) then 1 else 0)
      + if p.Continue? then Refusals(remote, total, p.state, script[1..]) else 0
  }

  /** What a refusal costs at most: itself, and everything to do again. */
  ghost function Again(remote: Bytes): nat {
    |remote| * (RETRIES + 2) + RETRIES + 1
  }

  lemma {:induction false} RefusalStartsAgain(remote: Bytes, total: nat, s: State, c: Connection)
    requires s.file <= remote && s.failures <= RETRIES && Refuses(c, |s.file|)
    ensures var p := Attempt(remote, total, s, c);
      p.Continue? ==>
        p.state.file <= remote && p.state.failures <= RETRIES && 0 <= Left(remote, p.state) < Again(remote)
  {
    hide Served, ReadsEnd;
    HonouredKeepsPrefix(remote, total, s, c, false);
  }

  /** As long as the storage says where it starts, only refused resumptions prolong the download: while it is
      still running the connections are bounded by the size of the object and the number of refusals. */
  lemma {:induction false} OnlyRefusalsProlong(remote: Bytes, total: nat, s: State, script: seq<Connection>)
    requires s.file <= remote && s.failures <= RETRIES && HonoursAll(remote, total, s, script, false)
    requires Run(remote, total, s, script).0 == StillRunning
    ensures |script| <= Left(remote, s) + Refusals(remote, total, s, script) * Again(remote)
    decreases |script|
  {
    hide Attempt, Left, Again;
    LeftIsPositive(remote, s);
    if script != [] {
      var c, rest := script[0], script[1..];
      NeverStillRunning(remote, total, s, c);
      var p := Attempt(remote, total, s, c);
      if Refuses(c, |s.file|) {
        RefusalStartsAgain(remote, total, s, c);
      } else {
        LeftDecreases(remote, total, s, c);
      }
      OnlyRefusalsProlong(remote, total, p.state, rest);
      OneRefusal(Refusals(remote, total, p.state, rest), Again(remote));
    }
  }

  lemma {:induction false} OneRefusal(refusals: nat, again: nat)
    ensures (1 + refusals) * again == again + refusals * again
  {
  }

  /** Against a storage that resumes where asked, the download ends, within a number of connections known from
      the size of the object. */
  lemma {:induction false} DownloadEnds(remote: Bytes, total: nat, s: State, script: seq<Connection>)
    requires s.file <= remote && s.failures <= RETRIES && HonoursAll(remote, total, s, script, true)
    requires |script| > Left(remote, s)
    ensures Run(remote, total, s, script).0 != StillRunning
  {
    NeverRefused(remote, total, s, script);
    if Run(remote, total, s, script).0 == StillRunning {
      OnlyRefusalsProlong(remote, total, s, script);
    }
  }

  /** To honour every resumption is to refuse none and to start where asked. */
  lemma {:induction false} NeverRefused(remote: Bytes, total: nat, s: State, script: seq<Connection>)
    ensures HonoursAll(remote, total, s, script, true) <==>
      HonoursAll(remote, total, s, script, false) && Refusals(remote, total, s, script) == 0
    decreases |script|
  {
    hide Attempt;
    if script != [] && (total == 0 || |s.file| < total) {
      var p := Attempt(remote, total, s, script[0]);
      if p.Continue? {
        NeverRefused(remote, total, p.state, script[1..]);
      }
    }
  }

  lemma {:induction false} LeftIsPositive(remote: Bytes, s: State)
    requires s.file <= remote && s.failures <= RETRIES
    ensures Left(remote, s) >= 0
  {
  }

  lemma {:induction false} NeverStillRunning(remote: Bytes, total: nat, s: State, c: Connection)
    ensures Attempt(remote, total, s, c).Ended? ==> Attempt(remote, total, s, c).outcome != StillRunning
  {
  }

  function Repeated(c: Connection, n: nat): seq<Connection> {
    if n == 0 then [] else [c] + Repeated(c, n - 1)
  }

  /** A storage that refuses to resume and cuts after a byte keeps the download going for ever: every byte
      received clears the failures. */
  lemma {:induction false} RefusalsNeverEnd(remote: Bytes, s: State, n: nat)
    requires |remote| > 1 && (s == State([], 0) || s == State(remote[..1], 1))
    ensures Run(remote, |remote|, s, Repeated(Opened(None, [1], true), n)).0 == StillRunning
    decreases n
  {
    if n > 0 {
      var c := Opened(None, [1], true);
      OneByte(remote, s.file, s.failures, c);
      assert [] + remote[..1] == remote[..1];
      assert Attempt(remote, |remote|, s, c) == Continue(State(remote[..1], 1));
      assert Repeated(c, n)[0] == c && Repeated(c, n)[1..] == Repeated(c, n - 1);
      RefusalsNeverEnd(remote, State(remote[..1], 1), n - 1);
    }
  }

  // --- Giving up -----------------------------------------------------------------------------------------------

  /** The storage may fail five times in a row, not six; an access refused ends the download at once. */
  lemma {:induction false} SixFailuresEnd(remote: Bytes, total: nat, s: State, n: nat)
    requires s.failures <= 5 && (total > 0 ==> |s.file| < total)
    ensures Run(remote, total, s, Repeated(NotOpened(false), n))
            == (if s.failures + n >= 6 then Interrupted else StillRunning, s.file)
    ensures n > 0 ==> Run(remote, total, s, Repeated(NotOpened(true), n)) == (Denied, s.file)
    decreases n
  {
    if n > 0 && s.failures < 5 {
      SixFailuresEnd(remote, total, s.(failures := s.failures + 1), n - 1);
    }
  }

  /** Any byte received forgets the failures before it; the connection that gave it may itself count as one. */
  lemma {:induction false} BytesForgiveFailures(remote: Bytes, total: nat, s: State, c: Connection)
    requires c.Opened? && Served(remote, Start(remote, |s.file|, c.range), c.sizes) > 0
    ensures var p := Attempt(remote, total, s, c);
      && (p.Continue? ==> p.state.failures <= 1)
      && (p.Ended? ==> p.outcome == Returned(|p.file|) && total == 0)
  {
    hide ReadsEnd, Served;
  }
}
