/** The splitter yields the same bytes and the same post-data for every way of cutting a dump. */
module ChunkIndependence {
  import opened Text
  import opened DumpSplitter
  import opened DumpSplitterSpec
  import opened DumpSplitterProofs

  // --- The anchored patterns do not depend on what follows them ---------------------------------

  lemma {:induction false} NewlinePrefix(b: string, r: string)
    requires Newline(b, 0) < |b|
    ensures Newline(b + r, 0) == Newline(b, 0)
    ensures (b + r)[..Newline(b, 0)] == b[..Newline(b, 0)]
  {
    var n := Newline(b, 0);
    assert (b + r)[n] == '\n';
    assert forall k :: 0 <= k < n ==> (b + r)[k] != '\n';
  }

  lemma {:induction false} RunPrefix(b: string, r: string, i: nat, p: char -> bool)
    requires i <= |b|
    ensures RunEnd(b, i, p) < |b| ==> RunEnd(b + r, i, p) == RunEnd(b, i, p)
    ensures RunEnd(b + r, i, p) < |b| ==> RunEnd(b + r, i, p) == RunEnd(b, i, p)
    decreases |b| - i
  {
    if i < |b| && p(b[i]) {
      RunPrefix(b, r, i + 1, p);
    }
  }

  lemma {:induction false} MarkerPrefix(b: string, r: string)
    ensures MarkerLength(b) > 0 ==> MarkerLength(b + r) == MarkerLength(b)
    ensures MarkerLength(b + r) <= |b| ==> MarkerLength(b) == MarkerLength(b + r)
  {
    var word := c => !IsSpace(c);
    var t := b + r;
    if 13 <= |b| { AtPrefix(b, r, 0, "CREATE INDEX "); }
    if 20 <= |b| { AtPrefix(b, r, 0, "CREATE UNIQUE INDEX "); }
    if 17 <= |b| {
      AtPrefix(b, r, 0, "ALTER TABLE ONLY ");
      RunPrefix(b, r, 17, word);
      var e := RunEnd(b, 17, word);
      RunPrefix(b, r, e, IsSpace);
      var blank := RunEnd(b, e, IsSpace);
      if blank + 15 <= |b| { AtPrefix(b, r, blank, "ADD CONSTRAINT "); }
    }
  }

  lemma {:induction false} OneLine(s: string, i: nat, p: string)
    requires At(s, i, p) && '\n' !in p
    ensures forall k :: i <= k < i + |p| ==> s[k] != '\n'
  {
    forall k | i <= k < i + |p| ensures s[k] != '\n' {
      assert s[i..i + |p|][k - i] == s[k];
    }
  }

  /** A line start inside a marker is blank or ADD CONSTRAINT: never another marker nor a header. */
  lemma {:induction false} MarkerInterior(text: string, k: nat)
    requires 0 < k < MarkerLength(text) && LineStart(text, k)
    ensures !StartsMarker(text[k..]) && !StartsHeader(text[k..])
  {
    hide StartsHeader, StartsMarker, MarkerLength, At, RunEnd;
    var rest := text[k..];
    MarkerIsOneLineOrAlter(text, k);
    AtMeansRoom(text, 0, "ALTER TABLE ONLY ");
    var name := RunEnd(text, 17, c => !IsSpace(c));
    var blank := RunEnd(text, name, IsSpace);
    if k == blank {
      assert text[..k] + rest == text;
      AtSplit(text[..k], rest, k, "ADD CONSTRAINT ");
      TwoLetters(rest, "ADD CONSTRAINT ");
    } else {
      assert rest[0] == text[k];
    }
    FirstLetter(rest);
  }

  lemma {:induction false} MarkerIsOneLineOrAlter(text: string, k: nat)
    requires 0 < k < MarkerLength(text) && text[k - 1] == '\n'
    ensures At(text, 0, "ALTER TABLE ONLY ")
    ensures var name := RunEnd(text, 17, c => !IsSpace(c));
            var blank := RunEnd(text, name, IsSpace);
            name < k <= blank && MarkerLength(text) == blank + 15 && At(text, blank, "ADD CONSTRAINT ")
  {
    hide At, RunEnd;
    if At(text, 0, "CREATE INDEX ") {
      OneLine(text, 0, "CREATE INDEX ");
    } else if At(text, 0, "CREATE UNIQUE INDEX ") {
      OneLine(text, 0, "CREATE UNIQUE INDEX ");
    } else {
      if k <= 17 {
        OneLine(text, 0, "ALTER TABLE ONLY ");
      }
      var blank := RunEnd(text, RunEnd(text, 17, c => !IsSpace(c)), IsSpace);
      if k > blank {
        OneLine(text, blank, "ADD CONSTRAINT ");
      }
    }
  }

  lemma {:induction false} TwoLetters(s: string, p: string)
    requires At(s, 0, p) && |p| > 1
    ensures |s| > 1 && s[0] == p[0] && s[1] == p[1]
  {
    assert s[..|p|] == p;
  }

  lemma {:induction false} FirstLetter(s: string)
    ensures StartsMarker(s) ==> |s| > 1 && s[0] in "AC" && s[1] in "RL"
    ensures StartsHeader(s) ==> |s| > 1 && s[0] == 'C' && s[1] == 'O'
  {
    hide At, RunEnd;
    if StartsMarker(s) {
      var p := if At(s, 0, "CREATE INDEX ") then "CREATE INDEX "
               else if At(s, 0, "CREATE UNIQUE INDEX ") then "CREATE UNIQUE INDEX "
               else "ALTER TABLE ONLY ";
      TwoLetters(s, p);
    }
    if StartsHeader(s) {
      TwoLetters(s[..Newline(s, 0)], "COPY ");
    }
  }

  // --- Skipping ordinary lines ------------------------------------------------------------------

  /** No header and no marker starts before line start `a`. */
  ghost predicate Ordinary(text: string, a: int) {
    forall i :: 0 <= i < a && LineStart(text, i) ==> !StartsMarker(text[i..]) && !StartsHeader(text[i..])
  }

  lemma {:induction false} WordsHaveNoNewline(s: string, i: nat, k: nat)
    requires PartitionWords(s, i) && i <= k < i + 12
    ensures k < |s| && s[k] != '\n'
  {
    assert s[i..i + 12][k - i] == s[k];
  }

  lemma {:induction false} AtSplit(a: string, b: string, i: nat, p: string)
    ensures i >= |a| ==> (At(a + b, i, p) <==> At(b, i - |a|, p))
    ensures i + |p| <= |a| ==> (At(a + b, i, p) <==> At(a, i, p))
  {
    if i >= |a| && i + |p| <= |a + b| {
      assert (a + b)[i..i + |p|] == b[i - |a|..i - |a| + |p|];
    }
    if i + |p| <= |a| {
      assert (a + b)[i..i + |p|] == a[i..i + |p|];
    }
  }

  lemma {:induction false} AtMeansRoom(s: string, i: nat, p: string)
    ensures At(s, i, p) ==> i + |p| <= |s|
  {
  }

  lemma {:induction false} WordsSplit(a: string, b: string, i: nat)
    requires a == "" || a[|a| - 1] == '\n'
    ensures i < |a| ==> (PartitionWords(a + b, i) <==> PartitionWords(a, i))
    ensures i < |a| ==> (PartitionAt(a + b, i) <==> PartitionAt(a, i))
    ensures i >= |a| ==> (PartitionWords(a + b, i) <==> PartitionWords(b, i - |a|))
    ensures i >= |a| ==> (PartitionAt(a + b, i) <==> PartitionAt(b, i - |a|))
  {
    hide At;
    AtSplit(a, b, i, "PARTITION BY");
    AtSplit(a, b, i, "PARTITION OF");
    if i < |a| <= i + 12 && PartitionWords(a + b, i) {
      WordsHaveNoNewline(a + b, i, |a| - 1);
    }
    AtMeansRoom(a, i, "PARTITION BY");
    AtMeansRoom(a, i, "PARTITION OF");
    AtMeansRoom(a + b, i, "PARTITION BY");
    AtMeansRoom(a + b, i, "PARTITION OF");
  }

  lemma {:induction false} PartitionSplit(a: string, b: string)
    requires a == "" || a[|a| - 1] == '\n'
    ensures HasPartition(a + b) <==> HasPartition(a) || HasPartition(b)
    ensures MentionsPartition(a + b) <==> MentionsPartition(a) || MentionsPartition(b)
  {
    forall i: nat ensures i < |a| ==> (PartitionWords(a + b, i) <==> PartitionWords(a, i))
                  ensures i < |a| ==> (PartitionAt(a + b, i) <==> PartitionAt(a, i))
                  ensures i >= |a| ==> (PartitionWords(a + b, i) <==> PartitionWords(b, i - |a|))
                  ensures i >= |a| ==> (PartitionAt(a + b, i) <==> PartitionAt(b, i - |a|))
    {
      WordsSplit(a, b, i);
    }
    if HasPartition(b) {
      var i :| 0 <= i < |b| && PartitionAt(b, i);
      assert PartitionAt(a + b, i + |a|);
    }
    if MentionsPartition(b) {
      var i :| 0 <= i < |b| && PartitionWords(b, i);
      assert PartitionWords(a + b, i + |a|);
    }
  }

  lemma {:induction false} OrdinaryLine(freeze: bool, text: string, lookback: nat)
    requires !StartsMarker(text) && !StartsHeader(text) && Newline(text, 0) < |text|
    ensures var k := Newline(text, 0) + 1;
            var freeze' := freeze && !HasPartition(text[..k]);
            && Ideal(freeze, text) == Prepend(text[..k], Ideal(freeze', text[k..]))
            && (Stable(freeze, text, lookback) ==> Stable(freeze', text[k..], lookback))
  {
    hide HasPartition, MarkerLength, HeaderTable;
  }

  lemma {:induction false} OrdinaryRest(text: string, k: nat, a: nat)
    requires Ordinary(text, a) && k <= a <= |text| && LineStart(text, k)
    ensures Ordinary(text[k..], a - k) && (LineStart(text, a) ==> LineStart(text[k..], a - k))
  {
    hide StartsMarker, StartsHeader;
    var rest := text[k..];
    forall i | 0 <= i < a - k && LineStart(rest, i)
      ensures !StartsMarker(rest[i..]) && !StartsHeader(rest[i..])
    {
      assert rest[i..] == text[k + i..] && LineStart(text, k + i);
    }
  }

  lemma {:induction false} PrependTwice(a: string, b: string, o: Outcome)
    ensures Prepend(a, Prepend(b, o)) == Prepend(a + b, o)
  {
  }

  /** Ordinary lines are sent as they are; only the freeze flag remembers them. */
  lemma {:induction false} Skim(freeze: bool, text: string, a: nat, lookback: nat)
    requires LineStart(text, a) && Ordinary(text, a)
    ensures Ideal(freeze, text)
            == Prepend(text[..a], Ideal(freeze && !HasPartition(text[..a]), text[a..]))
    ensures Stable(freeze, text, lookback)
            ==> Stable(freeze && !HasPartition(text[..a]), text[a..], lookback)
    decreases a
  {
    hide HasPartition, StartsMarker, StartsHeader, Ideal, Stable, Prepend, Ordinary;
    if a == 0 {
      NoPartitionInNothing();
      assert text[..0] == "" && text[0..] == text;
      PrependNothing(Ideal(freeze, text));
    } else {
      FirstIsOrdinary(text, a);
      var k := Newline(text, 0) + 1;
      var line, rest := text[..k], text[k..];
      assert rest[a - k..] == text[a..] && text[..a] == line + rest[..a - k];
      OrdinaryLine(freeze, text, lookback);
      OrdinaryRest(text, k, a);
      PartitionSplit(line, rest[..a - k]);
      Skim(freeze && !HasPartition(line), rest, a - k, lookback);
      PrependTwice(line, rest[..a - k], Ideal(freeze && !HasPartition(text[..a]), text[a..]));
    }
  }

  lemma {:induction false} PrependNothing(o: Outcome)
    ensures Prepend("", o) == o
  {
  }

  lemma {:induction false} FirstIsOrdinary(text: string, a: nat)
    requires Ordinary(text, a) && 0 < a && LineStart(text, a)
    ensures !StartsMarker(text) && !StartsHeader(text) && Newline(text, 0) < a
  {
    hide StartsMarker, StartsHeader;
    assert text[0..] == text && LineStart(text, 0);
  }

  lemma {:induction false} NoPartitionInNothing()
    ensures !HasPartition("")
  {
  }

  // --- What one turn of the loop finds holds of the whole remaining dump -------------------------

  lemma {:induction false} HeaderPrefix(b: string, r: string)
    requires Newline(b, 0) < |b|
    ensures StartsHeader(b + r) <==> StartsHeader(b)
  {
    hide HeaderTable;
    NewlinePrefix(b, r);
  }

  ghost predicate NoHeaderLine(b: string, a: int) {
    forall i :: 0 <= i < a && LineStart(b, i) ==> !StartsHeader(b[i..])
  }

  ghost predicate NoMarkerLine(b: string, a: int) {
    forall i :: 0 <= i < a && LineStart(b, i) ==> !StartsMarker(b[i..])
  }

  lemma {:induction false} LinePrefix(b: string, r: string, i: nat, a: nat)
    requires i < a <= |b| && LineStart(b + r, i) && LineStart(b, a)
    ensures LineStart(b, i) && (b + r)[i..] == b[i..] + r && Newline(b[i..], 0) < a - i
    ensures StartsHeader((b + r)[i..]) <==> StartsHeader(b[i..])
  {
    hide StartsHeader;
    assert b[i..][a - 1 - i] == '\n';
    HeaderPrefix(b[i..], r);
  }

  /** What precedes the first marker or header found is ordinary. */
  lemma {:induction false} OrdinaryBefore(b: string, r: string, a: nat)
    requires a <= |b| && LineStart(b, a) && NoHeaderLine(b, a) && NoMarkerLine(b, a)
    requires StartsMarker((b + r)[a..]) || StartsHeader((b + r)[a..])
    ensures Ordinary(b + r, a)
  {
    hide StartsHeader;
    var text := b + r;
    forall i | 0 <= i < a && LineStart(text, i)
      ensures !StartsMarker(text[i..]) && !StartsHeader(text[i..])
    {
      LinePrefix(b, r, i, a);
      if StartsMarker(text[i..]) {
        assert text[i..][a - i..] == text[a..];
        if a - i < MarkerLength(text[i..]) {
          MarkerInterior(text[i..], a - i);
        }
        MarkerPrefix(b[i..], r);
      }
    }
  }

  /** What statement mode lets go, `lookback` bytes before the end of the buffer, is ordinary. */
  lemma {:induction false} OrdinaryCut(freeze: bool, b: string, r: string, a: nat, lookback: nat)
    requires LineStart(b, a) && (a > 0 ==> a + lookback <= |b|)
    requires NoHeaderLine(b, |b| + 1) && NoMarkerLine(b, |b| + 1)
    requires Stable(freeze, b + r, lookback)
    ensures Ordinary(b + r, a)
    decreases a
  {
    hide StartsHeader, Stable, HasPartition;
    var text := b + r;
    forall i | 0 <= i < a && LineStart(text, i)
      ensures !StartsMarker(text[i..]) && !StartsHeader(text[i..])
    {
      LinePrefix(b, r, i, a);
      OrdinaryCut(freeze, b, r, i, lookback);
      Skim(freeze, text, i, lookback);
      if StartsMarker(text[i..]) {
        MarkerFits(freeze && !HasPartition(text[..i]), text[i..], lookback);
        NewlinePrefix(b[i..], r);
        MarkerPrefix(b[i..], r);
      }
    }
  }

  lemma {:induction false} MarkerFits(freeze: bool, text: string, lookback: nat)
    requires Stable(freeze, text, lookback) && StartsMarker(text)
    ensures MarkerLength(text) <= Newline(text, 0) + 1 + lookback
  {
    hide MarkerLength;
  }

  // --- A partition seen early turns freeze off all the same -------------------------------------

  lemma {:induction false} StableWithoutFreeze(text: string, lookback: nat)
    requires Stable(true, text, lookback)
    ensures Stable(false, text, lookback)
    decreases |text|
  {
    hide HasPartition, MarkerLength, HeaderTable, MentionsPartition;
    var n := Newline(text, 0);
    if StartsMarker(text) || n == |text| {
    } else if HeaderTable(text[..n]).Some? {
      var rest := text[n..];
      var e := Find(rest, COPY_END, 0);
      if e >= 0 {
        StableWithoutFreeze(rest[e + 4..], lookback);
      }
    } else if !HasPartition(text[..n + 1]) {
      StableWithoutFreeze(text[n + 1..], lookback);
    }
  }

  lemma {:induction false} MentionsPrefix(b: string, r: string)
    requires MentionsPartition(b)
    ensures MentionsPartition(b + r)
  {
    var i :| 0 <= i < |b| && PartitionWords(b, i);
    assert b[i..i + 12] == (b + r)[i..i + 12];
    assert PartitionWords(b + r, i);
  }

  /** Without a header to freeze, freeze on or off is the same. */
  lemma {:induction false} NothingToFreeze(text: string)
    requires !Freezes(text)
    ensures Ideal(true, text) == Ideal(false, text)
    decreases |text|
  {
    hide HasPartition, MarkerLength, HeaderTable;
    var n := Newline(text, 0);
    if !StartsMarker(text) && n < |text| && !HasPartition(text[..n + 1]) {
      NothingToFreeze(text[n + 1..]);
    }
  }

  /** A first line that mentions a partition spends the freeze: it is no header, and nothing is frozen later. */
  lemma {:induction false} FirstLineSpends(text: string, lookback: nat)
    requires Stable(true, text, lookback) && !StartsMarker(text) && Newline(text, 0) < |text|
    requires MentionsPartition(text[..Newline(text, 0)])
    requires MentionsPartition(text[..Newline(text, 0) + 1])
    ensures Ideal(true, text) == Ideal(false, text)
  {
    hide HasPartition, MarkerLength, HeaderTable, MentionsPartition, Freezes, IdealCopy, StableCopy;
    var n := Newline(text, 0);
    if !HasPartition(text[..n + 1]) {
      NothingToFreeze(text[n + 1..]);
    }
  }

  /** A line that is no header passes the freeze on, or spends it. */
  lemma {:induction false} LinePasses(text: string, lookback: nat)
    requires Stable(true, text, lookback) && !StartsMarker(text) && !StartsHeader(text) && Newline(text, 0) < |text|
    ensures var line, rest := text[..Newline(text, 0) + 1], text[Newline(text, 0) + 1..];
      && (HasPartition(line) || MentionsPartition(line) || Ideal(true, rest) == Ideal(false, rest) ==>
            Ideal(true, text) == Ideal(false, text))
      && (!HasPartition(line) ==> Stable(true, rest, lookback))
  {
    hide HasPartition, MarkerLength, HeaderTable, MentionsPartition, Freezes, IdealCopy, StableCopy;
    var n := Newline(text, 0);
    if MentionsPartition(text[..n + 1]) && !HasPartition(text[..n + 1]) {
      NothingToFreeze(text[n + 1..]);
    }
  }

  lemma {:induction false} FreezeSpent(b: string, r: string, lookback: nat)
    requires MentionsPartition(b) && NoHeaderLine(b, |b| + 1) && Stable(true, b + r, lookback)
    ensures Ideal(true, b + r) == Ideal(false, b + r) && Stable(false, b + r, lookback)
    decreases |b|
  {
    hide HasPartition, StartsMarker, StartsHeader, MentionsPartition, Ideal, Stable;
    var text := b + r;
    StableWithoutFreeze(text, lookback);
    var n := Newline(text, 0);
    if StartsMarker(text) || n == |text| {
      NoMoreLines(text);
    } else if n < |b| {
      var rest := b[n + 1..];
      assert b[n] == '\n' && b[0..] == b && LineStart(b, 0);
      LinePrefix(b, r, 0, n + 1);
      assert text[n + 1..] == rest + r && text[..n + 1] + rest == b && text[0..] == text;
      PartitionSplit(text[..n + 1], rest);
      LinePasses(text, lookback);
      if !HasPartition(text[..n + 1]) && !MentionsPartition(text[..n + 1]) {
        NoHeaderRest(b, n + 1);
        FreezeSpent(rest, r, lookback);
      }
    } else {
      assert text[..n] == b + r[..n - |b|] && text[..n + 1] == b + r[..n + 1 - |b|];
      MentionsPrefix(b, r[..n - |b|]);
      MentionsPrefix(b, r[..n + 1 - |b|]);
      FirstLineSpends(text, lookback);
    }
  }

  lemma {:induction false} NoMoreLines(text: string)
    requires StartsMarker(text) || Newline(text, 0) == |text|
    ensures Ideal(true, text) == Ideal(false, text)
  {
  }

  lemma {:induction false} NoHeaderRest(b: string, a: nat)
    requires NoHeaderLine(b, |b| + 1) && LineStart(b, a)
    ensures NoHeaderLine(b[a..], |b[a..]| + 1)
  {
    hide StartsHeader;
    var rest := b[a..];
    assert forall i :: 0 <= i <= |rest| ==> rest[i..] == b[a + i..];
    assert forall i :: 0 <= i <= |rest| && LineStart(rest, i) ==> LineStart(b, a + i);
  }

  // --- One turn, one call, one run against the whole dump -----------------------------------------

  ghost predicate Open(s: State) {
    s.postData.None? && !s.passthrough
  }

  /** What the remaining text becomes, from the splitter's current mode. */
  function Whole(s: State, text: string): Outcome {
    if s.inCopy then IdealCopy(s.freeze, s.frozenCopy, text) else Ideal(s.freeze, text)
  }

  predicate Steady(s: State, text: string, lookback: nat) {
    if s.inCopy then StableCopy(s.freeze, text, lookback) else Stable(s.freeze, text, lookback)
  }

  /** The same, counting what the splitter holds back. */
  function After(s: State, text: string): Outcome {
    if s.postData.Some? then Outcome("", Some(s.postData.value + text)) else Whole(s, s.pending + text)
  }

  predicate SteadyAfter(s: State, text: string, lookback: nat) {
    s.postData.Some? || Steady(s, s.pending + text, lookback)
  }

  lemma {:induction false} NothingToSplit(freeze: bool, text: string)
    requires NoHeaderLine(text, |text| + 1) && NoMarkerLine(text, |text| + 1)
    ensures Ideal(freeze, text) == Outcome(text, None)
    decreases |text|
  {
    hide HasPartition, StartsMarker, StartsHeader, NoHeaderLine, NoMarkerLine, IdealCopy;
    var n := Newline(text, 0);
    FirstLineIsPlain(text);
    if n < |text| {
      var rest := text[n + 1..];
      NoneInTheRest(text, n);
      NothingToSplit(freeze && !HasPartition(text[..n + 1]), rest);
      assert text[..n + 1] + rest == text;
    }
  }

  lemma {:induction false} FirstLineIsPlain(text: string)
    requires NoHeaderLine(text, |text| + 1) && NoMarkerLine(text, |text| + 1)
    ensures !StartsMarker(text)
    ensures Newline(text, 0) < |text| ==> HeaderTable(text[..Newline(text, 0)]).None?
  {
    hide MarkerLength, HeaderTable;
    assert text[0..] == text && LineStart(text, 0);
    assert !StartsHeader(text);
  }

  lemma {:induction false} NoneInTheRest(text: string, n: nat)
    requires NoHeaderLine(text, |text| + 1) && NoMarkerLine(text, |text| + 1)
    requires n < |text| && text[n] == '\n'
    ensures NoHeaderLine(text[n + 1..], |text[n + 1..]| + 1) && NoMarkerLine(text[n + 1..], |text[n + 1..]| + 1)
  {
    hide StartsMarker, StartsHeader;
    var rest := text[n + 1..];
    forall i | 0 <= i <= |rest| && LineStart(rest, i) ensures !StartsHeader(rest[i..]) && !StartsMarker(rest[i..]) {
      assert LineStart(text, n + 1 + i) && rest[i..] == text[n + 1 + i..];
    }
  }

  /** What a turn must achieve on the remaining text `buffer + r`. */
  ghost predicate TurnAgrees(s: State, buffer: string, r: string, t: Turn, lookback: nat) {
    && t.state.passthrough == s.passthrough
    && (t.state.frozenCopy ==> t.state.inCopy)
    && if t.state.postData.Some? then
         && !t.more && t.rest == "" && StartsMarker(t.state.postData.value)
         && Whole(s, buffer + r) == Outcome(Render(t.pieces), Some(t.state.postData.value + r))
       else
         && Whole(s, buffer + r) == Prepend(Render(t.pieces), Whole(t.state, t.rest + r))
         && Steady(t.state, t.rest + r, lookback)
         && (!t.more ==> Whole(t.state, t.rest) == Outcome(t.rest, None))
  }

  lemma {:induction false} FindSuffix(text: string, keep: nat, p: string)
    requires keep <= |text| && (Find(text, p, 0) >= 0 ==> Find(text, p, 0) >= keep)
    ensures Find(text, p, 0) < 0 ==> Find(text[keep..], p, 0) < 0
    ensures Find(text, p, 0) >= 0 ==> Find(text[keep..], p, 0) == Find(text, p, 0) - keep
  {
    forall k: nat ensures At(text[keep..], k, p) <==> At(text, keep + k, p) {
      if keep + k + |p| <= |text| {
        assert text[keep..][k..k + |p|] == text[keep + k..keep + k + |p|];
      }
    }
    assert forall k :: keep <= k ==> (At(text, k, p) <==> At(text[keep..], k - keep, p));
    if Find(text, p, 0) >= 0 {
      assert At(text[keep..], Find(text, p, 0) - keep, p);
    }
  }

  lemma {:induction false} CopySkim(freeze: bool, frozen: bool, text: string, keep: nat, lookback: nat)
    requires keep <= |text| && (Find(text, COPY_END, 0) >= 0 ==> Find(text, COPY_END, 0) >= keep)
    ensures IdealCopy(freeze, frozen, text) == Prepend(text[..keep], IdealCopy(freeze, frozen, text[keep..]))
    ensures StableCopy(freeze, text, lookback) ==> StableCopy(freeze, text[keep..], lookback)
  {
    hide Ideal, Stable, PieceText, Find, Prepend;
    var rest := text[keep..];
    var e := Find(text, COPY_END, 0);
    FindSuffix(text, keep, COPY_END);
    if e < 0 {
      PrependAll(text, keep);
    } else {
      var tail := if frozen then PieceText(Commit) else "";
      var block := rest[..e - keep + 4];
      assert text[..keep] + block == text[..e + 4] && rest[e - keep + 4..] == text[e + 4..];
      assert text[..keep] + (block + tail) == text[..e + 4] + tail;
      assert block + "" == block && text[..e + 4] + "" == text[..e + 4];
      PrependTwice(text[..keep], block + tail, Ideal(freeze, text[e + 4..]));
    }
  }

  lemma {:induction false} PrependAll(text: string, keep: nat)
    requires keep <= |text|
    ensures Prepend(text[..keep], Outcome(text[keep..], None)) == Outcome(text, None)
  {
    assert text[..keep] + text[keep..] == text;
  }

  lemma {:induction false} CopyTurnAgrees(s: State, buffer: string, r: string, lookback: nat)
    requires s.inCopy && Open(s) && Steady(s, buffer + r, lookback)
    ensures TurnAgrees(s, buffer, r, CopyTurn(s, buffer), lookback)
  {
    hide Ideal, Stable, PieceText, StartsMarker, Render, Find;
    var text := buffer + r;
    FindPrefix(buffer, r, COPY_END);
    var e := Find(buffer, COPY_END, 0);
    if e < 0 {
      hide IdealCopy, StableCopy;
      var keep := if |buffer| > 3 then |buffer| - 3 else 0;
      RenderRaw(buffer[..keep]);
      assert text[keep..] == buffer[keep..] + r && text[..keep] == buffer[..keep];
      CopySkim(s.freeze, s.frozenCopy, text, keep, lookback);
      CopyRemains(s.freeze, s.frozenCopy, buffer, keep);
    } else {
      RenderRaw(buffer[..e + 4]);
      assert text[..e + 4] == buffer[..e + 4] && text[e + 4..] == buffer[e + 4..] + r;
      if s.frozenCopy {
        RenderConcat([Raw(buffer[..e + 4])], [Commit]);
        RenderOne(Commit);
        assert [Raw(buffer[..e + 4])] + [Commit] == [Raw(buffer[..e + 4]), Commit];
      }
    }
  }

  lemma {:induction false} CopyRemains(freeze: bool, frozen: bool, buffer: string, keep: nat)
    requires keep <= |buffer| && Find(buffer, COPY_END, 0) < 0
    ensures IdealCopy(freeze, frozen, buffer[keep..]) == Outcome(buffer[keep..], None)
  {
    FindSuffix(buffer, keep, COPY_END);
  }

  lemma {:induction false} StatementTurnAgrees(s: State, buffer: string, r: string, lookback: nat)
    requires buffer != "" && !s.inCopy && !s.frozenCopy && Open(s) && Steady(s, buffer + r, lookback)
    ensures TurnAgrees(s, buffer, r, StatementTurn(s, buffer, lookback), lookback)
  {
    hide Ideal, Stable, IdealCopy, StableCopy, Look, HasPartition, Render, StartsMarker;
    match Look(buffer, lookback)
    case PostData(p) =>
      PostDataFound(s.freeze, buffer, r, lookback);
      RenderRaw(buffer[..p]);
    case Copy(c, e) =>
      HeaderFound(s.freeze, buffer, r, lookback);
      var header, table := buffer[c..e], HeaderTable(buffer[c..e]).value;
      var freeze := s.freeze && !HasPartition(Statements(buffer));
      RenderRaw(buffer[..c]);
      RenderHeader(header, table, freeze);
      RenderConcat([Raw(buffer[..c])], HeaderPieces(header, table, freeze));
    case Nothing(cut) =>
      NothingFound(s.freeze, buffer, r, lookback);
      RenderRaw(buffer[..cut]);
  }

  lemma {:induction false} NoHeaderInStatements(buffer: string, a: nat)
    requires a <= |Statements(buffer)|
    ensures NoHeaderLine(Statements(buffer), a)
    ensures FirstHeader(buffer) < 0 ==> NoHeaderLine(buffer, |buffer| + 1)
  {
    hide StartsHeader;
    var st := Statements(buffer);
    forall i | 0 <= i < a && LineStart(st, i) ensures !StartsHeader(st[i..]) {
      assert buffer[i..] == st[i..] + buffer[|st|..];
      HeaderGrows(st[i..], buffer[|st|..]);
    }
  }

  lemma {:induction false} HeaderGrows(b: string, r: string)
    ensures StartsHeader(b) ==> StartsHeader(b + r)
  {
    if StartsHeader(b) {
      HeaderPrefix(b, r);
    }
  }

  lemma {:induction false} PostDataLooked(buffer: string, lookback: nat)
    requires Look(buffer, lookback).PostData?
    ensures var p, st := Look(buffer, lookback).p, Statements(buffer);
            p <= |st| && LineStart(st, p) && StartsMarker(st[p..]) && NoMarkerLine(st, p) && NoHeaderLine(st, p)
  {
    hide StartsMarker, StartsHeader, Statements;
    NoHeaderInStatements(buffer, Look(buffer, lookback).p);
  }

  lemma {:induction false} PostDataFound(freeze: bool, buffer: string, r: string, lookback: nat)
    requires Stable(freeze, buffer + r, lookback) && Look(buffer, lookback).PostData?
    ensures var p := Look(buffer, lookback).p;
            && StartsMarker(buffer[p..])
            && Ideal(freeze, buffer + r) == Outcome(buffer[..p], Some(buffer[p..] + r))
  {
    hide HasPartition, HeaderTable, StartsHeader, MarkerLength, Stable, Look, Statements;
    var text := buffer + r;
    var p := Look(buffer, lookback).p;
    var st := Statements(buffer);
    PostDataLooked(buffer, lookback);
    var tail := text[|st|..];
    assert text == st + tail && text[p..] == st[p..] + tail && text[p..] == buffer[p..] + r;
    assert buffer[p..] == st[p..] + buffer[|st|..];
    MarkerPrefix(st[p..], tail);
    MarkerPrefix(st[p..], buffer[|st|..]);
    OrdinaryBefore(st, tail, p);
    Skim(freeze, text, p, lookback);
    assert text[..p] + "" == buffer[..p];
  }

  lemma {:induction false} HeaderLooked(buffer: string, lookback: nat)
    requires Look(buffer, lookback).Copy?
    ensures var Copy(c, e) := Look(buffer, lookback);
            && Statements(buffer) == buffer[..c] && LineStart(buffer[..c], c)
            && StartsHeader(buffer[c..]) && e == c + Newline(buffer[c..], 0)
            && NoMarkerLine(buffer[..c], c) && NoHeaderLine(buffer[..c], c)
  {
    hide StartsMarker, StartsHeader;
    NoHeaderInStatements(buffer, Look(buffer, lookback).c);
  }

  lemma {:induction false} HeaderFound(freeze: bool, buffer: string, r: string, lookback: nat)
    requires Stable(freeze, buffer + r, lookback) && Look(buffer, lookback).Copy?
    ensures var Copy(c, e) := Look(buffer, lookback);
            var freeze' := freeze && !HasPartition(Statements(buffer));
            var header := buffer[c..e];
            && Ideal(freeze, buffer + r)
               == Prepend(buffer[..c] + (if freeze' then FrozenHeader(header, HeaderTable(header).value) else header),
                          IdealCopy(freeze', freeze', buffer[e..] + r))
            && StableCopy(freeze', buffer[e..] + r, lookback)
  {
    hide HasPartition, HeaderTable, StartsHeader, StartsMarker, Stable, Ideal, IdealCopy, StableCopy, Look, Statements,
         FrozenHeader;
    var text := buffer + r;
    var Copy(c, e) := Look(buffer, lookback);
    HeaderLooked(buffer, lookback);
    var tail := buffer[c..] + r;
    assert text == buffer[..c] + tail && text[c..] == tail && text[..c] == buffer[..c];
    HeaderGrows(buffer[c..], r);
    OrdinaryBefore(buffer[..c], tail, c);
    Skim(freeze, text, c, lookback);
    HeaderLine(freeze && !HasPartition(buffer[..c]), buffer[c..], r, lookback);
    assert buffer[c..][..e - c] == buffer[c..e] && buffer[c..][e - c..] == buffer[e..];
  }

  lemma {:induction false} HeaderLine(freeze: bool, b: string, r: string, lookback: nat)
    requires StartsHeader(b) && Stable(freeze, b + r, lookback)
    ensures var n := Newline(b, 0);
            var header := if freeze then FrozenHeader(b[..n], HeaderTable(b[..n]).value) else b[..n];
            && Ideal(freeze, b + r) == Prepend(header, IdealCopy(freeze, freeze, b[n..] + r))
            && StableCopy(freeze, b[n..] + r, lookback)
  {
    hide HeaderTable, IdealCopy, StableCopy, FrozenHeader, MarkerLength;
    NewlinePrefix(b, r);
    HeaderGrows(b, r);
    var n := Newline(b, 0);
    assert (b + r)[n..] == b[n..] + r;
    FirstLetter(b + r);
  }

  lemma {:induction false} NothingLooked(buffer: string, lookback: nat)
    requires Look(buffer, lookback).Nothing?
    ensures var cut := Look(buffer, lookback).cut;
            && Statements(buffer) == buffer && cut <= |buffer| && LineStart(buffer, cut)
            && (cut > 0 ==> cut + lookback <= |buffer|)
            && NoMarkerLine(buffer, |buffer| + 1) && NoHeaderLine(buffer, |buffer| + 1)
  {
    hide StartsMarker, StartsHeader;
    NoHeaderInStatements(buffer, |Statements(buffer)|);
  }

  lemma {:induction false} NoLinesRest(b: string, a: nat)
    requires NoMarkerLine(b, |b| + 1) && NoHeaderLine(b, |b| + 1) && LineStart(b, a)
    ensures NoMarkerLine(b[a..], |b[a..]| + 1) && NoHeaderLine(b[a..], |b[a..]| + 1)
  {
    hide StartsMarker, StartsHeader;
    var rest := b[a..];
    assert forall i :: 0 <= i <= |rest| ==> rest[i..] == b[a + i..];
    assert forall i :: 0 <= i <= |rest| && LineStart(rest, i) ==> LineStart(b, a + i);
  }

  lemma {:induction false} NothingFound(freeze: bool, buffer: string, r: string, lookback: nat)
    requires Stable(freeze, buffer + r, lookback) && Look(buffer, lookback).Nothing?
    ensures var cut := Look(buffer, lookback).cut;
            var freeze' := freeze && !HasPartition(Statements(buffer));
            && Ideal(freeze, buffer + r) == Prepend(buffer[..cut], Ideal(freeze', buffer[cut..] + r))
            && Stable(freeze', buffer[cut..] + r, lookback)
            && Ideal(freeze', buffer[cut..]) == Outcome(buffer[cut..], None)
  {
    hide HasPartition, StartsHeader, StartsMarker, Stable, Ideal, Look, Statements, MentionsPartition;
    var text := buffer + r;
    var cut := Look(buffer, lookback).cut;
    NothingLooked(buffer, lookback);
    var kept := buffer[cut..];
    assert text[cut..] == kept + r && text[..cut] == buffer[..cut] && buffer == buffer[..cut] + kept;
    OrdinaryCut(freeze, buffer, r, cut, lookback);
    assert LineStart(text, cut);
    Skim(freeze, text, cut, lookback);
    NoLinesRest(buffer, cut);
    NothingToSplit(freeze && !HasPartition(buffer), kept);
    PartitionSplit(buffer[..cut], kept);
    if freeze && !HasPartition(buffer[..cut]) && HasPartition(kept) {
      PartitionIsMentioned(kept);
      FreezeSpent(kept, r, lookback);
    }
  }

  lemma {:induction false} PartitionIsMentioned(s: string)
    requires HasPartition(s)
    ensures MentionsPartition(s)
  {
    var i :| 0 <= i < |s| && PartitionAt(s, i);
    assert PartitionWords(s, i);
  }

  /** What a call must achieve: same outcome for the rest, and nothing left to find in what is held. */
  ghost predicate Settled(s: State) {
    && (s.postData.Some? ==> StartsMarker(s.postData.value) && !s.passthrough)
    && (s.frozenCopy ==> s.inCopy)
    && (Open(s) ==> Whole(s, s.pending) == Outcome(s.pending, None))
  }

  lemma {:induction false} PumpAgrees(s: State, buffer: string, r: string, lookback: nat)
    requires Open(s) && (s.frozenCopy ==> s.inCopy) && Steady(s, buffer + r, lookback)
    ensures var (s', pieces) := Pumped(s, buffer, lookback);
            && Settled(s') && !s'.passthrough && SteadyAfter(s', r, lookback)
            && Whole(s, buffer + r) == Prepend(Render(pieces), After(s', r))
    decreases |buffer|
  {
    hide CopyTurn, StatementTurn, Ideal, Stable, IdealCopy, StableCopy, StartsMarker, Render;
    if buffer == "" {
      PumpedAfterStart(s, buffer, lookback);
      NothingLeft(s);
      assert buffer + r == r;
    } else {
      if s.inCopy {
        CopyTurnAgrees(s, buffer, r, lookback);
      } else {
        StatementTurnAgrees(s, buffer, r, lookback);
      }
      var t := Turned(s, buffer, lookback);
      if t.more {
        PumpAgrees(t.state, t.rest, r, lookback);
        var rest := Pumped(t.state, t.rest, lookback);
        RenderConcat(t.pieces, rest.1);
        PrependTwice(Render(t.pieces), Render(rest.1), After(rest.0, r));
      }
    }
  }

  lemma {:induction false} NothingLeft(s: State)
    ensures Whole(s, "") == Outcome("", None)
  {
    FirstLetter("");
  }

  lemma {:induction false} FeedAgrees(s: State, chunk: string, r: string, lookback: nat, maxPostData: nat)
    requires Settled(s) && !s.passthrough && SteadyAfter(s, chunk + r, lookback)
    requires s.postData.Some? ==> |s.postData.value + chunk| <= maxPostData
    ensures var (s', pieces) := Fed(s, chunk, lookback, maxPostData);
            && Settled(s') && !s'.passthrough && SteadyAfter(s', r, lookback)
            && After(s, chunk + r) == Prepend(Render(pieces), After(s', r))
  {
    hide Ideal, Stable, IdealCopy, StableCopy, Pumped, MarkerLength;
    if s.postData.Some? {
      MarkerPrefix(s.postData.value, chunk);
      assert s.postData.value + chunk + r == s.postData.value + (chunk + r);
    } else {
      assert s.pending + chunk + r == s.pending + (chunk + r);
      PumpAgrees(s, s.pending + chunk, r, lookback);
    }
  }

  ghost predicate PostDataFits(o: Outcome, maxPostData: nat) {
    o.post.Some? ==> |o.post.value| <= maxPostData
  }

  lemma {:induction false} RunAgrees(s: State, chunks: seq<string>, r: string, lookback: nat, maxPostData: nat)
    requires Settled(s) && !s.passthrough && SteadyAfter(s, Concat(chunks) + r, lookback)
    requires PostDataFits(After(s, Concat(chunks) + r), maxPostData)
    ensures var (s', pieces) := Run(s, chunks, lookback, maxPostData);
            && Settled(s') && !s'.passthrough && SteadyAfter(s', r, lookback)
            && After(s, Concat(chunks) + r) == Prepend(Render(pieces), After(s', r))
    decreases |chunks|
  {
    hide After, SteadyAfter, Settled, Fed, Render;
    if chunks == [] {
      assert "" + r == r;
      assert Render([]) == "" by { PumpedAfterStart(s, "", lookback); }
    } else {
      var tail := Concat(chunks[1..]) + r;
      assert Concat(chunks) + r == chunks[0] + tail;
      HeldPostDataFits(s, chunks[0], tail, maxPostData);
      FeedAgrees(s, chunks[0], tail, lookback, maxPostData);
      var first := Fed(s, chunks[0], lookback, maxPostData);
      RunAgrees(first.0, chunks[1..], r, lookback, maxPostData);
      var rest := Run(first.0, chunks[1..], lookback, maxPostData);
      RenderConcat(first.1, rest.1);
      PrependTwice(Render(first.1), Render(rest.1), After(rest.0, r));
    }
  }

  lemma {:induction false} HeldPostDataFits(s: State, chunk: string, tail: string, maxPostData: nat)
    requires PostDataFits(After(s, chunk + tail), maxPostData)
    ensures s.postData.Some? ==> |s.postData.value + chunk| <= maxPostData
  {
  }

  // --- The main results ---------------------------------------------------------------------------

  /** All that was sent, the end of the dump included, and the post-data left aside. */
  function Split(freeze: bool, chunks: seq<string>, lookback: nat, maxPostData: nat): Outcome {
    var (s, pieces) := Run(Initial(freeze), chunks, lookback, maxPostData);
    Outcome(Render(pieces) + s.pending, s.postData)
  }

  lemma {:induction false} InitialSettled(freeze: bool, text: string)
    ensures Settled(Initial(freeze)) && After(Initial(freeze), text) == Ideal(freeze, text)
  {
    NothingLeft(Initial(freeze));
    assert "" + text == text;
  }

  /** However the dump is cut into chunks, exactly the line-by-line outcome comes out. */
  lemma {:induction false} ChunksDoNotMatter(freeze: bool, chunks: seq<string>, lookback: nat, maxPostData: nat)
    requires Stable(freeze, Concat(chunks), lookback)
    requires PostDataFits(Ideal(freeze, Concat(chunks)), maxPostData)
    ensures Split(freeze, chunks, lookback, maxPostData) == Ideal(freeze, Concat(chunks))
  {
    hide Ideal, Stable, Settled, Run, Render;
    var text, s := Concat(chunks), Initial(freeze);
    assert text + "" == text && "" + text == text;
    InitialSettled(freeze, text);
    RunAgrees(s, chunks, "", lookback, maxPostData);
    RunConserves(s, chunks, lookback, maxPostData);
    var (s', pieces) := Run(s, chunks, lookback, maxPostData);
    SettledOutcome(s');
    assert Render(pieces) + "" == Render(pieces);
  }

  lemma {:induction false} SettledOutcome(s: State)
    requires Settled(s) && !s.passthrough
    ensures s.postData.None? ==> After(s, "") == Outcome(s.pending, None)
    ensures s.postData.Some? ==> After(s, "") == Outcome("", s.postData)
  {
    hide Ideal, IdealCopy, StartsMarker;
    assert s.pending + "" == s.pending;
    if s.postData.Some? {
      assert s.postData.value + "" == s.postData.value;
    }
  }
}
