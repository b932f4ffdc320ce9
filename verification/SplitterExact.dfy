/** Exactly which dumps are split the same way whatever their chunks, freeze on or off. */
module SplitterExact {
  import opened Text
  import opened DumpSplitter
  import opened DumpSplitterSpec
  import opened DumpSplitterProofs
  import opened ChunkIndependence
  import opened SplitterLimits

  // --- The two conditions ---------------------------------------------------------------------------------

  /** With freeze on: the words PARTITION BY and PARTITION OF run into a longer word neither in a COPY header that
      is frozen nor in a line before one. Seen alone at the end of a chunk, they would spend the freeze. */
  predicate FreezeIsSafe(text: string)
    decreases |text|
  {
    var n := Newline(text, 0);
    StartsMarker(text) || n == |text|
    || if HeaderTable(text[..n]).Some? then
         var e := Find(text[n..], COPY_END, 0);
         !MentionsPartition(text[..n]) && (e >= 0 ==> FreezeIsSafe(text[n..][e + 4..]))
       else
         HasPartition(text[..n + 1])
         || ((MentionsPartition(text[..n + 1]) ==> !Freezes(text[n + 1..])) && FreezeIsSafe(text[n + 1..]))
  }

  lemma {:induction false} StableMeans(text: string, lookback: nat)
    ensures Stable(true, text, lookback) <==> FreezeIsSafe(text) && Stable(false, text, lookback)
    decreases |text|
  {
    hide HasPartition, MarkerLength, HeaderTable, MarkerTail, MentionsPartition, Freezes;
    var n := Newline(text, 0);
    if !StartsMarker(text) && n < |text| {
      if HeaderTable(text[..n]).Some? {
        var e := Find(text[n..], COPY_END, 0);
        if e >= 0 {
          StableMeans(text[n..][e + 4..], lookback);
        }
      } else {
        StableMeans(text[n + 1..], lookback);
      }
    }
  }

  /** What can be lost is a block that is frozen. */
  lemma {:induction false} UnsafeFreezes(text: string)
    requires !FreezeIsSafe(text)
    ensures Freezes(text)
    decreases |text|
  {
    hide HasPartition, MarkerLength, HeaderTable, MentionsPartition;
    var n := Newline(text, 0);
    if HeaderTable(text[..n]).None? && !FreezeIsSafe(text[n + 1..]) {
      UnsafeFreezes(text[n + 1..]);
    }
  }

  // --- How much is inserted -------------------------------------------------------------------------------

  function Size(o: Outcome): nat {
    |o.sent| + if o.post.Some? then |o.post.value| else 0
  }

  lemma {:induction false} PrependSize(head: string, o: Outcome)
    ensures Size(Prepend(head, o)) == |head| + Size(o)
  {
  }

  lemma {:induction false} FrozenIsLonger(header: string, table: string)
    requires |header| >= |FROM_STDIN|
    ensures |FrozenHeader(header, table)| > |header|
  {
  }

  lemma {:induction false} HeaderIsLong(line: string)
    ensures HeaderTable(line).Some? ==> |line| >= |FROM_STDIN|
  {
  }

  lemma {:induction false} NothingIsDropped(freeze: bool, text: string)
    ensures Size(Ideal(freeze, text)) >= |text|
    ensures freeze && Freezes(text) ==> Size(Ideal(freeze, text)) > |text|
    decreases |text|, 1
  {
    hide HasPartition, MarkerLength, HeaderTable, FrozenHeader, IdealCopy;
    var n := Newline(text, 0);
    if !StartsMarker(text) && n < |text| {
      if HeaderTable(text[..n]).Some? {
        BlockDropsNothing(freeze, freeze, text[n..]);
        HeaderIsLong(text[..n]);
        FrozenIsLonger(text[..n], HeaderTable(text[..n]).value);
      } else {
        NothingIsDropped(freeze && !HasPartition(text[..n + 1]), text[n + 1..]);
      }
    }
  }

  lemma {:induction false} BlockDropsNothing(freeze: bool, frozen: bool, text: string)
    ensures Size(IdealCopy(freeze, frozen, text)) >= |text|
    decreases |text|, 0
  {
    hide Ideal, PieceText;
    var e := Find(text, COPY_END, 0);
    if e >= 0 {
      NothingIsDropped(freeze, text[e + 4..]);
    }
  }

  // --- A dump cut right after the words -------------------------------------------------------------------

  /** A continuation that brings out what the splitter makes of a beginning: an end of line, an ordinary line,
      and the post-data. */
  const MARKER := "CREATE INDEX "
  const AFTER := ";\n" + MARKER
  const PROBE := "\n" + AFTER

  lemma {:induction false} MarkerAlone(lookback: nat)
    ensures Ideal(false, MARKER) == Outcome("", Some(MARKER)) && Stable(false, MARKER, lookback)
  {
    assert At(MARKER, 0, "CREATE INDEX ") && MarkerLength(MARKER) == 13;
    assert MarkerTail(MARKER) == 0;
  }

  lemma {:induction false} SemicolonLine(rest: string, lookback: nat)
    ensures Ideal(false, ";\n" + rest) == Prepend(";\n", Ideal(false, rest))
    ensures Stable(false, ";\n" + rest, lookback) <==> Stable(false, rest, lookback)
  {
    hide StartsMarker, StartsHeader, HasPartition, MentionsPartition, Freezes;
    var t := ";\n" + rest;
    assert t[0] == ';' && t[1] == '\n';
    FirstLetter(t);
    assert Newline(t, 0) == 1;
    assert t[..2] == ";\n" && t[2..] == rest && HeaderTable(t[..1]).None?;
  }

  lemma {:induction false} ProbeEnds(lookback: nat)
    ensures Ideal(false, AFTER) == Outcome(";\n", Some(MARKER)) && Stable(false, AFTER, lookback)
  {
    hide Ideal, Stable;
    MarkerAlone(lookback);
    SemicolonLine(MARKER, lookback);
  }

  /** A marker does not end at a line end. */
  lemma {:induction false} MarkerEndsBlank(text: string)
    requires StartsMarker(text)
    ensures text[MarkerLength(text) - 1] == ' '
  {
    hide RunEnd;
    if At(text, 0, "CREATE INDEX ") {
      AtCharacters(text, 0, "CREATE INDEX ");
      assert text[12] == "CREATE INDEX "[12];
    } else if At(text, 0, "CREATE UNIQUE INDEX ") {
      AtCharacters(text, 0, "CREATE UNIQUE INDEX ");
      assert text[19] == "CREATE UNIQUE INDEX "[19];
    } else {
      var blank := MarkerLength(text) - 15;
      AtCharacters(text, blank, "ADD CONSTRAINT ");
      assert text[blank + 14] == "ADD CONSTRAINT "[14];
    }
  }

  /** After a line end inside a marker comes a blank or ADD CONSTRAINT. */
  lemma {:induction false} AfterLineEnd(text: string, k: nat)
    requires 0 < k < MarkerLength(text) && text[k - 1] == '\n'
    ensures IsSpace(text[k]) || text[k] == 'A'
  {
    hide MarkerLength, RunEnd, At;
    MarkerIsOneLineOrAlter(text, k);
    AtMeansRoom(text, 0, "ALTER TABLE ONLY ");
    var blank := RunEnd(text, RunEnd(text, 17, c => !IsSpace(c)), IsSpace);
    if k == blank {
      AtCharacters(text, blank, "ADD CONSTRAINT ");
      assert text[blank] == "ADD CONSTRAINT "[0];
    }
  }

  lemma {:induction false} StillNoMarker(text: string, p: nat)
    requires p <= |text| && !StartsMarker(text)
    ensures !StartsMarker(text[..p])
  {
    hide StartsMarker;
    assert text[..p] + text[p..] == text;
    if StartsMarker(text[..p]) {
      MarkerGrows(text[..p], text[p..]);
    }
  }

  lemma {:induction false} NoNewMarker(text: string, p: nat)
    requires p <= |text| && !StartsMarker(text)
    ensures !StartsMarker(text[..p] + PROBE)
  {
    hide MarkerLength;
    var u := text[..p] + PROBE;
    assert u[p] == '\n' && u[p + 1] == ';';
    MarkerPrefix(text[..p], PROBE);
    StillNoMarker(text, p);
    if MarkerLength(u) == p + 1 {
      MarkerEndsBlank(u);
    } else if MarkerLength(u) > p + 1 {
      AfterLineEnd(u, p + 1);
    }
  }

  /** The facts that tell a dump cut right after the words from the dump itself. */
  ghost predicate Loses(text: string, p: nat, lookback: nat) {
    && 12 <= p <= |text| && PartitionWords(text, p - 12)
    && Stable(true, text[..p] + PROBE, lookback)
    && Ideal(true, text[..p] + PROBE).post == Some(MARKER)
    && Size(Ideal(true, text[..p] + PROBE)) + |text| < Size(Ideal(true, text)) + p + |PROBE|
  }

  lemma {:induction false} WordsInside(s: string, i: nat)
    requires PartitionWords(s, i)
    ensures i + 12 <= |s| && s[i + 11] in "YF" && s[i + 10] in "BO" && s[i + 9] == ' '
    ensures forall k :: i <= k < i + 12 ==> s[k] != '\n' && s[k] != '\\'
  {
    var p := if At(s, i, "PARTITION BY") then "PARTITION BY" else "PARTITION OF";
    AtCharacters(s, i, p);
    assert s[i + 11] == p[11] && s[i + 10] == p[10] && s[i + 9] == p[9];
    assert forall k :: 0 <= k < 12 ==> p[k] != '\n' && p[k] != '\\';
    forall k | i <= k < i + 12 ensures s[k] != '\n' && s[k] != '\\' {
      assert s[k] == p[k - i];
    }
  }

  lemma {:induction false} HeaderEndsSo(line: string)
    requires HeaderTable(line).Some?
    ensures line != "" && line[|line| - 1] == ';'
  {
    AtCharacters(line, |line| - |FROM_STDIN|, FROM_STDIN);
    assert line[|line| - 1] == FROM_STDIN[|FROM_STDIN| - 1];
  }

  lemma {:induction false} LineSlices(first: string, after: string)
    requires forall k :: 0 <= k < |first| ==> first[k] != '\n'
    ensures var u := first + ("\n" + after);
      && Newline(u, 0) == |first| && u[..|first|] == first
      && u[..|first| + 1] == first + "\n" && u[|first| + 1..] == after
  {
    var u := first + ("\n" + after);
    assert u[|first|] == '\n' && forall k :: 0 <= k < |first| ==> u[k] == first[k];
  }

  /** Cut right after the words, the line is no header yet, and mentions a partition for good. */
  lemma {:induction false} CutLine(text: string, i: nat)
    requires PartitionWords(text, i) && i + 12 <= Newline(text, 0)
    ensures var first, u := text[..i + 12], text[..i + 12] + PROBE;
      && Newline(u, 0) == i + 12 && u[..i + 12] == first
      && u[..i + 13] == first + "\n" && u[i + 13..] == AFTER
      && HeaderTable(first).None? && HasPartition(first + "\n")
  {
    hide HeaderTable, PartitionWords, HasPartition;
    WordsInside(text, i);
    var first := text[..i + 12];
    LineSlices(first, AFTER);
    assert first[|first| - 1] == text[i + 11];
    if HeaderTable(first).Some? {
      HeaderEndsSo(first);
    }
    assert text == first + text[i + 12..];
    WordsStay(first, text[i + 12..], "\n", i);
  }

  lemma {:induction false} WordsStay(first: string, after: string, end: string, i: nat)
    requires |first| == i + 12 && PartitionWords(first + after, i) && end != "" && !IsWord(end[0])
    ensures HasPartition(first + end)
  {
    assert (first + after)[i..i + 12] == first[i..] && (first + end)[i..i + 12] == first[i..];
    assert PartitionAt(first + end, i);
  }

  /** A line that spends the freeze. */
  lemma {:induction false} SpentLine(text: string, n: nat, lookback: nat)
    requires n == Newline(text, 0) < |text| && !StartsMarker(text) && HeaderTable(text[..n]).None?
    requires HasPartition(text[..n + 1])
    ensures Ideal(true, text) == Prepend(text[..n + 1], Ideal(false, text[n + 1..]))
    ensures Stable(false, text[n + 1..], lookback) ==> Stable(true, text, lookback)
  {
    hide HeaderTable, MarkerLength, HasPartition, MentionsPartition, Freezes;
  }

  lemma {:induction false} LossHere(text: string, i: nat, lookback: nat)
    requires !StartsMarker(text) && PartitionWords(text, i) && i + 12 <= Newline(text, 0)
    requires Size(Ideal(true, text)) > |text|
    ensures Loses(text, i + 12, lookback)
  {
    hide HeaderTable, StartsMarker, HasPartition, PartitionWords, Ideal, Stable;
    var p := i + 12;
    var u := text[..p] + PROBE;
    NoNewMarker(text, p);
    CutLine(text, i);
    ProbeEnds(lookback);
    SpentLine(u, p, lookback);
    assert |u[..p + 1]| + |AFTER| == |u| && |AFTER| == 2 + |MARKER|;
  }

  /** A line that is no header and has no partition, whatever follows it. */
  lemma {:induction false} LineThrough(line: string, v: string, lookback: nat)
    requires line != "" && Newline(line, 0) == |line| - 1 && HeaderTable(line[..|line| - 1]).None?
    requires !HasPartition(line) && !MentionsPartition(line) && !StartsMarker(line + v)
    ensures Ideal(true, line + v) == Prepend(line, Ideal(true, v))
    ensures Stable(true, line + v, lookback) <==> Stable(true, v, lookback)
  {
    hide HeaderTable, MarkerLength, HasPartition, MentionsPartition, Freezes;
    var n := |line| - 1;
    NewlinePrefix(line, v);
    assert (line + v)[..n] == line[..n] && (line + v)[..n + 1] == line && (line + v)[n + 1..] == v;
  }

  /** A whole block. */
  predicate Block(b: string) {
    && StartsHeader(b)
    && Find(b[Newline(b, 0)..], COPY_END, 0) >= 0
    && Newline(b, 0) + Find(b[Newline(b, 0)..], COPY_END, 0) + 4 == |b|
  }

  function FrozenBlock(b: string): string
    requires Block(b)
  {
    var n := Newline(b, 0);
    HeaderIsLong(b[..n]);
    FrozenHeader(b[..n], HeaderTable(b[..n]).value) + (b[n..] + PieceText(Commit))
  }

  lemma {:induction false} BlockThrough(b: string, v: string, lookback: nat)
    requires Block(b)
    ensures Ideal(true, b + v) == Prepend(FrozenBlock(b), Ideal(true, v))
    ensures Stable(true, b + v, lookback) <==> !MentionsPartition(b[..Newline(b, 0)]) && Stable(true, v, lookback)
  {
    hide HeaderTable, MarkerLength, HasPartition, MentionsPartition, FrozenHeader, Find, Prepend, PieceText;
    var text, n := b + v, Newline(b, 0);
    NewlinePrefix(b, v);
    HeaderGrows(b, v);
    FirstLetter(text);
    assert text[..n] == b[..n] && text[n..] == b[n..] + v;
    FindPrefix(b[n..], v, COPY_END);
    var e := Find(b[n..], COPY_END, 0);
    assert text[n..][..e + 4] == b[n..] && text[n..][e + 4..] == v;
    HeaderIsLong(b[..n]);
    PrependTwice(FrozenHeader(b[..n], HeaderTable(b[..n]).value), b[n..] + PieceText(Commit), Ideal(true, v));
  }

  lemma {:induction false} WordsBelow(head: string, rest: string, p: nat)
    requires (head == "" || head[|head| - 1] == '\n') && 12 <= p && PartitionWords(rest, p - 12)
    ensures PartitionWords(head + rest, |head| + p - 12)
  {
    WordsSplit(head, rest, |head| + p - 12);
  }

  /** What is lost below a beginning that only adds its own text is lost in the whole. */
  lemma {:induction false} LossBelow(head: string, added: string, rest: string, p: nat, lookback: nat)
    requires (head == "" || head[|head| - 1] == '\n') && Loses(rest, p, lookback)
    requires var u := rest[..p] + PROBE;
      && Ideal(true, head + rest) == Prepend(added, Ideal(true, rest))
      && Ideal(true, head + u) == Prepend(added, Ideal(true, u)) && Stable(true, head + u, lookback)
    ensures Loses(head + rest, |head| + p, lookback)
  {
    hide Ideal, Stable, PartitionWords, Size;
    var u := rest[..p] + PROBE;
    WordsBelow(head, rest, p);
    assert (head + rest)[..|head| + p] + PROBE == head + u;
    PrependSize(added, Ideal(true, rest));
    PrependSize(added, Ideal(true, u));
  }

  lemma {:induction false} FirstMention(text: string, n: nat) returns (i: nat)
    requires n <= |text| && MentionsPartition(text[..n])
    ensures i + 12 <= n && PartitionWords(text, i)
  {
    hide At;
    i :| 0 <= i < n && PartitionWords(text[..n], i);
    WordsInside(text[..n], i);
    assert text[..n] + text[n..] == text;
    AtPrefix(text[..n], text[n..], i, "PARTITION BY");
    AtPrefix(text[..n], text[n..], i, "PARTITION OF");
  }

  /** Where a dump that is not safe has to be cut. */
  lemma {:induction false} WhereToCut(text: string, lookback: nat) returns (p: nat)
    requires !FreezeIsSafe(text)
    ensures Loses(text, p, lookback)
    decreases |text|
  {
    hide Ideal, Stable, Loses, Freezes, HasPartition, MentionsPartition, HeaderTable, MarkerLength, Find;
    var n := Newline(text, 0);
    UnsafeFreezes(text);
    NothingIsDropped(true, text);
    if HeaderTable(text[..n]).Some? {
      if MentionsPartition(text[..n]) {
        var i := FirstMention(text, n);
        LossHere(text, i, lookback);
        p := i + 12;
      } else {
        var k := n + Find(text[n..], COPY_END, 0) + 4;
        var rest := text[k..];
        assert text[n..][k - n..] == rest;
        p := WhereToCut(rest, lookback);
        BlockLoses(text, n, k, p, lookback);
        p := k + p;
      }
    } else {
      var line, rest := text[..n + 1], text[n + 1..];
      if MentionsPartition(line) && Freezes(rest) {
        var i := FirstMention(text, n + 1);
        WordsInside(text, i);
        LossHere(text, i, lookback);
        p := i + 12;
      } else {
        p := WhereToCut(rest, lookback);
        UnsafeFreezes(rest);
        LineLoses(text, n, p, lookback);
        p := n + 1 + p;
      }
    }
  }

  lemma {:induction false} BlockLoses(text: string, n: nat, k: nat, p: nat, lookback: nat)
    requires n == Newline(text, 0) < |text| && HeaderTable(text[..n]).Some? && !MentionsPartition(text[..n])
    requires Find(text[n..], COPY_END, 0) >= 0 && k == n + Find(text[n..], COPY_END, 0) + 4
    requires Loses(text[k..], p, lookback)
    ensures Loses(text, k + p, lookback)
  {
    hide Ideal, Stable, MentionsPartition, HeaderTable, Find, FrozenBlock, PartitionWords;
    var b, rest := text[..k], text[k..];
    assert text == b + rest;
    WholeBlock(text, n, k);
    BlockThrough(b, rest, lookback);
    BlockThrough(b, rest[..p] + PROBE, lookback);
    LossBelow(b, FrozenBlock(b), rest, p, lookback);
  }

  lemma {:induction false} WholeBlock(text: string, n: nat, k: nat)
    requires n == Newline(text, 0) < |text| && HeaderTable(text[..n]).Some?
    requires Find(text[n..], COPY_END, 0) >= 0 && k == n + Find(text[n..], COPY_END, 0) + 4
    ensures k <= |text| && Block(text[..k]) && text[..k][k - 1] == '\n'
    ensures text[..k][..Newline(text[..k], 0)] == text[..n]
  {
    hide HeaderTable;
    var b, e := text[..k], k - n - 4;
    assert text == b + text[k..] && text[n..] == b[n..] + text[k..];
    FindPrefix(b[n..], text[k..], COPY_END);
    FirstNewline(text, n, k);
    AtCharacters(text[n..], e, COPY_END);
    assert text[n..][e + 3] == COPY_END[3];
  }

  lemma {:induction false} FirstNewline(text: string, n: nat, k: nat)
    requires n == Newline(text, 0) < k <= |text|
    ensures Newline(text[..k], 0) == n && text[..k][..n] == text[..n]
  {
    assert text[..k][n] == '\n';
  }

  lemma {:induction false} LineLoses(text: string, n: nat, p: nat, lookback: nat)
    requires n == Newline(text, 0) < |text| && HeaderTable(text[..n]).None? && !StartsMarker(text)
    requires !HasPartition(text[..n + 1]) && !MentionsPartition(text[..n + 1])
    requires Loses(text[n + 1..], p, lookback)
    ensures Loses(text, n + 1 + p, lookback)
  {
    hide Ideal, Stable, MentionsPartition, HeaderTable, HasPartition, StartsMarker, PartitionWords;
    var line, rest := text[..n + 1], text[n + 1..];
    var u := rest[..p] + PROBE;
    assert text == line + rest && text[..n + 1 + p] + PROBE == line + u;
    FirstNewline(text, n, n + 1);
    NoNewMarker(text, n + 1 + p);
    LineThrough(line, rest, lookback);
    LineThrough(line, u, lookback);
    LossBelow(line, line, rest, p, lookback);
  }

  // --- The splitter loses the freeze there ------------------------------------------------------------------

  /** Statement mode holds back whole lines from a line start on, and has looked at all of them. */
  lemma {:induction false} HeldIsLookedAt(s: State, buffer: string, lookback: nat)
    requires Open(s)
    ensures var s' := Pumped(s, buffer, lookback).0;
      s'.postData.None? && !s'.inCopy ==>
        && |s'.pending| <= |buffer| && LineStart(buffer, |buffer| - |s'.pending|)
        && (s.inCopy ==> |s'.pending| < |buffer|)
        && (s'.freeze ==> !HasPartition(s'.pending))
    decreases |buffer|
  {
    hide CopyTurn, StatementTurn, HasPartition;
    if buffer == "" {
      NoPartitionInNothing();
    } else {
      var t := Turned(s, buffer, lookback);
      if s.inCopy {
        CopyTurnEnds(s, buffer);
      } else {
        StatementTurnEnds(s, buffer, lookback);
      }
      if t.more {
        HeldIsLookedAt(t.state, t.rest, lookback);
      }
    }
  }

  lemma {:induction false} CopyTurnEnds(s: State, buffer: string)
    requires s.inCopy && Open(s)
    ensures var t := CopyTurn(s, buffer);
      && Open(t.state) && (!t.more ==> t.state.inCopy)
      && |t.rest| <= |buffer| && t.rest == buffer[|buffer| - |t.rest|..]
      && (t.more ==> LineStart(buffer, |buffer| - |t.rest|))
  {
    var e := Find(buffer, COPY_END, 0);
    if e >= 0 {
      AtCharacters(buffer, e, COPY_END);
      assert buffer[e + 3] == COPY_END[3];
    }
  }

  lemma {:induction false} StatementTurnEnds(s: State, buffer: string, lookback: nat)
    requires !s.inCopy && buffer != "" && Open(s)
    ensures var t := StatementTurn(s, buffer, lookback);
      && (t.more ==> Open(t.state) && t.state.inCopy)
      && |t.rest| <= |buffer| && t.rest == buffer[|buffer| - |t.rest|..]
      && (!t.more && t.state.postData.None? ==>
            LineStart(buffer, |buffer| - |t.rest|) && (t.state.freeze ==> !HasPartition(t.rest)))
  {
    hide HasPartition, Statements, HeaderPieces, HeaderTable, Look;
    match Look(buffer, lookback)
    case PostData(p) =>
    case Copy(c, e) =>
    case Nothing(cut) =>
      NothingLooked(buffer, lookback);
      PartitionKept(buffer, cut);
  }

  lemma {:induction false} PartitionKept(buffer: string, cut: nat)
    requires LineStart(buffer, cut)
    ensures HasPartition(buffer[cut..]) ==> HasPartition(buffer)
  {
    hide HasPartition;
    PartitionSplit(buffer[..cut], buffer[cut..]);
    assert buffer[..cut] + buffer[cut..] == buffer;
  }

  lemma {:induction false} EndHasABackslash(t: string, k: nat)
    requires At(t, k, COPY_END)
    ensures k + 1 < |t| && t[k + 1] == '\\'
  {
    AtCharacters(t, k, COPY_END);
    assert t[k + 1] == COPY_END[1];
  }

  lemma {:induction false} NoEndInside(held: string)
    requires forall k :: 0 <= k < |held| ==> held[k] != '\\'
    ensures Find(held + PROBE, COPY_END, 0) < 0
  {
    var t := held + PROBE;
    assert forall k :: 0 <= k < |PROBE| ==> PROBE[k] != '\\';
    assert forall k :: 0 <= k < |t| ==> t[k] != '\\';
    var e := Find(t, COPY_END, 0);
    if e >= 0 {
      EndHasABackslash(t, e);
    }
  }

  /** A beginning that ends with the words leaves the splitter in statement mode, its freeze spent. */
  lemma {:induction false} FreezeIsLost(text: string, p: nat, lookback: nat)
    requires Loses(text, p, lookback)
    ensures var (s, pieces) := Pumped(Initial(true), text[..p], lookback);
      && s.postData.None? && !s.inCopy && !s.freeze && !s.frozenCopy && !s.passthrough
      && Ideal(true, text[..p] + PROBE) == Prepend(Render(pieces), Ideal(false, s.pending + PROBE))
  {
    hide Ideal, IdealCopy, Stable, StableCopy, Pumped, Render, StartsMarker, PartitionWords, HasPartition, Erased,
         OpenAfter, Size;
    var first := text[..p];
    var (s, pieces) := Pumped(Initial(true), first, lookback);
    PumpAgrees(Initial(true), first, PROBE, lookback);
    PumpConserves(Initial(true), first, lookback);
    PumpIsTight(Initial(true), first, lookback);
    HeldIsLookedAt(Initial(true), first, lookback);
    WordsInside(text, p - 12);
    assert forall k :: 0 <= k < p ==> first[k] == text[k];
    if s.postData.None? {
      assert s.pending == first[p - |s.pending|..];
      if s.inCopy {
        InCopyHidesIt(s, first);
      } else if s.freeze {
        assert first + text[p..] == text;
        HeldWords(first, text[p..], s.pending);
      }
    }
  }

  lemma {:induction false} InCopyHidesIt(s: State, first: string)
    requires |s.pending| <= 3 <= 12 <= |first| && s.pending == first[|first| - |s.pending|..]
    requires forall k :: |first| - 12 <= k < |first| ==> first[k] != '\\'
    ensures IdealCopy(s.freeze, s.frozenCopy, s.pending + PROBE).post.None?
  {
    hide Ideal;
    NoEndInside(s.pending);
  }

  lemma {:induction false} HeldWords(first: string, after: string, held: string)
    requires |first| >= 12 && PartitionWords(first + after, |first| - 12)
    requires forall k :: |first| - 12 <= k < |first| ==> first[k] != '\n'
    requires |held| <= |first| && held == first[|first| - |held|..] && LineStart(first, |first| - |held|)
    ensures held != "" ==> HasPartition(held)
  {
    if held != "" {
      var q, i := |first| - |held|, |held| - 12;
      assert q <= |first| - 12;
      assert (first + after)[|first| - 12..|first|] == held[i..];
      assert PartitionAt(held, i);
    }
  }

  /** Cut there, the dump is split otherwise: a block that should be frozen is not. */
  lemma {:induction false} CutLosesTheFreeze(text: string, p: nat, lookback: nat, maxPostData: nat)
    requires Loses(text, p, lookback)
    ensures Concat([text[..p], text[p..]]) == text
    ensures Split(true, [text[..p], text[p..]], lookback, maxPostData) != Ideal(true, text)
  {
    hide Ideal, Stable, Pumped, Render, PartitionWords, Split, Erased, OpenAfter;
    var first, last := text[..p], text[p..];
    assert first + last == text;
    TwoChunks(true, first, last, lookback, maxPostData);
    FreezeIsLost(text, p, lookback);
    var (s1, p1) := Pumped(Initial(true), first, lookback);
    var (s2, p2) := Pumped(s1, s1.pending + last, lookback);
    PumpInsertsNothing(s1, s1.pending + last, lookback);
    PumpConserves(s1, s1.pending + last, lookback);
    PumpStaysOpen(s1, s1.pending + last, lookback);
    IdealConserves(s1.pending + PROBE);
    PrependSize(Render(p1), Ideal(false, s1.pending + PROBE));
    PumpConserves(Initial(true), first, lookback);
  }

  // --- The main result ------------------------------------------------------------------------------------

  /** Freeze on or off, post-data within the limit: every way of cutting the dump gives the line-by-line outcome if
      and only if its marker holds within the lookback after its first line and, with freeze, no partition words run
      into a longer word in or before a frozen block. */
  lemma {:induction false} ChunkIndependentIff(freeze: bool, text: string, lookback: nat, maxPostData: nat)
    requires 3 <= lookback && PostDataFits(Ideal(freeze, text), maxPostData)
    ensures MarkerFitsLookback(text, lookback) && (freeze ==> FreezeIsSafe(text))
            <==> forall chunks :: Concat(chunks) == text
                   ==> Split(freeze, chunks, lookback, maxPostData) == Ideal(freeze, text)
  {
    hide Ideal, Split, MarkerFitsLookback, Concat, LossyChunks, FreezeIsSafe, Stable;
    StableWithoutFreezeMeans(text, lookback);
    StableMeans(text, lookback);
    if MarkerFitsLookback(text, lookback) && (freeze ==> FreezeIsSafe(text)) {
      forall chunks | Concat(chunks) == text
        ensures Split(freeze, chunks, lookback, maxPostData) == Ideal(freeze, text)
      {
        ChunksDoNotMatter(freeze, chunks, lookback, maxPostData);
      }
    } else if !MarkerFitsLookback(text, lookback) {
      LongMarkerIsLost(freeze, text, lookback, maxPostData);
    } else {
      var p := WhereToCut(text, lookback);
      CutLosesTheFreeze(text, p, lookback, maxPostData);
    }
  }
}
