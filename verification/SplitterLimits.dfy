/** Where the splitter stops being independent of the chunk boundaries: exactly which dumps, and
    exactly when a post-data above the limit is kept aside all the same. */
module SplitterLimits {
  import opened Text
  import opened DumpSplitter
  import opened DumpSplitterSpec
  import opened DumpSplitterProofs
  import opened ChunkIndependence

  // --- An oversized post-data ---------------------------------------------------------------------

  /** Everything sent so far and still to come, the post-data included. */
  function Flat(o: Outcome): string {
    o.sent + if o.post.Some? then o.post.value else ""
  }

  lemma {:induction false} PassthroughRun(s: State, chunks: seq<string>, lookback: nat, maxPostData: nat)
    requires s.passthrough
    ensures Run(s, chunks, lookback, maxPostData).0 == s
    ensures Render(Run(s, chunks, lookback, maxPostData).1) == Concat(chunks)
    decreases |chunks|
  {
    hide Render;
    PumpedAfterStart(s, "", lookback);
    if chunks != [] {
      PassthroughRun(s, chunks[1..], lookback, maxPostData);
      RenderRaw(chunks[0]);
      RenderConcat([Raw(chunks[0])], Run(s, chunks[1..], lookback, maxPostData).1);
    }
  }

  /** Whatever the size of the post-data, nothing is lost: it is set aside, or it was sent. */
  lemma {:induction false} RunAgreesOrPasses(s: State, chunks: seq<string>, r: string, lookback: nat, maxPostData: nat)
    requires Settled(s) && !s.passthrough && SteadyAfter(s, Concat(chunks) + r, lookback)
    ensures var (s', pieces) := Run(s, chunks, lookback, maxPostData);
            var o := After(s, Concat(chunks) + r);
            if s'.passthrough then
              o.post.Some? && |o.post.value| > maxPostData && Render(pieces) + r == Flat(o)
            else
              Settled(s') && SteadyAfter(s', r, lookback) && o == Prepend(Render(pieces), After(s', r))
    decreases |chunks|
  {
    hide SteadyAfter, Settled, Pumped, Render, Whole;
    if chunks == [] {
      assert "" + r == r;
      PumpedAfterStart(s, "", lookback);
    } else {
      var tail := Concat(chunks[1..]) + r;
      assert Concat(chunks) + r == chunks[0] + tail;
      var first := Fed(s, chunks[0], lookback, maxPostData);
      var rest := Run(first.0, chunks[1..], lookback, maxPostData);
      RenderConcat(first.1, rest.1);
      if first.0.passthrough {
        SettledPassthrough(s, chunks[0], lookback, maxPostData);
        PassthroughRun(first.0, chunks[1..], lookback, maxPostData);
        var data := s.postData.value + chunks[0];
        RenderRaw(data);
        assert s.postData.value + (chunks[0] + tail) == data + tail;
        assert data + Concat(chunks[1..]) + r == data + tail;
      } else {
        hide Fed, After;
        NotPassed(s, chunks[0], lookback, maxPostData);
        FeedAgrees(s, chunks[0], tail, lookback, maxPostData);
        RunAgreesOrPasses(first.0, chunks[1..], r, lookback, maxPostData);
        var o := After(first.0, tail);
        assert Render(first.1) + (Render(rest.1) + r) == Render(first.1) + Render(rest.1) + r;
        assert Render(first.1) + (o.sent + if o.post.Some? then o.post.value else "")
            == Render(first.1) + o.sent + if o.post.Some? then o.post.value else "";
        PrependTwice(Render(first.1), Render(rest.1), After(rest.0, r));
      }
    }
  }

  lemma {:induction false} NotPassed(s: State, chunk: string, lookback: nat, maxPostData: nat)
    requires !Fed(s, chunk, lookback, maxPostData).0.passthrough && !s.passthrough
    ensures s.postData.Some? ==> |s.postData.value + chunk| <= maxPostData
  {
  }

  lemma {:induction false} SettledPassthrough(s: State, chunk: string, lookback: nat, maxPostData: nat)
    requires Settled(s) && !s.passthrough && Fed(s, chunk, lookback, maxPostData).0.passthrough
    ensures s.postData.Some? && |s.postData.value + chunk| > maxPostData
    ensures Fed(s, chunk, lookback, maxPostData).1 == [Raw(s.postData.value + chunk)]
  {
    if s.postData.None? {
      PumpConserves(s, s.pending + chunk, lookback);
      PumpStaysOpen(s, s.pending + chunk, lookback);
    }
  }

  lemma {:induction false} PumpStaysOpen(s: State, buffer: string, lookback: nat)
    requires !s.passthrough
    ensures !Pumped(s, buffer, lookback).0.passthrough
    decreases |buffer|
  {
    hide Look, HasPartition, HeaderPieces, Find;
    if buffer != "" && Turned(s, buffer, lookback).more {
      PumpStaysOpen(Turned(s, buffer, lookback).state, Turned(s, buffer, lookback).rest, lookback);
    }
  }

  lemma {:induction false} RunSnoc(s: State, chunks: seq<string>, last: string, lookback: nat, maxPostData: nat)
    ensures var (s1, p1) := Run(s, chunks, lookback, maxPostData);
            var (s2, p2) := Fed(s1, last, lookback, maxPostData);
            Run(s, chunks + [last], lookback, maxPostData) == (s2, p1 + p2)
    ensures Concat(chunks + [last]) == Concat(chunks) + last
    decreases |chunks|
  {
    hide Fed;
    if chunks == [] {
      assert [] + [last] == [last] && [last][1..] == [];
      var (s2, p2) := Fed(s, last, lookback, maxPostData);
      assert p2 + [] == p2 && [] + p2 == p2 && last + "" == last && "" + last == last;
    } else {
      assert (chunks + [last])[1..] == chunks[1..] + [last];
      var first := Fed(s, chunks[0], lookback, maxPostData);
      RunSnoc(first.0, chunks[1..], last, lookback, maxPostData);
      var rest := Run(first.0, chunks[1..], lookback, maxPostData);
      var end := Fed(rest.0, last, lookback, maxPostData);
      assert first.1 + (rest.1 + end.1) == first.1 + rest.1 + end.1;
      assert chunks[0] + (Concat(chunks[1..]) + last) == chunks[0] + Concat(chunks[1..]) + last;
    }
  }

  /** A post-data above the limit goes back to psql with the rest if and only if it had been
      recognised before the last chunk: its size is only looked at when more of it arrives. */
  lemma {:induction false} OversizedPostData(
    freeze: bool, chunks: seq<string>, last: string, lookback: nat, maxPostData: nat)
    requires Stable(freeze, Concat(chunks + [last]), lookback)
    requires !PostDataFits(Ideal(freeze, Concat(chunks + [last])), maxPostData)
    ensures var before := Run(Initial(freeze), chunks, lookback, maxPostData).0;
            var o := Ideal(freeze, Concat(chunks + [last]));
            Split(freeze, chunks + [last], lookback, maxPostData)
            == if before.postData.Some? || before.passthrough then Outcome(Flat(o), None) else o
  {
    hide Ideal, Stable, Settled, Run, Render, Whole, Pumped, Valid;
    var s := Initial(freeze);
    var text := Concat(chunks + [last]);
    RunSnoc(s, chunks, last, lookback, maxPostData);
    assert text + "" == text && "" + text == text;
    InitialSettled(freeze, text);
    RunAgreesOrPasses(s, chunks, last, lookback, maxPostData);
    RunAgreesOrPasses(s, chunks + [last], "", lookback, maxPostData);
    InitialValid(freeze);
    RunConserves(s, chunks, lookback, maxPostData);
    RunConserves(s, chunks + [last], lookback, maxPostData);
    var (s1, p1) := Run(s, chunks, lookback, maxPostData);
    var (s2, p2) := Run(s, chunks + [last], lookback, maxPostData);
    HeldNothing(s2);
    assert Render(p2) + "" == Render(p2);
    if s2.passthrough {
      if !s1.passthrough {
        SettledPassthrough(s1, last, lookback, maxPostData);
      }
    } else {
      SettledOutcome(s2);
    }
  }

  lemma {:induction false} InitialValid(freeze: bool)
    ensures Valid(Initial(freeze))
  {
  }

  lemma {:induction false} HeldNothing(s: State)
    requires Valid(s)
    ensures s.postData.Some? || s.passthrough ==> s.pending == ""
    ensures s.passthrough ==> s.postData.None?
  {
  }

  // --- A marker longer than the lookback ------------------------------------------------------------

  /** The post-data marker of the dump, if any, holds within `lookback` bytes after its first line. */
  predicate MarkerFitsLookback(text: string, lookback: nat) {
    var o := Ideal(false, text);
    o.post.Some? ==> MarkerTail(o.post.value) <= lookback
  }

  /** With freeze off, a COPY block is sent as it is and splitting resumes after it. */
  function BlockEnd(text: string): (k: nat)
    requires !StartsMarker(text) && StartsHeader(text)
    ensures 0 < k <= |text|
  {
    var n := Newline(text, 0);
    var e := Find(text[n..], COPY_END, 0);
    if e < 0 then |text| else n + e + 4
  }

  lemma {:induction false} BlockIsSkipped(text: string, lookback: nat)
    requires !StartsMarker(text) && StartsHeader(text)
    ensures var k := BlockEnd(text);
            && Ideal(false, text) == Prepend(text[..k], Ideal(false, text[k..]))
            && (Stable(false, text, lookback) <==> Stable(false, text[k..], lookback))
  {
    hide Prepend, Ideal, Stable, Find, StartsHeader, StartsMarker;
    var n := Newline(text, 0);
    var rest := text[n..];
    var e := Find(rest, COPY_END, 0);
    BlockStarts(text, lookback);
    if e < 0 {
      PrependText(text[..n], rest);
      PrependText(text, "");
      EmptyText(lookback);
      assert text[|text|..] == "" && text[..|text|] == text && text[..n] + rest == text + "";
    } else {
      var k := n + e + 4;
      assert rest[e + 4..] == text[k..] && text[..n] + rest[..e + 4] == text[..k];
      PrependTwice(text[..n], rest[..e + 4], Ideal(false, text[k..]));
    }
  }

  lemma {:induction false} PrependText(head: string, text: string)
    ensures Prepend(head, Outcome(text, None)) == Outcome(head + text, None)
  {
  }

  lemma {:induction false} EmptyText(lookback: nat)
    ensures Ideal(false, "") == Outcome("", None) && Stable(false, "", lookback)
  {
    FirstLetter("");
  }

  lemma {:induction false} BlockStarts(text: string, lookback: nat)
    requires !StartsMarker(text) && StartsHeader(text)
    ensures var n := Newline(text, 0);
      && Ideal(false, text) == Prepend(text[..n], IdealCopy(false, false, text[n..]))
      && (Stable(false, text, lookback) <==> StableCopy(false, text[n..], lookback))
  {
    hide HeaderTable, MarkerLength, MentionsPartition, HasPartition, IdealCopy, StableCopy;
  }

  lemma {:induction false} FlatPrepend(head: string, o: Outcome)
    ensures Flat(Prepend(head, o)) == head + Flat(o)
  {
  }

  lemma {:induction false} IdealConserves(text: string)
    ensures Flat(Ideal(false, text)) == text
    ensures Ideal(false, text).post.Some? ==> StartsMarker(Ideal(false, text).post.value)
    decreases |text|
  {
    hide HasPartition, MarkerLength, HeaderTable, BlockEnd, Flat, Ideal;
    var n := Newline(text, 0);
    if StartsMarker(text) || n == |text| {
      FlatLeaf(text);
      LastLine(text);
    } else {
      var k := if StartsHeader(text) then BlockEnd(text) else n + 1;
      if StartsHeader(text) {
        BlockIsSkipped(text, 0);
      } else {
        OrdinaryLine(false, text, 0);
      }
      IdealConserves(text[k..]);
      FlatPrepend(text[..k], Ideal(false, text[k..]));
      assert text[..k] + text[k..] == text;
    }
  }

  lemma {:induction false} LastLine(text: string)
    requires StartsMarker(text) || Newline(text, 0) == |text|
    ensures Ideal(false, text) == if StartsMarker(text) then Outcome("", Some(text)) else Outcome(text, None)
  {
    hide HasPartition, MarkerLength, HeaderTable, IdealCopy;
  }

  lemma {:induction false} FlatLeaf(text: string)
    ensures Flat(Outcome("", Some(text))) == text && Flat(Outcome(text, None)) == text
  {
  }

  lemma {:induction false} StableWithoutFreezeMeans(text: string, lookback: nat)
    ensures Stable(false, text, lookback) <==> MarkerFitsLookback(text, lookback)
    decreases |text|
  {
    hide HasPartition, MarkerLength, HeaderTable, MarkerTail, MentionsPartition, BlockEnd, IdealCopy, StableCopy;
    var n := Newline(text, 0);
    if StartsMarker(text) || n == |text| {
    } else if StartsHeader(text) {
      BlockIsSkipped(text, lookback);
      StableWithoutFreezeMeans(text[BlockEnd(text)..], lookback);
    } else {
      StableWithoutFreezeMeans(text[n + 1..], lookback);
    }
  }

  /** Statement mode never holds back a whole line older than `lookback` bytes. */
  predicate Tight(s: State, lookback: nat) {
    && (s.inCopy ==> |s.pending| <= 3)
    && (!s.inCopy ==> forall i :: 0 < i <= |s.pending| - lookback ==> !LineStart(s.pending, i))
  }

  lemma {:induction false} PumpIsTight(s: State, buffer: string, lookback: nat)
    ensures Tight(Pumped(s, buffer, lookback).0, lookback)
    decreases |buffer|
  {
    hide Look, HasPartition, HeaderPieces, Find, HeaderTable, CopyTurn, StatementTurn;
    if buffer != "" {
      var t := Turned(s, buffer, lookback);
      if t.more {
        PumpIsTight(t.state, t.rest, lookback);
      } else if s.inCopy {
        CopyTurnIsTight(s, buffer);
      } else {
        StatementTurnIsTight(s, buffer, lookback);
      }
    }
  }

  lemma {:induction false} CopyTurnIsTight(s: State, buffer: string)
    requires s.inCopy && !CopyTurn(s, buffer).more
    ensures CopyTurn(s, buffer).state.inCopy && |CopyTurn(s, buffer).rest| <= 3
  {
  }

  lemma {:induction false} StatementTurnIsTight(s: State, buffer: string, lookback: nat)
    requires !s.inCopy && buffer != "" && !StatementTurn(s, buffer, lookback).more
    ensures var t := StatementTurn(s, buffer, lookback);
            !t.state.inCopy && forall i :: 0 < i <= |t.rest| - lookback ==> !LineStart(t.rest, i)
  {
    hide HasPartition, FirstHeader, FirstLineWhere, HeaderPieces, HeaderEnd, Statements;
    var t := StatementTurn(s, buffer, lookback);
    if Look(buffer, lookback).Nothing? {
      var cut := Cut(buffer, lookback);
      forall i | 0 < i <= |t.rest| - lookback ensures !LineStart(t.rest, i) {
        assert LineStart(t.rest, i) ==> LineStart(buffer, cut + i);
      }
    }
  }

  lemma {:induction false} PumpRecognises(s: State, buffer: string, lookback: nat)
    requires s.postData.None?
    ensures var s' := Pumped(s, buffer, lookback).0;
            s'.postData.Some? ==> StartsMarker(s'.postData.value)
    decreases |buffer|
  {
    hide Look, HasPartition, HeaderPieces, Find, HeaderTable, Statements, StartsMarker;
    if buffer != "" {
      var t := Turned(s, buffer, lookback);
      if t.more {
        PumpRecognises(t.state, t.rest, lookback);
      } else if t.state.postData.Some? {
        var p, st := Look(buffer, lookback).p, Statements(buffer);
        PostDataLooked(buffer, lookback);
        assert buffer[p..] == st[p..] + buffer[|st|..];
        MarkerGrows(st[p..], buffer[|st|..]);
      }
    }
  }

  lemma {:induction false} MarkerGrows(b: string, r: string)
    requires StartsMarker(b)
    ensures StartsMarker(b + r) && MarkerLength(b + r) <= |b|
  {
    MarkerPrefix(b, r);
  }

  /** With freeze off nothing is inserted. */
  lemma {:induction false} PumpInsertsNothing(s: State, buffer: string, lookback: nat)
    requires !s.freeze && !s.frozenCopy
    ensures var (s', pieces) := Pumped(s, buffer, lookback);
            !s'.freeze && !s'.frozenCopy && Render(pieces) == Erased(pieces)
    decreases |buffer|
  {
    hide Look, HasPartition, Find, HeaderTable, Statements, Render, Erased;
    if buffer == "" {
      PumpedAfterStart(s, buffer, lookback);
      NoPieces(false);
    } else {
      var t := Turned(s, buffer, lookback);
      RawPieces(t.pieces);
      if t.more {
        PumpInsertsNothing(t.state, t.rest, lookback);
        var rest := Pumped(t.state, t.rest, lookback);
        RenderConcat(t.pieces, rest.1);
        ErasedConcat(t.pieces, rest.1);
      }
    }
  }

  lemma {:induction false} RawPieces(pieces: seq<Piece>)
    requires forall p :: p in pieces ==> p.Raw?
    ensures Render(pieces) == Erased(pieces)
  {
    if pieces != [] {
      RawPieces(pieces[1..]);
    }
  }

  lemma {:induction false} NoOldLine(s: State, lookback: nat, i: nat)
    requires Tight(s, lookback) && 3 <= lookback && 0 < i <= |s.pending| - lookback
    ensures s.pending[i - 1] != '\n'
  {
    assert !LineStart(s.pending, i);
  }

  /** Whole lines older than the lookback have left, unless the post-data is already recognised. */
  lemma {:induction false} OldLinesHaveLeft(freeze: bool, first: string, line: nat, lookback: nat)
    requires 3 <= lookback && line + 1 + lookback == |first| && first[line] == '\n'
    ensures var (s, pieces) := Pumped(Initial(freeze), first, lookback);
            s.postData.None? ==> |Erased(pieces)| > line
  {
    hide Pumped, Erased, OpenAfter;
    var (s, pieces) := Pumped(Initial(freeze), first, lookback);
    PumpConserves(Initial(freeze), first, lookback);
    PumpIsTight(Initial(freeze), first, lookback);
    if s.postData.None? && |s.pending| > lookback {
      assert s.pending == first[|first| - |s.pending|..];
      NoOldLine(s, lookback, |s.pending| - lookback);
    }
  }

  /** The dump in two chunks, cut `lookback` bytes after the first line of its marker. */
  function LossyChunks(text: string, lookback: nat): seq<string> {
    var o := Ideal(false, text);
    var cut := |o.sent| + (if o.post.Some? then Newline(o.post.value, 0) + 1 + lookback else 0);
    if cut <= |text| then [text[..cut], text[cut..]] else []
  }

  /** Freezing the blocks does not move the post-data. */
  lemma {:induction false} SamePostData(freeze: bool, text: string)
    ensures Ideal(freeze, text).post == Ideal(false, text).post
    decreases |text|, 1
  {
    hide HasPartition, MarkerLength, HeaderTable, FrozenHeader, IdealCopy;
    var n := Newline(text, 0);
    if !StartsMarker(text) && n < |text| {
      if HeaderTable(text[..n]).Some? {
        SamePostDataAfter(freeze, freeze, text[n..]);
      } else {
        SamePostData(freeze && !HasPartition(text[..n + 1]), text[n + 1..]);
      }
    }
  }

  lemma {:induction false} SamePostDataAfter(freeze: bool, frozen: bool, text: string)
    ensures IdealCopy(freeze, frozen, text).post == IdealCopy(false, false, text).post
    decreases |text|, 0
  {
    hide Ideal, PieceText;
    var e := Find(text, COPY_END, 0);
    if e >= 0 {
      SamePostData(freeze, text[e + 4..]);
    }
  }

  /** Cut there, a dump with a longer marker loses its first line: it leaves before the marker is complete. */
  lemma {:induction false} LongMarkerIsLost(freeze: bool, text: string, lookback: nat, maxPostData: nat)
    requires 3 <= lookback && !MarkerFitsLookback(text, lookback)
    ensures var chunks := LossyChunks(text, lookback);
            Concat(chunks) == text && Split(freeze, chunks, lookback, maxPostData) != Ideal(freeze, text)
  {
    hide Ideal, MarkerLength, Render, Pumped, Split, Erased;
    var o := Ideal(false, text);
    IdealConserves(text);
    SamePostData(freeze, text);
    var q, marker := |o.sent|, o.post.value;
    var line := q + Newline(marker, 0);
    var cut := line + 1 + lookback;
    assert marker == text[q..] && cut < q + MarkerLength(marker) <= |text|;
    var first, last := text[..cut], text[cut..];
    assert first[line] == marker[line - q];
    TwoChunks(freeze, first, last, lookback, maxPostData);
    assert first + last == text;
    OldLinesHaveLeft(freeze, first, line, lookback);
    var (s1, p1) := Pumped(Initial(freeze), first, lookback);
    if Split(freeze, [first, last], lookback, maxPostData).post == o.post {
      PumpStaysOpen(Initial(freeze), first, lookback);
      PumpConserves(Initial(freeze), first, lookback);
      if s1.postData.Some? {
        HeldTogether(s1, last, lookback, maxPostData);
        PumpRecognises(Initial(freeze), first, lookback);
        MarkerGrows(s1.postData.value, last);
      } else {
        LeftForGood(s1, p1, first, last, lookback, maxPostData);
      }
    }
  }

  /** What has left is no part of the post-data. */
  lemma {:induction false} LeftForGood(
    s: State, sent: seq<Piece>, first: string, last: string, lookback: nat, maxPostData: nat)
    requires Valid(s) && s.postData.None? && !s.passthrough && Erased(sent) + s.pending == first
    ensures var post := Fed(s, last, lookback, maxPostData).0.postData;
      post.Some? ==> |post.value| <= |first + last| - |Erased(sent)|
  {
    hide Pumped, Erased, OpenAfter;
    PumpConserves(s, s.pending + last, lookback);
  }

  lemma {:induction false} HeldTogether(s: State, last: string, lookback: nat, maxPostData: nat)
    requires s.postData.Some? && !s.passthrough && Fed(s, last, lookback, maxPostData).0.postData.Some?
    ensures Fed(s, last, lookback, maxPostData).0.postData == Some(s.postData.value + last)
  {
  }

  lemma {:induction false} TwoChunks(freeze: bool, first: string, last: string, lookback: nat, maxPostData: nat)
    ensures var (s1, p1) := Pumped(Initial(freeze), first, lookback);
            var (s2, p2) := Fed(s1, last, lookback, maxPostData);
            Split(freeze, [first, last], lookback, maxPostData)
            == Outcome(Render(p1) + Render(p2) + s2.pending, s2.postData)
    ensures Concat([first, last]) == first + last
  {
    hide Pumped, Render;
    var s0 := Initial(freeze);
    assert [first, last][1..] == [last] && [last][1..] == [] && last + "" == last && "" + first == first;
    assert Concat([last]) == last;
    assert Fed(s0, first, lookback, maxPostData) == Pumped(s0, first, lookback);
    var (s1, p1) := Pumped(s0, first, lookback);
    var (s2, p2) := Fed(s1, last, lookback, maxPostData);
    assert Run(s1, [last], lookback, maxPostData) == (s2, p2 + []);
    assert p2 + [] == p2;
    RenderConcat(p1, p2);
  }
}
