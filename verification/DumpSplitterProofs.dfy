/** What the splitter guarantees over whole dumps, whatever the chunk boundaries. */
module DumpSplitterProofs {
  import opened Text
  import opened DumpSplitter

  // --- Conservation and transaction brackets, freeze on or off ----------------------------------

  /** The dump's own bytes among the pieces sent. */
  function Erased(pieces: seq<Piece>): string {
    if pieces == [] then ""
    else (if pieces[0].Raw? then pieces[0].text else "") + Erased(pieces[1..])
  }

  lemma {:induction false} ErasedConcat(a: seq<Piece>, b: seq<Piece>)
    ensures Erased(a + b) == Erased(a) + Erased(b)
  {
    if a == [] {
      assert a + b == b;
    } else {
      assert (a + b)[1..] == a[1..] + b;
      ErasedConcat(a[1..], b);
    }
  }

  /** Whether a transaction is open after `pieces`; None when the brackets do not match. */
  function OpenAfter(open: bool, pieces: seq<Piece>): Option<bool>
    decreases |pieces|
  {
    if pieces == [] then Some(open)
    else match pieces[0]
      case Begin(_) => if open then None else OpenAfter(true, pieces[1..])
      case Commit => if open then OpenAfter(false, pieces[1..]) else None
      case FreezeOption => if open then OpenAfter(open, pieces[1..]) else None
      case Raw(_) => OpenAfter(open, pieces[1..])
  }

  lemma {:induction false} OpenAfterConcat(open: bool, a: seq<Piece>, b: seq<Piece>)
    requires OpenAfter(open, a).Some?
    ensures OpenAfter(open, a + b) == OpenAfter(OpenAfter(open, a).value, b)
    decreases |a|
  {
    if a == [] {
      assert a + b == b;
    } else {
      assert (a + b)[1..] == a[1..] + b;
      var next := match a[0] case Begin(_) => true case Commit => false case _ => open;
      OpenAfterConcat(next, a[1..], b);
    }
  }

  /** Bytes received and not sent yet. */
  function Held(s: State): string {
    if s.postData.Some? then s.postData.value else s.pending
  }

  /** Held in every reachable state: the three ways of holding bytes back exclude one another. */
  predicate Valid(s: State) {
    (s.frozenCopy ==> s.inCopy)
    && (s.postData.Some? ==> !s.inCopy && !s.passthrough && s.pending == "")
    && (s.passthrough ==> !s.inCopy && s.pending == "")
  }

  lemma {:induction false} PieceConserves(open: bool, p: Piece, rest: seq<Piece>)
    ensures Erased([p] + rest) == (if p.Raw? then p.text else "") + Erased(rest)
    ensures p.Raw? || (p.FreezeOption? && open) ==> OpenAfter(open, [p] + rest) == OpenAfter(open, rest)
    ensures p.Begin? && !open ==> OpenAfter(open, [p] + rest) == OpenAfter(true, rest)
    ensures p.Commit? && open ==> OpenAfter(open, [p] + rest) == OpenAfter(false, rest)
  {
    assert ([p] + rest)[1..] == rest;
  }

  lemma {:induction false} HeaderConserves(header: string, table: string, freeze: bool)
    requires |header| >= |FROM_STDIN|
    ensures var h := HeaderPieces(header, table, freeze);
            Erased(h) == header && OpenAfter(false, h) == Some(freeze)
  {
    if freeze {
      var a, b, c, d := Begin(table), Raw(header[..|header| - 1]), FreezeOption, Raw(header[|header| - 1..]);
      PieceConserves(false, a, [b, c, d]);
      PieceConserves(true, b, [c, d]);
      PieceConserves(true, c, [d]);
      PieceConserves(true, d, []);
      assert [a] + [b, c, d] == [a, b, c, d] && [b] + [c, d] == [b, c, d] && [c] + [d] == [c, d] && [d] + [] == [d];
    } else {
      PieceConserves(false, Raw(header), []);
      assert [Raw(header)] + [] == [Raw(header)];
    }
  }

  ghost predicate Keeps(s: State, buffer: string, t: Turn) {
    && Erased(t.pieces) + (if t.state.postData.Some? then t.state.postData.value else t.rest) == buffer
    && OpenAfter(s.frozenCopy, t.pieces) == Some(t.state.frozenCopy)
    && (t.state.frozenCopy ==> t.state.inCopy) && !t.state.passthrough
    && (t.state.postData.Some? ==> !t.more && !t.state.inCopy && t.rest == "")
  }

  lemma {:induction false} CopyTurnConserves(s: State, buffer: string)
    requires s.postData.None? && !s.passthrough && s.inCopy
    ensures Keeps(s, buffer, CopyTurn(s, buffer))
  {
    hide Erased, OpenAfter, Find;
    var t := CopyTurn(s, buffer);
    PieceConserves(s.frozenCopy, t.pieces[0], t.pieces[1..]);
    assert t.pieces == [t.pieces[0]] + t.pieces[1..];
    NoPieces(false);
    NoPieces(true);
    PieceConserves(s.frozenCopy, Commit, []);
    assert [Commit] + [] == [Commit];
    assert t.pieces[1..] == if t.more && s.frozenCopy then [Commit] else [];
  }

  lemma {:induction false} StatementTurnConserves(s: State, buffer: string, lookback: nat)
    requires buffer != "" && s.postData.None? && !s.passthrough && !s.inCopy && !s.frozenCopy
    ensures Keeps(s, buffer, StatementTurn(s, buffer, lookback))
  {
    hide HeaderTable, HasPartition, Statements, HeaderPieces, Erased, OpenAfter, Look;
    var t := StatementTurn(s, buffer, lookback);
    match Look(buffer, lookback)
    case Copy(c, e) =>
      var header, table := buffer[c..e], HeaderTable(buffer[c..e]).value;
      HeaderConserves(header, table, t.state.freeze);
      PieceConserves(false, Raw(buffer[..c]), HeaderPieces(header, table, t.state.freeze));
      assert buffer[..c] + header + buffer[e..] == buffer;
    case PostData(p) =>
      OneRawConserves(buffer[..p]);
      assert buffer[..p] + buffer[p..] == buffer;
    case Nothing(cut) =>
      OneRawConserves(buffer[..cut]);
      assert buffer[..cut] + buffer[cut..] == buffer;
  }

  lemma {:induction false} OneRawConserves(text: string)
    ensures Erased([Raw(text)]) == text && OpenAfter(false, [Raw(text)]) == Some(false)
  {
    PieceConserves(false, Raw(text), []);
    NoPieces(false);
    assert [Raw(text)] + [] == [Raw(text)];
  }

  lemma {:induction false} NoPieces(open: bool)
    ensures Erased([]) == "" && OpenAfter(open, []) == Some(open)
  {
  }

  lemma {:induction false} PumpConserves(s: State, buffer: string, lookback: nat)
    requires s.postData.None? && !s.passthrough && (s.frozenCopy ==> s.inCopy)
    ensures var (s', pieces) := Pumped(s, buffer, lookback);
            Valid(s') && Erased(pieces) + Held(s') == buffer && OpenAfter(s.frozenCopy, pieces) == Some(s'.frozenCopy)
    decreases |buffer|
  {
    hide CopyTurn, StatementTurn, Erased, OpenAfter;
    NoPieces(s.frozenCopy);
    if buffer != "" {
      if s.inCopy {
        CopyTurnConserves(s, buffer);
      } else {
        StatementTurnConserves(s, buffer, lookback);
      }
      var t := Turned(s, buffer, lookback);
      if t.more {
        PumpConserves(t.state, t.rest, lookback);
        var rest := Pumped(t.state, t.rest, lookback);
        ErasedConcat(t.pieces, rest.1);
        OpenAfterConcat(s.frozenCopy, t.pieces, rest.1);
      }
    }
  }

  lemma {:induction false} FeedConserves(s: State, chunk: string, lookback: nat, maxPostData: nat)
    requires Valid(s)
    ensures var (s', pieces) := Fed(s, chunk, lookback, maxPostData);
            && Valid(s')
            && Erased(pieces) + Held(s') == Held(s) + chunk
            && OpenAfter(s.frozenCopy, pieces) == Some(s'.frozenCopy)
  {
    if s.passthrough {
    } else if s.postData.None? {
      PumpConserves(s, s.pending + chunk, lookback);
    }
  }

  /** Freeze on or off, overflow or not: erasing what the splitter inserted gives back exactly the
      bytes fed, and a BEGIN is open exactly when the current COPY block is frozen. */
  lemma {:induction false} RunConserves(s: State, chunks: seq<string>, lookback: nat, maxPostData: nat)
    requires Valid(s)
    ensures var (s', pieces) := Run(s, chunks, lookback, maxPostData);
            && Valid(s')
            && Erased(pieces) + Held(s') == Held(s) + Concat(chunks)
            && OpenAfter(s.frozenCopy, pieces) == Some(s'.frozenCopy)
    decreases |chunks|
  {
    hide Fed, Erased, OpenAfter;
    NoPieces(s.frozenCopy);
    if chunks != [] {
      FeedConserves(s, chunks[0], lookback, maxPostData);
      var first := Fed(s, chunks[0], lookback, maxPostData);
      RunConserves(first.0, chunks[1..], lookback, maxPostData);
      var rest := Run(first.0, chunks[1..], lookback, maxPostData);
      ErasedConcat(first.1, rest.1);
      OpenAfterConcat(s.frozenCopy, first.1, rest.1);
      calc {
        Erased(first.1 + rest.1) + Held(rest.0);
        Erased(first.1) + (Erased(rest.1) + Held(rest.0));
        Erased(first.1) + (Held(first.0) + Concat(chunks[1..]));
        (Held(s) + chunks[0]) + Concat(chunks[1..]);
        Held(s) + Concat(chunks);
      }
    } else {
      assert Held(s) + "" == Held(s);
    }
  }
}
