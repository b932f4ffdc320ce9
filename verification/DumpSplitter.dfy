/** The streaming splitter of a pg_dump script (odoo_manager_core/database_restore.py).

    The dump arrives in arbitrary chunks; each chunk goes through `Feed`, which says what may leave
    for psql now. The class works in place like the source; `Fed` is its specification. */
module DumpSplitter {
  import opened Text

  const COPY_END := "\n\\.\n"
  const FROM_STDIN := " FROM stdin;"

  // --- The anchored patterns, as predicates on the text from a line start --------------------

  /** The table of a complete `COPY table … FROM stdin;` line, given without its newline. */
  function HeaderTable(line: string): Option<string> {
    if !At(line, 0, "COPY ") then None
    else
      var e := RunEnd(line, 5, c => !IsSpace(c));
      if e > 5 && e < |line| && line[e] == ' ' && |line| >= e + 1 + |FROM_STDIN|
         && At(line, |line| - |FROM_STDIN|, FROM_STDIN)
      then Some(line[5..e])
      else None
  }

  predicate StartsHeader(s: string) {
    var n := Newline(s, 0);
    n < |s| && HeaderTable(s[..n]).Some?
  }

  /** Length of the post-data marker the text starts with, or 0. */
  function MarkerLength(s: string): (n: nat)
    ensures n <= |s|
  {
    if At(s, 0, "CREATE INDEX ") then 13
    else if At(s, 0, "CREATE UNIQUE INDEX ") then 20
    else if !At(s, 0, "ALTER TABLE ONLY ") then 0
    else
      var name := RunEnd(s, 17, c => !IsSpace(c));
      var blank := RunEnd(s, name, IsSpace);
      if name > 17 && blank > name && At(s, blank, "ADD CONSTRAINT ") then blank + 15 else 0
  }

  predicate StartsMarker(s: string) {
    MarkerLength(s) > 0
  }

  /** `\bPARTITION (BY|OF)` at index `i`, whatever follows. */
  predicate PartitionWords(s: string, i: int) {
    (At(s, i, "PARTITION BY") || At(s, i, "PARTITION OF")) && (i == 0 || !IsWord(s[i - 1]))
  }

  predicate PartitionAt(s: string, i: int) {
    PartitionWords(s, i) && (i + 12 == |s| || !IsWord(s[i + 12]))
  }

  predicate HasPartition(s: string) {
    exists i :: 0 <= i < |s| && PartitionAt(s, i)
  }

  // --- What the splitter sends ----------------------------------------------------------------

  /** Sent text, with what the splitter inserted told apart from the dump's own bytes. */
  datatype Piece = Raw(text: string) | Begin(table: string) | FreezeOption | Commit

  function PieceText(p: Piece): string {
    match p
    case Raw(text) => text
    case Begin(table) => "BEGIN;\nTRUNCATE ONLY " + table + ";\n"
    case FreezeOption => " WITH (FREEZE)"
    case Commit => "COMMIT;\n"
  }

  function Render(pieces: seq<Piece>): string {
    if pieces == [] then "" else PieceText(pieces[0]) + Render(pieces[1..])
  }

  /** The header of a frozen COPY, after the TRUNCATE that opens its transaction. */
  function FrozenHeader(header: string, table: string): string
    requires |header| >= |FROM_STDIN|
  {
    (PieceText(Begin(table)) + header[..|header| - 1]) + (PieceText(FreezeOption) + header[|header| - 1..])
  }

  /** The pieces of a COPY header, its newline left out. */
  function HeaderPieces(header: string, table: string, freeze: bool): seq<Piece>
    requires |header| >= |FROM_STDIN|
  {
    if freeze then
      [Begin(table), Raw(header[..|header| - 1]), FreezeOption, Raw(header[|header| - 1..])]
    else [Raw(header)]
  }

  // --- The transition of one call ---------------------------------------------------------------

  datatype State = State(
    freeze: bool,
    postData: Option<string>,
    inCopy: bool,
    frozenCopy: bool,
    pending: string,
    passthrough: bool)

  function Initial(freeze: bool): State {
    State(freeze, None, false, false, "", false)
  }

  /** Start of the incomplete end of `buffer` that statement mode keeps back. */
  function Cut(buffer: string, lookback: nat): (cut: nat)
    ensures cut <= |buffer| && LineStart(buffer, cut)
    ensures cut > 0 ==> cut + lookback <= |buffer|
    ensures forall i :: cut < i <= |buffer| - lookback ==> !LineStart(buffer, i)
  {
    LastLineStart(buffer, if |buffer| > lookback then |buffer| - lookback else 0)
  }

  /** `buffer.rfind("\n", 0, limit) + 1`. */
  function LastLineStart(buffer: string, limit: nat): (cut: nat)
    requires limit <= |buffer|
    ensures cut <= limit && LineStart(buffer, cut)
    ensures forall i :: cut < i <= limit ==> !LineStart(buffer, i)
  {
    if limit == 0 || buffer[limit - 1] == '\n' then limit else LastLineStart(buffer, limit - 1)
  }

  /** Index of the first COPY header in statement text, or -1. */
  function FirstHeader(buffer: string): (r: int)
    ensures r < |buffer| && (r >= 0 ==> StartsHeader(buffer[r..]))
  {
    FirstLineWhere(buffer, StartsHeader)
  }

  /** Index of the newline ending the header at `c`. */
  function HeaderEnd(buffer: string, c: nat): (e: nat)
    requires c < |buffer| && StartsHeader(buffer[c..])
    ensures c + 5 + |FROM_STDIN| < e < |buffer| && buffer[e] == '\n'
    ensures HeaderTable(buffer[c..e]).Some?
  {
    var rest := buffer[c..];
    var e := c + Newline(rest, 0);
    assert rest[..Newline(rest, 0)] == buffer[c..e];
    e
  }

  /** One turn of the loop over the buffer: what is sent, what remains, whether the loop goes on. */
  datatype Turn = Turn(state: State, pieces: seq<Piece>, rest: string, more: bool)

  function CopyTurn(s: State, buffer: string): (t: Turn)
    requires s.inCopy
    ensures t.more ==> |t.rest| < |buffer|
  {
    var e := Find(buffer, COPY_END, 0);
    if e < 0 then
      var keep := if |buffer| > 3 then |buffer| - 3 else 0;
      Turn(s, [Raw(buffer[..keep])], buffer[keep..], false)
    else
      Turn(s.(inCopy := false, frozenCopy := false),
           if s.frozenCopy then [Raw(buffer[..e + 4]), Commit] else [Raw(buffer[..e + 4])],
           buffer[e + 4..], true)
  }

  /** What the searches find in statement text: where the post-data starts, a COPY header from `c`
      to its newline at `e`, or nothing but text that can leave up to `cut`. */
  datatype Found = PostData(p: nat) | Copy(c: nat, e: nat) | Nothing(cut: nat)

  /** The text searched for statements: what precedes the first COPY header. */
  function Statements(buffer: string): (r: string)
    ensures r <= buffer
  {
    var c := FirstHeader(buffer);
    if c < 0 then buffer else buffer[..c]
  }

  function Look(buffer: string, lookback: nat): (f: Found)
    ensures f.PostData? ==> f.p <= |buffer|
    ensures f.Copy? ==> f.c + |FROM_STDIN| < f.e < |buffer| && HeaderTable(buffer[f.c..f.e]).Some?
    ensures f.Nothing? ==> f.cut <= |buffer|
  {
    var c := FirstHeader(buffer);
    var p := FirstLineWhere(Statements(buffer), StartsMarker);
    if p >= 0 then PostData(p)
    else if c >= 0 then Copy(c, HeaderEnd(buffer, c))
    else Nothing(Cut(buffer, lookback))
  }

  function StatementTurn(s: State, buffer: string, lookback: nat): (t: Turn)
    requires !s.inCopy && buffer != ""
    ensures t.more ==> |t.rest| < |buffer|
  {
    var s1 := s.(freeze := s.freeze && !HasPartition(Statements(buffer)));
    match Look(buffer, lookback)
    case PostData(p) =>
      Turn(s1.(postData := Some(buffer[p..])), [Raw(buffer[..p])], "", false)
    case Copy(c, e) =>
      Turn(s1.(inCopy := true, frozenCopy := s1.freeze),
           [Raw(buffer[..c])] + HeaderPieces(buffer[c..e], HeaderTable(buffer[c..e]).value, s1.freeze),
           buffer[e..], true)
    case Nothing(cut) =>
      Turn(s1, [Raw(buffer[..cut])], buffer[cut..], false)
  }

  function Turned(s: State, buffer: string, lookback: nat): (t: Turn)
    requires buffer != ""
    ensures t.more ==> |t.rest| < |buffer|
  {
    if s.inCopy then CopyTurn(s, buffer) else StatementTurn(s, buffer, lookback)
  }

  /** The loop over the buffer: the state it leaves, and what is sent. */
  function Pumped(s: State, buffer: string, lookback: nat): (State, seq<Piece>)
    decreases |buffer|
  {
    if buffer == "" then (s.(pending := ""), [])
    else
      var t := Turned(s, buffer, lookback);
      if t.more then
        var rest := Pumped(t.state, t.rest, lookback);
        (rest.0, t.pieces + rest.1)
      else (t.state.(pending := t.rest), t.pieces)
  }

  function Fed(s: State, chunk: string, lookback: nat, maxPostData: nat): (State, seq<Piece>) {
    if s.passthrough then (s, [Raw(chunk)])
    else if s.postData.Some? then
      var data := s.postData.value + chunk;
      if |data| > maxPostData then (s.(passthrough := true, postData := None), [Raw(data)])
      else (s.(postData := Some(data)), [])
    else Pumped(s, s.pending + chunk, lookback)
  }

  /** Every chunk fed in turn. */
  function Run(s: State, chunks: seq<string>, lookback: nat, maxPostData: nat): (State, seq<Piece>)
    decreases |chunks|
  {
    if chunks == [] then (s, [])
    else
      var first := Fed(s, chunks[0], lookback, maxPostData);
      var rest := Run(first.0, chunks[1..], lookback, maxPostData);
      (rest.0, first.1 + rest.1)
  }

  /** Result of the loop when `pieces` are already sent and it goes on only if `more`. */
  ghost function PumpedAfter(pieces: seq<Piece>, s: State, buffer: string, more: bool, lookback: nat)
    : (State, seq<Piece>)
  {
    if more then (Pumped(s, buffer, lookback).0, pieces + Pumped(s, buffer, lookback).1)
    else (s.(pending := buffer), pieces)
  }

  lemma {:induction false} PumpedAfterStart(s: State, buffer: string, lookback: nat)
    ensures PumpedAfter([], s, buffer, true, lookback) == Pumped(s, buffer, lookback)
    ensures Render([]) == ""
  {
    hide Pumped;
    assert [] + Pumped(s, buffer, lookback).1 == Pumped(s, buffer, lookback).1;
  }

  lemma {:induction false} PumpedAfterTurn(pieces: seq<Piece>, s: State, buffer: string, lookback: nat)
    requires buffer != ""
    ensures var t := Turned(s, buffer, lookback);
            PumpedAfter(pieces, s, buffer, true, lookback)
            == PumpedAfter(pieces + t.pieces, t.state, t.rest, t.more, lookback)
  {
    hide Turned;
    var t := Turned(s, buffer, lookback);
    if t.more {
      assert pieces + (t.pieces + Pumped(t.state, t.rest, lookback).1)
          == pieces + t.pieces + Pumped(t.state, t.rest, lookback).1;
    }
  }

  lemma {:induction false} PumpedAfterEnd(pieces: seq<Piece>, s: State, buffer: string, more: bool, lookback: nat)
    requires !more || buffer == ""
    ensures PumpedAfter(pieces, s, buffer, more, lookback) == (s.(pending := buffer), pieces)
  {
    assert pieces + [] == pieces;
  }

  // --- The splitter itself ----------------------------------------------------------------------

  lemma {:induction false} RenderConcat(a: seq<Piece>, b: seq<Piece>)
    ensures Render(a + b) == Render(a) + Render(b)
  {
    if a == [] {
      assert a + b == b;
    } else {
      assert (a + b)[1..] == a[1..] + b;
      RenderConcat(a[1..], b);
    }
  }

  class Splitter {
    const LOOKBACK: nat := 64 * 1024
    const maxPostData: nat
    var freeze: bool
    var postData: Option<string>
    var inCopy: bool
    var frozenCopy: bool
    var pending: string
    var passthrough: bool

    function Abs(): State
      reads this
    {
      State(freeze, postData, inCopy, frozenCopy, pending, passthrough)
    }

    constructor (maxPostData: nat := 64 * 1024 * 1024, freeze: bool := false)
      ensures Abs() == Initial(freeze) && this.maxPostData == maxPostData
    {
      this.maxPostData := maxPostData;
      this.freeze := freeze;
      postData := None;
      inCopy, frozenCopy, passthrough := false, false, false;
      pending := "";
    }

    /** Returns what may leave for psql now. */
    method Feed(chunk: string) returns (sent: string)
      modifies this
      ensures Abs() == Fed(old(Abs()), chunk, LOOKBACK, maxPostData).0
      ensures sent == Render(Fed(old(Abs()), chunk, LOOKBACK, maxPostData).1)
    {
      if passthrough {
        assert Render([Raw(chunk)][1..]) == "";
        return chunk;
      }
      if postData.Some? {
        postData := Some(postData.value + chunk);
        if |postData.value| > maxPostData {
          passthrough := true;
          sent := postData.value;
          assert Render([Raw(sent)][1..]) == "";
          postData := None;
          return;
        }
        return "";
      }
      sent := Pump(pending + chunk);
    }

    method Pump(whole: string) returns (sent: string)
      modifies this
      ensures Abs() == Pumped(old(Abs()), whole, LOOKBACK).0
      ensures sent == Render(Pumped(old(Abs()), whole, LOOKBACK).1)
    {
      hide CopyTurn, StatementTurn, Pumped, PumpedAfter, Render;
      var buffer, more := whole, true;
      sent := "";
      ghost var pieces: seq<Piece> := [];
      PumpedAfterStart(Abs(), whole, LOOKBACK);
      while more && buffer != ""
        invariant PumpedAfter([], old(Abs()), whole, true, LOOKBACK)
               == PumpedAfter(pieces, Abs(), buffer, more, LOOKBACK)
        invariant sent == Render(pieces)
        decreases more, |buffer|
      {
        ghost var t := Turned(Abs(), buffer, LOOKBACK);
        PumpedAfterTurn(pieces, Abs(), buffer, LOOKBACK);
        RenderConcat(pieces, t.pieces);
        pieces := pieces + t.pieces;
        var output;
        if inCopy {
          output, buffer, more := CopyStep(buffer);
        } else {
          output, buffer, more := StatementStep(buffer);
        }
        sent := sent + output;
      }
      PumpedAfterEnd(pieces, Abs(), buffer, more, LOOKBACK);
      pending := buffer;
    }

    method CopyStep(buffer: string) returns (sent: string, rest: string, more: bool)
      requires inCopy
      modifies this
      ensures var t := CopyTurn(old(Abs()), buffer);
              Abs() == t.state && sent == Render(t.pieces) && rest == t.rest && more == t.more
    {
      var end := Find(buffer, COPY_END, 0);
      if end < 0 {
        var keep := if |buffer| > 3 then |buffer| - 3 else 0;
        RenderRaw(buffer[..keep]);
        return buffer[..keep], buffer[keep..], false;
      }
      sent := buffer[..end + 4];
      RenderRaw(sent);
      if frozenCopy {
        RenderConcat([Raw(sent)], [Commit]);
        RenderOne(Commit);
        sent := sent + PieceText(Commit);
      }
      rest, more := buffer[end + 4..], true;
      inCopy, frozenCopy := false, false;
    }

    method StatementStep(buffer: string) returns (sent: string, rest: string, more: bool)
      requires !inCopy && buffer != ""
      modifies this
      ensures var t := StatementTurn(old(Abs()), buffer, LOOKBACK);
              Abs() == t.state && sent == Render(t.pieces) && rest == t.rest && more == t.more
    {
      hide PieceText, Render, HeaderTable, HasPartition, FirstHeader, HeaderEnd, FirstLineWhere, HeaderPieces,
           Cut, StartsMarker, FrozenHeader;
      var copy := FirstHeader(buffer);
      var statements := if copy < 0 then buffer else buffer[..copy];
      if freeze && HasPartition(statements) {
        freeze := false;
      }
      var post := FirstLineWhere(statements, StartsMarker);
      if post >= 0 {
        RenderRaw(buffer[..post]);
        postData := Some(buffer[post..]);
        return buffer[..post], "", false;
      }
      if copy >= 0 {
        var end := HeaderEnd(buffer, copy);
        var header := buffer[copy..end];
        var table := HeaderTable(header).value;
        RenderConcat([Raw(buffer[..copy])], HeaderPieces(header, table, freeze));
        RenderRaw(buffer[..copy]);
        RenderHeader(header, table, freeze);
        sent := buffer[..copy];
        frozenCopy := freeze;
        if freeze {
          // An error aborts the transaction: COMMIT is then a ROLLBACK, like a failed COPY.
          sent := sent + FrozenHeader(header, table);
        } else {
          sent := sent + header;
        }
        // The header's newline stays: an empty table ends at once with the end-of-data line.
        inCopy := true;
        return sent, buffer[end..], true;
      }
      var cut := Cut(buffer, LOOKBACK);
      RenderRaw(buffer[..cut]);
      return buffer[..cut], buffer[cut..], false;
    }

    /** What was still held back when the dump ends. */
    method Finish() returns (sent: string)
      modifies this
      ensures sent == old(pending) && Abs() == old(Abs()).(pending := "")
    {
      sent := pending;
      pending := "";
    }
  }

  lemma {:induction false} RenderOne(p: Piece)
    ensures Render([p]) == PieceText(p)
  {
    assert Render([p][1..]) == "";
  }

  lemma {:induction false} RenderRaw(text: string)
    ensures Render([Raw(text)]) == text
  {
    RenderOne(Raw(text));
  }

  lemma {:induction false} RenderHeader(header: string, table: string, freeze: bool)
    requires |header| >= |FROM_STDIN|
    ensures Render(HeaderPieces(header, table, freeze)) == if freeze then FrozenHeader(header, table) else header
  {
    var a, b, c, d := Begin(table), Raw(header[..|header| - 1]), FreezeOption, Raw(header[|header| - 1..]);
    RenderConcat([a, b], [c, d]);
    RenderConcat([a], [b]);
    RenderConcat([c], [d]);
    RenderOne(a);
    RenderOne(b);
    RenderOne(c);
    RenderOne(d);
    RenderRaw(header);
    assert [a, b, c, d] == [a, b] + [c, d] && [a, b] == [a] + [b] && [c, d] == [c] + [d];
  }
}
