/** Nothing is missing from the pieces: every statement that is closed is made of them. */
module SqlPiecesExact {
  import opened Text
  import opened SqlScript
  import opened SqlRoundTrip
  import opened SqlPieces

  /** The characters from `i` to `e` are one piece, in its place. */
  ghost predicate PieceAt(s: string, i: nat, e: nat, p: Piece) {
    i < e <= |s| && s[i..e] == PieceText(p) && GoodPiece(s[..i], p, s[e..])
  }

  lemma {:induction false} QuotedInner(s: string, i: nat, quote: char, last: nat) returns (inner: string)
    requires i <= |s| && last <= i
    requires var e := QuotedEnd(s, i, quote, last); e > i && (e == |s| || s[e] != quote)
    ensures s[i..QuotedEnd(s, i, quote, last)] == Doubled(inner, quote) + [quote]
    decreases |s| - i
  {
    var e := QuotedEnd(s, i, quote, last);
    if s[i] != quote {
      var rest := QuotedInner(s, i + 1, quote, last);
      inner := [s[i]] + rest;
      assert inner[1..] == rest && s[i..e] == [s[i]] + s[i + 1..e];
    } else if i + 1 < |s| && s[i + 1] == quote {
      var rest := QuotedInner(s, i + 2, quote, i + 1);
      inner := [quote] + rest;
      assert inner[1..] == rest && s[i..e] == [quote, quote] + s[i + 2..e];
    } else {
      inner := "";
    }
  }

  lemma {:induction false} EscapedUnits(s: string, i: nat, last: nat) returns (units: seq<Unit>)
    requires i <= |s| && last <= i
    requires var e := EscapedEnd(s, i, last); e > i && (e == |s| || s[e] != '\'')
    ensures s[i..EscapedEnd(s, i, last)] == UnitsText(units) + "'"
    ensures forall k :: 0 <= k < |units| ==> GoodUnit(units[k])
    decreases |s| - i
  {
    var e := EscapedEnd(s, i, last);
    if s[i] == '\\' {
      var rest := EscapedUnits(s, i + 2, last);
      units := [Backslashed(s[i + 1])] + rest;
      assert units[1..] == rest && s[i..e] == ['\\', s[i + 1]] + s[i + 2..e];
    } else if s[i] != '\'' {
      var rest := EscapedUnits(s, i + 1, last);
      units := [Char(s[i])] + rest;
      assert units[1..] == rest && s[i..e] == [s[i]] + s[i + 1..e];
    } else if i + 1 < |s| && s[i + 1] == '\'' {
      var rest := EscapedUnits(s, i + 2, i + 1);
      units := [DoubledQuote] + rest;
      assert units[1..] == rest && s[i..e] == "''" + s[i + 2..e];
    } else {
      units := [];
      assert s[i..e] == "'";
    }
  }

  lemma {:induction false} FirstEnd(s: string, from: nat, end: string)
    requires Find(s, end, from) >= 0 && end != ""
    ensures var k := Find(s, end, from); from <= k && k + |end| <= |s| && s[k..k + |end|] == end
    ensures OnlyAtTheEnd(s[from..Find(s, end, from)], end)
  {
    hide Find;
    var k := Find(s, end, from);
    var body := s[from..k];
    assert body + end == s[from..k + |end|];
    forall before, after | |before| < |body| ensures !Closes(body + end, end, before, after) {
      if Closes(body + end, end, before, after) {
        ClosesAt(s, from, k + |end|, end, before, after);
      }
    }
  }

  lemma {:induction false} ClosesAt(s: string, from: nat, to: nat, end: string, before: string, after: string)
    requires from <= to <= |s| && Closes(s[from..to], end, before, after)
    ensures At(s, from + |before|, end)
  {
    var part := s[from..to];
    var a := |before|;
    assert part == before + end + after && a + |end| <= |part|;
    forall j | 0 <= j < |end| ensures s[from + a + j] == end[j] {
      assert part[a + j] == s[from + (a + j)];
    }
    assert s[from + a..from + a + |end|] == end;
  }

  lemma {:induction false} PlainPiece(s: string, i: nat)
    requires i < |s| && OpenerAt(s, i).Ordinary?
    ensures PieceAt(s, i, i + 1, Plain(s[i]))
  {
    hide At, TagEnd;
    var before, after := s[..i], s[i + 1..];
    FirstTwo(s, i);
    assert after != "" ==> after[0] == s[i + 1];
    assert before != "" ==> before[i - 1] == s[i - 1];
    if s[i] == '$' {
      forall tag, rest ensures !TagFollows(after, tag, rest) {
        if TagFollows(after, tag, rest) {
          assert s[i..] == "$" + tag + "$" + rest;
          TagRead(s, i, tag, rest);
        }
      }
    }
  }

  lemma {:induction false} QuotedPiece(s: string, i: nat) returns (p: Piece)
    requires i < |s| && OpenerAt(s, i).Quote? && TokenCloses(s, i)
    ensures PieceAt(s, i, TokenEnd(s, i), p)
  {
    hide QuotedEnd, At, TagEnd;
    var e := TokenEnd(s, i);
    var inner := QuotedInner(s, i + 1, s[i], 0);
    p := Quoted(s[i], inner);
    assert s[i..e] == [s[i]] + s[i + 1..e];
  }

  lemma {:induction false} EscapedPiece(s: string, i: nat) returns (p: Piece)
    requires i < |s| && OpenerAt(s, i).EscapeString? && TokenCloses(s, i)
    ensures PieceAt(s, i, TokenEnd(s, i), p)
  {
    hide EscapedEnd, OpenerAt, UnitsText;
    StringOpens(s, i);
    var e := TokenEnd(s, i);
    var units := EscapedUnits(s, i + 2, 0);
    p := EString(s[i], units);
    var text := UnitsText(units) + "'";
    assert s[i..e] == [s[i], '\''] + text;
    assert PieceText(p) == [s[i], '\''] + text;
  }

  lemma {:induction false} StringOpens(s: string, i: nat)
    requires i < |s| && OpenerAt(s, i).EscapeString?
    ensures i + 1 < |s| && (s[i] == 'E' || s[i] == 'e') && s[i + 1] == '\'' && !InWord(s[..i])
  {
    hide At, TagEnd;
    assert i > 0 ==> s[..i][i - 1] == s[i - 1];
  }

  lemma {:induction false} TagTaken(s: string, i: nat) returns (tag: string)
    requires i < |s| && OpenerAt(s, i).DollarBody?
    ensures Tag(tag) && s[i..OpenerAt(s, i).open] == "$" + tag + "$"
  {
    var open := OpenerAt(s, i).open;
    FirstTwo(s, i);
    tag := s[i + 1..open - 1];
    assert s[i..open] == [s[i]] + tag + [s[open - 1]];
  }

  lemma {:induction false} DollarPiece(s: string, i: nat) returns (p: Piece)
    requires i < |s| && OpenerAt(s, i).DollarBody? && TokenCloses(s, i)
    ensures PieceAt(s, i, TokenEnd(s, i), p)
  {
    hide OpenerAt, Find, OnlyAtTheEnd, Tag;
    var open, e := OpenerAt(s, i).open, TokenEnd(s, i);
    var tag := TagTaken(s, i);
    var end := "$" + tag + "$";
    FirstEnd(s, open, end);
    var k := Find(s, end, open);
    p := Dollar(tag, s[open..k]);
    assert s[i..e] == s[i..open] + (s[open..k] + s[k..e]);
    DollarParts(tag, s[open..k]);
  }

  lemma {:induction false} LinePiece(s: string, i: nat)
    requires i < |s| && OpenerAt(s, i).LineComment? && TokenCloses(s, i)
    ensures i + 2 <= TokenEnd(s, i) <= |s| && PieceAt(s, i, TokenEnd(s, i), ToLineEnd(s[i + 2..TokenEnd(s, i)]))
  {
    hide At, TagEnd;
    FirstTwo(s, i);
    var n := Newline(s, i);
    assert s[i..n] == "--" + s[i + 2..n];
  }

  lemma {:induction false} BlockPiece(s: string, i: nat) returns (p: Piece)
    requires i < |s| && OpenerAt(s, i).BlockComment? && TokenCloses(s, i)
    ensures PieceAt(s, i, TokenEnd(s, i), p)
  {
    hide At, TagEnd, Find, OnlyAtTheEnd;
    FirstTwo(s, i);
    FirstEnd(s, i + 2, "*/");
    var k := Find(s, "*/", i + 2);
    p := Enclosed(s[i + 2..k]);
    assert s[i..k + 2] == "/*" + s[i + 2..k] + s[k..k + 2];
  }

  lemma {:induction false} PieceTaken(s: string, i: nat) returns (p: Piece)
    requires i < |s| && TokenCloses(s, i)
    ensures PieceAt(s, i, if TokenEnd(s, i) == 0 then i + 1 else TokenEnd(s, i), p)
  {
    hide PieceAt;
    match OpenerAt(s, i)
    case Ordinary =>
      p := Plain(s[i]);
      PlainPiece(s, i);
    case EscapeString => p := EscapedPiece(s, i);
    case Quote(_) => p := QuotedPiece(s, i);
    case DollarBody(_) => p := DollarPiece(s, i);
    case LineComment =>
      LinePiece(s, i);
      p := ToLineEnd(s[i + 2..TokenEnd(s, i)]);
    case BlockComment => p := BlockPiece(s, i);
  }

  lemma {:induction false} PiecesFrom(s: string, i: nat) returns (pieces: seq<Piece>)
    requires i <= |s| && Closed(s, i)
    ensures PiecesText(pieces) == s[i..] && GoodPieces(s[..i], pieces)
    decreases |s| - i
  {
    hide TokenCloses, TokenEnd, PieceText, GoodPiece;
    if i == |s| {
      pieces := [];
    } else {
      var e := if TokenEnd(s, i) == 0 then i + 1 else TokenEnd(s, i);
      var p := PieceTaken(s, i);
      var rest := PiecesFrom(s, e);
      pieces := [p] + rest;
      assert pieces[1..] == rest && s[i..] == s[i..e] + s[e..] && s[..e] == s[..i] + s[i..e];
    }
  }

  /** A statement is well-formed if and only if it starts as one and is made of good pieces. */
  lemma {:induction false} WellFormedIff(s: string)
    ensures WellFormed(s) <==> StartsStatement(s) && exists pieces :: PiecesText(pieces) == s && GoodPieces("", pieces)
  {
    hide Closed, GoodPieces;
    if WellFormed(s) {
      var pieces := PiecesFrom(s, 0);
      assert s[0..] == s && s[..0] == "";
    }
    if pieces :| PiecesText(pieces) == s && GoodPieces("", pieces) {
      assert "" + PiecesText(pieces) == s;
      PiecesClosed(s, "", pieces);
    }
  }
}
