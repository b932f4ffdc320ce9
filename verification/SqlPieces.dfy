/** Statements written piece by piece, as SQL defines them: strings and names with doubled quotes, E strings with
    backslashes, dollar bodies, comments, and anything else one character at a time. */
module SqlPieces {
  import opened Text
  import opened SqlScript
  import opened SqlRoundTrip

  /** A character of an E string. */
  datatype Unit = Char(c: char) | DoubledQuote | Backslashed(c: char)

  datatype Piece =
    | Plain(c: char)
    | Quoted(quote: char, inner: string)
    | EString(e: char, units: seq<Unit>)
    | Dollar(tag: string, body: string)
    | ToLineEnd(comment: string)
    | Enclosed(comment: string)

  function UnitText(u: Unit): string {
    match u
    case Char(c) => [c]
    case DoubledQuote => "''"
    case Backslashed(c) => ['\\', c]
  }

  function UnitsText(units: seq<Unit>): string {
    if units == [] then "" else UnitText(units[0]) + UnitsText(units[1..])
  }

  /** The quotes inside are doubled. */
  function Doubled(inner: string, quote: char): string {
    if inner == "" then ""
    else (if inner[0] == quote then [quote, quote] else [inner[0]]) + Doubled(inner[1..], quote)
  }

  function PieceText(p: Piece): string {
    match p
    case Plain(c) => [c]
    case Quoted(quote, inner) => [quote] + Doubled(inner, quote) + [quote]
    case EString(e, units) => [e] + "'" + UnitsText(units) + "'"
    case Dollar(tag, body) => "$" + tag + "$" + body + "$" + tag + "$"
    case ToLineEnd(comment) => "--" + comment
    case Enclosed(comment) => "/*" + comment + "*/"
  }

  function PiecesText(pieces: seq<Piece>): string {
    if pieces == [] then "" else PieceText(pieces[0]) + PiecesText(pieces[1..])
  }

  predicate GoodUnit(u: Unit) {
    u.Char? ==> u.c != '\'' && u.c != '\\'
  }

  predicate Tag(tag: string) {
    tag == "" || (!('0' <= tag[0] <= '9') && forall i :: 0 <= i < |tag| ==> IsWord(tag[i]))
  }

  predicate InWord(before: string) {
    before != "" && IsWord(before[|before| - 1])
  }

  predicate AtLineStart(before: string) {
    before == "" || before[|before| - 1] == '\n'
  }

  predicate Starts(text: string, c: char) {
    text != "" && text[0] == c
  }

  ghost predicate TagFollows(after: string, tag: string, rest: string) {
    Tag(tag) && after == tag + "$" + rest
  }

  ghost predicate Closes(text: string, end: string, before: string, after: string) {
    text == before + end + after
  }

  /** The end of the text is the first place where `end` occurs. */
  ghost predicate OnlyAtTheEnd(body: string, end: string) {
    forall before, after :: |before| < |body| ==> !Closes(body + end, end, before, after)
  }

  /** The piece is what it is said to be, between these two texts of its statement: what is plain opens nothing,
      and what is closed is not prolonged. */
  ghost predicate GoodPiece(before: string, p: Piece, after: string) {
    match p
    case Plain(c) =>
      && c != '\'' && c != '"' && c != ';'
      && !(c == '-' && Starts(after, '-')) && !(c == '/' && Starts(after, '*'))
      && !(c == '\\' && AtLineStart(before))
      && !((c == 'E' || c == 'e') && Starts(after, '\'') && !InWord(before))
      && (c == '$' ==> forall tag, rest :: !TagFollows(after, tag, rest))
    case Quoted(quote, inner) => (quote == '\'' || quote == '"') && !Starts(after, quote)
    case EString(e, units) =>
      && (e == 'E' || e == 'e') && !InWord(before) && !Starts(after, '\'')
      && forall i :: 0 <= i < |units| ==> GoodUnit(units[i])
    case Dollar(tag, body) => Tag(tag) && OnlyAtTheEnd(body, "$" + tag + "$")
    case ToLineEnd(comment) => '\n' !in comment && Starts(after, '\n')
    case Enclosed(comment) => OnlyAtTheEnd(comment, "*/")
  }

  ghost predicate GoodPieces(before: string, pieces: seq<Piece>)
    decreases |pieces|
  {
    pieces == []
    || (&& GoodPiece(before, pieces[0], PiecesText(pieces[1..]))
        && GoodPieces(before + PieceText(pieces[0]), pieces[1..]))
  }

  // --- Each piece is read as one token ------------------------------------------------------------------------

  /** From `i` on, the text goes on with `part` and then `rest`. */
  ghost predicate Continues(s: string, i: nat, part: string, rest: string) {
    i <= |s| && s[i..] == part + rest
  }

  lemma {:induction false} ContinuesCharacters(s: string, i: nat, part: string, rest: string)
    requires Continues(s, i, part, rest)
    ensures i + |part| + |rest| == |s|
    ensures forall k :: 0 <= k < |part| ==> s[i + k] == part[k]
    ensures forall k :: 0 <= k < |rest| ==> s[i + |part| + k] == rest[k]
    ensures Continues(s, i + |part|, "", rest)
  {
    assert forall k :: 0 <= k < |part| ==> s[i..][k] == (part + rest)[k];
    forall k | 0 <= k < |rest| ensures s[i + |part| + k] == rest[k] {
      assert s[i..][|part| + k] == (part + rest)[|part| + k];
    }
    assert s[i + |part|..] == "" + rest;
  }

  lemma {:induction false} QuotedRead(s: string, i: nat, inner: string, quote: char, rest: string, last: nat)
    requires Continues(s, i, Doubled(inner, quote) + [quote], rest) && !Starts(rest, quote) && last <= i
    ensures QuotedEnd(s, i, quote, last) == i + |Doubled(inner, quote)| + 1
    decreases |inner|
  {
    hide Continues;
    var part := Doubled(inner, quote) + [quote];
    ContinuesCharacters(s, i, part, rest);
    if inner != "" {
      var one := if inner[0] == quote then [quote, quote] else [inner[0]];
      var others := Doubled(inner[1..], quote) + [quote];
      assert part == one + others;
      Onwards(s, i, one, others, rest);
      if inner[0] == quote {
        assert s[i] == part[0] && s[i + 1] == part[1];
        QuotedRead(s, i + 2, inner[1..], quote, rest, i + 1);
      } else {
        assert s[i] == part[0];
        QuotedRead(s, i + 1, inner[1..], quote, rest, last);
      }
    } else {
      assert part == [quote] && s[i] == part[0];
      assert i + 1 < |s| ==> s[i + 1] == rest[0];
    }
  }

  lemma {:induction false} Prefix(s: string, i: nat, one: string, others: string, rest: string)
    requires Continues(s, i, one + others, rest)
    ensures Continues(s, i, one, others + rest)
  {
    assert one + others + rest == one + (others + rest);
  }

  lemma {:induction false} Onwards(s: string, i: nat, one: string, others: string, rest: string)
    requires Continues(s, i, one + others, rest)
    ensures Continues(s, i + |one|, others, rest)
  {
    assert s[i + |one|..] == s[i..][|one|..];
    assert (one + others + rest)[|one|..] == others + rest;
  }

  lemma {:induction false} EscapedRead(s: string, i: nat, units: seq<Unit>, rest: string, last: nat)
    requires Continues(s, i, UnitsText(units) + "'", rest) && !Starts(rest, '\'') && last <= i
    requires forall k :: 0 <= k < |units| ==> GoodUnit(units[k])
    ensures EscapedEnd(s, i, last) == i + |UnitsText(units)| + 1
    decreases |units|
  {
    hide Continues;
    var part := UnitsText(units) + "'";
    ContinuesCharacters(s, i, part, rest);
    if units != [] {
      var one := UnitText(units[0]);
      var others := UnitsText(units[1..]) + "'";
      assert part == one + others;
      Onwards(s, i, one, others, rest);
      assert GoodUnit(units[0]);
      assert part[0] == one[0] && (|one| == 2 ==> part[1] == one[1]);
      assert s[i + 0] == one[0] && (|one| == 2 ==> s[i + 1] == one[1]);
      EscapedRead(s, i + |one|, units[1..], rest, if units[0].DoubledQuote? then i + 1 else last);
    } else {
      assert s[i] == part[0];
      assert i + 1 < |s| ==> s[i + 1] == rest[0];
    }
  }

  lemma {:induction false} BodyRead(s: string, i: nat, body: string, end: string, rest: string)
    requires Continues(s, i, body + end, rest) && OnlyAtTheEnd(body, end) && end != ""
    ensures Find(s, end, i) == i + |body|
  {
    var part := body + end;
    ContinuesCharacters(s, i, part, rest);
    assert s[i + |body|..i + |body| + |end|] == end;
    assert At(s, i + |body|, end);
    forall k: nat | i <= k < i + |body| ensures !At(s, k, end) {
      if At(s, k, end) {
        EarlierEnd(s, i, body, end, rest, k);
      }
    }
  }

  lemma {:induction false} EarlierEnd(s: string, i: nat, body: string, end: string, rest: string, k: nat)
    requires Continues(s, i, body + end, rest) && i <= k < i + |body| && At(s, k, end)
    ensures !OnlyAtTheEnd(body, end)
  {
    var part, n := body + end, k - i;
    ContinuesCharacters(s, i, part, rest);
    assert part[n..n + |end|] == s[k..k + |end|];
    assert part == part[..n] + part[n..n + |end|] + part[n + |end|..];
    assert Closes(part, end, part[..n], part[n + |end|..]);
  }

  ghost predicate IsToken(s: string, before: string, p: Piece, after: string) {
    s == before + PieceText(p) + after && GoodPiece(before, p, after)
  }

  lemma {:induction false} PieceContinues(s: string, before: string, p: Piece, after: string)
    requires IsToken(s, before, p, after)
    ensures Continues(s, |before|, PieceText(p), after)
    ensures before != "" ==> s[|before| - 1] == before[|before| - 1]
  {
    assert s[|before|..] == PieceText(p) + after;
  }

  /** A plain character starts no token. */
  lemma {:induction false} PlainRead(s: string, before: string, c: char, after: string)
    requires IsToken(s, before, Plain(c), after)
    ensures OpenerAt(s, |before|).Ordinary?
  {
    hide TagEnd, At;
    var i := |before|;
    assert s[i] == c && s[i + 1..] == after;
    assert after != "" ==> s[i + 1] == after[0];
    assert before != "" ==> s[i - 1] == before[i - 1];
    FirstTwo(s, i);
    if TagEnd(s, i) > 0 {
      TagOpens(s, i, after);
    }
    if c == '$' && after != "" && after[0] == '$' {
      EmptyTag(after);
    }
    assert c in "Ee" <==> c == 'E' || c == 'e';
  }

  lemma {:induction false} EmptyTag(after: string)
    requires Starts(after, '$')
    ensures TagFollows(after, "", after[1..])
  {
    assert after == "" + "$" + after[1..];
  }

  lemma {:induction false} FirstTwo(s: string, i: nat)
    requires i < |s|
    ensures At(s, i, "$$") <==> s[i] == '$' && i + 1 < |s| && s[i + 1] == '$'
    ensures At(s, i, "--") <==> s[i] == '-' && i + 1 < |s| && s[i + 1] == '-'
    ensures At(s, i, "/*") <==> s[i] == '/' && i + 1 < |s| && s[i + 1] == '*'
  {
    if i + 2 <= |s| {
      assert s[i..i + 2] == [s[i], s[i + 1]];
    }
  }

  lemma {:induction false} TagOpens(s: string, i: nat, after: string)
    requires i < |s| && TagEnd(s, i) > 0 && s[i + 1..] == after
    ensures s[i] == '$' && exists tag, rest :: TagFollows(after, tag, rest)
  {
    var end := TagEnd(s, i);
    var tag, rest := s[i + 1..end - 1], s[end..];
    assert after == tag + "$" + rest;
    assert TagFollows(after, tag, rest);
  }

  /** A tag is read up to its dollar sign. */
  lemma {:induction false} TagRead(s: string, i: nat, tag: string, rest: string)
    requires Continues(s, i, "$" + tag + "$", rest) && Tag(tag)
    ensures OpenerAt(s, i) == DollarBody(i + |tag| + 2)
    ensures s[i..i + |tag| + 2] == "$" + tag + "$"
  {
    var open := "$" + tag + "$";
    ContinuesCharacters(s, i, open, rest);
    assert s[i + 0] == '$' && s[i + (|tag| + 1)] == '$';
    assert forall k :: 0 <= k < |tag| ==> open[k + 1] == tag[k];
    assert s[i..i + |tag| + 2] == s[i..][..|tag| + 2] == open;
    FirstTwo(s, i);
    if tag != "" {
      assert s[i + 1] == tag[0];
      assert forall k :: i + 1 <= k < i + 1 + |tag| ==> s[k] == open[k - i] && IsWord(s[k]);
      RunIs(s, i + 1, i + 1 + |tag|, IsWord);
    }
  }

  lemma {:induction false} RunIs(s: string, i: nat, e: nat, p: char -> bool)
    requires i <= e <= |s| && (forall k :: i <= k < e ==> p(s[k])) && (e < |s| ==> !p(s[e]))
    ensures RunEnd(s, i, p) == e
    decreases e - i
  {
    if i < e {
      RunIs(s, i + 1, e, p);
    }
  }

  /** The first characters tell the kinds of token apart. */
  lemma {:induction false} OpensAs(s: string, i: nat)
    requires i + 1 < |s|
    ensures s[i] == '\'' || s[i] == '"' ==> OpenerAt(s, i) == Quote(s[i])
    ensures (s[i] == 'E' || s[i] == 'e') && s[i + 1] == '\'' && (i == 0 || !IsWord(s[i - 1])) ==>
              OpenerAt(s, i).EscapeString?
    ensures s[i] == '-' && s[i + 1] == '-' ==> OpenerAt(s, i).LineComment?
    ensures s[i] == '/' && s[i + 1] == '*' ==> OpenerAt(s, i).BlockComment?
  {
    hide At, IsWord, LineStart;
    FirstTwo(s, i);
  }

  ghost predicate ReadsToEnd(s: string, i: nat, e: nat) {
    i < |s| && TokenCloses(s, i) && TokenEnd(s, i) == e
  }

  lemma {:induction false} FirstCharacters(s: string, i: nat, part: string, rest: string)
    requires Continues(s, i, part, rest)
    ensures i + |part| + |rest| == |s| && Continues(s, i + |part|, "", rest)
    ensures |part| > 0 ==> s[i] == part[0]
    ensures |part| > 1 ==> s[i + 1] == part[1]
  {
    ContinuesCharacters(s, i, part, rest);
    assert |part| > 0 ==> s[i + 0] == part[0];
  }

  lemma {:induction false} NextIs(s: string, e: nat, after: string)
    requires Continues(s, e, "", after)
    ensures e < |s| ==> after != "" && s[e] == after[0]
  {
    assert "" + after == after;
    assert e < |s| ==> s[e..][0] == s[e];
  }

  lemma {:induction false} QuotedToken(s: string, i: nat, quote: char, inner: string, after: string)
    requires Continues(s, i, [quote] + (Doubled(inner, quote) + [quote]), after)
    requires (quote == '\'' || quote == '"') && !Starts(after, quote)
    ensures ReadsToEnd(s, i, i + |Doubled(inner, quote)| + 2)
  {
    hide QuotedEnd, OpenerAt, Continues, Doubled;
    var part := Doubled(inner, quote) + [quote];
    FirstCharacters(s, i, [quote] + part, after);
    OpensAs(s, i);
    Onwards(s, i, [quote], part, after);
    QuotedRead(s, i + 1, inner, quote, after, 0);
    NextIs(s, i + 1 + |part|, after);
  }

  lemma {:induction false} EscapedToken(s: string, i: nat, e: char, units: seq<Unit>, after: string)
    requires Continues(s, i, [e, '\''] + (UnitsText(units) + "'"), after)
    requires (e == 'E' || e == 'e') && (i == 0 || !IsWord(s[i - 1])) && !Starts(after, '\'')
    requires forall k :: 0 <= k < |units| ==> GoodUnit(units[k])
    ensures ReadsToEnd(s, i, i + |UnitsText(units)| + 3)
  {
    hide EscapedEnd, OpenerAt, Continues, UnitsText;
    var part := UnitsText(units) + "'";
    FirstCharacters(s, i, [e, '\''] + part, after);
    OpensAs(s, i);
    Onwards(s, i, [e, '\''], part, after);
    EscapedRead(s, i + 2, units, after, 0);
    NextIs(s, i + 2 + |part|, after);
  }

  lemma {:induction false} DollarToken(s: string, i: nat, tag: string, body: string, after: string)
    requires Continues(s, i, PieceText(Dollar(tag, body)), after)
    requires Tag(tag) && OnlyAtTheEnd(body, "$" + tag + "$")
    ensures ReadsToEnd(s, i, i + |PieceText(Dollar(tag, body))|)
  {
    hide OpenerAt, Find, Continues, OnlyAtTheEnd, Tag, PieceText;
    var open := "$" + tag + "$";
    var part := body + open;
    DollarParts(tag, body);
    Prefix(s, i, open, part, after);
    Onwards(s, i, open, part, after);
    TagRead(s, i, tag, part + after);
    BodyRead(s, i + |open|, body, open, after);
    FirstCharacters(s, i, open + part, after);
  }

  lemma {:induction false} DollarParts(tag: string, body: string)
    ensures PieceText(Dollar(tag, body)) == "$" + tag + "$" + (body + ("$" + tag + "$"))
  {
    var open := "$" + tag + "$";
    assert open + body + open == open + (body + open);
    var upTo := open + body;
    assert upTo + "$" + tag + "$" == upTo + open;
  }

  lemma {:induction false} LineToken(s: string, i: nat, comment: string, after: string)
    requires Continues(s, i, "--" + comment, after) && '\n' !in comment && Starts(after, '\n')
    ensures ReadsToEnd(s, i, i + 2 + |comment|)
  {
    hide OpenerAt, Continues, Newline;
    FirstCharacters(s, i, "--" + comment, after);
    OpensAs(s, i);
    LineEnds(s, i, comment, after);
  }

  lemma {:induction false} LineEnds(s: string, i: nat, comment: string, after: string)
    requires '\n' !in comment && Starts(after, '\n') && Continues(s, i, "--" + comment, after)
    ensures i + 2 + |comment| < |s| && Newline(s, i) == i + 2 + |comment|
  {
    var part := "--" + comment;
    ContinuesCharacters(s, i, part, after);
    assert s[i + |part| + 0] == '\n';
    assert forall k :: i <= k < i + |part| ==> s[k] == s[i..][k - i] == part[k - i];
  }

  lemma {:induction false} BlockToken(s: string, i: nat, comment: string, after: string)
    requires Continues(s, i, "/*" + (comment + "*/"), after) && OnlyAtTheEnd(comment, "*/")
    ensures ReadsToEnd(s, i, i + |comment| + 4)
  {
    hide OpenerAt, Continues, Find, OnlyAtTheEnd;
    var part := comment + "*/";
    FirstCharacters(s, i, "/*" + part, after);
    OpensAs(s, i);
    Onwards(s, i, "/*", part, after);
    BodyRead(s, i + 2, comment, "*/", after);
  }

  /** Every piece that is not plain is one token, which closes. */
  lemma {:induction false} TokenRead(s: string, before: string, p: Piece, after: string)
    requires IsToken(s, before, p, after) && !p.Plain?
    ensures ReadsToEnd(s, |before|, |before| + |PieceText(p)|)
  {
    hide Continues, ReadsToEnd, OnlyAtTheEnd, Tag, UnitsText, Doubled;
    var i := |before|;
    PieceContinues(s, before, p, after);
    match p
    case Quoted(quote, inner) =>
      assert PieceText(p) == [quote] + (Doubled(inner, quote) + [quote]);
      QuotedToken(s, i, quote, inner, after);
    case EString(e, units) =>
      assert PieceText(p) == [e, '\''] + (UnitsText(units) + "'");
      EscapedToken(s, i, e, units, after);
    case Dollar(tag, body) =>
      DollarToken(s, i, tag, body, after);
    case ToLineEnd(comment) =>
      LineToken(s, i, comment, after);
    case Enclosed(comment) =>
      assert PieceText(p) == "/*" + (comment + "*/");
      BlockToken(s, i, comment, after);
  }

  /** So a statement made of good pieces is closed. */
  lemma {:induction false} PiecesClosed(s: string, before: string, pieces: seq<Piece>)
    requires s == before + PiecesText(pieces) && GoodPieces(before, pieces)
    ensures Closed(s, |before|)
    decreases |pieces|
  {
    hide GoodPiece, TokenCloses, PieceText;
    if pieces != [] {
      var p, after := pieces[0], PiecesText(pieces[1..]);
      assert s == before + PieceText(p) + after;
      PiecesClosed(s, before + PieceText(p), pieces[1..]);
      if p.Plain? {
        PlainCloses(s, before, p.c, after);
      } else {
        TokenRead(s, before, p, after);
      }
    }
  }

  lemma {:induction false} PlainCloses(s: string, before: string, c: char, after: string)
    requires IsToken(s, before, Plain(c), after)
    ensures TokenCloses(s, |before|) && TokenEnd(s, |before|) == 0 && |PieceText(Plain(c))| == 1
  {
    hide OpenerAt;
    PlainRead(s, before, c, after);
  }
}
