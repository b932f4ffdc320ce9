/** Cutting a SQL script into statements, and printing statements back
    (odoo_manager_core/database_restore.py). */
module SqlScript {
  import opened Text

  /** Python's `str.isspace`, which `\s` and `rstrip` use on text. */
  predicate IsBlank(c: char) {
    || '\U{09}' <= c <= '\U{0D}' || '\U{1C}' <= c <= ' ' || c == '\U{85}' || c == '\U{A0}' || c == '\U{1680}'
    || '\U{2000}' <= c <= '\U{200A}' || c == '\U{2028}' || c == '\U{2029}' || c == '\U{202F}' || c == '\U{205F}'
    || c == '\U{3000}'
  }

  // --- The token pattern: each alternative gives the end of its match at `i`, or 0 ---------------

  /** `'(?:[^']|'')*'` after its opening quote: a doubled quote belongs to the string, unless no
      closing quote follows; backtracking then closes at the last doubled one, after `last`. */
  function QuotedEnd(t: string, i: nat, quote: char, last: nat): (e: nat)
    requires i <= |t| && last <= i
    ensures e == 0 || e == last || i < e <= |t|
    decreases |t| - i
  {
    if i == |t| then last
    else if t[i] != quote then QuotedEnd(t, i + 1, quote, last)
    else if i + 1 < |t| && t[i + 1] == quote then QuotedEnd(t, i + 2, quote, i + 1)
    else i + 1
  }

  /** The same for an E'…' string, where a backslash also takes the next character along. */
  function EscapedEnd(t: string, i: nat, last: nat): (e: nat)
    requires i <= |t| && last <= i
    ensures e == 0 || e == last || i < e <= |t|
    decreases |t| - i
  {
    if i == |t| then last
    else if t[i] == '\\' then (if i + 1 < |t| then EscapedEnd(t, i + 2, last) else last)
    else if t[i] != '\'' then EscapedEnd(t, i + 1, last)
    else if i + 1 < |t| && t[i + 1] == '\'' then EscapedEnd(t, i + 2, i + 1)
    else i + 1
  }

  /** `(?:[^']|'')*`: characters other than the quote, and doubled quotes. */
  predicate QuotedBody(t: string, i: nat, j: nat, quote: char)
    requires i <= j <= |t|
    decreases j - i
  {
    i == j
    || (t[i] != quote && QuotedBody(t, i + 1, j, quote))
    || (i + 1 < j && t[i] == quote == t[i + 1] && QuotedBody(t, i + 2, j, quote))
  }

  /** The pattern matches up to `e`: such a body, then a quote. */
  predicate QuotedMatch(t: string, i: nat, e: nat, quote: char) {
    i < e <= |t| && t[e - 1] == quote && QuotedBody(t, i, e - 1, quote)
  }

  /** The end is that of the longest match; without any, it is the one given. */
  lemma {:induction false} QuotedEndIsGreedy(t: string, i: nat, quote: char, last: nat)
    requires i <= |t| && last <= i
    ensures var e := QuotedEnd(t, i, quote, last);
      if exists j: nat :: QuotedMatch(t, i, j, quote)
      then QuotedMatch(t, i, e, quote) && forall j: nat :: QuotedMatch(t, i, j, quote) ==> j <= e
      else e == last
    decreases |t| - i
  {
    hide QuotedMatch;
    forall j: nat {
      QuotedStep(t, i, j, quote);
    }
    if i < |t| {
      if t[i] != quote {
        QuotedEndIsGreedy(t, i + 1, quote, last);
      } else if i + 1 < |t| && t[i + 1] == quote {
        QuotedEndIsGreedy(t, i + 2, quote, i + 1);
        assert QuotedMatch(t, i, i + 1, quote);
      } else {
        assert QuotedMatch(t, i, i + 1, quote);
      }
    }
  }

  lemma {:induction false} QuotedStep(t: string, i: nat, j: nat, quote: char)
    requires i <= |t|
    ensures QuotedMatch(t, i, j, quote) ==> i < j <= |t|
    ensures i < |t| ==>
      (QuotedMatch(t, i, j, quote) <==>
        if t[i] != quote then QuotedMatch(t, i + 1, j, quote)
        else j == i + 1 || (i + 1 < |t| && t[i + 1] == quote && QuotedMatch(t, i + 2, j, quote)))
  {
  }

  /** `(?:[^'\\]|\\.|'')*`: a backslash takes any character along. */
  predicate EscapedBody(t: string, i: nat, j: nat)
    requires i <= j <= |t|
    decreases j - i
  {
    i == j
    || (t[i] != '\'' && t[i] != '\\' && EscapedBody(t, i + 1, j))
    || (i + 1 < j && (t[i] == '\\' || t[i] == '\'' == t[i + 1]) && EscapedBody(t, i + 2, j))
  }

  predicate EscapedMatch(t: string, i: nat, e: nat) {
    i < e <= |t| && t[e - 1] == '\'' && EscapedBody(t, i, e - 1)
  }

  lemma {:induction false} EscapedEndIsGreedy(t: string, i: nat, last: nat)
    requires i <= |t| && last <= i
    ensures var e := EscapedEnd(t, i, last);
      if exists j: nat :: EscapedMatch(t, i, j)
      then EscapedMatch(t, i, e) && forall j: nat :: EscapedMatch(t, i, j) ==> j <= e
      else e == last
    decreases |t| - i
  {
    hide EscapedMatch;
    forall j: nat {
      EscapedStep(t, i, j);
    }
    if i < |t| {
      if t[i] == '\\' {
        if i + 1 < |t| {
          EscapedEndIsGreedy(t, i + 2, last);
        }
      } else if t[i] != '\'' {
        EscapedEndIsGreedy(t, i + 1, last);
      } else if i + 1 < |t| && t[i + 1] == '\'' {
        EscapedEndIsGreedy(t, i + 2, i + 1);
        assert EscapedMatch(t, i, i + 1);
      } else {
        assert EscapedMatch(t, i, i + 1);
      }
    }
  }

  lemma {:induction false} EscapedStep(t: string, i: nat, j: nat)
    requires i <= |t|
    ensures EscapedMatch(t, i, j) ==> i < j <= |t|
    ensures i < |t| ==>
      (EscapedMatch(t, i, j) <==>
        if t[i] == '\\' then i + 1 < |t| && EscapedMatch(t, i + 2, j)
        else if t[i] != '\'' then EscapedMatch(t, i + 1, j)
        else j == i + 1 || (i + 1 < |t| && t[i + 1] == '\'' && EscapedMatch(t, i + 2, j)))
  {
  }

  /** `open … close`, the body as short as possible. */
  function DelimitedEnd(t: string, bodyStart: nat, close: string): (e: nat)
    ensures e == 0 || bodyStart + |close| <= e <= |t|
  {
    var k := Find(t, close, bodyStart);
    if k < 0 then 0 else k + |close|
  }

  /** End of the opening `$tag$` at `i`, or 0. */
  function TagEnd(t: string, i: nat): (e: nat)
    requires i < |t|
    ensures e == 0 || (i + 2 < e <= |t| && t[i] == '$')
  {
    if t[i] == '$' && i + 1 < |t| && IsWord(t[i + 1]) && !('0' <= t[i + 1] <= '9') then
      var end := RunEnd(t, i + 1, IsWord);
      if end < |t| && t[end] == '$' then end + 1 else 0
    else 0
  }

  datatype Opener =
    | EscapeString | Quote(q: char) | DollarBody(open: nat) | LineComment | BlockComment | Semicolon | Meta | Ordinary

  predicate EscapePrefix(t: string, i: nat)
    requires i < |t|
  {
    t[i] in "Ee" && i + 1 < |t| && t[i + 1] == '\'' && (i == 0 || !IsWord(t[i - 1]))
  }

  /** Which alternative can start at `i`; their first characters tell them apart. */
  function OpenerAt(t: string, i: nat): (o: Opener)
    requires i < |t|
    ensures o.DollarBody? ==> i + 2 <= o.open <= |t|
    ensures o.EscapeString? || o.LineComment? || o.BlockComment? ==> i + 2 <= |t|
  {
    if EscapePrefix(t, i) then EscapeString
    else if t[i] == '\'' || t[i] == '"' then Quote(t[i])
    else if At(t, i, "$$") then DollarBody(i + 2)
    else if TagEnd(t, i) > 0 then DollarBody(TagEnd(t, i))
    else if At(t, i, "--") then LineComment
    else if At(t, i, "/*") then BlockComment
    else if t[i] == ';' then Semicolon
    else if t[i] == '\\' && LineStart(t, i) then Meta
    else Ordinary
  }

  /** End of the token at `i`, or 0 when none matches there. */
  function TokenEnd(t: string, i: nat): (e: nat)
    requires i < |t|
    ensures e == 0 || i < e <= |t|
  {
    match OpenerAt(t, i)
    case EscapeString => EscapedEnd(t, i + 2, 0)
    case Quote(q) => QuotedEnd(t, i + 1, q, 0)
    case DollarBody(open) => DelimitedEnd(t, open, t[i..open])
    case LineComment => Newline(t, i)
    case BlockComment => DelimitedEnd(t, i + 2, "*/")
    case Semicolon => i + 1
    case Meta => Newline(t, i)
    case Ordinary => 0
  }

  // --- Splitting ----------------------------------------------------------------------------------

  /** Without the blanks and `--` comments it starts with. */
  function StripLeading(s: string): (r: string)
    ensures |r| <= |s|
    decreases |s|
  {
    if s != "" && IsBlank(s[0]) then StripLeading(s[1..])
    else if At(s, 0, "--") then
      assert s[0..2][0] == '-';
      StripLeading(s[Newline(s, 0)..])
    else s
  }

  function StripRight(s: string): string {
    if s != "" && IsBlank(s[|s| - 1]) then StripRight(s[..|s| - 1]) else s
  }

  function OneIfAny(body: string): seq<string> {
    if body == "" then [] else [body]
  }

  /** Statements of `t` from `start`, the tokens before `i` being read. */
  function StatementsFrom(t: string, start: nat, i: nat): seq<string>
    requires start <= i <= |t|
    decreases |t| - i
  {
    if i == |t| then OneIfAny(StripRight(StripLeading(t[start..])))
    else
      var e := TokenEnd(t, i);
      if e == 0 then StatementsFrom(t, start, i + 1)
      else if OpenerAt(t, i).Semicolon? then OneIfAny(StripLeading(t[start..i])) + StatementsFrom(t, e, e)
      else if OpenerAt(t, i).Meta? && StripLeading(t[start..i]) == "" then
        OneIfAny(StripRight(t[i..e])) + StatementsFrom(t, e, e)
      else StatementsFrom(t, start, e)
  }

  method SplitSqlStatements(text: string) returns (statements: seq<string>)
    ensures statements == StatementsFrom(text, 0, 0)
  {
    hide TokenEnd, OpenerAt, StripLeading, StripRight;
    statements := [];
    var start: nat, i: nat := 0, 0;
    assert [] + StatementsFrom(text, 0, 0) == StatementsFrom(text, 0, 0);
    while i < |text|
      invariant start <= i <= |text|
      invariant statements + StatementsFrom(text, start, i) == StatementsFrom(text, 0, 0)
      decreases |text| - i
    {
      var end := TokenEnd(text, i);
      if end == 0 {
        i := i + 1;
        continue;
      }
      var opener := OpenerAt(text, i);
      if !opener.Semicolon? && !opener.Meta? {
        i := end;
        continue;
      }
      var body := StripLeading(text[start..i]);
      if opener.Meta? {
        if body != "" {
          // A backslash in the middle of a statement: the statement keeps its text.
          i := end;
          continue;
        }
        body := StripRight(text[i..end]);
      }
      ghost var before, rest := statements, StatementsFrom(text, end, end);
      if body != "" {
        statements := statements + [body];
      }
      assert statements + rest == before + (OneIfAny(body) + rest);
      start, i := end, end;
    }
    var tail := StripRight(StripLeading(text[start..]));
    if tail != "" {
      statements := statements + [tail];
    }
  }

  /** What a task sends to its psql session. */
  function Script(statements: seq<string>): string {
    if statements == [] then "" else statements[0] + ";\n" + Script(statements[1..])
  }
}
