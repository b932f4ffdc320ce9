/** Splitting a printed script gives its statements back. */
module SqlRoundTrip {
  import opened Text
  import opened SqlScript

  /** The token at `i` is closed within `s`, whatever follows a final semicolon, and does not end a
      statement. A string closed only by giving up a doubled quote is not closed. */
  predicate TokenCloses(s: string, i: nat)
    requires i < |s|
  {
    var e := TokenEnd(s, i);
    match OpenerAt(s, i)
    case Ordinary => true
    case EscapeString => e > 0 && (e == |s| || s[e] != '\'')
    case Quote(q) => e > 0 && (e == |s| || s[e] != q)
    case DollarBody(_) => e > 0
    case BlockComment => e > 0
    case LineComment => e < |s|
    case Semicolon => false
    case Meta => false
  }

  predicate Closed(s: string, i: nat)
    requires i <= |s|
    decreases |s| - i
  {
    i == |s| || (TokenCloses(s, i) && Closed(s, if TokenEnd(s, i) == 0 then i + 1 else TokenEnd(s, i)))
  }

  /** A statement as pg_dump writes it: it starts with neither a blank nor a comment, every string,
      quoted name, dollar body and comment is closed, and no semicolon or psql command stands outside them. */
  predicate WellFormed(s: string) {
    StartsStatement(s) && Closed(s, 0)
  }

  predicate StartsStatement(s: string) {
    s != "" && !IsBlank(s[0]) && !(|s| >= 2 && s[0] == '-' && s[1] == '-')
  }

  /** What ends a statement, or separates it from the end of the script. */
  predicate Stops(c: char) {
    c == ';' || IsBlank(c)
  }

  /** A statement in the middle of a script, in no word. */
  ghost predicate Placed(t: string, pre: string, s: string, after: string) {
    && t == pre + s + after
    && (pre == "" || !IsWord(pre[|pre| - 1]))
    && (s == "" || s[0] != '\\' || LineStart(pre, |pre|))
    && (after == "" || Stops(after[0]))
  }

  lemma {:induction false} CharacterPlaced(t: string, pre: string, s: string, after: string, i: nat)
    requires Placed(t, pre, s, after) && i < |s|
    ensures |pre| + i < |t| && t[|pre| + i] == s[i]
    ensures i + 1 < |s| ==> |pre| + i + 1 < |t| && t[|pre| + i + 1] == s[i + 1]
    ensures i + 1 == |s| && |pre| + i + 1 < |t| ==> Stops(t[|pre| + i + 1])
  {
  }

  lemma {:induction false} AtPlaced(t: string, pre: string, s: string, after: string, i: nat, p: string)
    requires Placed(t, pre, s, after) && (forall c :: c in p ==> !Stops(c)) && i <= |s| && p != ""
    ensures At(t, |pre| + i, p) <==> At(s, i, p)
  {
    hide Stops;
    assert after != "" ==> t[|pre| + |s|] == after[0];
    if i + |p| <= |s| {
      assert t[|pre| + i..|pre| + i + |p|] == s[i..i + |p|];
    } else if At(t, |pre| + i, p) {
      AtCharacters(t, |pre| + i, p);
    }
  }

  lemma {:induction false} FindPlaced(t: string, pre: string, s: string, after: string, i: nat, p: string)
    requires Placed(t, pre, s, after) && (forall c :: c in p ==> !Stops(c)) && p != ""
    requires i <= |s| && Find(s, p, i) >= 0
    ensures Find(t, p, |pre| + i) == |pre| + Find(s, p, i)
    decreases |s| - i
  {
    AtPlaced(t, pre, s, after, i, p);
    if !At(s, i, p) {
      FindPlaced(t, pre, s, after, i + 1, p);
    }
  }

  lemma {:induction false} RunPlaced(t: string, pre: string, s: string, after: string, i: nat, p: char -> bool)
    requires Placed(t, pre, s, after) && i <= |s| && (forall c :: Stops(c) ==> !p(c))
    ensures RunEnd(t, |pre| + i, p) == |pre| + RunEnd(s, i, p)
    decreases |s| - i
  {
    if i < |s| && p(s[i]) {
      RunPlaced(t, pre, s, after, i + 1, p);
    }
  }

  lemma {:induction false} NewlinePlaced(t: string, pre: string, s: string, after: string, i: nat)
    requires Placed(t, pre, s, after) && i <= |s| && Newline(s, i) < |s|
    ensures Newline(t, |pre| + i) == |pre| + Newline(s, i)
    decreases |s| - i
  {
    if s[i] != '\n' {
      NewlinePlaced(t, pre, s, after, i + 1);
    }
  }

  lemma {:induction false} QuotedPlaced(
    t: string, pre: string, s: string, after: string, i: nat, q: char, last: nat, last': nat)
    requires Placed(t, pre, s, after) && i <= |s| && !Stops(q) && last <= i && last' <= |pre| + i
    requires last > 0 ==> last < |s| && s[last] == q
    requires var e := QuotedEnd(s, i, q, last); e > 0 && (e == |s| || s[e] != q)
    ensures QuotedEnd(t, |pre| + i, q, last') == |pre| + QuotedEnd(s, i, q, last)
    decreases |s| - i
  {
    hide Placed, Stops;
    assert i < |s|;
    CharacterPlaced(t, pre, s, after, i);
    if s[i] != q {
      QuotedPlaced(t, pre, s, after, i + 1, q, last, last');
    } else if i + 1 < |s| && s[i + 1] == q {
      QuotedPlaced(t, pre, s, after, i + 2, q, i + 1, |pre| + i + 1);
    }
  }

  lemma {:induction false} QuoteDoesNotStop()
    ensures !Stops('\'')
  {
  }

  lemma {:induction false} EscapedPlaced(
    t: string, pre: string, s: string, after: string, i: nat, last: nat, last': nat)
    requires Placed(t, pre, s, after) && i <= |s| && last <= i && last' <= |pre| + i
    requires last > 0 ==> last < |s| && s[last] == '\''
    requires var e := EscapedEnd(s, i, last); e > 0 && (e == |s| || s[e] != '\'')
    ensures EscapedEnd(t, |pre| + i, last') == |pre| + EscapedEnd(s, i, last)
    decreases |s| - i
  {
    hide Placed, Stops;
    QuoteDoesNotStop();
    assert i < |s|;
    CharacterPlaced(t, pre, s, after, i);
    if s[i] == '\\' {
      assert i + 1 < |s|;
      EscapedPlaced(t, pre, s, after, i + 2, last, last');
    } else if s[i] != '\'' {
      EscapedPlaced(t, pre, s, after, i + 1, last, last');
    } else if i + 1 < |s| && s[i + 1] == '\'' {
      EscapedPlaced(t, pre, s, after, i + 2, i + 1, |pre| + i + 1);
    }
  }

  lemma {:induction false} TagPlaced(t: string, pre: string, s: string, after: string, i: nat)
    requires Placed(t, pre, s, after) && i < |s|
    ensures TagEnd(t, |pre| + i) == if TagEnd(s, i) == 0 then 0 else |pre| + TagEnd(s, i)
  {
    if i + 1 <= |s| {
      RunPlaced(t, pre, s, after, i + 1, IsWord);
    }
  }

  /** The kind of token at `i` does not change; a dollar body only moves. */
  lemma {:induction false} OpenerPlaced(t: string, pre: string, s: string, after: string, i: nat)
    requires Placed(t, pre, s, after) && i < |s|
    ensures OpenerAt(t, |pre| + i)
            == match OpenerAt(s, i) case DollarBody(open) => DollarBody(|pre| + open) case o => o
  {
    hide TagEnd;
    AtPlaced(t, pre, s, after, i, "$$");
    AtPlaced(t, pre, s, after, i, "--");
    AtPlaced(t, pre, s, after, i, "/*");
    TagPlaced(t, pre, s, after, i);
    assert t[|pre| + i] == s[i];
    assert i > 0 ==> t[|pre| + i - 1] == s[i - 1];
    assert i == 0 && pre != "" ==> t[|pre| - 1] == pre[|pre| - 1];
    assert i + 1 < |s| ==> t[|pre| + i + 1] == s[i + 1];
    assert i + 1 == |s| && after != "" ==> t[|pre| + i + 1] == after[0];
  }

  lemma {:induction false} TokenPlaced(t: string, pre: string, s: string, after: string, i: nat)
    requires Placed(t, pre, s, after) && i < |s| && TokenCloses(s, i)
    ensures TokenEnd(t, |pre| + i) == if TokenEnd(s, i) == 0 then 0 else |pre| + TokenEnd(s, i)
    ensures var o := OpenerAt(t, |pre| + i); !o.Semicolon? && !o.Meta?
  {
    hide OpenerAt, Find, QuotedEnd, EscapedEnd, Newline;
    OpenerPlaced(t, pre, s, after, i);
    match OpenerAt(s, i)
    case EscapeString =>
      EscapedPlaced(t, pre, s, after, i + 2, 0, 0);
    case Quote(q) =>
      QuoteStopsNothing(s, i);
      QuotedPlaced(t, pre, s, after, i + 1, q, 0, 0);
    case DollarBody(open) =>
      DollarTag(s, i);
      assert t[|pre| + i..|pre| + open] == s[i..open];
      FindPlaced(t, pre, s, after, open, s[i..open]);
    case BlockComment =>
      FindPlaced(t, pre, s, after, i + 2, "*/");
    case LineComment =>
      NewlinePlaced(t, pre, s, after, i);
    case _ =>
  }

  lemma {:induction false} QuoteStopsNothing(s: string, i: nat)
    requires i < |s| && OpenerAt(s, i).Quote?
    ensures !Stops(OpenerAt(s, i).q)
  {
  }

  lemma {:induction false} DollarTag(s: string, i: nat)
    requires i < |s| && OpenerAt(s, i).DollarBody?
    ensures forall c :: c in s[i..OpenerAt(s, i).open] ==> !Stops(c)
  {
    if At(s, i, "$$") {
      assert s[i..i + 2] == "$$";
    }
  }

  /** Reading a well-formed statement leads to the semicolon after it, whatever it contains. */
  lemma {:induction false} StatementRead(t: string, pre: string, s: string, after: string, start: nat, i: nat)
    requires Placed(t, pre, s, after) && i <= |s| && Closed(s, i) && start <= |pre|
    ensures StatementsFrom(t, start, |pre| + i) == StatementsFrom(t, start, |pre| + |s|)
    decreases |s| - i
  {
    hide TokenEnd, OpenerAt, StripLeading, StripRight, TokenCloses;
    if i < |s| {
      TokenPlaced(t, pre, s, after, i);
      var e := TokenEnd(s, i);
      StatementRead(t, pre, s, after, start, if e == 0 then i + 1 else e);
    }
  }

  lemma {:induction false} StatementTaken(t: string, pre: string, s: string, rest: string, start: nat)
    requires WellFormed(s) && t == pre + s + ";\n" + rest && LineStart(pre, |pre|)
    requires start <= |pre| && (start == |pre| || pre[start..] == "\n")
    ensures StatementsFrom(t, start, |pre|) == [s] + StatementsFrom(t, |pre| + |s| + 1, |pre| + |s| + 2)
  {
    hide TokenEnd, OpenerAt, StripLeading, StripRight, Closed, StatementsFrom;
    var after := ";\n" + rest;
    var semicolon := |pre| + |s|;
    assert t == pre + s + after;
    assert t[semicolon] == ';' && t[semicolon + 1] == '\n';
    StatementRead(t, pre, s, after, start, 0);
    assert t[start..semicolon] == pre[start..] + s;
    BlankStripped(pre[start..], s);
    OneStep(t, start, semicolon);
  }

  lemma {:induction false} ScriptRead(t: string, pre: string, statements: seq<string>, start: nat)
    requires forall s :: s in statements ==> WellFormed(s)
    requires t == pre + Script(statements) && LineStart(pre, |pre|)
    requires start <= |pre| && (start == |pre| || pre[start..] == "\n")
    ensures StatementsFrom(t, start, |pre|) == statements
    decreases |statements|
  {
    hide WellFormed, StatementsFrom;
    if statements == [] {
      assert t == pre;
      NothingRead(t, start);
    } else {
      var s, rest := statements[0], statements[1..];
      assert s in statements;
      assert t == pre + s + ";\n" + Script(rest);
      StatementTaken(t, pre, s, Script(rest), start);
      var next := pre + s + ";\n";
      assert t == next + Script(rest) && next[|pre| + |s| + 1..] == "\n";
      ScriptRead(t, next, rest, |pre| + |s| + 1);
      assert [s] + rest == statements;
    }
  }

  lemma {:induction false} NothingRead(t: string, start: nat)
    requires start <= |t| && (start == |t| || t[start..] == "\n")
    ensures StatementsFrom(t, start, |t|) == []
  {
    assert "\n"[1..] == "" && (start == |t| ==> t[start..] == "");
    assert StripLeading("\n") == StripLeading("\n"[1..]);
  }

  lemma {:induction false} BlankStripped(blank: string, s: string)
    requires (blank == "" || blank == "\n") && StartsStatement(s)
    ensures StripLeading(blank + s) == s
  {
    assert blank == "" ==> blank + s == s;
    assert blank == "\n" ==> (blank + s)[1..] == s;
  }

  lemma {:induction false} OneStep(t: string, start: nat, i: nat)
    requires start <= i && i + 1 < |t| && t[i] == ';' && t[i + 1] == '\n'
    ensures StatementsFrom(t, start, i) == OneIfAny(StripLeading(t[start..i])) + StatementsFrom(t, i + 1, i + 2)
  {
    hide StripLeading, StripRight, TokenEnd, OpenerAt;
    SemicolonRead(t, i);
    NewlineRead(t, i + 1);
    assert StatementsFrom(t, i + 1, i + 1) == StatementsFrom(t, i + 1, i + 2);
  }

  lemma {:induction false} SemicolonRead(t: string, i: nat)
    requires i < |t| && t[i] == ';'
    ensures OpenerAt(t, i).Semicolon? && TokenEnd(t, i) == i + 1
  {
    FirstCharacter(t, i);
  }

  lemma {:induction false} NewlineRead(t: string, i: nat)
    requires i < |t| && t[i] == '\n'
    ensures TokenEnd(t, i) == 0
  {
    FirstCharacter(t, i);
  }

  lemma {:induction false} FirstCharacter(t: string, i: nat)
    requires i < |t|
    ensures At(t, i, "$$") ==> t[i] == '$'
    ensures At(t, i, "--") ==> t[i] == '-'
    ensures At(t, i, "/*") ==> t[i] == '/'
  {
    if i + 2 <= |t| {
      assert t[i..i + 2][0] == t[i];
    }
  }

  /** The splitter undoes the printer. */
  lemma {:induction false} SplitUndoesScript(statements: seq<string>)
    requires forall s :: s in statements ==> WellFormed(s)
    ensures StatementsFrom(Script(statements), 0, 0) == statements
  {
    hide StatementsFrom, WellFormed;
    assert "" + Script(statements) == Script(statements);
    ScriptRead(Script(statements), "", statements, 0);
  }
}
