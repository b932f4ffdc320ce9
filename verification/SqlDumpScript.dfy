/** The script as pg_dump prints it: blanks and comment lines before each statement, psql commands alone on their
    lines, blanks and comments at the end. Splitting gives its statements and commands back, in order. */
module SqlDumpScript {
  import opened Text
  import opened SqlScript
  import opened SqlRoundTrip
  import opened SqlPieces

  /** The characters of `\s`, by their codes. */
  lemma {:induction false} BlankIff(c: char)
    ensures IsBlank(c) <==>
      (c as int) in {9, 10, 11, 12, 13, 28, 29, 30, 31, 32, 133, 160, 5760, 8192, 8193, 8194, 8195, 8196, 8197, 8198,
                     8199, 8200, 8201, 8202, 8232, 8233, 8239, 8287, 12288}
  {
  }

  datatype Filler = Blank(c: char) | Comment(text: string)

  function FillerText(f: Filler): string {
    match f
    case Blank(c) => [c]
    case Comment(text) => "--" + text + "\n"
  }

  function Fill(fillers: seq<Filler>): string {
    if fillers == [] then "" else FillerText(fillers[0]) + Fill(fillers[1..])
  }

  predicate GoodFiller(f: Filler) {
    match f
    case Blank(c) => IsBlank(c)
    case Comment(text) => '\n' !in text
  }

  predicate AllBlank(s: string) {
    forall i :: 0 <= i < |s| ==> IsBlank(s[i])
  }

  datatype Entry =
    | Statement(before: seq<Filler>, pieces: seq<Piece>)
    | Command(before: seq<Filler>, text: string, after: string)

  /** The script ends with a comment without its newline, or with a statement without its semicolon. */
  datatype Ending =
    | Remark(before: seq<Filler>, comment: Option<string>)
    | Tail(before: seq<Filler>, pieces: seq<Piece>, after: string)

  function EntryText(e: Entry): string {
    match e
    case Statement(before, pieces) => Fill(before) + PiecesText(pieces) + ";"
    case Command(before, text, after) => Fill(before) + "\\" + text + after
  }

  function EndingText(ending: Ending): string {
    match ending
    case Remark(before, comment) => Fill(before) + if comment.Some? then "--" + comment.value else ""
    case Tail(before, pieces, after) => Fill(before) + PiecesText(pieces) + after
  }

  function ScriptText(entries: seq<Entry>, ending: Ending): string {
    if entries == [] then EndingText(ending) else EntryText(entries[0]) + ScriptText(entries[1..], ending)
  }

  function EntryResult(e: Entry): seq<string> {
    match e
    case Statement(_, pieces) => if pieces == [] then [] else [PiecesText(pieces)]
    case Command(_, text, _) => ["\\" + text]
  }

  /** What comes out: the statements without their semicolon, the commands without the blanks after them. */
  function Expected(entries: seq<Entry>, ending: Ending): seq<string> {
    if entries == [] then (if ending.Tail? then [PiecesText(ending.pieces)] else [])
    else
      EntryResult(entries[0]) + Expected(entries[1..], ending)
  }

  ghost predicate GoodFillers(fillers: seq<Filler>) {
    forall i :: 0 <= i < |fillers| ==> GoodFiller(fillers[i])
  }

  /** Neither blank nor comment nor command. */
  predicate Begins(s: string) {
    s != "" && !IsBlank(s[0]) && s[0] != '\\' && !(|s| >= 2 && s[0] == '-' && s[1] == '-')
  }

  predicate EndsSolid(s: string) {
    s != "" && !IsBlank(s[|s| - 1])
  }

  ghost predicate GoodStatement(pieces: seq<Piece>) {
    Begins(PiecesText(pieces)) && GoodPieces("", pieces)
  }

  /** A line starts after `fill`, which follows a semicolon or a command unless it starts the script. */
  predicate EndsALine(first: bool, fill: string) {
    if fill == "" then first else fill[|fill| - 1] == '\n'
  }

  ghost predicate GoodEntry(first: bool, e: Entry, rest: string) {
    GoodFillers(e.before) &&
    match e
    case Statement(_, pieces) => pieces == [] || GoodStatement(pieces)
    case Command(before, text, after) =>
      && EndsALine(first, Fill(before)) && '\n' !in text && (text == "" || EndsSolid(text))
      && AllBlank(after) && '\n' !in after && (rest == "" || rest[0] == '\n')
  }

  ghost predicate GoodEnding(ending: Ending) {
    GoodFillers(ending.before) &&
    match ending
    case Remark(_, comment) => comment.Some? ==> '\n' !in comment.value
    case Tail(_, pieces, after) => GoodStatement(pieces) && EndsSolid(PiecesText(pieces)) && AllBlank(after)
  }

  ghost predicate GoodScript(first: bool, entries: seq<Entry>, ending: Ending)
    decreases |entries|
  {
    if entries == [] then GoodEnding(ending)
    else GoodEntry(first, entries[0], ScriptText(entries[1..], ending)) && GoodScript(false, entries[1..], ending)
  }

  // --- Blanks and comments ------------------------------------------------------------------------------------

  lemma {:induction false} FillStripped(fillers: seq<Filler>, s: string)
    requires GoodFillers(fillers)
    ensures StripLeading(Fill(fillers) + s) == StripLeading(s)
    decreases |fillers|
  {
    hide IsBlank;
    if fillers == [] {
      assert Fill(fillers) + s == s;
    } else {
      var rest := Fill(fillers[1..]) + s;
      assert Fill(fillers) + s == FillerText(fillers[0]) + rest;
      assert GoodFiller(fillers[0]);
      FillStripped(fillers[1..], s);
      FillerStripped(fillers[0], rest);
    }
  }

  lemma {:induction false} FillerStripped(f: Filler, rest: string)
    requires GoodFiller(f)
    ensures StripLeading(FillerText(f) + rest) == StripLeading(rest)
  {
    hide IsBlank, Newline;
    var s := FillerText(f) + rest;
    match f
    case Blank(c) =>
      assert s[1..] == rest;
    case Comment(text) =>
      CommentLine(text, "\n" + rest);
      assert s == "--" + text + ("\n" + rest);
      DashesAreNotBlank(s);
      NewlineIsBlank();
      var after := s[2 + |text|..];
      assert after == "\n" + rest && after[1..] == rest;
      assert StripLeading(after) == StripLeading(after[1..]);
  }

  lemma {:induction false} DashesAreNotBlank(s: string)
    requires |s| >= 2 && s[0] == '-' && s[1] == '-'
    ensures !IsBlank(s[0]) && At(s, 0, "--")
  {
    FirstTwo(s, 0);
  }

  lemma {:induction false} CommentLine(text: string, rest: string)
    requires '\n' !in text && (rest == "" || rest[0] == '\n')
    ensures Newline("--" + text + rest, 0) == 2 + |text|
  {
    var s := "--" + text + rest;
    assert s[0..] == ("--" + text) + rest;
    LineToEnd(s, 0, "--" + text, rest);
  }

  lemma {:induction false} BlankRead(t: string, i: nat, start: nat)
    requires start <= i < |t| && IsBlank(t[i])
    ensures StatementsFrom(t, start, i) == StatementsFrom(t, start, i + 1)
  {
    hide StripLeading, StripRight;
    FirstTwo(t, i);
  }

  lemma {:induction false} CommentRead(t: string, i: nat, text: string, rest: string, start: nat)
    requires Continues(t, i, "--" + text, rest) && '\n' !in text && (rest == "" || rest[0] == '\n') && start <= i
    ensures i + 2 + |text| <= |t|
    ensures StatementsFrom(t, start, i) == StatementsFrom(t, start, i + 2 + |text|)
  {
    hide StatementsFrom, OpenerAt, TokenEnd, Newline, Continues;
    FirstCharacters(t, i, "--" + text, rest);
    OpensAs(t, i);
    LineToEnd(t, i, "--" + text, rest);
    CommentStep(t, start, i);
  }

  lemma {:induction false} CommentStep(t: string, start: nat, i: nat)
    requires start <= i < |t| && OpenerAt(t, i).LineComment? && Newline(t, i) > i
    ensures StatementsFrom(t, start, i) == StatementsFrom(t, start, Newline(t, i))
  {
    hide StripLeading, StripRight, OpenerAt, Newline;
  }

  lemma {:induction false} LineToEnd(t: string, i: nat, line: string, rest: string)
    requires Continues(t, i, line, rest) && '\n' !in line && (rest == "" || rest[0] == '\n')
    ensures i + |line| <= |t| && Newline(t, i) == i + |line|
  {
    ContinuesCharacters(t, i, line, rest);
    assert rest != "" ==> t[i + |line| + 0] == '\n';
    assert forall k :: i <= k < i + |line| ==> t[k] == t[i..][k - i] == line[k - i];
  }

  lemma {:induction false} FillerRead(t: string, i: nat, f: Filler, rest: string, start: nat)
    requires GoodFiller(f) && Continues(t, i, FillerText(f), rest) && start <= i
    ensures i + |FillerText(f)| <= |t|
    ensures StatementsFrom(t, start, i) == StatementsFrom(t, start, i + |FillerText(f)|)
  {
    hide StatementsFrom, IsBlank, Continues;
    FirstCharacters(t, i, FillerText(f), rest);
    match f
    case Blank(c) =>
      BlankRead(t, i, start);
    case Comment(text) =>
      Prefix(t, i, "--" + text, "\n", rest);
      CommentRead(t, i, text, "\n" + rest, start);
      var n := i + 2 + |text|;
      Onwards(t, i, "--" + text, "\n", rest);
      FirstCharacters(t, n, "\n", rest);
      NewlineIsBlank();
      BlankRead(t, n, start);
  }

  lemma {:induction false} NewlineIsBlank()
    ensures IsBlank('\n') && !IsBlank(';') && !IsBlank('\\')
  {
  }

  lemma {:induction false} FillRead(t: string, i: nat, fillers: seq<Filler>, rest: string, start: nat)
    requires GoodFillers(fillers) && Continues(t, i, Fill(fillers), rest) && start <= i
    ensures i + |Fill(fillers)| <= |t|
    ensures StatementsFrom(t, start, i) == StatementsFrom(t, start, i + |Fill(fillers)|)
    decreases |fillers|
  {
    hide StatementsFrom, GoodFiller, FillerText, Continues;
    FirstCharacters(t, i, Fill(fillers), rest);
    if fillers != [] {
      var f, others := fillers[0], Fill(fillers[1..]);
      Prefix(t, i, FillerText(f), others, rest);
      FillerRead(t, i, f, others + rest, start);
      Onwards(t, i, FillerText(f), others, rest);
      FillRead(t, i + |FillerText(f)|, fillers[1..], rest, start);
    }
  }

  lemma {:induction false} FillEnds(fillers: seq<Filler>)
    requires GoodFillers(fillers) && fillers != []
    ensures Fill(fillers) != "" && IsBlank(Fill(fillers)[|Fill(fillers)| - 1])
  {
    hide IsBlank;
    NewlineIsBlank();
    assert GoodFiller(fillers[0]);
    if |fillers| > 1 {
      FillEnds(fillers[1..]);
    } else {
      assert Fill(fillers) == FillerText(fillers[0]) + "";
    }
  }

  // --- One entry ------------------------------------------------------------------------------------------------

  /** Where an entry may start. */
  predicate Boundary(t: string, i: nat) {
    i <= |t| && (i == 0 || i == |t| || t[i - 1] == ';' || t[i] == '\n')
  }

  lemma {:induction false} OutsideWords(t: string, i: nat, fillers: seq<Filler>, rest: string)
    requires Boundary(t, i) && GoodFillers(fillers) && Continues(t, i, Fill(fillers), rest) && Begins(rest)
    ensures var j := i + |Fill(fillers)|; j <= |t| && (j == 0 || !IsWord(t[j - 1]))
  {
    var fill := Fill(fillers);
    ContinuesCharacters(t, i, fill, rest);
    if fillers != [] {
      FillEnds(fillers);
      assert t[i + (|fill| - 1)] == fill[|fill| - 1];
    } else {
      assert fill == "" && t[i + |fill| + 0] == rest[0];
    }
  }

  lemma {:induction false} SolidStart(s: string, after: string)
    requires Begins(s) && (after == "" || IsBlank(after[0]))
    ensures StripLeading(s + after) == s + after
  {
    FirstTwo(s + after, 0);
  }

  /** The statement after its fillers, up to what stops it. */
  lemma {:induction false} BodyPassed(t: string, i: nat, fillers: seq<Filler>, pieces: seq<Piece>, after: string)
    requires Boundary(t, i) && GoodFillers(fillers) && GoodStatement(pieces) && (after == "" || Stops(after[0]))
    requires Continues(t, i, Fill(fillers), PiecesText(pieces) + after)
    ensures var k := i + |Fill(fillers)| + |PiecesText(pieces)|;
      && k + |after| == |t| && t[i..k] == Fill(fillers) + PiecesText(pieces) && t[k..] == after
      && StatementsFrom(t, i, i) == StatementsFrom(t, i, k)
  {
    hide StatementsFrom, GoodPieces, Begins, Stops, Continues, Placed, Closed, Boundary;
    var fill, s := Fill(fillers), PiecesText(pieces);
    FillRead(t, i, fillers, s + after, i);
    InThree(t, i, fill, s, after);
    PiecesClosed(s, "", pieces);
    BodyPlaced(t, i, fillers, s, after);
    StatementRead(t, t[..i + |fill|], s, after, i, 0);
  }

  lemma {:induction false} BodyPlaced(t: string, i: nat, fillers: seq<Filler>, s: string, after: string)
    requires Boundary(t, i) && GoodFillers(fillers) && Begins(s) && (after == "" || Stops(after[0]))
    requires Continues(t, i, Fill(fillers), s + after)
    ensures i + |Fill(fillers)| <= |t| && Placed(t, t[..i + |Fill(fillers)|], s, after)
  {
    hide Boundary, Stops, Begins, IsWord, Continues, Fill, GoodFillers;
    BeginsWith(s, after);
    OutsideWords(t, i, fillers, s + after);
    InThree(t, i, Fill(fillers), s, after);
  }

  lemma {:induction false} BeginsWith(s: string, after: string)
    requires Begins(s) && (after == "" || Stops(after[0]))
    ensures Begins(s + after) && s[0] != '\\'
  {
  }

  lemma {:induction false} InThree(t: string, i: nat, a: string, b: string, c: string)
    requires Continues(t, i, a, b + c)
    ensures i + |a| + |b| + |c| == |t|
    ensures t == t[..i + |a|] + b + c && t[i..i + |a| + |b|] == a + b && t[i + |a| + |b|..] == c
  {
    assert t == t[..i] + t[i..];
    assert t == t[..i] + a + b + c;
    assert t[..i + |a|] == t[..i] + a;
  }

  lemma {:induction false} SemicolonTaken(t: string, start: nat, k: nat)
    requires start <= k < |t| && t[k] == ';'
    ensures StatementsFrom(t, start, k) == OneIfAny(StripLeading(t[start..k])) + StatementsFrom(t, k + 1, k + 1)
  {
    hide StripLeading, StripRight, TokenEnd, OpenerAt;
    SemicolonRead(t, k);
  }

  /** A statement is read up to its semicolon. */
  lemma {:induction false} UpToSemicolon(t: string, i: nat, before: seq<Filler>, pieces: seq<Piece>, rest: string)
    requires Boundary(t, i) && Continues(t, i, Fill(before) + PiecesText(pieces) + ";", rest)
    requires GoodFillers(before) && (pieces == [] || GoodStatement(pieces))
    ensures var k := i + |Fill(before)| + |PiecesText(pieces)|;
      && k < |t| && t[k] == ';' && t[i..k] == Fill(before) + PiecesText(pieces)
      && StatementsFrom(t, i, i) == StatementsFrom(t, i, k)
  {
    hide StatementsFrom, GoodFillers, Continues, Boundary, GoodStatement, Fill;
    SemicolonAt(t, i, Fill(before), PiecesText(pieces), rest);
    if pieces == [] {
      FillRead(t, i, before, ";" + rest, i);
    } else {
      BodyPassed(t, i, before, pieces, ";" + rest);
    }
  }

  lemma {:induction false} BodyTaken(before: seq<Filler>, pieces: seq<Piece>)
    requires GoodFillers(before) && (pieces == [] || GoodStatement(pieces))
    ensures OneIfAny(StripLeading(Fill(before) + PiecesText(pieces)))
         == if pieces == [] then [] else [PiecesText(pieces)]
  {
    hide GoodFillers, StripLeading, Fill, IsBlank, GoodPieces;
    FillStripped(before, PiecesText(pieces));
    NothingToStrip();
    if pieces != [] {
      SolidStart(PiecesText(pieces), "");
      assert PiecesText(pieces) + "" == PiecesText(pieces);
    }
  }

  lemma {:induction false} StatementEntry(t: string, i: nat, e: Entry, rest: string)
    requires Boundary(t, i) && Continues(t, i, EntryText(e), rest) && GoodEntry(i == 0, e, rest) && e.Statement?
    ensures var n := i + |EntryText(e)|;
      n <= |t| && Boundary(t, n) && StatementsFrom(t, i, i) == EntryResult(e) + StatementsFrom(t, n, n)
  {
    hide StatementsFrom, GoodFillers, Continues, Boundary, GoodStatement, StripLeading, Fill, PiecesText, OneIfAny;
    UpToSemicolon(t, i, e.before, e.pieces, rest);
    BodyTaken(e.before, e.pieces);
    var k := i + |Fill(e.before)| + |PiecesText(e.pieces)|;
    SemicolonTaken(t, i, k);
    AfterSemicolon(t, k + 1);
  }

  lemma {:induction false} AfterSemicolon(t: string, i: nat)
    requires 0 < i <= |t| && t[i - 1] == ';'
    ensures Boundary(t, i)
  {
  }

  lemma {:induction false} NothingToStrip()
    ensures StripLeading("") == "" && StripRight("") == ""
  {
  }

  lemma {:induction false} SemicolonAt(t: string, i: nat, fill: string, s: string, rest: string)
    requires Continues(t, i, fill + s + ";", rest)
    ensures var k := i + |fill| + |s|;
      k < |t| && t[k] == ';' && t[i..k] == fill + s && Continues(t, i, fill, s + (";" + rest))
      && (s == "" ==> Continues(t, i, fill, ";" + rest))
  {
    assert fill + s + ";" + rest == fill + (s + (";" + rest));
    assert s == "" ==> s + (";" + rest) == ";" + rest;
    InThree(t, i, fill, s, ";" + rest);
    assert t[i + |fill| + |s|..][0] == ';';
  }

  // --- psql commands --------------------------------------------------------------------------------------------

  lemma {:induction false} RightStripped(s: string, after: string)
    requires EndsSolid(s) && AllBlank(after)
    ensures StripRight(s + after) == s
    decreases |after|
  {
    if after == "" {
      assert s + after == s;
    } else {
      var text := s + after;
      assert text[|text| - 1] == after[|after| - 1];
      assert text[..|text| - 1] == s + after[..|after| - 1];
      RightStripped(s, after[..|after| - 1]);
    }
  }

  lemma {:induction false} CommandTaken(t: string, start: nat, j: nat, line: string, rest: string)
    requires start <= j && Continues(t, j, line, rest) && line != "" && line[0] == '\\' && '\n' !in line
    requires rest == "" || rest[0] == '\n'
    requires LineStart(t, j) && StripLeading(t[start..j]) == ""
    ensures j + |line| <= |t|
    ensures StatementsFrom(t, start, j) == OneIfAny(StripRight(line)) + StatementsFrom(t, j + |line|, j + |line|)
  {
    hide StatementsFrom, StripLeading, StripRight, Newline, Continues, OpenerAt, TokenEnd, LineStart;
    FirstCharacters(t, j, line, rest);
    BackslashOpens(t, j);
    LineToEnd(t, j, line, rest);
    PartIs(t, j, line, rest);
    MetaStep(t, start, j);
  }

  lemma {:induction false} MetaStep(t: string, start: nat, j: nat)
    requires start <= j < |t| && OpenerAt(t, j).Meta? && TokenEnd(t, j) > 0 && StripLeading(t[start..j]) == ""
    ensures var e := TokenEnd(t, j);
            StatementsFrom(t, start, j) == OneIfAny(StripRight(t[j..e])) + StatementsFrom(t, e, e)
  {
    hide StripLeading, StripRight, OpenerAt, TokenEnd;
  }

  lemma {:induction false} PartIs(t: string, j: nat, line: string, rest: string)
    requires Continues(t, j, line, rest)
    ensures j + |line| <= |t| && t[j..j + |line|] == line
  {
    assert t[j..j + |line|] == t[j..][..|line|];
  }

  lemma {:induction false} BackslashOpens(t: string, j: nat)
    requires j < |t| && t[j] == '\\' && LineStart(t, j)
    ensures OpenerAt(t, j).Meta? && TokenEnd(t, j) == Newline(t, j)
  {
    FirstTwo(t, j);
  }

  lemma {:induction false} CommandEntry(t: string, i: nat, e: Entry, rest: string)
    requires Boundary(t, i) && Continues(t, i, EntryText(e), rest) && GoodEntry(i == 0, e, rest) && e.Command?
    ensures var n := i + |EntryText(e)|;
      n <= |t| && Boundary(t, n) && StatementsFrom(t, i, i) == EntryResult(e) + StatementsFrom(t, n, n)
  {
    hide StatementsFrom, GoodFillers, Continues, StripRight, EndsALine, Fill, EndsSolid, AllBlank, Boundary;
    CommandParts(t, i, Fill(e.before), e.text, e.after, rest);
    OneLine(e.text, e.after);
    CommandRead(t, i, e.before, "\\" + e.text + e.after, rest);
    CommandKept(e.text, e.after);
  }

  lemma {:induction false} OneLine(text: string, after: string)
    requires '\n' !in text && '\n' !in after
    ensures '\n' !in "\\" + text + after && ("\\" + text + after)[0] == '\\'
  {
  }

  /** A command is read up to the end of its line, its fillers apart. */
  lemma {:induction false} CommandRead(t: string, i: nat, before: seq<Filler>, line: string, rest: string)
    requires Continues(t, i, Fill(before), line + rest) && Continues(t, i + |Fill(before)|, line, rest)
    requires GoodFillers(before) && EndsALine(i == 0, Fill(before))
    requires line != "" && line[0] == '\\' && '\n' !in line && (rest == "" || rest[0] == '\n')
    ensures var n := i + |Fill(before)| + |line|;
      && n <= |t| && Boundary(t, n)
      && StatementsFrom(t, i, i) == OneIfAny(StripRight(line)) + StatementsFrom(t, n, n)
  {
    hide StatementsFrom, GoodFillers, Continues, StripLeading, StripRight, EndsALine, Fill, LineStart, OneIfAny;
    var j := i + |Fill(before)|;
    FillRead(t, i, before, line + rest, i);
    CommandReached(t, i, before, line + rest);
    CommandTaken(t, i, j, line, rest);
    FirstCharacters(t, j, line, rest);
    NextIs(t, j + |line|, rest);
  }

  lemma {:induction false} CommandReached(t: string, i: nat, before: seq<Filler>, rest: string)
    requires Continues(t, i, Fill(before), rest) && GoodFillers(before) && EndsALine(i == 0, Fill(before))
    ensures var j := i + |Fill(before)|;
      j <= |t| && LineStart(t, j) && StripLeading(t[i..j]) == ""
  {
    hide Continues, GoodFillers, LineStart, EndsALine, Fill;
    StartsALine(t, i, Fill(before), rest);
    FillStripped(before, "");
    NothingToStrip();
  }

  lemma {:induction false} CommandKept(text: string, after: string)
    requires (text == "" || EndsSolid(text)) && AllBlank(after)
    ensures OneIfAny(StripRight("\\" + text + after)) == ["\\" + text]
  {
    hide StripRight, IsBlank;
    NewlineIsBlank();
    RightStripped("\\" + text, after);
  }

  lemma {:induction false} StartsALine(t: string, i: nat, fill: string, rest: string)
    requires Continues(t, i, fill, rest) && EndsALine(i == 0, fill)
    ensures i + |fill| <= |t| && LineStart(t, i + |fill|) && t[i..i + |fill|] == fill + ""
  {
    ContinuesCharacters(t, i, fill, rest);
    assert fill != "" ==> t[i + (|fill| - 1)] == fill[|fill| - 1];
    PartIs(t, i, fill, rest);
  }

  lemma {:induction false} CommandParts(t: string, i: nat, fill: string, text: string, after: string, rest: string)
    requires Continues(t, i, fill + "\\" + text + after, rest)
    ensures var line := "\\" + text + after;
      && line[0] == '\\' && |fill| + |line| == |fill + "\\" + text + after|
      && Continues(t, i, fill, line + rest) && Continues(t, i + |fill|, line, rest)
  {
    var line := "\\" + text + after;
    assert fill + "\\" + text + after == fill + line;
    Prefix(t, i, fill, line, rest);
    Onwards(t, i, fill, line, rest);
  }

  // --- The whole script ----------------------------------------------------------------------------------------

  lemma {:induction false} NothingMore(t: string, start: nat)
    requires start <= |t|
    ensures StatementsFrom(t, start, |t|) == OneIfAny(StripRight(StripLeading(t[start..])))
  {
  }

  lemma {:induction false} RemarkRead(t: string, i: nat, before: seq<Filler>, comment: Option<string>)
    requires GoodEnding(Remark(before, comment)) && Continues(t, i, EndingText(Remark(before, comment)), "")
    ensures StatementsFrom(t, i, i) == []
  {
    hide StatementsFrom, Continues, StripLeading, StripRight, GoodFillers, Fill;
    var line := if comment.Some? then "--" + comment.value else "";
    RemarkParts(t, i, Fill(before), line);
    FillRead(t, i, before, line, i);
    RemarkPassed(t, i, i + |Fill(before)|, comment);
    RemarkStripped(before, comment);
    NothingMore(t, i);
  }

  lemma {:induction false} RemarkParts(t: string, i: nat, fill: string, line: string)
    requires Continues(t, i, fill + line, "")
    ensures t[i..] == fill + line && Continues(t, i, fill, line) && Continues(t, i + |fill|, line, "")
  {
    assert fill + line + "" == fill + line && line + "" == line;
    Onwards(t, i, fill, line, "");
  }

  lemma {:induction false} RemarkPassed(t: string, i: nat, j: nat, comment: Option<string>)
    requires i <= j && (comment.Some? ==> '\n' !in comment.value)
    requires Continues(t, j, if comment.Some? then "--" + comment.value else "", "")
    ensures j <= |t| && StatementsFrom(t, i, j) == StatementsFrom(t, i, |t|)
  {
    hide StatementsFrom, Continues;
    FirstCharacters(t, j, if comment.Some? then "--" + comment.value else "", "");
    if comment.Some? {
      CommentRead(t, j, comment.value, "", i);
    }
  }

  lemma {:induction false} RemarkStripped(before: seq<Filler>, comment: Option<string>)
    requires GoodFillers(before) && (comment.Some? ==> '\n' !in comment.value)
    ensures var line := if comment.Some? then "--" + comment.value else "";
            StripLeading(Fill(before) + line) == "" && StripRight("") == ""
  {
    hide StripLeading, Fill, GoodFillers;
    if comment.Some? {
      CommentStripped(comment.value);
    }
    FillStripped(before, if comment.Some? then "--" + comment.value else "");
    NothingToStrip();
  }

  lemma {:induction false} CommentStripped(comment: string)
    requires '\n' !in comment
    ensures StripLeading("--" + comment) == ""
  {
    hide IsBlank, Newline;
    var s := "--" + comment;
    CommentLine(comment, "");
    assert s + "" == s;
    DashesAreNotBlank(s);
    NothingToStrip();
  }

  lemma {:induction false} TailRead(t: string, i: nat, before: seq<Filler>, pieces: seq<Piece>, after: string)
    requires Boundary(t, i) && GoodEnding(Tail(before, pieces, after))
    requires Continues(t, i, EndingText(Tail(before, pieces, after)), "")
    ensures StatementsFrom(t, i, i) == [PiecesText(pieces)]
  {
    hide StatementsFrom, Continues, StripLeading, StripRight, GoodFillers, GoodStatement, Boundary, IsBlank, Fill,
         EndsSolid, PiecesText;
    TailParts(t, i, Fill(before), PiecesText(pieces), after);
    BodyPassed(t, i, before, pieces, after);
    BlanksRead(t, i, i + |Fill(before)| + |PiecesText(pieces)|);
    TailStripped(before, pieces, after);
    NothingMore(t, i);
  }

  lemma {:induction false} TailParts(t: string, i: nat, fill: string, s: string, after: string)
    requires Continues(t, i, fill + s + after, "")
    ensures t[i..] == fill + (s + after) && Continues(t, i, fill, s + after)
    ensures AllBlank(after) && after != "" ==> Stops(after[0])
  {
    hide IsBlank;
    assert fill + s + after + "" == fill + (s + after);
  }

  lemma {:induction false} TailStripped(before: seq<Filler>, pieces: seq<Piece>, after: string)
    requires GoodEnding(Tail(before, pieces, after))
    ensures OneIfAny(StripRight(StripLeading(Fill(before) + (PiecesText(pieces) + after)))) == [PiecesText(pieces)]
  {
    hide StripLeading, StripRight, GoodFillers, GoodPieces, IsBlank, Fill, PiecesText;
    FillStripped(before, PiecesText(pieces) + after);
    SolidStart(PiecesText(pieces), after);
    RightStripped(PiecesText(pieces), after);
  }

  lemma {:induction false} BlanksRead(t: string, start: nat, i: nat)
    requires start <= i <= |t| && AllBlank(t[i..])
    ensures StatementsFrom(t, start, i) == StatementsFrom(t, start, |t|)
    decreases |t| - i
  {
    hide StatementsFrom, IsBlank;
    if i < |t| {
      assert t[i..][0] == t[i] && t[i + 1..] == t[i..][1..];
      BlankRead(t, i, start);
      BlanksRead(t, start, i + 1);
    }
  }

  lemma {:induction false} ScriptFrom(t: string, i: nat, entries: seq<Entry>, ending: Ending)
    requires Boundary(t, i) && Continues(t, i, ScriptText(entries, ending), "")
    requires GoodScript(i == 0, entries, ending)
    ensures StatementsFrom(t, i, i) == Expected(entries, ending)
    decreases |entries|
  {
    hide StatementsFrom, Continues, Boundary, GoodEntry, GoodEnding;
    if entries == [] {
      match ending
      case Remark(before, comment) => RemarkRead(t, i, before, comment);
      case Tail(before, pieces, after) => TailRead(t, i, before, pieces, after);
    } else {
      var e, rest := entries[0], ScriptText(entries[1..], ending);
      Prefix(t, i, EntryText(e), rest, "");
      assert rest + "" == rest;
      if e.Statement? {
        StatementEntry(t, i, e, rest);
      } else {
        CommandEntry(t, i, e, rest);
      }
      Onwards(t, i, EntryText(e), rest, "");
      ScriptFrom(t, i + |EntryText(e)|, entries[1..], ending);
    }
  }

  /** Splitting a printed script gives exactly its statements and commands, in order. */
  lemma {:induction false} SplitUndoesDump(entries: seq<Entry>, ending: Ending)
    requires GoodScript(true, entries, ending)
    ensures StatementsFrom(ScriptText(entries, ending), 0, 0) == Expected(entries, ending)
  {
    hide StatementsFrom, GoodScript;
    var t := ScriptText(entries, ending);
    assert t[0..] == t + "";
    ScriptFrom(t, 0, entries, ending);
  }
}
