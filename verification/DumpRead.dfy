/** The dump as pg_dump prints it: lines, COPY blocks, then the post-data. What the splitter makes of it is written
    out byte by byte, without its patterns, and the patterns are tied to the texts they stand for. */
module DumpRead {
  import opened Text
  import opened DumpSplitter
  import opened DumpSplitterSpec
  import opened ChunkIndependence

  // --- The texts the patterns stand for ---------------------------------------------------------------------

  predicate Solid(name: string) {
    name != "" && forall i :: 0 <= i < |name| ==> name[i] !in " \t\n\r\U{0B}\U{0C}"
  }

  predicate Blanks(blanks: string) {
    blanks != "" && forall i :: 0 <= i < |blanks| ==> blanks[i] in " \t\n\r\U{0B}\U{0C}"
  }

  /** The header line of a table's rows. */
  predicate Header(line: string, table: string, columns: string) {
    Solid(table) && line == "COPY " + table + " " + columns + " FROM stdin;"
  }

  predicate LongMarker(m: string, table: string, blanks: string) {
    Solid(table) && Blanks(blanks) && m == "ALTER TABLE ONLY " + table + blanks + "ADD CONSTRAINT "
  }

  /** What the post-data starts with. */
  ghost predicate Marker(m: string) {
    m == "CREATE INDEX " || m == "CREATE UNIQUE INDEX " || exists table, blanks :: LongMarker(m, table, blanks)
  }

  ghost predicate MarkerThen(text: string, m: string, rest: string) {
    Marker(m) && text == m + rest
  }

  predicate Joined(c: char) {
    'A' <= c <= 'Z' || 'a' <= c <= 'z' || '0' <= c <= '9' || c == '_'
  }

  predicate PartitionBetween(line: string, before: string, after: string) {
    && (line == before + "PARTITION BY" + after || line == before + "PARTITION OF" + after)
    && (before == "" || !Joined(before[|before| - 1]))
    && (after == "" || !Joined(after[0]))
  }

  lemma {:induction false} HeaderTableIff(line: string, table: string)
    ensures HeaderTable(line) == Some(table) <==> exists columns :: Header(line, table, columns)
  {
    if HeaderTable(line) == Some(table) {
      HeaderColumns(line);
    }
    if columns :| Header(line, table, columns) {
      HeaderFound(line, table, columns);
    }
  }

  lemma {:induction false} HeaderColumns(line: string)
    requires HeaderTable(line).Some?
    ensures exists columns :: Header(line, HeaderTable(line).value, columns)
  {
    var table := HeaderTable(line).value;
    var e, f := 5 + |table|, |line| - 12;
    assert line[5..e] == table && line[e] == ' ' && At(line, f, " FROM stdin;");
    var columns := line[e + 1..f];
    assert line == line[..5] + line[5..e] + line[e..e + 1] + line[e + 1..f] + line[f..];
    assert line[e..e + 1] == " " && line[f..] == line[f..f + 12];
    assert Header(line, table, columns);
  }

  lemma {:induction false} HeaderFound(line: string, table: string, columns: string)
    requires Header(line, table, columns)
    ensures HeaderTable(line) == Some(table)
  {
    assert line[..5] == "COPY ";
    assert line[|line| - 12..] == " FROM stdin;";
    assert line[5..5 + |table|] == table;
    assert forall i :: 5 <= i < 5 + |table| ==> line[i] == table[i - 5] && !IsSpace(line[i]);
    assert line[5 + |table|] == ' ';
  }

  /** A marker is found exactly where one of these texts starts, and its length is that of the text. */
  lemma {:induction false} MarkerLengthIff(text: string, n: nat)
    requires 0 < n <= |text|
    ensures MarkerLength(text) == n <==> Marker(text[..n])
  {
    if MarkerLength(text) == n {
      MarkerFound(text);
    }
    if Marker(text[..n]) {
      assert text == text[..n] + text[n..];
      MarkerMeasured(text[..n], text[n..]);
    }
  }

  lemma {:induction false} MarkerFound(text: string)
    requires MarkerLength(text) > 0
    ensures Marker(text[..MarkerLength(text)])
  {
    if !At(text, 0, "CREATE INDEX ") && !At(text, 0, "CREATE UNIQUE INDEX ") {
      var name := RunEnd(text, 17, c => !IsSpace(c));
      var blank := RunEnd(text, name, IsSpace);
      assert text[blank..blank + 15] == "ADD CONSTRAINT ";
      assert text[..blank + 15] == text[..17] + text[17..name] + text[name..blank] + text[blank..blank + 15];
      assert LongMarker(text[..blank + 15], text[17..name], text[name..blank]);
    }
  }

  lemma {:induction false} MarkerMeasured(m: string, rest: string)
    requires Marker(m)
    ensures MarkerLength(m + rest) == |m|
  {
    var text := m + rest;
    if m == "CREATE INDEX " {
      assert text[..13] == m;
    } else if m == "CREATE UNIQUE INDEX " {
      assert text[..20] == m && text[7] == 'U';
    } else {
      var table, blanks :| LongMarker(m, table, blanks);
      LongMarkerMeasured(text, table, blanks, rest);
    }
  }

  lemma {:induction false} RunIs(s: string, i: nat, e: nat, p: char -> bool)
    requires i <= e <= |s| && (forall k :: i <= k < e ==> p(s[k])) && (e < |s| ==> !p(s[e]))
    ensures RunEnd(s, i, p) == e
    decreases e - i
  {
    if i < e {
      RunIs(s, i + 1, e, p);
    }
  }

  lemma {:induction false} LongMarkerMeasured(text: string, table: string, blanks: string, rest: string)
    requires Solid(table) && Blanks(blanks)
    requires text == "ALTER TABLE ONLY " + table + blanks + "ADD CONSTRAINT " + rest
    ensures MarkerLength(text) == 17 + |table| + |blanks| + 15
  {
    hide Solid, Blanks, IsSpace;
    var name, blank := 17 + |table|, 17 + |table| + |blanks|;
    LongMarkerPieces(text, table, blanks, rest);
    RunIs(text, 17, name, c => !IsSpace(c));
    RunIs(text, name, blank, IsSpace);
  }

  lemma {:induction false} LongMarkerPieces(text: string, table: string, blanks: string, rest: string)
    requires Solid(table) && Blanks(blanks)
    requires text == "ALTER TABLE ONLY " + table + blanks + "ADD CONSTRAINT " + rest
    ensures var name, blank := 17 + |table|, 17 + |table| + |blanks|;
      && 17 < name < blank < blank + 15 <= |text|
      && At(text, 0, "ALTER TABLE ONLY ") && !At(text, 0, "CREATE INDEX ") && !At(text, 0, "CREATE UNIQUE INDEX ")
      && (forall i :: 17 <= i < name ==> !IsSpace(text[i]))
      && (forall i :: name <= i < blank ==> IsSpace(text[i]))
      && At(text, blank, "ADD CONSTRAINT ") && !IsSpace(text[blank])
  {
    var name, blank := 17 + |table|, 17 + |table| + |blanks|;
    assert text[..17] == "ALTER TABLE ONLY ";
    assert text[..13][0] == 'A' && text[..20][0] == 'A';
    assert forall i :: 17 <= i < name ==> text[i] == table[i - 17];
    assert forall i :: name <= i < blank ==> text[i] == blanks[i - name];
    assert text[blank..blank + 15] == "ADD CONSTRAINT " && text[blank] == 'A';
  }

  lemma {:induction false} PartitionHere(line: string, i: nat)
    requires i + 12 <= |line|
    ensures PartitionAt(line, i) <==> PartitionBetween(line, line[..i], line[i + 12..])
  {
    var before, words, after := line[..i], line[i..i + 12], line[i + 12..];
    assert line == before + words + after;
    assert i > 0 ==> before[i - 1] == line[i - 1];
    assert |line| > i + 12 ==> after[0] == line[i + 12];
    WordsHere(before, words, after, "PARTITION BY");
    WordsHere(before, words, after, "PARTITION OF");
  }

  lemma {:induction false} WordsHere(before: string, words: string, after: string, w: string)
    requires |words| == |w|
    ensures before + words + after == before + w + after <==> words == w
  {
    var n := |before|;
    assert (before + words + after)[n..n + |w|] == words;
    assert (before + w + after)[n..n + |w|] == w;
  }

  /** The words are found exactly where they stand by themselves. */
  lemma {:induction false} HasPartitionIff(line: string)
    ensures HasPartition(line) <==> exists before, after :: PartitionBetween(line, before, after)
  {
    if HasPartition(line) {
      var i :| 0 <= i < |line| && PartitionAt(line, i);
      PartitionHere(line, i);
    }
    if before, after :| PartitionBetween(line, before, after) {
      assert |line| == |before| + 12 + |after|;
      assert line[..|before|] == before && line[|before| + 12..] == after;
      PartitionHere(line, |before|);
    }
  }

  // --- The dump as it is printed ----------------------------------------------------------------------------

  datatype Item = Text(line: string) | Block(table: string, columns: string, rows: string)

  /** What comes last: the post-data, a line without its end, or a block without its end. */
  datatype Ending =
    | Post(marker: string, rest: string) | Unfinished(line: string) | Open(table: string, columns: string, rows: string)

  function PrintedEnding(ending: Ending): string {
    match ending
    case Post(marker, rest) => marker + rest
    case Unfinished(line) => line
    case Open(table, columns, rows) => "COPY " + table + " " + columns + " FROM stdin;\n" + rows
  }

  function PrintedItem(item: Item): string {
    match item
    case Text(line) => line
    case Block(table, columns, rows) => "COPY " + table + " " + columns + " FROM stdin;\n" + rows + "\\.\n"
  }

  function Printed(items: seq<Item>, ending: Ending): string {
    if items == [] then PrintedEnding(ending) else PrintedItem(items[0]) + Printed(items[1..], ending)
  }

  ghost predicate EndsAt(rows: string, before: string, after: string) {
    rows == before + "\n\\.\n" + after
  }

  /** No row is the end-of-data line. */
  ghost predicate OnlyRows(rows: string) {
    forall before, after :: !EndsAt("\n" + rows, before, after)
  }

  ghost predicate WholeBlock(table: string, columns: string, rows: string) {
    Solid(table) && '\n' !in columns && OnlyRows(rows) && (rows == "" || rows[|rows| - 1] == '\n')
  }

  ghost predicate NoMarker(text: string) {
    forall m, rest :: !MarkerThen(text, m, rest)
  }

  ghost predicate NoHeader(line: string) {
    forall table, columns :: !Header(line, table, columns)
  }

  ghost predicate PlainLine(line: string) {
    && line != "" && line[|line| - 1] == '\n' && '\n' !in line[..|line| - 1]
    && NoHeader(line[..|line| - 1])
  }

  ghost predicate GoodEnding(ending: Ending) {
    match ending
    case Post(marker, _) => Marker(marker)
    case Unfinished(line) => '\n' !in line && NoMarker(line)
    case Open(table, columns, rows) => Solid(table) && '\n' !in columns && OnlyRows(rows)
  }

  /** Each line is what it is said to be: no header or marker among the plain lines, no end among the rows. */
  ghost predicate Placed(items: seq<Item>, ending: Ending) {
    if items == [] then GoodEnding(ending)
    else
      && (match items[0]
          case Text(line) => PlainLine(line) && NoMarker(Printed(items, ending))
          case Block(table, columns, rows) => WholeBlock(table, columns, rows))
      && Placed(items[1..], ending)
  }

  // --- What is sent of it -----------------------------------------------------------------------------------

  ghost predicate SpendsFreeze(line: string) {
    exists before, after :: PartitionBetween(line, before, after)
  }

  ghost function Sent(freeze: bool, items: seq<Item>, ending: Ending): string {
    if items == [] then SentEnding(freeze, ending)
    else
      match items[0]
      case Text(line) => line + Sent(freeze && !SpendsFreeze(line), items[1..], ending)
      case Block(table, columns, rows) => SentBlock(freeze, table, columns, rows) + Sent(freeze, items[1..], ending)
  }

  function SentBlock(freeze: bool, table: string, columns: string, rows: string): string {
    SentHeader(freeze, table, columns) + "\n" + rows + "\\.\n" + if freeze then "COMMIT;\n" else ""
  }

  /** A frozen table is emptied in the transaction that fills it. */
  function SentHeader(freeze: bool, table: string, columns: string): string {
    if freeze then
      "BEGIN;\nTRUNCATE ONLY " + table + ";\nCOPY " + table + " " + columns + " FROM stdin WITH (FREEZE);"
    else "COPY " + table + " " + columns + " FROM stdin;"
  }

  function SentEnding(freeze: bool, ending: Ending): string {
    match ending
    case Post(_, _) => ""
    case Unfinished(line) => line
    case Open(table, columns, rows) => SentHeader(freeze, table, columns) + "\n" + rows
  }

  function SetAside(ending: Ending): Option<string> {
    if ending.Post? then Some(ending.marker + ending.rest) else None
  }

  lemma {:induction false} StartsMarkerIff(text: string)
    ensures StartsMarker(text) <==> !NoMarker(text)
  {
    if StartsMarker(text) {
      MarkerFound(text);
      var n := MarkerLength(text);
      assert text == text[..n] + text[n..];
      assert MarkerThen(text, text[..n], text[n..]);
    }
    if m, rest :| MarkerThen(text, m, rest) {
      MarkerMeasured(m, rest);
      MarkerNotEmpty(m);
    }
  }

  lemma {:induction false} MarkerNotEmpty(m: string)
    requires Marker(m)
    ensures m != ""
  {
  }

  /** The end-of-data line of a block is the first one. */
  lemma {:induction false} EndFound(rows: string, rest: string)
    requires OnlyRows(rows) && (rows == "" || rows[|rows| - 1] == '\n')
    ensures Find("\n" + rows + "\\.\n" + rest, "\n\\.\n", 0) == |rows|
  {
    var text := "\n" + rows + "\\.\n" + rest;
    assert text[|rows|] == '\n';
    assert text[|rows|..|rows| + 4] == "\n\\.\n";
    assert At(text, |rows|, "\n\\.\n");
    forall k: nat | k < |rows| ensures !At(text, k, "\n\\.\n") {
      if At(text, k, "\n\\.\n") {
        AtCharacters(text, k, "\n\\.\n");
        if k + 4 <= |rows| + 1 {
          InsideRows(rows, "\\.\n" + rest, k);
        }
      }
    }
  }

  lemma {:induction false} InsideRows(rows: string, rest: string, k: nat)
    requires OnlyRows(rows) && k + 4 <= |rows| + 1
    ensures !At("\n" + rows + rest, k, "\n\\.\n")
  {
    var r := "\n" + rows;
    AtPrefix(r, rest, k, "\n\\.\n");
    assert "\n" + rows + rest == r + rest;
    if At(r, k, "\n\\.\n") {
      assert r == r[..k] + r[k..k + 4] + r[k + 4..];
      assert EndsAt(r, r[..k], r[k + 4..]);
    }
  }

  lemma {:induction false} NoEndFound(rows: string)
    requires OnlyRows(rows)
    ensures Find("\n" + rows, "\n\\.\n", 0) == -1
  {
    assert "\n" + rows + "" == "\n" + rows;
    forall k: nat | k + 4 <= |rows| + 1 ensures !At("\n" + rows, k, "\n\\.\n") {
      InsideRows(rows, "", k);
    }
  }

  // --- The line-by-line reading is that -----------------------------------------------------------------------

  lemma {:induction false} NewlineIs(line: string, rest: string)
    requires '\n' !in line
    ensures Newline(line + "\n" + rest, 0) == |line|
  {
    var text := line + "\n" + rest;
    assert text[|line|] == '\n';
    assert forall k :: 0 <= k < |line| ==> text[k] == line[k];
  }

  lemma {:induction false} TextRead(freeze: bool, line: string, rest: string)
    requires PlainLine(line) && NoMarker(line + rest)
    ensures Ideal(freeze, line + rest) == Prepend(line, Ideal(freeze && !SpendsFreeze(line), rest))
  {
    hide StartsMarker, HeaderTable, HasPartition, PartitionBetween, IdealCopy, Header;
    var text, n := line + rest, |line| - 1;
    StartsMarkerIff(text);
    assert text == line[..n] + "\n" + rest;
    NewlineIs(line[..n], rest);
    assert text[..n] == line[..n] && text[..n + 1] == line && text[n + 1..] == rest;
    NoHeaderFound(line[..n]);
    HasPartitionIff(line);
  }

  lemma {:induction false} NoHeaderFound(line: string)
    requires NoHeader(line)
    ensures HeaderTable(line).None?
  {
    hide HeaderTable, Header;
    if HeaderTable(line).Some? {
      HeaderTableIff(line, HeaderTable(line).value);
    }
  }

  /** The header of a block is read as such, and the reading goes on in its rows. */
  lemma {:induction false} BlockOpened(freeze: bool, table: string, columns: string, rest: string)
    requires Solid(table) && '\n' !in columns
    ensures Ideal(freeze, "COPY " + table + " " + columns + " FROM stdin;\n" + rest)
         == Prepend(SentHeader(freeze, table, columns), IdealCopy(freeze, freeze, "\n" + rest))
  {
    hide StartsMarker, HeaderTable, HasPartition, IdealCopy, PieceText;
    var header := "COPY " + table + " " + columns + " FROM stdin;";
    var text := "COPY " + table + " " + columns + " FROM stdin;\n" + rest;
    assert text == header + "\n" + rest;
    assert Header(header, table, columns);
    HeaderTableIff(header, table);
    NoNewline(table, columns);
    NewlineIs(header, rest);
    assert text[..|header|] == header && text[|header|..] == "\n" + rest;
    HeaderIsNoMarker(text);
    FrozenIs(header, table, columns);
  }

  lemma {:induction false} NoNewline(table: string, columns: string)
    requires Solid(table) && '\n' !in columns
    ensures '\n' !in "COPY " + table + " " + columns + " FROM stdin;"
  {
  }

  lemma {:induction false} HeaderIsNoMarker(text: string)
    requires |text| >= 2 && text[1] == 'O'
    ensures !StartsMarker(text)
  {
    if |text| >= 13 { assert text[..13][1] == text[1]; }
    if |text| >= 20 { assert text[..20][1] == text[1]; }
    if |text| >= 17 { assert text[..17][1] == text[1]; }
  }

  lemma {:induction false} FrozenIs(header: string, table: string, columns: string)
    requires header == "COPY " + table + " " + columns + " FROM stdin;"
    ensures FrozenHeader(header, table) == "BEGIN;\nTRUNCATE ONLY " + table + ";\nCOPY " + table + " " + columns
                                           + " FROM stdin WITH (FREEZE);"
  {
    var opening := "BEGIN;\nTRUNCATE ONLY " + table;
    var line := "COPY " + table + " " + columns;
    OptionAdded(line);
    assert header[..|header| - 1] == line + " FROM stdin" && header[|header| - 1..] == ";";
    Regroup(opening + ";\n", line, " FROM stdin", " WITH (FREEZE);");
    CopyFollows(opening, table, columns);
  }

  lemma {:induction false} OptionAdded(line: string)
    ensures (line + " FROM stdin;")[..|line| + 11] == line + " FROM stdin"
    ensures (line + " FROM stdin;")[|line| + 11..] == ";"
    ensures " WITH (FREEZE)" + ";" == " WITH (FREEZE);"
    ensures " FROM stdin" + " WITH (FREEZE);" == " FROM stdin WITH (FREEZE);"
  {
  }

  lemma {:induction false} CopyFollows(opening: string, table: string, columns: string)
    ensures opening + ";\n" + ("COPY " + table + " " + columns) == opening + ";\nCOPY " + table + " " + columns
  {
    Regroup(opening + ";\n", "COPY ", table, " " + columns);
    assert "COPY " + table + " " + columns == "COPY " + table + (" " + columns);
    assert opening + ";\n" + "COPY " == opening + ";\nCOPY ";
    var copy := opening + ";\nCOPY " + table;
    assert copy + " " + columns == copy + (" " + columns);
  }

  lemma {:induction false} Regroup(a: string, b: string, c: string, d: string)
    ensures a + (b + c + d) == a + b + c + d == (a + b) + (c + d)
    ensures (a + (b + c)) + d == a + b + c + d
  {
  }

  lemma {:induction false} RowsRead(freeze: bool, rows: string, rest: string)
    requires OnlyRows(rows) && (rows == "" || rows[|rows| - 1] == '\n')
    ensures IdealCopy(freeze, freeze, "\n" + rows + "\\.\n" + rest)
         == Prepend("\n" + rows + "\\.\n" + if freeze then "COMMIT;\n" else "", Ideal(freeze, rest))
  {
    hide Ideal, OnlyRows;
    EndFound(rows, rest);
    var text := "\n" + rows + "\\.\n" + rest;
    assert text[..|rows| + 4] == "\n" + rows + "\\.\n" && text[|rows| + 4..] == rest;
    assert text[..|rows| + 4] + "" == text[..|rows| + 4];
  }

  lemma {:induction false} BlockRead(freeze: bool, table: string, columns: string, rows: string, rest: string)
    requires WholeBlock(table, columns, rows)
    ensures Ideal(freeze, PrintedItem(Block(table, columns, rows)) + rest)
         == Prepend(SentBlock(freeze, table, columns, rows), Ideal(freeze, rest))
  {
    hide Ideal, IdealCopy, OnlyRows, SentHeader, SentBlock, PrintedItem;
    var inside := rows + "\\.\n" + rest;
    BlockOpened(freeze, table, columns, inside);
    RowsRead(freeze, rows, rest);
    BlockText(freeze, table, columns, rows, rest, Ideal(freeze, rest));
  }

  lemma {:induction false} BlockText(
    freeze: bool, table: string, columns: string, rows: string, rest: string, o: Outcome)
    ensures PrintedItem(Block(table, columns, rows)) + rest
         == "COPY " + table + " " + columns + " FROM stdin;\n" + (rows + "\\.\n" + rest)
    ensures "\n" + (rows + "\\.\n" + rest) == "\n" + rows + "\\.\n" + rest
    ensures Prepend(SentHeader(freeze, table, columns),
                    Prepend("\n" + rows + "\\.\n" + if freeze then "COMMIT;\n" else "", o))
         == Prepend(SentBlock(freeze, table, columns, rows), o)
  {
    hide SentHeader;
    Regroup("COPY " + table + " " + columns + " FROM stdin;\n", rows, "\\.\n", rest);
    Regroup("\n", rows, "\\.\n", rest);
    var header, end := SentHeader(freeze, table, columns), if freeze then "COMMIT;\n" else "";
    Regroup(header, "\n", rows, "\\.\n");
    Regroup(header, "\n" + rows + "\\.\n", end, o.sent);
  }

  lemma {:induction false} LastLineRead(freeze: bool, text: string)
    requires NoMarker(text) ==> '\n' !in text
    ensures Ideal(freeze, text) == if NoMarker(text) then Outcome(text, None) else Outcome("", Some(text))
  {
    hide StartsMarker, HeaderTable, HasPartition, NoMarker;
    StartsMarkerIff(text);
    assert NoMarker(text) ==> Newline(text, 0) == |text|;
  }

  lemma {:induction false} OpenRead(freeze: bool, table: string, columns: string, rows: string)
    requires Solid(table) && '\n' !in columns && OnlyRows(rows)
    ensures var ending := Open(table, columns, rows);
            Ideal(freeze, PrintedEnding(ending)) == Outcome(SentEnding(freeze, ending), None)
  {
    hide Ideal, Solid, OnlyRows, SentHeader;
    BlockOpened(freeze, table, columns, rows);
    NoEndFound(rows);
  }

  lemma {:induction false} EndingRead(freeze: bool, ending: Ending)
    requires GoodEnding(ending)
    ensures Ideal(freeze, PrintedEnding(ending)) == Outcome(SentEnding(freeze, ending), SetAside(ending))
  {
    hide Ideal, OnlyRows, Solid;
    match ending
    case Post(marker, rest) =>
      assert MarkerThen(marker + rest, marker, rest);
      LastLineRead(freeze, marker + rest);
    case Unfinished(line) =>
      LastLineRead(freeze, line);
    case Open(table, columns, rows) =>
      OpenRead(freeze, table, columns, rows);
  }

  /** The line-by-line reading of a printed dump sends the lines and the blocks, each frozen block in a transaction
      of its own after the truncation of its table, and sets the post-data aside. */
  lemma {:induction false} ReadsAsPrinted(freeze: bool, items: seq<Item>, ending: Ending)
    requires Placed(items, ending)
    ensures Ideal(freeze, Printed(items, ending)) == Outcome(Sent(freeze, items, ending), SetAside(ending))
    decreases |items|
  {
    hide Ideal, PlainLine, NoMarker, WholeBlock, SpendsFreeze, SentBlock;
    if items == [] {
      EndingRead(freeze, ending);
    } else {
      var rest := Printed(items[1..], ending);
      match items[0]
      case Text(line) =>
        TextRead(freeze, line, rest);
        ReadsAsPrinted(freeze && !SpendsFreeze(line), items[1..], ending);
      case Block(table, columns, rows) =>
        BlockRead(freeze, table, columns, rows, rest);
        ReadsAsPrinted(freeze, items[1..], ending);
    }
  }

  /** Every text is a printed dump, in which each line is what it is said to be. */
  lemma {:induction false} EveryTextIsPrinted(text: string) returns (items: seq<Item>, ending: Ending)
    ensures Placed(items, ending) && Printed(items, ending) == text
    decreases |text|
  {
    hide StartsMarker, HeaderTable, PlainLine, WholeBlock, NoMarker, Marker;
    StartsMarkerIff(text);
    var n := Newline(text, 0);
    if StartsMarker(text) {
      ending := MarkerAside(text);
      items := [];
    } else if n == |text| {
      items, ending := [], Unfinished(text);
    } else if HeaderTable(text[..n]).Some? {
      var e := Find(text[n..], "\n\\.\n", 0);
      if e < 0 {
        ending := OpenTaken(text, n);
        items := [];
      } else {
        items, ending := EveryTextIsPrinted(text[n + e + 4..]);
        var block := BlockTaken(text, n, e);
        items := [block] + items;
      }
    } else {
      items, ending := EveryTextIsPrinted(text[n + 1..]);
      PlainTaken(text, n);
      assert text[..n + 1] + text[n + 1..] == text;
      items := [Text(text[..n + 1])] + items;
    }
  }

  lemma {:induction false} MarkerAside(text: string) returns (ending: Ending)
    requires StartsMarker(text)
    ensures GoodEnding(ending) && PrintedEnding(ending) == text
  {
    var n := MarkerLength(text);
    MarkerFound(text);
    ending := Post(text[..n], text[n..]);
  }

  lemma {:induction false} PlainTaken(text: string, n: nat)
    requires n < |text| && n == Newline(text, 0) && HeaderTable(text[..n]).None?
    ensures PlainLine(text[..n + 1])
  {
    hide HeaderTable, Header;
    var line := text[..n];
    forall table, columns ensures !Header(line, table, columns) {
      HeaderTableIff(line, table);
    }
    assert text[..n + 1][..n] == line;
  }

  lemma {:induction false} HeaderTaken(line: string) returns (table: string, columns: string)
    requires HeaderTable(line).Some? && '\n' !in line
    ensures Header(line, table, columns) && '\n' !in columns
  {
    hide HeaderTable;
    table := HeaderTable(line).value;
    HeaderTableIff(line, table);
    columns :| Header(line, table, columns);
    assert forall i :: 0 <= i < |columns| ==> columns[i] == line[6 + |table| + i];
  }

  lemma {:induction false} OnlyRowsBefore(text: string, rows: string, rest: string)
    requires text == "\n" + rows + rest
    requires forall k :: 0 <= k && k + 4 <= |rows| + 1 ==> !At(text, k, "\n\\.\n")
    ensures OnlyRows(rows)
  {
    var r := "\n" + rows;
    forall before, after ensures !EndsAt(r, before, after) {
      if EndsAt(r, before, after) {
        var k := |before|;
        assert r[k..k + 4] == "\n\\.\n";
        assert text[k..k + 4] == r[k..k + 4];
        assert At(text, k, "\n\\.\n");
      }
    }
  }

  lemma {:induction false} OpenTaken(text: string, n: nat) returns (ending: Ending)
    requires n < |text| && text[n] == '\n' && '\n' !in text[..n] && HeaderTable(text[..n]).Some?
    requires Find(text[n..], "\n\\.\n", 0) < 0
    ensures GoodEnding(ending) && PrintedEnding(ending) == text
  {
    hide HeaderTable, OnlyRows, Solid;
    var table, columns := HeaderTaken(text[..n]);
    var rows := text[n + 1..];
    assert text[n..] == "\n" + rows + "";
    OnlyRowsBefore(text[n..], rows, "");
    ending := Open(table, columns, rows);
    assert text == text[..n] + "\n" + rows;
  }

  lemma {:induction false} BlockTaken(text: string, n: nat, e: nat) returns (block: Item)
    requires n < |text| && text[n] == '\n' && '\n' !in text[..n] && HeaderTable(text[..n]).Some?
    requires Find(text[n..], "\n\\.\n", 0) == e
    ensures n + e + 4 <= |text|
    ensures block.Block? && WholeBlock(block.table, block.columns, block.rows)
    ensures PrintedItem(block) + text[n + e + 4..] == text
  {
    hide HeaderTable, OnlyRows, Solid, PrintedItem, Header;
    var table, columns := HeaderTaken(text[..n]);
    var inside, rows := text[n..], text[n + 1..n + e + 1];
    RowsTaken(inside, e);
    assert inside[1..e + 1] == rows && inside[e + 4..] == text[n + e + 4..];
    OnlyRowsBefore(inside, rows, inside[e + 1..]);
    block := Block(table, columns, rows);
    HeaderThenRows(text, n, table, columns, rows, text[n + e + 4..]);
    HeaderIsSolid(text[..n], table, columns);
  }

  lemma {:induction false} HeaderIsSolid(line: string, table: string, columns: string)
    requires Header(line, table, columns)
    ensures Solid(table)
  {
  }

  lemma {:induction false} HeaderThenRows(
    text: string, n: nat, table: string, columns: string, rows: string, after: string)
    requires n <= |text| && Header(text[..n], table, columns)
    requires text[n..] == "\n" + (rows + "\\.\n" + after)
    ensures PrintedItem(Block(table, columns, rows)) + after == text
  {
    hide Solid, PrintedItem;
    var line, inside := text[..n], rows + "\\.\n" + after;
    BlockText(false, table, columns, rows, after, Outcome("", None));
    assert text == line + text[n..];
    HeaderLine(table, columns, inside);
  }

  lemma {:induction false} HeaderLine(table: string, columns: string, inside: string)
    ensures "COPY " + table + " " + columns + " FROM stdin;" + ("\n" + inside)
         == "COPY " + table + " " + columns + " FROM stdin;\n" + inside
  {
    var line := "COPY " + table + " " + columns;
    Regroup(line, " FROM stdin;", "\n", inside);
    assert " FROM stdin;" + "\n" == " FROM stdin;\n";
  }

  lemma {:induction false} RowsTaken(inside: string, e: nat)
    requires At(inside, e, "\n\\.\n") && inside[0] == '\n'
    ensures e + 4 <= |inside|
    ensures inside == "\n" + inside[1..e + 1] + inside[e + 1..]
    ensures inside == "\n" + (inside[1..e + 1] + "\\.\n" + inside[e + 4..])
    ensures inside[1..e + 1] == "" || inside[1..e + 1][e - 1] == '\n'
  {
    AtCharacters(inside, e, "\n\\.\n");
    var rows, after := inside[1..e + 1], inside[e + 4..];
    assert inside[..1] == "\n" && inside[e + 1..e + 4] == "\\.\n";
    InFour(inside, e);
    Regroup("\n", rows, "\\.\n", after);
  }

  lemma {:induction false} InFour(s: string, e: nat)
    requires e + 4 <= |s|
    ensures s == s[..1] + s[1..e + 1] + s[e + 1..] == s[..1] + s[1..e + 1] + s[e + 1..e + 4] + s[e + 4..]
  {
  }

  // --- A dump without the words: every block is frozen, wherever it is cut --------------------------------------

  ghost predicate Around(line: string, before: string, after: string) {
    line == before + "PARTITION BY" + after || line == before + "PARTITION OF" + after
  }

  ghost predicate Quiet(line: string) {
    forall before, after :: !Around(line, before, after)
  }

  /** No line outside the rows has the words, and the marker holds within 64 KiB. */
  ghost predicate QuietDump(items: seq<Item>, ending: Ending) {
    && (forall i :: 0 <= i < |items| ==>
          match items[i]
          case Text(line) => Quiet(line)
          case Block(table, columns, _) => Quiet("COPY " + table + " " + columns + " FROM stdin;"))
    && (match ending
        case Post(marker, _) => |marker| <= 65536
        case Unfinished(_) => true
        case Open(table, columns, _) => Quiet("COPY " + table + " " + columns + " FROM stdin;"))
  }

  lemma {:induction false} QuietMentionsNothing(line: string)
    requires Quiet(line)
    ensures !MentionsPartition(line)
  {
    if MentionsPartition(line) {
      var i :| 0 <= i < |line| && PartitionWords(line, i);
      assert line == line[..i] + line[i..i + 12] + line[i + 12..];
      assert Around(line, line[..i], line[i + 12..]);
    }
  }

  lemma {:induction false} QuietTextStable(freeze: bool, line: string, rest: string)
    requires PlainLine(line) && NoMarker(line + rest) && Quiet(line)
    requires Stable(freeze && !HasPartition(line), rest, 65536)
    ensures Stable(freeze, line + rest, 65536)
  {
    hide StartsMarker, HeaderTable, HasPartition, StableCopy, Header, MentionsPartition, Quiet, Freezes;
    var text, n := line + rest, |line| - 1;
    StartsMarkerIff(text);
    assert text == line[..n] + "\n" + rest;
    NewlineIs(line[..n], rest);
    assert text[..n] == line[..n] && text[..n + 1] == line && text[n + 1..] == rest;
    NoHeaderFound(line[..n]);
    QuietMentionsNothing(line);
  }

  lemma {:induction false} QuietHeaderStable(freeze: bool, table: string, columns: string, rest: string)
    requires Solid(table) && '\n' !in columns && Quiet("COPY " + table + " " + columns + " FROM stdin;")
    requires StableCopy(freeze, "\n" + rest, 65536)
    ensures Stable(freeze, "COPY " + table + " " + columns + " FROM stdin;\n" + rest, 65536)
  {
    hide StartsMarker, HeaderTable, HasPartition, StableCopy, MentionsPartition, Quiet, Freezes;
    var header := "COPY " + table + " " + columns + " FROM stdin;";
    var text := "COPY " + table + " " + columns + " FROM stdin;\n" + rest;
    assert text == header + "\n" + rest;
    assert Header(header, table, columns);
    HeaderTableIff(header, table);
    NoNewline(table, columns);
    NewlineIs(header, rest);
    assert text[..|header|] == header && text[|header|..] == "\n" + rest;
    HeaderIsNoMarker(text);
    QuietMentionsNothing(header);
  }

  lemma {:induction false} QuietBlockStable(
    freeze: bool, table: string, columns: string, rows: string, rest: string)
    requires WholeBlock(table, columns, rows) && Quiet("COPY " + table + " " + columns + " FROM stdin;")
    requires Stable(freeze, rest, 65536)
    ensures Stable(freeze, PrintedItem(Block(table, columns, rows)) + rest, 65536)
  {
    hide Stable, OnlyRows, Quiet, PrintedItem;
    EndFound(rows, rest);
    var text := "\n" + rows + "\\.\n" + rest;
    assert text[|rows| + 4..] == rest;
    assert StableCopy(freeze, text, 65536);
    BlockText(freeze, table, columns, rows, rest, Outcome("", None));
    QuietHeaderStable(freeze, table, columns, rows + "\\.\n" + rest);
  }

  lemma {:induction false} QuietEndingStable(freeze: bool, ending: Ending)
    requires GoodEnding(ending) && QuietDump([], ending)
    ensures Stable(freeze, PrintedEnding(ending), 65536)
  {
    hide HeaderTable, HasPartition, OnlyRows, Solid, Quiet, MarkerLength, Marker;
    match ending
    case Post(marker, rest) =>
      MarkerMeasured(marker, rest);
      MarkerNotEmpty(marker);
    case Unfinished(line) =>
      StartsMarkerIff(line);
      assert Newline(line, 0) == |line|;
    case Open(table, columns, rows) =>
      NoEndFound(rows);
      assert StableCopy(freeze, "\n" + rows, 65536);
      QuietHeaderStable(freeze, table, columns, rows);
  }

  lemma {:induction false} QuietIsStable(freeze: bool, items: seq<Item>, ending: Ending)
    requires Placed(items, ending) && QuietDump(items, ending)
    ensures Stable(freeze, Printed(items, ending), 65536)
    decreases |items|
  {
    hide Stable, PlainLine, NoMarker, WholeBlock, HasPartition, Quiet, GoodEnding;
    if items == [] {
      QuietEndingStable(freeze, ending);
    } else {
      var rest := Printed(items[1..], ending);
      assert QuietDump(items[1..], ending);
      match items[0]
      case Text(line) =>
        QuietIsStable(freeze && !HasPartition(line), items[1..], ending);
        QuietTextStable(freeze, line, rest);
      case Block(table, columns, rows) =>
        QuietIsStable(freeze, items[1..], ending);
        QuietBlockStable(freeze, table, columns, rows, rest);
    }
  }

  // --- What leaves for psql -------------------------------------------------------------------------------------

  /** However it is cut into chunks, a printed dump that may be cut anywhere leaves as printed. */
  lemma {:induction false} SplitAsPrinted(
    freeze: bool, items: seq<Item>, ending: Ending, chunks: seq<string>, maxPostData: nat)
    requires Placed(items, ending) && Concat(chunks) == Printed(items, ending)
    requires Stable(freeze, Concat(chunks), 65536)
    requires ending.Post? ==> |ending.marker + ending.rest| <= maxPostData
    ensures Split(freeze, chunks, 65536, maxPostData) == Outcome(Sent(freeze, items, ending), SetAside(ending))
  {
    hide Ideal, Split, Stable, Placed;
    ReadsAsPrinted(freeze, items, ending);
    ChunksDoNotMatter(freeze, chunks, 65536, maxPostData);
  }

  /** A dump without the words may be cut anywhere. */
  lemma {:induction false} QuietSplitAsPrinted(
    freeze: bool, items: seq<Item>, ending: Ending, chunks: seq<string>, maxPostData: nat)
    requires Placed(items, ending) && QuietDump(items, ending) && Concat(chunks) == Printed(items, ending)
    requires ending.Post? ==> |ending.marker + ending.rest| <= maxPostData
    ensures Split(freeze, chunks, 65536, maxPostData) == Outcome(Sent(freeze, items, ending), SetAside(ending))
  {
    hide Split, Stable, Placed;
    QuietIsStable(freeze, items, ending);
    SplitAsPrinted(freeze, items, ending, chunks, maxPostData);
  }

  /** Everything written to psql while the dump is read chunk by chunk. */
  method StreamDump(splitter: Splitter, chunks: seq<string>) returns (sent: string)
    requires splitter.Abs() == Initial(splitter.freeze)
    modifies splitter
    ensures Outcome(sent, splitter.postData) == Split(old(splitter.freeze), chunks, 65536, splitter.maxPostData)
    ensures forall items, ending ::
      Placed(items, ending) && QuietDump(items, ending) && Concat(chunks) == Printed(items, ending)
      && (ending.Post? ==> |ending.marker + ending.rest| <= splitter.maxPostData)
      ==> sent == Sent(old(splitter.freeze), items, ending) && splitter.postData == SetAside(ending)
  {
    hide Run, Fed, Placed, QuietDump, Printed, Sent, SetAside;
    sent := "";
    ghost var start, freeze := splitter.Abs(), splitter.freeze;
    var i := 0;
    assert chunks[0..] == chunks;
    while i < |chunks|
      invariant 0 <= i <= |chunks|
      invariant Run(start, chunks, 65536, splitter.maxPostData).0
             == Run(splitter.Abs(), chunks[i..], 65536, splitter.maxPostData).0
      invariant Render(Run(start, chunks, 65536, splitter.maxPostData).1)
             == sent + Render(Run(splitter.Abs(), chunks[i..], 65536, splitter.maxPostData).1)
    {
      RunStep(splitter.Abs(), chunks[i..], splitter.maxPostData);
      assert chunks[i..][0] == chunks[i] && chunks[i..][1..] == chunks[i + 1..];
      var data := splitter.Feed(chunks[i]);
      sent := sent + data;
      i := i + 1;
    }
    RunEnds(splitter.Abs(), splitter.maxPostData);
    assert chunks[i..] == [] && sent + "" == sent;
    var data := splitter.Finish();
    sent := sent + data;
    forall items, ending |
      Placed(items, ending) && QuietDump(items, ending) && Concat(chunks) == Printed(items, ending)
      && (ending.Post? ==> |ending.marker + ending.rest| <= splitter.maxPostData)
      ensures sent == Sent(freeze, items, ending) && splitter.postData == SetAside(ending)
    {
      QuietSplitAsPrinted(freeze, items, ending, chunks, splitter.maxPostData);
    }
  }

  lemma {:induction false} RunStep(s: State, chunks: seq<string>, maxPostData: nat)
    requires chunks != []
    ensures var first := Fed(s, chunks[0], 65536, maxPostData);
      && Run(s, chunks, 65536, maxPostData).0 == Run(first.0, chunks[1..], 65536, maxPostData).0
      && Render(Run(s, chunks, 65536, maxPostData).1)
         == Render(first.1) + Render(Run(first.0, chunks[1..], 65536, maxPostData).1)
  {
    hide Fed, Render;
    var first := Fed(s, chunks[0], 65536, maxPostData);
    RenderConcat(first.1, Run(first.0, chunks[1..], 65536, maxPostData).1);
  }

  lemma {:induction false} RunEnds(s: State, maxPostData: nat)
    ensures Run(s, [], 65536, maxPostData).0 == s && Render(Run(s, [], 65536, maxPostData).1) == ""
  {
  }
}
