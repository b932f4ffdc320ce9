/** Reading a form gives back what an encoder put in it. */
module MultipartRoundTrip {
  import opened Text
  import opened Multipart

  /** A part as section 5.1 of RFC 2046 composes it: header lines, a blank line, a content. */
  datatype Part = Part(lines: seq<string>, content: string)

  function Block(lines: seq<string>): string {
    if lines == [] then "" else "\r\n" + lines[0] + Block(lines[1..])
  }

  /** What follows a delimiter: the parts, each ended by a delimiter, then the closing hyphens. */
  function EncodedParts(parts: seq<Part>, delimiter: string, epilogue: string): string {
    if parts == [] then "--" + epilogue
    else Block(parts[0].lines) + "\r\n\r\n" + parts[0].content + delimiter
         + EncodedParts(parts[1..], delimiter, epilogue)
  }

  /** A whole body. The first delimiter has no line end of its own. */
  function Encoded(preamble: string, boundary: string, parts: seq<Part>, epilogue: string): string {
    preamble + "--" + boundary + EncodedParts(parts, "\r\n--" + boundary, epilogue)
  }

  /** No line end inside a header line, no delimiter line inside a content, small header blocks. */
  ghost predicate WellFormed(p: Part, delimiter: string) {
    && (forall l :: l in p.lines ==> l != "" && '\r' !in l)
    && (forall before, rest :: !DelimiterLine(p.content + delimiter, before, delimiter, rest))
    && |Block(p.lines)| + 4 <= 16385
  }

  /** A delimiter line inside a text. */
  ghost predicate DelimiterLine(text: string, before: string, delimiter: string, rest: string) {
    text == before + delimiter + "\r\n" + rest || text == before + delimiter + "--" + rest
  }

  lemma {:induction false} NoBoundary(content: string, delimiter: string)
    requires forall before, rest :: !DelimiterLine(content + delimiter, before, delimiter, rest)
    ensures forall k :: 0 <= k < |content| ==> !IsBoundary(content + delimiter, k, delimiter)
  {
    var text := content + delimiter;
    forall k | 0 <= k < |content| ensures !IsBoundary(text, k, delimiter) {
      if IsBoundary(text, k, delimiter) {
        var e := k + |delimiter|;
        assert text == text[..k] + text[k..e] + text[e..e + 2] + text[e + 2..];
        assert DelimiterLine(text, text[..k], delimiter, text[e + 2..]);
      }
    }
  }

  /** What the form means, part by part. */
  function Meaning(parts: seq<Part>, headers: string -> Disposition, fileField: string, form: Form): Result {
    if parts == [] then Received(form)
    else
      var d := headers(Block(parts[0].lines));
      if KindOf(d, fileField, form).Field? && |parts[0].content| > MAX_FIELD then Refused
      else Meaning(parts[1..], headers, fileField, Take(form, d, fileField, parts[0].content))
  }

  // --- Header blocks ----------------------------------------------------------------------------------

  lemma {:induction false} NoBlankLineInBlock(lines: seq<string>, rest: string, k: nat)
    requires forall l :: l in lines ==> l != "" && '\r' !in l
    requires k < |Block(lines)|
    ensures !At(Block(lines) + BLANK_LINE + rest, k, BLANK_LINE)
    decreases |lines|
  {
    hide At;
    var line, tail := lines[0], Block(lines[1..]);
    var t := Block(lines) + BLANK_LINE + rest;
    var after := tail + BLANK_LINE + rest;
    assert line in lines && forall l :: l in lines[1..] ==> l in lines;
    assert t == "\r\n" + line + after;
    assert t[1] == '\n' && forall i :: 2 <= i < 2 + |line| ==> t[i] == line[i - 2];
    if k >= 2 + |line| {
      NoBlankLineInBlock(lines[1..], rest, k - 2 - |line|);
      AtShifted("\r\n" + line, after, k - 2 - |line|, BLANK_LINE);
      assert t == ("\r\n" + line) + after;
    } else if At(t, k, BLANK_LINE) {
      BlankLineAt(t, k);
    }
  }

  lemma {:induction false} BlankLineAt(t: string, k: nat)
    requires At(t, k, BLANK_LINE)
    ensures t[k] == '\r' && t[k + 2] == '\r'
  {
    AtCharacters(t, k, BLANK_LINE);
    assert t[k] == BLANK_LINE[0] && t[k + 2] == BLANK_LINE[2];
  }

  lemma {:induction false} BlockEnds(lines: seq<string>, rest: string)
    requires forall l :: l in lines ==> l != "" && '\r' !in l
    ensures Find(Block(lines) + BLANK_LINE + rest, BLANK_LINE, 0) == |Block(lines)|
    ensures !At(Block(lines) + BLANK_LINE + rest, 0, "--")
  {
    var t := Block(lines) + BLANK_LINE + rest;
    forall k | 0 <= k < |Block(lines)| ensures !At(t, k, BLANK_LINE) {
      NoBlankLineInBlock(lines, rest, k);
    }
    assert t[|Block(lines)|..|Block(lines)| + 4] == BLANK_LINE;
    assert At(t, |Block(lines)|, BLANK_LINE);
    assert t[0] == '\r';
  }

  // --- Contents -----------------------------------------------------------------------------------------

  /** A delimiter starting inside the content ends before it does, or after the next delimiter starts. */
  lemma {:induction false} ContentEnds(content: string, delimiter: string, after: string)
    requires |delimiter| >= 2 && delimiter[0] == '\r' && forall j :: 1 <= j < |delimiter| ==> delimiter[j] != '\r'
    requires forall k :: 0 <= k < |content| ==> !IsBoundary(content + delimiter, k, delimiter)
    requires At(after, 0, CRLF) || At(after, 0, "--")
    ensures Boundary(content + delimiter + after, 0, delimiter) == |content|
  {
    var t := content + delimiter + after;
    forall k | 0 <= k < |content| ensures !IsBoundary(t, k, delimiter) {
      NoBoundaryInContent(content, delimiter, after, k);
    }
    AtShifted(content, delimiter + after, 0, delimiter);
    AtShifted(content + delimiter, after, 0, CRLF);
    AtShifted(content + delimiter, after, 0, "--");
    assert t == content + (delimiter + after);
    assert (delimiter + after)[0..|delimiter|] == delimiter;
    BoundaryFound(t, |content|, delimiter);
  }

  lemma {:induction false} NoBoundaryInContent(content: string, delimiter: string, after: string, k: nat)
    requires |delimiter| >= 2 && delimiter[0] == '\r' && forall j :: 1 <= j < |delimiter| ==> delimiter[j] != '\r'
    requires k < |content| && !IsBoundary(content + delimiter, k, delimiter)
    ensures !IsBoundary(content + delimiter + after, k, delimiter)
  {
    var t := content + delimiter + after;
    assert t[|content|] == '\r';
    if At(t, k, delimiter) {
      AtCharacters(t, k, delimiter);
      AtPrefix(content + delimiter, after, k, delimiter);
      AtPrefix(content + delimiter, after, k + |delimiter|, CRLF);
      AtPrefix(content + delimiter, after, k + |delimiter|, "--");
    }
  }

  lemma {:induction false} PartsStart(parts: seq<Part>, delimiter: string, epilogue: string)
    ensures var t := EncodedParts(parts, delimiter, epilogue); At(t, 0, CRLF) || At(t, 0, "--")
  {
    var t := EncodedParts(parts, delimiter, epilogue);
    if parts == [] {
      assert t[0..2] == "--";
    } else if parts[0].lines == [] {
      assert t[0..2] == CRLF;
    } else {
      assert t[0..2] == CRLF;
    }
  }

  // --- The main results -------------------------------------------------------------------------------

  lemma {:induction false} Cut(content: string, delimiter: string, tail: string)
    ensures (content + delimiter + tail)[..|content|] == content
    ensures (content + delimiter + tail)[|content| + |delimiter|..] == tail
  {
  }

  /** Taken as a whole, the encoded parts mean what they were. */
  lemma {:induction false} PartsRead(
    parts: seq<Part>, delimiter: string, epilogue: string,
    headers: string -> Disposition, fileField: string, form: Form)
    requires |delimiter| >= 2 && delimiter[0] == '\r' && forall j :: 1 <= j < |delimiter| ==> delimiter[j] != '\r'
    requires forall p :: p in parts ==> WellFormed(p, delimiter)
    ensures var t := EncodedParts(parts, delimiter, epilogue);
            && Parts(t, delimiter, headers, fileField, form) == Meaning(parts, headers, fileField, form)
            && SmallParts(t, delimiter)
    decreases |parts|
  {
    hide Find, Boundary, Block, IsBoundary, Take, KindOf;
    var t := EncodedParts(parts, delimiter, epilogue);
    if parts == [] {
      assert t[0..2] == "--";
    } else {
      var p, tail := parts[0], EncodedParts(parts[1..], delimiter, epilogue);
      var block := Block(p.lines);
      assert p in parts && forall q :: q in parts[1..] ==> q in parts;
      var rest := p.content + delimiter + tail;
      assert t == block + BLANK_LINE + rest;
      BlockEnds(p.lines, rest);
      PartsStart(parts[1..], delimiter, epilogue);
      NoBoundary(p.content, delimiter);
      ContentEnds(p.content, delimiter, tail);
      var e := |p.content|;
      hide EncodedParts, WellFormed, At;
      assert t[|block| + 4..] == rest && t[..|block|] == block;
      Cut(p.content, delimiter, tail);
      var d := headers(block);
      PartsRead(parts[1..], delimiter, epilogue, headers, fileField, Take(form, d, fileField, p.content));
      PartTaken(t, delimiter, headers, fileField, form);
      PartsUnfold(t, delimiter, headers, fileField, form);
    }
  }

  /** The whole body, its first delimiter being where the preamble ends. */
  lemma {:induction false} WholeRead(
    preamble: string, boundary: string, parts: seq<Part>, epilogue: string,
    headers: string -> Disposition, fileField: string)
    requires '\r' !in boundary && forall p :: p in parts ==> WellFormed(p, "\r\n--" + boundary)
    requires var delimiter := "\r\n--" + boundary;
             && Find("\r\n" + preamble + "--" + boundary, delimiter, 0) == |preamble|
             && |preamble| + |delimiter| <= 16385
    ensures var t, delimiter := "\r\n" + Encoded(preamble, boundary, parts, epilogue), "\r\n--" + boundary;
            && Whole(t, delimiter, headers, fileField) == Meaning(parts, headers, fileField, EMPTY_FORM)
            && Small(t, delimiter)
  {
    hide EncodedParts, Parts, SmallParts, WellFormed, Meaning, Find;
    var delimiter := "\r\n--" + boundary;
    var first := "\r\n" + preamble + "--" + boundary;
    var tail := EncodedParts(parts, delimiter, epilogue);
    var t := "\r\n" + Encoded(preamble, boundary, parts, epilogue);
    assert t == first + tail;
    FindPrefix(first, tail, delimiter);
    assert t[|preamble| + |delimiter|..] == tail;
    PartsRead(parts, delimiter, epilogue, headers, fileField, EMPTY_FORM);
  }

  /** Without a preamble the first delimiter starts the body. */
  lemma {:induction false} NoPreamble(boundary: string)
    ensures Find("\r\n" + "" + "--" + boundary, "\r\n--" + boundary, 0) == 0
  {
    var d := "\r\n--" + boundary;
    assert "\r\n" + "" + "--" + boundary == d && d[0..|d|] == d;
  }

  // --- What the form holds, said of its parts -----------------------------------------------------------

  /** What the header lines of a part say. */
  function Says(p: Part, headers: string -> Disposition): Disposition {
    headers(Block(p.lines))
  }

  predicate FilePart(p: Part, headers: string -> Disposition, fileField: string) {
    Says(p, headers).filename.Some? && Says(p, headers).name == fileField
  }

  predicate TextPart(p: Part, headers: string -> Disposition, name: string) {
    Says(p, headers) == Disposition(name, None) && name != ""
  }

  /** The file is the content of the first part that has a file name and the name of the field. */
  ghost predicate FileGiven(parts: seq<Part>, headers: string -> Disposition, fileField: string, form: Form) {
    || (form.filename == None && form.file == "" && forall p :: p in parts ==> !FilePart(p, headers, fileField))
    || exists i :: 0 <= i < |parts| && FilePart(parts[i], headers, fileField)
         && (forall k :: 0 <= k < i ==> !FilePart(parts[k], headers, fileField))
         && form.filename == Says(parts[i], headers).filename && form.file == parts[i].content
  }

  /** The last text part of that name. */
  ghost predicate LastText(parts: seq<Part>, headers: string -> Disposition, name: string, i: nat) {
    && i < |parts| && TextPart(parts[i], headers, name)
    && forall k :: i < k < |parts| ==> !TextPart(parts[k], headers, name)
  }

  /** The fields are the named parts without a file name, each with its last content. */
  ghost predicate FieldsGiven(parts: seq<Part>, headers: string -> Disposition, form: Form) {
    && (forall name :: name in form.fields <==> exists p :: p in parts && TextPart(p, headers, name))
    && (forall name, i: nat :: name in form.fields && LastText(parts, headers, name, i) ==>
          form.fields[name] == parts[i].content)
  }

  /** A text of more than 64 KiB. */
  ghost predicate TooLong(p: Part, headers: string -> Disposition) {
    |p.content| > 65536 && Says(p, headers).filename.None? && Says(p, headers).name != ""
  }

  ghost predicate FormOf(parts: seq<Part>, headers: string -> Disposition, fileField: string, r: Result) {
    match r
    case Refused => exists p :: p in parts && TooLong(p, headers)
    case Received(form) =>
      && (forall p :: p in parts ==> !TooLong(p, headers))
      && FileGiven(parts, headers, fileField, form) && FieldsGiven(parts, headers, form)
  }

  lemma {:induction false} FileTaken(
    parts: seq<Part>, p: Part, headers: string -> Disposition, fileField: string, form: Form)
    requires FileGiven(parts, headers, fileField, form)
    ensures FileGiven(parts + [p], headers, fileField, Take(form, Says(p, headers), fileField, p.content))
  {
    hide Says;
    var all := parts + [p];
    if form.filename.None? {
      assert forall k :: 0 <= k < |parts| ==> all[k] in parts;
      assert all[|parts|] == p;
    } else {
      var i :| 0 <= i < |parts| && FilePart(parts[i], headers, fileField)
        && (forall k :: 0 <= k < i ==> !FilePart(parts[k], headers, fileField))
        && form.filename == Says(parts[i], headers).filename && form.file == parts[i].content;
      assert all[i] == parts[i] && forall k :: 0 <= k < i ==> all[k] == parts[k];
    }
  }

  lemma {:induction false} FieldTaken(
    parts: seq<Part>, p: Part, headers: string -> Disposition, fileField: string, form: Form)
    requires FieldsGiven(parts, headers, form)
    ensures FieldsGiven(parts + [p], headers, Take(form, Says(p, headers), fileField, p.content))
  {
    hide Says;
    var all, after := parts + [p], Take(form, Says(p, headers), fileField, p.content);
    forall name
      ensures name in after.fields <==> exists q :: q in all && TextPart(q, headers, name)
      ensures forall i: nat :: name in after.fields && LastText(all, headers, name, i) ==>
                after.fields[name] == all[i].content
    {
      assert name in after.fields <==> name in form.fields || TextPart(p, headers, name);
      assert forall q :: q in all <==> q in parts || q == p;
      forall i: nat | name in after.fields && LastText(all, headers, name, i)
        ensures after.fields[name] == all[i].content
      {
        if i < |parts| {
          assert all[|parts|] == p && !TextPart(p, headers, name);
          assert forall k :: 0 <= k < |parts| ==> all[k] == parts[k];
          assert LastText(parts, headers, name, i);
        }
      }
    }
  }

  lemma {:induction false} MeaningDescribes(
    before: seq<Part>, parts: seq<Part>, headers: string -> Disposition, fileField: string, form: Form)
    requires FormOf(before, headers, fileField, Received(form))
    ensures FormOf(before + parts, headers, fileField, Meaning(parts, headers, fileField, form))
    decreases |parts|
  {
    hide Says, FileGiven, FieldsGiven;
    if parts == [] {
      assert before + parts == before;
    } else {
      var p := parts[0];
      assert before + parts == before + [p] + parts[1..];
      FileTaken(before, p, headers, fileField, form);
      FieldTaken(before, p, headers, fileField, form);
      FieldIsText(p, headers, fileField, form);
      if TooLong(p, headers) {
        assert p in before + parts;
      } else {
        MeaningDescribes(before + [p], parts[1..], headers, fileField,
                         Take(form, Says(p, headers), fileField, p.content));
      }
    }
  }

  lemma {:induction false} FieldIsText(
    p: Part, headers: string -> Disposition, fileField: string, form: Form)
    ensures KindOf(headers(Block(p.lines)), fileField, form).Field? && |p.content| > MAX_FIELD <==> TooLong(p, headers)
    ensures headers(Block(p.lines)) == Says(p, headers)
  {
  }

  /** The form means what its parts say. */
  lemma {:induction false} MeaningIsForm(parts: seq<Part>, headers: string -> Disposition, fileField: string)
    ensures FormOf(parts, headers, fileField, Meaning(parts, headers, fileField, EMPTY_FORM))
  {
    hide Meaning;
    MeaningDescribes([], parts, headers, fileField, EMPTY_FORM);
    assert [] + parts == parts;
  }

  /** For every way the connection cuts the bytes: a complete body gives back exactly what was encoded, and
      all announced bytes are read. */
  method ReadBack(
    boundary: string, preamble: string, parts: seq<Part>, epilogue: string,
    headers: string -> Disposition, fileField: string, chunkSize: nat)
    returns (r: Result, unread: nat)
    requires chunkSize > 0 && '\r' !in boundary
    requires forall p :: p in parts ==> WellFormed(p, "\r\n--" + boundary)
    requires var delimiter := "\r\n--" + boundary;
             && Find("\r\n" + preamble + "--" + boundary, delimiter, 0) == |preamble|
             && |preamble| + |delimiter| <= 16385
    ensures FormOf(parts, headers, fileField, r) && unread == 0
  {
    hide FormOf, Whole, Small, Meaning, Encoded, Find, WellFormed;
    var body := Encoded(preamble, boundary, parts, epilogue);
    var stream := new Stream(body);
    var reader := new Reader(stream, |body|, boundary, chunkSize);
    assert reader.Coming() == body && CRLF + "--" + boundary == "\r\n--" + boundary;
    WholeRead(preamble, boundary, parts, epilogue, headers, fileField);
    MeaningIsForm(parts, headers, fileField);
    r := reader.Save(headers, fileField);
    unread := reader.remaining;
  }
}
