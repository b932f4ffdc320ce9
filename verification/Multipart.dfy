/** The streaming reader of a multipart form (odoo_manager_core/archives.py; sections 5.1.1 of RFC 2046
    and 4.1 of RFC 7578). */
module Multipart {
  import opened Text

  const MAX_HEADER: nat := 16 * 1024
  const MAX_FIELD: nat := 64 * 1024
  const CRLF := "\r\n"
  const BLANK_LINE := "\r\n\r\n"

  /** What a part's header lines say; reading them is left abstract. */
  datatype Disposition = Disposition(name: string, filename: Option<string>)

  /** What the form has given so far; `file` is what was written to the destination. */
  datatype Form = Form(fields: map<string, string>, filename: Option<string>, file: string)

  datatype Result = Received(form: Form) | Refused

  const EMPTY_FORM := Form(map[], None, "")

  datatype Kind = File | Ignored | Field

  function KindOf(d: Disposition, fileField: string, form: Form): Kind {
    if d.filename.Some? && d.name == fileField && form.filename.None? then File
    else if d.filename.Some? || d.name == "" then Ignored
    else Field
  }

  function Take(form: Form, d: Disposition, fileField: string, content: string): Form {
    match KindOf(d, fileField, form)
    case File => form.(filename := d.filename, file := content)
    case Ignored => form
    case Field => form.(fields := form.fields[d.name := content])
  }

  // --- The form of a whole body, without any buffer ---------------------------------------------------

  /** A delimiter line: the delimiter, then a line end or the closing hyphens. */
  predicate IsBoundary(t: string, i: int, delimiter: string) {
    At(t, i, delimiter) && (At(t, i + |delimiter|, CRLF) || At(t, i + |delimiter|, "--"))
  }

  function Boundary(t: string, i: nat, delimiter: string): (r: int)
    ensures r >= 0 ==> i <= r && IsBoundary(t, r, delimiter) && forall k :: i <= k < r ==> !IsBoundary(t, k, delimiter)
    ensures r < 0 ==> forall k :: i <= k ==> !IsBoundary(t, k, delimiter)
    decreases |t| - i
  {
    if i >= |t| then
      assert delimiter != "" || !At(t, i, CRLF);
      -1
    else if IsBoundary(t, i, delimiter) then i
    else Boundary(t, i + 1, delimiter)
  }

  /** The parts that follow a delimiter. */
  function Parts(
    t: string, delimiter: string, headers: string -> Disposition, fileField: string, form: Form): Result
    decreases |t|
  {
    if At(t, 0, "--") then Received(form)
    else
      var h := Find(t, BLANK_LINE, 0);
      if h < 0 then Refused
      else
        var rest, d := t[h + 4..], headers(t[..h]);
        var e := Boundary(rest, 0, delimiter);
        if e < 0 || (KindOf(d, fileField, form).Field? && e > MAX_FIELD) then Refused
        else Parts(rest[e + |delimiter|..], delimiter, headers, fileField,
                                    Take(form, d, fileField, rest[..e]))
  }

  function Whole(t: string, delimiter: string, headers: string -> Disposition, fileField: string): Result {
    var i := Find(t, delimiter, 0);
    if i < 0 then Refused else Parts(t[i + |delimiter|..], delimiter, headers, fileField, EMPTY_FORM)
  }

  /** Header blocks small enough never to be refused, however they arrive. */
  predicate SmallParts(t: string, delimiter: string)
    decreases |t|
  {
    At(t, 0, "--")
    || var h := Find(t, BLANK_LINE, 0);
       h >= 0 ==> h + 4 <= MAX_HEADER + 1
                  && var rest := t[h + 4..];
                     var e := Boundary(rest, 0, delimiter);
                     e >= 0 ==> SmallParts(rest[e + |delimiter|..], delimiter)
  }

  predicate Small(t: string, delimiter: string) {
    var i := Find(t, delimiter, 0);
    i >= 0 ==> i + |delimiter| <= MAX_HEADER + 1 && SmallParts(t[i + |delimiter|..], delimiter)
  }

  // --- The reader -------------------------------------------------------------------------------------

  /** A connection: each read gives some of the bytes left, none only at its end. */
  class Stream {
    var data: string

    constructor (data: string)
      ensures this.data == data
    {
      this.data := data;
    }

    method Read(n: nat) returns (chunk: string)
      modifies this
      ensures |chunk| <= n && chunk + data == old(data)
      ensures chunk == "" ==> n == 0 || old(data) == ""
    {
      if n == 0 || data == "" {
        return "";
      }
      var k: nat :| 1 <= k <= n && k <= |data|;
      chunk := data[..k];
      data := data[k..];
    }
  }

  /** Where the content of a part goes; only a text field has a limit. */
  class Sink {
    var written: string
    const limit: Option<nat>

    constructor (limit: Option<nat>)
      ensures written == "" && this.limit == limit
    {
      written := "";
      this.limit := limit;
    }

    method Write(data: string) returns (ok: bool)
      modifies this
      ensures ok <==> (limit.Some? ==> |old(written) + data| <= limit.value)
      ensures written == if ok then old(written) + data else old(written)
    {
      if limit.Some? && |written| + |data| > limit.value {
        return false;
      }
      written := written + data;
      return true;
    }
  }

  datatype Fill = Filled | Exhausted | Interrupted

  class Reader {
    const stream: Stream
    const delimiter: string
    const chunkSize: nat
    var remaining: nat
    var buffer: string

    /** The bytes still to come, if the connection does not stop early. */
    function Coming(): string
      reads this, stream
    {
      if remaining <= |stream.data| then stream.data[..remaining] else stream.data
    }

    /** All the text not consumed yet. */
    function Rest(): string
      reads this, stream
    {
      buffer + Coming()
    }

    predicate Complete()
      reads this, stream
    {
      remaining <= |stream.data|
    }

    /** The most the buffer holds between two steps, and while a delimiter is being completed. */
    function Usual(): nat {
      MAX_HEADER + |delimiter| + 1 + chunkSize
    }

    function Limit(): nat {
      Usual() + 1 + chunkSize
    }

    ghost predicate Valid()
      reads this
    {
      chunkSize > 0 && |delimiter| >= 4 && |buffer| <= Usual()
    }

    constructor (stream: Stream, contentLength: nat, boundary: string, chunkSize: nat)
      requires chunkSize > 0
      ensures Valid() && delimiter == CRLF + "--" + boundary && buffer == CRLF && remaining == contentLength
      ensures this.stream == stream && this.chunkSize == chunkSize
    {
      this.stream := stream;
      this.chunkSize := chunkSize;
      delimiter := CRLF + "--" + boundary;
      remaining := contentLength;
      // The first delimiter has no line end before it: one pattern then finds them all.
      buffer := CRLF;
    }

    method FillBuffer() returns (r: Fill)
      requires chunkSize > 0 && |buffer| + chunkSize <= Limit()
      modifies this, stream
      ensures Rest() == old(Rest()) && (old(Complete()) ==> Complete())
      ensures old(buffer) <= buffer && |buffer| <= |old(buffer)| + chunkSize
      ensures r.Filled? ==> |buffer| > |old(buffer)| && remaining < old(remaining)
      ensures remaining + |buffer| == old(remaining + |buffer|)
      ensures !r.Filled? ==> buffer == old(buffer) && remaining == old(remaining) && Coming() == ""
      ensures r.Exhausted? <==> old(remaining) == 0
      ensures r.Interrupted? ==> stream.data == "" && !old(Complete())
    {
      if remaining == 0 {
        return Exhausted;
      }
      ghost var coming := Coming();
      var n := if chunkSize <= remaining then chunkSize else remaining;
      var chunk := stream.Read(n);
      if chunk == "" {
        return Interrupted;
      }
      remaining := remaining - |chunk|;
      assert coming == chunk + Coming();
      assert buffer + (chunk + Coming()) == buffer + chunk + Coming();
      buffer := buffer + chunk;
      return Filled;
    }

    /** Drops everything up to the end of the first `pattern`, which a refusal bounds. */
    method SkipTo(pattern: string) returns (index: int, skipped: string)
      requires Valid() && pattern != ""
      modifies this, stream
      ensures Valid() && (old(Complete()) ==> Complete())
      ensures index >= 0 ==> index == Find(old(Rest()), pattern, 0) && index + |pattern| <= |old(Rest())|
                             && Rest() == old(Rest())[index + |pattern|..] && skipped == old(Rest())[..index]
      ensures index < 0 ==> var i := Find(old(Rest()), pattern, 0);
                            !old(Complete()) || i < 0 || i + |pattern| > MAX_HEADER + 1
    {
      hide Find;
      while !(Find(buffer, pattern, 0) >= 0)
        invariant Valid() && Rest() == old(Rest()) && (old(Complete()) ==> Complete())
        decreases remaining
      {
        FindPrefix(buffer, Coming(), pattern);
        if |buffer| > MAX_HEADER {
          return -1, "";
        }
        var r := FillBuffer();
        if !r.Filled? {
          assert buffer + "" == buffer;
          return -1, "";
        }
      }
      index := Find(buffer, pattern, 0);
      FindPrefix(buffer, Coming(), pattern);
      skipped := buffer[..index];
      CutBuffer(buffer, Coming(), index, |pattern|);
      buffer := buffer[index + |pattern|..];
    }

    /** Tells whether the closing hyphens follow the delimiter just read. */
    method AtEnd() returns (end: bool)
      requires Valid()
      modifies this, stream
      ensures Valid() && Rest() == old(Rest()) && (old(Complete()) ==> Complete())
      ensures end <==> At(Rest(), 0, "--")
    {
      while |buffer| < 2
        invariant Valid() && Rest() == old(Rest()) && (old(Complete()) ==> Complete())
        decreases remaining
      {
        var r := FillBuffer();
        if !r.Filled? {
          assert Rest() == buffer;
          return false;
        }
      }
      AtPrefix(buffer, Coming(), 0, "--");
      end := At(buffer, 0, "--");
    }

    /** Completes the two characters that follow the delimiter at `index`, if they come. */
    method CompleteDelimiter(index: nat)
      requires Valid() && index + |delimiter| <= |buffer|
      modifies this, stream
      ensures Rest() == old(Rest()) && (old(Complete()) ==> Complete()) && old(buffer) <= buffer
      ensures |buffer| - index - 1 <= Usual() && |buffer| <= Limit()
      ensures |buffer| >= index + |delimiter| + 2 || Coming() == ""
      ensures remaining + |buffer| == old(remaining + |buffer|)
    {
      while |buffer| < index + |delimiter| + 2
        invariant Rest() == old(Rest()) && (old(Complete()) ==> Complete()) && old(buffer) <= buffer
        invariant |buffer| - index - 1 <= Usual() && |buffer| <= Limit()
        invariant remaining + |buffer| == old(remaining + |buffer|)
        decreases remaining
      {
        var r := FillBuffer();
        if !r.Filled? {
          return;
        }
      }
    }

    /** In the middle of a content `t`: what is written and what is left make it up, and its end is ahead. */
    ghost predicate Copying(sink: Sink, t: string)
      reads this, stream, sink
    {
      && Valid() && sink.written + Rest() == t && NoBoundaryBefore(t, |sink.written|, delimiter)
      && (sink.limit.Some? ==> |sink.written| <= sink.limit.value)
    }

    /** Why a content is not complete: its limit, or its end is missing. */
    ghost predicate NotCopied(sink: Sink, t: string, complete: bool)
    {
      var e := Boundary(t, 0, delimiter);
      !complete || e < 0 || (sink.limit.Some? && e > sink.limit.value)
    }

    ghost predicate Copied(sink: Sink, t: string)
      reads this, stream, sink
    {
      var e := Boundary(t, 0, delimiter);
      && Valid() && e >= 0 && e + |delimiter| <= |t| && sink.written == t[..e] && Rest() == t[e + |delimiter|..]
      && (sink.limit.Some? ==> e <= sink.limit.value)
    }

    /** The buffer holds the delimiter at `index`: either it ends the content, or it belongs to it. */
    method AtDelimiter(sink: Sink, index: nat, ghost t: string) returns (step: Step)
      requires Copying(sink, t) && index == Find(buffer, delimiter, 0)
      modifies this, stream, sink
      ensures Valid() && (old(Complete()) ==> Complete())
      ensures match step
              case Ended => Copied(sink, t)
              case Failed => NotCopied(sink, t, old(Complete()))
              case GoOn => Copying(sink, t) && remaining + |buffer| < old(remaining + |buffer|)
    {
      hide Boundary, IsBoundary, Find, At, NoBoundaryBefore;
      ghost var written, seen := sink.written, buffer;
      NothingSkipped(t, written, buffer, Coming(), delimiter);
      CompleteDelimiter(index);
      var end := index + |delimiter|;
      SameText(t, written, seen, buffer);
      DelimiterFound(t, written, seen, buffer, Coming(), delimiter, index);
      if At(buffer, end, CRLF) || At(buffer, end, "--") {
        var ok := sink.Write(buffer[..index]);
        buffer := buffer[if ok then end else index + 1..];
        return if ok then Ended else Failed;
      }
      var ok := sink.Write(buffer[..index + 1]);
      buffer := buffer[index + 1..];
      return if ok then GoOn else Failed;
    }

    lemma {:induction false} SameText(t: string, written: string, seen: string, buffer: string)
      requires seen <= buffer && buffer == this.buffer && written + Rest() == t
      ensures t == written + (buffer + Coming())
    {
    }

    /** No delimiter in the buffer: all but the start of a possible one belongs to the content. */
    method NoDelimiter(sink: Sink, ghost t: string) returns (step: Step)
      requires Copying(sink, t) && Find(buffer, delimiter, 0) < 0
      modifies this, stream, sink
      ensures Valid() && (old(Complete()) ==> Complete()) && !step.Ended?
      ensures step.Failed? ==> NotCopied(sink, t, old(Complete()))
      ensures step.GoOn? ==> Copying(sink, t) && remaining + |buffer| <= old(remaining + |buffer|)
                             && remaining < old(remaining)
    {
      hide Boundary, IsBoundary, Find, At, NoBoundaryBefore;
      ghost var written, coming := sink.written, Coming();
      NothingSkipped(t, written, buffer, coming, delimiter);
      var keep := |delimiter| + 1;
      if |buffer| > keep {
        NoBoundaryShrinks(t, |written| + |buffer| - keep, |written| + |buffer| + 1 - |delimiter|, delimiter);
        var ok := sink.Write(buffer[..|buffer| - keep]);
        if !ok {
          BoundaryIsLater(t, |written| + |buffer| - keep, delimiter);
          return Failed;
        }
        buffer := buffer[|buffer| - keep..];
      }
      assert Coming() == coming;
      assert sink.written + Rest() == t;
      var r := FillBuffer();
      return if r.Filled? then GoOn else Failed;
    }

    /** Copies a part's content to its sink, up to the delimiter line that ends it. */
    method ReadContent(sink: Sink) returns (ok: bool)
      requires Valid() && sink.written == ""
      modifies this, stream, sink
      ensures Valid() && (old(Complete()) ==> Complete())
      ensures if ok then Copied(sink, old(Rest())) else NotCopied(sink, old(Rest()), old(Complete()))
    {
      hide Boundary, Find, NoBoundaryBefore, Copied;
      ghost var t := Rest();
      NothingBefore(t, delimiter);
      assert sink.written + Rest() == t;
      while true
        invariant Copying(sink, t) && (old(Complete()) ==> Complete())
        decreases remaining + |buffer|, remaining
      {
        var index := Find(buffer, delimiter, 0);
        var step;
        if index >= 0 {
          step := AtDelimiter(sink, index, t);
        } else {
          step := NoDelimiter(sink, t);
        }
        if !step.GoOn? {
          return step.Ended?;
        }
      }
    }
  
    /** One part: its header lines, then its content. */
    method ReadPart(headers: string -> Disposition, fileField: string, form: Form) returns (next: Option<Form>)
      requires Valid() && !At(Rest(), 0, "--")
      modifies this, stream
      ensures Valid() && (old(Complete()) ==> Complete())
      ensures next.Some? ==>
                && Parts(old(Rest()), delimiter, headers, fileField, form)
                   == Parts(Rest(), delimiter, headers, fileField, next.value)
                && (SmallParts(old(Rest()), delimiter) ==> SmallParts(Rest(), delimiter))
                && |Rest()| < |old(Rest())|
      ensures next.None? ==> !old(Complete()) || !SmallParts(old(Rest()), delimiter)
                             || Parts(old(Rest()), delimiter, headers, fileField, form) == Refused
    {
      hide Boundary, Find, Take, KindOf, Parts, SmallParts, LimitOf, At;
      ghost var t := Rest();
      PartsUnfold(t, delimiter, headers, fileField, form);
      var h, block := SkipTo(BLANK_LINE);
      if h < 0 {
        return None;
      }
      PartTaken(t, delimiter, headers, fileField, form);
      var d := headers(block);
      var sink := new Sink(LimitOf(KindOf(d, fileField, form)));
      ghost var rest := Rest();
      var ok := ReadContent(sink);
      next := if ok then Some(Take(form, d, fileField, sink.written)) else None;
    }

    /** The parts after the first delimiter, one after the other. */
    method ReadParts(headers: string -> Disposition, fileField: string) returns (r: Result)
      requires Valid()
      modifies this, stream
      ensures Valid() && (old(Complete()) ==> Complete())
      ensures r.Received? ==> r == Parts(old(Rest()), delimiter, headers, fileField, EMPTY_FORM)
      ensures r.Refused? ==> !old(Complete()) || !SmallParts(old(Rest()), delimiter)
                             || Parts(old(Rest()), delimiter, headers, fileField, EMPTY_FORM) == Refused
    {
      hide Parts, SmallParts, At;
      ghost var t, complete := Rest(), Complete();
      var form := EMPTY_FORM;
      while true
        invariant Valid() && (complete ==> Complete())
        invariant Parts(Rest(), delimiter, headers, fileField, form)
               == Parts(t, delimiter, headers, fileField, EMPTY_FORM)
        invariant SmallParts(t, delimiter) ==> SmallParts(Rest(), delimiter)
        decreases |Rest()|
      {
        PartsUnfold(Rest(), delimiter, headers, fileField, form);
        var end := AtEnd();
        if end {
          return Received(form);
        }
        var next := ReadPart(headers, fileField, form);
        if next.None? {
          return Refused;
        }
        form := next.value;
      }
    }

    method Parse(headers: string -> Disposition, fileField: string) returns (r: Result)
      requires Valid()
      modifies this, stream
      ensures Valid() && (old(Complete()) ==> Complete())
      ensures r.Received? ==> r == Whole(old(Rest()), delimiter, headers, fileField)
      ensures r.Refused? ==> !old(Complete()) || !Small(old(Rest()), delimiter)
                             || Whole(old(Rest()), delimiter, headers, fileField) == Refused
    {
      hide Find, Parts, SmallParts;
      var i, _ := SkipTo(delimiter);
      if i < 0 {
        return Refused;
      }
      r := ReadParts(headers, fileField);
    }

    /** Reads the form and, accepted or refused, the rest of the announced bytes. */
    method Save(headers: string -> Disposition, fileField: string) returns (r: Result)
      requires Valid()
      modifies this, stream
      ensures remaining == 0 || (stream.data == "" && !old(Complete()))
      ensures r.Received? ==> r == Whole(old(Rest()), delimiter, headers, fileField) && remaining == 0
      ensures r.Refused? ==> !old(Complete()) || !Small(old(Rest()), delimiter)
                             || Whole(old(Rest()), delimiter, headers, fileField) == Refused
    {
      hide Whole, Small;
      r := Parse(headers, fileField);
      while remaining > 0
        invariant Valid() && (old(Complete()) ==> Complete())
        invariant r.Refused? ==> !old(Complete()) || !Small(old(Rest()), delimiter)
                                 || Whole(old(Rest()), delimiter, headers, fileField) == Refused
        invariant r.Received? ==> r == Whole(old(Rest()), delimiter, headers, fileField)
        decreases remaining
      {
        buffer := "";
        var fill := FillBuffer();
        if fill.Interrupted? {
          return Refused;
        }
      }
    }
  }

  function LimitOf(kind: Kind): Option<nat> {
    if kind.Field? then Some(MAX_FIELD) else None
  }

  lemma {:induction false} PartsUnfold(
    t: string, delimiter: string, headers: string -> Disposition, fileField: string, form: Form)
    ensures At(t, 0, "--") ==> Parts(t, delimiter, headers, fileField, form) == Received(form)
    ensures !At(t, 0, "--") && Find(t, BLANK_LINE, 0) < 0 ==> Parts(t, delimiter, headers, fileField, form) == Refused
    ensures !At(t, 0, "--") && Find(t, BLANK_LINE, 0) + 4 > MAX_HEADER + 1 ==> !SmallParts(t, delimiter)
  {
  }

  lemma {:induction false} PartTaken(
    t: string, delimiter: string, headers: string -> Disposition, fileField: string, form: Form)
    ensures var h := Find(t, BLANK_LINE, 0);
            !At(t, 0, "--") && h >= 0 ==>
              var rest, d := t[h + 4..], headers(t[..h]);
              var e, limit := Boundary(rest, 0, delimiter), LimitOf(KindOf(d, fileField, form));
              && (e < 0 || (limit.Some? && e > limit.value)
                  ==> Parts(t, delimiter, headers, fileField, form) == Refused)
              && (e >= 0 && (limit.Some? ==> e <= limit.value)
                  ==> && Parts(t, delimiter, headers, fileField, form)
                         == Parts(rest[e + |delimiter|..], delimiter, headers, fileField,
                                    Take(form, d, fileField, rest[..e]))
                      && (SmallParts(t, delimiter) ==> SmallParts(rest[e + |delimiter|..], delimiter)))
  {
    hide Find, Boundary, At, Take;
  }

  datatype Step = Ended | Failed | GoOn

  ghost predicate NoBoundaryBefore(t: string, n: nat, delimiter: string) {
    forall k :: 0 <= k < n ==> !IsBoundary(t, k, delimiter)
  }

  /** What the delimiter found at `index` means for the content: its end, or one more of its characters. */
  lemma {:induction false} DelimiterFound(
    t: string, written: string, seen: string, buffer: string, coming: string, delimiter: string, index: nat)
    requires t == written + (buffer + coming) && seen <= buffer && index + |delimiter| <= |seen|
    requires index == Find(seen, delimiter, 0) && delimiter != ""
    requires |buffer| >= index + |delimiter| + 2 || coming == ""
    requires NoBoundaryBefore(t, |written| + index, delimiter)
    ensures var end := index + |delimiter|;
      if At(buffer, end, CRLF) || At(buffer, end, "--") then
        && Boundary(t, 0, delimiter) == |written| + index
        && t[..|written| + index] == written + buffer[..index]
        && t[|written| + end..] == buffer[end..] + coming
      else
        && NoBoundaryBefore(t, |written| + index + 1, delimiter)
        && (Boundary(t, 0, delimiter) < 0 || Boundary(t, 0, delimiter) >= |written| + index + 1)
        && (written + buffer[..index + 1]) + (buffer[index + 1..] + coming) == t
  {
    hide Boundary, IsBoundary, Find, At, NoBoundaryBefore;
    var end := index + |delimiter|;
    AtPrefix(seen, buffer[|seen|..], index, delimiter);
    assert buffer == seen + buffer[|seen|..];
    BoundaryAt(t, written, buffer, coming, delimiter, index);
    CutText(t, written, buffer, coming, index);
    CutText(t, written, buffer, coming, end);
    CutText(t, written, buffer, coming, index + 1);
    if At(buffer, end, CRLF) || At(buffer, end, "--") {
      BoundaryFound(t, |written| + index, delimiter);
    } else {
      NoBoundaryExtends(t, |written| + index, delimiter);
      BoundaryIsLater(t, |written| + index + 1, delimiter);
    }
  }

  lemma {:induction false} CutBuffer(buffer: string, coming: string, index: nat, length: nat)
    requires index + length <= |buffer|
    ensures (buffer + coming)[..index] == buffer[..index]
    ensures (buffer + coming)[index + length..] == buffer[index + length..] + coming
  {
  }

  lemma {:induction false} CutText(t: string, written: string, buffer: string, coming: string, k: nat)
    requires t == written + (buffer + coming) && k <= |buffer|
    ensures t[..|written| + k] == written + buffer[..k] && t[|written| + k..] == buffer[k..] + coming
    ensures (written + buffer[..k]) + (buffer[k..] + coming) == t
  {
  }

  lemma {:induction false} NothingBefore(t: string, delimiter: string)
    ensures NoBoundaryBefore(t, 0, delimiter)
  {
  }

  lemma {:induction false} NoBoundaryExtends(t: string, n: nat, delimiter: string)
    requires NoBoundaryBefore(t, n, delimiter) && !IsBoundary(t, n, delimiter)
    ensures NoBoundaryBefore(t, n + 1, delimiter)
  {
  }

  lemma {:induction false} NoBoundaryShrinks(t: string, n: nat, m: nat, delimiter: string)
    requires NoBoundaryBefore(t, m, delimiter) && n <= m
    ensures NoBoundaryBefore(t, n, delimiter)
  {
  }

  lemma {:induction false} BoundaryFound(t: string, n: nat, delimiter: string)
    requires NoBoundaryBefore(t, n, delimiter) && IsBoundary(t, n, delimiter)
    ensures Boundary(t, 0, delimiter) == n
  {
    hide IsBoundary;
  }

  lemma {:induction false} BoundaryIsLater(t: string, n: nat, delimiter: string)
    requires NoBoundaryBefore(t, n, delimiter)
    ensures Boundary(t, 0, delimiter) < 0 || Boundary(t, 0, delimiter) >= n
  {
    hide IsBoundary;
  }

  lemma {:induction false} AtShifted(a: string, b: string, i: nat, p: string)
    ensures At(a + b, |a| + i, p) <==> At(b, i, p)
  {
    if i + |p| <= |b| {
      assert (a + b)[|a| + i..|a| + i + |p|] == b[i..i + |p|];
    }
  }

  /** What the buffer shows of the boundaries of the whole text. */
  lemma {:induction false} NothingSkipped(t: string, written: string, buffer: string, coming: string, delimiter: string)
    requires t == written + (buffer + coming) && delimiter != "" && NoBoundaryBefore(t, |written|, delimiter)
    ensures var index := Find(buffer, delimiter, 0);
            if index >= 0 then
              index + |delimiter| <= |buffer| && NoBoundaryBefore(t, |written| + index, delimiter)
            else
              && (|buffer| + 1 >= |delimiter| ==>
                    NoBoundaryBefore(t, |written| + |buffer| + 1 - |delimiter|, delimiter))
              && (coming == "" ==> Boundary(t, 0, delimiter) < 0)
  {
    var index := Find(buffer, delimiter, 0);
    var n := if index >= 0 then index else if |buffer| + 1 >= |delimiter| then |buffer| + 1 - |delimiter| else 0;
    forall k | |written| <= k < |written| + n ensures !IsBoundary(t, k, delimiter) {
      AtShifted(written, buffer + coming, k - |written|, delimiter);
      AtPrefix(buffer, coming, k - |written|, delimiter);
    }
    if index < 0 && coming == "" {
      assert forall k :: k >= |written| + n ==> !At(t, k, delimiter);
      BoundaryIsLater(t, |written| + n, delimiter);
    }
  }

  lemma {:induction false} BoundaryAt(
    t: string, written: string, buffer: string, coming: string, delimiter: string, index: nat)
    requires t == written + (buffer + coming) && At(buffer, index, delimiter)
    requires |buffer| >= index + |delimiter| + 2 || coming == ""
    ensures IsBoundary(t, |written| + index, delimiter)
            <==> At(buffer, index + |delimiter|, CRLF) || At(buffer, index + |delimiter|, "--")
  {
    var end := index + |delimiter|;
    AtShifted(written, buffer + coming, index, delimiter);
    AtShifted(written, buffer + coming, end, CRLF);
    AtShifted(written, buffer + coming, end, "--");
    AtPrefix(buffer, coming, index, delimiter);
    if coming == "" {
      assert buffer + coming == buffer;
    } else {
      AtPrefix(buffer, coming, end, CRLF);
      AtPrefix(buffer, coming, end, "--");
    }
  }
}
