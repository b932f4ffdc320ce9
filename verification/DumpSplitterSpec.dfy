/** What a whole dump becomes, defined line by line without any chunk or buffer. */
module DumpSplitterSpec {
  import opened Text
  import opened DumpSplitter

  /** The bytes sent to psql, and the post-data kept aside. */
  datatype Outcome = Outcome(sent: string, post: Option<string>)

  function Prepend(head: string, o: Outcome): Outcome {
    Outcome(head + o.sent, o.post)
  }

  /** Statement text: the post-data starts at the first marker line, a COPY header opens a block. */
  function Ideal(freeze: bool, text: string): Outcome
    decreases |text|, 1
  {
    var n := Newline(text, 0);
    if StartsMarker(text) then Outcome("", Some(text))
    else if n == |text| then Outcome(text, None)
    else if HeaderTable(text[..n]).Some? then
      var header := if freeze then FrozenHeader(text[..n], HeaderTable(text[..n]).value) else text[..n];
      Prepend(header, IdealCopy(freeze, freeze, text[n..]))
    else Prepend(text[..n + 1], Ideal(freeze && !HasPartition(text[..n + 1]), text[n + 1..]))
  }

  /** A COPY block runs to the first end-of-data line, whatever its rows look like. */
  function IdealCopy(freeze: bool, frozen: bool, text: string): Outcome
    decreases |text|, 0
  {
    var e := Find(text, COPY_END, 0);
    if e < 0 then Outcome(text, None)
    else
      var block := if frozen then text[..e + 4] + PieceText(Commit) else text[..e + 4];
      Prepend(block, Ideal(freeze, text[e + 4..]))
  }

  /** How much of the marker lies beyond its first line. */
  function MarkerTail(text: string): (n: nat) {
    var newline := Newline(text, 0);
    if newline < MarkerLength(text) then MarkerLength(text) - (newline + 1) else 0
  }

  predicate MentionsPartition(s: string) {
    exists i :: 0 <= i < |s| && PartitionWords(s, i)
  }

  /** With freeze on, a COPY header comes and is frozen: no partitioned table before it. */
  predicate Freezes(text: string)
    decreases |text|
  {
    var n := Newline(text, 0);
    && !StartsMarker(text) && n < |text|
    && (HeaderTable(text[..n]).Some? || (!HasPartition(text[..n + 1]) && Freezes(text[n + 1..])))
  }

  /** What a dump must satisfy to be split the same way whatever its chunks: the post-data marker
      holds within `lookback` bytes after its first line; with freeze, neither a frozen COPY header nor a line
      before one has the words PARTITION BY or PARTITION OF run into a longer word. */
  predicate Stable(freeze: bool, text: string, lookback: nat)
    decreases |text|, 1
  {
    var n := Newline(text, 0);
    if StartsMarker(text) then MarkerTail(text) <= lookback
    else if n == |text| then true
    else if HeaderTable(text[..n]).Some? then
      (freeze ==> !MentionsPartition(text[..n])) && StableCopy(freeze, text[n..], lookback)
    else
      var line := text[..n + 1];
      && (freeze && MentionsPartition(line) && !HasPartition(line) ==> !Freezes(text[n + 1..]))
      && Stable(freeze && !HasPartition(line), text[n + 1..], lookback)
  }

  predicate StableCopy(freeze: bool, text: string, lookback: nat)
    decreases |text|, 0
  {
    var e := Find(text, COPY_END, 0);
    e >= 0 ==> Stable(freeze, text[e + 4..], lookback)
  }
}
