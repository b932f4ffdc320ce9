/** Byte and character strings, searched the way Python's `find` and anchored regexes do.

    A byte is modelled as a `char`; every result holds for any alphabet, so in particular for bytes. */
module Text {

  datatype Option<+T> = None | Some(value: T)

  /** `p` occurs in `s` at index `i`. */
  predicate At(s: string, i: int, p: string) {
    0 <= i && i + |p| <= |s| && s[i..i + |p|] == p
  }

  lemma {:induction false} AtCharacters(t: string, k: int, p: string)
    requires At(t, k, p)
    ensures forall i :: k <= i < k + |p| ==> t[i] == p[i - k]
  {
    forall i | k <= i < k + |p| ensures t[i] == p[i - k] {
      assert t[k..k + |p|][i - k] == t[i];
    }
  }

  /** Python's `s.find(p, start)`: the least index, or -1. */
  function Find(s: string, p: string, start: nat): (r: int)
    ensures r >= 0 ==> start <= r && At(s, r, p) && forall k :: start <= k < r ==> !At(s, k, p)
    ensures r < 0 ==> r == -1 && forall k :: start <= k ==> !At(s, k, p)
    decreases |s| - start
  {
    if start + |p| > |s| then -1
    else if At(s, start, p) then start
    else Find(s, p, start + 1)
  }

  /** What follows a text changes nothing to what lies inside it. */
  lemma {:induction false} AtPrefix(b: string, r: string, i: int, p: string)
    requires i + |p| <= |b|
    ensures At(b + r, i, p) <==> At(b, i, p)
  {
    if 0 <= i {
      assert (b + r)[i..i + |p|] == b[i..i + |p|];
    }
  }

  lemma {:induction false} FindPrefix(b: string, r: string, p: string)
    ensures Find(b, p, 0) >= 0 ==> Find(b + r, p, 0) == Find(b, p, 0)
    ensures Find(b, p, 0) < 0 && Find(b + r, p, 0) >= 0 ==> Find(b + r, p, 0) + |p| > |b|
    ensures Find(b, p, 0) < 0 && r == "" ==> Find(b + r, p, 0) < 0
  {
    forall k: nat | k + |p| <= |b| ensures At(b + r, k, p) <==> At(b, k, p) {
      AtPrefix(b, r, k, p);
    }
    if r == "" {
      assert b + r == b;
    }
  }

  /** Index of the first newline at or after `i`, or the length of the text. */
  function Newline(s: string, i: nat): (n: nat)
    requires i <= |s|
    ensures i <= n <= |s| && (n < |s| ==> s[n] == '\n')
    ensures forall k :: i <= k < n ==> s[k] != '\n'
    decreases |s| - i
  {
    if i == |s| || s[i] == '\n' then i else Newline(s, i + 1)
  }

  /** Where `^` of a multi-line regex matches. */
  predicate LineStart(s: string, i: int) {
    0 <= i <= |s| && (i == 0 || s[i - 1] == '\n')
  }

  /** Leftmost line start whose remaining text satisfies `p`, or -1: a regex anchored by `^`. */
  function FirstLineWhere(s: string, p: string -> bool): (r: int)
    ensures r >= 0 ==> LineStart(s, r) && p(s[r..])
    ensures forall i :: 0 <= i < (if r < 0 then |s| + 1 else r) && LineStart(s, i) ==> !p(s[i..])
    decreases |s|
  {
    if p(s) then
      assert s[0..] == s;
      0
    else
      var n := Newline(s, 0);
      assert s[0..] == s;
      if n == |s| then -1
      else
        var rest := s[n + 1..];
        assert forall i :: n < i <= |s| ==> s[i..] == rest[i - (n + 1)..];
        assert forall i :: n < i <= |s| && LineStart(s, i) ==> LineStart(rest, i - (n + 1));
        var r := FirstLineWhere(rest, p);
        if r < 0 then -1 else n + 1 + r
  }

  /** `\s` of a regex over bytes. */
  predicate IsSpace(c: char) {
    c in " \t\n\r" || c == '\U{0B}' || c == '\U{0C}'
  }

  /** `\w` of a regex over bytes. */
  predicate IsWord(c: char) {
    'A' <= c <= 'Z' || 'a' <= c <= 'z' || '0' <= c <= '9' || c == '_'
  }

  /** End of the longest run of characters satisfying `p` from index `i`. */
  function RunEnd(s: string, i: nat, p: char -> bool): (n: nat)
    requires i <= |s|
    ensures i <= n <= |s| && (n < |s| ==> !p(s[n]))
    ensures forall k :: i <= k < n ==> p(s[k])
    decreases |s| - i
  {
    if i == |s| || !p(s[i]) then i else RunEnd(s, i + 1, p)
  }

  function Concat(parts: seq<string>): string {
    if parts == [] then "" else parts[0] + Concat(parts[1..])
  }
}
