/** Finite sets and maps: listing a set, adding a key, growing within a bound. */
module Sets {
  method Enumerate(s: set<string>) returns (names: seq<string>)
    ensures forall n :: n in names <==> n in s
    ensures forall i, j :: 0 <= i < j < |names| ==> names[i] != names[j]
  {
    names := [];
    var rest := s;
    while rest != {}
      invariant forall n :: n in s <==> n in names || n in rest
      invariant forall n :: n in names ==> n !in rest
      invariant forall i, j :: 0 <= i < j < |names| ==> names[i] != names[j]
      decreases |rest|
    {
      var n :| n in rest;
      names := names + [n];
      rest := rest - {n};
    }
  }

  lemma {:induction false} Growing(a: set<string>, b: set<string>, c: set<string>)
    requires a < b <= c
    ensures |a| < |b| <= |c|
  {
    assert b == a + (b - a) && c == b + (c - b);
    assert b - a != {};
  }

  lemma {:induction false} KeyAdded<T>(m: map<string, T>, k: string, v: T)
    requires k !in m
    ensures m[k := v].Keys == m.Keys + {k} && |m[k := v]| == |m| + 1
    ensures forall n :: n in m[k := v] ==> m[k := v][n] == if n == k then v else m[n]
  {
    assert |m[k := v].Keys| == |m.Keys + {k}|;
  }
}
