/** Facts about slices and concatenations that the codecs lean on. */
module Seqs {

  /** A slice that is a concatenation splits at the seam. */
  lemma SplitSlice<T>(d: seq<T>, lo: nat, hi: nat, a: seq<T>, b: seq<T>)
    requires lo <= hi <= |d| && d[lo..hi] == a + b
    ensures lo + |a| <= hi
    ensures d[lo..lo + |a|] == a && d[lo + |a|..hi] == b
  {
    assert |a + b| == hi - lo;
    assert d[lo..lo + |a|] == d[lo..hi][..|a|];
    assert d[lo + |a|..hi] == d[lo..hi][|a|..];
  }

  predicate Distinct<T(==)>(s: seq<T>) {
    forall i, j | 0 <= i < j < |s| :: s[i] != s[j]
  }

  /** `a` can be got from `b` by leaving elements out. */
  predicate Subsequence<T(==)>(a: seq<T>, b: seq<T>) {
    if a == [] then true
    else if b == [] then false
    else
      (a[|a| - 1] == b[|b| - 1] && Subsequence(a[..|a| - 1], b[..|b| - 1])) ||
      Subsequence(a, b[..|b| - 1])
  }

  lemma SubsequenceGrows<T>(a: seq<T>, b: seq<T>, x: T)
    requires Subsequence(a, b)
    ensures Subsequence(a, b + [x]) && Subsequence(a + [x], b + [x])
  {
    assert (b + [x])[..|b|] == b && (a + [x])[..|a|] == a;
  }

  /** A subsequence sits at strictly increasing positions. */
  lemma {:induction false} SubsequencePositions<T>(a: seq<T>, b: seq<T>) returns (at: seq<nat>)
    requires Subsequence(a, b)
    ensures |at| == |a|
    ensures forall i | 0 <= i < |a| :: at[i] < |b| && a[i] == b[at[i]]
    ensures forall i, j | 0 <= i < j < |a| :: at[i] < at[j]
    decreases |b|
  {
    at := [];
    if a != [] {
      var n := |b| - 1;
      if a[|a| - 1] == b[n] && Subsequence(a[..|a| - 1], b[..n]) {
        at := SubsequencePositions(a[..|a| - 1], b[..n]);
        at := at + [n];
      } else {
        at := SubsequencePositions(a, b[..n]);
      }
    }
  }
}
