/** Python's slicing `s[lo:hi]` for non-negative bounds, which clamps instead of failing. */
module Sequences {

  function Min(a: nat, b: nat): nat { if a <= b then a else b }

  function Slice<T>(s: seq<T>, lo: nat, hi: nat): (r: seq<T>)
    ensures |r| == if Min(hi, |s|) <= Min(lo, |s|) then 0 else Min(hi, |s|) - Min(lo, |s|)
    ensures hi <= |s| && lo <= hi ==> r == s[lo..hi]
    ensures forall i :: 0 <= i < |r| ==> r[i] == s[lo + i]
  {
    var l := Min(lo, |s|);
    var h := Min(hi, |s|);
    if h <= l then [] else s[l..h]
  }

  /** A slice written with the clamped bounds as a Dafny subsequence. */
  lemma SliceBetween<T>(s: seq<T>, lo: nat, hi: nat)
    ensures var l := Min(lo, |s|);
      Slice(s, lo, hi) == s[l..if Min(hi, |s|) <= l then l else Min(hi, |s|)]
  {
  }

  /** Consecutive slices join: `s[a:b] + s[b:c] == s[a:c]`, also where the bounds run past the end. */
  lemma SliceConcat<T>(s: seq<T>, a: nat, b: nat, c: nat)
    requires a <= b <= c
    ensures Slice(s, a, b) + Slice(s, b, c) == Slice(s, a, c)
  {
    SliceBetween(s, a, b);
    SliceBetween(s, b, c);
    SliceBetween(s, a, c);
  }

  lemma ThreeParts<T>(s: seq<T>, a: nat, b: nat)
    requires a <= b <= |s|
    ensures s[..a] + s[a..b] + s[b..] == s
  {
    assert s[..a] + s[a..b] == s[..b];
  }

  lemma SliceClamps<T>(s: seq<T>, lo: nat, hi: nat)
    requires lo <= |s| < hi
    ensures Slice(s, lo, hi) == s[lo..]
  {
  }

  /** `s[lo:]` */
  function SliceFrom<T>(s: seq<T>, lo: nat): (r: seq<T>)
    ensures lo <= |s| ==> r == s[lo..]
    ensures lo > |s| ==> r == []
  {
    Slice(s, lo, |s|)
  }
}
