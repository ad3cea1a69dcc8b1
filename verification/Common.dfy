/** Sequences and sets, where several parts need them. */
module Common {
  /** The sequence with its element at place `p` left out. */
  function Without<T>(s: seq<T>, p: nat): (t: seq<T>)
    requires p < |s|
    ensures |t| == |s| - 1
    ensures forall k {:trigger t[k]} :: 0 <= k < |t| ==> t[k] == if k < p then s[k] else s[k + 1]
  {
    s[..p] + s[p + 1..]
  }

  lemma SubsetSize(a: set<int>, b: set<int>)
    requires a <= b
    ensures |a| <= |b| && (|a| == |b| ==> a == b)
  {
    assert b == a + (b - a);
    assert |b| == |a| + |b - a|;
  }
}
