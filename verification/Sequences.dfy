/**
 * Stretches of sequences.
 */
module Sequences {

  /** `part` is the stretch of `whole` that begins at `lo`. */
  ghost predicate IsSlice<T>(whole: seq<T>, part: seq<T>, lo: int) {
    && 0 <= lo && lo + |part| <= |whole|
    && forall k | 0 <= k < |part| :: part[k] == whole[lo + k]
  }

  lemma SliceOfLeft<T>(a: seq<T>, x: T, b: seq<T>, part: seq<T>, lo: int)
    requires IsSlice(a, part, lo)
    ensures IsSlice(a + [x] + b, part, lo)
  {
  }

  lemma SliceOfRight<T>(a: seq<T>, x: T, b: seq<T>, part: seq<T>, lo: int)
    requires IsSlice(b, part, lo)
    ensures IsSlice(a + [x] + b, part, lo + |a| + 1)
  {
    var s := a + [x] + b;
    forall k | 0 <= k < |part| ensures part[k] == s[lo + |a| + 1 + k] {
      assert s[lo + |a| + 1 + k] == b[lo + k];
    }
  }
}
