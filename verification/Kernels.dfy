/** `stavroshtein`: the mask of any two words whose lengths differ by at most three. */
module Kernels {
  import opened Words
  import opened EditDistance
  import opened Masks
  import KernelDiff0
  import KernelDiff1
  import KernelDiff2
  import KernelDiff3

  /**
   * The kernel for the length difference at hand, on the shorter word first. For a difference above three no
   * kernel applies and the mask is empty.
   */
  method Stavroshtein(s0: Word, t0: Word) returns (r: Mask)
    requires |s0| > 0 && |t0| > 0 && NUL !in s0 && NUL !in t0
    ensures Exact(r, s0, t0)
  {
    var result: Mask := 0;
    var s, t := s0, t0;
    if |s| > |t| {
      s, t := t, s;
    }
    var diff := |t| - |s|;
    if diff == 0 {
      result := KernelDiff0.EditHamming(s, t, 127);
      ExactForAll(result, s, t);
    } else if diff == 1 {
      result := KernelDiff1.EditHammingDiff1(s, t);
    } else if diff == 2 {
      result := KernelDiff2.EditHammingDiff2(s, t);
    } else if diff == 3 {
      result := KernelDiff3.EditHammingDiff3(s, t);
    } else {
      FarApart(s, t);
    }
    if s == t0 {
      ExactSym(result, s, t);
    }
    return result & 127;
  }

  /** Words whose lengths differ by four or more are more than three edits apart. */
  lemma FarApart(s: Word, t: Word)
    requires |t| > |s| + 3
    ensures Exact(0, s, t)
  {
    DistLengths(s, t, |s|, |t|);
  }

  /** A mask is empty unless the words are within three edits, and does not depend on their order. */
  lemma MaskMeaning(r: Mask, r': Mask, s: Word, t: Word)
    requires Exact(r, s, t) && Exact(r', t, s)
    ensures r == r' && (r != 0 <==> Lev(s, t) <= 3)
    ensures forall k: nat | 1 <= k <= 3 :: Has(r, 3 + k) <==> Transforms(s, t, k)
  {
    ExactSym(r, s, t);
    ExactUnique(r, r', t, s);
    ExactNonzero(r, s, t);
    LevIsEditDistance(s, t, 1);
    LevIsEditDistance(s, t, 2);
    LevIsEditDistance(s, t, 3);
  }
}
