/** The match masks: bit 0 exact, bits 1 to 3 Hamming at most 1 to 3, bits 4 to 6 edit at most 1 to 3. */
module Masks {
  import opened Words
  import opened EditDistance

  /**
   * The low seven bits of the source's `char` and `int` masks. The kernels only shift left, `or` and
   * `and` them, so bits seven and up never flow back, and the caller keeps `result & 127`.
   */
  type Mask = bv7

  /** `x << k`, whatever the size of `k`. */
  function Shl(x: Mask, k: nat): Mask {
    if k == 0 then x
    else if k == 1 then x << 1
    else if k == 2 then x << 2
    else if k == 3 then x << 3
    else if k == 4 then x << 4
    else if k == 5 then x << 5
    else if k == 6 then x << 6
    else 0
  }

  predicate Has(r: Mask, bit: nat)
    requires bit < 7
  {
    r & Shl(1, bit) != 0
  }

  /** What a mask for a pair of words has to say, bit by bit. */
  ghost predicate Exact(r: Mask, s: Word, t: Word) {
    && (Has(r, 0) <==> s == t)
    && (Has(r, 1) <==> |s| == |t| && Hamming(s, t) <= 1)
    && (Has(r, 2) <==> |s| == |t| && Hamming(s, t) <= 2)
    && (Has(r, 3) <==> |s| == |t| && Hamming(s, t) <= 3)
    && (Has(r, 4) <==> Lev(s, t) <= 1)
    && (Has(r, 5) <==> Lev(s, t) <= 2)
    && (Has(r, 6) <==> Lev(s, t) <= 3)
  }

  /** What one bit is to say about a pair of words. */
  ghost predicate Says(bit: nat, s: Word, t: Word) {
    if bit == 0 then s == t
    else if bit <= 3 then |s| == |t| && Hamming(s, t) <= bit
    else Lev(s, t) <= bit - 3
  }

  /** The requested bits are exact, and the others are not set. */
  ghost predicate ExactFor(r: Mask, requests: Mask, s: Word, t: Word) {
    forall b: nat | b < 7 :: Has(r, b) <==> Has(requests, b) && Says(b, s, t)
  }

  /** With every bit requested, the whole mask is exact. */
  lemma ExactForAll(r: Mask, s: Word, t: Word)
    requires ExactFor(r, 127, s, t)
    ensures Exact(r, s, t)
  {
    forall b: nat | b < 7 ensures Has(127, b) {
    }
    assert Has(127, 0) && Has(127, 1) && Has(127, 2) && Has(127, 3) && Has(127, 4) && Has(127, 5) && Has(127, 6);
    assert Says(0, s, t) <==> Has(r, 0);
    assert Says(1, s, t) <==> Has(r, 1);
    assert Says(2, s, t) <==> Has(r, 2);
    assert Says(3, s, t) <==> Has(r, 3);
    assert Says(4, s, t) <==> Has(r, 4);
    assert Says(5, s, t) <==> Has(r, 5);
    assert Says(6, s, t) <==> Has(r, 6);
  }

  lemma HasBoth(r: Mask, r': Mask, b: nat)
    requires b < 7
    ensures Has(r & r', b) <==> Has(r, b) && Has(r', b)
    ensures Has(r | r', b) <==> Has(r, b) || Has(r', b)
  {
  }

  /** The seven bits determine the mask. */
  lemma ExactUnique(r: Mask, r': Mask, s: Word, t: Word)
    requires Exact(r, s, t) && Exact(r', s, t)
    ensures r == r'
  {
    SameBits(r, r');
  }

  lemma SameBits(r: Mask, r': Mask)
    requires forall b: nat | b < 7 :: Has(r, b) == Has(r', b)
    ensures r == r'
  {
    assert Has(r, 0) == Has(r', 0) && Has(r, 1) == Has(r', 1) && Has(r, 2) == Has(r', 2) && Has(r, 3) == Has(r', 3);
    assert Has(r, 4) == Has(r', 4) && Has(r, 5) == Has(r', 5) && Has(r, 6) == Has(r', 6);
  }

  lemma HammingSym(s: Word, t: Word)
    requires |s| == |t|
    ensures Hamming(s, t) == Hamming(t, s)
  {
    MismatchesSym(s, t, 0, |s|);
  }

  lemma ExactSym(r: Mask, s: Word, t: Word)
    requires Exact(r, s, t)
    ensures Exact(r, t, s)
  {
    LevSym(s, t);
    if |s| == |t| {
      HammingSym(s, t);
    }
  }

  /** Replacing the mismatches one by one is one way to edit. */
  lemma {:induction false} DistAtMostMismatches(s: Word, t: Word, i: nat)
    requires i <= |s| && i <= |t|
    ensures Dist(s, t, i, i) <= Mismatches(s, t, 0, i)
    decreases i
  {
    if i > 0 {
      DistAtMostMismatches(s, t, i - 1);
    }
  }

  /** A pair gets a non-empty mask exactly when it is within edit distance three. */
  lemma ExactNonzero(r: Mask, s: Word, t: Word)
    requires Exact(r, s, t)
    ensures r != 0 <==> Lev(s, t) <= 3
  {
    if |s| == |t| {
      DistAtMostMismatches(s, t, |s|);
      HammingZero(s, t);
    }
    if Lev(s, t) > 3 {
      SameBits(r, 0);
    }
  }
}
