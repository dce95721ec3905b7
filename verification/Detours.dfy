/**
 * Alignments of two words of equal length within distance three: replacements only, or a detour that
 * leaves the main diagonal by one edit, follows a neighbouring diagonal and returns by another edit.
 */
module Detours {
  import opened Words
  import opened EditDistance

  /**
   * The comparison on the diagonal next to the main one: `q == 0` first inserts into `s`, so `s` is one
   * behind `t`; `q == 1` first deletes from `s`.
   */
  function OffNeq(s: Word, t: Word, q: int, k: nat): nat
    requires k + 1 < |s| == |t|
  {
    if q == 0 then Neq(s[k], t[k + 1]) else Neq(s[k + 1], t[k])
  }

  function OffMismatches(s: Word, t: Word, q: int, lo: nat, hi: nat): nat
    requires hi < |s| == |t|
    decreases hi
  {
    if hi <= lo then 0 else OffMismatches(s, t, q, lo, hi - 1) + OffNeq(s, t, q, hi - 1)
  }

  /** Replacements made when the detour starts at `x` and ends by dropping the character at `y`. */
  function DetourCost(s: Word, t: Word, q: int, x: nat, y: nat): nat
    requires x <= y < |s| == |t|
  {
    Mismatches(s, t, 0, x) + OffMismatches(s, t, q, x, y) + Mismatches(s, t, y + 1, |s|)
  }

  lemma {:induction false} OffSplit(s: Word, t: Word, q: int, lo: nat, mid: nat, hi: nat)
    requires lo <= mid <= hi < |s| == |t|
    ensures OffMismatches(s, t, q, lo, hi) == OffMismatches(s, t, q, lo, mid) + OffMismatches(s, t, q, mid, hi)
    decreases hi
  {
    if mid < hi {
      OffSplit(s, t, q, lo, mid, hi - 1);
    }
  }

  lemma {:induction false} OffSwap(s: Word, t: Word, lo: nat, hi: nat)
    requires hi < |s| == |t|
    ensures OffMismatches(s, t, 1, lo, hi) == OffMismatches(t, s, 0, lo, hi)
    decreases hi
  {
    if lo < hi {
      OffSwap(s, t, lo, hi - 1);
    }
  }

  // ----- a detour is an alignment -----

  lemma {:induction false} AlongMain(s: Word, t: Word, x: nat, i: nat)
    requires x <= i <= |s| == |t|
    ensures Dist(s, t, i, i) <= Dist(s, t, x, x) + Mismatches(s, t, x, i)
    decreases i
  {
    if x < i {
      AlongMain(s, t, x, i - 1);
    }
  }

  lemma {:induction false} AlongOff(s: Word, t: Word, x: nat, i: nat)
    requires x <= i < |s| == |t|
    ensures Dist(s, t, i, i + 1) <= Dist(s, t, x, x + 1) + OffMismatches(s, t, 0, x, i)
    decreases i
  {
    if x < i {
      AlongOff(s, t, x, i - 1);
    }
  }

  lemma DetourIsAlignment(s: Word, t: Word, q: int, x: nat, y: nat)
    requires x <= y < |s| == |t| && (q == 0 || q == 1)
    ensures Lev(s, t) <= 2 + DetourCost(s, t, q, x, y)
    decreases q
  {
    if q == 0 {
      AlongMain(s, t, 0, x);
      assert Dist(s, t, x, x + 1) <= Dist(s, t, x, x) + 1;
      AlongOff(s, t, x, y);
      assert Dist(s, t, y + 1, y + 1) <= Dist(s, t, y, y + 1) + 1;
      AlongMain(s, t, y + 1, |s|);
    } else {
      OffSwap(s, t, x, y);
      MismatchesSym(s, t, 0, x);
      MismatchesSym(s, t, y + 1, |s|);
      DetourIsAlignment(t, s, 0, x, y);
      LevSym(s, t);
    }
  }

  // ----- an alignment within distance three is a run of replacements or a detour -----

  lemma {:induction false} MainWithinOne(s: Word, t: Word, i: nat)
    requires i <= |s| == |t|
    requires Dist(s, t, i, i) <= 1
    ensures Mismatches(s, t, 0, i) <= Dist(s, t, i, i)
    decreases i
  {
    if i > 0 {
      DistLengths(s, t, i - 1, i);
      DistLengths(s, t, i, i - 1);
      MainWithinOne(s, t, i - 1);
    }
  }

  lemma {:induction false} OffWithinTwo(s: Word, t: Word, i: nat) returns (x: nat)
    requires i < |s| == |t|
    requires Dist(s, t, i, i + 1) <= 2
    ensures x <= i
    ensures 1 + Mismatches(s, t, 0, x) + OffMismatches(s, t, 0, x, i) <= Dist(s, t, i, i + 1)
    decreases i
  {
    if i == 0 {
      return 0;
    }
    DistLengths(s, t, i - 1, i + 1);
    if Dist(s, t, i, i + 1) == Dist(s, t, i, i) + 1 {
      MainWithinOne(s, t, i);
      x := i;
    } else {
      x := OffWithinTwo(s, t, i - 1);
    }
  }

  lemma {:induction false} MainWithinThree(s: Word, t: Word, i: nat) returns (detour: bool, q: int, x: nat, y: nat)
    requires i <= |s| == |t|
    requires Dist(s, t, i, i) <= 3
    ensures !detour ==> Mismatches(s, t, 0, i) <= Dist(s, t, i, i)
    ensures detour ==> (q == 0 || q == 1) && x <= y < i
    ensures detour ==>
            2 + Mismatches(s, t, 0, x) + OffMismatches(s, t, q, x, y) + Mismatches(s, t, y + 1, i) <= Dist(s, t, i, i)
    decreases i
  {
    detour, q, x, y := false, 0, 0, 0;
    if i > 0 {
      if Dist(s, t, i, i) == Dist(s, t, i - 1, i) + 1 {
        detour, y := true, i - 1;
        x := OffWithinTwo(s, t, i - 1);
      } else if Dist(s, t, i, i) == Dist(s, t, i, i - 1) + 1 {
        detour, q, y := true, 1, i - 1;
        DistSym(s, t, i, i - 1);
        x := OffWithinTwo(t, s, i - 1);
        MismatchesSym(s, t, 0, x);
        OffSwap(s, t, x, y);
      } else {
        detour, q, x, y := MainWithinThree(s, t, i - 1);
      }
    }
  }

  // ----- it is enough to leave the main diagonal at one of the first two mismatches -----

  /** `x` is the position of mismatch number `p`, counted from zero. */
  ghost predicate MismatchNo(s: Word, t: Word, p: nat, x: int)
    requires |s| == |t|
  {
    0 <= x < |s| && s[x] != t[x] && Mismatches(s, t, 0, x) == p
  }

  /** No detour from `x` within the threshold beats `ed`. */
  ghost predicate Covered(s: Word, t: Word, q: int, x: nat, ed: int, thr: nat)
    requires |s| == |t|
  {
    forall y: nat | x <= y < |s| :: 2 + DetourCost(s, t, q, x, y) <= thr ==> ed <= 2 + DetourCost(s, t, q, x, y)
  }

  lemma LaterStart(s: Word, t: Word, q: int, x: nat, x': nat, y: nat)
    requires x <= x' <= y < |s| == |t|
    requires Mismatches(s, t, 0, x) == Mismatches(s, t, 0, x')
    ensures DetourCost(s, t, q, x', y) <= DetourCost(s, t, q, x, y)
  {
    OffSplit(s, t, q, x, x', y);
  }

  /** Returning to the main diagonal before a mismatch gains nothing over replacing. */
  lemma EarlyReturn(s: Word, t: Word, q: int, x: nat, y: nat, x': nat)
    requires x <= y < x' < |s| == |t|
    ensures Mismatches(s, t, 0, |s|) <= Mismatches(s, t, 0, x') + DetourCost(s, t, q, x, y)
  {
    MismatchesSplit(s, t, 0, y + 1, x');
    MismatchesSplit(s, t, y + 1, x', |s|);
    MismatchesSplit(s, t, 0, x', |s|);
  }

  lemma FirstTwoSuffice(s: Word, t: Word, q: int, a: nat, b: nat, x: nat, y: nat, ed: int,
                         thr: nat)
    requires |s| == |t| && a < b && MismatchNo(s, t, 0, a) && MismatchNo(s, t, 1, b)
    requires Covered(s, t, q, a, ed, thr) && Covered(s, t, q, b, ed, thr)
    requires x <= y < |s| && 2 + DetourCost(s, t, q, x, y) <= thr <= 3
    requires 2 + DetourCost(s, t, q, x, y) < Hamming(s, t)
    ensures ed <= 2 + DetourCost(s, t, q, x, y)
  {
    if x <= a {
      MismatchesSplit(s, t, 0, x, a);
      if y < a {
        EarlyReturn(s, t, q, x, y, a);
      } else {
        LaterStart(s, t, q, x, a, y);
      }
    } else if x <= b {
      MismatchesSplit(s, t, 0, a + 1, x);
      MismatchesSplit(s, t, 0, x, b);
      if y < b {
        EarlyReturn(s, t, q, x, y, b);
      } else {
        LaterStart(s, t, q, x, b, y);
      }
    } else {
      MismatchesSplit(s, t, 0, b + 1, x);
    }
  }
}
