/** `EditHammingdiff1`: the kernel for words whose lengths differ by one. */
module KernelDiff1 {
  import opened Words
  import opened EditDistance
  import opened Masks

  /** The edit distance over alignments that stay on the diagonals `j - i` from -1 to 2. */
  function Band(s: Word, t: Word, i: nat, j: nat): nat
    requires i <= |s| && j <= |t| && -1 <= j - i <= 2
    decreases i + j, 1
  {
    if i == 0 then j
    else if j == 0 then i
    else BandCell(s, t, i, j)
  }

  function BandCell(s: Word, t: Word, i: nat, j: nat): nat
    requires 0 < i <= |s| && 0 < j <= |t| && -1 <= j - i <= 2
    decreases i + j, 0
  {
    var straight := Band(s, t, i - 1, j - 1) + Neq(s[i - 1], t[j - 1]);
    Min3(if j - i < 2 then Band(s, t, i - 1, j) + 1 else straight,
         if j - i > -1 then Band(s, t, i, j - 1) + 1 else straight,
         straight)
  }

  lemma {:induction false} DistAtMostBand(s: Word, t: Word, i: nat, j: nat)
    requires i <= |s| && j <= |t| && -1 <= j - i <= 2
    ensures Dist(s, t, i, j) <= Band(s, t, i, j)
    decreases i + j
  {
    if i > 0 && j > 0 {
      DistAtMostBand(s, t, i - 1, j - 1);
      if j - i < 2 {
        DistAtMostBand(s, t, i - 1, j);
      }
      if j - i > -1 {
        DistAtMostBand(s, t, i, j - 1);
      }
    }
  }

  /** Edits still owed to get back to diagonal 1, where the words end. */
  function Owed(i: nat, j: nat): nat {
    if j - i >= 1 then j - i - 1 else 1 + i - j
  }

  /** Leaving the band and coming back costs five edits, so nothing of cost four or less is lost. */
  lemma {:induction false} BandAtMostDist(s: Word, t: Word, i: nat, j: nat)
    requires i <= |s| && j <= |t| && -1 <= j - i <= 2
    requires Dist(s, t, i, j) + Owed(i, j) <= 4
    ensures Band(s, t, i, j) <= Dist(s, t, i, j)
    decreases i + j
  {
    if i > 0 && j > 0 {
      DistLengths(s, t, i - 1, j);
      DistLengths(s, t, i, j - 1);
      var d := Dist(s, t, i, j);
      if d == Dist(s, t, i - 1, j) + 1 {
        BandAtMostDist(s, t, i - 1, j);
      } else if d == Dist(s, t, i, j - 1) + 1 {
        BandAtMostDist(s, t, i, j - 1);
      } else {
        BandAtMostDist(s, t, i - 1, j - 1);
      }
    }
  }

  // ----- the four scalars: a cell of the band plus the cost of matching the next two characters -----

  function H(s: Word, t: Word, i: nat): nat
    requires |t| == |s| + 1 && i < |s|
  {
    Band(s, t, i, i) + Neq(s[i], t[i])
  }

  function Hr(s: Word, t: Word, i: nat): nat
    requires |t| == |s| + 1 && i < |s|
  {
    Band(s, t, i, i + 1) + Neq(s[i], t[i + 1])
  }

  function Hr2(s: Word, t: Word, i: nat): nat
    requires |t| == |s| + 1 && i < |s|
  {
    Band(s, t, i, i + 2) + Neq(s[i], At(t, i + 2))
  }

  function Hl(s: Word, t: Word, i: nat): nat
    requires |t| == |s| + 1 && i < |s|
  {
    Band(s, t, i + 1, i) + Neq(At(s, i + 1), t[i])
  }

  function Best(s: Word, t: Word, i: nat): nat
    requires |t| == |s| + 1 && i < |s|
  {
    Min(H(s, t, i) + 1, Min(Hr(s, t, i), Min(Hr2(s, t, i), Hl(s, t, i) + 1)))
  }

  // ----- each scalar from the previous row: a cost added in advance is taken back on a change of diagonal -----

  lemma NextH(s: Word, t: Word, i: nat)
    requires |t| == |s| + 1 && 0 < i < |s|
    ensures H(s, t, i) == Min(H(s, t, i - 1),
                              Min(Hr(s, t, i - 1) + Eq(s[i - 1], t[i]), Hl(s, t, i - 1) + Eq(s[i], t[i - 1])))
                          + Neq(s[i], t[i])
  {
    assert Band(s, t, i, i) == BandCell(s, t, i, i);
  }

  lemma NextHr(s: Word, t: Word, i: nat)
    requires |t| == |s| + 1 && 0 < i < |s|
    ensures Hr(s, t, i) == Min(H(s, t, i) + Eq(s[i], t[i]),
                               Min(Hr(s, t, i - 1),
                                   Min(Hr2(s, t, i - 1) + Eq(s[i - 1], t[i + 1]),
                                       Hl(s, t, i - 1) + 1 + Eq(s[i], t[i - 1]))))
                           + Neq(s[i], t[i + 1])
  {
    assert Band(s, t, i, i) == BandCell(s, t, i, i);
    assert Band(s, t, i, i + 1) == BandCell(s, t, i, i + 1);
  }

  lemma NextHr2(s: Word, t: Word, i: nat)
    requires |t| == |s| + 1 && 0 < i < |s|
    ensures Hr2(s, t, i) == Min(H(s, t, i) + 1 + Eq(s[i], t[i]),
                                Min(Hr(s, t, i) + Eq(s[i], t[i + 1]), Hr2(s, t, i - 1)))
                            + Neq(s[i], At(t, i + 2))
  {
    assert Band(s, t, i, i + 1) == BandCell(s, t, i, i + 1);
    assert Band(s, t, i, i + 2) == BandCell(s, t, i, i + 2);
  }

  lemma NextHl(s: Word, t: Word, i: nat)
    requires |t| == |s| + 1 && 0 < i < |s|
    ensures Hl(s, t, i) == Min(H(s, t, i) + Eq(s[i], t[i]), Hl(s, t, i - 1)) + Neq(At(s, i + 1), t[i])
  {
    assert Band(s, t, i + 1, i) == BandCell(s, t, i + 1, i);
  }

  lemma BestGrows(s: Word, t: Word, i: nat)
    requires |t| == |s| + 1 && 0 < i < |s|
    ensures Best(s, t, i - 1) <= Best(s, t, i)
  {
    var b := Best(s, t, i - 1);
    NextH(s, t, i);
    assert H(s, t, i) + 1 >= b && H(s, t, i) + Eq(s[i], t[i]) >= b;
    NextHr(s, t, i);
    assert Hr(s, t, i) >= b;
    NextHr2(s, t, i);
    NextHl(s, t, i);
  }

  lemma {:induction false} BestGrowsTo(s: Word, t: Word, i: nat, i': nat)
    requires |t| == |s| + 1 && i <= i' < |s|
    ensures Best(s, t, i) <= Best(s, t, i')
    decreases i'
  {
    if i < i' {
      BestGrowsTo(s, t, i, i' - 1);
      BestGrows(s, t, i');
    }
  }

  /** In the last row the terminators never match a character, so the best of the four is the distance in the band. */
  lemma BestAtEnd(s: Word, t: Word)
    requires |t| == |s| + 1 && |s| > 0 && NUL !in s && NUL !in t
    ensures Best(s, t, |s| - 1) == Band(s, t, |s|, |t|)
  {
    var n := |s|;
    assert Band(s, t, n, n) == BandCell(s, t, n, n);
    assert Band(s, t, n, n + 1) == BandCell(s, t, n, n + 1);
  }

  lemma Verdict(s: Word, t: Word)
    requires |t| == |s| + 1 && |s| > 0 && NUL !in s && NUL !in t
    ensures Exact(Shl(0x38, Best(s, t, |s| - 1)), s, t)
    ensures Best(s, t, |s| - 1) > 3 ==> Exact(0, s, t)
  {
    BestAtEnd(s, t);
    DistLengths(s, t, |s|, |t|);
    DistAtMostBand(s, t, |s|, |t|);
    if Lev(s, t) <= 3 {
      BandAtMostDist(s, t, |s|, |t|);
    }
  }

  /** The scalars after the first character. */
  method FirstRow(s: Word, t: Word) returns (h: int, hr: int, hr2: int, hl: int)
    requires |t| == |s| + 1 && |s| > 0
    ensures h == H(s, t, 0) && hr == Hr(s, t, 0) && hr2 == Hr2(s, t, 0) && hl == Hl(s, t, 0)
  {
    h, hr, hr2, hl := 0, 1, 2, 1;
    h := Min(h, Min(hr + 1, hl + 1)) + Neq(s[0], t[0]);
    hr := Min(h + Eq(s[0], t[0]), Min(hr, Min(hr2 + 1, hl + 1 + 1))) + Neq(s[0], t[1]);
    hr2 := Min(h + 1 + Eq(s[0], t[0]), Min(hr + Eq(s[0], t[1]), hr2)) + Neq(s[0], At(t, 2));
    hl := Min(h + 1, hl) + Neq(At(s, 1), t[0]);
  }

  /** One turn of the loop. */
  method NextRow(s: Word, t: Word, i: nat, h0: int, thr: int, thr2: int, thl: int)
    returns (h: int, hr: int, hr2: int, hl: int)
    requires |t| == |s| + 1 && 0 < i < |s|
    requires h0 == H(s, t, i - 1) && thr == Hr(s, t, i - 1) && thr2 == Hr2(s, t, i - 1) && thl == Hl(s, t, i - 1)
    ensures h == H(s, t, i) && hr == Hr(s, t, i) && hr2 == Hr2(s, t, i) && hl == Hl(s, t, i)
  {
    NextH(s, t, i);
    NextHr(s, t, i);
    NextHr2(s, t, i);
    NextHl(s, t, i);
    h := Min(h0, Min(thr + Eq(s[i - 1], t[i]), thl + Eq(s[i], t[i - 1]))) + Neq(s[i], t[i]);
    hr := Min(h + Eq(s[i], t[i]), Min(thr, Min(thr2 + Eq(s[i - 1], t[i + 1]), thl + 1 + Eq(s[i], t[i - 1]))))
        + Neq(s[i], t[i + 1]);
    hr2 := Min(h + 1 + Eq(s[i], t[i]), Min(hr + Eq(s[i], t[i + 1]), thr2)) + Neq(s[i], At(t, i + 2));
    hl := Min(h + Eq(s[i], t[i]), thl) + Neq(At(s, i + 1), t[i]);
  }

  method EditHammingDiff1(s: Word, t: Word) returns (r: Mask)
    requires |t| == |s| + 1 && |s| > 0 && NUL !in s && NUL !in t
    ensures Exact(r, s, t)
  {
    var n := |s|;
    var h, hr, hr2, hl := FirstRow(s, t);
    var temp := Min(h + 1, Min(hr, Min(hr2, hl + 1)));
    var i := 1;
    while i < n
      invariant 1 <= i <= n
      invariant h == H(s, t, i - 1) && hr == Hr(s, t, i - 1) && hr2 == Hr2(s, t, i - 1) && hl == Hl(s, t, i - 1)
      invariant temp == Best(s, t, i - 1)
    {
      h, hr, hr2, hl := NextRow(s, t, i, h, hr, hr2, hl);
      temp := Min(h + 1, Min(hr, Min(hr2, hl + 1)));
      if temp > 3 {
        BestGrowsTo(s, t, i, n - 1);
        Verdict(s, t);
        return 0;
      }
      i := i + 1;
    }
    Verdict(s, t);
    return Shl(0x38, temp);
  }
}
