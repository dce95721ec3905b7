/** `EditHammingdiff2`: the kernel for words whose lengths differ by two. */
module KernelDiff2 {
  import opened Words
  import opened EditDistance
  import opened Masks
  import opened Insertions

  /** The three diagonals an alignment with two insertions passes through, one character further. */
  lemma Row(s: Word, t: Word, i: nat)
    requires |t| == |s| + 2 && i < |s|
    ensures Ins(s, t, i + 1, i + 1) == Ins(s, t, i, i) + Neq(s[i], t[i])
    ensures Ins(s, t, i + 1, i + 2) == Min(Ins(s, t, i + 1, i + 1), Ins(s, t, i, i + 1) + Neq(s[i], t[i + 1]))
    ensures Ins(s, t, i + 1, i + 3) == Min(Ins(s, t, i + 1, i + 2), Ins(s, t, i, i + 2) + Neq(s[i], t[i + 2]))
  {
    assert Ins(s, t, i + 1, i + 1) == InsCell(s, t, i + 1, i + 1);
    assert Ins(s, t, i + 1, i + 2) == InsCell(s, t, i + 1, i + 2);
    assert Ins(s, t, i + 1, i + 3) == InsCell(s, t, i + 1, i + 3);
  }

  lemma Ordered(s: Word, t: Word, i: nat)
    requires |t| == |s| + 2 && i <= |s|
    ensures Ins(s, t, i, i + 2) <= Ins(s, t, i, i + 1) <= Ins(s, t, i, i)
  {
    if i > 0 {
      Row(s, t, i - 1);
    }
  }

  /** `temp` replacements on top of the two insertions, two or more being out of reach. */
  lemma Verdict(s: Word, t: Word, temp: nat)
    requires |t| == |s| + 2
    requires Min(2, temp) == Min(2, Ins(s, t, |s|, |t|))
    ensures Exact(Shl(0x60, temp), s, t)
  {
    DistLengths(s, t, |s|, |t|);
    DistAtMostIns(s, t, |s|, |t|);
    if Lev(s, t) <= 3 {
      InsAtMostDist(s, t, |s|, |t|);
    }
  }

  /** Both diagonals have used a replacement at `i`; at `b` they still have used exactly one. */
  lemma BothSpent(s: Word, t: Word, i: nat, b: nat)
    requires |t| == |s| + 2 && i <= b <= |s|
    requires Ins(s, t, i, i + 2) >= 1 && Ins(s, t, b, b) == 1
    ensures Ins(s, t, b, b + 1) == 1 && Ins(s, t, b, b + 2) == 1
  {
    Ordered(s, t, b);
    InsMonoRange(s, t, i, b, 2);
  }

  lemma MainDiagonalFlat(s: Word, t: Word, a: nat, i: nat, b: nat)
    requires |t| == |s| + 2 && a < i <= b <= |s|
    requires Ins(s, t, a + 1, a + 1) == Ins(s, t, b, b) == 1
    ensures Ins(s, t, i, i) == 1
  {
    InsMonoRange(s, t, a + 1, i, 0);
    InsMonoRange(s, t, i, b, 0);
  }

  /** The first two mismatches on the main diagonal, or as many as there are. */
  method FirstTwoMismatches(s: Word, t: Word, startpos: array<int>) returns (c: nat)
    requires |t| == |s| + 2 && startpos.Length == 2
    modifies startpos
    ensures c <= 2
    ensures c < 2 ==> Ins(s, t, |s|, |s|) == c
    ensures c >= 1 ==> 0 <= startpos[0] < |s| && s[startpos[0]] != t[startpos[0]]
    ensures c >= 1 ==> Ins(s, t, startpos[0], startpos[0]) == 0
    ensures c == 2 ==> startpos[0] < startpos[1] < |s| && s[startpos[1]] != t[startpos[1]]
    ensures c == 2 ==> Ins(s, t, startpos[1], startpos[1]) == 1
  {
    c := 0;
    var i := 0;
    while i < |s|
      invariant 0 <= i <= |s| && c <= 1 && Ins(s, t, i, i) == c
      invariant c == 1 ==> 0 <= startpos[0] < i && s[startpos[0]] != t[startpos[0]]
      invariant c == 1 ==> Ins(s, t, startpos[0], startpos[0]) == 0
    {
      Row(s, t, i);
      var temp := Neq(s[i], t[i]);
      startpos[c] := i;
      c := c + temp;
      if c == 2 {
        break;
      }
      i := i + 1;
    }
  }

  method EditHammingDiff2(s: Word, t: Word) returns (r: Mask)
    requires |t| == |s| + 2
    ensures Exact(r, s, t)
  {
    var n := |s|;
    var startpos := new int[2];
    var h1, h2 := 0, 0;
    var c := FirstTwoMismatches(s, t, startpos);
    var temp;
    if c == 0 {
      Ordered(s, t, n);
      Verdict(s, t, 0);
      return 0x60;
    }
    var a := startpos[0];
    Row(s, t, a);
    Ordered(s, t, a);
    if c == 1 {
      startpos[1] := n - 1;
      if startpos[0] == n - 1 {
        temp := 1;
        var saved := Neq(s[n - 1], t[n - 1]) * Eq(s[n - 1], t[n + 1]) != 0
            || Neq(s[n - 1], t[n - 1]) * Eq(s[n - 1], t[n]) != 0;
        temp := temp - (if saved then 1 else 0);
        Verdict(s, t, temp);
        return Shl(0x60, temp);
      }
      InsMonoRange(s, t, a + 1, n - 1, 0);
      InsMonoRange(s, t, n - 1, n, 0);
    }
    var b := startpos[1];
    r := AfterFirstMismatch(s, t, a, b, c == 2);
  }

  /**
   * From the first mismatch on, the two off-diagonals are followed by capped counters: `h1` for one
   * insertion so far, `h2` for two. Their minimum is what the best alignment has spent.
   */
  method AfterFirstMismatch(s: Word, t: Word, a: nat, b: nat, second: bool) returns (r: Mask)
    requires |t| == |s| + 2 && a < b < |s|
    requires Ins(s, t, a, a) == 0 && Ins(s, t, a + 1, a + 1) == 1 && Ins(s, t, b, b) == 1
    requires if second then s[b] != t[b] else b == |s| - 1 && Ins(s, t, |s|, |s|) == 1
    ensures Exact(r, s, t)
  {
    var n := |s|;
    var h1, h2 := 0, 0;
    var i := a;
    Ordered(s, t, a);
    while i < b
      invariant a <= i <= b && 0 <= h2 && 0 <= h1 <= 1 && (h1 == 0 || h2 == 0)
      invariant h1 == Ins(s, t, i, i + 1) && Min(h1, h2) == Ins(s, t, i, i + 2)
    {
      Row(s, t, i);
      MainDiagonalFlat(s, t, a, i + 1, b);
      if s[i] != t[i + 2] {
        h2 := h2 + 1;
      } else {
        h2 := Min(h1, h2);
      }
      if s[i] != t[i + 1] {
        h1 := 1;
      }
      if h1 > 0 && h2 > 0 {
        BothSpent(s, t, i + 1, b);
        break;
      }
      i := i + 1;
    }
    h1 := Min(1, h1);
    h2 := Min(1, h2);
    if h1 > 0 && h2 > 0 {
      i := b;
      if i == n - 1 {
        Row(s, t, b);
        var temp := Min(h1, h2);
        temp := temp + Neq(s[n - 1], t[n - 1]) * Neq(s[n - 1], t[n + 1]) * Neq(s[n - 1], t[n]);
        Verdict(s, t, temp);
        return Shl(0x60, temp);
      }
    }
    r := SecondPhase(s, t, b, second, h1, h2);
  }

  method SecondPhase(s: Word, t: Word, b: nat, second: bool, g1: nat, g2: nat) returns (r: Mask)
    requires |t| == |s| + 2 && b < |s| && g1 <= 1 && g2 <= 1
    requires Ins(s, t, b, b) == 1 && g1 == Ins(s, t, b, b + 1) && Min(g1, g2) == Ins(s, t, b, b + 2)
    requires if second then s[b] != t[b] else b == |s| - 1 && Ins(s, t, |s|, |s|) == 1 && (g1 == 0 || g2 == 0)
    ensures Exact(r, s, t)
  {
    var n := |s|;
    var h1, h2 := g1, g2;
    var i := b;
    while i < n
      invariant b <= i <= n && 0 <= h1 && 0 <= h2
      invariant Min(2, Min(h1, h2)) == Min(2, Ins(s, t, i, i + 2))
      invariant i == b ==> h1 == g1 && h2 == g2
      invariant second ==> Min(2, h1) == Min(2, Ins(s, t, i, i + 1))
      invariant second && b < i ==> Ins(s, t, i, i) >= 2
    {
      Row(s, t, i);
      if s[i] != t[i + 2] {
        h2 := h2 + 1;
      } else {
        h2 := Min(h1, h2);
      }
      if s[i] != t[i + 1] {
        h1 := h1 + 1;
      }
      if h2 > 1 && h1 > 1 {
        InsMonoRange(s, t, i + 1, n, 2);
        Verdict(s, t, 2);
        return 0;
      }
      i := i + 1;
    }
    var temp := Min(h1, h2);
    Verdict(s, t, temp);
    return Shl(0x60, temp);
  }
}
