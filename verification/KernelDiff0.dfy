/** `EditHamming`: the kernel for words of equal length, for any set of request bits. */
module KernelDiff0 {
  import opened Words
  import opened EditDistance
  import opened Masks
  import opened Detours

  /** The edit bits of the requests, and the threshold they stand for. */
  function EditRequests(requests: Mask): Mask {
    requests & 0x70
  }

  function Threshold(requests: Mask): (thr: nat)
    ensures thr <= 3
  {
    var edRequests := EditRequests(requests);
    if edRequests >= 64 then 3 else if edRequests >= 32 then 2 else if edRequests >= 16 then 1 else 0
  }

  lemma RequestsWithinThreshold(requests: Mask, b: nat)
    requires 4 <= b < 7 && Has(requests, b)
    ensures b - 3 <= Threshold(requests)
  {
    assert b == 4 || b == 5 || b == 6;
  }

  /** What `startpos[2]` and `startpos[3]` hold while a neighbouring diagonal is followed from `x` up to `k`. */
  ghost predicate OffPositions(s: Word, t: Word, q: int, x: nat, k: nat, first: int, second: int)
    requires x <= k < |s| == |t|
  {
    var n, c := |s|, OffMismatches(s, t, q, x, k);
    && (c == 0 ==> first == (if x < k then k - 1 else n - 1) && second == n - 1)
    && (c > 0 ==> x <= first < k && OffMismatches(s, t, q, x, first) == 0 && OffNeq(s, t, q, first) == 1)
    && (c == 1 ==> second == if first < k - 1 then k - 1 else n - 1)
    && (c == 2 ==> first < second == k - 1 && OffMismatches(s, t, q, x, second) == 1 && OffNeq(s, t, q, second) == 1)
  }

  /** Bits 0 to 3 of the mask when `h` mismatches were counted, four standing for four or more. */
  ghost predicate HammingBits(hamEx: Mask, h: nat) {
    && hamEx & 0x70 == 0
    && (Has(hamEx, 0) <==> h <= 0)
    && (Has(hamEx, 1) <==> h <= 1)
    && (Has(hamEx, 2) <==> h <= 2)
    && (Has(hamEx, 3) <==> h <= 3)
  }

  /** Counts mismatches up to four and records where they are. */
  method CountMismatches(s: Word, t: Word, startpos: array<int>) returns (hamEx: Mask, c: nat, i: nat)
    requires |s| == |t| && startpos.Length == 5
    modifies startpos
    ensures i <= |s| && c <= 4 && (i < |s| ==> c == 4)
    ensures c == Mismatches(s, t, 0, i) && HammingBits(hamEx, c)
    ensures c >= 2 ==> MismatchNo(s, t, 0, startpos[0]) && MismatchNo(s, t, 1, startpos[1]) && startpos[0] < startpos[1]
  {
    c, i, hamEx := 0, 0, 15;
    while i < |s| && hamEx != 0
      invariant 0 <= i <= |s| && c <= 4
      invariant c == Mismatches(s, t, 0, i) && HammingBits(hamEx, c)
      invariant hamEx == 0 ==> c == 4
      invariant c >= 1 ==> MismatchNo(s, t, 0, startpos[0]) && startpos[0] < i
      invariant c >= 2 ==> MismatchNo(s, t, 1, startpos[1]) && startpos[0] < startpos[1]
    {
      HammingBitsZero(hamEx, c);
      var temp := Neq(s[i], t[i]);
      hamEx := Shl(hamEx, temp) & 15;
      startpos[c] := i;
      c := c + temp;
      i := i + 1;
    }
    HammingBitsZero(hamEx, c);
  }

  lemma HammingBitsZero(hamEx: Mask, c: nat)
    requires HammingBits(hamEx, c) && c <= 4
    ensures hamEx == 0 <==> c == 4
    ensures HammingBits(Shl(hamEx, 1) & 15, c + 1) && HammingBits(Shl(hamEx, 0) & 15, c)
  {
  }

  /** Follows the neighbouring diagonal from `x` until it ends or the cost reaches `curThr`. */
  method FollowDiagonal(s: Word, t: Word, p: nat, q: int, x: nat, curThr: int, temp0: int, startpos: array<int>)
    returns (i: nat, j: nat, val: int, temp: int, ghost k: nat)
    requires x < |s| == |t| && (q == 0 || q == 1) && p < 2 && curThr <= 3 && startpos.Length == 5
    modifies startpos
    ensures startpos[0] == old(startpos[0]) && startpos[1] == old(startpos[1])
    ensures x <= k < |s| && i == (if q == 0 then k else k + 1) && j == (if q == 0 then k + 1 else k)
    ensures val == p + 1 + OffMismatches(s, t, q, x, k) && val <= 3
    ensures k == |s| - 1 || val >= curThr
    ensures x < k ==> temp == OffNeq(s, t, q, k - 1)
    ensures OffPositions(s, t, q, x, k, startpos[2], startpos[3])
  {
    var n := |s|;
    i := if q == 0 then x else x + 1;
    j := if q == 0 then x + 1 else x;
    temp := temp0;
    var c := 2;
    val := p + 1;
    startpos[2], startpos[3] := n - 1, n - 1;
    k := x;
    while i < n && j < n && val < curThr
      invariant x <= k < n && i == (if q == 0 then k else k + 1) && j == (if q == 0 then k + 1 else k)
      invariant c == 2 + OffMismatches(s, t, q, x, k) && val == p + 1 + OffMismatches(s, t, q, x, k) && val <= 3
      invariant x < k ==> temp == OffNeq(s, t, q, k - 1)
      invariant startpos[0] == old(startpos[0]) && startpos[1] == old(startpos[1])
      invariant OffPositions(s, t, q, x, k, startpos[2], startpos[3])
      decreases n - k
    {
      temp := Neq(s[i], t[j]);
      val := val + temp;
      startpos[c] := if q == 0 then i else j;
      c := c + temp;
      i := i + 1;
      j := j + 1;
      k := k + 1;
    }
  }

  /** What the two returns to the main diagonal cost, with the second one out of use after a replacement. */
  function ReturnCost(s: Word, t: Word, p: nat, first: nat, second: nat): nat
    requires first <= second < |s| == |t|
  {
    Min(p + 2 + Mismatches(s, t, first + 1, second + 1), p + 3) + Mismatches(s, t, second + 1, |s|)
  }

  /** The neighbouring diagonal was followed from `x` to `k`: to its end, or until no result below `ed` could follow. */
  ghost predicate Explored(s: Word, t: Word, p: nat, q: int, x: nat, k: nat, ed: int, thr: nat, first: int,
                           second: int)
    requires |s| == |t|
  {
    && (q == 0 || q == 1) && p < 2 && x <= k < |s| && MismatchNo(s, t, p, x)
    && (k == |s| - 1 || p + 1 + OffMismatches(s, t, q, x, k) >= Min(ed - 1, thr))
    && p + 1 + OffMismatches(s, t, q, x, k) <= 3
    && OffPositions(s, t, q, x, k, first, second)
  }

  /** After a leading replacement the second return is not used. */
  function LastReturn(s: Word, p: nat, second: int): int {
    if p == 1 then |s| - 1 else second
  }

  /** Adds the mismatches on the main diagonal after a return at `startpos[2]`, or after one at `startpos[3]`. */
  method ReturnToMain(s: Word, t: Word, p: nat, first: int, second: int) returns (val: int)
    requires |s| == |t| && 0 <= first <= second < |s|
    ensures val == ReturnCost(s, t, p, first, second)
  {
    val := p + 2;
    var i := first + 1;
    while i < second + 1
      invariant first + 1 <= i <= second + 1 && val == p + 2 + Mismatches(s, t, first + 1, i)
    {
      val := val + Neq(s[i], t[i]);
      i := i + 1;
    }
    i := second + 1;
    val := Min(val, p + 3);
    ghost var val0 := val;
    while i < |s|
      invariant second + 1 <= i <= |s| && val == val0 + Mismatches(s, t, second + 1, i)
    {
      val := val + Neq(s[i], t[i]);
      i := i + 1;
    }
  }

  /** A distance found is one that an alignment reaches; values above the threshold claim nothing. */
  ghost predicate Reached(s: Word, t: Word, ed: int, thr: nat) {
    ed <= thr ==> Lev(s, t) <= ed
  }

  /** The neighbouring diagonal ran to its end; its last replacement is spared if the last characters match. */
  lemma EndReached(s: Word, t: Word, p: nat, q: int, x: nat, temp: int)
    requires |s| == |t| && (q == 0 || q == 1) && MismatchNo(s, t, p, x)
    requires x < |s| - 1 ==> temp == OffNeq(s, t, q, |s| - 2)
    ensures var e := p + 2 + OffMismatches(s, t, q, x, |s| - 1) - Eq(s[|s| - 1], t[|s| - 1]) * temp;
            2 <= e && Lev(s, t) <= e
  {
    var n := |s|;
    DetourIsAlignment(s, t, q, x, n - 1);
    if x < n - 1 {
      DetourIsAlignment(s, t, q, x, n - 2);
      assert Mismatches(s, t, n - 1, n) == Neq(s[n - 1], t[n - 1]);
    }
  }

  lemma ReturnReached(s: Word, t: Word, p: nat, q: int, x: nat, k: nat, ed: int, thr: nat,
                      first: nat, second: int)
    requires |s| == |t| && Explored(s, t, p, q, x, k, ed, thr, first, second) && thr <= 3
    ensures first <= LastReturn(s, p, second) < |s|
    ensures ReturnCost(s, t, p, first, LastReturn(s, p, second)) >= 2
    ensures ReturnCost(s, t, p, first, LastReturn(s, p, second)) < ed
            ==> Reached(s, t, ReturnCost(s, t, p, first, LastReturn(s, p, second)), thr)
  {
    var n, c, last := |s|, OffMismatches(s, t, q, x, k), LastReturn(s, p, second);
    MismatchesSplit(s, t, first + 1, last + 1, n);
    if c > 0 || x < k || x == n - 1 {
      if c == 0 && x < k {
        OffSplit(s, t, q, x, k - 1, k);
      }
      DetourIsAlignment(s, t, q, x, first);
    }
    if p == 0 && (c > 1 || k == n - 1 || (c == 1 && last < n - 1)) {
      if c == 1 && first < k - 1 {
        OffSplit(s, t, q, x, k - 1, k);
      }
      DetourIsAlignment(s, t, q, x, last);
    }
  }

  lemma RoundCovers(s: Word, t: Word, p: nat, q: int, x: nat, k: nat, ed: int, ed': int,
                    thr: nat, first: nat, second: int)
    requires |s| == |t| && Explored(s, t, p, q, x, k, ed, thr, first, second) && thr <= 3
    requires first <= LastReturn(s, p, second) < |s|
    requires ed' <= ed && ed' <= ReturnCost(s, t, p, first, LastReturn(s, p, second))
    requires k == |s| - 1 ==> ed' <= p + 2 + OffMismatches(s, t, q, x, k)
    ensures Covered(s, t, q, x, ed', thr)
  {
    var c, last := OffMismatches(s, t, q, x, k), LastReturn(s, p, second);
    forall y: nat | x <= y < |s| && 2 + DetourCost(s, t, q, x, y) <= thr
      ensures ed' <= 2 + DetourCost(s, t, q, x, y)
    {
      if ed > 2 + DetourCost(s, t, q, x, y) && p + c > DetourCost(s, t, q, x, y) {
        if y <= first {
          FirstReturnCovers(s, t, p, q, x, first, last, y);
        } else {
          OffSplit(s, t, q, x, first + 1, y);
          SecondReturnCovers(s, t, q, x, last, y);
        }
      }
    }
  }

  lemma FirstReturnCovers(s: Word, t: Word, p: nat, q: int, x: nat, first: nat, last: nat, y: nat)
    requires |s| == |t| && MismatchNo(s, t, p, x) && x <= y <= first <= last < |s|
    ensures ReturnCost(s, t, p, first, last) <= 2 + DetourCost(s, t, q, x, y)
  {
    MismatchesSplit(s, t, first + 1, last + 1, |s|);
    MismatchesSplit(s, t, y + 1, first + 1, |s|);
  }

  lemma SecondReturnCovers(s: Word, t: Word, q: int, x: nat, second: nat, y: nat)
    requires |s| == |t| && x <= second < |s| && x <= y < |s|
    requires OffMismatches(s, t, q, x, second) == 1
    requires second < |s| - 1 && OffNeq(s, t, q, second) == 1
    requires OffMismatches(s, t, q, x, y) <= 1
    ensures y <= second && Mismatches(s, t, second + 1, |s|) <= Mismatches(s, t, y + 1, |s|)
  {
    var past := if y <= second then y else second + 1;
    OffSplit(s, t, q, x, past, y);
    MismatchesSplit(s, t, y + 1, second + 1, |s|);
  }

  /** Does the mask answer every edit request? */
  predicate AllAnswered(requests: Mask, result: Mask) {
    EditRequests(requests) & result == EditRequests(requests)
  }

  /** When the neighbouring diagonal has been followed to its end, the detour can return there. */
  method EndOfDiagonal(s: Word, t: Word, p: nat, q: int, x: nat, i: nat, j: nat, val: int, temp: int, ed0: int,
                       requests: Mask, ghost k: nat)
    returns (ed: int, done: bool)
    requires |s| == |t| && (q == 0 || q == 1) && MismatchNo(s, t, p, x) && x <= k < |s|
    requires i == (if q == 0 then k else k + 1) && j == (if q == 0 then k + 1 else k)
    requires val == p + 1 + OffMismatches(s, t, q, x, k) && (x < k ==> temp == OffNeq(s, t, q, k - 1))
    requires 2 <= ed0 && Reached(s, t, ed0, Threshold(requests))
    ensures 2 <= ed <= ed0 && Reached(s, t, ed, Threshold(requests))
    ensures k == |s| - 1 ==> ed <= p + 2 + OffMismatches(s, t, q, x, k)
    ensures done ==> AllAnswered(requests, Shl(0x38, ed))
  {
    var n := |s|;
    ed, done := ed0, false;
    if i == n || j == n {
      EndReached(s, t, p, q, x, temp);
      var temp1 := ed;
      var spared := Eq(s[n - 1], t[n - 1]) * temp;
      ed := Min(ed, val + 1 - spared);
      if temp1 != ed && AllAnswered(requests, Shl(0x38, ed)) {
        done := true;
      }
    }
  }

  /** One of the four searches: `p` leading replacements, then a detour in direction `q`. */
  method Round(s: Word, t: Word, p: nat, q: int, ed0: int, temp0: int, requests: Mask, startpos: array<int>)
      returns (ed: int, temp: int, done: bool)
    requires |s| == |t| && (q == 0 || q == 1) && p < 2 && startpos.Length == 5
    requires MismatchNo(s, t, p, startpos[p])
    requires 2 <= ed0 && Reached(s, t, ed0, Threshold(requests))
    modifies startpos
    ensures startpos[0] == old(startpos[0]) && startpos[1] == old(startpos[1])
    ensures 2 <= ed <= ed0 && Reached(s, t, ed, Threshold(requests))
    ensures if done then AllAnswered(requests, Shl(0x38, ed))
            else Covered(s, t, q, startpos[p], ed, Threshold(requests))
  {
    hide EditRequests, AllAnswered, Shl;
    var x := startpos[p];
    var thr := Threshold(requests);
    var curThr := Min(ed0 - 1, thr);
    var i, j, val;
    ghost var k;
    i, j, val, temp, k := FollowDiagonal(s, t, p, q, x, curThr, temp0, startpos);
    ghost var first, second := startpos[2], startpos[3];
    ReturnReached(s, t, p, q, x, k, ed0, thr, first, second);
    startpos[3] := if p == 1 then |s| - 1 else startpos[3];
    ed, done := EndOfDiagonal(s, t, p, q, x, i, j, val, temp, ed0, requests, k);
    if done {
      return;
    }
    val := ReturnToMain(s, t, p, startpos[2], startpos[3]);
    temp := ed;
    ed := Min(ed, val);
    if AllAnswered(requests, Shl(0x38, ed)) {
      done := true;
      return;
    }
    RoundCovers(s, t, p, q, x, k, ed0, ed, thr, first, second);
  }

  /** The result so far: the Hamming bits, which are edit bits as well, and those of a distance that was found. */
  function ResultOf(hamEx: Mask, ed0: nat, ed: nat): Mask {
    WithDistance(WithDistance(HammingResult(hamEx), ed0), ed)
  }

  function HammingResult(hamEx: Mask): Mask {
    (hamEx << 3) | hamEx
  }

  function WithDistance(result: Mask, ed: nat): Mask {
    result | Shl(0x38, ed)
  }

  /** The bits of the result that were asked for. */
  function Asked(requests: Mask, result: Mask): Mask {
    requests & result
  }

  lemma ResultBits(hamEx: Mask, h: nat, ed0: nat, ed: nat, b: nat)
    requires HammingBits(hamEx, h) && b < 7 && (ed0 == 0 || ed == 0 ==> h == 0)
    ensures b <= 2 ==> (Has(ResultOf(hamEx, ed0, ed), b) <==> h <= b)
    ensures b == 3 ==> (Has(ResultOf(hamEx, ed0, ed), b) <==> h <= 3 || ed0 == 0 || ed == 0)
    ensures b >= 4 ==> (Has(ResultOf(hamEx, ed0, ed), b) <==> h <= b - 3 || ed0 <= b - 3 || ed <= b - 3)
  {
    hide Has, Shl, HammingBits;
    HasBoth(hamEx << 3, hamEx, b);
    HasBoth((hamEx << 3) | hamEx, Shl(0x38, ed0), b);
    HasBoth((hamEx << 3) | hamEx | Shl(0x38, ed0), Shl(0x38, ed), b);
    ShiftedBits(ed0, b);
    ShiftedBits(ed, b);
    ShiftedHamming(hamEx, h, b);
  }

  lemma ShiftedBits(ed: nat, b: nat)
    requires b < 7
    ensures Has(Shl(0x38, ed), b) <==> b >= 3 && ed <= b - 3 && (ed == 0 ==> b < 6)
  {
    assert b == 0 || b == 1 || b == 2 || b == 3 || b == 4 || b == 5 || b == 6;
    assert ed == 0 || ed == 1 || ed == 2 || ed == 3 || ed == 4 || ed == 5 || ed == 6 || ed > 6;
  }

  lemma ShiftedHamming(hamEx: Mask, h: nat, b: nat)
    requires HammingBits(hamEx, h) && b < 7
    ensures Has(hamEx, b) <==> b <= 3 && h <= b
    ensures Has(hamEx << 3, b) <==> b >= 3 && h <= b - 3
  {
    assert b == 0 || b == 1 || b == 2 || b == 3 || b == 4 || b == 5 || b == 6;
  }

  /** What the loop over the mismatches has found out. */
  ghost predicate Counted(s: Word, t: Word, hamEx: Mask, c: nat, ed0: nat) {
    && |s| == |t| && HammingBits(hamEx, c) && c <= 4
    && if c < 4 then c == ed0 == Hamming(s, t) else Hamming(s, t) >= 4 && ed0 >= 4
  }

  /**
   * The result is exact for the requests if the distance found is right as far as the requests go: it is reached
   * if it is within the threshold, and either answers every edit request or cannot be improved on.
   */
  lemma ResultExact(s: Word, t: Word, hamEx: Mask, c: nat, ed0: nat, ed: nat, requests: Mask)
    requires Counted(s, t, hamEx, c, ed0) && ed <= ed0 && (ed == 0 ==> c == 0) && Reached(s, t, ed, Threshold(requests))
    requires AllAnswered(requests, ResultOf(hamEx, ed0, ed)) || (Lev(s, t) <= Threshold(requests) ==> ed <= Lev(s, t))
    ensures ExactFor(Asked(requests, ResultOf(hamEx, ed0, ed)), requests, s, t)
  {
    hide Threshold, ResultOf, HammingBits, Lev, Shl;
    var result := ResultOf(hamEx, ed0, ed);
    DistAtMostMismatches(s, t, |s|);
    HammingZero(s, t);
    forall b: nat | b < 7 ensures Has(Asked(requests, result), b) <==> Has(requests, b) && Says(b, s, t) {
      HasBoth(requests, result, b);
      ResultBits(hamEx, c, ed0, ed, b);
      if b >= 4 && Has(requests, b) {
        RequestsWithinThreshold(requests, b);
        AnsweredBit(requests, result, b);
      }
    }
  }

  lemma SameDistance(hamEx: Mask, ed: nat)
    ensures WithDistance(HammingResult(hamEx), ed) == ResultOf(hamEx, ed, ed)
  {
  }

  lemma AnsweredBit(requests: Mask, result: Mask, b: nat)
    requires 4 <= b < 7 && Has(requests, b)
    ensures AllAnswered(requests, result) ==> Has(result, b)
  {
    assert b == 4 || b == 5 || b == 6;
  }

  /** The bits of the distance found are part of the result. */
  lemma AnsweredByPart(requests: Mask, hamEx: Mask, ed0: nat, ed: nat)
    ensures AllAnswered(requests, Shl(0x38, ed)) ==> AllAnswered(requests, ResultOf(hamEx, ed0, ed))
  {
    AnsweredByMore(requests, (hamEx << 3) | hamEx | Shl(0x38, ed0), Shl(0x38, ed));
  }

  lemma AnsweredByMore(requests: Mask, more: Mask, part: Mask)
    ensures AllAnswered(requests, part) ==> AllAnswered(requests, more | part)
  {
  }

  /** With at most one mismatch the Hamming bits answer every edit request. */
  lemma FewMismatches(hamEx: Mask, c: nat, requests: Mask)
    requires HammingBits(hamEx, c) && c <= 1
    ensures AllAnswered(requests, ResultOf(hamEx, c, c))
  {
  }

  /** The searches have left out no alignment within the threshold. */
  lemma SearchComplete(s: Word, t: Word, a: int, b: int, ed: int, thr: nat)
    requires |s| == |t| && MismatchNo(s, t, 0, a) && MismatchNo(s, t, 1, b) && a < b && thr <= 3
    requires forall q | 0 <= q < 2 :: Covered(s, t, q, a, ed, thr) && Covered(s, t, q, b, ed, thr)
    requires Hamming(s, t) <= thr ==> ed <= Hamming(s, t)
    ensures Lev(s, t) <= thr ==> ed <= Lev(s, t)
  {
    if Lev(s, t) <= thr {
      var detour, q, x, y := MainWithinThree(s, t, |s|);
      if detour && 2 + DetourCost(s, t, q, x, y) < Hamming(s, t) {
        FirstTwoSuffice(s, t, q, a, b, x, y, ed, thr);
      }
    }
  }

  lemma CountedAll(s: Word, t: Word, hamEx: Mask, c: nat, i: nat, thr: nat)
    requires i <= |s| == |t| && c <= 4 && (i < |s| ==> c == 4) && thr <= 3
    requires c == Mismatches(s, t, 0, i) && HammingBits(hamEx, c)
    ensures Counted(s, t, hamEx, c, c + |s| - i) && Reached(s, t, c + |s| - i, thr)
    ensures Hamming(s, t) <= thr ==> c + |s| - i <= Hamming(s, t)
  {
    MismatchesSplit(s, t, 0, i, |s|);
    DistAtMostMismatches(s, t, |s|);
  }

  /** The two loops over the searches, which end early once every edit request is answered. */
  method Search(s: Word, t: Word, ed0: int, requests: Mask, startpos: array<int>) returns (ed: int, done: bool)
    requires |s| == |t| && startpos.Length == 5 && startpos[0] < startpos[1]
    requires MismatchNo(s, t, 0, startpos[0]) && MismatchNo(s, t, 1, startpos[1])
    requires 2 <= ed0 && Reached(s, t, ed0, Threshold(requests))
    requires Hamming(s, t) <= Threshold(requests) ==> ed0 <= Hamming(s, t)
    modifies startpos
    ensures 2 <= ed <= ed0 && Reached(s, t, ed, Threshold(requests))
    ensures if done then AllAnswered(requests, Shl(0x38, ed)) else Lev(s, t) <= Threshold(requests) ==> ed <= Lev(s, t)
  {
    hide AllAnswered, Threshold, Lev, Shl, Reached;
    ghost var thr, a, b := Threshold(requests), startpos[0], startpos[1];
    ed, done := ed0, false;
    var temp := 0;
    var p := 0;
    while p < 2
      invariant 0 <= p <= 2 && startpos[0] == a && startpos[1] == b
      invariant 2 <= ed <= ed0 && Reached(s, t, ed, thr)
      invariant p >= 1 ==> Covered(s, t, 0, a, ed, thr) && Covered(s, t, 1, a, ed, thr)
      invariant p >= 2 ==> Covered(s, t, 0, b, ed, thr) && Covered(s, t, 1, b, ed, thr)
    {
      var q := 0;
      while q < 2
        invariant 0 <= q <= 2 && startpos[0] == a && startpos[1] == b
        invariant 2 <= ed <= ed0 && Reached(s, t, ed, thr)
        invariant p >= 1 ==> Covered(s, t, 0, a, ed, thr) && Covered(s, t, 1, a, ed, thr)
        invariant q >= 1 ==> Covered(s, t, 0, startpos[p], ed, thr)
        invariant q >= 2 ==> Covered(s, t, 1, startpos[p], ed, thr)
      {
        ed, temp, done := Round(s, t, p, q, ed, temp, requests, startpos);
        if done {
          return;
        }
        q := q + 1;
      }
      p := p + 1;
    }
    SearchComplete(s, t, a, b, ed, thr);
    done := false;
  }

  /** Exactly the requested bits are exact, whichever they are. */
  method EditHamming(s: Word, t: Word, requests: Mask) returns (r: Mask)
    requires |s| == |t|
    ensures ExactFor(r, requests, s, t)
  {
    hide ExactFor, AllAnswered, EditRequests, Threshold, HammingBits, Has, Lev, Hamming, Counted, Reached, Shl,
         HammingResult, WithDistance, Asked, MismatchNo;
    var n := |s|;
    var startpos := new int[5];
    var hamEx, c, i := CountMismatches(s, t, startpos);
    CountedAll(s, t, hamEx, c, i, Threshold(requests));
    var ed := c + n - i;
    var result := WithDistance(HammingResult(hamEx), ed);
    SameDistance(hamEx, ed);
    if AllAnswered(requests, result) {
      ResultExact(s, t, hamEx, c, ed, ed, requests);
      return Asked(requests, result);
    }
    if c <= 1 {
      FewMismatches(hamEx, c, requests);
    }
    ghost var ed0 := ed;
    var done;
    ed, done := Search(s, t, ed, requests, startpos);
    AnsweredByPart(requests, hamEx, ed0, ed);
    ResultExact(s, t, hamEx, c, ed0, ed, requests);
    if done {
      return Asked(requests, WithDistance(result, ed));
    }
    result := WithDistance(result, ed);
    return Asked(requests, result);
  }
}
