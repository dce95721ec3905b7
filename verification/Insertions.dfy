/**
 * Alignments that only insert into the shorter word and replace. Within the distances the kernels can
 * report, an optimal alignment of words whose lengths differ by two or three has no deletion.
 */
module Insertions {
  import opened Words
  import opened EditDistance

  /** Fewest replacements when `s[..i]` becomes `t[..j]` by `j - i` insertions and replacements only. */
  function Ins(s: Word, t: Word, i: nat, j: nat): nat
    requires i <= |s| && j <= |t| && i <= j
    decreases j, 1
  {
    if i == 0 then 0 else InsCell(s, t, i, j)
  }

  function InsCell(s: Word, t: Word, i: nat, j: nat): nat
    requires 0 < i <= |s| && j <= |t| && i <= j
    decreases j, 0
  {
    var straight := Ins(s, t, i - 1, j - 1) + Neq(s[i - 1], t[j - 1]);
    if i == j then straight else Min(Ins(s, t, i, j - 1), straight)
  }

  lemma {:induction false} InsMono(s: Word, t: Word, i: nat, j: nat)
    requires i < |s| && j < |t| && i <= j
    ensures Ins(s, t, i, j) <= Ins(s, t, i + 1, j + 1)
    decreases j
  {
    if i < j {
      InsMono(s, t, i, j - 1);
    }
  }

  lemma {:induction false} InsMonoRange(s: Word, t: Word, i: nat, i': nat, d: nat)
    requires i <= i' <= |s| && i' + d <= |t|
    ensures Ins(s, t, i, i + d) <= Ins(s, t, i', i' + d)
    decreases i' - i
  {
    if i < i' {
      InsMono(s, t, i, i + d);
      InsMonoRange(s, t, i + 1, i', d);
    }
  }

  lemma {:induction false} InsDiagonal(s: Word, t: Word, i: nat)
    requires i <= |s| && i <= |t|
    ensures Ins(s, t, i, i) == Mismatches(s, t, 0, i)
    decreases i
  {
    if i > 0 {
      InsDiagonal(s, t, i - 1);
    }
  }

  lemma {:induction false} DistAtMostIns(s: Word, t: Word, i: nat, j: nat)
    requires i <= |s| && j <= |t| && i <= j
    ensures Dist(s, t, i, j) <= j - i + Ins(s, t, i, j)
    decreases j
  {
    if i > 0 {
      DistAtMostIns(s, t, i - 1, j - 1);
      if i < j {
        DistAtMostIns(s, t, i, j - 1);
      }
    }
  }

  /** With at most one edit to spare beyond the length difference, no deletion can be afforded. */
  lemma {:induction false} InsAtMostDist(s: Word, t: Word, i: nat, j: nat)
    requires i <= |s| && j <= |t| && i <= j
    requires Dist(s, t, i, j) <= j - i + 1
    ensures j - i + Ins(s, t, i, j) <= Dist(s, t, i, j)
    decreases j
  {
    if i > 0 {
      DistLengths(s, t, i - 1, j);
      if i == j {
        DistLengths(s, t, i, j - 1);
      }
      if Dist(s, t, i - 1, j - 1) <= j - i + 1 {
        InsAtMostDist(s, t, i - 1, j - 1);
      }
      if i < j && Dist(s, t, i, j - 1) <= j - i {
        InsAtMostDist(s, t, i, j - 1);
      }
    }
  }
}
