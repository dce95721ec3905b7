/** Levenshtein distance, and its meaning as a number of insertions, deletions and replacements. */
module EditDistance {
  import opened Words

  /** Textbook recursion: the edit distance of the first `i` characters of `s` and the first `j` of `t`. */
  function Dist(s: Word, t: Word, i: nat, j: nat): nat
    requires i <= |s| && j <= |t|
    decreases i + j, 1
  {
    if i == 0 then j
    else if j == 0 then i
    else Cell(s, t, i, j)
  }

  /** The inner case: delete from `s`, insert from `t`, or keep/replace the last character. */
  function Cell(s: Word, t: Word, i: nat, j: nat): nat
    requires 0 < i <= |s| && 0 < j <= |t|
    decreases i + j, 0
  {
    Min3(Dist(s, t, i - 1, j) + 1, Dist(s, t, i, j - 1) + 1,
         Dist(s, t, i - 1, j - 1) + Neq(s[i - 1], t[j - 1]))
  }

  function Lev(s: Word, t: Word): nat {
    Dist(s, t, |s|, |t|)
  }

  // ----- the three edits of one character, and what k of them can reach -----

  function InsertAt(a: Word, p: nat, c: char): Word
    requires p <= |a|
  {
    a[..p] + [c] + a[p..]
  }

  function DeleteAt(a: Word, p: nat): Word
    requires p < |a|
  {
    a[..p] + a[p + 1..]
  }

  function ReplaceAt(a: Word, p: nat, c: char): Word
    requires p < |a|
  {
    a[p := c]
  }

  ghost predicate EditStep(a: Word, b: Word) {
    || (exists p: nat, c: char :: p <= |a| && b == InsertAt(a, p, c))
    || (exists p: nat :: p < |a| && b == DeleteAt(a, p))
    || (exists p: nat, c: char :: p < |a| && b == ReplaceAt(a, p, c))
  }

  /** `a` can be turned into `b` by at most `k` single-character edits. */
  ghost predicate Transforms(a: Word, b: Word, k: nat)
    decreases k, 1
  {
    a == b || (k > 0 && StepThenTransforms(a, b, k - 1))
  }

  ghost predicate StepThenTransforms(a: Word, b: Word, k: nat)
    decreases k, 2
  {
    exists w: Word :: EditStep(a, w) && Transforms(w, b, k)
  }

  // ----- elementary facts -----

  lemma {:induction false} DistLocal(s: Word, t: Word, s': Word, t': Word, i: nat, j: nat)
    requires i <= |s| && j <= |t| && i <= |s'| && j <= |t'|
    requires forall x :: 0 <= x < i ==> s[x] == s'[x]
    requires forall x :: 0 <= x < j ==> t[x] == t'[x]
    ensures Dist(s, t, i, j) == Dist(s', t', i, j)
    decreases i + j
  {
    if i > 0 && j > 0 {
      DistLocal(s, t, s', t', i - 1, j);
      DistLocal(s, t, s', t', i, j - 1);
      DistLocal(s, t, s', t', i - 1, j - 1);
    }
  }

  lemma {:induction false} DistSym(s: Word, t: Word, i: nat, j: nat)
    requires i <= |s| && j <= |t|
    ensures Dist(s, t, i, j) == Dist(t, s, j, i)
    decreases i + j
  {
    if i > 0 && j > 0 {
      DistSym(s, t, i - 1, j);
      DistSym(s, t, i, j - 1);
      DistSym(s, t, i - 1, j - 1);
    }
  }

  /** A difference in length is a lower bound on the distance. */
  lemma {:induction false} DistLengths(s: Word, t: Word, i: nat, j: nat)
    requires i <= |s| && j <= |t|
    ensures Dist(s, t, i, j) >= i - j && Dist(s, t, i, j) >= j - i
    decreases i + j
  {
    if i > 0 && j > 0 {
      DistLengths(s, t, i - 1, j);
      DistLengths(s, t, i, j - 1);
      DistLengths(s, t, i - 1, j - 1);
    }
  }

  /** Neighbouring cells of one column differ by at most one. */
  lemma {:induction false} DistLipschitz(s: Word, t: Word, i: nat, j: nat)
    requires i < |s| && j <= |t|
    ensures Dist(s, t, i, j) <= Dist(s, t, i + 1, j) + 1
    ensures Dist(s, t, i + 1, j) <= Dist(s, t, i, j) + 1
    decreases j
  {
    if j > 0 {
      DistLipschitz(s, t, i, j - 1);
    }
  }

  // ----- the recursion computes the least number of edits -----

  lemma {:induction false} DeleteBound(a: Word, t: Word, p: nat, i: nat, j: nat)
    requires p < |a| && p <= i < |a| && j <= |t|
    ensures Dist(a, t, i + 1, j) <= Dist(DeleteAt(a, p), t, i, j) + 1
    decreases i + j
  {
    var w := DeleteAt(a, p);
    if i == p {
      DistLocal(a, t, w, t, i, j);
      DistLipschitz(a, t, i, j);
    } else if j > 0 {
      assert w[i - 1] == a[i];
      DeleteBound(a, t, p, i - 1, j);
      DeleteBound(a, t, p, i, j - 1);
      DeleteBound(a, t, p, i - 1, j - 1);
    }
  }

  lemma {:induction false} InsertBound(a: Word, t: Word, p: nat, c: char, i: nat, j: nat)
    requires p <= i <= |a| && j <= |t|
    ensures Dist(a, t, i, j) <= Dist(InsertAt(a, p, c), t, i + 1, j) + 1
    decreases i + j
  {
    var w := InsertAt(a, p, c);
    if i == p {
      DistLocal(a, t, w, t, i, j);
      DistLipschitz(w, t, i, j);
    } else if j > 0 {
      assert w[i] == a[i - 1];
      InsertBound(a, t, p, c, i - 1, j);
      InsertBound(a, t, p, c, i, j - 1);
      InsertBound(a, t, p, c, i - 1, j - 1);
    }
  }

  lemma {:induction false} ReplaceBound(a: Word, t: Word, p: nat, c: char, i: nat, j: nat)
    requires p < |a| && i <= |a| && j <= |t|
    ensures Dist(a, t, i, j) <= Dist(ReplaceAt(a, p, c), t, i, j) + 1
    decreases i + j
  {
    var w := ReplaceAt(a, p, c);
    if i <= p {
      DistLocal(a, t, w, t, i, j);
    } else if j > 0 {
      if i - 1 == p {
        DistLocal(a, t, w, t, i - 1, j - 1);
      }
      ReplaceBound(a, t, p, c, i - 1, j);
      ReplaceBound(a, t, p, c, i, j - 1);
      ReplaceBound(a, t, p, c, i - 1, j - 1);
      if i - 1 == p {
        DistLocal(a, t, w, t, i - 1, j);
      }
    }
  }

  lemma StepBound(a: Word, w: Word, t: Word)
    requires EditStep(a, w)
    ensures Lev(a, t) <= Lev(w, t) + 1
  {
    if p: nat, c: char :| p <= |a| && w == InsertAt(a, p, c) {
      InsertBound(a, t, p, c, |a|, |t|);
    } else if p: nat :| p < |a| && w == DeleteAt(a, p) {
      DeleteBound(a, t, p, |a| - 1, |t|);
    } else {
      var p: nat, c: char :| p < |a| && w == ReplaceAt(a, p, c);
      ReplaceBound(a, t, p, c, |a|, |t|);
    }
  }

  lemma {:induction false} DistSelf(a: Word, i: nat)
    requires i <= |a|
    ensures Dist(a, a, i, i) == 0
  {
    if i > 0 {
      DistSelf(a, i - 1);
    }
  }

  /** Edits done to two words stay possible when both get the same last character. */
  lemma {:induction false} TransformsAppend(a: Word, b: Word, c: char, k: nat)
    requires Transforms(a, b, k)
    ensures Transforms(a + [c], b + [c], k)
    decreases k
  {
    if a != b {
      var w :| EditStep(a, w) && Transforms(w, b, k - 1);
      TransformsAppend(w, b, c, k - 1);
      StepAppend(a, w, c);
    }
  }

  lemma StepAppend(a: Word, w: Word, c: char)
    requires EditStep(a, w)
    ensures EditStep(a + [c], w + [c])
  {
    if p: nat, d: char :| p <= |a| && w == InsertAt(a, p, d) {
      assert w + [c] == InsertAt(a + [c], p, d);
    } else if p: nat :| p < |a| && w == DeleteAt(a, p) {
      assert w + [c] == DeleteAt(a + [c], p);
    } else {
      var p: nat, d: char :| p < |a| && w == ReplaceAt(a, p, d);
      assert w + [c] == ReplaceAt(a + [c], p, d);
    }
  }

  lemma {:induction false} TransformsMono(a: Word, b: Word, k: nat, k': nat)
    requires Transforms(a, b, k) && k <= k'
    ensures Transforms(a, b, k')
    decreases k
  {
    if a != b {
      var w :| EditStep(a, w) && Transforms(w, b, k - 1);
      TransformsMono(w, b, k - 1, k' - 1);
    }
  }

  lemma ReachByInsert(a: Word, b: Word, c: char, k: nat)
    requires Transforms(a, b, k)
    ensures Transforms(a, b + [c], k + 1)
  {
    TransformsAppend(a, b, c, k);
    assert a + [c] == InsertAt(a, |a|, c);
    assert EditStep(a, a + [c]);
  }

  lemma ReachByDelete(a: Word, b: Word, c: char, k: nat)
    requires Transforms(a, b, k)
    ensures Transforms(a + [c], b, k + 1)
  {
    assert a == DeleteAt(a + [c], |a|);
    assert EditStep(a + [c], a);
  }

  lemma ReachByReplace(a: Word, b: Word, c: char, d: char, k: nat)
    requires Transforms(a, b, k)
    ensures Transforms(a + [c], b + [d], k + Neq(c, d))
  {
    TransformsAppend(a, b, d, k);
    if c != d {
      assert a + [d] == ReplaceAt(a + [c], |a|, d);
      assert EditStep(a + [c], a + [d]);
    }
  }

  lemma {:induction false} DistReachable(s: Word, t: Word, i: nat, j: nat)
    requires i <= |s| && j <= |t|
    ensures Transforms(s[..i], t[..j], Dist(s, t, i, j))
    decreases i + j
  {
    var a, b, k := s[..i], t[..j], Dist(s, t, i, j);
    if i == 0 && j == 0 {
    } else if j > 0 && k == 1 + Dist(s, t, i, j - 1) {
      DistReachable(s, t, i, j - 1);
      assert b == t[..j - 1] + [t[j - 1]];
      ReachByInsert(a, t[..j - 1], t[j - 1], k - 1);
    } else if i > 0 && k == 1 + Dist(s, t, i - 1, j) {
      DistReachable(s, t, i - 1, j);
      assert a == s[..i - 1] + [s[i - 1]];
      ReachByDelete(s[..i - 1], b, s[i - 1], k - 1);
    } else {
      DistReachable(s, t, i - 1, j - 1);
      assert a == s[..i - 1] + [s[i - 1]] && b == t[..j - 1] + [t[j - 1]];
      ReachByReplace(s[..i - 1], t[..j - 1], s[i - 1], t[j - 1], Dist(s, t, i - 1, j - 1));
    }
  }

  lemma {:induction false} TransformsBound(a: Word, b: Word, k: nat)
    requires Transforms(a, b, k)
    ensures Lev(a, b) <= k
    decreases k
  {
    if a == b {
      DistSelf(a, |a|);
    } else {
      var w :| EditStep(a, w) && Transforms(w, b, k - 1);
      TransformsBound(w, b, k - 1);
      StepBound(a, w, b);
    }
  }

  /** The recursion is the edit distance of the interface: at most `k` edits suffice exactly when it is at most `k`. */
  lemma LevIsEditDistance(a: Word, b: Word, k: nat)
    ensures Lev(a, b) <= k <==> Transforms(a, b, k)
  {
    if Lev(a, b) <= k {
      DistReachable(a, b, |a|, |b|);
      assert a[..|a|] == a && b[..|b|] == b;
      TransformsMono(a, b, Lev(a, b), k);
    }
    if Transforms(a, b, k) {
      TransformsBound(a, b, k);
    }
  }

  lemma LevSym(s: Word, t: Word)
    ensures Lev(s, t) == Lev(t, s)
  {
    DistSym(s, t, |s|, |t|);
  }

  lemma LevZero(s: Word, t: Word)
    ensures Lev(s, t) == 0 <==> s == t
  {
    LevIsEditDistance(s, t, 0);
  }
}
