/**
 * Deletion neighbourhoods: the words left when some positions of a word are dropped. Two words within
 * edit distance `k` share such a word, which is what brings them together in a hash bucket.
 */
module Deletions {
  import opened Words
  import opened EditDistance

  /** Strictly increasing positions inside a word of length `n`. */
  ghost predicate Positions(ps: seq<nat>, n: nat) {
    && (forall a, b :: 0 <= a < b < |ps| ==> ps[a] < ps[b])
    && (forall a :: 0 <= a < |ps| ==> ps[a] < n)
  }

  /** `w` without the characters at `ps`. */
  ghost function Drop(w: Word, ps: seq<nat>): Word
    requires Positions(ps, |w|)
    decreases |ps|
  {
    if |ps| == 0 then w
    else
      var p := ps[|ps| - 1];
      Drop(w[..p], ps[..|ps| - 1]) + w[p + 1..]
  }

  /** `v` is `w` with exactly `c` characters dropped. */
  ghost predicate Dropped(v: Word, w: Word, c: nat) {
    exists ps :: Positions(ps, |w|) && |ps| == c && v == Drop(w, ps)
  }

  // ----- subsequences, and dropping as a subsequence -----

  ghost predicate Subsequence(v: Word, w: Word)
    decreases |w|
  {
    |v| == 0 || (|w| > 0 && SubsequenceCell(v, w))
  }

  ghost predicate SubsequenceCell(v: Word, w: Word)
    requires |v| > 0 && |w| > 0
    decreases |w|, 0
  {
    var w' := w[..|w| - 1];
    Subsequence(v, w') || (v[|v| - 1] == w[|w| - 1] && Subsequence(v[..|v| - 1], w'))
  }

  lemma SubsequenceExtend(v: Word, w: Word, c: char)
    requires Subsequence(v, w)
    ensures Subsequence(v, w + [c]) && Subsequence(v + [c], w + [c])
  {
    assert (w + [c])[..|w|] == w && (v + [c])[..|v|] == v;
    assert SubsequenceCell(v + [c], w + [c]);
    if |v| > 0 {
      assert SubsequenceCell(v, w + [c]);
    }
  }

  lemma {:induction false} SubsequenceTrim(v: Word, w: Word, m: nat)
    requires Subsequence(v, w) && m <= |v|
    ensures Subsequence(v[..m], w)
    decreases |w|
  {
    if m < |v| {
      var w' := w[..|w| - 1];
      assert w == w' + [w[|w| - 1]];
      if Subsequence(v, w') {
        SubsequenceTrim(v, w', m);
      } else {
        SubsequenceTrim(v[..|v| - 1], w', m);
        assert v[..|v| - 1][..m] == v[..m];
      }
      SubsequenceExtend(v[..m], w', w[|w| - 1]);
    } else {
      assert v[..m] == v;
    }
  }

  lemma DropLast(w: Word, c: char, ps: seq<nat>)
    requires Positions(ps, |w|)
    ensures Positions(ps, |w| + 1) && Drop(w + [c], ps) == Drop(w, ps) + [c]
    ensures Positions(ps + [|w|], |w| + 1) && Drop(w + [c], ps + [|w|]) == Drop(w, ps)
  {
    if |ps| > 0 {
      var p := ps[|ps| - 1];
      assert (w + [c])[..p] == w[..p] && (w + [c])[p + 1..] == w[p + 1..] + [c];
    }
    var qs := ps + [|w|];
    assert qs[..|qs| - 1] == ps && (w + [c])[..|w|] == w;
  }

  lemma DroppedExtend(v: Word, w: Word, c: char, k: nat)
    requires Dropped(v, w, k)
    ensures Dropped(v + [c], w + [c], k) && Dropped(v, w + [c], k + 1)
  {
    var ps: seq<nat> :| Positions(ps, |w|) && |ps| == k && v == Drop(w, ps);
    DropLast(w, c, ps);
    var qs: seq<nat> := ps + [|w|];
    assert Positions(qs, |w + [c]|) && |qs| == k + 1 && v == Drop(w + [c], qs);
  }

  lemma DroppedNone(w: Word)
    ensures Dropped(w, w, 0)
  {
    assert Positions([], |w|) && Drop(w, []) == w;
  }

  /** A subsequence is a word with the missing characters dropped. */
  lemma {:induction false} SubsequenceIsDropped(v: Word, w: Word)
    requires Subsequence(v, w)
    ensures |v| <= |w| && Dropped(v, w, |w| - |v|)
    decreases |w|
  {
    if |w| == 0 {
      DroppedNone(w);
    } else {
      var w', c := w[..|w| - 1], w[|w| - 1];
      assert w == w' + [c];
      var kept := |v| > 0 && !Subsequence(v, w');
      var v' := if kept then v[..|v| - 1] else v;
      assert kept ==> v == v' + [c];
      SubsequenceIsDropped(v', w');
      DroppedExtend(v', w', c, |w'| - |v'|);
    }
  }

  /** Whatever an alignment keeps is common to both words; replaced and dropped characters are at most its cost. */
  lemma {:induction false} CommonSubsequence(s: Word, t: Word, i: nat, j: nat) returns (v: Word)
    requires i <= |s| && j <= |t|
    ensures Subsequence(v, s[..i]) && Subsequence(v, t[..j])
    ensures |v| + Dist(s, t, i, j) >= i && |v| + Dist(s, t, i, j) >= j
    decreases i + j
  {
    if i == 0 || j == 0 {
      return [];
    }
    assert s[..i] == s[..i - 1] + [s[i - 1]] && t[..j] == t[..j - 1] + [t[j - 1]];
    if Dist(s, t, i, j) == Dist(s, t, i - 1, j) + 1 {
      v := CommonSubsequence(s, t, i - 1, j);
      SubsequenceExtend(v, s[..i - 1], s[i - 1]);
    } else if Dist(s, t, i, j) == Dist(s, t, i, j - 1) + 1 {
      v := CommonSubsequence(s, t, i, j - 1);
      SubsequenceExtend(v, t[..j - 1], t[j - 1]);
    } else {
      v := CommonSubsequence(s, t, i - 1, j - 1);
      SubsequenceExtend(v, s[..i - 1], s[i - 1]);
      SubsequenceExtend(v, t[..j - 1], t[j - 1]);
      if s[i - 1] == t[j - 1] {
        v := v + [s[i - 1]];
      }
    }
  }

  /**
   * Completeness of the filter: words within distance `k` whose lengths differ by `d` have a common
   * word, `k - d` deletions below the shorter and `k` below the longer.
   */
  lemma MeetingPoint(s: Word, t: Word, k: nat) returns (v: Word)
    requires |s| <= |t| && Lev(s, t) <= k <= |t|
    ensures |t| - |s| <= k && Dropped(v, s, k - (|t| - |s|)) && Dropped(v, t, k)
  {
    DistLengths(s, t, |s|, |t|);
    var u := CommonSubsequence(s, t, |s|, |t|);
    assert s[..|s|] == s && t[..|t|] == t;
    v := u[..|t| - k];
    SubsequenceTrim(u, s, |t| - k);
    SubsequenceTrim(u, t, |t| - k);
    SubsequenceIsDropped(v, s);
    SubsequenceIsDropped(v, t);
  }

  // ----- the loops that write every such word into a buffer -----

  /** `strncpy(dst + at, src + from, count)` where the source has at least `count` more characters. */
  method StrNCpy(dst: array<char>, at: nat, src: Word, from: nat, count: nat)
    requires at + count <= dst.Length && from + count <= |src|
    modifies dst
    ensures dst[..] == old(dst[..at]) + src[from..from + count] + old(dst[at + count..])
  {
    for x := 0 to count
      invariant forall i | 0 <= i < dst.Length ::
                  dst[i] == if at <= i < at + x then src[from + (i - at)] else old(dst[i])
    {
      dst[at + x] := src[from + x];
    }
    assert dst[..at] == old(dst[..at]) && dst[at..at + count] == src[from..from + count];
    assert dst[at + count..] == old(dst[at + count..]);
    assert dst[..] == dst[..at] + dst[at..at + count] + dst[at + count..];
  }

  ghost function Drop1(w: Word, k: nat): Word
    requires k < |w|
  {
    w[..k] + w[k + 1..]
  }

  ghost function Drop2(w: Word, j: nat, k: nat): Word
    requires j < k < |w|
  {
    w[..j] + w[j + 1..k] + w[k + 1..]
  }

  ghost function Drop3(w: Word, i: nat, j: nat, k: nat): Word
    requires i < j < k < |w|
  {
    w[..i] + w[i + 1..j] + w[j + 1..k] + w[k + 1..]
  }

  lemma DropAnother(w: Word, ps: seq<nat>, p: nat)
    requires p < |w| && Positions(ps, p)
    ensures Positions(ps + [p], |w|) && Drop(w, ps + [p]) == Drop(w[..p], ps) + w[p + 1..]
  {
    assert (ps + [p])[..|ps|] == ps;
  }

  lemma DropIsDrop1(w: Word, k: nat)
    requires k < |w|
    ensures Positions([k], |w|) && Drop(w, [k]) == Drop1(w, k)
  {
    DropAnother(w, [], k);
    assert [] + [k] == [k];
  }

  lemma DropIsDrop2(w: Word, j: nat, k: nat)
    requires j < k < |w|
    ensures Positions([j, k], |w|) && Drop(w, [j, k]) == Drop2(w, j, k)
  {
    var u := w[..k];
    DropIsDrop1(u, j);
    DropAnother(w, [j], k);
    assert [j] + [k] == [j, k];
    assert u[..j] == w[..j] && u[j + 1..] == w[j + 1..k];
  }

  lemma Drop2OfPrefix(w: Word, i: nat, j: nat, k: nat)
    requires i < j < k < |w|
    ensures Drop2(w[..k], i, j) == w[..i] + w[i + 1..j] + w[j + 1..k]
  {
    var u := w[..k];
    assert u[..i] == w[..i] && u[i + 1..j] == w[i + 1..j] && u[j + 1..] == w[j + 1..k];
  }

  lemma DropIsDrop3(w: Word, i: nat, j: nat, k: nat)
    requires i < j < k < |w|
    ensures Positions([i, j, k], |w|) && Drop(w, [i, j, k]) == Drop3(w, i, j, k)
  {
    DropIsDrop2(w[..k], i, j);
    Drop2OfPrefix(w, i, j, k);
    var ps: seq<nat> := [i, j];
    DropAnother(w, ps, k);
    assert ps + [k] == [i, j, k];
  }

  /** Writes what is behind the last deleted position `k` and before it, from the position `at + 1` on. */
  method FillGap(res: array<char>, head: Word, w: Word, at: nat, k: nat)
    requires |head| <= at < k < |w| && res.Length >= |head| + |w| - at - 2
    requires res[..|head|] == head
    modifies res
    ensures res[..|head| + |w| - at - 2] == head + w[at + 1..k] + w[k + 1..]
    ensures res[..|head|] == head
  {
    var h, n := |head|, |w|;
    StrNCpy(res, h, w, at + 1, k - at - 1);
    assert res[..h + k - at - 1] == head + w[at + 1..k];
    StrNCpy(res, h + k - at - 1, w, k + 1, n - k - 1);
    assert res[..h + n - at - 2] == (head + w[at + 1..k]) + w[k + 1..];
    assert res[..h] == res[..h + n - at - 2][..h];
  }

  /** Every way of choosing `c` positions of a word of length `n`, each once. */
  ghost predicate AllPositions(ps: seq<seq<nat>>, n: nat, c: nat) {
    && (forall q :: q in ps <==> Positions(q, n) && |q| == c)
    && forall x, y :: 0 <= x < y < |ps| ==> ps[x] != ps[y]
  }

  /** Word by word, what is left after dropping the characters at these positions. */
  ghost predicate DroppedAt(out: seq<Word>, w: Word, ps: seq<seq<nat>>) {
    |out| == |ps| && forall x | 0 <= x < |ps| :: Positions(ps[x], |w|) && out[x] == Drop(w, ps[x])
  }

  /** With every choice of positions, every word with so many characters dropped is there. */
  lemma AllDropped(out: seq<Word>, w: Word, ps: seq<seq<nat>>, c: nat)
    requires DroppedAt(out, w, ps) && AllPositions(ps, |w|, c)
    ensures forall v :: v in out <==> Dropped(v, w, c)
  {
    forall v ensures v in out <==> Dropped(v, w, c) {
      if v in out {
        var x :| 0 <= x < |out| && out[x] == v;
        assert ps[x] in ps;
      }
      if Dropped(v, w, c) {
        var q :| Positions(q, |w|) && |q| == c && v == Drop(w, q);
        assert q in ps;
        var x :| 0 <= x < |ps| && ps[x] == q;
        assert out[x] == v;
      }
    }
  }

  /** The choices made so far: one predicate says which they are. */
  ghost predicate Chosen(ps: seq<seq<nat>>, these: seq<nat> -> bool) {
    && (forall q :: q in ps <==> these(q))
    && forall x, y :: 0 <= x < y < |ps| ==> ps[x] != ps[y]
  }

  lemma OneMoreChosen(ps: seq<seq<nat>>, these: seq<nat> -> bool, q: seq<nat>, those: seq<nat> -> bool)
    requires Chosen(ps, these) && !these(q) && forall q' :: those(q') <==> these(q') || q' == q
    ensures Chosen(ps + [q], those)
  {
    assert q !in ps;
  }

  lemma OneMoreDropped(out: seq<Word>, w: Word, ps: seq<seq<nat>>, v: Word, q: seq<nat>)
    requires DroppedAt(out, w, ps) && Positions(q, |w|) && v == Drop(w, q)
    ensures DroppedAt(out + [v], w, ps + [q])
  {
  }

  /** A single position below `k`. */
  predicate Singles(q: seq<nat>, k: nat) {
    |q| == 1 && q[0] < k
  }

  /** Writes everything but position `k`. */
  method LeaveOut(res: array<char>, w: Word, k: nat)
    requires k < |w| == res.Length
    modifies res
    ensures res[..|w| - 1] == Drop1(w, k)
  {
    StrNCpy(res, 0, w, 0, k);
    StrNCpy(res, k, w, k + 1, |w| - k - 1);
  }

  /** The loop over one deleted position. */
  method DeleteOne(w: Word) returns (out: seq<Word>, ghost ps: seq<seq<nat>>)
    requires |w| >= 1
    ensures forall v :: v in out <==> Dropped(v, w, 1)
    ensures AllPositions(ps, |w|, 1) && DroppedAt(out, w, ps)
  {
    hide Drop, DroppedAt, Dropped, Chosen;
    var n := |w|;
    var res := new char[n];
    res[n - 1] := NUL;
    out, ps := [], [];
    NothingChosen(w, q => Singles(q, 0));
    for k := 0 to n
      invariant DroppedAt(out, w, ps) && Chosen(ps, q => Singles(q, k))
    {
      LeaveOut(res, w, k);
      DropIsDrop1(w, k);
      OneMoreDropped(out, w, ps, Drop1(w, k), [k]);
      OneMoreChosen(ps, q => Singles(q, k), [k], q => Singles(q, k + 1));
      out, ps := out + [res[..n - 1]], ps + [[k]];
    }
    ChosenAll(ps, q => Singles(q, n), n, 1);
    AllDropped(out, w, ps, 1);
  }

  lemma NothingChosen(w: Word, these: seq<nat> -> bool)
    requires forall q :: !these(q)
    ensures DroppedAt([], w, []) && Chosen([], these)
  {
  }

  lemma ChosenAll(ps: seq<seq<nat>>, these: seq<nat> -> bool, n: nat, c: nat)
    requires Chosen(ps, these) && forall q :: these(q) <==> Positions(q, n) && |q| == c
    ensures AllPositions(ps, n, c)
  {
  }

  lemma SameChosen(ps: seq<seq<nat>>, these: seq<nat> -> bool, those: seq<nat> -> bool)
    requires Chosen(ps, these) && forall q :: these(q) <==> those(q)
    ensures Chosen(ps, those)
  {
  }

  /** The first position below `j`, or `j` itself and the second below `k`. */
  predicate Pairs(q: seq<nat>, n: nat, j: nat, k: nat) {
    |q| == 2 && q[0] < q[1] < n && (q[0] < j || (q[0] == j && q[1] < k))
  }

  /** The inner loop over two deleted positions: it leaves the buffer as the outer loop filled it. */
  method DeleteSecond(w: Word, j: nat, res: array<char>, out0: seq<Word>, ghost ps0: seq<seq<nat>>)
    returns (out: seq<Word>, ghost ps: seq<seq<nat>>)
    requires j + 1 < |w| && res.Length == |w| - 1 && res[..j] == w[..j]
    requires DroppedAt(out0, w, ps0) && Chosen(ps0, q => Pairs(q, |w|, j, 0))
    modifies res
    ensures DroppedAt(out, w, ps) && Chosen(ps, q => Pairs(q, |w|, j + 1, 0))
  {
    hide Drop, DroppedAt, Chosen;
    out, ps := out0, ps0;
    SameChosen(ps, q => Pairs(q, |w|, j, 0), q => Pairs(q, |w|, j, j + 1));
    for k := j + 1 to |w|
      invariant res[..j] == w[..j]
      invariant DroppedAt(out, w, ps) && Chosen(ps, q => Pairs(q, |w|, j, k))
    {
      FillGap(res, w[..j], w, j, k);
      assert res[..|w| - 2] == Drop2(w, j, k);
      DropIsDrop2(w, j, k);
      OneMoreDropped(out, w, ps, Drop2(w, j, k), [j, k]);
      OneMoreChosen(ps, q => Pairs(q, |w|, j, k), [j, k], q => Pairs(q, |w|, j, k + 1));
      out, ps := out + [res[..|w| - 2]], ps + [[j, k]];
    }
    SameChosen(ps, q => Pairs(q, |w|, j, |w|), q => Pairs(q, |w|, j + 1, 0));
  }

  method DeleteTwo(w: Word) returns (out: seq<Word>, ghost ps: seq<seq<nat>>)
    requires |w| >= 2
    ensures forall v :: v in out <==> Dropped(v, w, 2)
    ensures AllPositions(ps, |w|, 2) && DroppedAt(out, w, ps)
  {
    hide Drop, DroppedAt, Chosen, Dropped;
    var n := |w|;
    var res := new char[n - 1];
    res[n - 2] := NUL;
    out, ps := [], [];
    NothingChosen(w, q => Pairs(q, n, 0, 0));
    for j := 0 to n - 1
      invariant DroppedAt(out, w, ps) && Chosen(ps, q => Pairs(q, n, j, 0))
    {
      StrNCpy(res, 0, w, 0, j);
      out, ps := DeleteSecond(w, j, res, out, ps);
    }
    ChosenAll(ps, q => Pairs(q, n, n - 1, 0), n, 2);
    AllDropped(out, w, ps, 2);
  }

  /** The first position below `i`, or `i` itself and the second below `j`, or that itself and the third below `k`. */
  predicate Triples(q: seq<nat>, n: nat, i: nat, j: nat, k: nat) {
    && |q| == 3 && q[0] < q[1] < q[2] < n
    && (q[0] < i || (q[0] == i && (q[1] < j || (q[1] == j && q[2] < k))))
  }

  method DeleteThird(w: Word, i: nat, j: nat, res: array<char>, out0: seq<Word>, ghost ps0: seq<seq<nat>>)
    returns (out: seq<Word>, ghost ps: seq<seq<nat>>)
    requires i < j < |w| - 1 && res.Length == |w| - 2 && res[..j - 1] == w[..i] + w[i + 1..j]
    requires DroppedAt(out0, w, ps0) && Chosen(ps0, q => Triples(q, |w|, i, j, 0))
    modifies res
    ensures res[..j - 1] == w[..i] + w[i + 1..j]
    ensures DroppedAt(out, w, ps) && Chosen(ps, q => Triples(q, |w|, i, j + 1, 0))
  {
    hide Drop, DroppedAt, Chosen;
    out, ps := out0, ps0;
    var head := w[..i] + w[i + 1..j];
    SameChosen(ps, q => Triples(q, |w|, i, j, 0), q => Triples(q, |w|, i, j, j + 1));
    for k := j + 1 to |w|
      invariant res[..j - 1] == head
      invariant DroppedAt(out, w, ps) && Chosen(ps, q => Triples(q, |w|, i, j, k))
    {
      FillGap(res, head, w, j, k);
      assert res[..|w| - 3] == Drop3(w, i, j, k);
      DropIsDrop3(w, i, j, k);
      OneMoreDropped(out, w, ps, Drop3(w, i, j, k), [i, j, k]);
      OneMoreChosen(ps, q => Triples(q, |w|, i, j, k), [i, j, k], q => Triples(q, |w|, i, j, k + 1));
      out, ps := out + [res[..|w| - 3]], ps + [[i, j, k]];
    }
    SameChosen(ps, q => Triples(q, |w|, i, j, |w|), q => Triples(q, |w|, i, j + 1, 0));
  }

  method DeleteSecondAndThird(w: Word, i: nat, res: array<char>, out0: seq<Word>, ghost ps0: seq<seq<nat>>)
    returns (out: seq<Word>, ghost ps: seq<seq<nat>>)
    requires i < |w| - 2 && res.Length == |w| - 2 && res[..i] == w[..i]
    requires DroppedAt(out0, w, ps0) && Chosen(ps0, q => Triples(q, |w|, i, 0, 0))
    modifies res
    ensures DroppedAt(out, w, ps) && Chosen(ps, q => Triples(q, |w|, i + 1, 0, 0))
  {
    hide Drop, DroppedAt, Chosen;
    out, ps := out0, ps0;
    SameChosen(ps, q => Triples(q, |w|, i, 0, 0), q => Triples(q, |w|, i, i + 1, 0));
    for j := i + 1 to |w| - 1
      invariant res[..i] == w[..i]
      invariant DroppedAt(out, w, ps) && Chosen(ps, q => Triples(q, |w|, i, j, 0))
    {
      StrNCpy(res, i, w, i + 1, j - i - 1);
      assert res[..j - 1] == w[..i] + w[i + 1..j];
      out, ps := DeleteThird(w, i, j, res, out, ps);
      assert res[..i] == res[..j - 1][..i];
    }
    SameChosen(ps, q => Triples(q, |w|, i, |w| - 1, 0), q => Triples(q, |w|, i + 1, 0, 0));
  }

  method DeleteThree(w: Word) returns (out: seq<Word>, ghost ps: seq<seq<nat>>)
    requires |w| >= 3
    ensures forall v :: v in out <==> Dropped(v, w, 3)
    ensures AllPositions(ps, |w|, 3) && DroppedAt(out, w, ps)
  {
    hide Drop, DroppedAt, Chosen, Dropped;
    var n := |w|;
    var res := new char[n - 2];
    res[n - 3] := NUL;
    out, ps := [], [];
    NothingChosen(w, q => Triples(q, n, 0, 0, 0));
    for i := 0 to n - 2
      invariant DroppedAt(out, w, ps) && Chosen(ps, q => Triples(q, n, i, 0, 0))
    {
      StrNCpy(res, 0, w, 0, i);
      out, ps := DeleteSecondAndThird(w, i, res, out, ps);
    }
    ChosenAll(ps, q => Triples(q, n, n - 2, 0, 0), n, 3);
    AllDropped(out, w, ps, 3);
  }

  /** Every word with `c` characters dropped, once for each choice of the positions. */
  method DeleteCount(w: Word, c: nat) returns (out: seq<Word>, ghost ps: seq<seq<nat>>)
    requires c <= 3 && |w| >= 3
    ensures forall v :: v in out <==> Dropped(v, w, c)
    ensures AllPositions(ps, |w|, c) && DroppedAt(out, w, ps)
  {
    if c == 3 {
      out, ps := DeleteThree(w);
    } else if c == 2 {
      out, ps := DeleteTwo(w);
    } else if c == 1 {
      out, ps := DeleteOne(w);
    } else {
      out, ps := [w], [[]];
      AllDropped(out, w, ps, 0);
    }
  }
}
