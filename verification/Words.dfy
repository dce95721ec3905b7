/** Words as the matcher sees them: the characters of a C string before its terminator. */
module Words {

  type Word = seq<char>

  /** The byte that ends every stored word; no word contains it. */
  const NUL: char := '\0'

  /** What `w[i]` reads in the source: a character, or the terminator just past the end. */
  function At(w: Word, i: nat): char
    requires i <= |w|
  {
    if i < |w| then w[i] else NUL
  }

  function Min(x: int, y: int): int {
    if x > y then y else x
  }

  function Min3(x: nat, y: nat, z: nat): nat {
    if x <= y && x <= z then x else if y <= z then y else z
  }

  /** The C value of the comparison `a != b`. */
  function Neq(a: char, b: char): nat {
    if a == b then 0 else 1
  }

  /** The C value of the comparison `a == b`. */
  function Eq(a: char, b: char): nat {
    if a == b then 1 else 0
  }

  /** Number of positions in `[lo, hi)` where `s` and `t` differ. */
  function Mismatches(s: Word, t: Word, lo: nat, hi: nat): nat
    requires hi <= |s| && hi <= |t|
    decreases hi
  {
    if hi <= lo then 0 else Mismatches(s, t, lo, hi - 1) + Neq(s[hi - 1], t[hi - 1])
  }

  /** Hamming distance of two words of equal length. */
  function Hamming(s: Word, t: Word): nat
    requires |s| == |t|
  {
    Mismatches(s, t, 0, |s|)
  }

  /** The first `hi` positions at which two words differ. */
  ghost function Differing(s: Word, t: Word, hi: nat): set<nat>
    requires hi <= |s| && hi <= |t|
  {
    set x: nat | x < hi && s[x] != t[x]
  }

  lemma {:induction false} MismatchesAre(s: Word, t: Word, hi: nat)
    requires hi <= |s| && hi <= |t|
    ensures Mismatches(s, t, 0, hi) == |Differing(s, t, hi)|
    decreases hi
  {
    if hi > 0 {
      MismatchesAre(s, t, hi - 1);
      assert Differing(s, t, hi) == Differing(s, t, hi - 1) + if s[hi - 1] == t[hi - 1] then {} else {hi - 1};
    }
  }

  lemma {:induction false} MismatchesSplit(s: Word, t: Word, lo: nat, mid: nat, hi: nat)
    requires lo <= mid <= hi <= |s| && hi <= |t|
    ensures Mismatches(s, t, lo, hi) == Mismatches(s, t, lo, mid) + Mismatches(s, t, mid, hi)
    decreases hi
  {
    if mid < hi {
      MismatchesSplit(s, t, lo, mid, hi - 1);
    }
  }

  lemma {:induction false} MismatchesSym(s: Word, t: Word, lo: nat, hi: nat)
    requires hi <= |s| && hi <= |t|
    ensures Mismatches(s, t, lo, hi) == Mismatches(t, s, lo, hi)
    decreases hi
  {
    if lo < hi {
      MismatchesSym(s, t, lo, hi - 1);
    }
  }

  /** No mismatch in a range means the characters agree throughout it. */
  lemma {:induction false} NoMismatch(s: Word, t: Word, lo: nat, hi: nat)
    requires hi <= |s| && hi <= |t|
    ensures Mismatches(s, t, lo, hi) == 0 <==> forall x :: lo <= x < hi ==> s[x] == t[x]
    decreases hi
  {
    if lo < hi {
      NoMismatch(s, t, lo, hi - 1);
    }
  }

  lemma HammingZero(s: Word, t: Word)
    requires |s| == |t|
    ensures Hamming(s, t) == 0 <==> s == t
  {
    NoMismatch(s, t, 0, |s|);
  }
}
