/** Triangular probing modulo a power of two, and why it visits every bucket. */
module Probing {

  function Pow2(m: nat): (n: nat)
    ensures n > 0
  {
    if m == 0 then 1 else 2 * Pow2(m - 1)
  }

  ghost predicate IsPow2(n: nat) {
    exists m: nat :: n == Pow2(m)
  }

  /** Sum of the first `p` jumps: 1, 2, 3 and so on. */
  function Tri(p: nat): nat {
    if p == 0 then 0 else Tri(p - 1) + p
  }

  /** Bucket number `p` on the probe sequence of hash value `h` in a table of `n` buckets. */
  function Probe(h: nat, p: nat, n: nat): (b: nat)
    requires n > 0
    ensures b < n
  {
    (h + Tri(p)) % n
  }

  lemma TimesAtLeast(n: nat, d: int)
    ensures d >= 1 ==> n * d >= n
    ensures d <= 0 ==> n * d <= 0
  {
    if d >= 1 {
      assert n * d == n + n * (d - 1);
    }
  }

  lemma Distribute(n: int, q: int, q': int)
    ensures n * q - n * q' == n * (q - q')
  {
  }

  lemma UniqueQuotient(n: nat, q: int, r: int, q': int, r': int)
    requires n * q + r == n * q' + r' && 0 <= r < n && 0 <= r' < n
    ensures q == q' && r == r'
  {
    Distribute(n, q, q');
    Distribute(n, q', q);
    TimesAtLeast(n, q - q');
    TimesAtLeast(n, q' - q);
  }

  lemma DivMod(n: nat, x: int)
    requires n > 0
    ensures x == n * (x / n) + x % n && 0 <= x % n < n
  {
  }

  lemma ModShift(n: nat, q: int, z: int)
    requires n > 0
    ensures (n * q + z) % n == z % n
  {
    var x := n * q + z;
    DivMod(n, x);
    DivMod(n, z);
    Distribute(n, q, -(z / n));
    UniqueQuotient(n, x / n, x % n, q + z / n, z % n);
  }

  /** One turn of the probe loop: the next jump is added to the bucket number, not to the hash value. */
  lemma NextProbe(h: nat, p: nat, n: nat)
    requires n > 0
    ensures Probe(h, 0, n) == h % n
    ensures (Probe(h, p, n) + (p + 1)) % n == Probe(h, p + 1, n)
  {
    var x := h + Tri(p);
    assert x == n * (x / n) + x % n;
    ModShift(n, x / n, x % n + (p + 1));
  }

  lemma {:induction false} TriFormula(p: nat)
    ensures 2 * Tri(p) == p * (p + 1)
    decreases p
  {
    if p > 0 {
      TriFormula(p - 1);
    }
  }

  /** If a power of two divides a product with one odd factor, it divides the other. */
  lemma {:induction false} OddFactor(k: nat, a: int, b: int, c: int) returns (d: int)
    requires a % 2 == 1 && a * b == Pow2(k) * c
    ensures b == Pow2(k) * d
    decreases k
  {
    if k == 0 {
      d := b;
    } else {
      var a' := a / 2;
      var c' := Pow2(k - 1) * c;
      assert a == 2 * a' + 1;
      assert a * b == 2 * (a' * b) + b;
      assert a * b == 2 * c';
      var b' := c' - a' * b;
      assert b == 2 * b';
      assert a * b == 2 * (a * b');
      d := OddFactor(k - 1, a, b', c);
    }
  }

  lemma NotMultiple(n: nat, b: int, d: int)
    requires 0 < b < n
    ensures b != n * d
  {
    TimesAtLeast(n, d);
  }

  lemma Factor(p: int, q: int)
    ensures (q - p) * (q + p + 1) == q * (q + 1) - p * (p + 1)
    ensures (q + p + 1) * (q - p) == q * (q + 1) - p * (p + 1)
  {
  }

  lemma TwiceTri(p: nat, q: nat)
    ensures (q - p) * (q + p + 1) == 2 * (Tri(q) - Tri(p))
  {
    TriFormula(p);
    TriFormula(q);
    Factor(p, q);
  }

  /** The difference of two triangular numbers below `2^m` is not a multiple of `2^m`. */
  lemma TriDiffer(m: nat, p: nat, q: nat, c: int)
    requires p < q < Pow2(m)
    ensures Tri(q) - Tri(p) != Pow2(m) * c
  {
    TwiceTri(p, q);
    Parity(p, q);
    NotDivisible(m, q - p, q + p + 1, Tri(q) - Tri(p), c);
  }

  lemma TwiceTimes(n: int, c: int)
    ensures (2 * n) * c == 2 * (n * c)
  {
  }

  lemma Parity(p: nat, q: nat)
    requires p <= q
    ensures (q - p) % 2 == 1 || (q + p + 1) % 2 == 1
  {
    assert (q - p) + (q + p + 1) == 2 * q + 1;
  }

  lemma NotDivisible(m: nat, a: nat, b: nat, x: int, c: int)
    requires 0 < a < 2 * Pow2(m) && 0 < b < 2 * Pow2(m) && (a % 2 == 1 || b % 2 == 1)
    requires a * b == 2 * x
    ensures x != Pow2(m) * c
  {
    if x == Pow2(m) * c {
      TwiceTimes(Pow2(m), c);
      if a % 2 == 1 {
        var d := OddFactor(m + 1, a, b, c);
        NotMultiple(Pow2(m + 1), b, d);
      } else {
        var d := OddFactor(m + 1, b, a, c);
        NotMultiple(Pow2(m + 1), a, d);
      }
    }
  }

  /** The first `2^m` probes all land on different buckets. */
  lemma ProbesDiffer(h: nat, m: nat, p: nat, q: nat)
    requires p < q < Pow2(m)
    ensures Probe(h, p, Pow2(m)) != Probe(h, q, Pow2(m))
  {
    var n := Pow2(m);
    var x, y := h + Tri(p), h + Tri(q);
    DivMod(n, x);
    DivMod(n, y);
    Distribute(n, y / n, x / n);
    TriDiffer(m, p, q, y / n - x / n);
  }

  // ----- as many different buckets as there are -----

  ghost function Visited(h: nat, n: nat, k: nat): set<nat>
    requires n > 0
  {
    set p: nat | p < k :: Probe(h, p, n)
  }

  ghost function Below(n: nat): (s: set<nat>)
    ensures forall b: nat :: b in s <==> b < n
  {
    if n == 0 then {} else Below(n - 1) + {n - 1}
  }

  lemma {:induction false} BelowSize(n: nat)
    ensures |Below(n)| == n
    decreases n
  {
    if n > 0 {
      BelowSize(n - 1);
    }
  }

  lemma {:induction false} VisitedSize(h: nat, m: nat, k: nat)
    requires k <= Pow2(m)
    ensures |Visited(h, Pow2(m), k)| == k
    decreases k
  {
    var n := Pow2(m);
    if k > 0 {
      VisitedSize(h, m, k - 1);
      forall p: nat | p < k - 1 ensures Probe(h, p, n) != Probe(h, k - 1, n) {
        ProbesDiffer(h, m, p, k - 1);
      }
      assert Visited(h, n, k) == Visited(h, n, k - 1) + {Probe(h, k - 1, n)};
    } else {
      assert Visited(h, n, 0) == {};
    }
  }

  lemma SubsetOfSameSize(a: set<nat>, b: set<nat>)
    requires a <= b && |a| == |b|
    ensures a == b
  {
    assert |b| == |a| + |b - a| by {
      assert b == a + (b - a);
    }
    assert |b - a| == 0;
    assert b - a == {};
  }

  /** Every bucket is met within the first `n` probes, from every hash value. */
  lemma VisitsEveryBucket(h: nat, n: nat, b: nat) returns (p: nat)
    requires IsPow2(n) && b < n
    ensures p < n && Probe(h, p, n) == b
  {
    var m: nat :| n == Pow2(m);
    VisitedSize(h, m, n);
    BelowSize(n);
    SubsetOfSameSize(Visited(h, n, n), Below(n));
    assert b in Visited(h, n, n);
    p :| p < n && Probe(h, p, n) == b;
  }
}
