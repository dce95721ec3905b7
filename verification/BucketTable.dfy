/** An open-addressing table as a value: what its buckets say, and what setting one bucket does to that. */
module BucketTable {
  import opened Probing

  datatype Bucket<K, V> = Bucket(key: K, value: V)

  /** The hash function and the two keys that mark buckets never used and buckets whose element was erased. */
  datatype Keys<!K> = Keys(hash: K -> nat, empty: K, deleted: K)

  predicate IsKey<K(==)>(ks: Keys<K>, k: K) {
    k != ks.empty && k != ks.deleted
  }

  /** The first `p` probes for `k` meet no unused bucket. */
  ghost predicate Clear<K, V>(s: seq<Bucket<K, V>>, ks: Keys<K>, k: K, p: nat)
    requires |s| > 0
  {
    forall x: nat | x < p :: s[Probe(ks.hash(k), x, |s|)].key != ks.empty
  }

  /** The search for `k` gets as far as bucket `b`. */
  ghost predicate Reaches<K, V>(s: seq<Bucket<K, V>>, ks: Keys<K>, k: K, b: nat)
    requires |s| > 0
  {
    exists p: nat :: p < |s| && Probe(ks.hash(k), p, |s|) == b && Clear(s, ks, k, p)
  }

  /** The first `p` probes for `k` all meet stored keys. */
  ghost predicate KeysUpTo<K, V>(s: seq<Bucket<K, V>>, ks: Keys<K>, k: K, p: nat)
    requires |s| > 0
  {
    forall x: nat | x < p :: IsKey(ks, s[Probe(ks.hash(k), x, |s|)].key)
  }

  /** Bucket `b` is the first that the search for `k` meets without a stored key, erased or never used. */
  ghost predicate FirstFree<K, V>(s: seq<Bucket<K, V>>, ks: Keys<K>, k: K, b: nat)
    requires |s| > 0
  {
    b < |s| && !IsKey(ks, s[b].key) && exists p: nat :: Probe(ks.hash(k), p, |s|) == b && KeysUpTo(s, ks, k, p)
  }

  /** Bucket `b` holds what `contents` says of its key, where a search for that key finds it. */
  ghost predicate BucketOk<K, V>(s: seq<Bucket<K, V>>, ks: Keys<K>, contents: map<K, V>, b: nat)
    requires b < |s|
  {
    var e := s[b];
    IsKey(ks, e.key) ==> e.key in contents && contents[e.key] == e.value && Reaches(s, ks, e.key, b)
  }

  /** The table stands for the map `contents`. */
  ghost predicate Holds<K, V>(s: seq<Bucket<K, V>>, ks: Keys<K>, contents: map<K, V>) {
    && IsPow2(|s|) && ks.empty != ks.deleted
    && (forall b: nat | b < |s| :: BucketOk(s, ks, contents, b))
    && (forall b: nat, b': nat | b < b' < |s| && IsKey(ks, s[b].key) :: s[b].key != s[b'].key)
    && (forall k <- contents :: IsKey(ks, k) && exists b: nat :: b < |s| && s[b].key == k)
  }

  // ----- counting buckets -----

  function Count<K(==), V>(s: seq<Bucket<K, V>>, k: K): nat {
    if s == [] then 0 else Count(s[..|s| - 1], k) + (if s[|s| - 1].key == k then 1 else 0)
  }

  lemma {:induction false} CountUpdate<K, V>(s: seq<Bucket<K, V>>, k: K, b: nat, e: Bucket<K, V>)
    requires b < |s|
    ensures Count(s[b := e], k) == Count(s, k) - (if s[b].key == k then 1 else 0) + (if e.key == k then 1 else 0)
    decreases |s|
  {
    var n := |s| - 1;
    if b < n {
      CountUpdate(s[..n], k, b, e);
      assert s[b := e][..n] == s[..n][b := e];
    } else {
      assert s[b := e][..n] == s[..n];
    }
  }

  lemma {:induction false} CountPositive<K, V>(s: seq<Bucket<K, V>>, b: nat)
    requires b < |s|
    ensures Count(s, s[b].key) > 0
    decreases |s|
  {
    if b < |s| - 1 {
      CountPositive(s[..|s| - 1], b);
    }
  }

  lemma {:induction false} CountSome<K, V>(s: seq<Bucket<K, V>>, k: K) returns (b: nat)
    requires Count(s, k) > 0
    ensures b < |s| && s[b].key == k
    decreases |s|
  {
    if s[|s| - 1].key == k {
      b := |s| - 1;
    } else {
      b := CountSome(s[..|s| - 1], k);
    }
  }

  lemma {:induction false} CountAll<K, V>(s: seq<Bucket<K, V>>, k: K, all: bool)
    requires forall b: nat | b < |s| :: s[b].key == k <==> all
    ensures Count(s, k) == if all then |s| else 0
    decreases |s|
  {
    if s != [] {
      CountAll(s[..|s| - 1], k, all);
    }
  }

  // ----- one bucket changes -----

  /** Using a bucket never cuts a search short. */
  lemma ReachesStays<K, V>(s: seq<Bucket<K, V>>, ks: Keys<K>, k: K, b: nat, at: nat, e: Bucket<K, V>)
    requires at < |s| && e.key != ks.empty && Reaches(s, ks, k, b)
    ensures Reaches(s[at := e], ks, k, b)
  {
    var p: nat :| p < |s| && Probe(ks.hash(k), p, |s|) == b && Clear(s, ks, k, p);
    assert Clear(s[at := e], ks, k, p);
  }

  /** A new key goes into an unused or erased bucket that its search gets to. */
  lemma InsertHolds<K, V>(s: seq<Bucket<K, V>>, ks: Keys<K>, contents: map<K, V>, k: K, v: V, at: nat)
    requires Holds(s, ks, contents) && IsKey(ks, k) && k !in contents
    requires at < |s| && !IsKey(ks, s[at].key) && Reaches(s, ks, k, at)
    ensures Holds(s[at := Bucket(k, v)], ks, contents[k := v])
  {
    var e := Bucket(k, v);
    var s', contents' := s[at := e], contents[k := v];
    ReachesStays(s, ks, k, at, at, e);
    forall b: nat | b < |s'| ensures BucketOk(s', ks, contents', b) {
      if b != at && IsKey(ks, s[b].key) {
        assert BucketOk(s, ks, contents, b);
        ReachesStays(s, ks, s[b].key, b, at, e);
      }
    }
    forall b: nat | b < |s'| && b != at ensures s'[b].key != k {
      assert BucketOk(s, ks, contents, b);
    }
    forall x | x in contents' ensures IsKey(ks, x) && exists b: nat :: b < |s'| && s'[b].key == x {
      if x == k {
        assert s'[at].key == k;
      } else {
        var b: nat :| b < |s| && s[b].key == x;
        assert s'[b].key == x;
      }
    }
  }

  /** Marking a bucket as erased takes its key out and leaves every other key where its search finds it. */
  lemma EraseHolds<K, V>(s: seq<Bucket<K, V>>, ks: Keys<K>, contents: map<K, V>, at: nat)
    requires Holds(s, ks, contents) && at < |s| && IsKey(ks, s[at].key)
    ensures s[at].key in contents && ks.empty != ks.deleted
    ensures Holds(s[at := s[at].(key := ks.deleted)], ks, contents - {s[at].key})
  {
    var e := s[at].(key := ks.deleted);
    var s', contents' := s[at := e], contents - {s[at].key};
    assert BucketOk(s, ks, contents, at);
    forall b: nat | b < |s'| ensures BucketOk(s', ks, contents', b) {
      if b != at && IsKey(ks, s[b].key) {
        assert BucketOk(s, ks, contents, b);
        ReachesStays(s, ks, s[b].key, b, at, e);
      }
    }
    forall x | x in contents' ensures IsKey(ks, x) && exists b: nat :: b < |s'| && s'[b].key == x {
      var b: nat :| b < |s| && s[b].key == x;
      assert s'[b].key == x;
    }
  }

  lemma InsertCounts<K, V>(s: seq<Bucket<K, V>>, ks: Keys<K>, contents: map<K, V>, k: K, v: V, at: nat)
    requires IsKey(ks, k) && k !in contents && at < |s| && !IsKey(ks, s[at].key) && ks.empty != ks.deleted
    ensures var s' := s[at := Bucket(k, v)];
            if s[at].key == ks.deleted then Count(s', ks.empty) == Count(s, ks.empty)
                && Count(s', ks.deleted) == Count(s, ks.deleted) - 1
            else Count(s', ks.empty) == Count(s, ks.empty) - 1 && Count(s', ks.deleted) == Count(s, ks.deleted)
    ensures Count(s, s[at].key) > 0 && |contents[k := v]| == |contents| + 1
  {
    CountPositive(s, at);
    CountUpdate(s, ks.empty, at, Bucket(k, v));
    CountUpdate(s, ks.deleted, at, Bucket(k, v));
  }

  lemma EraseCounts<K, V>(s: seq<Bucket<K, V>>, ks: Keys<K>, contents: map<K, V>, at: nat)
    requires at < |s| && IsKey(ks, s[at].key) && s[at].key in contents && ks.empty != ks.deleted
    ensures var s' := s[at := s[at].(key := ks.deleted)];
            Count(s', ks.empty) == Count(s, ks.empty) && Count(s', ks.deleted) == Count(s, ks.deleted) + 1
    ensures |contents - {s[at].key}| == |contents| - 1
  {
    var e := s[at].(key := ks.deleted);
    CountUpdate(s, ks.empty, at, e);
    CountUpdate(s, ks.deleted, at, e);
    assert (contents - {s[at].key}).Keys == contents.Keys - {s[at].key};
  }

  /** `copied` is what the first `i` buckets hold. */
  ghost predicate PartOf<K, V>(s: seq<Bucket<K, V>>, ks: Keys<K>, contents: map<K, V>, copied: map<K, V>, i: nat) {
    && (forall k <- copied :: k in contents && copied[k] == contents[k])
    && (forall b: nat | b < |s| && IsKey(ks, s[b].key) :: s[b].key in copied <==> b < i)
  }

  lemma PartStep<K, V>(s: seq<Bucket<K, V>>, ks: Keys<K>, contents: map<K, V>, copied: map<K, V>, i: nat)
    requires Holds(s, ks, contents) && PartOf(s, ks, contents, copied, i) && i < |s|
    ensures IsKey(ks, s[i].key) ==>
            s[i].key !in copied && PartOf(s, ks, contents, copied[s[i].key := s[i].value], i + 1)
    ensures IsKey(ks, s[i].key) ==> |copied[s[i].key := s[i].value]| == |copied| + 1 <= |contents|
    ensures !IsKey(ks, s[i].key) ==> PartOf(s, ks, contents, copied, i + 1)
  {
    assert BucketOk(s, ks, contents, i);
    if IsKey(ks, s[i].key) {
      PartMore(s, ks, contents, copied, i);
      SmallerMap(copied[s[i].key := s[i].value], contents);
    }
  }

  lemma PartMore<K, V>(s: seq<Bucket<K, V>>, ks: Keys<K>, contents: map<K, V>, copied: map<K, V>, i: nat)
    requires PartOf(s, ks, contents, copied, i) && i < |s| && IsKey(ks, s[i].key)
    requires forall b: nat | b < |s| && s[b].key == s[i].key :: b == i
    requires s[i].key in contents && contents[s[i].key] == s[i].value
    ensures PartOf(s, ks, contents, copied[s[i].key := s[i].value], i + 1)
  {
  }

  lemma PartDone<K, V>(s: seq<Bucket<K, V>>, ks: Keys<K>, contents: map<K, V>, copied: map<K, V>)
    requires Holds(s, ks, contents) && PartOf(s, ks, contents, copied, |s|)
    ensures copied == contents
  {
    forall k | k in contents ensures k in copied {
      var b: nat :| b < |s| && s[b].key == k;
    }
  }

  /** If the search for `k` meets an unused bucket without having met `k`, then `k` is not stored. */
  lemma NotStored<K, V>(s: seq<Bucket<K, V>>, ks: Keys<K>, contents: map<K, V>, k: K, p: nat)
    requires Holds(s, ks, contents) && p < |s|
    requires s[Probe(ks.hash(k), p, |s|)].key == ks.empty
    requires forall x: nat | x < p :: s[Probe(ks.hash(k), x, |s|)].key != k
    ensures k !in contents
  {
    forall q: nat | Clear(s, ks, k, q)
      ensures q <= p
    {
    }
    assert forall b: nat | b < |s| && Reaches(s, ks, k, b) :: s[b].key != k || s[b].key == ks.empty;
    assert forall b: nat | b < |s| && BucketOk(s, ks, contents, b) ::
        IsKey(ks, s[b].key) ==> Reaches(s, ks, s[b].key, b);
  }

  /** An unused bucket is met by every search sooner or later. */
  lemma SearchEnds<K, V>(s: seq<Bucket<K, V>>, ks: Keys<K>, k: K) returns (p: nat)
    requires IsPow2(|s|) && Count(s, ks.empty) > 0
    ensures p < |s| && s[Probe(ks.hash(k), p, |s|)].key == ks.empty
  {
    var b := CountSome(s, ks.empty);
    p := VisitsEveryBucket(ks.hash(k), |s|, b);
  }

  lemma EmptyHolds<K, V>(s: seq<Bucket<K, V>>, ks: Keys<K>)
    requires IsPow2(|s|) && ks.empty != ks.deleted
    requires forall b: nat | b < |s| :: s[b].key == ks.empty
    ensures Holds(s, ks, map[])
    ensures Count(s, ks.empty) == |s| && Count(s, ks.deleted) == 0
  {
    CountAll(s, ks.empty, true);
    CountAll(s, ks.deleted, false);
  }

  // ----- copying -----

  /** Bucket `b` is unused and the first such that the search for `k` meets. */
  ghost predicate FirstUnused<K, V>(s: seq<Bucket<K, V>>, ks: Keys<K>, k: K, b: nat) {
    b < |s| && s[b].key == ks.empty && Reaches(s, ks, k, b)
  }

  lemma FirstUnusedUnique<K, V>(s: seq<Bucket<K, V>>, ks: Keys<K>, k: K, b: nat, b': nat)
    requires FirstUnused(s, ks, k, b) && FirstUnused(s, ks, k, b')
    ensures b == b'
  {
    var p: nat :| p < |s| && Probe(ks.hash(k), p, |s|) == b && Clear(s, ks, k, p);
    var q: nat :| q < |s| && Probe(ks.hash(k), q, |s|) == b' && Clear(s, ks, k, q);
    assert p == q;
  }

  /** The table with an element in the unused bucket that its search meets first. */
  ghost function Placed<K, V>(s: seq<Bucket<K, V>>, ks: Keys<K>, e: Bucket<K, V>): (s': seq<Bucket<K, V>>)
    ensures |s'| == |s|
  {
    if b: nat :| FirstUnused(s, ks, e.key, b) then s[b := e] else s
  }

  lemma PlacedThere<K, V>(s: seq<Bucket<K, V>>, ks: Keys<K>, e: Bucket<K, V>, b: nat)
    requires FirstUnused(s, ks, e.key, b)
    ensures Placed(s, ks, e) == s[b := e]
  {
    var b': nat :| FirstUnused(s, ks, e.key, b') && Placed(s, ks, e) == s[b' := e];
    FirstUnusedUnique(s, ks, e.key, b, b');
  }

  /** The table with the stored keys among the first `n` buckets of `s` placed one after the other. */
  ghost function CopyOf<K, V>(start: seq<Bucket<K, V>>, ks: Keys<K>, s: seq<Bucket<K, V>>, n: nat): seq<Bucket<K, V>>
    requires n <= |s|
    decreases n
  {
    if n == 0 then start
    else
      var before := CopyOf(start, ks, s, n - 1);
      if IsKey(ks, s[n - 1].key) then Placed(before, ks, s[n - 1]) else before
  }

  lemma SmallerMap<K, V>(a: map<K, V>, b: map<K, V>)
    requires a.Keys <= b.Keys
    ensures |a| <= |b|
  {
    SmallerSet(a.Keys, b.Keys);
  }

  lemma SmallerSet<K>(a: set<K>, b: set<K>)
    requires a <= b
    ensures |a| <= |b|
  {
    assert b == a + (b - a);
  }
}
