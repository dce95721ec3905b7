/** `dense_hashtable`: open addressing with tombstones, growing and shrinking, as a finite map. */
module DenseHashtable {
  import opened Probing
  import opened BucketTable

  const HT_OCCUPANCY_PCT := 70
  const HT_EMPTY_PCT := 28
  const HT_MIN_BUCKETS := 4
  const HT_DEFAULT_STARTING_BUCKETS := 2048
  const ILLEGAL_BUCKET := -1

  function EnlargeSize(n: nat): nat {
    n * HT_OCCUPANCY_PCT / 100
  }

  function ShrinkSize(n: nat): nat {
    n * HT_EMPTY_PCT / 100
  }

  /** A table of the default size grows beyond 1433 elements; one of twice the size shrinks below 1146. */
  lemma DefaultThresholds()
    ensures EnlargeSize(HT_DEFAULT_STARTING_BUCKETS) == 1433 && ShrinkSize(2 * HT_DEFAULT_STARTING_BUCKETS) == 1146
  {
  }

  lemma Doubled(n: nat)
    requires IsPow2(n)
    ensures IsPow2(2 * n)
  {
    var m: nat :| n == Pow2(m);
    assert 2 * n == Pow2(m + 1);
  }

  lemma StartingBuckets()
    ensures IsPow2(HT_DEFAULT_STARTING_BUCKETS)
  {
    assert Pow2(11) == 2048 by {
      assert Pow2(6) == 64;
      assert Pow2(11) == 32 * Pow2(6);
    }
  }

  lemma Halved(n: nat)
    requires IsPow2(n) && n > HT_DEFAULT_STARTING_BUCKETS
    ensures IsPow2(n / 2) && HT_DEFAULT_STARTING_BUCKETS <= n / 2
  {
    var m: nat :| n == Pow2(m);
    assert n / 2 == Pow2(m - 1);
    StartingBuckets();
    NextPowerIsDouble(HT_DEFAULT_STARTING_BUCKETS, n);
  }

  lemma {:induction false} PowersGrow(k: nat, m: nat)
    requires k < m
    ensures 2 * Pow2(k) <= Pow2(m)
    decreases m
  {
    if k < m - 1 {
      PowersGrow(k, m - 1);
    }
  }

  lemma NextPowerIsDouble(n: nat, n': nat)
    requires IsPow2(n) && IsPow2(n') && n < n'
    ensures 2 * n <= n'
  {
    var k: nat, m: nat :| n == Pow2(k) && n' == Pow2(m);
    if m < k {
      PowersGrow(m, k);
    } else {
      PowersGrow(k, m);
    }
  }

  /** The smallest table size that is at least as large as wanted and not too crowded with `elements` in it. */
  ghost predicate MinSize(sz: nat, elements: nat, wanted: nat) {
    && IsPow2(sz) && HT_MIN_BUCKETS <= sz && wanted <= sz && elements < EnlargeSize(sz)
    && (sz > HT_MIN_BUCKETS ==> sz / 2 < wanted || elements >= EnlargeSize(sz / 2))
  }

  lemma EnlargeSizeGrows(n: nat, n': nat)
    requires n <= n'
    ensures EnlargeSize(n) <= EnlargeSize(n')
  {
  }

  lemma NoneSmaller(sz: nat, sz': nat, elements: nat, wanted: nat)
    requires MinSize(sz, elements, wanted) && MinSize(sz', elements, wanted)
    ensures sz >= sz'
  {
    hide IsPow2, EnlargeSize;
    if sz < sz' {
      NextPowerIsDouble(sz, sz');
      EnlargeSizeGrows(sz, sz' / 2);
    }
  }

  lemma MinSizeUnique(sz: nat, sz': nat, elements: nat, wanted: nat)
    requires MinSize(sz, elements, wanted) && MinSize(sz', elements, wanted)
    ensures sz == sz'
  {
    NoneSmaller(sz, sz', elements, wanted);
    NoneSmaller(sz', sz, elements, wanted);
  }

  /** A size is its own smallest size once the elements fit. */
  lemma MinSizeItself(sz: nat, elements: nat)
    requires IsPow2(sz) && HT_MIN_BUCKETS <= sz && elements < EnlargeSize(sz)
    ensures MinSize(sz, elements, sz)
  {
  }

  /** A table of `n` buckets is due to shrink with so few elements in it. */
  predicate ShrinkDue(n: nat, numRemain: nat) {
    numRemain < ShrinkSize(n) && n > HT_DEFAULT_STARTING_BUCKETS
  }

  /** The size it shrinks to: halved until it is full enough or has the default size, and no further. */
  ghost predicate ShrunkTo(n: nat, numRemain: nat, sz: nat) {
    && IsPow2(sz) && HT_DEFAULT_STARTING_BUCKETS <= sz <= n / 2
    && (sz > HT_DEFAULT_STARTING_BUCKETS ==> numRemain * 100 >= sz * HT_EMPTY_PCT)
    && (sz < n / 2 ==> numRemain * 100 < 2 * sz * HT_EMPTY_PCT)
  }

  lemma ShrunkToUnique(n: nat, numRemain: nat, sz: nat, sz': nat)
    requires ShrunkTo(n, numRemain, sz) && ShrunkTo(n, numRemain, sz')
    ensures sz == sz'
  {
    if sz < sz' {
      NextPowerIsDouble(sz, sz');
    } else if sz' < sz {
      NextPowerIsDouble(sz', sz);
    }
  }

  /**
   * The size a table grows to: enough for what remains and is to come, and twice that if this is less than erased
   * elements would have needed too, but only if the larger table is not due to shrink at once.
   */
  ghost predicate GrownTo(n: nat, elements: nat, remain: nat, delta: nat, sz: nat) {
    exists needed: nat, plain: nat :: GrownFrom(n, elements, remain, delta, needed, plain, sz)
  }

  ghost predicate GrownFrom(n: nat, elements: nat, remain: nat, delta: nat, needed: nat, plain: nat, sz: nat) {
    && MinSize(needed, elements + delta, 0) && MinSize(plain, remain + delta, n)
    && sz == if plain < needed && remain + delta >= ShrinkSize(2 * plain) then 2 * plain else plain
  }

  /** What is past its threshold needs more buckets than it has. */
  lemma NeededIsMore(needed: nat, elements: nat, n: nat)
    requires MinSize(needed, elements, 0)
    ensures elements > EnlargeSize(n) ==> needed > n
  {
  }

  lemma Regrown(n: nat, elements: nat, remain: nat, delta: nat, needed: nat, plain: nat, sz: nat)
    requires GrownFrom(n, elements, remain, delta, needed, plain, sz)
    ensures GrownTo(n, elements, remain, delta, sz) && MinSize(sz, remain, sz) && remain + delta < EnlargeSize(sz)
  {
    EnlargeSizeGrows(plain, 2 * plain);
    Doubled(plain);
  }

  /** The size of a table of `n` buckets, `elements` of them used, after room was made for `delta` more elements. */
  ghost predicate ResizedTo(n: nat, elements: nat, remain: nat, considerShrink: bool, delta: nat, sz: nat) {
    if considerShrink && ShrinkDue(n, remain) then
      exists m: nat :: ShrunkTo(n, remain, m) && RoomMade(m, remain, remain, delta, sz)
    else
      RoomMade(n, elements, remain, delta, sz)
  }

  ghost predicate RoomMade(n: nat, elements: nat, remain: nat, delta: nat, sz: nat) {
    if elements + delta <= EnlargeSize(n) then sz == n else GrownTo(n, elements, remain, delta, sz)
  }

  /** There is only one such size. */
  lemma ResizedToUnique(n: nat, elements: nat, remain: nat, considerShrink: bool, delta: nat, sz: nat, sz': nat)
    requires ResizedTo(n, elements, remain, considerShrink, delta, sz)
    requires ResizedTo(n, elements, remain, considerShrink, delta, sz')
    ensures sz == sz'
  {
    if considerShrink && ShrinkDue(n, remain) {
      var m: nat :| ShrunkTo(n, remain, m) && RoomMade(m, remain, remain, delta, sz);
      var m': nat :| ShrunkTo(n, remain, m') && RoomMade(m', remain, remain, delta, sz');
      ShrunkToUnique(n, remain, m, m');
      RoomMadeUnique(m, remain, remain, delta, sz, sz');
    } else {
      RoomMadeUnique(n, elements, remain, delta, sz, sz');
    }
  }

  lemma RoomMadeUnique(n: nat, elements: nat, remain: nat, delta: nat, sz: nat, sz': nat)
    requires RoomMade(n, elements, remain, delta, sz) && RoomMade(n, elements, remain, delta, sz')
    ensures sz == sz'
  {
    if elements + delta > EnlargeSize(n) {
      var needed: nat, plain: nat :| GrownFrom(n, elements, remain, delta, needed, plain, sz);
      var needed': nat, plain': nat :| GrownFrom(n, elements, remain, delta, needed', plain', sz');
      MinSizeUnique(needed, needed', elements + delta, 0);
      MinSizeUnique(plain, plain', remain + delta, n);
    }
  }

  /** How far a table is to shrink: halved as long as it would still be too empty, but not below the default size. */
  method ShrunkSize(numRemain: nat, n: nat) returns (sz: nat)
    requires IsPow2(n) && ShrinkDue(n, numRemain)
    ensures ShrunkTo(n, numRemain, sz) && sz < n && numRemain < EnlargeSize(sz)
  {
    Halved(n);
    sz := n / 2;
    while sz > HT_DEFAULT_STARTING_BUCKETS && numRemain * 100 < sz * HT_EMPTY_PCT
      invariant IsPow2(sz) && HT_DEFAULT_STARTING_BUCKETS <= sz <= n / 2 && numRemain < EnlargeSize(sz)
      invariant sz < n / 2 ==> numRemain * 100 < 2 * sz * HT_EMPTY_PCT
    {
      Halved(sz);
      sz := sz / 2;
    }
  }

  /** The smallest table, at least as large as wanted, that is not too crowded with `elements` in it. */
  method MinBuckets(elements: nat, wanted: nat) returns (sz: nat)
    ensures MinSize(sz, elements, wanted)
  {
    sz := HT_MIN_BUCKETS;
    assert sz == Pow2(2);
    while sz < wanted || elements >= EnlargeSize(sz)
      invariant IsPow2(sz) && HT_MIN_BUCKETS <= sz
      invariant sz > HT_MIN_BUCKETS ==> sz / 2 < wanted || elements >= EnlargeSize(sz / 2)
      decreases wanted + 2 * elements + 4 - sz
    {
      Doubled(sz);
      sz := sz * 2;
    }
  }

  class DenseHashtable<K(==), V> {
    const ks: Keys<K>
    const emptyValue: V
    var table: array<Bucket<K, V>>
    var numElements: nat
    var numDeleted: nat
    var enlargeThreshold: nat
    var shrinkThreshold: nat
    var considerShrink: bool
    ghost var contents: map<K, V>

    ghost predicate Valid()
      reads this, table
    {
      && table.Length >= HT_MIN_BUCKETS
      && Holds(table[..], ks, contents)
      && numElements == table.Length - Count(table[..], ks.empty)
      && numDeleted == Count(table[..], ks.deleted)
      && |contents| == numElements - numDeleted
      && enlargeThreshold == EnlargeSize(table.Length) && shrinkThreshold == ShrinkSize(table.Length)
      && numElements <= enlargeThreshold
    }

    /** Unused buckets only. */
    ghost function Blank(n: nat): (s: seq<Bucket<K, V>>)
      ensures |s| == n && forall b | 0 <= b < n :: s[b] == Bucket(ks.empty, emptyValue)
    {
      seq(n, _ => Bucket(ks.empty, emptyValue))
    }

    /** An empty table; zero expected elements stand for the default size. */
    constructor (ks: Keys<K>, emptyValue: V, expected: nat)
      requires ks.empty != ks.deleted
      ensures Valid() && contents == map[] && this.ks == ks && fresh(table) && numDeleted == 0 && !considerShrink
      ensures if expected == 0 then table.Length == HT_DEFAULT_STARTING_BUCKETS else MinSize(table.Length, expected, 0)
    {
      this.ks, this.emptyValue := ks, emptyValue;
      var n := HT_DEFAULT_STARTING_BUCKETS;
      StartingBuckets();
      if expected != 0 {
        n := MinBuckets(expected, 0);
      }
      table := new Bucket<K, V>[n](_ => Bucket(ks.empty, emptyValue));
      numElements, numDeleted, considerShrink := 0, 0, false;
      enlargeThreshold, shrinkThreshold := EnlargeSize(n), ShrinkSize(n);
      contents := map[];
      new;
      EmptyHolds(table[..], ks);
    }

    /** There is always an unused bucket, so every search ends. */
    lemma NeverFull()
      requires Valid()
      ensures numElements < table.Length && Count(table[..], ks.empty) > 0
    {
    }

    /** The search loop: where `key` is, or else the first erased or unused bucket that its search meets. */
    method FindPosition(key: K) returns (at: int, insertAt: int)
      requires Valid()
      ensures at == ILLEGAL_BUCKET <==> key !in contents || !IsKey(ks, key)
      ensures at != ILLEGAL_BUCKET ==> insertAt == ILLEGAL_BUCKET && 0 <= at < table.Length && table[at].key == key
      ensures at == ILLEGAL_BUCKET ==>
              0 <= insertAt < table.Length && !IsKey(ks, table[insertAt].key) && Reaches(table[..], ks, key, insertAt)
      ensures at == ILLEGAL_BUCKET ==> FirstFree(table[..], ks, key, insertAt)
    {
      hide Probe, Tri, IsPow2, Count;
      NeverFull();
      ghost var s := table[..];
      ghost var stop := SearchEnds(s, ks, key);
      var numProbes := 0;
      NextProbe(ks.hash(key), 0, table.Length);
      var bucknum := ks.hash(key) % table.Length;
      insertAt := ILLEGAL_BUCKET;
      while true
        invariant 0 <= numProbes <= stop && bucknum == Probe(ks.hash(key), numProbes, table.Length)
        invariant Clear(s, ks, key, numProbes)
        invariant forall x: nat | x < numProbes && IsKey(ks, key) :: s[Probe(ks.hash(key), x, |s|)].key != key
        invariant insertAt != ILLEGAL_BUCKET ==>
                  0 <= insertAt < table.Length && table[insertAt].key == ks.deleted && Reaches(s, ks, key, insertAt)
        invariant if insertAt == ILLEGAL_BUCKET then KeysUpTo(s, ks, key, numProbes)
                  else FirstFree(s, ks, key, insertAt)
        decreases stop - numProbes
      {
        if table[bucknum].key == ks.empty {
          if IsKey(ks, key) {
            NotStored(s, ks, contents, key, numProbes);
          }
          assert Reaches(s, ks, key, bucknum);
          if insertAt == ILLEGAL_BUCKET {
            return ILLEGAL_BUCKET, bucknum;
          } else {
            return ILLEGAL_BUCKET, insertAt;
          }
        }
        CountPositive(s, bucknum);
        if numDeleted > 0 && table[bucknum].key == ks.deleted {
          if insertAt == ILLEGAL_BUCKET {
            insertAt := bucknum;
          }
        } else if key == table[bucknum].key {
          assert BucketOk(s, ks, contents, bucknum);
          return bucknum, ILLEGAL_BUCKET;
        }
        numProbes := numProbes + 1;
        NextProbe(ks.hash(key), numProbes - 1, table.Length);
        bucknum := (bucknum + numProbes) % table.Length;
      }
    }

    method Find(key: K) returns (at: int)
      requires Valid() && IsKey(ks, key)
      ensures at == ILLEGAL_BUCKET <==> key !in contents
      ensures at != ILLEGAL_BUCKET ==> 0 <= at < table.Length && table[at] == Bucket(key, contents[key])
    {
      if numElements - numDeleted == 0 {
        assert contents == map[];
        return ILLEGAL_BUCKET;
      }
      var insertAt;
      at, insertAt := FindPosition(key);
      if at != ILLEGAL_BUCKET {
        assert BucketOk(table[..], ks, contents, at);
      }
    }

    /** Stores a new key in a bucket that `FindPosition` has chosen for it. */
    method InsertAt(key: K, value: V, at: int)
      requires Valid() && IsKey(ks, key) && key !in contents && numElements < enlargeThreshold
      requires 0 <= at < table.Length && !IsKey(ks, table[at].key) && Reaches(table[..], ks, key, at)
      modifies this`numDeleted, this`numElements, this`contents, table
      ensures Valid() && contents == old(contents)[key := value] && table[at] == Bucket(key, value)
      ensures forall b | 0 <= b < table.Length && b != at :: table[b] == old(table[b])
    {
      ghost var s := table[..];
      InsertHolds(s, ks, contents, key, value, at);
      InsertCounts(s, ks, contents, key, value, at);
      if numDeleted > 0 && table[at].key == ks.deleted {
        numDeleted := numDeleted - 1;
      } else {
        numElements := numElements + 1;
      }
      table[at] := Bucket(key, value);
      contents := contents[key := value];
      assert table[..] == s[at := Bucket(key, value)];
    }

    /** Marks the bucket of `key` as erased; the table will consider shrinking before the next insertion. */
    method Erase(key: K) returns (erased: nat)
      requires Valid() && IsKey(ks, key)
      modifies this`numDeleted, this`considerShrink, this`contents, table
      ensures Valid() && contents == old(contents) - {key}
      ensures erased == if key in old(contents) then 1 else 0
      ensures numDeleted == old(numDeleted) + erased && (considerShrink <==> old(considerShrink) || erased == 1)
      ensures erased == 0 ==> table[..] == old(table[..])
      ensures erased == 1 ==> exists at :: 0 <= at < table.Length && old(table[..])[at].key == key
                                           && table[..] == old(table[..])[at := old(table[..])[at].(key := ks.deleted)]
    {
      var at := Find(key);
      if at != ILLEGAL_BUCKET {
        EraseAt(at);
        return 1;
      }
      assert contents == contents - {key};
      return 0;
    }

    /** Puts the mark of an erased element on a bucket in use. */
    method EraseAt(at: nat)
      requires Valid() && at < table.Length && IsKey(ks, table[at].key)
      modifies this`numDeleted, this`considerShrink, this`contents, table
      ensures Valid() && contents == old(contents) - {old(table[at].key)} && considerShrink
      ensures numDeleted == old(numDeleted) + 1
      ensures table[..] == old(table[..])[at := old(table[..])[at].(key := ks.deleted)]
    {
      hide Holds, Count;
      ghost var s := table[..];
      EraseHolds(s, ks, contents, at);
      EraseCounts(s, ks, contents, at);
      contents := contents - {table[at].key};
      numDeleted := numDeleted + 1;
      considerShrink := true;
      table[at] := Bucket(ks.deleted, table[at].value);
      assert table[..] == s[at := s[at].(key := ks.deleted)];
    }

    /** The search loop of a copy, which only looks for an unused bucket. */
    method FindUnused(to: array<Bucket<K, V>>, key: K) returns (bucknum: nat)
      requires IsPow2(to.Length) && Count(to[..], ks.empty) > 0
      ensures bucknum < to.Length && to[bucknum].key == ks.empty && Reaches(to[..], ks, key, bucknum)
    {
      ghost var s := to[..];
      ghost var stop := SearchEnds(s, ks, key);
      var numProbes := 0;
      NextProbe(ks.hash(key), 0, to.Length);
      bucknum := ks.hash(key) % to.Length;
      while to[bucknum].key != ks.empty
        invariant 0 <= numProbes <= stop && bucknum == Probe(ks.hash(key), numProbes, to.Length)
        invariant Clear(s, ks, key, numProbes)
        decreases stop - numProbes
      {
        numProbes := numProbes + 1;
        NextProbe(ks.hash(key), numProbes - 1, to.Length);
        bucknum := (bucknum + numProbes) % to.Length;
      }
    }

    /** One turn of the copy loop. */
    method CopyBucket(to: array<Bucket<K, V>>, e: Bucket<K, V>, ghost copied: map<K, V>)
        returns (ghost copied': map<K, V>)
      requires Holds(to[..], ks, copied) && Count(to[..], ks.empty) == to.Length - |copied| > 0
      requires Count(to[..], ks.deleted) == 0 && IsKey(ks, e.key) && e.key !in copied
      modifies to
      ensures copied' == copied[e.key := e.value] && Holds(to[..], ks, copied')
      ensures to[..] == Placed(old(to[..]), ks, e)
      ensures Count(to[..], ks.empty) == to.Length - |copied'| && Count(to[..], ks.deleted) == 0
    {
      var bucknum := FindUnused(to, e.key);
      ghost var s := to[..];
      InsertHolds(s, ks, copied, e.key, e.value, bucknum);
      InsertCounts(s, ks, copied, e.key, e.value, bucknum);
      to[bucknum] := e;
      copied' := copied[e.key := e.value];
      assert to[..] == s[bucknum := Bucket(e.key, e.value)];
      PlacedThere(s, ks, e, bucknum);
    }

    lemma KeysDiffer()
      requires Valid()
      ensures ks.empty != ks.deleted
    {
    }

    lemma DeletedCounted()
      requires Valid()
      ensures numDeleted == Count(table[..], ks.deleted)
    {
    }

    /** The copy loop: every bucket in use is copied, in the order of the table. */
    method CopyFrom(to: array<Bucket<K, V>>) returns (moved: nat)
      requires Valid() && to != table && IsPow2(to.Length) && |contents| < to.Length
      requires forall b | 0 <= b < to.Length :: to[b].key == ks.empty
      modifies to
      ensures Holds(to[..], ks, contents) && moved == |contents|
      ensures to[..] == CopyOf(old(to[..]), ks, table[..], table.Length)
      ensures Count(to[..], ks.empty) == to.Length - |contents| && Count(to[..], ks.deleted) == 0
    {
      hide Holds, Placed, Count;
      KeysDiffer();
      EmptyHolds(to[..], ks);
      ghost var s, start := table[..], to[..];
      DeletedCounted();
      ghost var copied: map<K, V> := map[];
      moved := 0;
      for i := 0 to table.Length
        invariant Holds(to[..], ks, copied) && Count(to[..], ks.empty) == to.Length - |copied|
                  && Count(to[..], ks.deleted) == 0
        invariant moved == |copied| <= |contents| && PartOf(s, ks, contents, copied, i)
        invariant to[..] == CopyOf(start, ks, s, i)
      {
        PartStep(s, ks, contents, copied, i);
        CountPositive(s, i);
        if table[i].key != ks.empty && !(numDeleted > 0 && table[i].key == ks.deleted) {
          copied := CopyBucket(to, table[i], copied);
          moved := moved + 1;
        }
      }
      PartDone(s, ks, contents, copied);
    }

    /** `dense_hashtable tmp(*this, wanted); swap(tmp)`: everything is copied into a table without erased buckets. */
    method Rebuild(wanted: nat)
      requires Valid()
      modifies this
      ensures Valid() && contents == old(contents) && fresh(table) && table.Length >= wanted
      ensures numDeleted == 0 && numElements == |contents| < EnlargeSize(table.Length) && !considerShrink
      ensures MinSize(table.Length, |contents|, wanted)
      ensures table[..] == CopyOf(Blank(table.Length), ks, old(table[..]), old(table).Length)
    {
      hide Holds, Count, IsPow2, Reaches;
      var n := MinBuckets(numElements - numDeleted, wanted);
      var to := new Bucket<K, V>[n](_ => Bucket(ks.empty, emptyValue));
      assert to[..] == Blank(n);
      var moved := CopyFrom(to);
      Adopt(to, moved);
    }

    /** `swap` with the copy, which also resets the thresholds. */
    method Adopt(to: array<Bucket<K, V>>, moved: nat)
      requires to.Length >= HT_MIN_BUCKETS && Holds(to[..], ks, contents)
      requires Count(to[..], ks.empty) == to.Length - moved && Count(to[..], ks.deleted) == 0
      requires moved == |contents| <= EnlargeSize(to.Length)
      modifies this`table, this`numElements, this`numDeleted
      modifies this`enlargeThreshold, this`shrinkThreshold, this`considerShrink
      ensures Valid() && table == to && numElements == moved && numDeleted == 0 && !considerShrink
    {
      table, numElements, numDeleted := to, moved, 0;
      enlargeThreshold, shrinkThreshold, considerShrink := EnlargeSize(to.Length), ShrinkSize(to.Length), false;
    }

    /**
     * After erasures the table may be halved, more than once, but never below the default size. It then has no
     * erased buckets, and is not so empty that it could have been halved once more.
     */
    method MaybeShrink() returns (shrunk: bool)
      requires Valid()
      modifies this
      ensures Valid() && contents == old(contents) && !considerShrink
      ensures shrunk <==> ShrinkDue(old(table).Length, |contents|)
      ensures shrunk ==> fresh(table) && numDeleted == 0 && ShrunkTo(old(table).Length, |contents|, table.Length)
      ensures shrunk ==> table[..] == CopyOf(Blank(table.Length), ks, old(table[..]), old(table).Length)
      ensures !shrunk ==> table == old(table) && numElements == old(numElements) && numDeleted == old(numDeleted)
    {
      hide Count, Holds, MinSize;
      shrunk := false;
      var numRemain := numElements - numDeleted;
      PowerOfTwo();
      if shrinkThreshold > 0 && numRemain < shrinkThreshold && table.Length > HT_DEFAULT_STARTING_BUCKETS {
        var sz := ShrunkSize(numRemain, table.Length);
        MinSizeItself(sz, numRemain);
        Rebuild(sz);
        MinSizeUnique(sz, table.Length, numRemain, sz);
        shrunk := true;
      }
      considerShrink := false;
    }

    lemma PowerOfTwo()
      requires Valid()
      ensures IsPow2(table.Length)
    {
    }

    /** Room for `delta` more elements; growing also gets rid of the erased buckets. */
    method ResizeDelta(delta: nat) returns (resized: bool)
      requires Valid()
      modifies this
      ensures Valid() && contents == old(contents) && numElements + delta <= enlargeThreshold && !considerShrink
      ensures resized <==>
              || (old(considerShrink) && ShrinkDue(old(table).Length, |contents|))
              || old(numElements) + delta > EnlargeSize(old(table).Length)
      ensures ResizedTo(old(table).Length, old(numElements), |contents|, old(considerShrink), delta, table.Length)
      ensures if resized then fresh(table) && numDeleted == 0
              else table == old(table) && numElements == old(numElements) && numDeleted == old(numDeleted)
    {
      hide Valid, MinSize, GrownTo, ShrunkTo, EnlargeSize, ShrinkSize;
      Thresholds();
      resized := false;
      if considerShrink {
        resized := MaybeShrink();
      }
      Thresholds();
      if table.Length >= HT_MIN_BUCKETS && numElements + delta <= enlargeThreshold {
        return;
      }
      Grow(delta);
      resized := true;
    }

    /** What the test for room and the amount of what remains rest on. */
    lemma Thresholds()
      requires Valid()
      ensures table.Length >= HT_MIN_BUCKETS && enlargeThreshold == EnlargeSize(table.Length)
      ensures numElements - numDeleted == |contents|
    {
    }

    /** The part of `resize_delta` for a table without room for `delta` more elements. */
    method Grow(delta: nat)
      requires Valid() && numElements + delta > enlargeThreshold
      modifies this
      ensures Valid() && contents == old(contents) && fresh(table) && numDeleted == 0 && !considerShrink
      ensures GrownTo(old(table).Length, old(numElements), |contents|, delta, table.Length)
      ensures table[..] == CopyOf(Blank(table.Length), ks, old(table[..]), old(table).Length)
      ensures numElements + delta <= enlargeThreshold
    {
      hide Valid, MinSize, GrownTo, EnlargeSize, ShrinkSize;
      Thresholds();
      ghost var n, elements := table.Length, numElements;
      var needed := MinBuckets(numElements + delta, 0);
      NeededIsMore(needed, numElements + delta, table.Length);
      if needed <= table.Length {
        assert false;  // the table is past its threshold, so it needs more buckets than it has
      }
      var resizeTo := MinBuckets(numElements - numDeleted + delta, table.Length);
      ghost var plain := resizeTo;
      if resizeTo < needed {
        var target := ShrinkSize(resizeTo * 2);
        if numElements - numDeleted + delta >= target {
          resizeTo := resizeTo * 2;
        }
      }
      Regrown(n, elements, numElements - numDeleted, delta, needed, plain, resizeTo);
      Rebuild(resizeTo);
      Thresholds();
      MinSizeUnique(resizeTo, table.Length, numElements, resizeTo);
    }

    /** `insert`: adds an element unless its key is stored already. */
    method Insert(key: K, value: V) returns (at: nat, inserted: bool)
      requires Valid() && IsKey(ks, key)
      modifies this, table
      ensures Valid() && inserted == (key !in old(contents))
      ensures contents == if inserted then old(contents)[key := value] else old(contents)
      ensures at < table.Length && table[at] == Bucket(key, contents[key])
      ensures ResizedTo(old(table).Length, old(numElements), |old(contents)|, old(considerShrink), 1, table.Length)
      ensures table == old(table) && inserted ==> FirstFree(old(table[..]), ks, key, at)
    {
      hide Count, Holds, ResizedTo, EnlargeSize;
      var resized := ResizeDelta(1);
      at, inserted := InsertNoResize(key, value);
    }

    method InsertNoResize(key: K, value: V) returns (at: nat, inserted: bool)
      requires Valid() && IsKey(ks, key) && numElements < enlargeThreshold
      modifies this`numDeleted, this`numElements, this`contents, table
      ensures Valid() && inserted == (key !in old(contents))
      ensures contents == if inserted then old(contents)[key := value] else old(contents)
      ensures at < table.Length && table[at] == Bucket(key, contents[key])
      ensures inserted ==>
              FirstFree(old(table[..]), ks, key, at) && table[..] == old(table[..])[at := Bucket(key, value)]
      ensures !inserted ==> table[..] == old(table[..])
    {
      hide Count, FirstFree, Reaches, EnlargeSize, ShrinkSize;
      var found, insertAt := FindPosition(key);
      if found != ILLEGAL_BUCKET {
        assert BucketOk(table[..], ks, contents, found);
        return found, false;
      }
      InsertAt(key, value, insertAt);
      return insertAt, true;
    }

    /** `find_or_insert`: the bucket of the key, which gets the default value if it is new. */
    method FindOrInsert(key: K, default: V) returns (at: nat)
      requires Valid() && IsKey(ks, key)
      modifies this, table
      ensures Valid()
      ensures contents == if key in old(contents) then old(contents) else old(contents)[key := default]
      ensures at < table.Length && table[at] == Bucket(key, contents[key])
      ensures key in old(contents) ==> table == old(table) && table[..] == old(table[..])
      ensures key !in old(contents) ==>
                ResizedTo(old(table).Length, old(numElements), |old(contents)|, old(considerShrink), 1, table.Length)
    {
      var found, insertAt := FindPosition(key);
      if found != ILLEGAL_BUCKET {
        assert BucketOk(table[..], ks, contents, found);
        return found;
      }
      var resized := ResizeDelta(1);
      if resized {
        var inserted;
        at, inserted := InsertNoResize(key, default);
      } else {
        InsertAt(key, default, insertAt);
        at := insertAt;
      }
    }
  }
}
