/** Writing a hash table to a stream of bytes and reading it back: numbers, bitmaps of eight buckets, elements. */
module Serialization {
  import opened Probing
  import opened BucketTable
  import opened DenseHashtable

  newtype Byte = x: int | 0 <= x < 256

  datatype Option<+T> = None | Some(value: T)

  // ----- big-endian numbers -----

  /** `v >> (8 * k)` */
  function Shr8(v: nat, k: nat): nat {
    if k == 0 then v else Shr8(v, k - 1) / 256
  }

  /** `v << (8 * k)` */
  function Shl8(v: nat, k: nat): nat
    decreases k
  {
    if k == 0 then v else Shl8(256 * v, k - 1)
  }

  lemma {:induction false} ShlAdds(a: nat, b: nat, k: nat)
    ensures Shl8(a, k) + Shl8(b, k) == Shl8(a + b, k)
    decreases k
  {
    if k > 0 {
      ShlAdds(256 * a, 256 * b, k - 1);
    }
  }

  lemma {:induction false} ShlNothing(k: nat)
    ensures Shl8(0, k) == 0
  {
    if k > 0 {
      ShlNothing(k - 1);
    }
  }

  /** The bytes of a number, the most significant first. */
  function Number(v: nat, length: nat): (bytes: seq<Byte>)
    ensures |bytes| == length
  {
    seq(length, i requires 0 <= i < length => (Shr8(v, length - 1 - i) % 256) as Byte)
  }

  /** The number has no more than `length` bytes. */
  predicate Fits(v: nat, length: nat) {
    Shr8(v, length) == 0
  }

  /** Appends a number to the stream. */
  method WriteNumber(stream: seq<Byte>, v: nat, length: nat) returns (stream': seq<Byte>)
    ensures stream' == stream + Number(v, length)
  {
    stream' := stream;
    for i := 0 to length
      invariant stream' == stream + Number(v, length)[..i]
    {
      stream' := stream' + [(Shr8(v, length - 1 - i) % 256) as Byte];
    }
  }

  lemma {:induction false} ShrFromBelow(v: nat, k: nat)
    ensures Shr8(v, k + 1) == Shr8(v / 256, k)
  {
    if k > 0 {
      ShrFromBelow(v, k - 1);
    }
  }

  /** One more byte behind a number. */
  lemma NumberMore(v: nat, byte: Byte, length: nat)
    requires Fits(v, length)
    ensures Number(256 * v + byte as nat, length + 1) == Number(v, length) + [byte]
            && Fits(256 * v + byte as nat, length + 1)
  {
    var v': nat := 256 * v + byte as nat;
    assert v' / 256 == v && v' % 256 == byte as nat;
    ShrFromBelow(v', length);
    var bytes := Number(v', length + 1);
    forall i | 0 <= i < length ensures bytes[i] == Number(v, length)[i] {
      ShrFromBelow(v', length - 1 - i);
    }
    assert bytes[length] == (Shr8(v', 0) % 256) as Byte == byte;
    assert bytes == Number(v, length) + [byte];
  }

  /** A number that fits is known by its bytes. */
  lemma {:induction false} NumberInjective(v: nat, v': nat, length: nat)
    requires Fits(v, length) && Fits(v', length) && Number(v, length) == Number(v', length)
    ensures v == v'
    decreases length
  {
    if length > 0 {
      ShrFromBelow(v, length - 1);
      ShrFromBelow(v', length - 1);
      NumberMore(v / 256, (v % 256) as Byte, length - 1);
      NumberMore(v' / 256, (v' % 256) as Byte, length - 1);
      var n, n' := Number(v / 256, length - 1), Number(v' / 256, length - 1);
      assert Number(v, length)[..length - 1] == n && Number(v', length)[..length - 1] == n';
      assert Number(v, length)[length - 1] == (v % 256) as Byte && Number(v', length)[length - 1] == (v' % 256) as Byte;
      NumberInjective(v / 256, v' / 256, length - 1);
    }
  }

  /** Reads the number at position `at`, unless the stream ends in it. */
  method ReadNumber(stream: seq<Byte>, at: nat, length: nat) returns (value: Option<nat>, at': nat)
    requires at <= |stream|
    ensures value.Some? <==> at + length <= |stream|
    ensures value.Some? ==>
            at' == at + length && Fits(value.value, length) && stream[at..at'] == Number(value.value, length)
  {
    at' := at;
    var sum: nat := 0;
    ghost var m: nat := 0;
    ShlNothing(length);
    for i := 0 to length
      invariant at' == at + i <= |stream|
      invariant sum == Shl8(m, length - i) && Fits(m, i) && stream[at..at'] == Number(m, i)
    {
      if at' >= |stream| {
        return None, at';
      }
      var k := length - 1 - i;
      NumberMore(m, stream[at'], i);
      ShlAdds(256 * m, stream[at'] as nat, k);
      sum := sum + Shl8(stream[at'] as nat, k);
      m := 256 * m + stream[at'] as nat;
      at' := at' + 1;
    }
    return Some(sum), at';
  }

  // ----- a byte of eight flags -----

  /** `1 << bit` */
  function Weight(bit: nat): (w: nat)
    ensures w > 0
  {
    if bit == 0 then 1 else 2 * Weight(bit - 1)
  }

  /** `bits & (1 << bit)` is not zero. */
  predicate BitSet(bits: nat, bit: nat) {
    if bit == 0 then bits % 2 == 1 else BitSet(bits / 2, bit - 1)
  }

  /** The number with these flags for bits, the lowest first. */
  ghost function Packed(f: seq<bool>): (bits: nat)
    ensures bits < Weight(|f|)
  {
    if f == [] then 0 else (if f[0] then 1 else 0) + 2 * Packed(f[1..])
  }

  /** The bits are those of the binary numeral, the lowest counted as bit 0. */
  lemma {:induction false} BitSetMeans(bits: nat, bit: nat)
    ensures BitSet(bits, bit) <==> bits / Weight(bit) % 2 == 1
    decreases bit
  {
    if bit > 0 {
      BitSetMeans(bits / 2, bit - 1);
      DividedTwice(bits, Weight(bit - 1));
    }
  }

  lemma DividedTwice(a: nat, b: nat)
    requires b > 0
    ensures a / (2 * b) == a / 2 / b
  {
    var q, r := a / 2 / b, a / 2 % b;
    assert a / 2 == q * b + r;
    assert a == 2 * (q * b + r) + a % 2 == q * (2 * b) + (2 * r + a % 2);
    assert 0 <= 2 * r + a % 2 < 2 * b;
    UniqueQuotient(2 * b, a / (2 * b), a % (2 * b), q, 2 * r + a % 2);
  }

  lemma Weights()
    ensures Weight(0) == 1 && Weight(1) == 2 && Weight(2) == 4 && Weight(3) == 8
    ensures Weight(4) == 16 && Weight(5) == 32 && Weight(6) == 64 && Weight(7) == 128
  {
    assert Weight(3) == 8 && Weight(4) == 16;
    assert Weight(6) == 64;
  }

  lemma {:induction false} PackedBits(f: seq<bool>, bit: nat)
    requires bit < |f|
    ensures BitSet(Packed(f), bit) == f[bit]
    decreases bit
  {
    if bit > 0 {
      PackedBits(f[1..], bit - 1);
    }
  }

  /** One more flag, on top. */
  lemma {:induction false} PackedMore(f: seq<bool>, b: bool)
    ensures Packed(f + [b]) == Packed(f) + if b then Weight(|f|) else 0
    decreases |f|
  {
    if f != [] {
      assert (f + [b])[1..] == f[1..] + [b];
      PackedMore(f[1..], b);
    }
  }

  // ----- elements -----

  /** How the caller writes one element, and reads one at a position, which it also moves behind it. */
  datatype Serializer<!E> = Serializer(write: E -> seq<Byte>, read: (seq<Byte>, nat) -> Option<(E, nat)>)

  ghost predicate RoundTrips<E(!new)>(ser: Serializer<E>) {
    forall e, before, after :: ser.read(before + ser.write(e) + after, |before|) == Some((e, |before| + |ser.write(e)|))
  }

  /** A reader that moves on, but never past the end of the stream. */
  ghost predicate Advances<E(!new)>(ser: Serializer<E>) {
    forall stream, at: nat :: at <= |stream| ==> ReadsWithin(ser.read(stream, at), at, |stream|)
  }

  ghost predicate ReadsWithin<E>(result: Option<(E, nat)>, at: nat, end: nat) {
    result.Some? ==> at <= result.value.1 <= end
  }

  predicate Used<K(==), V>(s: seq<Bucket<K, V>>, empty: K, j: nat) {
    j < |s| && s[j].key != empty
  }

  /** The flags of the buckets from `i` on, `n` of them. */
  ghost function UsedFlags<K, V>(s: seq<Bucket<K, V>>, empty: K, i: nat, n: nat): (f: seq<bool>)
    ensures |f| == n
  {
    seq(n, bit requires 0 <= bit < n => Used(s, empty, i + bit))
  }

  /** The elements of the group at `i`, from its bucket number `bit` on. */
  ghost function Elements<K, V>(s: seq<Bucket<K, V>>, empty: K, ser: Serializer<Bucket<K, V>>, i: nat,
                                bit: nat): seq<Byte>
    requires bit <= 8
    decreases 8 - bit
  {
    if bit == 8 then []
    else (if Used(s, empty, i + bit) then ser.write(s[i + bit]) else []) + Elements(s, empty, ser, i, bit + 1)
  }

  /** The elements of the buckets in use from `from` up to `to`, in the order of the table. */
  ghost function InTableOrder<K, V>(s: seq<Bucket<K, V>>, empty: K, ser: Serializer<Bucket<K, V>>, from: nat,
                                    to: nat): seq<Byte>
    decreases to
  {
    if to <= from then []
    else InTableOrder(s, empty, ser, from, to - 1) + if Used(s, empty, to - 1) then ser.write(s[to - 1]) else []
  }

  /** The bytes of one bucket. */
  ghost function OfBucket<K, V>(s: seq<Bucket<K, V>>, empty: K, ser: Serializer<Bucket<K, V>>, j: nat): seq<Byte> {
    if Used(s, empty, j) then ser.write(s[j]) else []
  }

  lemma ElementsStep<K, V>(s: seq<Bucket<K, V>>, empty: K, ser: Serializer<Bucket<K, V>>, i: nat, bit: nat)
    requires bit < 8
    ensures Elements(s, empty, ser, i, bit) == OfBucket(s, empty, ser, i + bit) + Elements(s, empty, ser, i, bit + 1)
    ensures InTableOrder(s, empty, ser, i, i + bit + 1) ==
            InTableOrder(s, empty, ser, i, i + bit) + OfBucket(s, empty, ser, i + bit)
  {
  }

  lemma {:induction false} ElementsInOrder<K, V>(s: seq<Bucket<K, V>>, empty: K, ser: Serializer<Bucket<K, V>>, i: nat,
                                                 bit: nat)
    requires bit <= 8
    ensures Elements(s, empty, ser, i, 0) == InTableOrder(s, empty, ser, i, i + bit) + Elements(s, empty, ser, i, bit)
    decreases bit
  {
    if bit > 0 {
      hide Elements, OfBucket, InTableOrder;
      ElementsInOrder(s, empty, ser, i, bit - 1);
      ElementsStep(s, empty, ser, i, bit - 1);
      Regrouped(InTableOrder(s, empty, ser, i, i + bit - 1), OfBucket(s, empty, ser, i + bit - 1),
                Elements(s, empty, ser, i, bit));
    }
  }

  lemma EightFlags(f: seq<bool>)
    requires |f| == 8
    ensures Packed(f) < 256
  {
    assert Weight(4) == 16;
    assert Weight(8) == 256;
  }

  /** Group after group: the bitmap of eight buckets, then the elements in them. */
  ghost function Groups<K, V>(s: seq<Bucket<K, V>>, empty: K, ser: Serializer<Bucket<K, V>>, i: nat): seq<Byte>
    decreases |s| - i
  {
    if i >= |s| then []
    else
      EightFlags(UsedFlags(s, empty, i, 8));
      [Packed(UsedFlags(s, empty, i, 8)) as Byte] + Elements(s, empty, ser, i, 0) + Groups(s, empty, ser, i + 8)
  }

  const MAGIC_NUMBER := 0x13578642

  /** The whole stream for a table. */
  ghost function Image<K, V>(s: seq<Bucket<K, V>>, empty: K, ser: Serializer<Bucket<K, V>>,
                             numElements: nat): seq<Byte> {
    Number(MAGIC_NUMBER, 4) + Number(|s|, 8) + Number(numElements, 8) + Groups(s, empty, ser, 0)
  }

  /** The bitmap of a group. */
  method GroupBits<K(==), V>(s: seq<Bucket<K, V>>, empty: K, i: nat) returns (bits: Byte)
    ensures bits as nat == Packed(UsedFlags(s, empty, i, 8))
  {
    var sum := 0;
    EightFlags(UsedFlags(s, empty, i, 8));
    for bit := 0 to 8
      invariant sum == Packed(UsedFlags(s, empty, i, bit))
    {
      PackedMore(UsedFlags(s, empty, i, bit), Used(s, empty, i + bit));
      assert UsedFlags(s, empty, i, bit + 1) == UsedFlags(s, empty, i, bit) + [Used(s, empty, i + bit)];
      if i + bit < |s| && s[i + bit].key != empty {
        sum := sum + Weight(bit);
      }
    }
    bits := sum as Byte;
  }

  /** Bit by bit, a bitmap tells which buckets are in use. */
  lemma UsedBit<K, V>(s: seq<Bucket<K, V>>, empty: K, i: nat, bits: Byte, bit: nat)
    requires bits as nat == Packed(UsedFlags(s, empty, i, 8)) && bit < 8
    ensures BitSet(bits as nat, bit) <==> Used(s, empty, i + bit)
  {
    PackedBits(UsedFlags(s, empty, i, 8), bit);
  }

  lemma Regrouped(a: seq<Byte>, b: seq<Byte>, c: seq<Byte>)
    ensures a + (b + c) == a + b + c && a + ([] + c) == a + c
  {
  }

  /** The elements of a group, as its bitmap tells. */
  method WriteElements<K(==), V>(stream: seq<Byte>, s: seq<Bucket<K, V>>, empty: K, ser: Serializer<Bucket<K, V>>,
                                 i: nat, bits: Byte)
    returns (stream': seq<Byte>)
    requires bits as nat == Packed(UsedFlags(s, empty, i, 8))
    ensures stream' == stream + Elements(s, empty, ser, i, 0)
  {
    hide Packed, UsedFlags, BitSet;
    stream' := stream;
    for bit := 0 to 8
      invariant stream' + Elements(s, empty, ser, i, bit) == stream + Elements(s, empty, ser, i, 0)
    {
      UsedBit(s, empty, i, bits, bit);
      Regrouped(stream', if Used(s, empty, i + bit) then ser.write(s[i + bit]) else [],
                Elements(s, empty, ser, i, bit + 1));
      if BitSet(bits as nat, bit) {
        stream' := stream' + ser.write(s[i + bit]);
      }
    }
  }

  /** `serialize`, on a table without tombstones. */
  method Serialize<K(==), V>(s: seq<Bucket<K, V>>, empty: K, ser: Serializer<Bucket<K, V>>, numElements: nat)
      returns (stream: seq<Byte>)
    ensures stream == Image(s, empty, ser, numElements)
  {
    hide Number, Elements, Packed;
    stream := WriteNumber([], MAGIC_NUMBER, 4);
    assert stream == Number(MAGIC_NUMBER, 4);
    stream := WriteNumber(stream, |s|, 8);
    stream := WriteNumber(stream, numElements, 8);
    ghost var whole := stream + Groups(s, empty, ser, 0);
    var i := 0;
    while i < |s|
      invariant stream + Groups(s, empty, ser, i) == whole
    {
      var bits := GroupBits(s, empty, i);
      stream := WriteElements(stream + [bits], s, empty, ser, i, bits);
      i := i + 8;
    }
  }

  // ----- reading back -----

  /** The flags read are those written, and the elements read so far are those written. */
  ghost predicate Restored<K, V>(s: seq<Bucket<K, V>>, s': seq<Bucket<K, V>>, unused: Bucket<K, V>, n: nat) {
    |s'| == |s| && forall j: nat | j < |s| :: s'[j] == if j < n && s[j].key != unused.key then s[j] else unused
  }

  /** The elements of one group, put where the bitmap says. */
  method ReadElements<K(==, !new), V(!new)>(stream: seq<Byte>, at: nat, s0: seq<Bucket<K, V>>, unused: Bucket<K, V>,
                                            ser: Serializer<Bucket<K, V>>, i: nat, bits: Byte,
                                            ghost s: seq<Bucket<K, V>>, ghost before: seq<Byte>, ghost after: seq<Byte>)
    returns (ok: bool, s': seq<Bucket<K, V>>, at': nat)
    ensures |s'| == |s0|
    ensures Advances(ser) && at <= |stream| && ok ==> at <= at' <= |stream|
    ensures RoundTrips(ser) && Restored(s, s0, unused, i) && bits as nat == Packed(UsedFlags(s, unused.key, i, 8))
            && at == |before| && stream == before + Elements(s, unused.key, ser, i, 0) + after ==>
            ok && Restored(s, s', unused, i + 8) && at' == |before| + |Elements(s, unused.key, ser, i, 0)|
  {
    hide Packed, UsedFlags, BitSet, RoundTrips, Restored, Elements;
    s', at' := s0, at;
    ghost var good := RoundTrips(ser) && Restored(s, s0, unused, i)
        && bits as nat == Packed(UsedFlags(s, unused.key, i, 8))
                      && at == |before| && stream == before + Elements(s, unused.key, ser, i, 0) + after;
    ghost var done := before;
    for bit := 0 to 8
      invariant |s'| == |s0| && (Advances(ser) && at <= |stream| ==> at <= at' <= |stream|)
      invariant good ==>
                && at' == |done| && stream == done + Elements(s, unused.key, ser, i, bit) + after
                && Restored(s, s', unused, i + bit)
    {
      if good {
        UsedBit(s, unused.key, i, bits, bit);
        GroupStep(s, s', unused, ser, i, bit, stream, done, after);
      }
      if i + bit < |s'| && BitSet(bits as nat, bit) {
        var e := ser.read(stream, at');
        assert Advances(ser) && at <= |stream| ==> ReadsWithin(e, at', |stream|);
        if e.None? {
          return false, s', at';
        }
        s', at' := s'[i + bit := e.value.0], e.value.1;
        if good {
          done := done + ser.write(s[i + bit]);
        }
      }
    }
    if good {
      LastElement(s, unused.key, ser, i, stream, done, before, after);
    }
    ok := true;
  }

  /** What reading one bucket of a group does, when the stream holds what was written. */
  lemma GroupStep<K(!new), V(!new)>(s: seq<Bucket<K, V>>, s': seq<Bucket<K, V>>, unused: Bucket<K, V>,
                                    ser: Serializer<Bucket<K, V>>,
                                    i: nat, bit: nat, stream: seq<Byte>, done: seq<Byte>, after: seq<Byte>)
    requires RoundTrips(ser) && Restored(s, s', unused, i + bit) && bit < 8
    requires stream == done + Elements(s, unused.key, ser, i, bit) + after
    ensures |s'| == |s|
    ensures var rest := Elements(s, unused.key, ser, i, bit + 1);
            if Used(s, unused.key, i + bit) then
              && ser.read(stream, |done|) == Some((s[i + bit], |done| + |ser.write(s[i + bit])|))
              && stream == done + ser.write(s[i + bit]) + rest + after
                  && Restored(s, s'[i + bit := s[i + bit]], unused, i + bit + 1)
            else
              stream == done + rest + after && Restored(s, s', unused, i + bit + 1)
  {
    hide RoundTrips, Restored;
    var rest := Elements(s, unused.key, ser, i, bit + 1);
    if Used(s, unused.key, i + bit) {
      var w := ser.write(s[i + bit]);
      Reassociated(done, w, rest, after);
      ElementRead(ser, stream, done, s[i + bit], rest + after);
    } else {
      Reassociated(done, [], rest, after);
    }
    RestoredMore(s, s', unused, i + bit);
  }

  lemma Reassociated(a: seq<Byte>, b: seq<Byte>, c: seq<Byte>, d: seq<Byte>)
    ensures a + (b + c) + d == a + b + (c + d) == a + b + c + d
  {
  }

  lemma RestoredMore<K, V>(s: seq<Bucket<K, V>>, s': seq<Bucket<K, V>>, unused: Bucket<K, V>, n: nat)
    requires Restored(s, s', unused, n)
    ensures |s'| == |s|
    ensures Restored(s, if Used(s, unused.key, n) then s'[n := s[n]] else s', unused, n + 1)
  {
  }

  lemma LastElement<K, V>(s: seq<Bucket<K, V>>, empty: K, ser: Serializer<Bucket<K, V>>, i: nat,
                          stream: seq<Byte>, done: seq<Byte>, before: seq<Byte>, after: seq<Byte>)
    requires stream == done + Elements(s, empty, ser, i, 8) + after
             && stream == before + Elements(s, empty, ser, i, 0) + after
    ensures |done| == |before| + |Elements(s, empty, ser, i, 0)|
  {
  }

  lemma ElementRead<E(!new)>(ser: Serializer<E>, stream: seq<Byte>, before: seq<Byte>, e: E, after: seq<Byte>)
    requires RoundTrips(ser) && stream == before + ser.write(e) + after
    ensures ser.read(stream, |before|) == Some((e, |before| + |ser.write(e)|))
  {
  }

  /** What an image starts with. */
  lemma ImageParts<K, V>(s: seq<Bucket<K, V>>, empty: K, ser: Serializer<Bucket<K, V>>, numElements: nat)
    ensures var image := Image(s, empty, ser, numElements);
            && |image| >= 20 && image[0..4] == Number(MAGIC_NUMBER, 4)
            && image[4..12] == Number(|s|, 8) && image[12..20] == Number(numElements, 8)
                && image == image[..20] + Groups(s, empty, ser, 0)
  {
  }

  lemma MagicFits()
    ensures Fits(MAGIC_NUMBER, 4)
  {
    assert Shr8(MAGIC_NUMBER, 2) == 0x1357;
  }

  /** The first four bytes of a stream. */
  lemma MagicBytes()
    ensures Number(MAGIC_NUMBER, 4) == [0x13, 0x57, 0x86, 0x42]
  {
    assert Shr8(MAGIC_NUMBER, 1) == 0x135786;
    assert Shr8(MAGIC_NUMBER, 2) == 0x1357;
    assert Shr8(MAGIC_NUMBER, 3) == 0x13;
  }

  /**
   * `unserialize`: a stream that does not start with the magic number is refused, and one that was written for a
   * table gives it back, bucket by bucket.
   */
  method Unserialize<K(==, !new), V(!new)>(stream: seq<Byte>, unused: Bucket<K, V>, ser: Serializer<Bucket<K, V>>,
                                           ghost s: seq<Bucket<K, V>>, ghost count: nat)
    returns (ok: bool, table: seq<Bucket<K, V>>, numElements: nat)
    ensures ok ==> |stream| >= 20 && stream[..4] == Number(MAGIC_NUMBER, 4)
    ensures ok ==> stream[4..12] == Number(|table|, 8) && stream[12..20] == Number(numElements, 8)
    ensures Advances(ser) && ok ==> 20 + (|table| + 7) / 8 <= |stream|
    ensures RoundTrips(ser) && Fits(|s|, 8) && Fits(count, 8) && stream == Image(s, unused.key, ser, count) ==>
              ok && numElements == count && Restored(s, table, unused, |s|)
  {
    hide Number, Fits, Groups, Image, RoundTrips;
    table, numElements := [], 0;
    ghost var good := RoundTrips(ser) && Fits(|s|, 8) && Fits(count, 8) && stream == Image(s, unused.key, ser, count);
    ImageParts(s, unused.key, ser, count);
    MagicFits();
    var magic, at := ReadNumber(stream, 0, 4);
    if magic.None? {
      return false, table, numElements;
    }
    if good {
      NumberInjective(magic.value, MAGIC_NUMBER, 4);
    }
    if magic.value != MAGIC_NUMBER {
      return false, table, numElements;
    }
    var size, at1 := ReadNumber(stream, at, 8);
    if size.None? {
      return false, table, numElements;
    }
    table := seq(size.value, _ => unused);
    var number, at2 := ReadNumber(stream, at1, 8);
    if number.None? {
      return false, table, numElements;
    }
    numElements := number.value;
    if good {
      NumberInjective(size.value, |s|, 8);
      NumberInjective(number.value, count, 8);
    }
    ok, table := ReadGroups(stream, at2, table, unused, ser, s);
  }

  /** The bitmaps and elements of all groups. */
  method ReadGroups<K(==, !new), V(!new)>(stream: seq<Byte>, start: nat, table0: seq<Bucket<K, V>>,
                                          unused: Bucket<K, V>,
                                          ser: Serializer<Bucket<K, V>>, ghost s: seq<Bucket<K, V>>)
    returns (ok: bool, table: seq<Bucket<K, V>>)
    requires start <= |stream|
    ensures |table| == |table0| && (Advances(ser) && ok ==> start + (|table| + 7) / 8 <= |stream|)
    ensures RoundTrips(ser) && Restored(s, table0, unused, 0)
            && stream == stream[..start] + Groups(s, unused.key, ser, 0) ==>
              ok && Restored(s, table, unused, |s|)
  {
    hide Packed, UsedFlags, RoundTrips, Elements, Advances;
    table := table0;
    var at: nat, i: nat := start, 0;
    ghost var groups: nat := 0;
    ghost var good := RoundTrips(ser) && Restored(s, table0, unused, 0)
        && stream == stream[..start] + Groups(s, unused.key, ser, 0);
    while i < |table|
      invariant |table| == |table0| && i == 8 * groups && i < |table| + 8
      invariant Advances(ser) ==> start + groups <= at <= |stream|
      invariant good ==>
                && at <= |stream| && stream == stream[..at] + Groups(s, unused.key, ser, i)
                && Restored(s, table, unused, i)
      decreases |table| - i
    {
      if at >= |stream| {
        return false, table;
      }
      var bits := stream[at];
      ghost var elements := Elements(s, unused.key, ser, i, 0);
      ok, table, at := ReadElements(stream, at + 1, table, unused, ser, i, bits,
                                       s, stream[..at + 1], Groups(s, unused.key, ser, i + 8));
      if !ok {
        return false, table;
      }
      i := i + 8;
      groups := groups + 1;
    }
    ok := true;
  }

  /** A table read back stands for the same map. */
  lemma RestoredHolds<K, V>(s: seq<Bucket<K, V>>, s': seq<Bucket<K, V>>, unused: Bucket<K, V>, ks: Keys<K>,
                            contents: map<K, V>)
    requires Restored(s, s', unused, |s|) && Holds(s, ks, contents) && unused.key == ks.empty
    requires forall b: nat | b < |s| :: s[b].key != ks.deleted
    ensures Holds(s', ks, contents)
  {
    assert forall b: nat | b < |s| :: s'[b].key == s[b].key;
    forall b: nat | b < |s'| ensures BucketOk(s', ks, contents, b) {
      assert BucketOk(s, ks, contents, b);
      if IsKey(ks, s[b].key) {
        var p: nat :| p < |s| && Probe(ks.hash(s[b].key), p, |s|) == b && Clear(s, ks, s[b].key, p);
        assert Clear(s', ks, s[b].key, p);
      }
    }
    forall k | k in contents ensures exists b: nat :: b < |s'| && s'[b].key == k {
      var b: nat :| b < |s| && s[b].key == k;
      assert s'[b].key == k;
    }
  }

  lemma {:induction false} CountSameKeys<K, V>(s: seq<Bucket<K, V>>, s': seq<Bucket<K, V>>, k: K)
    requires |s| == |s'| && forall b: nat | b < |s| :: s[b].key == s'[b].key
    ensures Count(s, k) == Count(s', k)
    decreases |s|
  {
    if s != [] {
      var n := |s| - 1;
      assert forall b: nat | b < n :: s[..n][b].key == s'[..n][b].key;
      CountSameKeys(s[..n], s'[..n], k);
    }
  }

  /** `squash_deleted` and then `serialize`. */
  method Save<K(==), V>(ht: DenseHashtable<K, V>, ser: Serializer<Bucket<K, V>>) returns (stream: seq<Byte>)
    requires ht.Valid()
    modifies ht
    ensures ht.Valid() && ht.contents == old(ht.contents) && ht.numDeleted == 0
    ensures if old(ht.numDeleted) == 0 then ht.table == old(ht.table) && ht.table[..] == old(ht.table[..])
            else MinSize(ht.table.Length, |ht.contents|, HT_DEFAULT_STARTING_BUCKETS)
    ensures stream == Image(ht.table[..], ht.ks.empty, ser, ht.numElements)
  {
    if ht.numDeleted > 0 {
      ht.Rebuild(HT_DEFAULT_STARTING_BUCKETS);
    }
    stream := Serialize(ht.table[..], ht.ks.empty, ser, ht.numElements);
  }

  /** Whatever was in it before, a table that reads what another one has written stands for the same map. */
  method Load<K(==, !new), V(!new)>(to: DenseHashtable<K, V>, stream: seq<Byte>, ser: Serializer<Bucket<K, V>>,
                                    ghost from: DenseHashtable<K, V>)
    requires from != to && from.Valid() && from.numDeleted == 0 && from.ks == to.ks && RoundTrips(ser)
    requires Fits(from.table.Length, 8) && Fits(from.numElements, 8)
    requires stream == Image(from.table[..], from.ks.empty, ser, from.numElements)
    modifies to
    ensures to.Valid() && to.contents == from.contents && to.numElements == from.numElements
            && to.table.Length == from.table.Length
  {
    hide Image, RoundTrips, Holds, Restored, Fits, Count;
    ghost var s := from.table[..];
    var unused := Bucket(to.ks.empty, to.emptyValue);
    var ok, table, numElements := Unserialize(stream, unused, ser, s, from.numElements);
    LoadedAgrees(from, s, table, unused);
    var buckets := new Bucket<K, V>[|table|](i requires 0 <= i < |table| => table[i]);
    assert buckets[..] == table;
    to.contents := from.contents;
    to.Adopt(buckets, numElements);
  }

  lemma LoadedAgrees<K, V>(ht: DenseHashtable<K, V>, s: seq<Bucket<K, V>>, s': seq<Bucket<K, V>>, unused: Bucket<K, V>)
    requires ht.Valid() && ht.numDeleted == 0 && s == ht.table[..] && unused.key == ht.ks.empty
             && Restored(s, s', unused, |s|)
    ensures Holds(s', ht.ks, ht.contents) && |s'| == |s| >= HT_MIN_BUCKETS
    ensures Count(s', ht.ks.empty) == |s'| - ht.numElements && Count(s', ht.ks.deleted) == 0
    ensures ht.numElements == |ht.contents| <= EnlargeSize(|s'|)
  {
    forall b: nat | b < |s| ensures s[b].key != ht.ks.deleted {
      CountPositive(s, b);
    }
    RestoredHolds(s, s', unused, ht.ks, ht.contents);
    CountSameKeys(s, s', ht.ks.empty);
    CountSameKeys(s, s', ht.ks.deleted);
  }
}
