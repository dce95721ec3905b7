/** Filter and verify: candidate pairs come out of hash buckets, and the kernel decides on each of them. */
module MatchPrune {
  import opened Words
  import opened EditDistance
  import opened Masks
  import opened Kernels
  import opened Deletions

  /** The hash function of the buckets. Nothing below depends on which one it is, or on its collisions. */
  type HashFunction = Word -> nat

  /** Bucket `hash` of the table for words of length `length` with `count` characters dropped. */
  datatype BucketKey = BucketKey(length: nat, count: nat, hash: nat)

  type Table = map<BucketKey, seq<nat>>

  function Bucket(table: Table, key: BucketKey): seq<nat> {
    if key in table then table[key] else []
  }

  const MIN_WORD_LENGTH := 4
  const MAX_WORD_LENGTH := 31

  /** A word the registry accepts. */
  predicate IsToken(w: Word) {
    MIN_WORD_LENGTH <= |w| <= MAX_WORD_LENGTH && NUL !in w
  }

  ghost predicate AllTokens(texts: seq<Word>) {
    forall x | 0 <= x < |texts| :: IsToken(texts[x])
  }

  /** Word number `id` is in every bucket that some way of dropping `count` of its characters leads to. */
  ghost predicate Indexed(table: Table, mur: HashFunction, w: Word, id: nat, count: nat) {
    forall v | Dropped(v, w, count) :: id in Bucket(table, BucketKey(|w|, count, mur(v)))
  }

  ghost predicate IndexedAll(table: Table, mur: HashFunction, w: Word, id: nat) {
    forall count: nat | count <= 3 :: Indexed(table, mur, w, id, count)
  }

  /** The buckets of `to` hold what those of `from` held, and otherwise only `id`, under its own length. */
  ghost predicate Grown(from: Table, to: Table, id: nat, length: nat) {
    && (forall key, x :: x in Bucket(from, key) ==> x in Bucket(to, key))
    && (forall key, x :: x in Bucket(to, key) ==> x in Bucket(from, key) || (x == id && key.length == length))
  }

  method Push(table: Table, key: BucketKey, id: nat) returns (table': Table)
    ensures forall k :: Bucket(table', k) == if k == key then Bucket(table, k) + [id] else Bucket(table, k)
  {
    table' := table[key := Bucket(table, key) + [id]];
  }

  /** The bucket that dropping the characters at `q` leads to. */
  ghost function KeyOf(mur: HashFunction, w: Word, q: seq<nat>): BucketKey
    requires Positions(q, |w|)
  {
    BucketKey(|w|, |q|, mur(Drop(w, q)))
  }

  /** What one bucket gains from word number `id`: the number, once for each choice of positions that leads there. */
  ghost function Gained(mur: HashFunction, w: Word, id: nat, ps: seq<seq<nat>>, key: BucketKey): seq<nat>
    requires forall q <- ps :: Positions(q, |w|)
  {
    if ps == [] then []
    else
      assert ps[|ps| - 1] in ps;
      Gained(mur, w, id, ps[..|ps| - 1], key) + if KeyOf(mur, w, ps[|ps| - 1]) == key then [id] else []
  }

  lemma GainedMore(mur: HashFunction, w: Word, id: nat, ps: seq<seq<nat>>, q: seq<nat>, key: BucketKey)
    requires Positions(q, |w|) && forall q' <- ps :: Positions(q', |w|)
    ensures Gained(mur, w, id, ps + [q], key) ==
            Gained(mur, w, id, ps, key) + if KeyOf(mur, w, q) == key then [id] else []
  {
    assert (ps + [q])[..|ps|] == ps;
  }

  lemma {:induction false} GainedOnly(mur: HashFunction, w: Word, id: nat, ps: seq<seq<nat>>, key: BucketKey)
    requires forall q <- ps :: Positions(q, |w|)
    ensures forall x <- Gained(mur, w, id, ps, key) :: x == id
    ensures id in Gained(mur, w, id, ps, key) <==> exists q <- ps :: KeyOf(mur, w, q) == key
    decreases |ps|
  {
    if ps != [] {
      GainedOnly(mur, w, id, ps[..|ps| - 1], key);
      assert ps == ps[..|ps| - 1] + [ps[|ps| - 1]];
    }
  }

  /** Every bucket has gained what the choices of positions say, behind what it held. */
  ghost predicate Filled(from: Table, to: Table, mur: HashFunction, w: Word, id: nat, ps: seq<seq<nat>>) {
    && (forall q <- ps :: Positions(q, |w|))
    && forall key :: Bucket(to, key) == Bucket(from, key) + Gained(mur, w, id, ps, key)
  }

  /** Puts a new word into the buckets of all its neighbours with `count` characters dropped. */
  method GenHashes(mur: HashFunction, w: Word, id: nat, count: nat, table: Table)
    returns (table': Table, ghost ps: seq<seq<nat>>)
    requires IsToken(w) && count <= 3
    ensures AllPositions(ps, |w|, count) && Filled(table, table', mur, w, id, ps)
    ensures Grown(table, table', id, |w|)
    ensures Indexed(table', mur, w, id, count)
  {
    hide Drop, Dropped, IsToken, Filled, Gained, AllPositions, DroppedAt;
    TokenLength(w);
    var neighbours;
    neighbours, ps := DeleteCount(w, count);
    table' := table;
    NothingFilled(table, mur, w, id);
    assert ps[..0] == [];
    for x := 0 to |neighbours|
      invariant |neighbours| == |ps| && Filled(table, table', mur, w, id, ps[..x])
    {
      assert ps[..x + 1] == ps[..x] + [ps[x]];
      DroppedThere(neighbours, w, ps, count, x);
      ghost var before := table';
      table' := Push(table', BucketKey(|w|, count, mur(neighbours[x])), id);
      FilledMore(table, before, table', mur, w, id, ps[..x], ps[x]);
    }
    assert ps[..|ps|] == ps;
    FilledIndexes(table, table', mur, w, id, ps, count);
  }

  lemma TokenLength(w: Word)
    requires IsToken(w)
    ensures |w| >= MIN_WORD_LENGTH
  {
  }

  lemma NothingFilled(table: Table, mur: HashFunction, w: Word, id: nat)
    ensures Filled(table, table, mur, w, id, [])
  {
    forall key ensures Bucket(table, key) == Bucket(table, key) + Gained(mur, w, id, [], key) {
    }
  }

  lemma DroppedThere(out: seq<Word>, w: Word, ps: seq<seq<nat>>, count: nat, x: nat)
    requires DroppedAt(out, w, ps) && AllPositions(ps, |w|, count) && x < |out|
    ensures |out| == |ps| && Positions(ps[x], |w|) && |ps[x]| == count && out[x] == Drop(w, ps[x])
  {
    assert ps[x] in ps;
  }

  lemma FilledMore(from: Table, t: Table, t': Table, mur: HashFunction, w: Word, id: nat, ps: seq<seq<nat>>,
                   q: seq<nat>)
    requires Filled(from, t, mur, w, id, ps) && Positions(q, |w|)
    requires forall k :: Bucket(t', k) == if k == KeyOf(mur, w, q) then Bucket(t, k) + [id] else Bucket(t, k)
    ensures Filled(from, t', mur, w, id, ps + [q])
  {
    hide Gained, Positions;
    forall k ensures Bucket(t', k) == Bucket(from, k) + Gained(mur, w, id, ps + [q], k) {
      GainedMore(mur, w, id, ps, q, k);
    }
  }

  /** The word is then in all its buckets, and no other number has come in. */
  lemma FilledIndexes(from: Table, to: Table, mur: HashFunction, w: Word, id: nat, ps: seq<seq<nat>>, count: nat)
    requires AllPositions(ps, |w|, count) && Filled(from, to, mur, w, id, ps)
    ensures Grown(from, to, id, |w|) && Indexed(to, mur, w, id, count)
  {
    forall key ensures forall x :: x in Gained(mur, w, id, ps, key) ==> x == id && key.length == |w| {
      GainedOnly(mur, w, id, ps, key);
      forall x | x in Gained(mur, w, id, ps, key) ensures x == id && key.length == |w| {
        var q :| q in ps && KeyOf(mur, w, q) == key;
      }
    }
    forall v | Dropped(v, w, count) ensures id in Bucket(to, BucketKey(|w|, count, mur(v))) {
      var q :| Positions(q, |w|) && |q| == count && v == Drop(w, q);
      assert q in ps;
      GainedOnly(mur, w, id, ps, KeyOf(mur, w, q));
    }
  }

  /** One entry of the relation between document words and query tokens. */
  datatype Entry = Entry(wid: nat, tid: nat, mask: Mask)

  /** The entry for the probing word `own` and a candidate, whichever of the two is the document word. */
  function Pair(own: nat, other: nat, mask: Mask, ownIsDoc: bool): Entry {
    if ownIsDoc then Entry(own, other, mask) else Entry(other, own, mask)
  }

  function Other(e: Entry, ownIsDoc: bool): nat {
    if ownIsDoc then e.tid else e.wid
  }

  /** An entry that says the truth about two words. */
  ghost predicate Correct(e: Entry, texts: seq<Word>) {
    && e.wid < |texts| && e.tid < |texts|
    && Exact(e.mask, texts[e.wid], texts[e.tid]) && e.mask != 0
  }

  /** Words `x` and `y` are within distance `k`. */
  ghost predicate Near(texts: seq<Word>, x: nat, y: nat, k: nat) {
    x < |texts| && y < |texts| && Lev(texts[x], texts[y]) <= k
  }

  /** No word of a bucket within distance three of `own` has been missed. */
  ghost predicate Seen(memory: set<nat>, ids: seq<nat>, texts: seq<Word>, own: nat) {
    forall id <- ids :: Near(texts, id, own, 3) ==> id in memory
  }

  /** What one probe may have added: correct entries for `own`, one for each word remembered. */
  ghost predicate Probed(added: seq<Entry>, memory: set<nat>, texts: seq<Word>, own: nat, ownIsDoc: bool) {
    && (forall e <- added :: Correct(e, texts) && e == Pair(own, Other(e, ownIsDoc), e.mask, ownIsDoc))
    && (forall a, b :: 0 <= a < b < |added| ==> Other(added[a], ownIsDoc) != Other(added[b], ownIsDoc))
    && (forall x :: x in memory <==> exists a :: 0 <= a < |added| && Other(added[a], ownIsDoc) == x)
  }

  /** The relation store of one worker. */
  class Relations {
    var entries: seq<Entry>

    constructor ()
      ensures entries == []
    {
      entries := [];
    }

    method Add(e: Entry)
      modifies this
      ensures entries == old(entries) + [e]
    {
      entries := entries + [e];
    }
  }

  /**
   * `SetDimis` and `SetDimisAnapodi`: runs the kernel on every word of a bucket not yet remembered. The
   * flag that would skip the kernel is reset before it is looked at, so every candidate is checked.
   */
  method CheckBucket(rel: Relations, memory: set<nat>, ids: seq<nat>, texts: seq<Word>, own: nat, ownIsDoc: bool,
                     ghost base: nat)
    returns (memory': set<nat>)
    requires AllTokens(texts)
    requires own < |texts| && forall id <- ids :: id < |texts|
    requires base <= |rel.entries| && Probed(rel.entries[base..], memory, texts, own, ownIsDoc)
    modifies rel
    ensures |rel.entries| >= base && rel.entries[..base] == old(rel.entries[..base])
    ensures Probed(rel.entries[base..], memory', texts, own, ownIsDoc)
    ensures memory' == memory + set id | id in ids && Near(texts, id, own, 3)
    ensures Seen(memory', ids, texts, own)
  {
    hide AllTokens, Probed, Near;
    memory' := memory;
    for x := 0 to |ids|
      invariant |rel.entries| >= base && rel.entries[..base] == old(rel.entries[..base])
      invariant Probed(rel.entries[base..], memory', texts, own, ownIsDoc)
      invariant memory' == memory + set id | id in ids[..x] && Near(texts, id, own, 3)
    {
      var id := ids[x];
      assert id in ids && ids[..x + 1] == ids[..x] + [id];
      memory' := CheckOne(rel, memory', id, texts, own, ownIsDoc, base);
    }
    assert ids[..|ids|] == ids;
  }

  /** One word of a bucket: the kernel is run on it unless it is remembered. */
  method CheckOne(rel: Relations, memory: set<nat>, id: nat, texts: seq<Word>, own: nat, ownIsDoc: bool,
                  ghost base: nat)
    returns (memory': set<nat>)
    requires AllTokens(texts) && own < |texts| && id < |texts|
    requires base <= |rel.entries| && Probed(rel.entries[base..], memory, texts, own, ownIsDoc)
    modifies rel
    ensures |rel.entries| >= base && rel.entries[..base] == old(rel.entries[..base])
    ensures Probed(rel.entries[base..], memory', texts, own, ownIsDoc)
    ensures memory' == memory + if Near(texts, id, own, 3) then {id} else {}
  {
    hide AllTokens, Probed;
    memory' := memory;
    if id in memory {
      KnownIsNear(rel.entries[base..], memory, texts, own, ownIsDoc, id);
      return;
    }
    WordOf(texts, own);
    WordOf(texts, id);
    var result;
    if ownIsDoc {
      result := Stavroshtein(texts[own], texts[id]);
      ExactNonzero(result, texts[own], texts[id]);
      LevSym(texts[own], texts[id]);
    } else {
      result := Stavroshtein(texts[id], texts[own]);
      ExactNonzero(result, texts[id], texts[own]);
    }
    if result != 0 {
      ProbedMore(rel.entries[base..], memory, texts, own, ownIsDoc, id, result);
      ghost var before := rel.entries;
      rel.Add(Pair(own, id, result, ownIsDoc));
      assert rel.entries[base..] == before[base..] + [Pair(own, id, result, ownIsDoc)];
      memory' := memory + {id};
    }
  }

  /** What is remembered is near. */
  lemma KnownIsNear(added: seq<Entry>, memory: set<nat>, texts: seq<Word>, own: nat, ownIsDoc: bool, id: nat)
    requires Probed(added, memory, texts, own, ownIsDoc) && id in memory && own < |texts|
    ensures Near(texts, id, own, 3)
  {
    var a :| 0 <= a < |added| && Other(added[a], ownIsDoc) == id;
    var e := added[a];
    assert e in added;
    ExactNonzero(e.mask, texts[e.wid], texts[e.tid]);
    LevSym(texts[e.wid], texts[e.tid]);
  }

  lemma ProbedMore(added: seq<Entry>, memory: set<nat>, texts: seq<Word>, own: nat, ownIsDoc: bool, id: nat, mask: Mask)
    requires Probed(added, memory, texts, own, ownIsDoc) && id !in memory
    requires Correct(Pair(own, id, mask, ownIsDoc), texts)
    ensures Probed(added + [Pair(own, id, mask, ownIsDoc)], memory + {id}, texts, own, ownIsDoc)
  {
    var e := Pair(own, id, mask, ownIsDoc);
    var added' := added + [e];
    forall x | x in memory + {id} ensures exists a :: 0 <= a < |added'| && Other(added'[a], ownIsDoc) == x {
      if x == id {
        assert Other(added'[|added|], ownIsDoc) == id;
      } else {
        var a :| 0 <= a < |added| && Other(added[a], ownIsDoc) == x;
        assert Other(added'[a], ownIsDoc) == x;
      }
    }
  }

  /** The table only holds existing words, each under its own length. */
  ghost predicate Sound(table: Table, texts: seq<Word>) {
    forall key, x: nat {:trigger x in Bucket(table, key)} ::
        x in Bucket(table, key) ==> x < |texts| && |texts[x]| == key.length
  }

  /** Word number `id` is in a bucket that some way of dropping `ana` characters of `w` leads to. */
  ghost predicate Candidate(table: Table, mur: HashFunction, length: nat, count: nat, ana: nat, w: Word, id: nat) {
    exists v | Dropped(v, w, ana) :: id in Bucket(table, BucketKey(length, count, mur(v)))
  }

  /** Word number `id` is in a bucket that is looked up for `w` at this tier. */
  ghost predicate LookedUp(table: Table, mur: HashFunction, length: nat, tier: nat, w: Word, id: nat) {
    if length >= |w| then
      length - |w| <= tier && Candidate(table, mur, length, tier, tier - (length - |w|), w, id)
    else
      |w| - length <= tier && Candidate(table, mur, length, tier - (|w| - length), tier, w, id)
  }

  /** `OnTheFly`: looks up every way of dropping `ana` characters of the probing word. */
  method OnTheFly(rel: Relations, mur: HashFunction, table: Table, length: nat, count: nat, ana: nat,
                  texts: seq<Word>, own: nat, ownIsDoc: bool)
    returns (memory: set<nat>)
    requires AllTokens(texts) && Sound(table, texts)
    requires own < |texts| && ana <= 3
    modifies rel
    ensures |rel.entries| >= |old(rel.entries)| && rel.entries[..|old(rel.entries)|] == old(rel.entries)
    ensures Probed(rel.entries[|old(rel.entries)|..], memory, texts, own, ownIsDoc)
    ensures forall id <- memory :: id < |texts| && |texts[id]| == length
    ensures forall v | Dropped(v, texts[own], ana) ::
            Seen(memory, Bucket(table, BucketKey(length, count, mur(v))), texts, own)
    ensures forall id :: id in memory <==>
                         Near(texts, id, own, 3) && Candidate(table, mur, length, count, ana, texts[own], id)
  {
    hide Probed, Dropped, AllTokens, Sound, Near, Seen, AllPositions, DroppedAt, Candidate;
    WordOf(texts, own);
    ghost var base := |rel.entries|;
    memory := {};
    NothingProbed(texts, own, ownIsDoc);
    assert rel.entries[base..] == [];
    var neighbours, _ := DeleteCount(texts[own], ana);
    for x := 0 to |neighbours|
      invariant |rel.entries| >= base && rel.entries[..base] == old(rel.entries)
      invariant Probed(rel.entries[base..], memory, texts, own, ownIsDoc)
      invariant forall id <- memory :: id < |texts| && |texts[id]| == length
      invariant forall id ::
                  id in memory <==> Near(texts, id, own, 3) && Among(table, mur, length, count, neighbours[..x], id)
    {
      assert neighbours[..x + 1] == neighbours[..x] + [neighbours[x]];
      var key := BucketKey(length, count, mur(neighbours[x]));
      var ids := Bucket(table, key);
      SoundBucket(table, texts, key);
      memory := CheckBucket(rel, memory, ids, texts, own, ownIsDoc, base);
      forall id: nat {
        AmongMore(table, mur, length, count, neighbours[..x], neighbours[x], id);
      }
    }
    assert neighbours[..|neighbours|] == neighbours;
    FoundAll(table, mur, length, count, ana, texts, own, neighbours, memory);
  }

  /** Word number `id` is in the bucket of one of the neighbours. */
  ghost predicate Among(table: Table, mur: HashFunction, length: nat, count: nat, neighbours: seq<Word>, id: nat) {
    exists v <- neighbours :: id in Bucket(table, BucketKey(length, count, mur(v)))
  }

  lemma AmongMore(table: Table, mur: HashFunction, length: nat, count: nat, neighbours: seq<Word>, v: Word, id: nat)
    ensures Among(table, mur, length, count, neighbours + [v], id) <==>
            Among(table, mur, length, count, neighbours, id) || id in Bucket(table, BucketKey(length, count, mur(v)))
  {
    assert v in neighbours + [v];
    forall v' | v' in neighbours ensures v' in neighbours + [v] {
    }
  }

  lemma SoundBucket(table: Table, texts: seq<Word>, key: BucketKey)
    requires Sound(table, texts)
    ensures forall id <- Bucket(table, key) :: id < |texts| && |texts[id]| == key.length
  {
  }

  /** What has been found is what is near among the candidates. */
  lemma FoundAll(table: Table, mur: HashFunction, length: nat, count: nat, ana: nat, texts: seq<Word>, own: nat,
                 neighbours: seq<Word>, memory: set<nat>)
    requires own < |texts| && forall v :: v in neighbours <==> Dropped(v, texts[own], ana)
    requires forall id :: id in memory <==> Near(texts, id, own, 3) && Among(table, mur, length, count, neighbours, id)
    ensures forall v | Dropped(v, texts[own], ana) ::
            Seen(memory, Bucket(table, BucketKey(length, count, mur(v))), texts, own)
    ensures forall id :: id in memory <==>
                         Near(texts, id, own, 3) && Candidate(table, mur, length, count, ana, texts[own], id)
  {
    hide Dropped, Near;
    forall id: nat ensures Among(table, mur, length, count, neighbours, id) <==>
                           Candidate(table, mur, length, count, ana, texts[own], id) {
    }
  }

  /** `x` has been paired with `own`. */
  ghost predicate Paired(entries: seq<Entry>, x: nat, own: nat, ownIsDoc: bool) {
    exists e <- entries :: e == Pair(own, x, e.mask, ownIsDoc)
  }

  /** A bucket that both words are in, at the depths the searches use. */
  lemma MeetsInBucket(table: Table, mur: HashFunction, w: Word, id: nat, own: Word, tier: nat) returns (v: Word)
    requires IsToken(own) && IsToken(w) && tier <= 3 && Lev(w, own) <= tier
    requires IndexedAll(table, mur, w, id)
    ensures |w| >= |own| ==>
            && |w| - |own| <= tier && Dropped(v, own, tier - (|w| - |own|))
            && id in Bucket(table, BucketKey(|w|, tier, mur(v)))
    ensures |w| < |own| ==>
            && |own| - |w| <= tier && Dropped(v, own, tier)
            && id in Bucket(table, BucketKey(|w|, tier - (|own| - |w|), mur(v)))
  {
    if |w| >= |own| {
      LevSym(w, own);
      v := MeetingPoint(own, w, tier);
      assert Indexed(table, mur, w, id, tier);
    } else {
      v := MeetingPoint(w, own, tier);
      assert Indexed(table, mur, w, id, tier - (|own| - |w|));
    }
  }

  /** Right entries for `own` and words of one length, within the tier, no word twice. */
  ghost predicate Joined(added: seq<Entry>, texts: seq<Word>, own: nat, ownIsDoc: bool, length: nat, tier: nat) {
    && (forall e <- added :: Correct(e, texts) && e == Pair(own, Other(e, ownIsDoc), e.mask, ownIsDoc))
    && (forall e <- added :: own < |texts| && length <= |texts[own]| + tier && |texts[own]| <= length + tier)
    && (forall e <- added :: Other(e, ownIsDoc) < |texts| && |texts[Other(e, ownIsDoc)]| == length)
    && (forall a, b :: 0 <= a < b < |added| ==> Other(added[a], ownIsDoc) != Other(added[b], ownIsDoc))
  }

  /** What a search has found is right, and of the length it has searched for. */
  lemma SearchJoins(added: seq<Entry>, found: set<nat>, texts: seq<Word>, own: nat, ownIsDoc: bool, length: nat,
                    tier: nat)
    requires Probed(added, found, texts, own, ownIsDoc) && forall id <- found :: id < |texts| && |texts[id]| == length
    requires own < |texts| && length <= |texts[own]| + tier && |texts[own]| <= length + tier
    ensures Joined(added, texts, own, ownIsDoc, length, tier)
  {
    forall e | e in added ensures Other(e, ownIsDoc) in found {
      var a :| 0 <= a < |added| && added[a] == e;
    }
  }

  lemma WordOf(texts: seq<Word>, x: nat)
    requires AllTokens(texts) && x < |texts|
    ensures IsToken(texts[x])
  {
  }

  lemma NothingProbed(texts: seq<Word>, own: nat, ownIsDoc: bool)
    ensures Probed([], {}, texts, own, ownIsDoc)
  {
  }

  lemma NothingJoined(added: seq<Entry>, texts: seq<Word>, own: nat, ownIsDoc: bool, length: nat, tier: nat)
    requires added == []
    ensures Joined(added, texts, own, ownIsDoc, length, tier) && Probed(added, {}, texts, own, ownIsDoc)
  {
  }

  lemma PairedIsFound(added: seq<Entry>, found: set<nat>, texts: seq<Word>, own: nat, ownIsDoc: bool, x: nat)
    requires Probed(added, found, texts, own, ownIsDoc)
    ensures Paired(added, x, own, ownIsDoc) <==> x in found
  {
    if Paired(added, x, own, ownIsDoc) {
      var e :| e in added && e == Pair(own, x, e.mask, ownIsDoc);
      var a :| 0 <= a < |added| && added[a] == e;
      assert Other(added[a], ownIsDoc) == x;
    }
    if x in found {
      var a :| 0 <= a < |added| && Other(added[a], ownIsDoc) == x;
      assert added[a] in added;
    }
  }

  /** A near word is among those found, because it is in a bucket that was looked up. */
  lemma SearchFinds(table: Table, mur: HashFunction, added: seq<Entry>, found: set<nat>, texts: seq<Word>, own: nat,
                    ownIsDoc: bool, length: nat, tier: nat, x: nat)
    requires AllTokens(texts) && own < |texts| && tier <= 3 && Probed(added, found, texts, own, ownIsDoc)
    requires Near(texts, x, own, tier) && |texts[x]| == length && IndexedAll(table, mur, texts[x], x)
    requires length >= |texts[own]| && length - |texts[own]| <= tier ==>
               forall v | Dropped(v, texts[own], tier - (length - |texts[own]|)) ::
                 Seen(found, Bucket(table, BucketKey(length, tier, mur(v))), texts, own)
    requires length < |texts[own]| && |texts[own]| - length <= tier ==>
               forall v | Dropped(v, texts[own], tier) ::
                 Seen(found, Bucket(table, BucketKey(length, tier - (|texts[own]| - length), mur(v))), texts, own)
    ensures Paired(added, x, own, ownIsDoc)
  {
    hide Dropped, IsToken, IndexedAll;
    WordOf(texts, own);
    WordOf(texts, x);
    var v := MeetsInBucket(table, mur, texts[x], x, texts[own], tier);
    assert x in found;
    var a :| 0 <= a < |added| && Other(added[a], ownIsDoc) == x;
    assert added[a] in added;
  }

  /**
   * `QD3`, `QD2`, `QD1`, `QD0` for one query token against the document words of one length, and, with the
   * roles swapped and `tier == 3`, `DQ` for one document word against the query tokens of one length.
   */
  method Join(rel: Relations, mur: HashFunction, table: Table, length: nat, tier: nat, texts: seq<Word>, own: nat,
              ownIsDoc: bool)
    requires AllTokens(texts) && Sound(table, texts)
    requires own < |texts| && tier <= 3
    modifies rel
    ensures |rel.entries| >= |old(rel.entries)| && rel.entries[..|old(rel.entries)|] == old(rel.entries)
    ensures var added := rel.entries[|old(rel.entries)|..];
            && Joined(added, texts, own, ownIsDoc, length, tier)
            && (forall x: nat | Near(texts, x, own, tier) && |texts[x]| == length
                && IndexedAll(table, mur, texts[x], x) ::
                  Paired(added, x, own, ownIsDoc))
            && (forall x: nat :: Paired(added, x, own, ownIsDoc) <==>
                  Near(texts, x, own, 3) && LookedUp(table, mur, length, tier, texts[own], x))
  {
    hide Probed, Seen, Joined, Paired, Sound, AllTokens, Dropped, IndexedAll, Candidate;
    var ownLength := |texts[own]|;
    var difference := if length >= ownLength then length - ownLength else ownLength - length;
    ghost var base := |rel.entries|;
    ghost var found: set<nat> := {};
    if difference <= tier {
      if length >= ownLength {
        found := OnTheFly(rel, mur, table, length, tier, tier - difference, texts, own, ownIsDoc);
      } else {
        found := OnTheFly(rel, mur, table, length, tier - difference, tier, texts, own, ownIsDoc);
      }
      SearchJoins(rel.entries[base..], found, texts, own, ownIsDoc, length, tier);
    } else {
      NothingJoined(rel.entries[base..], texts, own, ownIsDoc, length, tier);
    }
    ghost var added := rel.entries[base..];
    forall x: nat {
      PairedIsFound(added, found, texts, own, ownIsDoc, x);
    }
    forall x: nat | Near(texts, x, own, tier) && |texts[x]| == length && IndexedAll(table, mur, texts[x], x)
      ensures Paired(added, x, own, ownIsDoc)
    {
      SearchFinds(table, mur, added, found, texts, own, ownIsDoc, length, tier, x);
    }
  }
}
