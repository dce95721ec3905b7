/**
 * The bookkeeping between query slots and words, as values: which requests a slot has made of which word,
 * and what stays true of it while queries come and go.
 */
module QuerySlots {
  import opened Words
  import opened TokenStructs
  import opened TokenManager
  import opened Queries

  /** A `QueryInfo`: the ids of all queries that share the slot, and what they ask for. */
  datatype Slot = Slot(qids: seq<nat>, mt: MatchType, dist: nat, tids: seq<nat>)

  ghost predicate Distinct(ids: seq<nat>) {
    forall x, y :: 0 <= x < y < |ids| ==> ids[x] != ids[y]
  }

  ghost predicate SlotOk(words: nat, slot: Slot) {
    && IsRequest(slot.mt, slot.dist)
    && |slot.tids| <= MAX_QUERY_WORDS && Distinct(slot.tids) && forall p | 0 <= p < |slot.tids| :: slot.tids[p] < words
  }

  /** What a slot has filed; slot number `out` has taken back the first `k` of its requests. */
  ghost predicate Asks(slots: seq<Slot>, out: nat, k: nat, info: TokenQmidInfo, x: nat, b: nat) {
    1 <= info.qmid <= |slots| &&
    var slot := slots[info.qmid - 1];
    && info.position < |slot.tids| && (info.qmid - 1 == out ==> k <= info.position)
    && slot.tids[info.position] == x
    && IsRequest(slot.mt, slot.dist) && IsFiled(slot.mt, slot.dist) && b == BucketOf(slot.mt, slot.dist)
  }

  /** Bucket `b` of word `x` lists a slot and a position exactly if that slot asks for `x` there, in `b`. */
  ghost predicate Tracked(lists: seq<Slots>, slots: seq<Slot>, out: nat, k: nat) {
    && (forall x | 0 <= x < |lists| :: |lists[x]| == 7)
    && (forall s | 0 <= s < |slots| :: SlotOk(|lists|, slots[s]))
    && forall x: nat, b: nat, info | x < |lists| && b < 7 :: info in lists[x][b] <==> Asks(slots, out, k, info, x, b)
  }

  /** No bucket lists a slot twice. */
  ghost predicate ListedOnce(list: seq<TokenQmidInfo>) {
    forall i, j :: 0 <= i < j < |list| ==> list[i].qmid != list[j].qmid
  }

  ghost predicate AllListedOnce(lists: seq<Slots>) {
    forall x: nat, b: nat | x < |lists| && b < |lists[x]| :: ListedOnce(lists[x][b])
  }

  // ----- requests made and taken back -----

  lemma AskedWordsExist(lists: seq<Slots>, slots: seq<Slot>, out: nat, k: nat, info: TokenQmidInfo, x: nat, b: nat)
    requires Tracked(lists, slots, out, k)
    ensures Asks(slots, out, k, info, x, b) ==> x < |lists| && b < 7
  {
  }

  /** A new word has no requests yet. */
  lemma TrackedWithWord(lists: seq<Slots>, slots: seq<Slot>, out: nat, k: nat)
    requires Tracked(lists, slots, out, k) && AllListedOnce(lists)
    ensures Tracked(lists + [NO_SLOTS], slots, out, k) && AllListedOnce(lists + [NO_SLOTS])
  {
    var lists' := lists + [NO_SLOTS];
    forall x: nat, b: nat, info | x < |lists'| && b < 7
      ensures info in lists'[x][b] <==> Asks(slots, out, k, info, x, b)
    {
      AskedWordsExist(lists, slots, out, k, info, x, b);
      if x < |lists| {
        assert info in lists[x][b] <==> Asks(slots, out, k, info, x, b);
      }
    }
  }

  /** Slot number `s` asks for one more word. */
  lemma TrackedWithRequest(lists: seq<Slots>, slots: seq<Slot>, s: nat, tid: nat, slots': seq<Slot>, lists': seq<Slots>)
    requires Tracked(lists, slots, |slots|, 0) && AllListedOnce(lists)
    requires s < |slots| && tid < |lists| && tid !in slots[s].tids && |slots[s].tids| < MAX_QUERY_WORDS
    requires slots' == slots[s := slots[s].(tids := slots[s].tids + [tid])]
    requires var info := TokenQmidInfo(s + 1, |slots[s].tids|);
             lists' == lists[tid := Filed(lists[tid], slots[s].mt, slots[s].dist, info)]
    ensures Tracked(lists', slots', |slots'|, 0) && AllListedOnce(lists')
  {
    var added, b := TokenQmidInfo(s + 1, |slots[s].tids|), BucketOf(slots[s].mt, slots[s].dist);
    var filed := IsFiled(slots[s].mt, slots[s].dist);
    forall x: nat, b': nat, info | x < |lists'| && b' < 7
      ensures info in lists'[x][b'] <==> Asks(slots', |slots'|, 0, info, x, b')
    {
      assert info in lists[x][b'] <==> Asks(slots, |slots|, 0, info, x, b');
      assert info in lists'[x][b'] <==> info in lists[x][b'] || (filed && x == tid && b' == b && info == added);
    }
    forall info | info in lists[tid][b] ensures info.qmid != s + 1 || !filed {
      assert Asks(slots, |slots|, 0, info, tid, b);
    }
  }

  /** The buckets without one entry. */
  ghost predicate Shortened(lists: seq<Slots>, lists': seq<Slots>, x: nat, b: nat, info: TokenQmidInfo) {
    && |lists'| == |lists| && x < |lists| && |lists[x]| == |lists'[x]| == 7 && b < 7
    && (forall y | 0 <= y < |lists| && y != x :: lists'[y] == lists[y])
    && (forall c | 0 <= c < 7 && c != b :: lists'[x][c] == lists[x][c])
    && (forall other :: other in lists'[x][b] <==> other in lists[x][b] && other != info)
    && (ListedOnce(lists[x][b]) ==> ListedOnce(lists'[x][b]))
  }

  /** Slot number `s` has taken its request number `k` back. */
  lemma TrackedShortened(lists: seq<Slots>, slots: seq<Slot>, s: nat, k: nat, lists': seq<Slots>)
    requires Tracked(lists, slots, s, k) && s < |slots| && k < |slots[s].tids| && IsFiled(slots[s].mt, slots[s].dist)
    requires IsRequest(slots[s].mt, slots[s].dist)
    requires Shortened(lists, lists', slots[s].tids[k], BucketOf(slots[s].mt, slots[s].dist), TokenQmidInfo(s + 1, k))
    ensures Tracked(lists', slots, s, k + 1)
  {
    var tid, b := slots[s].tids[k], BucketOf(slots[s].mt, slots[s].dist);
    forall x: nat, b': nat, info | x < |lists'| && b' < 7
      ensures info in lists'[x][b'] <==> Asks(slots, s, k + 1, info, x, b')
    {
      assert info in lists[x][b'] <==> Asks(slots, s, k, info, x, b');
      assert info in lists'[x][b'] <==>
             info in lists[x][b'] && !(x == tid && b' == b && info == TokenQmidInfo(s + 1, k));
    }
  }

  lemma ListedShortened(lists: seq<Slots>, lists': seq<Slots>, x: nat, b: nat, info: TokenQmidInfo)
    requires AllListedOnce(lists) && Shortened(lists, lists', x, b, info)
    ensures AllListedOnce(lists')
  {
    forall y: nat, c: nat | y < |lists'| && c < |lists'[y]| ensures ListedOnce(lists'[y][c]) {
      assert y == x && c == b ==> ListedOnce(lists[x][b]);
    }
  }

  /** The first entry of a slot in the bucket of its request is that request. */
  lemma FirstIsRequest(lists: seq<Slots>, slots: seq<Slot>, s: nat, k: nat)
    requires Tracked(lists, slots, s, k) && AllListedOnce(lists) && s < |slots| && k < |slots[s].tids|
    requires IsFiled(slots[s].mt, slots[s].dist)
    ensures SlotOk(|lists|, slots[s]) && |lists[slots[s].tids[k]]| == 7
    ensures var list := lists[slots[s].tids[k]][BucketOf(slots[s].mt, slots[s].dist)];
            var at := FirstOf(list, s + 1);
            at < |list| && list[at] == TokenQmidInfo(s + 1, k)
  {
    var tid, b := slots[s].tids[k], BucketOf(slots[s].mt, slots[s].dist);
    var mine := TokenQmidInfo(s + 1, k);
    assert Asks(slots, s, k, mine, tid, b);
    assert mine in lists[tid][b] && ListedOnce(lists[tid][b]);
    FirstIsThis(lists[tid][b], mine);
  }

  /** A slot with requests that are not filed is in no bucket. */
  lemma UnfiledNowhere(lists: seq<Slots>, slots: seq<Slot>, s: nat, k: nat, x: nat, b: nat)
    requires Tracked(lists, slots, s, k) && s < |slots| && !IsFiled(slots[s].mt, slots[s].dist) && x < |lists| && b < 7
    ensures |lists[x]| == 7 && FirstOf(lists[x][b], s + 1) == |lists[x][b]|
    ensures Tracked(lists, slots, s, k + 1)
  {
    var list := lists[x][b];
    var at := FirstOf(list, s + 1);
    assert at < |list| ==> list[at] in list;
    assert at < |list| ==> Asks(slots, s, k, list[at], x, b);
    forall x: nat, b: nat, info | x < |lists| && b < 7
      ensures info in lists[x][b] <==> Asks(slots, s, k + 1, info, x, b)
    {
      assert info in lists[x][b] <==> Asks(slots, s, k, info, x, b);
    }
  }

  /**
   * Slot number `s` takes its request number `k` back: the first entry of the slot in that bucket is the one, and
   * a request that was not filed has none.
   */
  lemma TrackedWithoutRequest(lists: seq<Slots>, slots: seq<Slot>, s: nat, k: nat, b: nat, lists': seq<Slots>)
    requires Tracked(lists, slots, s, k) && AllListedOnce(lists) && s < |slots| && k < |slots[s].tids|
    requires SlotOk(|lists|, slots[s]) && b == BucketOf(slots[s].mt, slots[s].dist)
    requires var tid := slots[s].tids[k];
             |lists[tid]| == 7 &&
             var list, x := lists[tid][b], FirstOf(lists[tid][b], s + 1);
             lists' == if x == |list| then lists else lists[tid := lists[tid][b := list[..x] + list[x + 1..]]]
    ensures Tracked(lists', slots, s, k + 1) && AllListedOnce(lists')
  {
    hide Tracked, AllListedOnce, Asks, ListedOnce;
    var tid := slots[s].tids[k];
    if IsFiled(slots[s].mt, slots[s].dist) {
      FirstIsRequest(lists, slots, s, k);
      ShortenedAt(lists, tid, b, FirstOf(lists[tid][b], s + 1));
      ListedShortened(lists, lists', tid, b, TokenQmidInfo(s + 1, k));
      TrackedShortened(lists, slots, s, k, lists');
    } else {
      UnfiledNowhere(lists, slots, s, k, tid, b);
    }
  }

  lemma ShortenedAt(lists: seq<Slots>, x: nat, b: nat, at: nat)
    requires AllListedOnce(lists) && x < |lists| && |lists[x]| == 7 && b < 7 && at < |lists[x][b]|
    ensures var list := lists[x][b];
            Shortened(lists, lists[x := lists[x][b := list[..at] + list[at + 1..]]], x, b, list[at])
  {
    var list := lists[x][b];
    forall other {
      RemovedOne(list, at, other);
    }
  }

  lemma FirstIsThis(list: seq<TokenQmidInfo>, info: TokenQmidInfo)
    requires ListedOnce(list) && info in list
    ensures var at := FirstOf(list, info.qmid); at < |list| && list[at] == info
  {
    var y :| 0 <= y < |list| && list[y] == info;
    assert FirstOf(list, info.qmid) <= y;
  }

  lemma RemovedOne(list: seq<TokenQmidInfo>, at: nat, info: TokenQmidInfo)
    requires at < |list| && ListedOnce(list)
    ensures info in list[..at] + list[at + 1..] <==> info in list && info != list[at]
    ensures ListedOnce(list[..at] + list[at + 1..])
  {
    var rest := list[..at] + list[at + 1..];
    if info in list && info != list[at] {
      var x :| 0 <= x < |list| && list[x] == info;
      assert rest[if x < at then x else x - 1] == info;
    }
    if info in rest {
      var x :| 0 <= x < |rest| && rest[x] == info;
      assert list[if x < at then x else x + 1] == info;
    }
  }

  /** Ids do not matter to the requests, nor does what an idle slot would ask for. */
  lemma TrackedAlike(lists: seq<Slots>, slots: seq<Slot>, out: nat, slots': seq<Slot>, out': nat)
    requires Tracked(lists, slots, out, 0) && |slots| <= |slots'|
    requires forall x | 0 <= x < |slots'| :: IsRequest(slots'[x].mt, slots'[x].dist)
    requires forall x | 0 <= x < |slots'| :: slots'[x].tids == if x < |slots| then slots[x].tids else []
    requires forall x | 0 <= x < |slots| && slots[x].tids != [] ::
             slots'[x].mt == slots[x].mt && slots'[x].dist == slots[x].dist
    ensures Tracked(lists, slots', out', 0)
  {
    forall x: nat, b: nat, info | x < |lists| && b < 7
      ensures info in lists[x][b] <==> Asks(slots', out', 0, info, x, b)
    {
      assert info in lists[x][b] <==> Asks(slots, out, 0, info, x, b);
    }
  }

  /** A slot that has taken all its requests back is idle. */
  lemma TrackedCleaned(lists: seq<Slots>, slots: seq<Slot>, s: nat)
    requires s < |slots| && Tracked(lists, slots, s, |slots[s].tids|)
    ensures Tracked(lists, slots[s := slots[s].(tids := [])], |slots|, 0)
  {
    var slots' := slots[s := slots[s].(tids := [])];
    forall x: nat, b: nat, info | x < |lists| && b < 7
      ensures info in lists[x][b] <==> Asks(slots', |slots|, 0, info, x, b)
    {
      assert info in lists[x][b] <==> Asks(slots, s, |slots[s].tids|, info, x, b);
    }
  }

  // ----- live queries -----

  /** The slot asks for exactly what the query asks for. */
  ghost predicate Serves(texts: seq<Word>, slot: Slot, p: Pattern) {
    && slot.mt == p.mt && slot.dist == p.dist && |slot.tids| == |p.words|
    && forall x | 0 <= x < |p.words| :: slot.tids[x] < |texts| && texts[slot.tids[x]] == p.words[x]
  }

  ghost predicate Increasing(ids: seq<nat>) {
    forall x, y :: 0 <= x < y < |ids| ==> ids[x] < ids[y]
  }

  /** The id is in slot number `m`, which serves its query. */
  ghost predicate LiveAt(texts: seq<Word>, slots: seq<Slot>, p: Pattern, m: nat, id: nat) {
    IsPattern(p) && 1 <= m <= |slots| && id in slots[m - 1].qids && Serves(texts, slots[m - 1], p)
  }

  /** The ids in slot number `m` are live, and registered for this slot. */
  ghost predicate IdsOk(slot: Slot, live: set<nat>, qidIndex: map<nat, nat>, m: nat) {
    Increasing(slot.qids) && forall id <- slot.qids :: id in live && id in qidIndex && qidIndex[id] == m
  }

  /** Every live id is in the one slot it is registered for, which serves its query; no other id is in a slot. */
  ghost predicate LiveOk(texts: seq<Word>, slots: seq<Slot>, live: map<nat, Pattern>, qidIndex: map<nat, nat>) {
    && (forall id <- qidIndex :: 1 <= qidIndex[id] <= |slots|)
    && (forall id <- live :: id in qidIndex && LiveAt(texts, slots, live[id], qidIndex[id], id))
    && (forall s: nat | s < |slots| :: IdsOk(slots[s], live.Keys, qidIndex, s + 1))
  }

  /** The recycle stack holds exactly the slots without ids, each once, and these have no requests. */
  ghost predicate EmptyOk(slots: seq<Slot>, empty: seq<nat>) {
    && Distinct(empty)
    && (forall m <- empty :: 1 <= m <= |slots|)
    && (forall s: nat | s < |slots| :: s + 1 in empty <==> slots[s].qids == [])
    && (forall s: nat | s < |slots| :: slots[s].qids == [] ==> slots[s].tids == [])
  }

  function HashBucket(qmidIndex: map<nat, seq<nat>>, h: nat): seq<nat> {
    if h in qmidIndex then qmidIndex[h] else []
  }

  /** Hash entries name existing slots, perhaps stale ones; a slot in use is found under the hash of its queries. */
  ghost predicate HashOk(slots: seq<Slot>, live: map<nat, Pattern>, qmidIndex: map<nat, seq<nat>>) {
    && (forall h: nat, m: nat | m in HashBucket(qmidIndex, h) :: 1 <= m <= |slots|)
    && (forall s: nat, id: nat | s < |slots| && id in slots[s].qids && id in live ::
        s + 1 in HashBucket(qmidIndex, HashOf(live[id])))
  }

  lemma ServesLater(texts: seq<Word>, texts': seq<Word>, slot: Slot, p: Pattern)
    requires texts <= texts' && Serves(texts, slot, p)
    ensures Serves(texts', slot, p)
  {
  }

  /** What a slot serves is one pattern only. */
  lemma ServesOne(texts: seq<Word>, slot: Slot, p: Pattern, p': Pattern)
    requires Serves(texts, slot, p) && Serves(texts, slot, p')
    ensures p == p'
  {
    assert p.words == p'.words;
  }

  /** One more id in a slot, which may have been empty before, or with another in its place. */
  lemma LiveAdded(texts: seq<Word>, slots: seq<Slot>, live: map<nat, Pattern>, qidIndex: map<nat, nat>,
                  texts': seq<Word>, slots': seq<Slot>, s: nat, id: nat, p: Pattern)
    requires LiveOk(texts, slots, live, qidIndex) && texts <= texts' && id !in live && IsPattern(p)
    requires |slots| <= |slots'| && s < |slots'| && forall x | 0 <= x < |slots'| && x != s ::
             x < |slots| && slots'[x] == slots[x]
    requires Serves(texts', slots'[s], p) && Increasing(slots'[s].qids)
    requires forall x :: x in slots'[s].qids <==> x == id || (s < |slots| && x in slots[s].qids)
    requires s < |slots| && slots[s].qids != [] ==> slots'[s] == slots[s].(qids := slots'[s].qids)
    ensures LiveOk(texts', slots', live[id := p], qidIndex[id := s + 1])
  {
    var live', qidIndex' := live[id := p], qidIndex[id := s + 1];
    forall x | x in live' && x != id ensures LiveAt(texts', slots', live'[x], qidIndex'[x], x) {
      assert LiveAt(texts, slots, live[x], qidIndex[x], x);
      ServesLater(texts, texts', slots[qidIndex[x] - 1], live[x]);
    }
    forall s': nat | s' < |slots'| ensures IdsOk(slots'[s'], live'.Keys, qidIndex', s' + 1) {
      assert s' < |slots| ==> IdsOk(slots[s'], live.Keys, qidIndex, s' + 1);
    }
  }

  /** One id less in a slot. */
  lemma LiveRemoved(texts: seq<Word>, slots: seq<Slot>, live: map<nat, Pattern>, qidIndex: map<nat, nat>,
                    slots': seq<Slot>, s: nat, id: nat)
    requires LiveOk(texts, slots, live, qidIndex) && id in live && s + 1 == qidIndex[id]
    requires |slots'| == |slots| && s < |slots| && forall x | 0 <= x < |slots| && x != s :: slots'[x] == slots[x]
    requires Increasing(slots'[s].qids) && forall x :: x in slots'[s].qids <==> x in slots[s].qids && x != id
    requires slots'[s].qids != [] ==> slots'[s] == slots[s].(qids := slots'[s].qids)
    ensures LiveOk(texts, slots', live - {id}, qidIndex)
  {
    var live' := live - {id};
    forall x | x in live' ensures LiveAt(texts, slots', live'[x], qidIndex[x], x) {
      assert LiveAt(texts, slots, live[x], qidIndex[x], x);
    }
    forall s': nat | s' < |slots'| ensures IdsOk(slots'[s'], live'.Keys, qidIndex, s' + 1) {
      assert IdsOk(slots[s'], live.Keys, qidIndex, s' + 1);
      if s' != s {
        assert IdsOk(slots[s], live.Keys, qidIndex, s + 1);
      }
    }
  }

  lemma IdsLive(texts: seq<Word>, slots: seq<Slot>, live: map<nat, Pattern>, qidIndex: map<nat, nat>)
    requires LiveOk(texts, slots, live, qidIndex)
    ensures forall s: nat, x: nat | s < |slots| && x in slots[s].qids :: x in live
  {
    forall s: nat, x: nat | s < |slots| && x in slots[s].qids ensures x in live {
      assert IdsOk(slots[s], live.Keys, qidIndex, s + 1);
    }
  }

  lemma HashAdded(slots: seq<Slot>, live: map<nat, Pattern>, qmidIndex: map<nat, seq<nat>>,
                  slots': seq<Slot>, qmidIndex': map<nat, seq<nat>>, s: nat, id: nat, p: Pattern)
    requires HashOk(slots, live, qmidIndex) && id !in live
    requires forall s: nat, x: nat | s < |slots| && x in slots[s].qids :: x in live
    requires |slots| <= |slots'| && s < |slots'| && forall x | 0 <= x < |slots'| && x != s ::
             x < |slots| && slots'[x] == slots[x]
    requires forall x :: x in slots'[s].qids <==> x == id || (s < |slots| && x in slots[s].qids)
    requires forall h: nat, m: nat :: m in HashBucket(qmidIndex, h) ==> m in HashBucket(qmidIndex', h)
    requires forall h: nat, m: nat :: m in HashBucket(qmidIndex', h) ==> m in HashBucket(qmidIndex, h) || m == s + 1
    requires s + 1 in HashBucket(qmidIndex', HashOf(p))
    ensures HashOk(slots', live[id := p], qmidIndex')
  {
  }

  /** Live queries that ask for the same share a slot if and only if their words are light enough for the hash test. */
  ghost predicate SharedIfLight(live: map<nat, Pattern>, qidIndex: map<nat, nat>) {
    forall id, other | id in live && other in live && live[id] == live[other] && id != other ::
      id in qidIndex && other in qidIndex && (qidIndex[id] == qidIndex[other] <==> Light(live[id]))
  }

  /** A query that got a slot of its own is not light, or the first of its kind. */
  lemma SharedOwn(texts: seq<Word>, slots: seq<Slot>, live: map<nat, Pattern>, qidIndex: map<nat, nat>, s: nat,
                  id: nat, p: Pattern)
    requires LiveOk(texts, slots, live, qidIndex) && SharedIfLight(live, qidIndex) && id !in live
    requires (s < |slots| ==> slots[s].qids == []) && (!Served(texts, slots, p) || !Light(p))
    ensures SharedIfLight(live[id := p], qidIndex[id := s + 1])
  {
    forall other | other in live
      ensures other in qidIndex && qidIndex[other] != s + 1 && (live[other] == p ==> !Light(p))
    {
      assert LiveAt(texts, slots, live[other], qidIndex[other], other);
    }
  }

  /** A query that joined others is light. */
  lemma SharedJoined(texts: seq<Word>, slots: seq<Slot>, live: map<nat, Pattern>, qidIndex: map<nat, nat>, s: nat,
                     id: nat, p: Pattern)
    requires LiveOk(texts, slots, live, qidIndex) && SharedIfLight(live, qidIndex) && id !in live
    requires s < |slots| && Serves(texts, slots[s], p) && Light(p) && slots[s].qids != []
    ensures SharedIfLight(live[id := p], qidIndex[id := s + 1])
  {
    var first := slots[s].qids[0];
    assert IdsOk(slots[s], live.Keys, qidIndex, s + 1);
    assert LiveAt(texts, slots, live[first], s + 1, first);
    ServesOne(texts, slots[s], live[first], p);
    forall other | other in live
      ensures other in qidIndex && (live[other] == p ==> qidIndex[other] == s + 1)
    {
      assert LiveAt(texts, slots, live[other], qidIndex[other], other);
      assert other == first || live[other] != p || (qidIndex[other] == qidIndex[first] <==> Light(p));
    }
  }

  /** The bookkeeping between slots and words. */
  ghost predicate Linked(view: View, slots: seq<Slot>) {
    Tracked(view.slots, slots, |slots|, 0) && AllListedOnce(view.slots)
  }

  /** Everything that is to stay true of the query index between calls. */
  ghost predicate Consistent(view: View, slots: seq<Slot>, live: map<nat, Pattern>, empty: seq<nat>,
                             qidIndex: map<nat, nat>, qmidIndex: map<nat, seq<nat>>) {
    && Linked(view, slots)
    && LiveOk(view.texts, slots, live, qidIndex) && EmptyOk(slots, empty) && HashOk(slots, live, qmidIndex)
    && SharedIfLight(live, qidIndex)
  }

  /** An id never registered is not live, nor in any slot. */
  lemma NewIdNotLive(view: View, slots: seq<Slot>, live: map<nat, Pattern>, empty: seq<nat>,
                     qidIndex: map<nat, nat>, qmidIndex: map<nat, seq<nat>>, id: nat)
    requires Consistent(view, slots, live, empty, qidIndex, qmidIndex) && id !in qidIndex
    ensures id !in live
    ensures forall s: nat | s < |slots| :: Increasing(slots[s].qids) && id !in slots[s].qids
  {
    forall s: nat | s < |slots| ensures Increasing(slots[s].qids) && id !in slots[s].qids {
      assert IdsOk(slots[s], live.Keys, qidIndex, s + 1);
    }
  }

  /** Some slot, used or not, has the request the pattern makes. */
  ghost predicate Served(texts: seq<Word>, slots: seq<Slot>, p: Pattern) {
    exists s | 0 <= s < |slots| :: Serves(texts, slots[s], p)
  }

  /** A slot with requests is in use, and then it can be found under the hash value of what it asks for. */
  lemma ServesIsFound(view: View, slots: seq<Slot>, live: map<nat, Pattern>, empty: seq<nat>,
                      qidIndex: map<nat, nat>, qmidIndex: map<nat, seq<nat>>, s: nat, p: Pattern)
    requires Consistent(view, slots, live, empty, qidIndex, qmidIndex)
    requires s < |slots| && Serves(view.texts, slots[s], p) && p.words != []
    ensures slots[s].qids != [] && s + 1 in HashBucket(qmidIndex, HashOf(p))
  {
    var id := slots[s].qids[0];
    assert id in slots[s].qids;
    assert IdsOk(slots[s], live.Keys, qidIndex, s + 1);
    assert LiveAt(view.texts, slots, live[id], s + 1, id);
    ServesOne(view.texts, slots[s], live[id], p);
  }

  function Pushed(qmidIndex: map<nat, seq<nat>>, h: nat, m: nat): map<nat, seq<nat>> {
    qmidIndex[h := HashBucket(qmidIndex, h) + [m]]
  }

  lemma PushedHolds(qmidIndex: map<nat, seq<nat>>, h: nat, m: nat)
    ensures forall h': nat, m': nat ::
              m' in HashBucket(Pushed(qmidIndex, h, m), h') <==> m' in HashBucket(qmidIndex, h') || (h' == h && m' == m)
  {
  }

  lemma EmptyPopped(slots: seq<Slot>, empty: seq<nat>, slots': seq<Slot>, s: nat)
    requires EmptyOk(slots, empty) && empty != [] && s + 1 == empty[|empty| - 1] && s < |slots|
    requires |slots'| == |slots| && slots'[s].qids != [] && forall x | 0 <= x < |slots| && x != s ::
             slots'[x] == slots[x]
    ensures EmptyOk(slots', empty[..|empty| - 1])
  {
    var rest := empty[..|empty| - 1];
    assert empty == rest + [s + 1];
    assert Distinct(rest);
    assert forall m <- rest :: m in empty;
    assert forall s': nat | s' < |slots'| :: slots'[s'].qids == [] ==> s' != s && slots'[s'] == slots[s'];
    forall s': nat | s' < |slots'| ensures s' + 1 in rest <==> slots'[s'].qids == [] {
      assert s' + 1 in empty <==> slots[s'].qids == [];
    }
  }

  /** With an id gone, a slot is still found, and with its last id gone it need not be. */
  lemma HashRemoved(slots: seq<Slot>, live: map<nat, Pattern>, qmidIndex: map<nat, seq<nat>>, slots': seq<Slot>,
                    s: nat, id: nat)
    requires HashOk(slots, live, qmidIndex) && s < |slots| == |slots'|
    requires forall x | 0 <= x < |slots| && x != s :: slots'[x].qids == slots[x].qids
    requires forall x :: x in slots'[s].qids ==> x in slots[s].qids
    ensures HashOk(slots', live - {id}, qmidIndex)
  {
    forall s': nat, x: nat | s' < |slots'| && x in slots'[s'].qids && x in live - {id}
      ensures s' + 1 in HashBucket(qmidIndex, HashOf((live - {id})[x]))
    {
      assert x in slots[s'].qids && x in live;
    }
  }

  lemma EmptyPushed(slots: seq<Slot>, empty: seq<nat>, slots': seq<Slot>, s: nat)
    requires EmptyOk(slots, empty) && s < |slots| && slots[s].qids != []
    requires |slots'| == |slots| && slots'[s].qids == slots'[s].tids == [] && forall x | 0 <= x < |slots| && x != s ::
             slots'[x] == slots[x]
    ensures EmptyOk(slots', empty + [s + 1])
  {
    forall s': nat | s' < |slots'| ensures s' + 1 in empty + [s + 1] <==> slots'[s'].qids == [] {
      assert s' + 1 in empty <==> slots[s'].qids == [];
    }
  }

  /** Slot number `s` was on top of the recycle stack or, if that was empty, is a new one; the others are as before. */
  ghost predicate Taken(slots: seq<Slot>, empty: seq<nat>, slots': seq<Slot>, empty': seq<nat>, s: nat) {
    && s < |slots'|
    && (if empty == [] then s == |slots| && |slots'| == s + 1 && empty' == [] else
        s + 1 == empty[|empty| - 1] && |slots'| == |slots| && empty' == empty[..|empty| - 1])
    && forall x | 0 <= x < |slots| && x != s :: slots'[x] == slots[x]
  }

  /** A query has moved into a slot of its own: a recycled one or, if there is none, a new one. */
  lemma QueryAdded(view: View, slots: seq<Slot>, live: map<nat, Pattern>, empty: seq<nat>, qidIndex: map<nat, nat>,
                   qmidIndex: map<nat, seq<nat>>, view': View, slots': seq<Slot>, empty': seq<nat>,
                   s: nat, id: nat, p: Pattern)
    requires Consistent(view, slots, live, empty, qidIndex, qmidIndex) && view.texts <= view'.texts && id !in live
             && IsPattern(p)
    requires Linked(view', slots') && (!Served(view.texts, slots, p) || !Light(p))
    requires Taken(slots, empty, slots', empty', s) && slots'[s].qids == [id] && Serves(view'.texts, slots'[s], p)
    ensures Consistent(view', slots', live[id := p], empty', qidIndex[id := s + 1], Pushed(qmidIndex, HashOf(p), s + 1))
  {
    if empty != [] {
      assert s + 1 in empty;
      EmptyPopped(slots, empty, slots', s);
    }
    IdsLive(view.texts, slots, live, qidIndex);
    LiveAdded(view.texts, slots, live, qidIndex, view'.texts, slots', s, id, p);
    SharedOwn(view.texts, slots, live, qidIndex, s, id, p);
    PushedHolds(qmidIndex, HashOf(p), s + 1);
    HashAdded(slots, live, qmidIndex, slots', Pushed(qmidIndex, HashOf(p), s + 1), s, id, p);
  }

  /** A query has joined the slot that serves it already. */
  lemma QueryJoined(view: View, slots: seq<Slot>, live: map<nat, Pattern>, empty: seq<nat>, qidIndex: map<nat, nat>,
                    qmidIndex: map<nat, seq<nat>>, qids: seq<nat>, s: nat, id: nat, p: Pattern)
    requires Consistent(view, slots, live, empty, qidIndex, qmidIndex) && id !in live && IsPattern(p)
    requires s < |slots| && Serves(view.texts, slots[s], p) && Light(p)
    requires Increasing(qids) && forall x :: x in qids <==> x in slots[s].qids || x == id
    ensures Consistent(view, slots[s := slots[s].(qids := qids)], live[id := p], empty, qidIndex[id := s + 1],
                       qmidIndex)
  {
    var slots' := slots[s := slots[s].(qids := qids)];
    IdsLive(view.texts, slots, live, qidIndex);
    ServesIsFound(view, slots, live, empty, qidIndex, qmidIndex, s, p);
    assert id in slots'[s].qids;
    TrackedAlike(view.slots, slots, |slots|, slots', |slots'|);
    LiveAdded(view.texts, slots, live, qidIndex, view.texts, slots', s, id, p);
    SharedJoined(view.texts, slots, live, qidIndex, s, id, p);
    HashAdded(slots, live, qmidIndex, slots', qmidIndex, s, id, p);
  }

  /** A query has left a slot that others still use. */
  lemma QueryLeft(view: View, slots: seq<Slot>, live: map<nat, Pattern>, empty: seq<nat>, qidIndex: map<nat, nat>,
                  qmidIndex: map<nat, seq<nat>>, qids: seq<nat>, s: nat, id: nat)
    requires Consistent(view, slots, live, empty, qidIndex, qmidIndex) && id in live && qidIndex[id] == s + 1
    requires s < |slots| && qids != []
    requires Increasing(qids) && forall x :: x in qids <==> x in slots[s].qids && x != id
    ensures Consistent(view, slots[s := slots[s].(qids := qids)], live - {id}, empty, qidIndex, qmidIndex)
  {
    var slots' := slots[s := slots[s].(qids := qids)];
    TrackedAlike(view.slots, slots, |slots|, slots', |slots'|);
    LiveRemoved(view.texts, slots, live, qidIndex, slots', s, id);
    HashRemoved(slots, live, qmidIndex, slots', s, id);
    assert LiveAt(view.texts, slots, live[id], s + 1, id);
    EmptyStays(slots, empty, slots', s);
  }

  lemma EmptyStays(slots: seq<Slot>, empty: seq<nat>, slots': seq<Slot>, s: nat)
    requires EmptyOk(slots, empty) && s < |slots| == |slots'| && slots[s].qids != [] && slots'[s].qids != []
    requires forall x | 0 <= x < |slots| && x != s :: slots'[x] == slots[x]
    ensures EmptyOk(slots', empty)
  {
    forall s': nat | s' < |slots'| ensures s' + 1 in empty <==> slots'[s'].qids == [] {
      assert s' + 1 in empty <==> slots[s'].qids == [];
    }
  }

  /** The last query has left a slot, which has taken its requests back and gone on the recycle stack. */
  lemma QueryGone(view: View, slots: seq<Slot>, live: map<nat, Pattern>, empty: seq<nat>, qidIndex: map<nat, nat>,
                  qmidIndex: map<nat, seq<nat>>, view': View, slots': seq<Slot>, s: nat, id: nat)
    requires Consistent(view, slots, live, empty, qidIndex, qmidIndex) && id in live && qidIndex[id] == s + 1
    requires view'.texts == view.texts && Linked(view', slots')
    requires s < |slots| && slots' == slots[s := slots[s].(qids := [], tids := [])] && OnlyId(slots[s].qids, id)
    ensures Consistent(view', slots', live - {id}, empty + [s + 1], qidIndex, qmidIndex)
  {
    assert LiveAt(view.texts, slots, live[id], s + 1, id);
    EmptyPushed(slots, empty, slots', s);
    LiveRemoved(view.texts, slots, live, qidIndex, slots', s, id);
    HashRemoved(slots, live, qmidIndex, slots', s, id);
  }

  ghost predicate OnlyId(qids: seq<nat>, id: nat) {
    forall x <- qids :: x == id
  }

  lemma OnlyIdOrNone(qids: seq<nat>, id: nat)
    requires OnlyId(qids, id)
    ensures id !in qids ==> qids == []
  {
    FirstIsIn(qids);
  }

  /** A registered id is live exactly if it is in the slot it was registered for. */
  lemma LiveIsThere(view: View, slots: seq<Slot>, live: map<nat, Pattern>, empty: seq<nat>,
                    qidIndex: map<nat, nat>, qmidIndex: map<nat, seq<nat>>, id: nat)
    requires Consistent(view, slots, live, empty, qidIndex, qmidIndex)
    ensures id in live ==> id in qidIndex
    ensures id in qidIndex ==> 1 <= qidIndex[id] <= |slots| && (id in live <==> id in slots[qidIndex[id] - 1].qids)
    ensures id in qidIndex ==> Increasing(slots[qidIndex[id] - 1].qids)
    ensures id in qidIndex ==> var slot := slots[qidIndex[id] - 1]; slot.qids == [] ==> slot.tids == []
  {
    if id in qidIndex {
      assert IdsOk(slots[qidIndex[id] - 1], live.Keys, qidIndex, qidIndex[id]);
      if id in live {
        assert LiveAt(view.texts, slots, live[id], qidIndex[id], id);
      }
    }
  }

  /** A slot pushed on the recycle stack again is there twice. */
  lemma PushedTwice(slots: seq<Slot>, empty: seq<nat>, slots': seq<Slot>, s: nat)
    requires EmptyOk(slots, empty) && s < |slots| && slots[s].qids == []
    ensures !EmptyOk(slots', empty + [s + 1])
  {
    assert s + 1 in empty;
    var x :| 0 <= x < |empty| && empty[x] == s + 1;
    assert (empty + [s + 1])[x] == (empty + [s + 1])[|empty|];
  }

  /** An idle slot, or one that is about to take its requests back, has all of them still. */
  lemma WithoutIdsLinked(view: View, slots: seq<Slot>, s: nat)
    requires Linked(view, slots) && s < |slots|
    ensures Withdrawing(view, slots[s := slots[s].(qids := [])], s, 0)
  {
    TrackedAlike(view.slots, slots, |slots|, slots[s := slots[s].(qids := [])], s);
  }

  /** Slot number `s` has taken its first `k` requests back. */
  ghost predicate Withdrawing(view: View, slots: seq<Slot>, s: nat, k: nat) {
    Tracked(view.slots, slots, s, k) && AllListedOnce(view.slots) && s < |slots| && k <= |slots[s].tids|
  }

  /** The outcome of taking everything back: valid if the slot was in use, and on the stack twice otherwise. */
  lemma Vacated(view: View, slots: seq<Slot>, live: map<nat, Pattern>, empty: seq<nat>, qidIndex: map<nat, nat>,
                qmidIndex: map<nat, seq<nat>>, view': View, cleared: seq<Slot>, slots': seq<Slot>, s: nat, id: nat)
    requires Consistent(view, slots, live, empty, qidIndex, qmidIndex) && id in qidIndex && qidIndex[id] == s + 1
             && s < |slots|
    requires cleared == slots[s := slots[s].(qids := [])] && slots' == cleared[s := cleared[s].(tids := [])]
    requires view'.texts == view.texts && Withdrawing(view', cleared, s, |slots[s].tids|) && OnlyId(slots[s].qids, id)
    ensures Consistent(view', slots', live - {id}, empty + [s + 1], qidIndex, qmidIndex) <==> id in live
  {
    LiveIsThere(view, slots, live, empty, qidIndex, qmidIndex, id);
    if id in live {
      TrackedCleaned(view'.slots, cleared, s);
      QueryGone(view, slots, live, empty, qidIndex, qmidIndex, view', slots', s, id);
    } else {
      OnlyIdOrNone(slots[s].qids, id);
      PushedTwice(slots, empty, slots', s);
    }
  }

  /** A slot still in use after an id has gone from it, or was never there. */
  lemma StillUsed(view: View, slots: seq<Slot>, live: map<nat, Pattern>, empty: seq<nat>, qidIndex: map<nat, nat>,
                  qmidIndex: map<nat, seq<nat>>, qids: seq<nat>, s: nat, id: nat)
    requires Consistent(view, slots, live, empty, qidIndex, qmidIndex) && id in qidIndex && qidIndex[id] == s + 1
    requires s < |slots| && qids != [] && Increasing(qids) && forall x :: x in qids <==> x in slots[s].qids && x != id
    requires id !in slots[s].qids ==> qids == slots[s].qids
    ensures Consistent(view, slots[s := slots[s].(qids := qids)], live - {id}, empty, qidIndex, qmidIndex)
  {
    LiveIsThere(view, slots, live, empty, qidIndex, qmidIndex, id);
    if id in live {
      QueryLeft(view, slots, live, empty, qidIndex, qmidIndex, qids, s, id);
    } else {
      assert live - {id} == live;
      assert slots[s := slots[s].(qids := qids)] == slots;
    }
  }

  /** More words, or words of documents, are nothing to the queries. */
  lemma ConsistentWithWord(view: View, slots: seq<Slot>, live: map<nat, Pattern>, empty: seq<nat>,
                           qidIndex: map<nat, nat>,
                           qmidIndex: map<nat, seq<nat>>, view': View)
    requires Consistent(view, slots, live, empty, qidIndex, qmidIndex)
    requires view.texts <= view'.texts && (view'.slots == view.slots || view'.slots == view.slots + [NO_SLOTS])
    ensures Consistent(view', slots, live, empty, qidIndex, qmidIndex)
  {
    if view'.slots != view.slots {
      TrackedWithWord(view.slots, slots, |slots|, 0);
    }
    forall id | id in live ensures LiveAt(view'.texts, slots, live[id], qidIndex[id], id) {
      assert LiveAt(view.texts, slots, live[id], qidIndex[id], id);
      ServesLater(view.texts, view'.texts, slots[qidIndex[id] - 1], live[id]);
    }
  }

  // ----- which lists there are -----

  /** The query has a request for the word in the bucket. */
  ghost predicate FilesIn(p: Pattern, w: Word, b: nat) {
    IsRequest(p.mt, p.dist) && IsFiled(p.mt, p.dist) && b == BucketOf(p.mt, p.dist) && w in p.words
  }

  ghost predicate FiledByNone(live: map<nat, Pattern>, w: Word, b: nat) {
    forall id <- live :: !FilesIn(live[id], w, b)
  }

  /** A bucket with entries has a live query that files there. */
  lemma ListHasQuery(view: View, slots: seq<Slot>, live: map<nat, Pattern>, empty: seq<nat>,
                     qidIndex: map<nat, nat>, qmidIndex: map<nat, seq<nat>>, x: nat, b: nat)
    requires Consistent(view, slots, live, empty, qidIndex, qmidIndex) && x < |view.slots| && |view.slots[x]| == 7
    requires x < |view.texts| && b < 7 && view.slots[x][b] != []
    ensures !FiledByNone(live, view.texts[x], b)
  {
    var info := view.slots[x][b][0];
    FirstIsIn(view.slots[x][b]);
    assert Asks(slots, |slots|, 0, info, x, b);
    var slot := slots[info.qmid - 1];
    assert slot.tids != [] && slot.qids != [];
    FirstIsIn(slot.qids);
    var id := slot.qids[0];
    assert IdsOk(slot, live.Keys, qidIndex, info.qmid);
    assert LiveAt(view.texts, slots, live[id], info.qmid, id);
    assert live[id].words[info.position] == view.texts[x];
    assert FilesIn(live[id], view.texts[x], b);
  }

  lemma LiveIsAt(view: View, slots: seq<Slot>, live: map<nat, Pattern>, empty: seq<nat>,
                 qidIndex: map<nat, nat>, qmidIndex: map<nat, seq<nat>>, id: nat)
    requires Consistent(view, slots, live, empty, qidIndex, qmidIndex) && id in live
    ensures id in qidIndex && LiveAt(view.texts, slots, live[id], qidIndex[id], id)
    ensures Linked(view, slots) && SlotOk(|view.slots|, slots[qidIndex[id] - 1])
  {
    hide EmptyOk, HashOk, SharedIfLight;
    assert LiveAt(view.texts, slots, live[id], qidIndex[id], id);
  }

  /** A live query that files a request for a word gives it a list. */
  lemma QueryHasList(view: View, slots: seq<Slot>, live: map<nat, Pattern>, empty: seq<nat>,
                     qidIndex: map<nat, nat>, qmidIndex: map<nat, seq<nat>>, x: nat, b: nat, id: nat)
    requires Consistent(view, slots, live, empty, qidIndex, qmidIndex) && x < |view.slots| && |view.slots[x]| == 7
    requires x < |view.texts| && (forall y, z :: 0 <= y < z < |view.texts| ==> view.texts[y] != view.texts[z])
    requires b < 7 && id in live && FilesIn(live[id], view.texts[x], b)
    ensures view.slots[x][b] != []
  {
    hide Consistent, IsPattern, Linked;
    LiveIsAt(view, slots, live, empty, qidIndex, qmidIndex, id);
    var s := qidIndex[id] - 1;
    var k :| 0 <= k < |live[id].words| && live[id].words[k] == view.texts[x];
    assert slots[s].tids[k] == x;
    RequestListed(view, slots, s, k, b);
  }

  lemma RequestListed(view: View, slots: seq<Slot>, s: nat, k: nat, b: nat)
    requires Linked(view, slots) && s < |slots| && k < |slots[s].tids| && b < 7
    requires IsRequest(slots[s].mt, slots[s].dist) && IsFiled(slots[s].mt, slots[s].dist)
             && b == BucketOf(slots[s].mt, slots[s].dist)
    ensures slots[s].tids[k] < |view.slots| && |view.slots[slots[s].tids[k]]| == 7
            && view.slots[slots[s].tids[k]][b] != []
  {
    assert Asks(slots, |slots|, 0, TokenQmidInfo(s + 1, k), slots[s].tids[k], b);
    assert TokenQmidInfo(s + 1, k) in view.slots[slots[s].tids[k]][b];
  }

  /** Two live queries are in the same slot exactly if they ask for the same and are light enough for the hash test. */
  lemma SharesSlot(view: View, slots: seq<Slot>, live: map<nat, Pattern>, empty: seq<nat>,
                   qidIndex: map<nat, nat>, qmidIndex: map<nat, seq<nat>>, id: nat, other: nat)
    requires Consistent(view, slots, live, empty, qidIndex, qmidIndex) && id in live && other in live && id != other
    ensures id in qidIndex && other in qidIndex
    ensures qidIndex[id] == qidIndex[other] <==> live[id] == live[other] && Light(live[id])
  {
    hide Linked, EmptyOk, HashOk, Light, IsPattern;
    assert LiveAt(view.texts, slots, live[id], qidIndex[id], id);
    assert LiveAt(view.texts, slots, live[other], qidIndex[other], other);
    if qidIndex[id] == qidIndex[other] {
      ServesOne(view.texts, slots[qidIndex[id] - 1], live[id], live[other]);
    }
  }

  /** The only one of its kind, or too heavy to share. */
  ghost predicate Alone(live: map<nat, Pattern>, id: nat)
    requires id in live
  {
    forall other <- live :: other != id && live[other] == live[id] ==> !Light(live[id])
  }

  lemma AloneInSlot(view: View, slots: seq<Slot>, live: map<nat, Pattern>, empty: seq<nat>,
                    qidIndex: map<nat, nat>, qmidIndex: map<nat, seq<nat>>, id: nat)
    requires Consistent(view, slots, live, empty, qidIndex, qmidIndex) && id in live
    ensures id in qidIndex && 1 <= qidIndex[id] <= |slots|
            && (OnlyId(slots[qidIndex[id] - 1].qids, id) <==> Alone(live, id))
  {
    hide Consistent, Light;
    LiveIsThere(view, slots, live, empty, qidIndex, qmidIndex, id);
    var qids := slots[qidIndex[id] - 1].qids;
    forall other | other != id
      ensures other in qids <==> other in live && live[other] == live[id] && Light(live[id])
    {
      LiveIsThere(view, slots, live, empty, qidIndex, qmidIndex, other);
      InSlotIsLive(view, slots, live, empty, qidIndex, qmidIndex, qidIndex[id] - 1, other);
      if other in live {
        SharesSlot(view, slots, live, empty, qidIndex, qmidIndex, id, other);
      }
    }
  }

  lemma InSlotIsLive(view: View, slots: seq<Slot>, live: map<nat, Pattern>, empty: seq<nat>,
                     qidIndex: map<nat, nat>, qmidIndex: map<nat, seq<nat>>, s: nat, id: nat)
    requires Consistent(view, slots, live, empty, qidIndex, qmidIndex) && s < |slots|
    ensures id in slots[s].qids ==> id in live && id in qidIndex && qidIndex[id] == s + 1
  {
    assert IdsOk(slots[s], live.Keys, qidIndex, s + 1);
  }
}
