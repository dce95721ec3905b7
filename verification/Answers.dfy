/** From hits to answers: the ids that are reported for a document. */
module Answers {
  import opened Words
  import opened EditDistance
  import opened Masks
  import opened MatchPrune
  import opened TokenStructs
  import opened TokenManager
  import opened DeltaJoin
  import opened Queries
  import opened QuerySlots
  import opened HitMatrix
  import opened Verdict
  import opened GenerateRes
  import opened ResultMerge

  /** The live queries that match a document. */
  ghost function Answer(live: map<nat, Pattern>, document: set<Word>): set<nat> {
    set id | id in live && Matches(live[id], document)
  }

  /** Hamming and edit queries at distance 0, whose requests are not filed. */
  ghost function Unfiled(live: map<nat, Pattern>): set<nat> {
    set id | id in live && !IsFiled(live[id].mt, live[id].dist)
  }

  /** What is reported for a document: all that matches except for the queries that are not filed. */
  ghost function Reported(live: map<nat, Pattern>, document: set<Word>): set<nat> {
    Answer(live, document) - Unfiled(live)
  }

  /** A query matches a document that holds its very words. */
  lemma OwnWordsMatch(p: Pattern)
    requires IsPattern(p)
    ensures Matches(p, set w | w in p.words)
  {
    var document := set w | w in p.words;
    forall x | 0 <= x < |p.words| ensures HasMatch(p.mt, p.dist, p.words[x], document) {
      var w := p.words[x];
      assert w in document;
      HammingZero(w, w);
      LevZero(w, w);
      LevIsEditDistance(w, w, p.dist);
      assert WordMatches(p.mt, p.dist, w, w);
    }
  }

  /** The answers are right for every document exactly as long as no live query asks for Hamming or edit distance 0. */
  lemma ReportedIsAnswer(live: map<nat, Pattern>)
    requires forall id <- live :: IsPattern(live[id])
    ensures (forall document: set<Word> :: Reported(live, document) == Answer(live, document)) <==>
            (forall id <- live :: live[id].mt.ExactMatch? || live[id].dist >= 1)
  {
    if id :| id in live && !(live[id].mt.ExactMatch? || live[id].dist >= 1) {
      var document := set w | w in live[id].words;
      OwnWordsMatch(live[id]);
      assert id in Answer(live, document) && id !in Reported(live, document);
    } else {
      assert Unfiled(live) == {};
    }
  }

  // ----- one slot -----

  /** What the verdict on a batch rests on. */
  ghost predicate Settled(view: View, entries: seq<Entry>, slots: seq<Slot>, live: map<nat, Pattern>, empty: seq<nat>,
                          qidIndex: map<nat, nat>, qmidIndex: map<nat, seq<nat>>, documents: seq<set<Word>>) {
    && view.Valid() && TiersOk(view) && Complete(view, entries) && Recorded(view, documents)
    && Consistent(view, slots, live, empty, qidIndex, qmidIndex)
  }

  lemma SettledMarkable(view: View, entries: seq<Entry>, slots: seq<Slot>, live: map<nat, Pattern>, empty: seq<nat>,
                        qidIndex: map<nat, nat>, qmidIndex: map<nat, seq<nat>>, documents: seq<set<Word>>)
    requires Settled(view, entries, slots, live, empty, qidIndex, qmidIndex, documents)
    ensures Markable(view, entries, |documents|, |slots|)
  {
    forall x: nat, b: nat | x < |view.slots| && b < 7 && b < |view.slots[x]|
      ensures forall info <- view.slots[x][b] :: 1 <= info.qmid <= |slots| && info.position < MAX_QUERY_WORDS
    {
      forall info | info in view.slots[x][b] ensures 1 <= info.qmid <= |slots| && info.position < MAX_QUERY_WORDS {
        assert Asks(slots, |slots|, 0, info, x, b);
      }
    }
    forall e | e in entries ensures e.wid < |view.occurrences| && e.tid < |view.slots| {
      assert Correct(e, view.texts);
    }
  }

  /** No hit lies beyond the words a slot asks for, and none comes from a word that is not in the batch. */
  lemma HitInside(view: View, entries: seq<Entry>, slots: seq<Slot>, documents: seq<set<Word>>, words: set<nat>,
                  d: nat, s: nat, x: nat)
    requires Linked(view, slots) && s < |slots| && Recorded(view, documents) && view.current <= words
    ensures HitByWords(view, entries, words, d, s, x) <==> HitByAny(view, entries, d, s, x)
    ensures HitByAny(view, entries, d, s, x) ==> x < |slots[s].tids|
  {
    forall e | e in entries && HitByEntry(view, e, d, s, x) ensures e.wid in words && x < |slots[s].tids| {
      var info := TokenQmidInfo(s + 1, x);
      var b: nat :| b < 7 && Has(e.mask, b) && info in view.slots[e.tid][b];
      assert Asks(slots, |slots|, 0, info, e.tid, b);
    }
  }

  /** The verdict on a slot in use is the verdict on each of its queries, if their requests were filed. */
  lemma SlotExact(view: View, entries: seq<Entry>, slots: seq<Slot>, live: map<nat, Pattern>, empty: seq<nat>,
                  qidIndex: map<nat, nat>, qmidIndex: map<nat, seq<nat>>, documents: seq<set<Word>>,
                  area: BitArea, words: set<nat>, d: nat, id: nat)
    requires Settled(view, entries, slots, live, empty, qidIndex, qmidIndex, documents)
    requires Shown(area, view, entries, words) && view.current <= words && area.ndocs == |documents|
             && area.size == |slots|
    requires d < |documents| && id in live
    requires forall s: nat | s < |slots| :: area.count[d, s] == |slots[s].tids|
    ensures id in qidIndex && 1 <= qidIndex[id] <= |slots|
    ensures area.CheckQmid(d, qidIndex[id]) <==> IsFiled(live[id].mt, live[id].dist) && Matches(live[id], documents[d])
  {
    LiveIsThere(view, slots, live, empty, qidIndex, qmidIndex, id);
    var s, p := qidIndex[id] - 1, live[id];
    assert LiveAt(view.texts, slots, p, s + 1, id);
    forall x: nat | x < MAX_QUERY_WORDS
      ensures area.Marked(d, s, x) <==>
              x < |p.words| && IsFiled(p.mt, p.dist) && HasMatch(p.mt, p.dist, p.words[x], documents[d])
    {
      HitInside(view, entries, slots, documents, words, d, s, x);
      if x < |p.words| {
        PositionExact(view, entries, slots, documents, d, s, x, p);
      }
    }
    assert |p.words| > 0 && (!IsFiled(p.mt, p.dist) ==> !area.Marked(d, s, 0));
    area.CheckMeansAll(d, s);
  }

  /**
   * A query with an empty word among its words is never reported: the empty word comes first, it is refused, and so
   * the first position is asked for nowhere, while the count of the slot includes it.
   */
  lemma EmptyWordNeverReported(area: BitArea, view: View, entries: seq<Entry>, words: set<nat>, asked: seq<Word>,
                               d: nat, s: nat)
    requires Shown(area, view, entries, words) && d < area.ndocs && s < area.size
    requires Ascending(asked) && [] in asked && area.count[d, s] == |asked| <= MAX_QUERY_WORDS
    requires forall x: nat, b: nat, info | x < |view.slots| && b < |view.slots[x]| && info in view.slots[x][b] ::
               info.qmid == s + 1 ==> info.position < |asked| && IsToken(asked[info.position])
    ensures !area.CheckQmid(d, s + 1)
  {
    EmptyWordFirst(asked);
    forall p: nat | p < MAX_QUERY_WORDS && HitByWords(view, entries, words, d, s, p)
      ensures 0 < p < |asked|
    {
      var e :| e in entries && e.wid in words && HitByEntry(view, e, d, s, p);
      var b: nat :| b < 7 && Has(e.mask, b) && TokenQmidInfo(s + 1, p) in view.slots[e.tid][b];
    }
    assert |asked| > 0 && !area.Marked(d, s, 0);
    area.CheckMeansAll(d, s);
  }

  // ----- all slots -----

  function IdLists(slots: seq<Slot>): (lists: seq<seq<nat>>)
    ensures |lists| == |slots| && forall x | 0 <= x < |lists| :: lists[x] == slots[x].qids
  {
    seq(|slots|, x requires 0 <= x < |slots| => slots[x].qids)
  }

  lemma {:induction false} IncreasingOnce(ids: seq<nat>, id: nat)
    requires Increasing(ids)
    ensures multiset(ids)[id] == if id in ids then 1 else 0
    ensures Sorted(ids)
  {
    if ids != [] {
      var rest, last := ids[..|ids| - 1], ids[|ids| - 1];
      assert ids == rest + [last];
      IncreasingOnce(rest, id);
      assert last !in rest;
    }
  }

  /** Each id is among the hits once or not at all, depending on its slot. */
  lemma {:induction false} HitIdsCount(lists: seq<seq<nat>>, hits: seq<bool>, n: nat, id: nat, s: nat)
    requires n <= |lists| == |hits| && s < |lists| && id in lists[s]
    requires forall x | 0 <= x < |lists| :: Increasing(lists[x]) && (id in lists[x] ==> x == s)
    ensures multiset(HitIds(lists, hits, n))[id] == if s < n && hits[s] then 1 else 0
    decreases n
  {
    hide Increasing, Sorted;
    if n > 0 {
      HitIdsCount(lists, hits, n - 1, id, s);
      IncreasingOnce(lists[n - 1], id);
    }
  }

  lemma {:induction false} HitIdsNone(lists: seq<seq<nat>>, hits: seq<bool>, n: nat, id: nat)
    requires n <= |lists| == |hits| && forall x | 0 <= x < |lists| :: id !in lists[x]
    ensures id !in HitIds(lists, hits, n)
    decreases n
  {
    if n > 0 {
      HitIdsNone(lists, hits, n - 1, id);
    }
  }

  lemma OneSlotEach(view: View, slots: seq<Slot>, live: map<nat, Pattern>, empty: seq<nat>, qidIndex: map<nat, nat>,
                    qmidIndex: map<nat, seq<nat>>, id: nat)
    requires Consistent(view, slots, live, empty, qidIndex, qmidIndex)
    ensures forall x | 0 <= x < |slots| ::
              Increasing(slots[x].qids) && (id in slots[x].qids <==>
                                            id in live && id in qidIndex && x == qidIndex[id] - 1)
  {
    LiveIsThere(view, slots, live, empty, qidIndex, qmidIndex, id);
    forall x: nat | x < |slots|
      ensures Increasing(slots[x].qids)
              && (id in slots[x].qids <==> id in live && id in qidIndex && x == qidIndex[id] - 1)
    {
      assert IdsOk(slots[x], live.Keys, qidIndex, x + 1);
    }
  }

  lemma HitIdsOnce(view: View, slots: seq<Slot>, live: map<nat, Pattern>, empty: seq<nat>, qidIndex: map<nat, nat>,
                   qmidIndex: map<nat, seq<nat>>, hits: seq<bool>, id: nat)
    requires Consistent(view, slots, live, empty, qidIndex, qmidIndex) && |hits| == |slots|
    ensures id in live ==> id in qidIndex && 1 <= qidIndex[id] <= |slots|
    ensures multiset(HitIds(IdLists(slots), hits, |slots|))[id] == if id in live && hits[qidIndex[id] - 1] then 1 else 0
  {
    hide Consistent, Increasing, HitIds;
    var lists := IdLists(slots);
    LiveIsThere(view, slots, live, empty, qidIndex, qmidIndex, id);
    OneSlotEach(view, slots, live, empty, qidIndex, qmidIndex, id);
    if id in live {
      HitIdsCount(lists, hits, |slots|, id, qidIndex[id] - 1);
    } else {
      HitIdsNone(lists, hits, |slots|, id);
    }
  }

  /** The ids in the slots that are hit are the live queries that match and are filed, each once. */
  lemma HitsAreAnswer(view: View, slots: seq<Slot>, live: map<nat, Pattern>, empty: seq<nat>, qidIndex: map<nat, nat>,
                      qmidIndex: map<nat, seq<nat>>, hits: seq<bool>, document: set<Word>)
    requires Consistent(view, slots, live, empty, qidIndex, qmidIndex) && |hits| == |slots|
    requires forall id <- live :: id in qidIndex && 1 <= qidIndex[id] <= |slots| &&
                                  (hits[qidIndex[id] - 1] <==>
                                   IsFiled(live[id].mt, live[id].dist) && Matches(live[id], document))
    ensures multiset(HitIds(IdLists(slots), hits, |slots|)) == multiset(Reported(live, document))
  {
    hide Consistent, Matches, HitIds;
    var all: multiset<nat> := multiset(HitIds(IdLists(slots), hits, |slots|));
    forall id: nat ensures all[id] == multiset(Reported(live, document))[id] {
      HitIdsOnce(view, slots, live, empty, qidIndex, qmidIndex, hits, id);
    }
  }
}
