/** What a hit in the matrix means: a query matches a document if each of its words has a match in it. */
module Verdict {
  import opened Words
  import opened EditDistance
  import opened Masks
  import opened MatchPrune
  import opened TokenStructs
  import opened TokenManager
  import opened DeltaJoin
  import opened Queries
  import opened QuerySlots
  import opened HitMatrix

  /** When a document word is a match for a query word. */
  ghost predicate WordMatches(mt: MatchType, dist: nat, q: Word, w: Word) {
    match mt
    case ExactMatch => w == q
    case HammingDist => |w| == |q| && Hamming(w, q) <= dist
    case EditDist => Transforms(w, q, dist)
  }

  /** A query matches a document if for each of its words there is a match in the document. */
  ghost predicate Matches(p: Pattern, document: set<Word>) {
    forall x | 0 <= x < |p.words| :: HasMatch(p.mt, p.dist, p.words[x], document)
  }

  ghost predicate HasMatch(mt: MatchType, dist: nat, q: Word, document: set<Word>) {
    exists w <- document :: WordMatches(mt, dist, q, w)
  }

  /** The bucket of a request and the bits of an exact mask speak of the same thing. */
  lemma BitMeansMatch(mask: Mask, w: Word, q: Word, mt: MatchType, dist: nat)
    requires IsRequest(mt, dist) && IsFiled(mt, dist)
    ensures Exact(mask, w, q) ==> (Has(mask, BucketOf(mt, dist)) <==> WordMatches(mt, dist, q, w))
    ensures WordMatches(mt, dist, q, w) ==> Lev(w, q) <= Tier(BucketOf(mt, dist))
  {
    match mt
    case ExactMatch => LevZero(w, q);
    case HammingDist =>
      if |w| == |q| {
        DistAtMostMismatches(w, q, |w|);
      }
    case EditDist => LevIsEditDistance(w, q, dist);
  }

  /** Word number `x` asks for no more than its highest request. */
  ghost predicate TiersOk(view: View) {
    forall q <- view.queries :: q < |view.slots| && |view.slots[q]| == 7 && TiersWithin(view.slots[q], view.queries[q])
  }

  lemma ManagerTiers(manager: TokenManager)
    requires manager.Valid()
    ensures TiersOk(manager.view)
  {
    forall q | q in manager.view.queries
      ensures q < |manager.view.slots| && |manager.view.slots[q]| == 7
              && TiersWithin(manager.view.slots[q], manager.view.queries[q])
    {
      assert manager.TokenShown(q);
    }
  }

  /** The documents of the batch as the lists of document ids at the words record them. */
  ghost predicate Recorded(view: View, documents: seq<set<Word>>) {
    && |view.occurrences| == |view.texts|
    && (forall x: nat | x < |view.occurrences| :: (forall did <- view.occurrences[x] :: 1 <= did <= |documents|))
    && (forall x: nat, d: nat | x < |view.occurrences| && d < |documents| :: d + 1 in view.occurrences[x] <==>
        view.texts[x] in documents[d])
    && (forall x: nat | x < |view.occurrences| && view.occurrences[x] != [] :: x in view.current)
    && (forall d: nat, w: Word | d < |documents| && w in documents[d] :: w in view.texts)
  }

  /** The entry makes a hit for position `p` of slot `s` (counted from 0) in document `d`. */
  ghost predicate HitByEntry(view: View, e: Entry, d: nat, s: nat, p: nat) {
    && e.wid < |view.occurrences| && e.tid < |view.slots| && |view.slots[e.tid]| == 7
    && HitBy(view.occurrences[e.wid], view.slots[e.tid], e.mask, 7, d, s, p)
  }

  ghost predicate HitByAny(view: View, entries: seq<Entry>, d: nat, s: nat, p: nat) {
    exists e <- entries :: HitByEntry(view, e, d, s, p)
  }

  /**
   * With a complete relation, a position is hit exactly if the document has a match for the word there, and the
   * request for it was filed at all.
   */
  lemma PositionExact(view: View, entries: seq<Entry>, slots: seq<Slot>, documents: seq<set<Word>>, d: nat, s: nat,
                      x: nat, p: Pattern)
    requires view.Valid() && Linked(view, slots) && TiersOk(view) && Complete(view, entries)
             && Recorded(view, documents)
    requires d < |documents| && s < |slots| && Serves(view.texts, slots[s], p) && IsRequest(p.mt, p.dist)
             && x < |p.words|
    ensures HitByAny(view, entries, d, s, x) <==>
            IsFiled(p.mt, p.dist) && HasMatch(p.mt, p.dist, p.words[x], documents[d])
  {
    if HitByAny(view, entries, d, s, x) {
      var e :| e in entries && HitByEntry(view, e, d, s, x);
      EntryIsMatch(view, entries, slots, documents, d, s, x, p, e);
    }
    if IsFiled(p.mt, p.dist) && HasMatch(p.mt, p.dist, p.words[x], documents[d]) {
      var w :| w in documents[d] && WordMatches(p.mt, p.dist, p.words[x], w);
      MatchHasEntry(view, entries, slots, documents, d, s, x, p, w);
    }
  }

  lemma EntryIsMatch(view: View, entries: seq<Entry>, slots: seq<Slot>, documents: seq<set<Word>>, d: nat, s: nat,
                     x: nat, p: Pattern, e: Entry)
    requires Linked(view, slots) && AllCorrect(entries, view.texts) && Recorded(view, documents)
    requires d < |documents| && s < |slots| && Serves(view.texts, slots[s], p) && IsRequest(p.mt, p.dist)
             && x < |p.words|
    requires e in entries && HitByEntry(view, e, d, s, x)
    ensures IsFiled(p.mt, p.dist) && HasMatch(p.mt, p.dist, p.words[x], documents[d])
  {
    var info := TokenQmidInfo(s + 1, x);
    var b: nat :| b < 7 && Has(e.mask, b) && info in view.slots[e.tid][b];
    assert Asks(slots, |slots|, 0, info, e.tid, b);
    assert Correct(e, view.texts);
    BitMeansMatch(e.mask, view.texts[e.wid], p.words[x], p.mt, p.dist);
    assert view.texts[e.wid] in documents[d];
  }

  lemma MatchHasEntry(view: View, entries: seq<Entry>, slots: seq<Slot>, documents: seq<set<Word>>, d: nat, s: nat,
                      x: nat, p: Pattern, w: Word)
    requires view.Valid() && Linked(view, slots) && TiersOk(view) && Complete(view, entries)
             && Recorded(view, documents)
    requires d < |documents| && s < |slots| && Serves(view.texts, slots[s], p) && IsRequest(p.mt, p.dist)
             && x < |p.words|
    requires IsFiled(p.mt, p.dist) && w in documents[d] && WordMatches(p.mt, p.dist, p.words[x], w)
    ensures HitByAny(view, entries, d, s, x)
  {
    assert w in view.texts;
    var wid :| 0 <= wid < |view.texts| && view.texts[wid] == w;
    assert d + 1 in view.occurrences[wid];
    assert wid in view.docs;
    var q, b, info := slots[s].tids[x], BucketOf(p.mt, p.dist), TokenQmidInfo(s + 1, x);
    assert Asks(slots, |slots|, 0, info, q, b);
    assert info in view.slots[q][b];
    assert q in view.queries;
    assert TiersWithin(view.slots[q], view.queries[q]);
    forall mask: Mask | Exact(mask, w, p.words[x]) ensures Has(mask, b) {
      BitMeansMatch(mask, w, p.words[x], p.mt, p.dist);
    }
    BitMeansMatch(0, w, p.words[x], p.mt, p.dist);
    assert Owed(view, wid, q);
    assert PairedIn(entries, wid, q);
    var e :| e in entries && e.wid == wid && e.tid == q;
    assert Correct(e, view.texts);
    assert HitByEntry(view, e, d, s, x);
  }
}
