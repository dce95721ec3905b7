/**
 * Joining only what is new: the relation between all document words and all query tokens ever stored is
 * kept complete although each batch compares new requests with all documents and new documents with all
 * query tokens, and nothing else.
 */
module DeltaJoin {
  import opened Words
  import opened MatchPrune
  import opened TokenStructs
  import opened TokenManager

  ghost predicate PairedIn(entries: seq<Entry>, w: nat, q: nat) {
    exists e <- entries :: e.wid == w && e.tid == q
  }

  ghost predicate AllCorrect(entries: seq<Entry>, texts: seq<Word>) {
    forall e <- entries :: Correct(e, texts)
  }

  /** A pair the relation owes an answer for: the token asks, or has asked since it was last idle, for this distance. */
  ghost predicate Owed(view: View, w: nat, q: nat) {
    w in view.docs && q in view.queries && Near(view.texts, w, q, view.queries[q])
  }

  /** Every entry is right and every pair owed has one. */
  ghost predicate Complete(view: View, entries: seq<Entry>) {
    && AllCorrect(entries, view.texts)
    && forall w, q | Owed(view, w, q) :: PairedIn(entries, w, q)
  }

  /** The pair will be compared when the request lists of this batch are worked off. */
  ghost predicate AwaitsRequest(view: View, w: nat, q: nat) {
    exists a <- view.active :: a.id == q && Near(view.texts, w, q, a.tier)
  }

  /** The pair will be compared when the new document words are looked up; the first batch does not do that. */
  ghost predicate AwaitsDocument(view: View, w: nat) {
    w in view.newDocs && view.batch > 0
  }

  /** In the first batch every token is on a list for the highest distance asked of it. */
  ghost predicate FirstBatchListed(view: View) {
    view.batch == 0 ==> forall q <- view.queries :: exists a <- view.active :: a.id == q && a.tier >= view.queries[q]
  }

  /** Invariant within a batch: a pair owed is answered already or waits on one of the lists. */
  ghost predicate Delta(view: View, entries: seq<Entry>) {
    && AllCorrect(entries, view.texts)
    && FirstBatchListed(view)
    && forall w, q | Owed(view, w, q) :: PairedIn(entries, w, q) || AwaitsRequest(view, w, q) || AwaitsDocument(view, w)
  }

  // ----- every operation keeps the invariant -----

  lemma DeltaAtStart(view: View)
    requires view.docs == {} && view.queries == map[]
    ensures Delta(view, [])
  {
  }

  lemma DeltaWithWord(view: View, entries: seq<Entry>, w: Word)
    requires view.Valid() && Delta(view, entries)
    ensures Delta(view.WithWord(w, |view.texts|), entries)
  {
    var view' := view.WithWord(w, |view.texts|);
    forall x, q | Owed(view', x, q)
      ensures PairedIn(entries, x, q) || AwaitsRequest(view', x, q) || AwaitsDocument(view', x)
    {
      assert Owed(view, x, q);
      if AwaitsRequest(view, x, q) {
        var a :| a in view.active && a.id == q && Near(view.texts, x, q, a.tier);
        assert a in view'.active && Near(view'.texts, x, q, a.tier);
      }
    }
  }

  lemma DeltaWithTier(view: View, entries: seq<Entry>, id: nat, tier: nat)
    requires view.Valid() && Delta(view, entries) && id < |view.texts| && tier <= 3
    ensures Delta(view.WithTier(id, tier), entries)
  {
    var view' := view.WithTier(id, tier);
    var a' := ActiveToken(tier, id);
    forall x, q | Owed(view', x, q)
      ensures PairedIn(entries, x, q) || AwaitsRequest(view', x, q) || AwaitsDocument(view', x)
    {
      if q == id && a' in view'.active && view'.queries[id] == tier {
        assert Near(view'.texts, x, q, a'.tier);
      } else {
        assert Owed(view, x, q);
        if AwaitsRequest(view, x, q) {
          var a :| a in view.active && a.id == q && Near(view.texts, x, q, a.tier);
          assert a in view'.active;
        }
      }
    }
    if view.batch == 0 {
      forall q | q in view'.queries
        ensures exists a <- view'.active :: a.id == q && a.tier >= view'.queries[q]
      {
        if q == id && (id !in view.queries || tier > view.queries[id]) {
          assert a' in view'.active;
        } else {
          var a :| a in view.active && a.id == q && a.tier >= view.queries[q];
          assert a in view'.active;
        }
      }
    }
  }

  /** Neither the slots nor the documents of a word matter to the join. */
  lemma DeltaSameWords(view: View, view': View, entries: seq<Entry>)
    requires Delta(view, entries)
    requires view'.texts == view.texts && view'.docs == view.docs && view'.active == view.active
    requires view'.newDocs == view.newDocs && view'.batch == view.batch
    requires view'.queries.Keys == view.queries.Keys
    requires forall q <- view.queries :: view'.queries[q] <= view.queries[q]
    ensures Delta(view', entries)
  {
    forall x, q | Owed(view', x, q)
      ensures PairedIn(entries, x, q) || AwaitsRequest(view', x, q) || AwaitsDocument(view', x)
    {
      assert Owed(view, x, q);
      if AwaitsRequest(view, x, q) {
        var a :| a in view.active && a.id == q && Near(view.texts, x, q, a.tier);
        assert a in view'.active;
      }
    }
    if view.batch == 0 {
      forall q | q in view'.queries
        ensures exists a <- view'.active :: a.id == q && a.tier >= view'.queries[q]
      {
        var a :| a in view.active && a.id == q && a.tier >= view.queries[q];
        assert a in view'.active;
      }
    }
  }

  lemma DeltaWithRequest(view: View, entries: seq<Entry>, id: nat, mt: MatchType, dist: nat, info: TokenQmidInfo)
    requires view.Valid() && Delta(view, entries) && id < |view.texts| && IsRequest(mt, dist)
    ensures Delta(view.WithRequest(id, mt, dist, info), entries)
  {
    DeltaWithTier(view, entries, id, RequestTier(mt, dist));
    DeltaSameWords(view.WithTier(id, RequestTier(mt, dist)), view.WithRequest(id, mt, dist, info), entries);
  }

  /** A token without requests keeps its entries; when it is asked for again, only what they lack is owed. */
  lemma DeltaWithoutRequest(view: View, entries: seq<Entry>, id: nat, b: nat, qmid: nat)
    requires view.Valid() && Delta(view, entries) && id in view.queries && b < 7
    ensures Delta(view.WithoutRequest(id, b, qmid), entries)
  {
    DeltaSameWords(view, view.WithoutRequest(id, b, qmid), entries);
  }

  lemma DeltaWithOccurrence(view: View, entries: seq<Entry>, id: nat, did: nat)
    requires view.Valid() && Delta(view, entries) && id < |view.texts|
    ensures Delta(view.WithOccurrence(id, did), entries)
  {
    var view' := view.WithOccurrence(id, did);
    forall x, q | Owed(view', x, q)
      ensures PairedIn(entries, x, q) || AwaitsRequest(view', x, q) || AwaitsDocument(view', x)
    {
      if x in view.docs {
        assert Owed(view, x, q);
        if AwaitsRequest(view, x, q) {
          var a :| a in view.active && a.id == q && Near(view.texts, x, q, a.tier);
          assert a in view'.active;
        }
      } else if view.batch == 0 {
        var a :| a in view.active && a.id == q && a.tier >= view.queries[q];
        assert a in view'.active && Near(view'.texts, x, q, a.tier);
      }
    }
  }

  lemma DeltaNextBatch(view: View, entries: seq<Entry>)
    requires Complete(view, entries)
    ensures Delta(view.NextBatch(), entries)
  {
    var view' := view.NextBatch();
    forall x, q | Owed(view', x, q) ensures PairedIn(entries, x, q) {
      assert Owed(view, x, q);
    }
  }

  // ----- whole runs -----

  /** What can happen: a word is entered, requested, released or found in a document; or a batch is matched and ends. */
  datatype Step =
    | Enter(w: Word)
    | Request(id: nat, mt: MatchType, dist: nat, info: TokenQmidInfo)
    | Release(id: nat, b: nat, qmid: nat)
    | Occur(id: nat, did: nat)
    | EndBatch

  /** Entries are only ever added, by matching, which compares the pairs that wait and possibly more. */
  ghost predicate Matched(view: View, entries: seq<Entry>, entries': seq<Entry>) {
    && AllCorrect(entries', view.texts)
    && (forall e <- entries :: e in entries')
    && (forall w, q | w in view.docs && q in view.queries && AwaitsRequest(view, w, q) :: PairedIn(entries', w, q))
    && (forall w, q | w in view.docs && q in view.queries && AwaitsDocument(view, w) && Near(view.texts, w, q, 3) ::
        PairedIn(entries', w, q))
  }

  ghost predicate Next(view: View, entries: seq<Entry>, step: Step, view': View, entries': seq<Entry>)
    requires view.Valid()
  {
    match step
    case Enter(w) => IsToken(w) && view' == view.WithWord(w, |view.texts|) && entries' == entries
    case Request(id, mt, dist, info) =>
      id < |view.texts| && IsRequest(mt, dist) && view' == view.WithRequest(id, mt, dist, info) && entries' == entries
    case Release(id, b, qmid) => id in view.queries && b < 7 && view' == view.WithoutRequest(id, b, qmid)
        && entries' == entries
    case Occur(id, did) => id < |view.texts| && view' == view.WithOccurrence(id, did) && entries' == entries
    case EndBatch => view' == view.NextBatch() && Matched(view, entries, entries')
  }

  /** Working off the lists leaves no pair unanswered. */
  lemma MatchedCompletes(view: View, entries: seq<Entry>, entries': seq<Entry>)
    requires view.Valid() && Delta(view, entries) && Matched(view, entries, entries')
    ensures Complete(view, entries')
  {
    forall w, q | Owed(view, w, q) ensures PairedIn(entries', w, q) {
      if PairedIn(entries, w, q) {
        var e :| e in entries && e.wid == w && e.tid == q;
        assert e in entries';
      }
    }
  }

  lemma StepKeepsDelta(view: View, entries: seq<Entry>, step: Step, view': View, entries': seq<Entry>)
    requires view.Valid() && Delta(view, entries) && Next(view, entries, step, view', entries')
    ensures view'.Valid() && Delta(view', entries')
    ensures step.EndBatch? ==> Complete(view, entries') && Complete(view', entries')
  {
    match step
    case Enter(w) => DeltaWithWord(view, entries, w); WithWordValid(view, w, |view.texts|);
    case Request(id, mt, dist, info) =>
      DeltaWithRequest(view, entries, id, mt, dist, info);
      WithRequestValid(view, id, mt, dist, info);
    case Release(id, b, qmid) => DeltaWithoutRequest(view, entries, id, b, qmid);
        WithoutRequestValid(view, id, b, qmid);
    case Occur(id, did) => DeltaWithOccurrence(view, entries, id, did); WithOccurrenceValid(view, id, did);
    case EndBatch =>
      MatchedCompletes(view, entries, entries');
      DeltaNextBatch(view, entries');
      forall w, q | Owed(view', w, q) ensures PairedIn(entries', w, q) {
        assert Owed(view, w, q);
      }
  }

  /** States and relations along a run, one step between each and the next, from the empty registry. */
  ghost predicate IsRun(views: seq<View>, relations: seq<seq<Entry>>, steps: seq<Step>) {
    && |views| == |relations| == |steps| + 1
    && views[0] == View([], [], [], {}, map[], {}, {}, {}, {}, 0) && relations[0] == []
    && (forall n | 0 <= n < |steps| ::
        views[n].Valid() && Next(views[n], relations[n], steps[n], views[n + 1], relations[n + 1]))
  }

  /**
   * Over every run, whatever the order of queries, removals and documents, each batch ends with a relation
   * that has an entry with the exact mask for every pair of a document word and a token within its reach.
   */
  lemma {:induction false} EveryBatchEndsComplete(views: seq<View>, relations: seq<seq<Entry>>, steps: seq<Step>,
                                                  n: nat)
    requires IsRun(views, relations, steps) && n <= |steps|
    ensures Delta(views[n], relations[n])
    ensures n > 0 && steps[n - 1].EndBatch? ==> Complete(views[n], relations[n])
  {
    if n == 0 {
      DeltaAtStart(views[0]);
    } else {
      EveryBatchEndsComplete(views, relations, steps, n - 1);
      StepKeepsDelta(views[n - 1], relations[n - 1], steps[n - 1], views[n], relations[n]);
    }
  }
}
