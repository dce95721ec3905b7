/** The server: queries come and go, documents are pushed, and each batch is answered as a whole. */
module TopImpl {
  import opened Words
  import opened MatchPrune
  import opened TokenStructs
  import opened TokenManager
  import opened DeltaJoin
  import opened MatchBatch
  import opened Queries
  import opened QuerySlots
  import opened QueryIndex
  import opened ResultMerge
  import opened HitMatrix
  import opened Verdict
  import opened GenerateRes
  import opened Answers

  // ----- the documents of a batch -----

  ghost predicate DistinctTexts(texts: seq<Word>) {
    forall x, y :: 0 <= x < y < |texts| ==> texts[x] != texts[y]
  }

  ghost function WordsOf(words: seq<Word>): set<Word> {
    set w | w in words
  }

  /** The documents of the batch, and the list of its words. */
  ghost predicate BatchOk(view: View, documents: seq<set<Word>>, wordbatch: seq<nat>) {
    Recorded(view, documents) && AsSet(wordbatch) == view.current && Distinct(wordbatch)
  }

  lemma ManagerTexts(manager: TokenManager, w: Word)
    requires manager.Valid()
    ensures DistinctTexts(manager.view.texts)
    ensures var tid := manager.IdOf(w);
            tid <= |manager.view.texts| && if tid < |manager.view.texts| then manager.view.texts[tid] == w
                else w !in manager.view.texts
  {
    var texts := manager.view.texts;
    forall x, y | 0 <= x < y < |texts| ensures texts[x] != texts[y] {
      assert manager.index[texts[x]] == x && manager.index[texts[y]] == y;
    }
  }

  /** A new document without words yet. */
  lemma BatchNewDocument(view: View, documents: seq<set<Word>>, wordbatch: seq<nat>)
    requires BatchOk(view, documents, wordbatch)
    ensures BatchOk(view, documents + [{}], wordbatch)
  {
    var documents' := documents + [{}];
    forall x: nat, d: nat | x < |view.occurrences| && d < |documents'|
      ensures d + 1 in view.occurrences[x] <==> view.texts[x] in documents'[d]
    {
      if d < |documents| {
        assert d + 1 in view.occurrences[x] <==> view.texts[x] in documents[d];
      }
    }
  }

  /** One more word in the latest document. */
  lemma RecordedWord(view: View, documents: seq<set<Word>>, w: Word, tid: nat, documents': seq<set<Word>>)
    requires view.Valid() && Recorded(view, documents) && documents != [] && DistinctTexts(view.texts)
    requires tid <= |view.texts| && if tid < |view.texts| then view.texts[tid] == w else w !in view.texts
    requires documents' == documents[|documents| - 1 := documents[|documents| - 1] + {w}]
    requires tid < |view.WithWord(w, tid).occurrences|
    ensures Recorded(view.WithWord(w, tid).WithOccurrence(tid, |documents|), documents')
  {
  }

  /** Queries do not touch the documents. */
  lemma RecordedKept(view: View, documents: seq<set<Word>>, view': View)
    requires Recorded(view, documents) && DocsKept(view, view') && DistinctTexts(view'.texts)
             && |view'.occurrences| == |view'.texts|
    ensures Recorded(view', documents)
  {
    forall d: nat, w: Word | d < |documents| && w in documents[d] ensures w in view'.texts {
      assert w in view.texts;
      var y :| 0 <= y < |view.texts| && view.texts[y] == w;
      assert view'.texts[y] == w;
    }
    forall x: nat, d: nat | x < |view'.occurrences| && d < |documents|
      ensures d + 1 in view'.occurrences[x] <==> view'.texts[x] in documents[d]
    {
      if x < |view.occurrences| {
        assert view'.occurrences[x] == view.occurrences[x] && view'.texts[x] == view.texts[x];
      } else {
        NewWordNowhere(view, documents, view', x, d);
      }
    }
  }

  lemma BatchKept(view: View, documents: seq<set<Word>>, wordbatch: seq<nat>, queries: QueryIndex)
    requires BatchOk(view, documents, wordbatch) && DocsKept(view, queries.matcher.manager.view) && queries.Valid()
    ensures BatchOk(queries.matcher.manager.view, documents, wordbatch)
  {
    hide QueryIndex.Valid, Recorded;
    QueryIndexTexts(queries);
    RecordedKept(view, documents, queries.matcher.manager.view);
  }

  /** Taking requests back does not touch them either. */
  lemma BatchSame(view: View, documents: seq<set<Word>>, wordbatch: seq<nat>, view': View)
    requires BatchOk(view, documents, wordbatch) && SameDocs(view, view')
    ensures BatchOk(view', documents, wordbatch)
  {
  }

  lemma NewWordNowhere(view: View, documents: seq<set<Word>>, view': View, x: nat, d: nat)
    requires Recorded(view, documents) && view.texts <= view'.texts && DistinctTexts(view'.texts)
    requires |view.texts| <= x < |view'.texts| && d < |documents|
    ensures view'.texts[x] !in documents[d]
  {
    forall y | 0 <= y < |view.texts| ensures view.texts[y] != view'.texts[x] {
      assert view'.texts[y] == view.texts[y];
    }
    var w := view'.texts[x];
    assert w !in view.texts;
    assert w in documents[d] ==> w in view.texts;
  }

  lemma NotLive(queries: QueryIndex, id: nat)
    requires queries.Valid() && id !in queries.qidIndex
    ensures id !in queries.live
  {
    NewIdNotLive(queries.matcher.manager.view, queries.vault, queries.live, queries.empty, queries.qidIndex,
                 queries.qmidIndex, id);
  }

  lemma QueryIndexTexts(queries: QueryIndex)
    requires queries.Valid()
    ensures DistinctTexts(queries.matcher.manager.view.texts)
    ensures |queries.matcher.manager.view.occurrences| == |queries.matcher.manager.view.texts|
  {
    ManagerTexts(queries.matcher.manager, []);
  }

  /** The words of a query in `strcmp` order, each once. */
  method NewQuery(id: nat, words: seq<Word>, mt: MatchType, dist: nat) returns (q: Query)
    requires IsRequest(mt, dist) && 1 <= |words| <= MAX_QUERY_WORDS && forall w <- words :: IsToken(w)
    ensures fresh(q) && q.Valid() && q.qid == id && q.mt == mt && q.dist == dist && q.tokens != []
    ensures forall w :: w in q.tokens <==> w in words
  {
    q := new Query(mt, dist, id);
    for i := 0 to |words|
      invariant fresh(q) && q.Valid() && q.qid == id && q.mt == mt && q.dist == dist
      invariant |q.tokens| <= i && forall w :: w in q.tokens <==> w in words[..i]
    {
      assert words[i] in words;
      q.AddToken(words[i]);
      assert words[..i + 1] == words[..i] + [words[i]];
    }
    assert words[..|words|] == words && words[0] in words;
    assert words[0] in q.tokens;
  }

  class Server {
    const queries: QueryIndex
    var ndocs: nat
    var wordbatch: seq<nat>
    ghost var documents: seq<set<Word>>

    ghost predicate Valid()
      reads this, queries, queries.matcher, queries.matcher.manager, queries.matcher.manager.tokens, queries.matcher.rel
    {
      queries.Valid() && ndocs == |documents| && BatchOk(queries.matcher.manager.view, documents, wordbatch)
    }

    constructor (mur: HashFunction)
      ensures Valid() && queries.live == map[] && queries.qidIndex == map[] && documents == []
      ensures fresh(queries) && fresh(queries.matcher) && fresh(queries.matcher.manager) && fresh(queries.matcher.rel)
      ensures queries.matcher.manager.tokens == []
    {
      var matcher := new Matcher(mur);
      queries := new QueryIndex(matcher);
      ndocs, wordbatch, documents := 0, [], [];
    }

    /** A query comes in, as the list of its words. */
    method StartQuery(id: nat, words: seq<Word>, mt: MatchType, dist: nat) returns (ending: Ending)
      requires Valid() && id !in queries.qidIndex && IsRequest(mt, dist)
      requires 1 <= |words| <= MAX_QUERY_WORDS && forall w <- words :: IsToken(w)
      modifies queries, queries.matcher.manager, queries.matcher.manager.tokens
      ensures ending == if id == EMPTY_QID then AbortedOnEmptyKey else Returned
      ensures ending.Returned? ==> Valid() && documents == old(documents)
      ensures ending.Returned? ==> queries.qidIndex.Keys == old(queries.qidIndex).Keys + {id}
      ensures ending.Returned? ==>
                && queries.live.Keys == old(queries.live).Keys + {id}
                && forall x <- old(queries.live) :: queries.live[x] == old(queries.live)[x]
      ensures ending.Returned? ==>
                && queries.live[id].mt == mt && queries.live[id].dist == dist
                && forall w :: w in queries.live[id].words <==> w in words
      ensures forall x | 0 <= x < |queries.matcher.manager.tokens| ::
                queries.matcher.manager.tokens[x] in old(queries.matcher.manager.tokens)
                    || fresh(queries.matcher.manager.tokens[x])
    {
      hide QueryIndex.Valid, BatchOk, DocsKept;
      NotLive(queries, id);
      var q := NewQuery(id, words, mt, dist);
      ghost var view := queries.matcher.manager.view;
      var qmid, added;
      ending, qmid, added := queries.AddQuery(q);
      if ending.Returned? {
        BatchKept(view, documents, wordbatch, queries);
      }
    }

    /** A query goes. An id whose slot has been given up already leaves an index that is not valid any more. */
    method EndQuery(id: nat) returns (ending: Ending)
      requires Valid()
      modifies queries, queries.matcher.manager, queries.matcher.manager.tokens
      ensures ending == if id == EMPTY_QID then AbortedOnEmptyKey else if old(queries.Unlisted(id)) then ReadNullList
              else Returned
      ensures ending.Returned? ==> (Valid() <==> !old(queries.Stale(id)))
      ensures ending.Returned? ==> documents == old(documents) && queries.live == old(queries.live) - {id}
      ensures forall x | 0 <= x < |queries.matcher.manager.tokens| ::
                queries.matcher.manager.tokens[x] in old(queries.matcher.manager.tokens)
                    || fresh(queries.matcher.manager.tokens[x])
    {
      hide QueryIndex.Valid, BatchOk, SameDocs;
      ghost var view := queries.matcher.manager.view;
      ending := queries.RemoveQuery(id);
      BatchSame(view, documents, wordbatch, queries.matcher.manager.view);
    }

    /** The words stored so far, in the order in which they were first met. */
    ghost function Texts(): seq<Word>
      reads queries.matcher.manager
    {
      queries.matcher.manager.view.texts
    }

    /** The words of the batch, in the order in which they were first met in it. */
    ghost function BatchTexts(): seq<Word>
      reads this, queries.matcher.manager
    {
      TextsAt(queries.matcher.manager.view.texts, wordbatch)
    }

    /** A document comes in, as the list of its words. */
    method MatchDocument(words: seq<Word>)
      requires Valid() && forall w <- words :: IsToken(w)
      modifies this, queries.matcher.manager, queries.matcher.manager.tokens
      ensures Valid() && queries.live == old(queries.live) && documents == old(documents) + [WordsOf(words)]
      ensures Texts() == Met(old(Texts()), words) && BatchTexts() == Met(old(BatchTexts()), words)
      ensures forall x | 0 <= x < |queries.matcher.manager.tokens| ::
                queries.matcher.manager.tokens[x] in old(queries.matcher.manager.tokens)
                    || fresh(queries.matcher.manager.tokens[x])
    {
      hide QueryIndex.Valid, Recorded, BatchOk, MetOne, Met, TextsAt, View.Valid, DistinctTexts;
      ghost var texts, batch := Texts(), BatchTexts();
      MetNothing(texts);
      MetNothing(batch);
      var did := ndocs + 1;
      BatchNewDocument(queries.matcher.manager.view, documents, wordbatch);
      ndocs, documents := did, documents + [{}];
      WordsOfMore([], []);
      for i := 0 to |words|
        invariant Valid() && ndocs == did && queries.live == old(queries.live)
        invariant documents == old(documents) + [WordsOf(words[..i])]
        invariant Texts() == Met(texts, words[..i]) && BatchTexts() == Met(batch, words[..i])
        invariant forall x | 0 <= x < |queries.matcher.manager.tokens| ::
                    queries.matcher.manager.tokens[x] in old(queries.matcher.manager.tokens)
                        || fresh(queries.matcher.manager.tokens[x])
      {
        assert words[i] in words;
        WordsOfMore(words[..i], [words[i]]);
        PushWord(words[i], did);
        MetMore(texts, words[..i], words[i]);
        MetMore(batch, words[..i], words[i]);
        assert words[..i + 1] == words[..i] + [words[i]];
      }
      assert words[..|words|] == words;
    }

    /** One word of the latest document; it goes on the list of the batch when it is met for the first time in it. */
    method PushWord(w: Word, did: nat)
      requires Valid() && IsToken(w) && did == ndocs > 0
      modifies this`wordbatch, this`documents, queries.matcher.manager, queries.matcher.manager.tokens
      ensures Valid() && |old(documents)| == did
              && documents == old(documents)[did - 1 := old(documents)[did - 1] + {w}]
      ensures forall x | 0 <= x < |queries.matcher.manager.tokens| ::
                queries.matcher.manager.tokens[x] in old(queries.matcher.manager.tokens)
                    || fresh(queries.matcher.manager.tokens[x])
      ensures var tid := old(queries.matcher.manager.IdOf(w));
              wordbatch == old(wordbatch) + if tid in old(queries.matcher.manager.view.current) then [] else [tid]
      ensures Texts() == MetOne(old(Texts()), w) && BatchTexts() == MetOne(old(BatchTexts()), w)
    {
      hide TokenManager.Valid, Delta, Hashed, Consistent, BatchOk, View.Valid, TextsAt, MetOne;
      ghost var view := queries.matcher.manager.view;
      ManagerTexts(queries.matcher.manager, w);
      var err, tid := queries.matcher.AddDocToken(w, did);
      ConsistentWithWord(view, queries.vault, queries.live, queries.empty, queries.qidIndex, queries.qmidIndex,
                         queries.matcher.manager.view);
      WordPushed(view, documents, wordbatch, w, tid, err != TokenExistsInBatch);
      WordMet(view, documents, wordbatch, w, tid, err != TokenExistsInBatch);
      if err != TokenExistsInBatch {
        wordbatch := wordbatch + [tid];
      }
      documents := documents[did - 1 := documents[did - 1] + {w}];
    }

    /** The hit matrix of the batch: the words are matched, and every entry of a word of the batch is marked. */
    method FillMatrix(batchQtokens: nat -> nat) returns (area: BitArea)
      requires Valid()
      modifies queries.matcher`dhash, queries.matcher`qhash, queries.matcher.rel
      ensures Valid() && queries.matcher.manager.view == old(queries.matcher.manager.view) && queries.matcher.UpToDate()
      ensures fresh(area) && fresh(area.token) && fresh(area.count) && Filled(area)
    {
      hide TokenManager.Valid, Delta, Hashed, Complete, Consistent, BatchOk, Settled, Markable, View.Valid;
      var manager := queries.matcher.manager;
      ghost var view := manager.view;
      AtMostFiveTokens(queries);
      area := new BitArea(ndocs, queries.vault);
      queries.matcher.Match();
      var entries := queries.matcher.rel.entries;
      BatchSettled(queries, documents, wordbatch);
      SettledMarkable(view, entries, queries.vault, queries.live, queries.empty, queries.qidIndex, queries.qmidIndex,
                      documents);
      BatchWords(manager, documents, wordbatch);
      ShownNothing(area, view, entries);
      var texts := manager.Texts();
      assert texts == view.texts by {
        TextsShown(manager);
      }
      var jobs := AllRanges(wordbatch, texts, batchQtokens);
      MarkAll(area, manager, entries, wordbatch, texts, jobs);
    }

    /** The matrix shows the batch. */
    ghost predicate Filled(area: BitArea)
      reads this, queries, queries.matcher, queries.matcher.manager, queries.matcher.manager.tokens, queries.matcher.rel
      reads area, area.token, area.count
    {
      && ndocs == |documents| && area.ndocs == ndocs && area.size == |queries.vault|
      && Settled(queries.matcher.manager.view, queries.matcher.rel.entries, queries.vault, queries.live, queries.empty,
                 queries.qidIndex, queries.qmidIndex, documents)
      && Shown(area, queries.matcher.manager.view, queries.matcher.rel.entries, AsSet(wordbatch))
      && AsSet(wordbatch) == queries.matcher.manager.view.current
      && forall d: nat, s: nat | d < area.ndocs && s < area.size :: area.count[d, s] == |queries.vault[s].tids|
    }

    lemma FilledSizes(area: BitArea)
      requires Filled(area)
      ensures ndocs == |documents|
    {
    }

    /** The answer for one document of the batch. */
    method AnswerFor(area: BitArea, d: nat) returns (ids: seq<nat>)
      requires Filled(area) && d < ndocs
      ensures Sorted(ids) && multiset(ids) == multiset(Reported(queries.live, documents[d]))
    {
      var hits: seq<bool> := [];
      for s := 0 to |queries.vault|
        invariant |hits| == s && forall x: nat | x < s :: hits[x] == area.CheckQmid(d, x + 1)
      {
        hits := hits + [area.CheckQmid(d, s + 1)];
      }
      ghost var view, entries := queries.matcher.manager.view, queries.matcher.rel.entries;
      forall id | id in queries.live
        ensures id in queries.qidIndex && 1 <= queries.qidIndex[id] <= |queries.vault|
        ensures hits[queries.qidIndex[id] - 1] <==>
                  IsFiled(queries.live[id].mt, queries.live[id].dist) && Matches(queries.live[id], documents[d])
      {
        SlotExact(view, entries, queries.vault, queries.live, queries.empty, queries.qidIndex, queries.qmidIndex,
                  documents,
                  area, AsSet(wordbatch), d, id);
      }
      HitsAreAnswer(view, queries.vault, queries.live, queries.empty, queries.qidIndex, queries.qmidIndex, hits,
                    documents[d]);
      var lists := IdLists(queries.vault);
      var count, res := Results(lists, hits);
      ids := if res == null then [] else res[..];
    }

    /** `RunEnd`: the next batch starts with empty lists and without documents. */
    method RunEnd()
      requires Valid() && queries.matcher.UpToDate()
      modifies this, queries.matcher.manager, queries.matcher.manager.tokens
      ensures Valid() && documents == [] && wordbatch == [] && queries.live == old(queries.live)
      ensures NothingListed(queries.matcher.manager)
    {
      hide TokenManager.Valid, Delta, Hashed, Complete, Consistent, BatchOk, Cleared, View.Valid;
      ghost var view := queries.matcher.manager.view;
      BatchWords(queries.matcher.manager, documents, wordbatch);
      KnownWords(queries.matcher.manager);
      queries.matcher.EndBatch();
      ClearWords(view);
      AllCleared(queries, view, documents, wordbatch);
      ListsEmptied(queries.matcher.manager, view, documents, wordbatch);
      ndocs, wordbatch, documents := 0, [], [];
    }

    method ClearWords(ghost view: View)
      requires queries.matcher.Valid() && queries.matcher.manager.view == view.NextBatch()
      requires forall w <- wordbatch :: w < |queries.matcher.manager.tokens|
      modifies queries.matcher.manager, queries.matcher.manager.tokens
      ensures queries.matcher.Valid() && Cleared(view, queries.matcher.manager.view, wordbatch)
    {
      hide Matcher.Valid, Cleared, View.Valid;
      var manager := queries.matcher.manager;
      NothingCleared(view, wordbatch);
      for i := 0 to |wordbatch|
        invariant queries.matcher.Valid() && manager.tokens == old(manager.tokens)
        invariant Cleared(view, manager.view, wordbatch[..i])
      {
        assert wordbatch[i] in wordbatch;
        ghost var v := manager.view;
        queries.matcher.ClearIds(wordbatch[i]);
        OneCleared(view, v, wordbatch[..i], wordbatch[i]);
        assert wordbatch[..i + 1] == wordbatch[..i] + [wordbatch[i]];
      }
      assert wordbatch[..|wordbatch|] == wordbatch;
    }

    /**
     * A batch from the pushed documents to the answers: for each document exactly the live queries that match
     * it, in ascending order, each once. All documents are gone after it, and all queries stay.
     */
    method RunBatch(batchQtokens: nat -> nat) returns (answers: seq<seq<nat>>)
      requires Valid()
      modifies this, queries.matcher, queries.matcher.manager, queries.matcher.manager.tokens, queries.matcher.rel
      ensures Valid() && documents == [] && queries.live == old(queries.live) && |answers| == |old(documents)|
      ensures forall d | 0 <= d < |answers| ::
                Sorted(answers[d]) && multiset(answers[d]) == multiset(Reported(queries.live, old(documents)[d]))
    {
      hide QueryIndex.Valid, BatchOk, Matcher.UpToDate, Filled, Sorted;
      var area := FillMatrix(batchQtokens);
      answers := AnswerAll(area);
      RunEnd();
    }

    /** The jobs behind the second barrier, one for each document. */
    method AnswerAll(area: BitArea) returns (answers: seq<seq<nat>>)
      requires Filled(area)
      ensures |answers| == |documents|
      ensures forall d | 0 <= d < |answers| ::
                Sorted(answers[d]) && multiset(answers[d]) == multiset(Reported(queries.live, documents[d]))
    {
      hide Filled, Sorted;
      FilledSizes(area);
      answers := [];
      for d := 0 to ndocs
        invariant |answers| == d
        invariant forall d' | 0 <= d' < d ::
                  Sorted(answers[d']) && multiset(answers[d']) == multiset(Reported(queries.live, documents[d']))
      {
        var ids := AnswerFor(area, d);
        answers := answers + [ids];
      }
    }
  }

  /** After the end of the batch `view0`, the words of a list have no documents; the others have what they had. */
  ghost predicate Cleared(view0: View, view: View, words: seq<nat>) {
    && |view.occurrences| == |view0.occurrences|
    && view == view0.NextBatch().(occurrences := view.occurrences)
    && forall x: nat | x < |view.occurrences| :: view.occurrences[x] == if x in words then [] else view0.occurrences[x]
  }

  /** The lists of a batch are empty, and no word has documents. */
  ghost predicate NothingListed(manager: TokenManager)
    reads manager
  {
    && manager.active == [] && manager.qbrandnew == [] && manager.dbrandnew == []
    && forall x: nat | x < |manager.view.occurrences| :: manager.view.occurrences[x] == []
  }

  lemma ListsEmptied(manager: TokenManager, view0: View, documents: seq<set<Word>>, wordbatch: seq<nat>)
    requires manager.Valid() && Cleared(view0, manager.view, wordbatch) && BatchOk(view0, documents, wordbatch)
    ensures NothingListed(manager)
  {
    FirstIsIn(manager.active);
    FirstIsIn(manager.qbrandnew);
    FirstIsIn(manager.dbrandnew);
    forall x: nat | x < |manager.view.occurrences| ensures manager.view.occurrences[x] == [] {
      assert view0.occurrences[x] != [] ==> x in AsSet(wordbatch);
    }
  }

  lemma NothingCleared(view0: View, wordbatch: seq<nat>)
    ensures Cleared(view0, view0.NextBatch(), wordbatch[..0])
  {
  }

  lemma OneCleared(view0: View, view: View, words: seq<nat>, w: nat)
    requires Cleared(view0, view, words) && w < |view.occurrences|
    ensures Cleared(view0, view.WithoutOccurrences(w), words + [w])
  {
  }

  lemma KnownWords(manager: TokenManager)
    requires manager.Valid()
    ensures |manager.view.texts| == |manager.tokens|
  {
  }

  /** With the words of the batch cleared, no word has documents, and the queries are as they were. */
  lemma AllCleared(queries: QueryIndex, view0: View, documents: seq<set<Word>>, wordbatch: seq<nat>)
    requires Cleared(view0, queries.matcher.manager.view, wordbatch) && BatchOk(view0, documents, wordbatch)
    requires Consistent(view0, queries.vault, queries.live, queries.empty, queries.qidIndex, queries.qmidIndex)
    ensures Consistent(queries.matcher.manager.view, queries.vault, queries.live, queries.empty, queries.qidIndex,
                       queries.qmidIndex)
    ensures BatchOk(queries.matcher.manager.view, [], [])
  {
    ConsistentWithWord(view0, queries.vault, queries.live, queries.empty, queries.qidIndex, queries.qmidIndex,
                       queries.matcher.manager.view);
    var view := queries.matcher.manager.view;
    forall x: nat | x < |view.occurrences| ensures view.occurrences[x] == [] {
      assert view0.occurrences[x] != [] ==> x in AsSet(wordbatch);
    }
  }

  lemma AtMostFiveTokens(queries: QueryIndex)
    requires queries.Valid()
    ensures forall x | 0 <= x < |queries.vault| :: |queries.vault[x].tids| <= MAX_QUERY_WORDS
  {
    forall x | 0 <= x < |queries.vault| ensures |queries.vault[x].tids| <= MAX_QUERY_WORDS {
      assert SlotOk(|queries.matcher.manager.view.slots|, queries.vault[x]);
    }
  }

  lemma BatchSettled(queries: QueryIndex, documents: seq<set<Word>>, wordbatch: seq<nat>)
    requires queries.Valid() && queries.matcher.UpToDate()
             && BatchOk(queries.matcher.manager.view, documents, wordbatch)
    ensures Settled(queries.matcher.manager.view, queries.matcher.rel.entries, queries.vault, queries.live,
                    queries.empty,
                    queries.qidIndex, queries.qmidIndex, documents)
  {
    hide Consistent, Complete, Hashed, Delta;
    ManagerTiers(queries.matcher.manager);
  }

  lemma BatchWords(manager: TokenManager, documents: seq<set<Word>>, wordbatch: seq<nat>)
    requires manager.Valid() && BatchOk(manager.view, documents, wordbatch)
    ensures AllTokens(manager.view.texts) && forall w <- wordbatch :: w < |manager.view.texts|
    ensures AsSet(wordbatch) == manager.view.current
  {
    forall w | w in wordbatch ensures w < |manager.view.texts| {
      assert w in AsSet(wordbatch);
    }
  }

  lemma TextsShown(manager: TokenManager)
    requires manager.Valid()
    ensures manager.Texts() == manager.view.texts
  {
  }

  lemma ShownNothing(area: BitArea, view: View, entries: seq<Entry>)
    requires area.Valid()
    requires forall d: nat, s: nat, p: nat | d < area.ndocs && s < area.size && p < MAX_QUERY_WORDS ::
             !area.Marked(d, s, p)
    ensures Shown(area, view, entries, {})
  {
  }

  /** A list of words without repeats, after one more word was met. */
  ghost function MetOne(words: seq<Word>, w: Word): seq<Word> {
    if w in words then words else words + [w]
  }

  ghost function Met(words: seq<Word>, more: seq<Word>): seq<Word> {
    if more == [] then words else MetOne(Met(words, more[..|more| - 1]), more[|more| - 1])
  }

  lemma MetNothing(words: seq<Word>)
    ensures Met(words, []) == words
  {
  }

  lemma MetMore(words: seq<Word>, more: seq<Word>, w: Word)
    ensures Met(words, more + [w]) == MetOne(Met(words, more), w)
  {
    assert (more + [w])[..|more|] == more;
  }

  ghost function TextsAt(texts: seq<Word>, ids: seq<nat>): seq<Word> {
    seq(|ids|, x requires 0 <= x < |ids| => if ids[x] < |texts| then texts[ids[x]] else [])
  }

  /** What one more word does to the words stored and to those of the batch. */
  lemma WordMet(view: View, documents: seq<set<Word>>, wordbatch: seq<nat>, w: Word, tid: nat, first: bool)
    requires view.Valid() && BatchOk(view, documents, wordbatch) && DistinctTexts(view.texts)
    requires tid <= |view.texts| && if tid < |view.texts| then view.texts[tid] == w else w !in view.texts
    requires tid < |view.WithWord(w, tid).occurrences| && (first <==> tid !in view.current)
    ensures var view' := view.WithWord(w, tid).WithOccurrence(tid, |documents|);
            && view'.texts == MetOne(view.texts, w)
            && TextsAt(view'.texts, if first then wordbatch + [tid] else wordbatch)
               == MetOne(TextsAt(view.texts, wordbatch), w)
  {
    var view' := view.WithWord(w, tid).WithOccurrence(tid, |documents|);
    forall x | 0 <= x < |wordbatch| ensures wordbatch[x] < |view.texts| {
      assert wordbatch[x] in AsSet(wordbatch);
    }
    assert TextsAt(view'.texts, wordbatch) == TextsAt(view.texts, wordbatch);
    if first {
      assert TextsAt(view'.texts, wordbatch + [tid]) == TextsAt(view.texts, wordbatch) + [w];
      forall x | 0 <= x < |wordbatch| ensures TextsAt(view.texts, wordbatch)[x] != w {
        assert wordbatch[x] in AsSet(wordbatch);
        assert wordbatch[x] != tid;
      }
    } else {
      assert tid in AsSet(wordbatch);
      var x :| 0 <= x < |wordbatch| && wordbatch[x] == tid;
      assert TextsAt(view.texts, wordbatch)[x] == w;
    }
  }

  lemma WordsOfMore(words: seq<Word>, more: seq<Word>)
    requires |more| <= 1
    ensures WordsOf([]) == {} && WordsOf(words + more) == WordsOf(words) + WordsOf(more)
    ensures forall w :: WordsOf([w]) == {w}
  {
  }

  /** The batch with one more word in its latest document. */
  lemma WordPushed(view: View, documents: seq<set<Word>>, wordbatch: seq<nat>, w: Word, tid: nat, first: bool)
    requires view.Valid() && BatchOk(view, documents, wordbatch) && documents != [] && DistinctTexts(view.texts)
    requires tid <= |view.texts| && if tid < |view.texts| then view.texts[tid] == w else w !in view.texts
    requires tid < |view.WithWord(w, tid).occurrences| && (first <==> tid !in view.current)
    ensures BatchOk(view.WithWord(w, tid).WithOccurrence(tid, |documents|),
                    documents[|documents| - 1 := documents[|documents| - 1] + {w}], if first then wordbatch + [tid]
                        else wordbatch)
  {
    RecordedWord(view, documents, w, tid, documents[|documents| - 1 := documents[|documents| - 1] + {w}]);
  }

  // ----- what goes wrong at distance 0 -----

  lemma LivePatterns(queries: QueryIndex)
    requires queries.Valid()
    ensures forall id <- queries.live :: IsPattern(queries.live[id])
  {
    forall id | id in queries.live ensures IsPattern(queries.live[id]) {
      assert LiveAt(queries.matcher.manager.view.texts, queries.vault, queries.live[id], queries.qidIndex[id], id);
    }
  }

  /**
   * The answers of a batch are right whatever its documents are if and only if no live query asks for Hamming or
   * edit distance 0; otherwise just these queries are missing from them.
   */
  lemma AnswersRight(server: Server)
    requires server.Valid()
    ensures (forall document: set<Word> ::
             Reported(server.queries.live, document) == Answer(server.queries.live, document)) <==>
            (forall id <- server.queries.live ::
             server.queries.live[id].mt.ExactMatch? || server.queries.live[id].dist >= 1)
  {
    LivePatterns(server.queries);
    ReportedIsAnswer(server.queries.live);
  }

  /** The words of a query that has only one. */
  lemma OneWord(p: Pattern, w: Word)
    requires IsPattern(p) && forall v :: v in p.words <==> v == w
    ensures p.words == [w]
  {
    SameWordsSameTokens(p.words, [w]);
  }

  /** A document with the very word of a query at Hamming distance 0, and an answer without that query. */
  method MissedAtDistanceZero(mur: HashFunction, batchQtokens: nat -> nat)
      returns (server: Server, answers: seq<seq<nat>>)
    ensures 1 in server.queries.live && server.queries.live[1] == Pattern(HammingDist, 0, ["word"])
    ensures Matches(server.queries.live[1], WordsOf(["word"]))
    ensures |answers| == 1 && 1 !in answers[0]
  {
    hide QueryIndex.Valid, BatchOk, Matches, Sorted;
    server := new Server(mur);
    var _ := server.StartQuery(1, ["word"], HammingDist, 0);
    LivePatterns(server.queries);
    ghost var p := server.queries.live[1];
    OneWord(p, "word");
    OwnWordsMatch(p);
    assert (set w | w in p.words) == WordsOf(["word"]);
    server.MatchDocument(["word"]);
    answers := server.RunBatch(batchQtokens);
    assert 1 in Unfiled(server.queries.live);
    NotReported(server.queries.live, WordsOf(["word"]), answers[0], 1);
  }

  lemma NotReported(live: map<nat, Pattern>, document: set<Word>, answer: seq<nat>, id: nat)
    requires multiset(answer) == multiset(Reported(live, document)) && id in Unfiled(live)
    ensures id !in answer
  {
    assert id !in multiset(Reported(live, document));
    assert id !in multiset(answer);
  }

  /** A word has a list in a bucket exactly if a live query files a request for it there. */
  lemma ListedByQuery(queries: QueryIndex, x: nat, b: nat)
    requires queries.Valid() && x < |queries.matcher.manager.view.slots| && b < 7
    ensures var view := queries.matcher.manager.view;
            |view.slots| == |view.texts| && |view.slots[x]| == 7 &&
            (view.slots[x][b] == [] <==> FiledByNone(queries.live, view.texts[x], b))
  {
    hide Delta, Hashed, LiveOk, EmptyOk, HashOk;
    QueryIndexTexts(queries);
    var view := queries.matcher.manager.view;
    assert |view.slots[x]| == 7;
    if view.slots[x][b] != [] {
      ListHasQuery(view, queries.vault, queries.live, queries.empty, queries.qidIndex, queries.qmidIndex, x, b);
    }
    if id :| id in queries.live && FilesIn(queries.live[id], view.texts[x], b) {
      QueryHasList(view, queries.vault, queries.live, queries.empty, queries.qidIndex, queries.qmidIndex, x, b, id);
    }
  }

  /** A live query, and the slot it is in. */
  lemma LiveSlot(queries: QueryIndex, id: nat)
    requires queries.Valid() && id in queries.live
    ensures id in queries.qidIndex && 1 <= queries.qidIndex[id] <= |queries.vault|
    ensures LiveAt(queries.matcher.manager.view.texts, queries.vault, queries.live[id], queries.qidIndex[id], id)
    ensures SlotOk(|queries.matcher.manager.view.slots|, queries.vault[queries.qidIndex[id] - 1])
    ensures Linked(queries.matcher.manager.view, queries.vault)
  {
    hide Matcher.Valid;
    assert LiveAt(queries.matcher.manager.view.texts, queries.vault, queries.live[id], queries.qidIndex[id], id);
  }

  /** Of the words of a query, those without a list are those for which no query files a request. */
  lemma WordsWithoutList(queries: QueryIndex, p: Pattern, slot: Slot)
    requires queries.Valid() && Serves(queries.matcher.manager.view.texts, slot, p)
    requires SlotOk(|queries.matcher.manager.view.slots|, slot)
    ensures LacksList(queries.matcher.manager.view, slot) <==>
            exists w <- p.words :: FiledByNone(queries.live, w, BucketOf(p.mt, p.dist))
  {
    hide QueryIndex.Valid, FiledByNone;
    var view, b := queries.matcher.manager.view, BucketOf(p.mt, p.dist);
    forall k: nat | k < |slot.tids|
      ensures p.words[k] in p.words && (NoList(view, slot, k) <==> FiledByNone(queries.live, p.words[k], b))
    {
      ListedByQuery(queries, slot.tids[k], b);
    }
    if LacksList(view, slot) {
      var k: nat :| k < |slot.tids| && NoList(view, slot, k);
      assert p.words[k] in p.words;
    }
    if w :| w in p.words && FiledByNone(queries.live, w, b) {
      var k :| 0 <= k < |p.words| && p.words[k] == w;
      assert NoList(view, slot, k);
    }
  }

  /**
   * Removing a live query reads through a null pointer if and only if it is one at Hamming or edit distance 0 that
   * shares its slot with no other, and for one of its words no live query has a request in the bucket that is
   * searched: an exact one for a Hamming query, one at Hamming distance 3 for an edit query.
   */
  lemma EndQueryFaults(server: Server, id: nat)
    requires server.Valid() && id in server.queries.live
    ensures var live, p := server.queries.live, server.queries.live[id];
            server.queries.Unlisted(id) <==>
              && !p.mt.ExactMatch? && p.dist == 0 && Alone(live, id)
              && exists w <- p.words :: FiledByNone(live, w, if p.mt.HammingDist? then 0 else 3)
  {
    hide Matcher.Valid, Consistent, LacksList, FiledByNone, Alone, OnlyId;
    var queries, p := server.queries, server.queries.live[id];
    LiveSlot(queries, id);
    var slot := queries.vault[queries.qidIndex[id] - 1];
    AloneInSlot(queries.matcher.manager.view, queries.vault, queries.live, queries.empty, queries.qidIndex,
                queries.qmidIndex, id);
    WordsWithoutList(queries, p, slot);
    LacksListUnfiled(queries.matcher.manager.view, queries.vault, queries.qidIndex[id] - 1);
  }

  /** The shortest way there: a query of one word at Hamming distance 0, taken back at once. */
  method NullReadAtDistanceZero(mur: HashFunction) returns (ending: Ending)
    ensures ending == ReadNullList
  {
    hide QueryIndex.Valid, BatchOk, IsPattern;
    var server := new Server(mur);
    var _ := server.StartQuery(1, ["word"], HammingDist, 0);
    ghost var live := server.queries.live;
    assert forall id <- live :: id == 1;
    assert !live[1].mt.ExactMatch?;
    assert "word" in ["word"];
    assert FiledByNone(live, "word", 0);
    EndQueryFaults(server, 1);
    ending := server.EndQuery(1);
  }

  lemma HeavyWords()
    requires IsPattern(HEAVY)
    ensures 1 <= |HEAVY.words| <= MAX_QUERY_WORDS && Ascending(HEAVY.words) && forall w <- HEAVY.words :: IsToken(w)
  {
  }

  lemma PatternWords(queries: QueryIndex, id: nat)
    requires queries.Valid() && id in queries.live
    ensures Ascending(queries.live[id].words)
  {
    LivePatterns(queries);
  }

  /** Two live queries that ask for the same words, too heavy to share a slot. */
  method HeavyTwins(mur: HashFunction) returns (server: Server)
    ensures server.Valid() && 1 in server.queries.live && 2 in server.queries.live
    ensures server.queries.live[1] == server.queries.live[2] == HEAVY
    ensures 1 in server.queries.qidIndex && 2 in server.queries.qidIndex
    ensures server.queries.qidIndex[1] != server.queries.qidIndex[2]
  {
    hide BatchOk, Matcher.Valid, Consistent, Light, IsPattern, IsToken;
    HeavyQuery();
    HeavyWords();
    server := new Server(mur);
    var _ := server.StartQuery(1, HEAVY.words, ExactMatch, 0);
    var _ := server.StartQuery(2, HEAVY.words, ExactMatch, 0);
    ghost var queries := server.queries;
    PatternWords(queries, 1);
    PatternWords(queries, 2);
    SameWordsSameTokens(queries.live[1].words, HEAVY.words);
    SameWordsSameTokens(queries.live[2].words, HEAVY.words);
    SharesSlot(queries.matcher.manager.view, queries.vault, queries.live, queries.empty, queries.qidIndex,
               queries.qmidIndex, 1, 2);
  }
}
