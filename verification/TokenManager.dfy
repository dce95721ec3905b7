/**
 * The registry of stored words. A word is entered once, whether it comes from a query or from a document,
 * and every batch keeps lists of what is new in it. Token numbers stand for the source's pairs of length
 * and index, and the lists of the 28 lengths are kept together.
 */
module TokenManager {
  import opened Words
  import opened MatchPrune
  import opened TokenStructs

  /** An entry of one of the lists `qbrandnew0` to `qbrandnew3`. */
  datatype ActiveToken = ActiveToken(tier: nat, id: nat)

  /**
   * What the registry knows, as values: for each word its text, its query slots and its documents of this
   * batch; which words are document words, the highest request of each query token; and the lists of the
   * batch: requests to be joined, new query tokens, new document words, words that occur in it.
   */
  datatype View = View(texts: seq<Word>, slots: seq<Slots>, occurrences: seq<seq<nat>>,
                       docs: set<nat>, queries: map<nat, nat>,
                       active: set<ActiveToken>, newQueries: set<nat>, newDocs: set<nat>, current: set<nat>, batch: nat)
  {
    ghost predicate Valid() {
      && |slots| == |occurrences| == |texts| && AllTokens(texts)
      && (forall x | 0 <= x < |slots| :: |slots[x]| == 7 && (x !in queries ==> slots[x] == NO_SLOTS))
      && (forall x <- docs :: x < |texts|)
      && (forall q <- queries :: q < |texts| && queries[q] <= 3)
      && (forall a <- active :: a.id in queries && a.tier <= 3)
      && newQueries <= queries.Keys && newDocs <= docs && current <= docs
    }

    /** The word `w` has the number `id`, new or old. */
    ghost function WithWord(w: Word, id: nat): View {
      if id == |texts| then
        this.(texts := texts + [w], slots := slots + [NO_SLOTS], occurrences := occurrences + [[]])
      else this
    }

    /** Slot `info.qmid` asks for the word `id`, whether or not the request is filed. */
    ghost function WithRequest(id: nat, mt: MatchType, dist: nat, info: TokenQmidInfo): View
      requires id < |slots| && |slots[id]| == 7 && IsRequest(mt, dist)
    {
      this.(slots := slots[id := Filed(slots[id], mt, dist, info)]).WithTier(id, RequestTier(mt, dist))
    }

    /** A request at `tier`: it is listed if the word is new as a query token or nothing as high was asked for it. */
    ghost function WithTier(id: nat, tier: nat): View {
      if id !in queries then
        this.(queries := queries[id := tier], active := active + {ActiveToken(tier, id)},
              newQueries := newQueries + {id})
      else if tier > queries[id] then
        this.(queries := queries[id := tier], active := active + {ActiveToken(tier, id)})
      else this
    }

    /** Slot `qmid` takes its request in bucket `b` back; without any request left, the highest is forgotten. */
    ghost function WithoutRequest(id: nat, b: nat, qmid: nat): View
      requires id < |slots| && b < |slots[id]|
    {
      var list, x := slots[id][b], FirstOf(slots[id][b], qmid);
      if x == |list| then this
      else
        var left := slots[id][b := list[..x] + list[x + 1..]];
        var none := forall b | 0 <= b < |left| :: left[b] == [];
        this.(slots := slots[id := left], queries := if none then queries[id := 0] else queries)
    }

    /** The word `id` occurs in document `did`, the latest of this batch. */
    ghost function WithOccurrence(id: nat, did: nat): View
      requires id < |occurrences|
    {
      var dids := occurrences[id];
      this.(docs := docs + {id}, newDocs := if id in docs then newDocs else newDocs + {id}, current := current + {id},
            occurrences := occurrences[id := if dids != [] && dids[|dids| - 1] == did then dids else dids + [did]])
    }

    ghost function WithoutOccurrences(id: nat): View
      requires id < |occurrences|
    {
      this.(occurrences := occurrences[id := []])
    }

    ghost function NextBatch(): View {
      this.(active := {}, newQueries := {}, newDocs := {}, current := {}, batch := batch + 1)
    }
  }

  /** The fields of a token, as a value. */
  datatype TokenState = TokenState(isQuery: bool, isDoc: bool, highest: nat, slots: Slots, docs: seq<nat>,
                                   lastBatch: int)

  /** What the view says about the word `x`. */
  ghost predicate Shows(view: View, x: nat, st: TokenState) {
    && x < |view.slots| && x < |view.occurrences|
    && (st.isDoc <==> x in view.docs)
    && (st.isQuery <==> x in view.queries)
    && (st.isQuery ==> view.queries[x] == st.highest)
    && view.slots[x] == st.slots
    && view.occurrences[x] == st.docs
    && (x in view.current <==> st.isDoc && st.lastBatch == view.batch) && st.lastBatch <= view.batch
  }

  lemma WithWordShows(view: View, w: Word, x: nat, st: TokenState)
    requires view.Valid()
    ensures x < |view.slots| && Shows(view, x, st) ==> Shows(view.WithWord(w, |view.texts|), x, st)
    ensures Shows(view.WithWord(w, |view.texts|), |view.texts|,
                  TokenState(false, false, 0, NO_SLOTS, [], -1)) <== view.batch >= 0
  {
  }

  lemma WithRequestElsewhere(view: View, id: nat, mt: MatchType, dist: nat, info: TokenQmidInfo, x: nat, st: TokenState)
    requires view.Valid() && id < |view.texts| && IsRequest(mt, dist) && Shows(view, x, st) && x != id
    ensures Shows(view.WithRequest(id, mt, dist, info), x, st)
  {
  }

  lemma WithRequestHere(view: View, id: nat, mt: MatchType, dist: nat, info: TokenQmidInfo, st: TokenState)
    requires view.Valid() && IsRequest(mt, dist) && Shows(view, id, st)
    ensures id < |view.slots| && |view.slots[id]| == 7 && view.WithRequest(id, mt, dist, info).Valid()
    ensures var view', tier := view.WithRequest(id, mt, dist, info), RequestTier(mt, dist);
            && view'.texts == view.texts && view'.batch == view.batch && view'.newDocs == view.newDocs
            && view'.newQueries == (if st.isQuery then view.newQueries else view.newQueries + {id})
            && view'.active ==
               if st.isQuery && tier <= st.highest then view.active else view.active + {ActiveToken(tier, id)}
    ensures var st' := if st.isQuery then
                         st.(highest := Raised(st.highest, RequestTier(mt, dist)),
                             slots := Filed(st.slots, mt, dist, info))
                       else st.(isQuery := true, highest := RequestTier(mt, dist),
                                slots := Filed(NO_SLOTS, mt, dist, info));
            Shows(view.WithRequest(id, mt, dist, info), id, st')
  {
    WithRequestValid(view, id, mt, dist, info);
  }

  lemma WithoutRequestValid(view: View, id: nat, b: nat, qmid: nat)
    requires view.Valid() && id in view.queries && b < 7
    ensures id < |view.slots| && |view.slots[id]| == 7 && view.WithoutRequest(id, b, qmid).Valid()
    ensures var view' := view.WithoutRequest(id, b, qmid);
            && view'.texts == view.texts && view'.batch == view.batch
            && view'.active == view.active && view'.newQueries == view.newQueries && view'.newDocs == view.newDocs
  {
  }

  lemma WithoutRequestElsewhere(view: View, id: nat, b: nat, qmid: nat, x: nat, st: TokenState)
    requires view.Valid() && id in view.queries && b < 7 && Shows(view, x, st) && x != id
    ensures Shows(view.WithoutRequest(id, b, qmid), x, st)
  {
  }

  lemma WithoutRequestHere(view: View, id: nat, b: nat, qmid: nat, st: TokenState)
    requires id in view.queries && id < |view.slots| && |view.slots[id]| == 7 && b < 7 && Shows(view, id, st)
    ensures var list := st.slots[b];
            var k := FirstOf(list, qmid);
            var left := if k < |list| then st.slots[b := list[..k] + list[k + 1..]] else st.slots;
            var none := k < |list| && forall b: nat | b < 7 :: left[b] == [];
            Shows(view.WithoutRequest(id, b, qmid), id, st.(slots := left, highest := if none then 0 else st.highest))
  {
    var list := st.slots[b];
    var k := FirstOf(list, qmid);
    var left := if k < |list| then st.slots[b := list[..k] + list[k + 1..]] else st.slots;
    assert (forall b: nat | b < 7 :: left[b] == []) <==> (forall b | 0 <= b < |left| :: left[b] == []);
  }

  lemma WithOccurrenceValid(view: View, id: nat, did: nat)
    requires view.Valid() && id < |view.texts|
    ensures id < |view.occurrences| && view.WithOccurrence(id, did).Valid()
    ensures var view' := view.WithOccurrence(id, did);
            && view'.texts == view.texts && view'.batch == view.batch && view'.active == view.active
            && view'.newQueries == view.newQueries
            && view'.newDocs == if id in view.docs then view.newDocs else view.newDocs + {id}
  {
  }

  lemma ShowsOccurrences(view: View, x: nat, st: TokenState)
    requires Shows(view, x, st)
    ensures (st.isDoc <==> x in view.docs) && (x in view.current <==> st.isDoc && st.lastBatch == view.batch)
  {
  }

  lemma WithOccurrenceShows(view: View, id: nat, did: nat, x: nat, st: TokenState)
    requires view.Valid() && id < |view.texts| && Shows(view, x, st)
    ensures x != id ==> Shows(view.WithOccurrence(id, did), x, st)
    ensures x == id ==>
              Shows(view.WithOccurrence(id, did), x,
                    st.(isDoc := true, lastBatch := view.batch,
                        docs := if st.docs != [] && st.docs[|st.docs| - 1] == did then st.docs else st.docs + [did]))
  {
  }

  lemma WithoutOccurrencesShows(view: View, id: nat)
    requires view.Valid() && id < |view.texts|
    ensures view.WithoutOccurrences(id).Valid()
    ensures forall x: nat, st | x != id && Shows(view, x, st) :: Shows(view.WithoutOccurrences(id), x, st)
    ensures forall st | Shows(view, id, st) :: Shows(view.WithoutOccurrences(id), id, st.(docs := []))
  {
  }

  lemma WithWordValid(view: View, w: Word, id: nat)
    requires view.Valid() && IsToken(w)
    ensures view.WithWord(w, id).Valid()
  {
  }

  lemma WithRequestValid(view: View, id: nat, mt: MatchType, dist: nat, info: TokenQmidInfo)
    requires view.Valid() && id < |view.texts| && IsRequest(mt, dist)
    ensures view.WithRequest(id, mt, dist, info).Valid()
  {
  }

  class TokenManager {
    var tokens: seq<TokenInfo>
    var index: map<Word, nat>
    var active: seq<ActiveToken>
    var qbrandnew: seq<nat>
    var dbrandnew: seq<nat>
    var batch: nat
    ghost var view: View

    /** Tokens are distinct objects. */
    ghost predicate Distinct()
      reads this
    {
      forall x, y :: 0 <= x < y < |tokens| ==> tokens[x] != tokens[y]
    }

    /** Each token is found under its own text, and nothing else is found. */
    ghost predicate Found()
      reads this
    {
      && |view.texts| == |tokens|
      && (forall x :: 0 <= x < |tokens| ==> tokens[x].text == view.texts[x])
      && (forall w <- index :: index[w] < |tokens| && tokens[index[w]].text == w)
      && (forall x :: 0 <= x < |tokens| ==> view.texts[x] in index && index[view.texts[x]] == x)
    }

    ghost function StateOf(token: TokenInfo): TokenState
      reads token
    {
      TokenState(token.isQuery, token.isDoc, token.highest, token.slots, token.docs, token.lastBatch)
    }

    /** The view of one token. */
    ghost predicate TokenShown(x: nat)
      requires x < |tokens|
      reads this, tokens[x]
    {
      tokens[x].Valid() && Shows(view, x, StateOf(tokens[x]))
    }

    ghost predicate ListsShown()
      reads this
    {
      && (forall a :: a in active <==> a in view.active)
      && (forall x :: x in qbrandnew <==> x in view.newQueries)
      && (forall x :: x in dbrandnew <==> x in view.newDocs)
      && batch == view.batch
    }

    ghost predicate Valid()
      reads this, tokens
    {
      Distinct() && Found() && view.Valid() && ListsShown() && forall x: nat | x < |tokens| :: TokenShown(x)
    }

    constructor ()
      ensures Valid() && tokens == []
      ensures view == View([], [], [], {}, map[], {}, {}, {}, {}, 0)
    {
      tokens, index, active, qbrandnew, dbrandnew := [], map[], [], [], [];
      batch := 0;
      view := View([], [], [], {}, map[], {}, {}, {}, {}, 0);
    }

    /** The texts of all stored words. */
    function Texts(): (texts: seq<Word>)
      reads this
      ensures |texts| == |tokens| && forall x | 0 <= x < |texts| :: texts[x] == tokens[x].text
    {
      seq(|tokens|, x requires 0 <= x < |tokens| reads this => tokens[x].text)
    }

    /** The number of a word: the one it has, or the next free one. */
    ghost function IdOf(w: Word): nat
      reads this
    {
      if w in index then index[w] else |tokens|
    }

    lemma TextCount()
      requires Valid()
      ensures |view.texts| == |tokens| && view.Valid()
    {
    }

    /** What the view says about one token. */
    lemma Shown(tid: nat)
      requires Valid() && tid < |tokens|
      ensures view.Valid() && |view.texts| == |tokens| && view.texts[tid] == tokens[tid].text
      ensures (tokens[tid].isQuery <==> tid in view.queries) && tid < |view.occurrences|
    {
      assert TokenShown(tid);
    }

    lemma IdIsNext(w: Word)
      requires Valid()
      ensures IdOf(w) <= |view.texts| && view.Valid()
    {
    }

    /** The number of `w`, which is entered if it is new. */
    method Enter(w: Word) returns (tid: nat)
      requires Valid() && IsToken(w)
      modifies this`tokens, this`index, this`view
      ensures Valid() && tid == old(IdOf(w)) < |tokens| && tokens[tid].text == w
      ensures |tokens| >= |old(tokens)| && tokens[..|old(tokens)|] == old(tokens)
      ensures forall x | |old(tokens)| <= x < |tokens| :: fresh(tokens[x])
      ensures view == old(view).WithWord(w, tid)
    {
      if w in index {
        tid := index[w];
      } else {
        tid := |tokens|;
        var token := new TokenInfo(w);
        EnterNew(w, token);
      }
    }

    method EnterNew(w: Word, token: TokenInfo)
      requires Valid() && IsToken(w) && w !in index
      requires token !in tokens && token.Valid() && token.text == w && !token.isDoc && !token.isQuery
      requires token.slots == NO_SLOTS && token.docs == [] && token.lastBatch == -1
      modifies this`tokens, this`index, this`view
      ensures Valid() && tokens == old(tokens) + [token]
      ensures view == old(view).WithWord(w, |old(tokens)|)
    {
      hide BitsAgree, TiersWithin, IsToken, View.Valid;
      WithWordValid(view, w, |tokens|);
      tokens := tokens + [token];
      index := index[w := |tokens| - 1];
      view := view.WithWord(w, |tokens| - 1);
      forall x: nat | x < |tokens| ensures TokenShown(x) {
        assert x < |old(tokens)| ==> old(TokenShown(x));
        WithWordShows(old(view), w, x, StateOf(tokens[x]));
      }
    }

    /** The first request for a word makes it a query token, new in this batch. */
    method FirstRequest(tid: nat, qmid: nat, position: nat, mt: MatchType, dist: nat)
      requires Valid() && tid < |tokens| && IsRequest(mt, dist) && tid !in view.queries
      modifies this`active, this`qbrandnew, this`view, tokens[tid]
      ensures Valid() && view == old(view).WithRequest(tid, mt, dist, TokenQmidInfo(qmid, position))
      ensures active == old(active) + [ActiveToken(RequestTier(mt, dist), tid)] && qbrandnew == old(qbrandnew) + [tid]
    {
      hide BitsAgree, TiersWithin, IsToken, View.Valid, View.WithRequest, Filed, TierOfRequests, RequestTier;
      var token := tokens[tid];
      ghost var info := TokenQmidInfo(qmid, position);
      assert TokenShown(tid);
      WithRequestHere(view, tid, mt, dist, info, StateOf(token));
      token.NewQueryToken(qmid, position, mt, dist);
      qbrandnew := qbrandnew + [tid];
      active := active + [ActiveToken(TierOfRequests(token.requests), tid)];
      view := view.WithRequest(tid, mt, dist, info);
      assert TokenShown(tid);
      forall x: nat | x < |tokens| && x != tid ensures TokenShown(x) {
        assert old(TokenShown(x)) && tokens[x] != token;
        WithRequestElsewhere(old(view), tid, mt, dist, info, x, StateOf(tokens[x]));
      }
    }

    /** A further request puts a query token on a list again only if it asks for more than before. */
    method InsertNewQmid(tid: nat, qmid: nat, position: nat, mt: MatchType, dist: nat)
      requires Valid() && tid < |tokens| && IsRequest(mt, dist) && tid in view.queries
      modifies this`active, this`view, tokens[tid]
      ensures Valid() && view == old(view).WithRequest(tid, mt, dist, TokenQmidInfo(qmid, position))
      ensures active == old(active) +
              (if tid in old(view).queries && RequestTier(mt, dist) <= old(view).queries[tid] then []
               else [ActiveToken(RequestTier(mt, dist), tid)])
    {
      hide BitsAgree, TiersWithin, IsToken, View.Valid, View.WithRequest, Filed, TierOfRequests, RequestTier;
      var token := tokens[tid];
      ghost var info := TokenQmidInfo(qmid, position);
      assert TokenShown(tid);
      WithRequestHere(view, tid, mt, dist, info, StateOf(token));
      var err := token.InsertQmid(qmid, position, mt, dist);
      if err == TokenUp {
        active := active + [ActiveToken(token.highest, tid)];
      }
      view := view.WithRequest(tid, mt, dist, info);
      assert TokenShown(tid);
      forall x: nat | x < |tokens| && x != tid ensures TokenShown(x) {
        assert old(TokenShown(x)) && tokens[x] != token;
        WithRequestElsewhere(old(view), tid, mt, dist, info, x, StateOf(tokens[x]));
      }
    }

    method RemoveTokenQmidInfo(tid: nat, qmid: nat, mt: MatchType, dist: nat) returns (err: ErrorCode)
      requires Valid() && tid < |tokens| && IsRequest(mt, dist) && tid in view.queries
      requires view.slots[tid][BucketOf(mt, dist)] != []
      modifies this`view, tokens[tid]
      ensures Valid() && view == old(view).WithoutRequest(tid, BucketOf(mt, dist), qmid)
    {
      hide View.WithoutRequest, View.Valid, BitsAgree, TiersWithin, IsToken, FirstOf;
      var token := tokens[tid];
      ghost var b := BucketOf(mt, dist);
      assert TokenShown(tid);
      WithoutRequestValid(view, tid, b, qmid);
      WithoutRequestHere(view, tid, b, qmid, StateOf(token));
      err := token.RemoveQmid(qmid, mt, dist);
      view := view.WithoutRequest(tid, b, qmid);
      assert TokenShown(tid);
      forall x: nat | x < |tokens| && x != tid ensures TokenShown(x) {
        assert old(TokenShown(x)) && tokens[x] != token;
        WithoutRequestElsewhere(old(view), tid, b, qmid, x, StateOf(tokens[x]));
      }
    }

    /** A document word, in document `did` of this batch. */
    method Occurrence(tid: nat, did: nat) returns (err: ErrorCode)
      requires Valid() && tid < |tokens|
      modifies this`dbrandnew, this`view, tokens[tid]
      ensures Valid() && view == old(view).WithOccurrence(tid, did)
      ensures err == if tid !in old(view.docs) then FreshToken
              else if tid in old(view.current) then TokenExistsInBatch else Ok
      ensures dbrandnew == old(dbrandnew) + if tid in old(view).docs then [] else [tid]
    {
      hide View.Valid, View.WithOccurrence, BitsAgree, TiersWithin, IsToken, Shows;
      TextCount();
      var token := tokens[tid];
      assert TokenShown(tid);
      ShowsOccurrences(view, tid, StateOf(token));
      WithOccurrenceValid(view, tid, did);
      view := view.WithOccurrence(tid, did);
      if !token.isDoc {
        token.NewDocToken(did, batch);
        dbrandnew := dbrandnew + [tid];
        err := FreshToken;
      } else {
        err := token.InsertDid(did, batch);
      }
      forall x: nat | x < |tokens| ensures TokenShown(x) {
        assert old(TokenShown(x)) && (x != tid ==> tokens[x] != token);
        ghost var st := old(StateOf(tokens[x]));
        WithOccurrenceShows(old(view), tid, did, x, st);
        assert StateOf(tokens[x]) == if x != tid then st else st.(isDoc := true, lastBatch := batch,
                docs := if st.docs != [] && st.docs[|st.docs| - 1] == did then st.docs else st.docs + [did]);
      }
    }

    /** Enters a query word and its request; words outside the length limits are turned away. */
    method AddQueryToken(w: Word, qmid: nat, position: nat, mt: MatchType, dist: nat) returns (err: ErrorCode, tid: nat)
      requires Valid() && NUL !in w && IsRequest(mt, dist)
      modifies this, tokens
      ensures Valid()
      ensures forall x | 0 <= x < |tokens| :: tokens[x] in old(tokens) || fresh(tokens[x])
      ensures IsToken(w) ==> tid == old(IdOf(w)) < |view.texts| && view.texts[tid] == w
      ensures IsToken(w) ==> old(view).Valid() && tid < |old(view).WithWord(w, tid).texts|
      ensures IsToken(w) ==>
              view == old(view).WithWord(w, tid).WithRequest(tid, mt, dist, TokenQmidInfo(qmid, position))
      ensures !IsToken(w) ==> err == OutOfRange && view == old(view)
      ensures IsToken(w) ==>
              active == old(active) +
              (if tid in old(view).queries && RequestTier(mt, dist) <= old(view).queries[tid] then []
               else [ActiveToken(RequestTier(mt, dist), tid)])
      ensures IsToken(w) ==> qbrandnew == old(qbrandnew) + if tid in old(view).queries then [] else [tid]
      ensures !IsToken(w) ==> active == old(active) && qbrandnew == old(qbrandnew)
      ensures dbrandnew == old(dbrandnew)
    {
      hide Valid, View.Valid, View.WithRequest, Filed, RequestTier;
      tid := 0;
      if |w| < MIN_WORD_LENGTH || |w| > MAX_WORD_LENGTH {
        return OutOfRange, tid;
      }
      err := FreshToken;
      IdIsNext(w);
      tid := Enter(w);
      Shown(tid);
      if tokens[tid].isQuery {
        InsertNewQmid(tid, qmid, position, mt, dist);
      } else {
        FirstRequest(tid, qmid, position, mt, dist);
      }
      Shown(tid);
    }

    /** Enters a document word and its occurrence in document `did`. */
    method AddDocToken(w: Word, did: nat) returns (err: ErrorCode, tid: nat)
      requires Valid() && NUL !in w
      modifies this, tokens
      ensures Valid()
      ensures forall x | 0 <= x < |tokens| :: tokens[x] in old(tokens) || fresh(tokens[x])
      ensures IsToken(w) ==> tid == old(IdOf(w)) < |view.texts| && view.texts[tid] == w
      ensures IsToken(w) ==> old(view).Valid() && tid < |old(view).WithWord(w, tid).occurrences|
      ensures IsToken(w) ==> view == old(view).WithWord(w, tid).WithOccurrence(tid, did)
      ensures IsToken(w) ==> (err == TokenExistsInBatch <==> tid in old(view).current)
      ensures !IsToken(w) ==> err == OutOfRange && view == old(view)
      ensures IsToken(w) ==> dbrandnew == old(dbrandnew) + if tid in old(view).docs then [] else [tid]
      ensures !IsToken(w) ==> dbrandnew == old(dbrandnew)
      ensures active == old(active) && qbrandnew == old(qbrandnew)
    {
      hide Valid, View.Valid, View.WithOccurrence;
      tid := 0;
      if |w| < MIN_WORD_LENGTH || |w| > MAX_WORD_LENGTH {
        return OutOfRange, tid;
      }
      IdIsNext(w);
      tid := Enter(w);
      Shown(tid);
      err := Occurrence(tid, did);
      Shown(tid);
    }

    /** The lists of a batch are dropped at its end. */
    method NewBatch()
      requires Valid()
      modifies this`active, this`qbrandnew, this`dbrandnew, this`batch, this`view
      ensures Valid() && view == old(view).NextBatch()
      ensures active == [] && qbrandnew == [] && dbrandnew == [] && batch == old(batch) + 1
    {
      active, qbrandnew, dbrandnew := [], [], [];
      batch := batch + 1;
      view := view.NextBatch();
      forall x: nat | x < |tokens| ensures TokenShown(x) {
        assert old(TokenShown(x));
      }
    }

    /** The document ids of one word are dropped, as `RunEnd` does for every word of the batch. */
    method ClearIds(tid: nat)
      requires Valid() && tid < |tokens|
      modifies this`view, tokens[tid]
      ensures Valid() && view == old(view).WithoutOccurrences(tid)
    {
      hide View.Valid;
      var token := tokens[tid];
      assert TokenShown(tid);
      WithoutOccurrencesShows(view, tid);
      token.ClearIds();
      view := view.WithoutOccurrences(tid);
      assert TokenShown(tid);
      forall x: nat | x < |tokens| && x != tid ensures TokenShown(x) {
        assert old(TokenShown(x)) && tokens[x] != token;
      }
    }
  }
}
