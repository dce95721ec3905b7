/** Matching a batch: the hash tables are brought up to date, then the jobs run in any order. */
module MatchBatch {
  import opened Words
  import opened EditDistance
  import opened Deletions
  import opened MatchPrune
  import opened TokenStructs
  import opened TokenManager
  import opened DeltaJoin
  import opened BatchJobs
  import opened MatchOnce

  /** One side's buckets hold known words of that side, each under its length, and all but the new ones in full. */
  ghost predicate Hashed(table: Table, mur: HashFunction, texts: seq<Word>, side: set<nat>, unhashed: set<nat>) {
    && Sound(table, texts)
    && (forall key, x: nat {:trigger x in Bucket(table, key)} :: x in Bucket(table, key) ==> x in side)
    && (forall x | x in side && x !in unhashed :: x < |texts| && IndexedAll(table, mur, texts[x], x))
  }

  lemma GrownKeeps(from: Table, to: Table, mur: HashFunction, id: nat, length: nat, w: Word, x: nat, count: nat)
    requires Grown(from, to, id, length) && Indexed(from, mur, w, x, count)
    ensures Indexed(to, mur, w, x, count)
  {
    forall v | Dropped(v, w, count) ensures x in Bucket(to, BucketKey(|w|, count, mur(v))) {
      assert x in Bucket(from, BucketKey(|w|, count, mur(v)));
    }
  }

  lemma GrownSound(from: Table, to: Table, texts: seq<Word>, side: set<nat>, id: nat)
    requires Sound(from, texts) && id < |texts| && Grown(from, to, id, |texts[id]|) && id in side
    requires forall key, x: nat {:trigger x in Bucket(from, key)} :: x in Bucket(from, key) ==> x in side
    ensures Sound(to, texts)
    ensures forall key, x: nat {:trigger x in Bucket(to, key)} :: x in Bucket(to, key) ==> x in side
  {
    forall key, x: nat {:trigger x in Bucket(to, key)} | x in Bucket(to, key)
      ensures x < |texts| && |texts[x]| == key.length && x in side
    {
      assert x in Bucket(from, key) || (x == id && key.length == |texts[id]|);
    }
  }

  /** Every choice of up to three positions, each once. */
  ghost predicate UpToThree(ps: seq<seq<nat>>, n: nat, count: nat) {
    && (forall q :: q in ps <==> Positions(q, n) && |q| < count)
    && forall x, y :: 0 <= x < y < |ps| ==> ps[x] != ps[y]
  }

  lemma NextDepth(ps: seq<seq<nat>>, more: seq<seq<nat>>, n: nat, count: nat)
    requires UpToThree(ps, n, count) && AllPositions(more, n, count)
    ensures UpToThree(ps + more, n, count + 1)
  {
    forall x, y | 0 <= x < y < |ps + more| ensures (ps + more)[x] != (ps + more)[y] {
      if x < |ps| <= y {
        assert ps[x] in ps && more[y - |ps|] in more;
      }
    }
  }

  lemma {:induction false} GainedBoth(mur: HashFunction, w: Word, id: nat, ps: seq<seq<nat>>, more: seq<seq<nat>>,
                                      key: BucketKey)
    requires (forall q <- ps :: Positions(q, |w|)) && forall q <- more :: Positions(q, |w|)
    ensures Gained(mur, w, id, ps + more, key) == Gained(mur, w, id, ps, key) + Gained(mur, w, id, more, key)
    decreases |more|
  {
    if more == [] {
      assert ps + more == ps;
    } else {
      var rest, q := more[..|more| - 1], more[|more| - 1];
      assert q in more;
      GainedBoth(mur, w, id, ps, rest, key);
      assert ps + more == ps + rest + [q] && more == rest + [q];
      GainedMore(mur, w, id, ps + rest, q, key);
      GainedMore(mur, w, id, rest, q, key);
    }
  }

  lemma FilledBoth(from: Table, t: Table, to: Table, mur: HashFunction, w: Word, id: nat, ps: seq<seq<nat>>,
                   more: seq<seq<nat>>)
    requires Filled(from, t, mur, w, id, ps) && Filled(t, to, mur, w, id, more)
    ensures Filled(from, to, mur, w, id, ps + more)
  {
    hide Gained, Positions;
    forall q | q in ps + more ensures Positions(q, |w|) {
    }
    forall key ensures Bucket(to, key) == Bucket(from, key) + Gained(mur, w, id, ps + more, key) {
      GainedBoth(mur, w, id, ps, more, key);
      Behind(Bucket(from, key), Gained(mur, w, id, ps, key), Gained(mur, w, id, more, key));
    }
  }

  lemma Behind(a: seq<nat>, b: seq<nat>, c: seq<nat>)
    ensures a + b + c == a + (b + c)
  {
  }

  /** All four deletion depths of one new word. */
  method HashWord(mur: HashFunction, texts: seq<Word>, ghost side: set<nat>, ghost unhashed: set<nat>, id: nat,
                  table: Table) returns (table': Table, ghost ps: seq<seq<nat>>)
    requires AllTokens(texts) && id < |texts| && id in side && Hashed(table, mur, texts, side, unhashed)
    ensures Hashed(table', mur, texts, side, unhashed - {id})
    ensures UpToThree(ps, |texts[id]|, 4) && Filled(table, table', mur, texts[id], id, ps)
  {
    hide Filled, AllPositions, UpToThree, Gained;
    table', ps := table, [];
    NothingFilled(table, mur, texts[id], id);
    NoDepth(|texts[id]|);
    for count := 0 to 4
      invariant Hashed(table', mur, texts, side, unhashed)
      invariant forall c: nat | c < count :: Indexed(table', mur, texts[id], id, c)
      invariant UpToThree(ps, |texts[id]|, count) && Filled(table, table', mur, texts[id], id, ps)
    {
      var before := table';
      ghost var more;
      table', more := GenHashes(mur, texts[id], id, count, before);
      NextDepth(ps, more, |texts[id]|, count);
      FilledBoth(table, before, table', mur, texts[id], id, ps, more);
      ps := ps + more;
      GrownSound(before, table', texts, side, id);
      forall x: nat, c: nat | x < |texts| && Indexed(before, mur, texts[x], x, c)
          ensures Indexed(table', mur, texts[x], x, c) {
        GrownKeeps(before, table', mur, id, |texts[id]|, texts[x], x, c);
      }
      forall x: nat | x in side && x !in unhashed ensures x < |texts| && IndexedAll(table', mur, texts[x], x) {
        assert IndexedAll(before, mur, texts[x], x);
      }
    }
  }

  lemma NoDepth(n: nat)
    ensures UpToThree([], n, 0)
  {
  }

  /** The table after the words of a list were put into it, one after the other, each exactly once. */
  ghost predicate HashedInto(from: Table, to: Table, mur: HashFunction, texts: seq<Word>, list: seq<nat>)
    decreases |list|
  {
    if list == [] then to == from
    else
      var id := list[|list| - 1];
      id < |texts| && exists t: Table, ps ::
        HashedInto(from, t, mur, texts, list[..|list| - 1]) && HashedOne(t, to, mur, texts[id], id, ps)
  }

  ghost predicate HashedOne(from: Table, to: Table, mur: HashFunction, w: Word, id: nat, ps: seq<seq<nat>>) {
    UpToThree(ps, |w|, 4) && Filled(from, to, mur, w, id, ps)
  }

  lemma HashedMore(from: Table, t: Table, to: Table, mur: HashFunction, texts: seq<Word>, list: seq<nat>, id: nat,
                   ps: seq<seq<nat>>)
    requires HashedInto(from, t, mur, texts, list) && id < |texts| && HashedOne(t, to, mur, texts[id], id, ps)
    ensures HashedInto(from, to, mur, texts, list + [id])
  {
    assert (list + [id])[..|list|] == list;
  }

  /** `JobGenHashes` and `JobGenHashesToken`: the new words of one side are put into the buckets. */
  method HashNew(mur: HashFunction, texts: seq<Word>, ghost side: set<nat>, ghost recent: set<nat>, list: seq<nat>,
                 table: Table) returns (table': Table)
    requires AllTokens(texts) && (forall x <- list :: x in side && x < |texts|)
    requires Hashed(table, mur, texts, side, recent) && forall x :: x in recent <==> x in list
    ensures Hashed(table', mur, texts, side, {}) && HashedInto(table, table', mur, texts, list)
  {
    hide Hashed, HashedOne, AllTokens;
    table' := table;
    ghost var unhashed := recent;
    assert list[..0] == [];
    for k := 0 to |list|
      invariant Hashed(table', mur, texts, side, unhashed) && HashedInto(table, table', mur, texts, list[..k])
      invariant forall x <- unhashed :: x in list[k..]
    {
      assert list[k] in list && list[..k + 1] == list[..k] + [list[k]];
      ghost var before, ps := table', [];
      table', ps := HashWord(mur, texts, side, unhashed, list[k], table');
      HashedIs(before, table', mur, texts[list[k]], list[k], ps);
      HashedMore(table, before, table', mur, texts, list[..k], list[k], ps);
      unhashed := unhashed - {list[k]};
    }
    assert unhashed == {} && list[..|list|] == list;
  }

  lemma HashedIs(from: Table, to: Table, mur: HashFunction, w: Word, id: nat, ps: seq<seq<nat>>)
    requires UpToThree(ps, |w|, 4) && Filled(from, to, mur, w, id, ps)
    ensures HashedOne(from, to, mur, w, id, ps)
  {
  }

  // ----- running the jobs -----

  /** The words of a pairing have all been compared: those it joins and that are near have an entry. */
  ghost predicate Answered(p: Pairing, view: View, active: seq<ActiveToken>, dbrandnew: seq<nat>, entries: seq<Entry>) {
    match p
    case OfRequest(tier, ql, dl, x) =>
      var list := Listed(active, view.texts, tier, ql);
      x < |list| ==>
        forall w | w in view.docs && Near(view.texts, w, list[x], tier) && |view.texts[w]| == dl ::
            PairedIn(entries, w, list[x])
    case OfDocument(ql, dl, x) =>
      var list := ListedDocs(dbrandnew, view.texts, dl);
      x < |list| ==>
        forall q | q in view.queries && Near(view.texts, list[x], q, 3) && |view.texts[q]| == ql ::
            PairedIn(entries, list[x], q)
  }

  lemma AnsweredStays(p: Pairing, view: View, active: seq<ActiveToken>, dbrandnew: seq<nat>, entries: seq<Entry>,
                      entries': seq<Entry>)
    requires Answered(p, view, active, dbrandnew, entries) && entries <= entries'
    ensures Answered(p, view, active, dbrandnew, entries')
  {
    forall w, q | PairedIn(entries, w, q) ensures PairedIn(entries', w, q) {
      var e :| e in entries && e.wid == w && e.tid == q;
      assert e in entries';
    }
  }

  /** What the jobs work with: the registry as it is, and both tables up to date. */
  ghost predicate Ready(view: View, mur: HashFunction, dhash: Table, qhash: Table, active: seq<ActiveToken>,
                        dbrandnew: seq<nat>) {
    && view.Valid()
    && Hashed(dhash, mur, view.texts, view.docs, {}) && Hashed(qhash, mur, view.texts, view.queries.Keys, {})
    && (forall a <- active :: a in view.active) && (forall x <- dbrandnew :: x in view.newDocs)
  }

  /** The search for one element of a request list enters the pairs it is about once, and no others. */
  lemma RequestEnters(lists: Lists, before: seq<Entry>, added: seq<Entry>, tier: nat, ql: nat, dl: nat, x: nat)
    requires tier <= 3 && x < |Listed(lists.active, lists.texts, tier, ql)|
    requires Joined(added, lists.texts, Listed(lists.active, lists.texts, tier, ql)[x], false, dl, tier)
    ensures forall w, q :: EntryCount(before + added, w, q) <=
              EntryCount(before, w, q) + if lists.Concerns(OfRequest(tier, ql, dl, x), w, q) then 1 else 0
  {
    hide Joined;
    var list := Listed(lists.active, lists.texts, tier, ql);
    assert list[x] in list;
    ListedHolds(lists.active, lists.texts, tier, ql, list[x]);
    forall w, q
      ensures EntryCount(before + added, w, q) <=
              EntryCount(before, w, q) + if lists.Concerns(OfRequest(tier, ql, dl, x), w, q) then 1 else 0
    {
      EntryCountBoth(before, added, w, q);
      JoinedOnce(added, lists.texts, list[x], false, dl, tier, w, q);
    }
  }

  /** The search for one new document word, likewise. */
  lemma DocumentEnters(lists: Lists, before: seq<Entry>, added: seq<Entry>, ql: nat, dl: nat, x: nat)
    requires x < |ListedDocs(lists.dbrandnew, lists.texts, dl)|
    requires Joined(added, lists.texts, ListedDocs(lists.dbrandnew, lists.texts, dl)[x], true, ql, 3)
    ensures forall w, q :: EntryCount(before + added, w, q) <=
              EntryCount(before, w, q) + if lists.Concerns(OfDocument(ql, dl, x), w, q) then 1 else 0
  {
    hide Joined;
    var list := ListedDocs(lists.dbrandnew, lists.texts, dl);
    assert list[x] in list;
    ListedDocsHolds(lists.dbrandnew, lists.texts, dl, list[x]);
    forall w, q
      ensures EntryCount(before + added, w, q) <=
              EntryCount(before, w, q) + if lists.Concerns(OfDocument(ql, dl, x), w, q) then 1 else 0
    {
      EntryCountBoth(before, added, w, q);
      JoinedOnce(added, lists.texts, list[x], true, ql, 3, w, q);
    }
  }

  method RunRequest(rel: Relations, ghost view: View, mur: HashFunction, dhash: Table, ghost qhash: Table,
                    active: seq<ActiveToken>, ghost dbrandnew: seq<nat>, texts: seq<Word>,
                    tier: nat, ql: nat, dl: nat, x: nat)
    requires Ready(view, mur, dhash, qhash, active, dbrandnew) && texts == view.texts && tier <= 3
    requires x < |Listed(active, texts, tier, ql)|
    requires AllCorrect(rel.entries, texts)
    modifies rel
    ensures old(rel.entries) <= rel.entries && AllCorrect(rel.entries, texts)
    ensures Answered(OfRequest(tier, ql, dl, x), view, active, dbrandnew, rel.entries)
    ensures forall w, q :: EntryCount(rel.entries, w, q) <= EntryCount(old(rel.entries), w, q)
              + if Lists(active, dbrandnew, texts).Concerns(OfRequest(tier, ql, dl, x), w, q) then 1 else 0
  {
    var list := Listed(active, texts, tier, ql);
    var q := list[x];
    assert q in list;
    ListedHolds(active, texts, tier, ql, q);
    ghost var before := rel.entries;
    Join(rel, mur, dhash, dl, tier, texts, q, false);
    ghost var added := rel.entries[|before|..];
    assert rel.entries == before + added;
    forall w | w in view.docs && Near(texts, w, q, tier) && |texts[w]| == dl ensures PairedIn(rel.entries, w, q) {
      assert Paired(added, w, q, false);
      var e :| e in added && e == Pair(q, w, e.mask, false);
      assert e in rel.entries;
    }
    RequestEnters(Lists(active, dbrandnew, texts), before, added, tier, ql, dl, x);
  }

  method RunDocument(rel: Relations, ghost view: View, mur: HashFunction, ghost dhash: Table, qhash: Table,
                     ghost active: seq<ActiveToken>, dbrandnew: seq<nat>, texts: seq<Word>,
                     ql: nat, dl: nat, x: nat)
    requires Ready(view, mur, dhash, qhash, active, dbrandnew) && texts == view.texts
    requires x < |ListedDocs(dbrandnew, texts, dl)|
    requires AllCorrect(rel.entries, texts)
    modifies rel
    ensures old(rel.entries) <= rel.entries && AllCorrect(rel.entries, texts)
    ensures Answered(OfDocument(ql, dl, x), view, active, dbrandnew, rel.entries)
    ensures forall w, q :: EntryCount(rel.entries, w, q) <= EntryCount(old(rel.entries), w, q)
              + if Lists(active, dbrandnew, texts).Concerns(OfDocument(ql, dl, x), w, q) then 1 else 0
  {
    var list := ListedDocs(dbrandnew, texts, dl);
    var w := list[x];
    assert w in list;
    ListedDocsHolds(dbrandnew, texts, dl, w);
    ghost var before := rel.entries;
    Join(rel, mur, qhash, ql, 3, texts, w, true);
    ghost var added := rel.entries[|before|..];
    assert rel.entries == before + added;
    forall q | q in view.queries && Near(texts, w, q, 3) && |texts[q]| == ql ensures PairedIn(rel.entries, w, q) {
      LevSym(texts[w], texts[q]);
      assert Paired(added, q, w, true);
      var e :| e in added && e == Pair(w, q, e.mask, true);
      assert e in rel.entries;
    }
    DocumentEnters(Lists(active, dbrandnew, texts), before, added, ql, dl, x);
  }

  /** The loop of one job over its range of the list. */
  method RunJob(rel: Relations, ghost view: View, mur: HashFunction, dhash: Table, qhash: Table,
                active: seq<ActiveToken>, dbrandnew: seq<nat>, texts: seq<Word>, job: Job)
    requires Ready(view, mur, dhash, qhash, active, dbrandnew) && texts == view.texts
    requires forall p | Covers(job, p) :: InRange(p, active, dbrandnew, texts)
    requires AllCorrect(rel.entries, texts)
    modifies rel
    ensures old(rel.entries) <= rel.entries && AllCorrect(rel.entries, texts)
    ensures forall p | Covers(job, p) :: Answered(p, view, active, dbrandnew, rel.entries)
    ensures EnteredWithin(old(rel.entries), rel.entries, Lists(active, dbrandnew, texts), [job])
  {
    hide Ready, AllCorrect, EnteredWithin, Lists.Concerns;
    ghost var before, lists := rel.entries, Lists(active, dbrandnew, texts);
    NothingEntered(before, lists, job.(end := job.start));
    for x := job.start to if job.start <= job.end then job.end else job.start
      invariant before <= rel.entries && AllCorrect(rel.entries, texts)
      invariant forall p | Covers(job, p) && p.index < x :: Answered(p, view, active, dbrandnew, rel.entries)
      invariant EnteredWithin(before, rel.entries, lists, [job.(end := x)])
    {
      ghost var prior := rel.entries;
      match job
      case QD(tier, ql, dl, _, _) =>
        assert Covers(job, OfRequest(tier, ql, dl, x));
        RunRequest(rel, view, mur, dhash, qhash, active, dbrandnew, texts, tier, ql, dl, x);
        assert PairingAt(job, x) == OfRequest(tier, ql, dl, x);
        OneMoreEntered(before, prior, rel.entries, lists, job, x);
      case DQ(ql, dl, _, _) =>
        assert Covers(job, OfDocument(ql, dl, x));
        RunDocument(rel, view, mur, dhash, qhash, active, dbrandnew, texts, ql, dl, x);
        assert PairingAt(job, x) == OfDocument(ql, dl, x);
        OneMoreEntered(before, prior, rel.entries, lists, job, x);
      assert before <= prior <= rel.entries;
      forall p | Covers(job, p) && p.index < x + 1 ensures Answered(p, view, active, dbrandnew, rel.entries) {
        if p.index < x {
          AnsweredStays(p, view, active, dbrandnew, prior, rel.entries);
        }
      }
    }
    if job.start <= job.end {
      assert job.(end := job.end) == job;
    } else {
      EmptyJob(before, rel.entries, lists, job);
    }
  }

  /** No pair has got more new entries than the jobs can enter. */
  ghost predicate EnteredWithin(from: seq<Entry>, to: seq<Entry>, lists: Lists, jobs: seq<Job>) {
    forall w, q :: EntryCount(to, w, q) <= EntryCount(from, w, q) + lists.Budget(jobs, w, q)
  }

  lemma NothingEntered(entries: seq<Entry>, lists: Lists, job: Job)
    requires job.end <= job.start
    ensures EnteredWithin(entries, entries, lists, [job])
  {
    forall w, q ensures EntryCount(entries, w, q) <= EntryCount(entries, w, q) + lists.Budget([job], w, q) {
      lists.BudgetNothing(job, w, q);
    }
  }

  lemma EmptyJob(from: seq<Entry>, to: seq<Entry>, lists: Lists, job: Job)
    requires job.end <= job.start && EnteredWithin(from, to, lists, [job.(end := job.start)])
    ensures EnteredWithin(from, to, lists, [job])
  {
    forall w, q ensures EntryCount(to, w, q) <= EntryCount(from, w, q) + lists.Budget([job], w, q) {
      lists.BudgetNothing(job, w, q);
      lists.BudgetNothing(job.(end := job.start), w, q);
    }
  }

  ghost function PairingAt(job: Job, x: nat): Pairing {
    if job.QD? then OfRequest(job.tier, job.queryLength, job.docLength, x)
    else OfDocument(job.queryLength, job.docLength, x)
  }

  lemma OneMoreEntered(from: seq<Entry>, t: seq<Entry>, to: seq<Entry>, lists: Lists, job: Job, x: nat)
    requires EnteredWithin(from, t, lists, [job.(end := x)]) && job.start <= x && (job.QD? ==> job.tier <= 3)
    requires forall w, q ::
               EntryCount(to, w, q) <= EntryCount(t, w, q) + if lists.Concerns(PairingAt(job, x), w, q) then 1 else 0
    ensures EnteredWithin(from, to, lists, [job.(end := x + 1)])
  {
    hide Lists.Concerns, Lists.Budget;
    forall w, q
      ensures EntryCount(to, w, q) <= EntryCount(from, w, q) + lists.Budget([job.(end := x + 1)], w, q)
    {
      lists.BudgetMore(job, x, w, q);
    }
  }

  ghost predicate InRange(p: Pairing, active: seq<ActiveToken>, dbrandnew: seq<nat>, texts: seq<Word>) {
    match p
    case OfRequest(tier, ql, dl, x) => tier <= 3 && x < |Listed(active, texts, tier, ql)|
    case OfDocument(ql, dl, x) => x < |ListedDocs(dbrandnew, texts, dl)|
  }

  /** All jobs of a batch, each taken from anywhere in what is left. */
  method RunJobs(rel: Relations, ghost view: View, mur: HashFunction, dhash: Table, qhash: Table,
                 active: seq<ActiveToken>, dbrandnew: seq<nat>, texts: seq<Word>, all: seq<Job>, ghost first: bool)
    requires Ready(view, mur, dhash, qhash, active, dbrandnew) && texts == view.texts
    requires forall p :: CoverCount(all, p) == if Called(p, active, dbrandnew, texts, first) then 1 else 0
    requires AllCorrect(rel.entries, texts)
    modifies rel
    ensures old(rel.entries) <= rel.entries && AllCorrect(rel.entries, texts)
    ensures forall p | Called(p, active, dbrandnew, texts, first) :: Answered(p, view, active, dbrandnew, rel.entries)
    ensures forall w, q :: EntryCount(rel.entries, w, q) <=
                           EntryCount(old(rel.entries), w, q) + Lists(active, dbrandnew, texts).Waiting(w, q, first)
  {
    hide Lists.Budget, Lists.Waiting, EntryCount, Answered;
    ghost var lists := Lists(active, dbrandnew, texts);
    var jobs := all;
    while jobs != []
      invariant old(rel.entries) <= rel.entries && AllCorrect(rel.entries, texts)
      invariant forall p :: CoverCount(jobs, p) <= CoverCount(all, p)
      invariant forall p | CoverCount(jobs, p) < CoverCount(all, p) :: Answered(p, view, active, dbrandnew, rel.entries)
      invariant forall w, q :: EntryCount(rel.entries, w, q) + lists.Budget(jobs, w, q) <=
                               EntryCount(old(rel.entries), w, q) + lists.Budget(all, w, q)
      decreases |jobs|
    {
      var k :| 0 <= k < |jobs|;
      forall p {
        CoverCountTake(jobs, k, p);
      }
      ghost var prior := rel.entries;
      RunJob(rel, view, mur, dhash, qhash, active, dbrandnew, texts, jobs[k]);
      forall p | Answered(p, view, active, dbrandnew, prior) ensures Answered(p, view, active, dbrandnew, rel.entries) {
        AnsweredStays(p, view, active, dbrandnew, prior, rel.entries);
      }
      forall w, q {
        lists.BudgetTake(jobs, k, w, q);
      }
      jobs := jobs[..k] + jobs[k + 1..];
    }
    forall w, q {
      lists.BudgetIsWaiting(all, first, w, q);
    }
  }

  /** Once every pairing called for is answered, nothing waits any more. */
  lemma AllAnswered(view: View, active: seq<ActiveToken>, dbrandnew: seq<nat>, entries: seq<Entry>,
                    entries': seq<Entry>)
    requires view.Valid() && AllCorrect(entries', view.texts) && entries <= entries'
    requires forall a :: a in active <==> a in view.active
    requires forall x :: x in dbrandnew <==> x in view.newDocs
    requires forall p | Called(p, active, dbrandnew, view.texts, view.batch == 0) ::
             Answered(p, view, active, dbrandnew, entries')
    ensures Matched(view, entries, entries')
  {
    var texts := view.texts;
    forall w, q | w in view.docs && q in view.queries && AwaitsRequest(view, w, q) ensures PairedIn(entries', w, q) {
      var a :| a in view.active && a.id == q && Near(texts, w, q, a.tier);
      DistLengths(texts[w], texts[q], |texts[w]|, |texts[q]|);
      ListedHolds(active, texts, a.tier, |texts[q]|, q);
      var list := Listed(active, texts, a.tier, |texts[q]|);
      var x :| 0 <= x < |list| && list[x] == q;
      var p := OfRequest(a.tier, |texts[q]|, |texts[w]|, x);
      assert Called(p, active, dbrandnew, texts, view.batch == 0);
      assert Answered(p, view, active, dbrandnew, entries');
    }
    forall w, q | w in view.docs && q in view.queries && AwaitsDocument(view, w) && Near(texts, w, q, 3)
        ensures PairedIn(entries', w, q) {
      DistLengths(texts[w], texts[q], |texts[w]|, |texts[q]|);
      ListedDocsHolds(dbrandnew, texts, |texts[w]|, w);
      var list := ListedDocs(dbrandnew, texts, |texts[w]|);
      var x :| 0 <= x < |list| && list[x] == w;
      var p := OfDocument(|texts[q]|, |texts[w]|, x);
      assert Called(p, active, dbrandnew, texts, view.batch == 0);
      assert Answered(p, view, active, dbrandnew, entries');
    }
  }

  lemma HashedGrows(table: Table, mur: HashFunction, texts: seq<Word>, texts': seq<Word>,
                    side: set<nat>, side': set<nat>, unhashed: set<nat>, unhashed': set<nat>)
    requires Hashed(table, mur, texts, side, unhashed) && texts <= texts'
    requires side <= side' && unhashed <= unhashed' && side' - side <= unhashed'
    ensures Hashed(table, mur, texts', side', unhashed')
  {
    forall x: nat | x in side' && x !in unhashed' ensures x < |texts'| && IndexedAll(table, mur, texts'[x], x) {
      assert x in side && x !in unhashed;
    }
  }

  /** A request taken back leaves the words of both sides alone. */
  lemma WithoutRequestWords(view: View, id: nat, b: nat, qmid: nat)
    requires view.Valid() && id in view.queries && b < 7
    ensures id < |view.texts| == |view.slots| && |view.slots[id]| == 7
    ensures var view' := view.WithoutRequest(id, b, qmid);
            && view'.texts == view.texts && view'.docs == view.docs && view'.queries.Keys == view.queries.Keys
            && view'.newDocs == view.newDocs && view'.newQueries == view.newQueries
  {
  }

  /** The registry, the buckets of both sides and the relation that grows from batch to batch. */
  class Matcher {
    const mur: HashFunction
    const manager: TokenManager
    const rel: Relations
    var dhash: Table
    var qhash: Table

    ghost predicate Valid()
      reads this, manager, manager.tokens, rel
    {
      && manager.Valid()
      && Delta(manager.view, rel.entries)
      && Hashed(dhash, mur, manager.view.texts, manager.view.docs, manager.view.newDocs)
      && Hashed(qhash, mur, manager.view.texts, manager.view.queries.Keys, manager.view.newQueries)
    }

    /** Nothing waits: the relation is complete and all words are in the buckets. */
    ghost predicate UpToDate()
      reads this, manager, rel
    {
      && Complete(manager.view, rel.entries)
      && Hashed(dhash, mur, manager.view.texts, manager.view.docs, {})
      && Hashed(qhash, mur, manager.view.texts, manager.view.queries.Keys, {})
    }

    constructor (mur: HashFunction)
      ensures Valid() && this.mur == mur && fresh(manager) && fresh(rel) && manager.tokens == [] && rel.entries == []
    {
      this.mur := mur;
      manager := new TokenManager();
      rel := new Relations();
      dhash, qhash := map[], map[];
    }

    /** A request for a word, as `QueryIndex::AddQuery` makes it for each word of a query. */
    method AddQueryToken(w: Word, qmid: nat, position: nat, mt: MatchType, dist: nat) returns (tid: nat)
      requires Valid() && IsToken(w) && IsRequest(mt, dist)
      modifies manager, manager.tokens
      ensures Valid() && rel.entries == old(rel.entries)
      ensures forall x | 0 <= x < |manager.tokens| ::
              manager.tokens[x] in old(manager.tokens) || fresh(manager.tokens[x])
      ensures tid == old(manager.IdOf(w)) < |old(manager.view).WithWord(w, tid).texts| && old(manager.view).Valid()
      ensures manager.view ==
              old(manager.view).WithWord(w, tid).WithRequest(tid, mt, dist, TokenQmidInfo(qmid, position))
      ensures tid < |manager.view.texts| && manager.view.texts[tid] == w
      ensures manager.active == old(manager.active) +
              (if tid in old(manager.view).queries && RequestTier(mt, dist) <= old(manager.view).queries[tid] then []
               else [ActiveToken(RequestTier(mt, dist), tid)])
      ensures manager.qbrandnew == old(manager.qbrandnew) + if tid in old(manager.view).queries then [] else [tid]
      ensures manager.dbrandnew == old(manager.dbrandnew)
    {
      ghost var v0 := manager.view;
      var err;
      err, tid := manager.AddQueryToken(w, qmid, position, mt, dist);
      ghost var v1 := v0.WithWord(w, tid);
      if tid == |v0.texts| {
        DeltaWithWord(v0, rel.entries, w);
        WithWordValid(v0, w, tid);
      }
      DeltaWithRequest(v1, rel.entries, tid, mt, dist, TokenQmidInfo(qmid, position));
      HashedGrows(dhash, mur, v0.texts, manager.view.texts, v0.docs, manager.view.docs, v0.newDocs,
                  manager.view.newDocs);
      HashedGrows(qhash, mur, v0.texts, manager.view.texts, v0.queries.Keys, manager.view.queries.Keys, v0.newQueries,
                  manager.view.newQueries);
    }

    /** A request taken back, as `QueryIndex::RemoveQuery` does for each word of a query. */
    method RemoveRequest(tid: nat, qmid: nat, mt: MatchType, dist: nat)
      requires Valid() && IsRequest(mt, dist) && tid in manager.view.queries
      requires manager.view.Valid() && manager.view.slots[tid][BucketOf(mt, dist)] != []
      modifies manager, manager.tokens
      ensures Valid() && rel.entries == old(rel.entries)
      ensures forall x | 0 <= x < |manager.tokens| ::
              manager.tokens[x] in old(manager.tokens) || fresh(manager.tokens[x])
      ensures manager.view == old(manager.view).WithoutRequest(tid, BucketOf(mt, dist), qmid)
      ensures manager.active == old(manager.active) && manager.qbrandnew == old(manager.qbrandnew)
      ensures manager.dbrandnew == old(manager.dbrandnew)
    {
      hide Delta, Hashed, View.Valid, View.WithoutRequest;
      ghost var v0 := manager.view;
      WithoutRequestWords(v0, tid, BucketOf(mt, dist), qmid);
      var _ := manager.RemoveTokenQmidInfo(tid, qmid, mt, dist);
      DeltaWithoutRequest(v0, rel.entries, tid, BucketOf(mt, dist), qmid);
    }

    /** A word of document `did`. */
    method AddDocToken(w: Word, did: nat) returns (err: ErrorCode, tid: nat)
      requires Valid() && IsToken(w)
      modifies manager, manager.tokens
      ensures Valid() && rel.entries == old(rel.entries)
      ensures forall x | 0 <= x < |manager.tokens| ::
              manager.tokens[x] in old(manager.tokens) || fresh(manager.tokens[x])
      ensures tid == old(manager.IdOf(w)) && old(manager.view).Valid()
              && tid < |old(manager.view).WithWord(w, tid).occurrences|
      ensures manager.view == old(manager.view).WithWord(w, tid).WithOccurrence(tid, did)
      ensures err == TokenExistsInBatch <==> tid in old(manager.view.current)
      ensures manager.dbrandnew == old(manager.dbrandnew) + if tid in old(manager.view).docs then [] else [tid]
      ensures manager.active == old(manager.active) && manager.qbrandnew == old(manager.qbrandnew)
    {
      ghost var v0 := manager.view;
      err, tid := manager.AddDocToken(w, did);
      ghost var v1 := v0.WithWord(w, tid);
      if tid == |v0.texts| {
        DeltaWithWord(v0, rel.entries, w);
        WithWordValid(v0, w, tid);
      }
      DeltaWithOccurrence(v1, rel.entries, tid, did);
      HashedGrows(dhash, mur, v0.texts, manager.view.texts, v0.docs, manager.view.docs, v0.newDocs,
                  manager.view.newDocs);
      HashedGrows(qhash, mur, v0.texts, manager.view.texts, v0.queries.Keys, manager.view.queries.Keys, v0.newQueries,
                  manager.view.newQueries);
    }

    /** The jobs in front of the barrier. */
    lemma TablesUpToNow()
      requires Valid()
      ensures manager.view.Valid() && AllTokens(manager.view.texts)
      ensures (forall x <- manager.dbrandnew :: x in manager.view.docs && x < |manager.view.texts|)
      ensures (forall x <- manager.qbrandnew :: x in manager.view.queries && x < |manager.view.texts|)
      ensures forall x :: x in manager.view.newDocs <==> x in manager.dbrandnew
      ensures forall x :: x in manager.view.newQueries <==> x in manager.qbrandnew
      ensures forall a <- manager.active :: a in manager.view.active
    {
    }

    method UpdateTables(texts: seq<Word>)
      requires Valid() && texts == manager.view.texts
      modifies this`dhash, this`qhash
      ensures Valid()
      ensures Ready(manager.view, mur, dhash, qhash, manager.active, manager.dbrandnew)
      ensures HashedInto(old(dhash), dhash, mur, texts, manager.dbrandnew)
      ensures HashedInto(old(qhash), qhash, mur, texts, manager.qbrandnew)
    {
      hide Hashed, HashedInto, Delta, View.Valid;
      TablesUpToNow();
      ghost var view := manager.view;
      dhash := HashNew(mur, texts, view.docs, view.newDocs, manager.dbrandnew, dhash);
      qhash := HashNew(mur, texts, view.queries.Keys, view.newQueries, manager.qbrandnew, qhash);
      HashedGrows(dhash, mur, texts, texts, view.docs, view.docs, {}, view.newDocs);
      HashedGrows(qhash, mur, texts, texts, view.queries.Keys, view.queries.Keys, {}, view.newQueries);
    }

    /** `SplitGenHashes` and the jobs it leads to: the relation becomes complete for what is stored. */
    method Match()
      requires Valid()
      modifies this`dhash, this`qhash, rel
      ensures Valid() && manager.view == old(manager.view)
      ensures UpToDate()
      ensures HashedInto(old(dhash), dhash, mur, manager.view.texts, manager.dbrandnew)
      ensures HashedInto(old(qhash), qhash, mur, manager.view.texts, manager.qbrandnew)
      ensures forall w, q :: EntryCount(rel.entries, w, q) <= EntryCount(old(rel.entries), w, q)
                + Lists(manager.active, manager.dbrandnew, manager.view.texts).Waiting(w, q, manager.batch == 0)
      ensures manager.view.Valid() && Next(manager.view, old(rel.entries), Step.EndBatch, manager.view.NextBatch(),
                                           rel.entries)
    {
      ghost var view := manager.view;
      var texts := manager.Texts();
      assert texts == view.texts;
      UpdateTables(texts);
      RunBatch(texts);
      MatchedCompletes(view, old(rel.entries), rel.entries);
    }

    /** The jobs behind the barrier. */
    method RunBatch(texts: seq<Word>)
      requires manager.Valid() && texts == manager.view.texts && AllCorrect(rel.entries, texts)
      requires Ready(manager.view, mur, dhash, qhash, manager.active, manager.dbrandnew)
      modifies rel
      ensures Matched(manager.view, old(rel.entries), rel.entries)
      ensures forall w, q :: EntryCount(rel.entries, w, q) <= EntryCount(old(rel.entries), w, q)
                + Lists(manager.active, manager.dbrandnew, texts).Waiting(w, q, manager.batch == 0)
    {
      var active, dbrandnew := manager.active, manager.dbrandnew;
      var jobs := AllJobs(active, dbrandnew, texts, manager.batch == 0);
      RunJobs(rel, manager.view, mur, dhash, qhash, active, dbrandnew, texts, jobs, manager.batch == 0);
      AllAnswered(manager.view, active, dbrandnew, old(rel.entries), rel.entries);
    }

    /** `RunEnd`: the next batch starts with empty lists. */
    method EndBatch()
      requires Valid() && UpToDate()
      modifies manager
      ensures Valid() && manager.view == old(manager.view).NextBatch() && manager.tokens == old(manager.tokens)
      ensures manager.active == [] && manager.qbrandnew == [] && manager.dbrandnew == []
    {
      DeltaNextBatch(manager.view, rel.entries);
      manager.NewBatch();
    }

    /** The document ids of a word are dropped. */
    method ClearIds(tid: nat)
      requires Valid() && tid < |manager.tokens|
      modifies manager, manager.tokens
      ensures Valid() && rel.entries == old(rel.entries) && manager.tokens == old(manager.tokens)
      ensures tid < |old(manager.view).occurrences| && manager.view == old(manager.view).WithoutOccurrences(tid)
      ensures manager.active == old(manager.active) && manager.qbrandnew == old(manager.qbrandnew)
      ensures manager.dbrandnew == old(manager.dbrandnew)
    {
      ghost var v0 := manager.view;
      manager.ClearIds(tid);
      DeltaSameWords(v0, manager.view, rel.entries);
    }
  }
}
