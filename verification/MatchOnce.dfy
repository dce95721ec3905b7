/** Nothing is compared that does not wait: how often the jobs of a batch can enter a pair of words. */
module MatchOnce {
  import opened Words
  import opened MatchPrune
  import opened TokenManager
  import opened BatchJobs

  /** How many entries there are for a pair. */
  ghost function EntryCount(entries: seq<Entry>, w: nat, q: nat): nat {
    if entries == [] then 0
    else
      var e := entries[|entries| - 1];
      EntryCount(entries[..|entries| - 1], w, q) + if e.wid == w && e.tid == q then 1 else 0
  }

  lemma {:induction false} EntryCountBoth(a: seq<Entry>, b: seq<Entry>, w: nat, q: nat)
    ensures EntryCount(a + b, w, q) == EntryCount(a, w, q) + EntryCount(b, w, q)
    decreases |b|
  {
    if b == [] {
      assert a + b == a;
    } else {
      EntryCountBoth(a, b[..|b| - 1], w, q);
      assert (a + b)[..|a + b| - 1] == a + b[..|b| - 1];
    }
  }

  lemma {:induction false} EntryCountAny(entries: seq<Entry>, w: nat, q: nat)
    ensures EntryCount(entries, w, q) > 0 <==> exists e <- entries :: e.wid == w && e.tid == q
    decreases |entries|
  {
    if entries != [] {
      EntryCountAny(entries[..|entries| - 1], w, q);
      assert entries == entries[..|entries| - 1] + [entries[|entries| - 1]];
    }
  }

  /** One search enters no pair twice, and none that it was not made for. */
  lemma {:induction false} JoinedOnce(added: seq<Entry>, texts: seq<Word>, own: nat, ownIsDoc: bool, length: nat,
                                      tier: nat, w: nat, q: nat)
    requires Joined(added, texts, own, ownIsDoc, length, tier)
    ensures var other := if ownIsDoc then q else w;
            && EntryCount(added, w, q) <= 1
            && (EntryCount(added, w, q) > 0 ==>
                  (if ownIsDoc then w else q) == own && other < |texts| && |texts[other]| == length
                  && exists e <- added :: Other(e, ownIsDoc) == other)
    decreases |added|
  {
    if added != [] {
      var rest, e := added[..|added| - 1], added[|added| - 1];
      assert e in added && forall e' <- rest :: e' in added;
      JoinedOnce(rest, texts, own, ownIsDoc, length, tier, w, q);
      if EntryCount(rest, w, q) > 0 {
        var other := if ownIsDoc then q else w;
        var e' :| e' in rest && Other(e', ownIsDoc) == other;
        var x :| 0 <= x < |rest| && rest[x] == e';
        assert added[x] == e' && Other(added[x], ownIsDoc) != Other(e, ownIsDoc);
      }
    }
  }

  // ----- what the jobs can enter -----

  /** How often an id is on a list. */
  function Occurrences(list: seq<nat>, id: nat): nat {
    if list == [] then 0 else Occurrences(list[..|list| - 1], id) + if list[|list| - 1] == id then 1 else 0
  }

  lemma {:induction false} OccurrencesAre(list: seq<nat>, id: nat)
    ensures Occurrences(list, id) == multiset(list)[id]
    decreases |list|
  {
    if list != [] {
      OccurrencesAre(list[..|list| - 1], id);
      assert list == list[..|list| - 1] + [list[|list| - 1]];
    }
  }

  /** How often the jobs take up one of the first `n` elements of a list that is `id`. */
  ghost function TakenUp(jobs: seq<Job>, list: seq<nat>, id: nat, p: Pairing, n: nat): nat
    requires n <= |list|
  {
    if n == 0 then 0
    else TakenUp(jobs, list, id, p, n - 1) + if list[n - 1] == id then CoverCount(jobs, p.(index := n - 1)) else 0
  }

  lemma CoverCountOne(job: Job, p: Pairing)
    ensures CoverCount([job], p) == if Covers(job, p) then 1 else 0
  {
    assert [job][..0] == [] && [job][0] == job;
  }

  lemma {:induction false} TakenUpTake(jobs: seq<Job>, k: nat, list: seq<nat>, id: nat, p: Pairing, n: nat)
    requires k < |jobs| && n <= |list|
    ensures TakenUp(jobs, list, id, p, n) ==
            TakenUp(jobs[..k] + jobs[k + 1..], list, id, p, n) + TakenUp([jobs[k]], list, id, p, n)
    decreases n
  {
    if n > 0 {
      TakenUpTake(jobs, k, list, id, p, n - 1);
      CoverCountTake(jobs, k, p.(index := n - 1));
      CoverCountOne(jobs[k], p.(index := n - 1));
    }
  }

  /** With every element taken up once at most, an id is taken up as often as it is on the list at most. */
  lemma {:induction false} TakenUpAtMost(jobs: seq<Job>, list: seq<nat>, id: nat, p: Pairing, n: nat, called: bool)
    requires n <= |list| && forall x: nat | x < n :: CoverCount(jobs, p.(index := x)) <= if called then 1 else 0
    ensures TakenUp(jobs, list, id, p, n) <= if called then Occurrences(list[..n], id) else 0
    decreases n
  {
    if n > 0 {
      TakenUpAtMost(jobs, list, id, p, n - 1, called);
      assert list[..n][..n - 1] == list[..n - 1];
    }
  }

  /** The last element of a job's range. */
  lemma {:induction false} TakenUpMore(job: Job, x: nat, list: seq<nat>, id: nat, p: Pairing, n: nat)
    requires job.start <= x && n <= |list|
    ensures TakenUp([job.(end := x + 1)], list, id, p, n) ==
            TakenUp([job.(end := x)], list, id, p, n)
            + if x < n && list[x] == id && Covers(job.(end := x + 1), p.(index := x)) then 1 else 0
    decreases n
  {
    if n > 0 {
      TakenUpMore(job, x, list, id, p, n - 1);
      CoverCountOne(job.(end := x + 1), p.(index := n - 1));
      CoverCountOne(job.(end := x), p.(index := n - 1));
    }
  }

  /** The lists of a batch and the texts they are about. */
  datatype Lists = Lists(active: seq<ActiveToken>, dbrandnew: seq<nat>, texts: seq<Word>)
  {
    /** The requests of one tier for words as long as word number `q`. */
    function Requests(tier: nat, q: nat): seq<nat>
      requires q < |texts|
    {
      Listed(active, texts, tier, |texts[q]|)
    }

    /** The new document words as long as word number `w`. */
    function Documents(w: nat): seq<nat>
      requires w < |texts|
    {
      ListedDocs(dbrandnew, texts, |texts[w]|)
    }

    function RequestPairing(tier: nat, w: nat, q: nat): Pairing
      requires w < |texts| && q < |texts|
    {
      OfRequest(tier, |texts[q]|, |texts[w]|, 0)
    }

    function DocumentPairing(w: nat, q: nat): Pairing
      requires w < |texts| && q < |texts|
    {
      OfDocument(|texts[q]|, |texts[w]|, 0)
    }

    /** How often the jobs can enter a pair: once for each list element of the pair that they take up. */
    ghost function Budget(jobs: seq<Job>, w: nat, q: nat): nat {
      if w < |texts| && q < |texts| then
        OfTier(jobs, 0, w, q) + OfTier(jobs, 1, w, q) + OfTier(jobs, 2, w, q) + OfTier(jobs, 3, w, q)
        + OfDocuments(jobs, w, q)
      else 0
    }

    ghost function OfTier(jobs: seq<Job>, tier: nat, w: nat, q: nat): nat
      requires w < |texts| && q < |texts|
    {
      TakenUp(jobs, Requests(tier, q), q, RequestPairing(tier, w, q), |Requests(tier, q)|)
    }

    ghost function OfDocuments(jobs: seq<Job>, w: nat, q: nat): nat
      requires w < |texts| && q < |texts|
    {
      TakenUp(jobs, Documents(w), w, DocumentPairing(w, q), |Documents(w)|)
    }

    /** The lengths of two words differ by no more than `k`. */
    predicate LengthsWithin(w: nat, q: nat, k: nat)
      requires w < |texts| && q < |texts|
    {
      |texts[q]| - |texts[w]| <= k && |texts[w]| - |texts[q]| <= k
    }

    /** How many elements of the lists a pair waits with. */
    function Waiting(w: nat, q: nat, first: bool): nat {
      if w < |texts| && q < |texts| then
        WaitingAt(0, w, q) + WaitingAt(1, w, q) + WaitingAt(2, w, q) + WaitingAt(3, w, q)
        + if !first && LengthsWithin(w, q, 3) then Occurrences(Documents(w), w) else 0
      else 0
    }

    function WaitingAt(tier: nat, w: nat, q: nat): nat
      requires w < |texts| && q < |texts|
    {
      if LengthsWithin(w, q, tier) then Occurrences(Requests(tier, q), q) else 0
    }

    /** The pair that one element of a list is about. */
    ghost predicate Concerns(p: Pairing, w: nat, q: nat) {
      w < |texts| && q < |texts| &&
      match p
      case OfRequest(tier, ql, dl, x) =>
        tier <= 3 && ql == |texts[q]| && dl == |texts[w]| && x < |Requests(tier, q)| && Requests(tier, q)[x] == q
      case OfDocument(ql, dl, x) =>
        ql == |texts[q]| && dl == |texts[w]| && x < |Documents(w)| && Documents(w)[x] == w
    }

    lemma BudgetTake(jobs: seq<Job>, k: nat, w: nat, q: nat)
      requires k < |jobs|
      ensures Budget(jobs, w, q) == Budget(jobs[..k] + jobs[k + 1..], w, q) + Budget([jobs[k]], w, q)
    {
      if w < |texts| && q < |texts| {
        hide Requests, Documents, TakenUp;
        forall tier: nat {
          TakenUpTake(jobs, k, Requests(tier, q), q, RequestPairing(tier, w, q), |Requests(tier, q)|);
        }
        TakenUpTake(jobs, k, Documents(w), w, DocumentPairing(w, q), |Documents(w)|);
      }
    }

    lemma BudgetMore(job: Job, x: nat, w: nat, q: nat)
      requires job.start <= x && (job.QD? ==> job.tier <= 3)
      ensures Budget([job.(end := x + 1)], w, q) ==
              Budget([job.(end := x)], w, q)
              + if Concerns(if job.QD? then OfRequest(job.tier, job.queryLength, job.docLength, x)
                            else OfDocument(job.queryLength, job.docLength, x), w, q) then 1 else 0
    {
      if w < |texts| && q < |texts| {
        forall tier: nat {
          TakenUpMore(job, x, Requests(tier, q), q, RequestPairing(tier, w, q), |Requests(tier, q)|);
        }
        TakenUpMore(job, x, Documents(w), w, DocumentPairing(w, q), |Documents(w)|);
      }
    }

    lemma {:induction false} NothingTaken(job: Job, list: seq<nat>, id: nat, p: Pairing, n: nat)
      requires n <= |list| && job.end <= job.start
      ensures TakenUp([job], list, id, p, n) == 0
      decreases n
    {
      if n > 0 {
        NothingTaken(job, list, id, p, n - 1);
        CoverCountOne(job, p.(index := n - 1));
      }
    }

    lemma BudgetNothing(job: Job, w: nat, q: nat)
      requires job.end <= job.start
      ensures Budget([job], w, q) == 0
    {
      if w < |texts| && q < |texts| {
        forall tier: nat {
          NothingTaken(job, Requests(tier, q), q, RequestPairing(tier, w, q), |Requests(tier, q)|);
        }
        NothingTaken(job, Documents(w), w, DocumentPairing(w, q), |Documents(w)|);
      }
    }

    /** The jobs of a batch can enter a pair as often as it waits, and no more. */
    lemma BudgetIsWaiting(jobs: seq<Job>, first: bool, w: nat, q: nat)
      requires forall p :: CoverCount(jobs, p) == if Called(p, active, dbrandnew, texts, first) then 1 else 0
      ensures Budget(jobs, w, q) <= Waiting(w, q, first)
    {
      if w < |texts| && q < |texts| {
        TierWaits(jobs, first, 0, w, q);
        TierWaits(jobs, first, 1, w, q);
        TierWaits(jobs, first, 2, w, q);
        TierWaits(jobs, first, 3, w, q);
        var list := Documents(w);
        assert list[..|list|] == list;
        TakenUpAtMost(jobs, list, w, DocumentPairing(w, q), |list|, !first && LengthsWithin(w, q, 3));
      }
    }

    lemma TierWaits(jobs: seq<Job>, first: bool, tier: nat, w: nat, q: nat)
      requires forall p :: CoverCount(jobs, p) == if Called(p, active, dbrandnew, texts, first) then 1 else 0
      requires w < |texts| && q < |texts| && tier <= 3
      ensures OfTier(jobs, tier, w, q) <= WaitingAt(tier, w, q)
    {
      var list := Requests(tier, q);
      assert list[..|list|] == list;
      TakenUpAtMost(jobs, list, q, RequestPairing(tier, w, q), |list|, LengthsWithin(w, q, tier));
    }
  }
}
