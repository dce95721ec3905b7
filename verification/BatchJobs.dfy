/**
 * The jobs of a batch: hash the new words, then probe with new query tokens into the document buckets and
 * with new document words into the query buckets, in whatever order the workers take the jobs.
 */
module BatchJobs {
  import opened Words
  import opened MatchPrune
  import opened TokenManager

  /** A range of one list, to be joined with the words of one length on the other side. */
  datatype Job =
    | QD(tier: nat, queryLength: nat, docLength: nat, start: nat, end: nat)
    | DQ(queryLength: nat, docLength: nat, start: nat, end: nat)

  /** The list `qbrandnew<tier>` of one length. */
  function Listed(active: seq<ActiveToken>, texts: seq<Word>, tier: nat, length: nat): seq<nat> {
    if active == [] then []
    else
      var a := active[0];
      (if a.tier == tier && a.id < |texts| && |texts[a.id]| == length then [a.id] else [])
      + Listed(active[1..], texts, tier, length)
  }

  /** The list `dbrandnew` of one length. */
  function ListedDocs(dbrandnew: seq<nat>, texts: seq<Word>, length: nat): seq<nat> {
    if dbrandnew == [] then []
    else
      var first := if dbrandnew[0] < |texts| && |texts[dbrandnew[0]]| == length then [dbrandnew[0]] else [];
      first + ListedDocs(dbrandnew[1..], texts, length)
  }

  lemma {:induction false} ListedHolds(active: seq<ActiveToken>, texts: seq<Word>, tier: nat, length: nat, id: nat)
    ensures id in Listed(active, texts, tier, length) <==>
            ActiveToken(tier, id) in active && id < |texts| && |texts[id]| == length
    decreases |active|
  {
    if active != [] {
      ListedHolds(active[1..], texts, tier, length, id);
      assert active == [active[0]] + active[1..];
    }
  }

  lemma {:induction false} ListedDocsHolds(dbrandnew: seq<nat>, texts: seq<Word>, length: nat, id: nat)
    ensures id in ListedDocs(dbrandnew, texts, length) <==> id in dbrandnew && id < |texts| && |texts[id]| == length
    decreases |dbrandnew|
  {
    if dbrandnew != [] {
      ListedDocsHolds(dbrandnew[1..], texts, length, id);
      assert dbrandnew == [dbrandnew[0]] + dbrandnew[1..];
    }
  }

  /** What is put on a list last comes last. */
  lemma {:induction false} ListedMore(active: seq<ActiveToken>, a: ActiveToken, texts: seq<Word>, tier: nat,
                                      length: nat)
    ensures Listed(active + [a], texts, tier, length) ==
            Listed(active, texts, tier, length)
            + if a.tier == tier && a.id < |texts| && |texts[a.id]| == length then [a.id] else []
    decreases |active|
  {
    if active == [] {
      assert [a][1..] == [];
    } else {
      ListedMore(active[1..], a, texts, tier, length);
      assert (active + [a])[1..] == active[1..] + [a];
    }
  }

  lemma {:induction false} ListedDocsMore(dbrandnew: seq<nat>, x: nat, texts: seq<Word>, length: nat)
    ensures ListedDocs(dbrandnew + [x], texts, length) ==
            ListedDocs(dbrandnew, texts, length) + if x < |texts| && |texts[x]| == length then [x] else []
    decreases |dbrandnew|
  {
    if dbrandnew == [] {
      assert [x][1..] == [];
    } else {
      ListedDocsMore(dbrandnew[1..], x, texts, length);
      assert (dbrandnew + [x])[1..] == dbrandnew[1..] + [x];
    }
  }

  // ----- which pairings of a list element with a length the jobs cover -----

  /** One element of a list, to be joined with the words of one length on the other side. */
  datatype Pairing =
    | OfRequest(tier: nat, queryLength: nat, docLength: nat, index: nat)
    | OfDocument(queryLength: nat, docLength: nat, index: nat)

  predicate Covers(job: Job, p: Pairing) {
    match (job, p)
    case (QD(tier, ql, dl, start, end), OfRequest(tier', ql', dl', x)) =>
      tier == tier' && ql == ql' && dl == dl' && start <= x < end
    case (DQ(ql, dl, start, end), OfDocument(ql', dl', x)) => ql == ql' && dl == dl' && start <= x < end
    case _ => false
  }

  /** How many of the jobs cover a pairing. */
  function CoverCount(jobs: seq<Job>, p: Pairing): nat {
    if jobs == [] then 0
    else CoverCount(jobs[..|jobs| - 1], p) + (if Covers(jobs[|jobs| - 1], p) then 1 else 0)
  }

  lemma CoverCountPush(jobs: seq<Job>, job: Job, p: Pairing)
    ensures CoverCount(jobs + [job], p) == CoverCount(jobs, p) + (if Covers(job, p) then 1 else 0)
  {
    assert (jobs + [job])[..|jobs|] == jobs;
  }

  /** The pairings of the first `k` elements of a list. */
  predicate AmongFirst(p: Pairing, list: Pairing, k: nat) {
    p.index < k && p.(index := 0) == list.(index := 0)
  }

  function RangeJob(list: Pairing, start: nat, end: nat): Job {
    match list
    case OfRequest(tier, ql, dl, _) => QD(tier, ql, dl, start, end)
    case OfDocument(ql, dl, _) => DQ(ql, dl, start, end)
  }

  lemma RangeCovers(jobs: seq<Job>, list: Pairing, start: nat, end: nat, p: Pairing)
    requires start <= end
    ensures CoverCount(jobs + [RangeJob(list, start, end)], p)
            == CoverCount(jobs, p) + (if AmongFirst(p, list, end) && !AmongFirst(p, list, start) then 1 else 0)
  {
    CoverCountPush(jobs, RangeJob(list, start, end), p);
  }

  /** The jobs behind `jobs0` are the ranges the list is cut into, of `wpj` elements each, the last perhaps shorter. */
  ghost predicate Cut(jobs0: seq<Job>, jobs: seq<Job>, list: Pairing, size: nat, wpj: nat) {
    CutSoFar(jobs0, jobs, list, size, wpj) && size <= (|jobs| - |jobs0|) * wpj
  }

  ghost predicate CutSoFar(jobs0: seq<Job>, jobs: seq<Job>, list: Pairing, size: nat, wpj: nat) {
    jobs0 <= jobs && forall y | |jobs0| <= y < |jobs| ::
      jobs[y] == RangeJob(list, CutAt(y - |jobs0|, size, wpj), CutAt(y - |jobs0| + 1, size, wpj))
      && CutAt(y - |jobs0|, size, wpj) < size
  }

  lemma CutNothing(jobs0: seq<Job>, list: Pairing, size: nat, wpj: nat)
    ensures CutSoFar(jobs0, jobs0, list, size, wpj)
  {
  }

  /** One more range. */
  lemma CutMore(jobs0: seq<Job>, jobs: seq<Job>, list: Pairing, size: nat, wpj: nat, n: nat)
    requires CutSoFar(jobs0, jobs, list, size, wpj) && |jobs| == |jobs0| + n && n * wpj < size
    ensures var end := if n * wpj + wpj > size then size else n * wpj + wpj;
            CutSoFar(jobs0, jobs + [RangeJob(list, n * wpj, end)], list, size, wpj)
  {
    NextCut(n, wpj);
  }

  /** Where range number `n` starts. */
  function CutAt(n: nat, size: nat, wpj: nat): nat {
    if n * wpj > size then size else n * wpj
  }

  /**
   * The loop that cuts a list of `size` elements into ranges of `wpj` and pushes a job for each, what is
   * left being the last one: every element is covered exactly once more than before.
   */
  method PushRanges(jobs0: seq<Job>, list: Pairing, size: nat, wpj: nat) returns (jobs: seq<Job>)
    requires wpj > 0
    ensures forall p :: CoverCount(jobs, p) == CoverCount(jobs0, p) + (if AmongFirst(p, list, size) then 1 else 0)
    ensures Cut(jobs0, jobs, list, size, wpj)
  {
    hide CutSoFar, CutAt, Covers, RangeJob, CoverCount;
    jobs := jobs0;
    var k := 0;
    ghost var n: nat := 0;
    CutNothing(jobs0, list, size, wpj);
    while k < size - wpj
      invariant 0 <= k <= size && k == n * wpj && |jobs| == |jobs0| + n
      invariant CutSoFar(jobs0, jobs, list, size, wpj)
      invariant forall p :: CoverCount(jobs, p) == CoverCount(jobs0, p) + (if AmongFirst(p, list, k) then 1 else 0)
    {
      NextCut(n, wpj);
      CutMore(jobs0, jobs, list, size, wpj, n);
      forall p {
        RangeCovers(jobs, list, k, k + wpj, p);
      }
      jobs := jobs + [RangeJob(list, k, k + wpj)];
      k := k + wpj;
      n := n + 1;
    }
    NextCut(n, wpj);
    if k != size {
      CutMore(jobs0, jobs, list, size, wpj, n);
      forall p {
        RangeCovers(jobs, list, k, size, p);
      }
      jobs := jobs + [RangeJob(list, k, size)];
    }
  }

  lemma NextCut(n: nat, wpj: nat)
    ensures (n + 1) * wpj == n * wpj + wpj
  {
  }

  /**
   * A job takes 30 requests of tier 0 or 1, one request of tier 2 or 3, or one new document word; the last of a list
   * takes what is left.
   */
  ghost predicate OneRange(job: Job, active: seq<ActiveToken>, dbrandnew: seq<nat>, texts: seq<Word>) {
    match job
    case QD(tier, ql, _, start, end) =>
      IsRange(start, end, |Listed(active, texts, tier, ql)|, if tier <= 1 then 30 else 1)
    case DQ(_, dl, start, end) => IsRange(start, end, |ListedDocs(dbrandnew, texts, dl)|, 1)
  }

  predicate IsRange(start: nat, end: nat, size: nat, wpj: nat)
    requires wpj > 0
  {
    start % wpj == 0 && start < size && end == if start + wpj > size then size else start + wpj
  }

  lemma CutIsRange(n: nat, size: nat, wpj: nat)
    requires (wpj == 1 || wpj == 30) && CutAt(n, size, wpj) < size
    ensures IsRange(CutAt(n, size, wpj), CutAt(n + 1, size, wpj), size, wpj)
  {
    if wpj == 30 {
      assert n * 30 % 30 == 0;
    }
  }

  lemma CutOneRange(jobs0: seq<Job>, jobs: seq<Job>, list: Pairing, size: nat, wpj: nat, active: seq<ActiveToken>,
                    dbrandnew: seq<nat>, texts: seq<Word>)
    requires Cut(jobs0, jobs, list, size, wpj) && forall job <- jobs0 :: OneRange(job, active, dbrandnew, texts)
    requires list.OfRequest? ==>
               size == |Listed(active, texts, list.tier, list.queryLength)| && wpj == if list.tier <= 1 then 30 else 1
    requires list.OfDocument? ==> size == |ListedDocs(dbrandnew, texts, list.docLength)| && wpj == 1
    ensures forall job <- jobs :: OneRange(job, active, dbrandnew, texts)
  {
    hide CutAt, IsRange, Listed, ListedDocs;
    forall y | 0 <= y < |jobs| ensures OneRange(jobs[y], active, dbrandnew, texts) {
      if y < |jobs0| {
        assert jobs[y] == jobs0[y];
      } else {
        assert jobs[y].QD? || jobs[y].DQ?;
        CutIsRange(y - |jobs0|, size, wpj);
      }
    }
  }

  /** The pairings of tier `tier` for documents of length `docLength`, with a length offset in `[from, to)`. */
  predicate InSection(p: Pairing, active: seq<ActiveToken>, texts: seq<Word>, tier: nat, docLength: nat, from: int,
                      to: int) {
    && p.OfRequest? && p.tier == tier && p.docLength == docLength
    && from <= p.queryLength - docLength < to
    && MIN_WORD_LENGTH <= p.queryLength <= MAX_WORD_LENGTH
    && p.index < |Listed(active, texts, tier, p.queryLength)|
  }

  /** One of the loops over length offsets in `JobGenHashes::Run`. */
  method PushSection(jobs0: seq<Job>, active: seq<ActiveToken>, texts: seq<Word>, tier: nat, docLength: nat,
                     from: int, to: int, wpj: nat, ghost dbrandnew: seq<nat>)
    returns (jobs: seq<Job>)
    requires from <= to && wpj == if tier <= 1 then 30 else 1
    requires forall job <- jobs0 :: OneRange(job, active, dbrandnew, texts)
    ensures forall job <- jobs :: OneRange(job, active, dbrandnew, texts)
    ensures forall p ::
            CoverCount(jobs, p) ==
            CoverCount(jobs0, p) + (if InSection(p, active, texts, tier, docLength, from, to) then 1 else 0)
  {
    hide Cut, OneRange, Listed;
    jobs := jobs0;
    for j := from to to
      invariant forall job <- jobs :: OneRange(job, active, dbrandnew, texts)
      invariant forall p ::
                CoverCount(jobs, p) ==
                CoverCount(jobs0, p) + (if InSection(p, active, texts, tier, docLength, from, j) then 1 else 0)
    {
      var queryLength: int := docLength + j;
      if queryLength < MIN_WORD_LENGTH || queryLength > MAX_WORD_LENGTH {
        continue;
      }
      var list := Listed(active, texts, tier, queryLength);
      ghost var before := jobs;
      jobs := PushRanges(jobs, OfRequest(tier, queryLength, docLength, 0), |list|, wpj);
      CutOneRange(before, jobs, OfRequest(tier, queryLength, docLength, 0), |list|, wpj, active, dbrandnew, texts);
    }
  }

  /** All pairings the request lists of this batch call for, documents of length `docLength` being on the other side. */
  predicate Wanted(p: Pairing, active: seq<ActiveToken>, texts: seq<Word>, docLength: nat) {
    && p.OfRequest? && p.tier <= 3 && p.docLength == docLength
    && p.queryLength - docLength <= p.tier && docLength - p.queryLength <= p.tier
    && MIN_WORD_LENGTH <= p.queryLength <= MAX_WORD_LENGTH
    && p.index < |Listed(active, texts, p.tier, p.queryLength)|
  }

  /** The jobs that the three `JobGenHashes` of one length schedule together, section by section. */
  method RequestJobs(active: seq<ActiveToken>, texts: seq<Word>, docLength: nat, ghost dbrandnew: seq<nat>)
    returns (jobs: seq<Job>)
    ensures forall job <- jobs :: OneRange(job, active, dbrandnew, texts)
    ensures forall p :: CoverCount(jobs, p) == if Wanted(p, active, texts, docLength) then 1 else 0
  {
    hide OneRange;
    jobs := [];
    // section 3
    jobs := PushSection(jobs, active, texts, 3, docLength, 0, 4, 1, dbrandnew);
    // section 2
    jobs := PushSection(jobs, active, texts, 3, docLength, -1, 0, 1, dbrandnew);
    jobs := PushSection(jobs, active, texts, 2, docLength, 0, 3, 1, dbrandnew);
    // section 1
    jobs := PushSection(jobs, active, texts, 3, docLength, -3, -1, 1, dbrandnew);
    jobs := PushSection(jobs, active, texts, 2, docLength, -2, 0, 1, dbrandnew);
    jobs := PushSection(jobs, active, texts, 1, docLength, -1, 2, 30, dbrandnew);
    jobs := PushSection(jobs, active, texts, 0, docLength, 0, 1, 30, dbrandnew);
  }

  /** All pairings the list of new document words calls for, with query tokens of length `queryLength`. */
  predicate WantedOfDocuments(p: Pairing, dbrandnew: seq<nat>, texts: seq<Word>, queryLength: nat, to: int) {
    && p.OfDocument? && p.queryLength == queryLength
    && -3 <= p.docLength - queryLength < to
    && MIN_WORD_LENGTH <= p.docLength <= MAX_WORD_LENGTH
    && p.index < |ListedDocs(dbrandnew, texts, p.docLength)|
  }

  /** The jobs that `JobGenHashesToken` of one length schedules after the first batch. */
  method DocumentJobs(dbrandnew: seq<nat>, texts: seq<Word>, queryLength: nat, ghost active: seq<ActiveToken>)
    returns (jobs: seq<Job>)
    ensures forall job <- jobs :: OneRange(job, active, dbrandnew, texts)
    ensures forall p :: CoverCount(jobs, p) == if WantedOfDocuments(p, dbrandnew, texts, queryLength, 4) then 1 else 0
  {
    hide Cut, OneRange, ListedDocs;
    jobs := [];
    for j := -3 to 4
      invariant forall job <- jobs :: OneRange(job, active, dbrandnew, texts)
      invariant forall p ::
                CoverCount(jobs, p) == if WantedOfDocuments(p, dbrandnew, texts, queryLength, j) then 1 else 0
    {
      var docLength: int := queryLength + j;
      if docLength < MIN_WORD_LENGTH || docLength > MAX_WORD_LENGTH {
        continue;
      }
      var list := ListedDocs(dbrandnew, texts, docLength);
      ghost var before := jobs;
      jobs := PushRanges(jobs, OfDocument(queryLength, docLength, 0), |list|, 1);
      CutOneRange(before, jobs, OfDocument(queryLength, docLength, 0), |list|, 1, active, dbrandnew, texts);
    }
  }

  lemma {:induction false} CoverCountConcat(a: seq<Job>, b: seq<Job>, p: Pairing)
    ensures CoverCount(a + b, p) == CoverCount(a, p) + CoverCount(b, p)
    decreases |b|
  {
    if b == [] {
      assert a + b == a;
    } else {
      var b', job := b[..|b| - 1], b[|b| - 1];
      CoverCountConcat(a, b', p);
      CoverCountPush(a + b', job, p);
      assert a + b == (a + b') + [job];
    }
  }

  /** Taking one job out of the middle takes away what it covers. */
  lemma CoverCountTake(jobs: seq<Job>, k: nat, p: Pairing)
    requires k < |jobs|
    ensures CoverCount(jobs, p) == CoverCount(jobs[..k] + jobs[k + 1..], p) + (if Covers(jobs[k], p) then 1 else 0)
  {
    assert jobs == jobs[..k] + [jobs[k]] + jobs[k + 1..];
    CoverCountConcat(jobs[..k] + [jobs[k]], jobs[k + 1..], p);
    CoverCountConcat(jobs[..k], jobs[k + 1..], p);
    CoverCountPush(jobs[..k], jobs[k], p);
  }

  /** A pairing that some job of the batch has to cover. */
  predicate Called(p: Pairing, active: seq<ActiveToken>, dbrandnew: seq<nat>, texts: seq<Word>, first: bool) {
    match p
    case OfRequest(_, _, dl, _) => MIN_WORD_LENGTH <= dl <= MAX_WORD_LENGTH && Wanted(p, active, texts, dl)
    case OfDocument(ql, _, _) =>
        !first && MIN_WORD_LENGTH <= ql <= MAX_WORD_LENGTH && WantedOfDocuments(p, dbrandnew, texts, ql, 4)
  }

  /** All jobs behind the barrier of a batch: each pairing called for is covered once, and no other is. */
  method AllJobs(active: seq<ActiveToken>, dbrandnew: seq<nat>, texts: seq<Word>, first: bool) returns (jobs: seq<Job>)
    ensures forall job <- jobs :: OneRange(job, active, dbrandnew, texts)
    ensures forall p :: CoverCount(jobs, p) == if Called(p, active, dbrandnew, texts, first) then 1 else 0
  {
    hide OneRange;
    jobs := [];
    for docLength := MIN_WORD_LENGTH to MAX_WORD_LENGTH + 1
      invariant forall job <- jobs :: OneRange(job, active, dbrandnew, texts)
      invariant forall p :: CoverCount(jobs, p)
                            == if p.OfRequest? && p.docLength < docLength
                                && Called(p, active, dbrandnew, texts, first) then 1 else 0
    {
      var more := RequestJobs(active, texts, docLength, dbrandnew);
      forall p {
        CoverCountConcat(jobs, more, p);
      }
      jobs := jobs + more;
    }
    if !first {
      for queryLength := MIN_WORD_LENGTH to MAX_WORD_LENGTH + 1
        invariant forall job <- jobs :: OneRange(job, active, dbrandnew, texts)
        invariant forall p :: CoverCount(jobs, p)
                              == if (p.OfRequest? || p.queryLength < queryLength)
                                  && Called(p, active, dbrandnew, texts, first) then 1 else 0
      {
        var more := DocumentJobs(dbrandnew, texts, queryLength, active);
        forall p {
          CoverCountConcat(jobs, more, p);
        }
        jobs := jobs + more;
      }
    }
  }
}
