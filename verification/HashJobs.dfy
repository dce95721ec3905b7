/** `SplitGenHashes`: the jobs that hash the new words of a batch, in the order they are scheduled. */
module HashJobs {
  import opened Scheduler
  import opened JobQueue

  /** The number of word lengths, each known by its distance from the least. */
  const LENGTHS := 28

  /** `JobGenHashes` for one length and one section, and `JobGenHashesToken` for one length. */
  datatype HashJob = OfDocuments(length: nat, section: nat) | OfQueries(length: nat)

  function HashWeight(job: HashJob): Weight {
    match job
    case OfDocuments(length, _) => if length < 7 || length > 13 then 5 else 30
    case OfQueries(length) => if length < 7 || length > 13 then 10 else 50
  }

  function Works(jobs: seq<HashJob>): (works: seq<Job>)
    ensures |works| == |jobs| && forall x | 0 <= x < |jobs| :: works[x] == Work(HashWeight(jobs[x]))
  {
    seq(|jobs|, x requires 0 <= x < |jobs| => Work(HashWeight(jobs[x])))
  }

  /** How many lengths from `length` up there are, other than the four most frequent ones. */
  function OthersFrom(length: nat): nat
    requires length <= LENGTHS
  {
    if length >= 11 then LENGTHS - length else if length >= 7 then 17 else 24 - length
  }

  /** The lengths other than the four most frequent ones, the longest first. */
  function OtherLength(k: nat): nat
    requires k < 24
  {
    if k < 17 then 27 - k else 23 - k
  }

  /**
   * The job at one position: the documents of the four most frequent lengths, section 3 first, the queries of these
   * lengths, and then the documents and the queries of the others.
   */
  function HashJobAt(x: nat): HashJob
    requires x < 112
  {
    if x < 12 then OfDocuments(7 + x % 4, 3 - x / 4)
    else if x < 16 then OfQueries(x - 5)
    else if x < 88 then OfDocuments(OtherLength((x - 16) / 3), 3 - (x - 16) % 3)
    else OfQueries(OtherLength(x - 88))
  }

  ghost predicate InOrder(jobs: seq<HashJob>) {
    |jobs| <= 112 && forall x: nat | x < |jobs| :: jobs[x] == HashJobAt(x)
  }

  ghost function WeightOfAll(jobs: seq<HashJob>): nat {
    TotalWeight(Works(jobs))
  }

  method PushHash(jobs0: seq<HashJob>, job: HashJob) returns (jobs: seq<HashJob>)
    requires InOrder(jobs0) && |jobs0| < 112 && job == HashJobAt(|jobs0|)
    ensures InOrder(jobs) && |jobs| == |jobs0| + 1 && WeightOfAll(jobs) == WeightOfAll(jobs0) + HashWeight(job)
  {
    hide TotalWeight;
    jobs := jobs0 + [job];
    assert Works(jobs) == Works(jobs0) + [Work(HashWeight(job))];
    TotalWeightAppend(Works(jobs0), [Work(HashWeight(job))]);
    TotalWeightOne(Work(HashWeight(job)));
  }

  /** All 112 jobs in their order; together with their barriers they weigh less than twice the unit of a fetch. */
  method SplitGenHashes() returns (jobs: seq<HashJob>)
    ensures |jobs| == 112 && forall x: nat | x < 112 :: jobs[x] == HashJobAt(x)
    ensures TotalWeight(Works(jobs)) == 1505 && TotalWeight(Works(jobs)) + THREADS < 2 * 128 * THREADS
  {
    hide TotalWeight, WeightOfAll;
    jobs := [];
    NothingYet();
    for j := 3 downto 0
      invariant InOrder(jobs) && |jobs| == 4 * (3 - j) && WeightOfAll(jobs) == 120 * (3 - j)
    {
      for i := 7 to 11
        invariant InOrder(jobs) && |jobs| == 4 * (2 - j) + (i - 7) && WeightOfAll(jobs) == 120 * (2 - j) + 30 * (i - 7)
      {
        jobs := PushHash(jobs, OfDocuments(i, j + 1));
      }
    }
    for i := 7 to 11
      invariant InOrder(jobs) && |jobs| == 12 + (i - 7) && WeightOfAll(jobs) == 360 + 50 * (i - 7)
    {
      jobs := PushHash(jobs, OfQueries(i));
    }
    for i := LENGTHS downto 0
      invariant InOrder(jobs) && |jobs| == 16 + 3 * OthersFrom(i)
      invariant WeightOfAll(jobs) == 560 + 15 * OthersFrom(i) + 75 * HeavyFrom(i)
    {
      if i >= 7 && i <= 10 {
        continue;
      }
      for j := 3 downto 0
        invariant InOrder(jobs) && |jobs| == 16 + 3 * OthersFrom(i + 1) + (3 - j)
        invariant WeightOfAll(jobs) ==
                  560 + 15 * OthersFrom(i + 1) + 75 * HeavyFrom(i + 1) + (3 - j) * HashWeight(OfDocuments(i, 3))
      {
        jobs := PushHash(jobs, OfDocuments(i, j + 1));
      }
    }
    for i := LENGTHS downto 0
      invariant InOrder(jobs) && |jobs| == 88 + OthersFrom(i)
      invariant WeightOfAll(jobs) == 1145 + 10 * OthersFrom(i) + 40 * HeavyFrom(i)
    {
      if i >= 7 && i <= 10 {
        continue;
      }
      jobs := PushHash(jobs, OfQueries(i));
    }
    WeightIs(jobs);
  }

  /** How many of these are heavy. */
  function HeavyFrom(length: nat): nat {
    if length >= 14 then 0 else if length >= 11 then 14 - length else 3
  }

  lemma NothingYet()
    ensures InOrder([]) && WeightOfAll([]) == 0
  {
    NoWeight();
  }

  lemma WeightIs(jobs: seq<HashJob>)
    ensures WeightOfAll(jobs) == TotalWeight(Works(jobs))
  {
  }

  /** Where the job of a length, and of one of its sections, comes in the order. */
  function PositionOf(job: HashJob): (x: int)
    requires job.length < LENGTHS
  {
    match job
    case OfDocuments(l, section) =>
      if 7 <= l <= 10 then 4 * (3 - section) + (l - 7) else 16 + 3 * OthersFrom(l + 1) + (3 - section)
    case OfQueries(l) => if 7 <= l <= 10 then l + 5 else 88 + OthersFrom(l + 1)
  }

  /** What there is a job for. */
  predicate IsHashJob(job: HashJob) {
    job.length < LENGTHS && (job.OfDocuments? ==> 1 <= job.section <= 3)
  }

  lemma JobAtPosition(job: HashJob)
    requires IsHashJob(job)
    ensures 0 <= PositionOf(job) < 112 && HashJobAt(PositionOf(job)) == job
  {
  }

  lemma PositionOfJob(x: nat)
    requires x < 112
    ensures IsHashJob(HashJobAt(x)) && PositionOf(HashJobAt(x)) == x
  {
  }

  /** Each length has one job for each of its three sections and one for its queries, and there is no other job. */
  lemma EachJobOnce(jobs: seq<HashJob>)
    requires |jobs| == 112 && forall x: nat | x < 112 :: jobs[x] == HashJobAt(x)
    ensures forall job :: job in jobs <==> IsHashJob(job)
    ensures forall x: nat, y: nat | x < y < 112 :: jobs[x] != jobs[y]
  {
    hide HashJobAt, IsHashJob, PositionOf;
    forall job ensures job in jobs <==> IsHashJob(job) {
      if IsHashJob(job) {
        JobAtPosition(job);
      }
      if job in jobs {
        var x: nat :| x < 112 && jobs[x] == job;
        PositionOfJob(x);
      }
    }
    forall x: nat, y: nat | x < y < 112 ensures jobs[x] != jobs[y] {
      PositionOfJob(x);
      PositionOfJob(y);
    }
  }

  /** The documents of the most frequent lengths come first, those with most characters dropped before the others. */
  lemma FrequentFirst(x: nat)
    requires x < 16
    ensures 7 <= HashJobAt(x).length <= 10 && HashWeight(HashJobAt(x)) == if x < 12 then 30 else 50
    ensures x < 12 <==> HashJobAt(x).OfDocuments?
    ensures forall y: nat | x <= y < 12 :: HashJobAt(y).section <= HashJobAt(x).section
  {
  }

  predicate IsFrequent(job: HashJob) {
    7 <= job.length <= 10
  }

  /**
   * The order of the loops: the four most frequent lengths first, the shorter the sooner, with all of one section in
   * front of the next, then the others, the longest first, with all of one length together.
   */
  predicate Precedes(job: HashJob, job': HashJob) {
    if IsFrequent(job) != IsFrequent(job') then IsFrequent(job)
    else if job.OfDocuments? != job'.OfDocuments? then job.OfDocuments?
    else if job.OfQueries? then if IsFrequent(job) then job.length < job'.length else job.length > job'.length
    else if IsFrequent(job) then
      job.section > job'.section || (job.section == job'.section && job.length < job'.length)
    else
      job.length > job'.length || (job.length == job'.length && job.section > job'.section)
  }

  lemma JobsInOrder(x: nat, y: nat)
    requires x < y < 112
    ensures Precedes(HashJobAt(x), HashJobAt(y))
  {
  }

  /** Every job is heavy enough for the barriers to be fetched alone. */
  lemma HeavyEnough(jobs: seq<HashJob>)
    ensures forall j <- Works(jobs) :: j.Work? && j.weight >= 5
  {
  }
}
