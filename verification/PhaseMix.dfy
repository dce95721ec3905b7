/**
 * What the weights that are never taken off lead to: batch after batch they grow by two, until one fetch takes
 * work and the barrier behind it, and the phases of that batch are not kept apart.
 */
module PhaseMix {
  import opened Scheduler
  import opened JobQueue
  import opened HashJobs

  /** Every worker waits for work. */
  ghost predicate AtRest(s: State) {
    forall w: nat | w < |s.workers| :: Resting(s, w)
  }

  ghost predicate Resting(s: State, w: nat)
    requires w < |s.workers|
  {
    s.workers[w].phase == Running && s.workers[w].next >= s.workers[w].end
  }

  ghost predicate AllWork(jobs: seq<Job>) {
    forall j <- jobs :: j.Work?
  }

  lemma StillAtRest(s: State, s': State)
    requires AtRest(s) && |s'.workers| == |s.workers|
    requires forall w: nat | w < |s.workers| :: s'.workers[w] == s.workers[w] || Resting(s', w)
    ensures AtRest(s')
  {
    forall w: nat | w < |s'.workers| ensures Resting(s', w) {
      assert Resting(s, w);
    }
  }

  lemma BarriersWeight(n: nat, g: nat)
    ensures TotalWeight(Barriers(n, g)) == n
  {
    if n > 0 {
      BarriersWeight(n - 1, g);
      TotalWeightAppend(Barriers(n - 1, g), [Barrier(g)]);
      TotalWeightOne(Barrier(g));
    } else {
      NoWeight();
    }
  }

  /** A call of `Schedule` from the thread that splits the batch into jobs. */
  method CallSchedule(q: JobQueue, work: seq<Job>, barriers: bool, groups: nat)
    requires q.Valid() && |q.state.workers| == THREADS && |q.state.groups| == groups && AllWork(work)
    modifies q
    ensures var more := work + if barriers then Barriers(THREADS, groups) else [];
            && q.Valid() && q.jobsQueue == old(q.jobsQueue) + more
            && q.state == old(q.state).(log := old(q.state).log + more, availableWork := q.state.availableWork,
                 groups := q.state.groups, counts := q.state.counts)
            && q.availableWeights == if more == [] then old(q.availableWeights)
               else Charged((if more[0].Barrier? then [0] else []) + old(q.availableWeights), TotalWeight(more))
    ensures q.state.groups == old(q.state).groups + if barriers then [|old(q.state).log| + |work|] else []
    ensures q.state.counts == old(q.state).counts + if barriers then [THREADS - 1] else []
    ensures q.states == old(q.states) + [q.state] && q.steps == old(q.steps) + [Step.Schedule(Outside, work, barriers)]
    ensures AtRest(old(q.state)) ==> AtRest(q.state)
  {
    hide IsRun, Accounted, Sum, TotalWeight, Charged, Barriers;
    var jobs := work + if barriers then Barriers(THREADS, groups) else [];
    ghost var s := q.state;
    ghost var s' := s.(log := s.log + jobs, availableWork := s.availableWork + |jobs|,
      groups := s.groups + (if barriers then [|s.log| + |work|] else []),
      counts := s.counts + if barriers then [THREADS - 1] else []);
    assert s.groups + [] == s.groups && s.counts + [] == s.counts;
    q.Schedule(jobs, Outside, work, barriers, s');
    if AtRest(s) {
      StillAtRest(s, s');
    }
  }

  /** Worker 0 finishes the first `n` jobs it holds. */
  ghost method FinishFirst(q: JobQueue, n: nat)
    requires q.Valid() && 0 < |q.state.workers| && q.state.workers[0].phase == Running
    requires q.state.workers[0].next + n <= q.state.workers[0].end <= |q.state.log|
    requires forall p: nat | q.state.workers[0].next <= p < q.state.workers[0].next + n :: q.state.log[p].Work?
    modifies q`state, q`states, q`steps
    ensures q.Valid() && q.jobsQueue == old(q.jobsQueue)
    ensures var v := old(q.state).workers[0];
            q.state == old(q.state).(workers := old(q.state).workers[0 := Worker(Running, v.next + n, v.end)])
  {
    hide IsRun, Accounted, Sum, TotalWeight;
    var s, v := q.state, q.state.workers[0];
    assert s.workers[0 := v] == s.workers;
    for i := 0 to n
      invariant q.Valid() && q.jobsQueue == old(q.jobsQueue)
      invariant q.state == s.(workers := s.workers[0 := Worker(Running, v.next + i, v.end)])
    {
      q.Proceed(FinishWork(0), Advance(q.state, 0, Running));
    }
  }

  /** A resting worker fetches what is in front of the queue, the first barrier with it if the weights allow that. */
  method FetchFront(q: JobQueue, ghost w: nat) returns (jobs: seq<Job>)
    requires q.Valid() && q.jobsQueue != [] && w < |q.state.workers| && Resting(q.state, w)
    modifies q
    ensures q.Valid() && jobs != [] && old(q.jobsQueue) == jobs + q.jobsQueue
    ensures var s, f := old(q.state), old(q.state).fetched;
            && f + |jobs| <= |s.log| && s.log[f..f + |jobs|] == jobs
            && q.state == s.(fetched := f + |jobs|, availableWork := |q.jobsQueue|,
                             workers := s.workers[w := Worker(Running, f, f + |jobs|)])
    ensures q.availableWeights == After(old(q.availableWeights), jobs)
    ensures forall k | 0 <= k < |old(q.jobsQueue)| && old(q.jobsQueue)[k].Barrier? ::
              (forall x | 0 <= x < k :: old(q.jobsQueue)[x].Work?) ==>
              && |jobs| <= k + 1
              && (|jobs| == k + 1 <==> TotalWeight(old(q.jobsQueue)[..k]) < MaxWeight(old(q.availableWeights)))
  {
    hide IsRun, Accounted, Sum, TotalWeight, After, MaxWeight, Excess;
    ghost var s, all := q.state, q.jobsQueue;
    jobs := q.FetchWork(w);
    assert all[..|jobs|] == jobs && s.log[s.fetched..][..|jobs|] == s.log[s.fetched..s.fetched + |jobs|];
  }

  /** What of the work in front of a barrier, and of the barrier itself, a fetch has taken. */
  lemma FrontTaken(works: seq<Job>, barrier: Job, rest: seq<Job>, jobs: seq<Job>, queue: seq<Job>)
    requires works + [barrier] + rest == jobs + queue && jobs != [] && |jobs| <= |works| + 1
    requires AllWork(works) && barrier.Barrier?
    ensures forall x | 0 <= x < |works| && x < |jobs| :: jobs[x].Work?
    ensures jobs[|jobs| - 1].Barrier? <==> |jobs| == |works| + 1
    ensures |jobs| == |works| + 1 ==> jobs == works + [barrier] && queue == rest
    ensures |jobs| <= |works| ==>
              && AllWork(works[|jobs|..]) && queue == works[|jobs|..] + [barrier] + rest
              && jobs + (works[|jobs|..] + [barrier]) == works + [barrier]
  {
    var all := works + [barrier] + rest;
    assert forall x | 0 <= x < |jobs| :: jobs[x] == all[x];
    assert queue == all[|jobs|..];
    assert forall x | 0 <= x < |works| :: all[x] == works[x] && works[x] in works;
    assert jobs == all[..|jobs|];
  }

  lemma BarrierBehind(works: seq<Job>, barrier: Job, rest: seq<Job>)
    requires AllWork(works)
    ensures var all := works + [barrier] + rest;
            all[|works|] == barrier && forall x | 0 <= x < |works| :: all[x].Work?
  {
    assert forall x | 0 <= x < |works| :: (works + [barrier] + rest)[x] == works[x] && works[x] in works;
  }

  lemma Logged(log: seq<Job>, from: nat, jobs: seq<Job>, n: nat)
    requires from + |jobs| <= |log| && log[from..from + |jobs|] == jobs && n <= |jobs|
    requires forall x | 0 <= x < n :: jobs[x].Work?
    ensures forall p: nat | from <= p < from + n :: log[p].Work?
  {
    forall p: nat | from <= p < from + n ensures log[p].Work? {
      assert log[p] == jobs[p - from];
    }
  }

  /** Worker 0 does all work in front of the barriers, and comes to hold the first barrier. */
  method ToBarrier(q: JobQueue, ghost works: seq<Job>, ghost g: nat, ghost rest: seq<Job>)
    requires q.Valid() && 0 < |q.state.workers| && Resting(q.state, 0) && AllWork(works)
    requires q.jobsQueue == works + [Barrier(g)] + rest
    modifies q
    ensures q.Valid() && q.jobsQueue == rest && q.state.fetched == old(q.state).fetched + |works| + 1
    ensures q.state == old(q.state).(fetched := q.state.fetched, availableWork := |rest|,
              workers := old(q.state).workers[0 := Worker(Running, q.state.fetched - 1, q.state.fetched)])
    ensures q.availableWeights == After(old(q.availableWeights), works + [Barrier(g)])
    decreases |works|
  {
    hide TotalWeight, After, MaxWeight, JobQueue.Valid, AllWork;
    ghost var s, weights := q.state, q.availableWeights;
    BarrierBehind(works, Barrier(g), rest);
    var jobs := FetchFront(q, 0);
    FrontTaken(works, Barrier(g), rest, jobs, q.jobsQueue);
    ghost var n: nat := if |jobs| == |works| + 1 then |works| else |jobs|;
    Logged(s.log, s.fetched, jobs, n);
    FinishFirst(q, n);
    if !jobs[|jobs| - 1].Barrier? {
      AfterBoth(weights, jobs, works[|jobs|..] + [Barrier(g)]);
      ToBarrier(q, works[|jobs|..], g, rest);
    }
  }

  lemma SameRest(a: seq<Job>, b: seq<Job>, c: seq<Job>)
    requires a + b == a + c
    ensures b == c
  {
    assert b == (a + b)[|a|..];
  }

  lemma QueueLength(q: JobQueue)
    requires q.Valid()
    ensures q.state.availableWork == |q.jobsQueue| == |q.state.log| - q.state.fetched
    ensures q.jobsQueue == q.state.log[q.state.fetched..] && IsRun(q.states, q.steps) && q.states[|q.steps|] == q.state
  {
  }

  /** The workers between worker 0 and `w` hold one barrier of the group each, and those from `w` on are at rest. */
  ghost predicate AtBarriers(s: State, p: nat, w: nat) {
    && 1 <= w <= |s.workers|
    && (forall x: nat | 1 <= x < w :: s.workers[x] == Worker(Running, p + x, p + x + 1))
    && forall x: nat | w <= x < |s.workers| :: Resting(s, x)
  }

  lemma NoneAtBarriers(s: State, s': State, p: nat)
    requires AtRest(s) && |s'.workers| == |s.workers| > 0 && s'.workers == s.workers[0 := s'.workers[0]]
    ensures AtBarriers(s', p, 1)
  {
    forall x: nat | 1 <= x < |s'.workers| ensures Resting(s', x) {
      assert Resting(s, x);
    }
  }

  lemma OneMoreBarrier(s: State, s': State, p: nat, w: nat)
    requires AtBarriers(s, p, w) && w < |s.workers| && s'.workers == s.workers[w := Worker(Running, p + w, p + w + 1)]
    ensures AtBarriers(s', p, w + 1)
  {
    forall x: nat | w + 1 <= x < |s'.workers| ensures Resting(s', x) {
      assert Resting(s, x);
    }
  }

  /** The workers other than worker 0 take the rest of the barriers, one each. */
  method TakeBarriers(q: JobQueue, ghost p: nat, ghost g: nat, ghost tail: seq<Job>)
    requires q.Valid() && |q.state.workers| == THREADS && AtBarriers(q.state, p, 1)
    requires q.state.fetched == p + 1 && q.jobsQueue == Barriers(THREADS, g)[1..] + tail
    modifies q
    ensures q.Valid() && q.jobsQueue == tail && AtBarriers(q.state, p, THREADS) && |q.state.workers| == THREADS
    ensures q.state == old(q.state).(fetched := p + THREADS, availableWork := |tail|, workers := q.state.workers)
    ensures q.state.workers[0] == old(q.state).workers[0]
    ensures q.availableWeights == After(old(q.availableWeights), Barriers(THREADS, g)[1..])
  {
    hide IsRun, Accounted, Sum, TotalWeight, After, Barriers, MaxWeight, JobQueue.Valid;
    ghost var s, weights, all := q.state, q.availableWeights, Barriers(THREADS, g);
    QueueLength(q);
    assert all[1..1] == [];
    NoneAfter(weights);
    NoWeight();
    for w := 1 to THREADS
      invariant q.Valid() && |q.state.workers| == THREADS && AtBarriers(q.state, p, w)
      invariant q.jobsQueue == all[w..] + tail && q.state.availableWork == |q.jobsQueue|
      invariant q.state == s.(fetched := p + w, availableWork := q.state.availableWork, workers := q.state.workers)
      invariant q.state.workers[0] == s.workers[0]
      invariant q.availableWeights == After(weights, all[1..w])
    {
      assert q.jobsQueue[0] == all[w] == Barrier(g) && Resting(q.state, w);
      assert q.jobsQueue[..0] == [];
      ghost var before := q.state;
      var jobs := FetchFront(q, w);
      assert all[w..] == [all[w]] + all[w + 1..];
      assert jobs == [all[w]];
      assert all[1..w + 1] == all[1..w] + [all[w]];
      AfterBoth(weights, all[1..w], [all[w]]);
      assert [all[w]] + (all[w + 1..] + tail) == jobs + q.jobsQueue;
      SameRest(jobs, all[w + 1..] + tail, q.jobsQueue);
      OneMoreBarrier(before, q.state, p, w);
    }
    assert all[THREADS..] + tail == tail && all[1..THREADS] == all[1..];
  }

  /** With every worker at a barrier of the group, they all pass it. */
  ghost method Release(q: JobQueue, p: nat, g: nat)
    requires q.Valid() && |q.state.workers| == THREADS && p + THREADS <= |q.state.log|
    requires AtBarriers(q.state, p, THREADS) && q.state.workers[0] == Worker(Running, p, p + 1)
    requires g < |q.state.counts| && q.state.counts[g] == THREADS - 1
    requires forall x: nat | p <= x < p + THREADS :: q.state.log[x] == Barrier(g)
    modifies q`state, q`states, q`steps
    ensures q.Valid() && q.jobsQueue == old(q.jobsQueue) && AtRest(q.state)
    ensures q.state == old(q.state).(workers := q.state.workers, counts := old(q.state).counts[g := 0],
              released := old(q.state).released + {g}) && |q.state.workers| == THREADS
  {
    hide IsRun, Accounted, Sum, TotalWeight;
    var s := q.state;
    assert s.counts[g := THREADS - 1] == s.counts;
    for w := 0 to THREADS - 1
      invariant q.Valid() && q.jobsQueue == old(q.jobsQueue) && |q.state.workers| == THREADS
      invariant q.state == s.(workers := q.state.workers, counts := s.counts[g := THREADS - 1 - w])
      invariant forall x: nat | x < THREADS ::
                  q.state.workers[x] == Worker(if x < w then Waiting else Running, p + x, p + x + 1)
    {
      var v := q.state;
      assert v.log[p + w] == Barrier(g);
      q.Proceed(BarrierWait(w), v.(workers := v.workers[w := v.workers[w].(phase := Waiting)],
                counts := v.counts[g := v.counts[g] - 1]));
    }
    var v := q.state;
    assert v.log[p + THREADS - 1] == Barrier(g);
    q.Proceed(BarrierBroadcast(THREADS - 1),
              v.(workers := Wake(v.workers, THREADS - 1), released := v.released + {g}));
    for w := 0 to THREADS
      invariant q.Valid() && q.jobsQueue == old(q.jobsQueue) && |q.state.workers| == THREADS
      invariant q.state == s.(workers := q.state.workers, counts := s.counts[g := 0], released := s.released + {g})
      invariant forall x: nat | x < THREADS ::
                  q.state.workers[x] ==
                  if x < w then Worker(Running, p + x + 1, p + x + 1) else Worker(Woken, p + x, p + x + 1)
    {
      q.Proceed(LeaveBarrier(w), Advance(q.state, w, Running));
    }
  }

  /** The workers do the work in front of the group and pass it. */
  method PassGroup(q: JobQueue, ghost works: seq<Job>, ghost g: nat, ghost tail: seq<Job>)
    requires q.Valid() && |q.state.workers| == THREADS && AtRest(q.state) && AllWork(works)
    requires q.jobsQueue == works + Barriers(THREADS, g) + tail
    requires g < |q.state.counts| && q.state.counts[g] == THREADS - 1
    modifies q
    ensures q.Valid() && q.jobsQueue == tail && AtRest(q.state) && |q.state.workers| == THREADS
    ensures q.state == old(q.state).(workers := q.state.workers, counts := old(q.state).counts[g := 0],
              released := old(q.state).released + {g}, fetched := q.state.fetched, availableWork := |tail|)
    ensures q.availableWeights == After(old(q.availableWeights), works + Barriers(THREADS, g))
  {
    hide IsRun, Accounted, Sum, TotalWeight, Barriers, MaxWeight, Excess, After;
    ghost var all, weights, s := Barriers(THREADS, g), q.availableWeights, q.state;
    ghost var p := s.fetched + |works|;
    assert all == [Barrier(g)] + all[1..];
    assert q.jobsQueue == works + [Barrier(g)] + (all[1..] + tail);
    forall x: nat | p <= x < p + THREADS ensures s.log[x] == Barrier(g) {
      assert s.log[x] == q.jobsQueue[x - s.fetched] == all[x - p];
    }
    ToBarrier(q, works, g, all[1..] + tail);
    NoneAtBarriers(s, q.state, p);
    TakeBarriers(q, p, g, tail);
    QueueLength(q);
    AfterBoth(weights, works + [Barrier(g)], all[1..]);
    assert works + [Barrier(g)] + all[1..] == works + all;
    Release(q, p, g);
  }

  // ----- one batch -----

  /** Between batches: nothing to do, and at most one entry of weights that were never taken off. */
  ghost predicate Settled(q: JobQueue, groups: nat)
    reads q
  {
    && q.Valid() && |q.state.workers| == THREADS && AtRest(q.state) && q.jobsQueue == []
    && |q.state.groups| == |q.state.counts| == groups
  }

  ghost predicate Leftover(weights: seq<nat>, x: nat) {
    weights == if x == 0 then [] else [x]
  }

  /** The single entry pays exactly for the jobs it was charged with. */
  lemma PaidExactly(weights: seq<nat>, x: nat, jobs: seq<Job>)
    requires Leftover(weights, x) && TotalWeight(jobs) > 0 && forall j <- jobs :: !j.Stop?
    ensures After(Charged([] + weights, TotalWeight(jobs)), jobs) == weights
  {
    hide TotalWeight, After;
    assert [] + weights == weights;
    assert Charged(weights, TotalWeight(jobs)) == [x + TotalWeight(jobs)];
    AfterSingle(x + TotalWeight(jobs), jobs);
  }

  /** Each zero in front of another entry costs a barrier its weight, and so does that not come off the last entry. */
  lemma PaidShort(x: nat, jobs: seq<Job>)
    requires TotalWeight(jobs) == 50 && |jobs| >= 2 && forall j <- jobs :: !j.Stop?
    requires WeightOf(jobs[0]) == WeightOf(jobs[1]) == 1
    ensures After([0, 50], jobs) == [1]
    ensures x >= 1 ==> After([0, 0, x + 50], jobs) == [x + 2]
  {
    hide TotalWeight, After, WeightOf;
    var one, two := jobs[1..], jobs[2..];
    assert jobs == [jobs[0]] + one && one == [jobs[1]] + two;
    TotalWeightAppend([jobs[0]], one);
    TotalWeightAppend([jobs[1]], two);
    TotalWeightOne(jobs[0]);
    TotalWeightOne(jobs[1]);
    assert [0, 50] == [0] + [50] && [0, 0, x + 50] == [0] + [0, x + 50] && [0, x + 50] == [0] + [x + 50];
    AfterZero([50], jobs[0], one);
    AfterSingle(50, one);
    AfterZero([0, x + 50], jobs[0], one);
    AfterZero([x + 50], jobs[1], two);
    AfterSingle(x + 50, two);
  }

  lemma NoStops(works: seq<Job>, barriers: seq<Job>, g: nat)
    requires AllWork(works) && barriers == Barriers(THREADS, g)
    ensures forall j <- works + barriers :: !j.Stop?
  {
  }

  /** The hashing jobs of a batch that has nothing to compare, and their barriers. */
  method HashBatch(q: JobQueue, groups: nat, ghost x: nat)
    requires Settled(q, groups) && Leftover(q.availableWeights, x)
    modifies q
    ensures Settled(q, groups + 1) && q.availableWeights == old(q.availableWeights)
  {
    hide IsRun, Accounted, Sum, TotalWeight, Barriers, MaxWeight, After, Charged;
    ghost var weights := q.availableWeights;
    var hashing := SplitGenHashes();
    var gens := Works(hashing);
    ghost var barriers := Barriers(THREADS, groups);
    BarriersWeight(THREADS, groups);
    TotalWeightAppend(gens, barriers);
    assert gens[0] in gens;
    CallSchedule(q, gens, true, groups);
    assert q.jobsQueue == gens + barriers + [];
    NoStops(gens, barriers, groups);
    PaidExactly(weights, x, gens + barriers);
    PassGroup(q, gens, groups, []);
  }

  /** A call that schedules one barrier for each worker and nothing else. */
  method CallBarriers(q: JobQueue, groups: nat)
    requires q.Valid() && |q.state.workers| == THREADS && |q.state.groups| == groups && AtRest(q.state)
    modifies q
    ensures q.Valid() && |q.state.workers| == THREADS && |q.state.groups| == groups + 1 && AtRest(q.state)
    ensures q.jobsQueue == old(q.jobsQueue) + Barriers(THREADS, groups)
    ensures q.state.counts == old(q.state).counts + [THREADS - 1]
    ensures q.availableWeights == Charged([0] + old(q.availableWeights), THREADS)
  {
    hide JobQueue.Valid, AtRest, TotalWeight, Charged, Barriers;
    assert [] + Barriers(THREADS, groups) == Barriers(THREADS, groups);
    BarriersWeight(THREADS, groups);
    CallSchedule(q, [], true, groups);
  }

  /** A call that schedules one job. */
  method CallWork(q: JobQueue, job: Job, groups: nat)
    requires q.Valid() && |q.state.workers| == THREADS && |q.state.groups| == groups && AtRest(q.state) && job.Work?
    modifies q
    ensures q.Valid() && |q.state.workers| == THREADS && |q.state.groups| == groups && AtRest(q.state)
    ensures q.jobsQueue == old(q.jobsQueue) + [job] && q.state.counts == old(q.state).counts
    ensures q.availableWeights == Charged(old(q.availableWeights), WeightOf(job))
  {
    hide JobQueue.Valid, AtRest, TotalWeight, Charged, Barriers;
    assert [job] + [] == [job] && [] + q.availableWeights == q.availableWeights;
    TotalWeightOne(job);
    CallSchedule(q, [job], false, groups);
  }

  lemma ResultWeights(weights: seq<nat>, x: nat)
    requires Leftover(weights, x)
    ensures Charged(Charged([0] + Charged(Charged([0] + weights, THREADS), 1), THREADS), 1)
            == if x == 0 then [0, 50] else [0, 0, x + 50]
  {
    assert Charged(Charged([0] + weights, THREADS), 1) == if x == 0 then [25] else [0, x + 25];
    assert [0] + [25] == [0, 25] && [0] + [0, x + 25] == [0, 0, x + 25];
  }

  /** What a batch with one document of one word has to do for its results. */
  ghost function ResultJobs(groups: nat): seq<Job> {
    Barriers(THREADS, groups) + ([Work(1)] + Barriers(THREADS, groups + 1)) + [Work(1)]
  }

  lemma ResultJobsWeight(groups: nat)
    ensures TotalWeight(ResultJobs(groups)) == 50 && forall j <- ResultJobs(groups) :: !j.Stop?
    ensures |ResultJobs(groups)| == 50 && ResultJobs(groups)[0] == Barrier(groups) == ResultJobs(groups)[1]
  {
    hide TotalWeight;
    var b1, b2, job := Barriers(THREADS, groups), Barriers(THREADS, groups + 1), Work(1);
    BarriersWeight(THREADS, groups);
    BarriersWeight(THREADS, groups + 1);
    TotalWeightOne(job);
    TotalWeightAppend([job], b2);
    TotalWeightAppend(b1, [job] + b2);
    TotalWeightAppend(b1 + ([job] + b2), [job]);
  }

  /** The calls that schedule the results of a batch with one document of one word. */
  method ScheduleResults(q: JobQueue, groups: nat, ghost x: nat)
    requires Settled(q, groups) && Leftover(q.availableWeights, x)
    modifies q
    ensures q.Valid() && |q.state.workers| == THREADS && AtRest(q.state) && q.jobsQueue == ResultJobs(groups)
    ensures |q.state.groups| == |q.state.counts| == groups + 2
    ensures q.state.counts[groups] == q.state.counts[groups + 1] == THREADS - 1
    ensures q.availableWeights == if x == 0 then [0, 50] else [0, 0, x + 50]
  {
    hide JobQueue.Valid, AtRest, Charged, Barriers;
    ResultWeights(q.availableWeights, x);
    CallBarriers(q, groups);
    CallWork(q, Work(1), groups + 1);
    CallBarriers(q, groups + 1);
    CallWork(q, Work(1), groups + 2);
    assert q.jobsQueue == ResultJobs(groups);
  }

  /** The last job of a batch, run by worker 0. */
  method LastJob(q: JobQueue, groups: nat, ghost job: Job)
    requires q.Valid() && |q.state.workers| == THREADS && AtRest(q.state) && q.jobsQueue == [job] && job.Work?
    requires |q.state.groups| == |q.state.counts| == groups
    modifies q
    ensures Settled(q, groups) && q.availableWeights == After(old(q.availableWeights), [job])
  {
    hide IsRun, Accounted, Sum, TotalWeight, Barriers, MaxWeight, After;
    ghost var s := q.state;
    assert Resting(s, 0);
    var jobs := FetchFront(q, 0);
    assert jobs == [job];
    Logged(s.log, s.fetched, jobs, 1);
    FinishFirst(q, 1);
    StillAtRest(s, q.state);
  }

  /** The results are worked out, and of the weights two more are left over than before. */
  method ResultBatch(q: JobQueue, groups: nat, ghost x: nat)
    requires Settled(q, groups) && Leftover(q.availableWeights, x)
    modifies q
    ensures Settled(q, groups + 2) && Leftover(q.availableWeights, if x == 0 then 1 else x + 2)
  {
    hide IsRun, Accounted, Sum, TotalWeight, Barriers, MaxWeight, After, JobQueue.Valid, AtRest;
    ScheduleResults(q, groups, x);
    ghost var all := ResultJobs(groups);
    ghost var job, b1, b2 := Work(1), Barriers(THREADS, groups), Barriers(THREADS, groups + 1);
    ghost var weights := q.availableWeights;
    assert all == [] + b1 + ([job] + b2 + [job]) && [] + b1 == b1;
    PassGroup(q, [], groups, [job] + b2 + [job]);
    PassGroup(q, [job], groups + 1, [job]);
    LastJob(q, groups + 2, job);
    AfterBoth(weights, b1, [job] + b2);
    AfterBoth(weights, b1 + ([job] + b2), [job]);
    ResultJobsWeight(groups);
    PaidShort(x, all);
  }

  // ----- the batch that goes wrong -----

  /** The batches before it: a document of one known word each, and no new queries. */
  method ManyBatches(n: nat) returns (q: JobQueue, groups: nat)
    ensures fresh(q) && Settled(q, groups) && Leftover(q.availableWeights, if n == 0 then 0 else 2 * n - 1)
  {
    hide JobQueue.Valid;
    q := new JobQueue(THREADS);
    groups := 0;
    for i := 0 to n
      invariant fresh(q) && Settled(q, groups) && Leftover(q.availableWeights, if i == 0 then 0 else 2 * i - 1)
    {
      HashBatch(q, groups, if i == 0 then 0 else 2 * i - 1);
      ResultBatch(q, groups + 1, if i == 0 then 0 else 2 * i - 1);
      groups := groups + 3;
    }
  }

  /** Worker 0 fetches all the work in front of the barriers and the first barrier with it; the others take the rest. */
  method FetchAll(q: JobQueue, works: seq<Job>, ghost g: nat)
    requires q.Valid() && |q.state.workers| == THREADS && AtRest(q.state) && works != [] && AllWork(works)
    requires q.jobsQueue == works + Barriers(THREADS, g) && TotalWeight(works) < MaxWeight(q.availableWeights)
    modifies q
    ensures q.Valid() && q.jobsQueue == [] && |q.state.workers| == THREADS
    ensures q.state == old(q.state).(fetched := q.state.fetched, availableWork := 0, workers := q.state.workers)
    ensures q.state.workers[0] == Worker(Running, old(q.state).fetched, old(q.state).fetched + |works| + 1)
  {
    hide JobQueue.Valid, TotalWeight, MaxWeight, After, Barriers;
    ghost var s, all, rest := q.state, q.jobsQueue, Barriers(THREADS, g)[1..];
    assert Barriers(THREADS, g) == [Barrier(g)] + rest;
    assert all == works + [Barrier(g)] + rest && all[..|works|] == works;
    BarrierBehind(works, Barrier(g), rest);
    assert Resting(s, 0);
    var jobs := FetchFront(q, 0);
    FrontTaken(works, Barrier(g), rest, jobs, q.jobsQueue);
    NoneAtBarriers(s, q.state, s.fetched + |works|);
    assert rest + [] == rest;
    TakeBarriers(q, s.fetched + |works|, g, []);
  }

  /** After so many batches a fetch may take on more than all hashing jobs of a batch weigh. */
  const BATCHES := 2312452

  lemma EnoughLeft(weights: seq<nat>, gens: seq<Job>, barriers: seq<Job>)
    requires Leftover(weights, 2 * BATCHES - 1) && TotalWeight(gens) == 1505 && TotalWeight(barriers) == THREADS
    ensures TotalWeight(gens) < MaxWeight(Charged([] + weights, TotalWeight(gens + barriers)))
  {
    hide TotalWeight;
    TotalWeightAppend(gens, barriers);
    assert [] + weights == weights == [2 * BATCHES - 1];
    assert Charged(weights, 1505 + THREADS) == [2 * BATCHES - 1 + 1505 + THREADS];
  }

  /** A job that worker 0 schedules from the job it is at. */
  method CallFromJob(q: JobQueue, job: Job)
    requires q.Valid() && job.Work?
    requires Busy(q.state, 0) && q.state.workers[0].phase == Running && Current(q.state, 0).Work?
    modifies q
    ensures q.Valid() && q.jobsQueue == old(q.jobsQueue) + [job]
    ensures q.states == old(q.states) + [q.state]
    ensures q.steps == old(q.steps) + [Step.Schedule(ByWorker(0), [job], false)]
    ensures q.state.log == old(q.state).log + [job]
  {
    ghost var s' := OneMoreJob(q.state, 0, job);
    assert [job] + [] == [job];
    q.Schedule([job], ByWorker(0), [job], false, s');
  }

  /** Worker 0 is at a job in front of the group, holds the barrier behind it as well, and the queue is empty. */
  ghost predicate WorkInHand(s: State, g: nat) {
    && |s.workers| == THREADS && |s.groups| == g + 1 && s.availableWork == 0
    && Busy(s, 0) && s.workers[0].phase == Running && Current(s, 0).Work? && s.workers[0].next < s.groups[g]
  }

  lemma InHand(s: State, s': State, gens: seq<Job>, g: nat)
    requires |s.groups| == g && |gens| > 0 && gens[0].Work? && |s'.workers| == THREADS && s'.availableWork == 0
    requires s'.log == s.log + (gens + Barriers(THREADS, g)) && s'.groups == s.groups + [|s.log| + |gens|]
    requires s'.workers[0] == Worker(Running, |s.log|, |s.log| + |gens| + 1)
    ensures WorkInHand(s', g)
  {
    hide Barriers;
    assert s'.log[|s.log|] == gens[0];
  }

  /** The hashing jobs of the batch are all fetched at once, and the queue is empty while they have yet to be run. */
  method UpToIdle(q: JobQueue, groups: nat)
    requires Settled(q, groups) && Leftover(q.availableWeights, 2 * BATCHES - 1)
    modifies q
    ensures q.Valid() && WorkInHand(q.state, groups)
  {
    hide TotalWeight, Barriers, MaxWeight, After, Charged, JobQueue.Valid, AtRest;
    var hashing := SplitGenHashes();
    var gens := Works(hashing);
    ghost var barriers, s := Barriers(THREADS, groups), q.state;
    QueueLength(q);
    BarriersWeight(THREADS, groups);
    EnoughLeft(q.availableWeights, gens, barriers);
    assert gens[0] in gens;
    CallSchedule(q, gens, true, groups);
    assert q.jobsQueue == gens + barriers;
    FetchAll(q, gens, groups);
    InHand(s, q.state, gens, groups);
  }

  /**
   * The phases are not kept apart. The batch comes after `BATCHES` others, and brings a query with edit distance 3, so
   * that the first hashing job has a job of weight 100 to schedule. By then one fetch takes all hashing jobs and the
   * first barrier. The queue is empty, the barriers of the next phase are scheduled, and only then does the first
   * hashing job, in front of the first group, schedule its job, behind the second group.
   */
  method PhasesMixed() returns (q: JobQueue)
    ensures fresh(q) && q.Valid() && |q.steps| >= 2 && |q.states| == |q.steps| + 1
    ensures q.steps[|q.steps| - 2] == Step.Schedule(Outside, [], true)
    ensures q.steps[|q.steps| - 1] == Step.Schedule(ByWorker(0), [Work(100)], false)
    ensures var idle, before := q.states[|q.steps| - 2], q.states[|q.steps| - 1];
            var g := |idle.groups| - 1;
            && idle.availableWork == 0 && 0 <= g && |before.groups| == g + 2 && |before.workers| == THREADS
            && before.workers[0].next < before.groups[g] && before.groups[g + 1] + THREADS <= |before.log|
            && q.state.log == before.log + [Work(100)]
  {
    hide TotalWeight, Barriers, Charged, JobQueue.Valid;
    var groups;
    q, groups := ManyBatches(BATCHES);
    UpToIdle(q, groups);
    QueueLength(q);
    CallSchedule(q, [], true, groups + 1);
    CallFromJob(q, Work(100));
    RunLength(q);
  }

  lemma RunLength(q: JobQueue)
    requires q.Valid()
    ensures |q.states| == |q.steps| + 1
  {
  }
}
