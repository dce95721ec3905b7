/** The queue of the scheduler: what `Schedule` and `fetchWork` do to it, as steps of the protocol. */
module JobQueue {
  import opened Scheduler

  const THREADS := 24

  /** The weight a job is accounted with; a stop job has none. */
  function WeightOf(job: Job): nat {
    match job
    case Work(weight) => weight
    case Barrier(_) => 1
    case Stop => 0
  }

  function TotalWeight(jobs: seq<Job>): nat {
    if jobs == [] then 0 else WeightOf(jobs[0]) + TotalWeight(jobs[1..])
  }

  function Sum(weights: seq<nat>): nat {
    if weights == [] then 0 else weights[0] + Sum(weights[1..])
  }

  lemma {:induction false} TotalWeightAppend(a: seq<Job>, b: seq<Job>)
    ensures TotalWeight(a + b) == TotalWeight(a) + TotalWeight(b)
    decreases |a|
  {
    if a == [] {
      assert a + b == b;
    } else {
      TotalWeightAppend(a[1..], b);
      assert (a + b)[1..] == a[1..] + b;
    }
  }

  lemma {:induction false} TotalWeightAtLeast(jobs: seq<Job>)
    requires forall j <- jobs :: j.Work?
    ensures |jobs| <= TotalWeight(jobs)
    decreases |jobs|
  {
    if jobs != [] {
      TotalWeightAtLeast(jobs[1..]);
    }
  }

  lemma TotalWeightOne(job: Job)
    ensures TotalWeight([job]) == WeightOf(job)
  {
    assert [job][1..] == [];
  }

  lemma {:induction false} SumWithLast(weights: seq<nat>, more: nat)
    requires weights != []
    ensures Sum(weights[|weights| - 1 := weights[|weights| - 1] + more]) == Sum(weights) + more
    decreases |weights|
  {
    var weights' := weights[|weights| - 1 := weights[|weights| - 1] + more];
    if |weights| > 1 {
      SumWithLast(weights[1..], more);
      assert weights'[1..] == weights[1..][|weights| - 2 := weights[|weights| - 1] + more];
    }
  }

  /** New weight goes on the last entry, which is made if there is none. */
  function Charged(weights: seq<nat>, more: nat): (weights': seq<nat>)
    ensures weights' != []
  {
    var ws := if weights == [] then [0] else weights;
    ws[|ws| - 1 := ws[|ws| - 1] + more]
  }

  lemma ChargedSum(weights: seq<nat>, more: nat, more': nat)
    ensures Sum(Charged(weights, more)) == Sum(weights) + more
    ensures Charged(Charged(weights, more), more') == Charged(weights, more + more')
  {
    SumWithLast(if weights == [] then [0] else weights, more);
  }

  /** How much a fetch may take on, from the first entry of the weights. */
  function MaxWeight(weights: seq<nat>): (w: nat)
    ensures w >= 1
  {
    if weights != [] && weights[0] / (128 * THREADS) >= 1 then weights[0] / (128 * THREADS) else 1
  }

  lemma NewEntry(weights: seq<nat>)
    ensures Sum([0] + weights) == Sum(weights)
  {
    assert ([0] + weights)[1..] == weights;
  }

  lemma NoWeight()
    ensures TotalWeight([]) == 0
  {
  }

  lemma FirstIsPart(weights: seq<nat>)
    ensures weights != [] ==> weights[0] <= Sum(weights)
  {
  }

  /** What a call of `Schedule` means to the queue. */
  lemma ScheduledLog(s: State, caller: Caller, work: seq<Job>, barriers: bool, s': State, jobs: seq<Job>)
    requires Next(s, Schedule(caller, work, barriers), s')
    requires jobs == work + if barriers then Barriers(|s.workers|, |s.groups|) else []
    ensures s'.log == s.log + jobs && s'.fetched == s.fetched && s'.availableWork == s.availableWork + |jobs|
    ensures s.fetched <= |s.log| ==> s'.log[s'.fetched..] == s.log[s.fetched..] + jobs
  {
  }

  /** Jobs from the front of the queue, with none behind a barrier or a stop job, make a step of the protocol. */
  lemma Fetched(s: State, w: nat, jobs: seq<Job>, rest: seq<Job>, s': State)
    requires s.fetched <= |s.log| && s.log[s.fetched..] == jobs + rest && s.availableWork == |jobs| + |rest|
             && jobs != []
    requires w < |s.workers| && s.workers[w].phase == Running && s.workers[w].next >= s.workers[w].end
    requires forall j <- jobs[..|jobs| - 1] :: j.Work?
    requires s' == s.(fetched := s.fetched + |jobs|, availableWork := s.availableWork - |jobs|,
                      workers := s.workers[w := Worker(Running, s.fetched, s.fetched + |jobs|)])
    ensures Next(s, Fetch(w, |jobs|), s') && rest == s'.log[s'.fetched..]
  {
    forall p | s.fetched <= p < s.fetched + |jobs| - 1 ensures s.log[p].Work? {
      assert s.log[p] == s.log[s.fetched..][p - s.fetched] == jobs[..|jobs| - 1][p - s.fetched];
    }
    assert rest == (jobs + rest)[|jobs|..];
  }

  // ----- what a fetch does to the weights -----

  /** The weight of a job that leaves comes off the first entry, which goes once it is used up, whatever is missing. */
  function DebitedBy(weights: seq<nat>, job: Job): seq<nat> {
    if job.Stop? || weights == [] then weights
    else if weights[0] <= WeightOf(job) then weights[1..]
    else [weights[0] - WeightOf(job)] + weights[1..]
  }

  /** The weights after these jobs have left, one after the other. */
  function After(weights: seq<nat>, jobs: seq<Job>): seq<nat> {
    if jobs == [] then weights else DebitedBy(After(weights, jobs[..|jobs| - 1]), jobs[|jobs| - 1])
  }

  lemma NoneAfter(weights: seq<nat>)
    ensures After(weights, []) == weights
  {
  }

  lemma AfterOne(weights: seq<nat>, jobs: seq<Job>, job: Job)
    ensures After(weights, jobs + [job]) == DebitedBy(After(weights, jobs), job)
  {
    assert (jobs + [job])[..|jobs|] == jobs;
  }

  lemma {:induction false} AfterBoth(weights: seq<nat>, a: seq<Job>, b: seq<Job>)
    ensures After(weights, a + b) == After(After(weights, a), b)
    decreases |b|
  {
    if b == [] {
      assert a + b == a;
    } else {
      AfterBoth(weights, a, b[..|b| - 1]);
      assert a + b == a + b[..|b| - 1] + [b[|b| - 1]];
      AfterOne(weights, a + b[..|b| - 1], b[|b| - 1]);
    }
  }

  /** A single entry pays for the jobs exactly, and is gone when nothing is left of it. */
  lemma {:induction false} AfterSingle(x: nat, jobs: seq<Job>)
    requires x >= 1 && TotalWeight(jobs) <= x && forall j <- jobs :: !j.Stop?
    ensures After([x], jobs) == if TotalWeight(jobs) == x then [] else [x - TotalWeight(jobs)]
    decreases |jobs|
  {
    hide TotalWeight, After;
    NoWeight();
    NoneAfter([x]);
    if jobs != [] {
      var rest, job := jobs[..|jobs| - 1], jobs[|jobs| - 1];
      assert jobs == rest + [job];
      AfterOne([x], rest, job);
      TotalWeightAppend(rest, [job]);
      TotalWeightOne(job);
      AfterSingle(x, rest);
    }
  }

  /** A zero in front costs the next job its whole weight. */
  lemma AfterZero(weights: seq<nat>, job: Job, jobs: seq<Job>)
    requires !job.Stop?
    ensures After([0] + weights, [job] + jobs) == After(weights, jobs)
  {
    AfterBoth([0] + weights, [job], jobs);
    assert ([0] + weights)[1..] == weights;
    AfterOne([0] + weights, [], job);
  }

  /** All entries but the last are zero. */
  ghost predicate FrontsZero(weights: seq<nat>) {
    forall x | 0 <= x < |weights| - 1 :: weights[x] == 0
  }

  /** How many zeros lie in front of the last entry. */
  function Pending(weights: seq<nat>): nat {
    if weights == [] then 0 else |weights| - 1
  }

  /** What a job weighs more than one, if it is charged to a zero and not to the last entry. */
  function Excess(weights: seq<nat>, job: Job): nat {
    if |weights| > 1 && !job.Stop? then WeightOf(job) - 1 else 0
  }

  /**
   * The weights stand for what is in the queue and for what was never taken off: one for each zero that has been
   * put in front of a list and used up since, and what the jobs that used them up weigh more than that.
   */
  ghost predicate Accounted(weights: seq<nat>, queue: seq<Job>, surplus: nat) {
    FrontsZero(weights) && Sum(weights) + Pending(weights) == TotalWeight(queue) + surplus
  }

  lemma TakeAccounted(weights: seq<nat>, queue: seq<Job>, surplus: nat)
    requires Accounted(weights, queue, surplus) && queue != []
    ensures Accounted(DebitedBy(weights, queue[0]), queue[1..], surplus + Excess(weights, queue[0]))
    ensures Sum(DebitedBy(weights, queue[0])) <= Sum(weights)
  {
  }

  lemma ChargeAccounted(weights: seq<nat>, queue: seq<Job>, surplus: nat, jobs: seq<Job>)
    requires Accounted(weights, queue, surplus)
    ensures Accounted(Charged(weights, TotalWeight(jobs)), queue + jobs, surplus)
  {
    TotalWeightAppend(queue, jobs);
    ChargedSum(weights, TotalWeight(jobs), 0);
  }

  lemma ZeroAccounted(weights: seq<nat>, queue: seq<Job>, surplus: nat)
    requires Accounted(weights, queue, surplus)
    ensures Accounted([0] + weights, queue, surplus + if weights == [] then 0 else 1)
  {
    NewEntry(weights);
  }

  /** The weights cover the queue. */
  lemma AccountedCovers(weights: seq<nat>, queue: seq<Job>, surplus: nat)
    requires Accounted(weights, queue, surplus)
    ensures |weights| > 1 ==> weights[0] == 0 && MaxWeight(weights) == 1
    ensures weights != [] ==> weights[0] <= TotalWeight(queue) + surplus
    ensures |weights| <= 1 ==> TotalWeight(queue) + surplus == Sum(weights)
  {
    FirstIsPart(weights);
  }

  /** A fetch takes the first barrier of the queue if and only if the jobs in front of it weigh less than allowed. */
  lemma TakesBarrier(all: seq<Job>, jobs: seq<Job>, limit: nat, k: nat)
    requires k < |all| && all[k].Barrier? && forall x | 0 <= x < k :: all[x].Work?
    requires jobs != [] && jobs <= all && forall j <- jobs[..|jobs| - 1] :: j.Work?
    requires TotalWeight(jobs[..|jobs| - 1]) < limit
    requires jobs == all || !jobs[|jobs| - 1].Work? || TotalWeight(jobs) >= limit
    ensures |jobs| <= k + 1
    ensures |jobs| == k + 1 <==> TotalWeight(all[..k]) < limit
  {
    hide TotalWeight;
    forall x | 0 <= x < |jobs| - 1 ensures all[x].Work? {
      assert jobs[..|jobs| - 1][x] == all[x];
    }
    if |jobs| == k + 1 {
      assert jobs[..|jobs| - 1] == all[..k];
    } else {
      assert jobs[|jobs| - 1] == all[|jobs| - 1];
      assert all[..k] == jobs + all[|jobs|..k];
      TotalWeightAppend(jobs, all[|jobs|..k]);
    }
  }

  class JobQueue {
    var jobsQueue: seq<Job>
    var availableWork: int
    var availableWeights: seq<nat>
    ghost var state: State
    ghost var states: seq<State>
    ghost var steps: seq<Step>
    ghost var led: nat
    ghost var excess: nat

    /**
     * The queue is what lies behind the jobs fetched so far, in the order it was scheduled, and all that has
     * happened is a run of the protocol. The weights account for everything in the queue, for the calls (`led`) that
     * put a zero in front of other weights, and for what the jobs charged to such zeros weigh above one (`excess`).
     */
    ghost predicate Valid()
      reads this
    {
      && IsRun(states, steps) && states[|steps|] == state
      && state.fetched <= |state.log| && jobsQueue == state.log[state.fetched..]
      && availableWork == state.availableWork == |jobsQueue|
      && Accounted(availableWeights, jobsQueue, led + excess) && Sum(availableWeights) <= TotalWeight(state.log)
    }

    constructor (workers: nat)
      requires workers > 0
      ensures Valid() && Init(state) && |state.workers| == workers && jobsQueue == []
      ensures availableWeights == [] && led == excess == 0 && steps == []
    {
      jobsQueue, availableWork, availableWeights := [], 0, [];
      state := State([], 0, 0, seq(workers, _ => Worker(Running, 0, 0)), [], [], {});
      states, steps, led, excess := [state], [], 0, 0;
    }

    /** One job of a call of `Schedule`. */
    method Push(job: Job)
      requires !job.Stop?
      modifies `jobsQueue, `availableWork, `availableWeights
      ensures jobsQueue == old(jobsQueue) + [job] && availableWork == old(availableWork) + 1
      ensures availableWeights == Charged(old(availableWeights), WeightOf(job))
    {
      jobsQueue := jobsQueue + [job];
      availableWork := availableWork + 1;
      if |availableWeights| == 0 {
        availableWeights := [0];
      }
      var last := |availableWeights| - 1;
      availableWeights := availableWeights[last := availableWeights[last] + WeightOf(job)];
    }

    /** The loop of `Schedule`. */
    method PushAll(jobs: seq<Job>)
      requires forall j <- jobs :: !j.Stop?
      modifies `jobsQueue, `availableWork, `availableWeights
      ensures jobsQueue == old(jobsQueue) + jobs && availableWork == old(availableWork) + |jobs|
      ensures availableWeights == if jobs == [] then old(availableWeights)
              else Charged(old(availableWeights), TotalWeight(jobs))
    {
      hide Charged, TotalWeight, WeightOf;
      NoWeight();
      assert jobs[..0] == [];
      for i := 0 to |jobs|
        invariant jobsQueue == old(jobsQueue) + jobs[..i] && availableWork == old(availableWork) + i
        invariant availableWeights == if i == 0 then old(availableWeights)
                  else Charged(old(availableWeights), TotalWeight(jobs[..i]))
      {
        assert jobs[..i + 1] == jobs[..i] + [jobs[i]];
        TotalWeightAppend(jobs[..i], [jobs[i]]);
        TotalWeightOne(jobs[i]);
        ChargedSum(old(availableWeights), TotalWeight(jobs[..i]), WeightOf(jobs[i]));
        Push(jobs[i]);
      }
      assert jobs[..|jobs|] == jobs;
    }

    /** One call of `Schedule`: the jobs go to the end of the queue, in their order. */
    method Schedule(jobs: seq<Job>, ghost caller: Caller, ghost work: seq<Job>, ghost barriers: bool,
                    ghost state': State)
      requires Valid() && jobs == work + (if barriers then Barriers(|state.workers|, |state.groups|) else [])
      requires Next(state, Step.Schedule(caller, work, barriers), state') && forall j <- jobs :: !j.Stop?
      modifies this
      ensures Valid() && state == state' && jobsQueue == old(jobsQueue) + jobs
      ensures states == old(states) + [state'] && steps == old(steps) + [Step.Schedule(caller, work, barriers)]
      ensures var first := if jobs != [] && jobs[0].Barrier? then [0] else [];
              availableWeights == if jobs == [] then old(availableWeights)
                  else Charged(first + old(availableWeights), TotalWeight(jobs))
      ensures led == old(led) + if jobs != [] && jobs[0].Barrier? && old(availableWeights) != [] then 1 else 0
      ensures excess == old(excess)
    {
      hide Next, Charged, Sum, TotalWeight, Accounted, IsRun;
      ScheduledLog(state, caller, work, barriers, state', jobs);
      RunExtended(states, steps, Step.Schedule(caller, work, barriers), state');
      TotalWeightAppend(state.log, jobs);
      assert jobsQueue + [] == jobsQueue;
      if |jobs| > 0 && jobs[0].Barrier? {
        NewEntry(availableWeights);
        ZeroAccounted(availableWeights, jobsQueue, led + excess);
        led := led + if availableWeights == [] then 0 else 1;
        availableWeights := [0] + availableWeights;
      }
      assert [] + old(availableWeights) == old(availableWeights);
      ChargedSum(availableWeights, TotalWeight(jobs), 0);
      ChargeAccounted(availableWeights, jobsQueue, led + excess, jobs);
      NoWeight();
      PushAll(jobs);
      state := state';
      states, steps := states + [state'], steps + [Step.Schedule(caller, work, barriers)];
    }

    /** A stop job, which is accounted with no weight. */
    method PushStop(ghost state': State)
      requires Valid() && Next(state, Step.Schedule(Outside, [Stop], false), state')
      modifies this
      ensures Valid() && state == state' && jobsQueue == old(jobsQueue) + [Stop]
              && availableWeights == old(availableWeights)
      ensures states == old(states) + [state'] && steps == old(steps) + [Step.Schedule(Outside, [Stop], false)]
      ensures led == old(led) && excess == old(excess)
    {
      hide Next, Sum, TotalWeight, IsRun;
      ScheduledLog(state, Outside, [Stop], false, state', [Stop]);
      RunExtended(states, steps, Step.Schedule(Outside, [Stop], false), state');
      TotalWeightAppend(state.log, [Stop]);
      TotalWeightAppend(jobsQueue, [Stop]);
      TotalWeightOne(Stop);
      jobsQueue := jobsQueue + [Stop];
      availableWork := availableWork + 1;
      state := state';
      states, steps := states + [state'], steps + [Step.Schedule(Outside, [Stop], false)];
    }

    /** One turn of the loop of `fetchWork`: the front job leaves the queue, and its weight the first entry. */
    method Take() returns (next: Job)
      requires jobsQueue != [] && Accounted(availableWeights, jobsQueue, led + excess)
      modifies `jobsQueue, `availableWork, `availableWeights, `excess
      ensures next == old(jobsQueue)[0] && jobsQueue == old(jobsQueue)[1..] && availableWork == old(availableWork) - 1
      ensures availableWeights == DebitedBy(old(availableWeights), next)
      ensures |availableWeights| <= |old(availableWeights)|
      ensures excess == old(excess) + Excess(old(availableWeights), next)
      ensures Accounted(availableWeights, jobsQueue, led + excess)
      ensures Sum(availableWeights) <= old(Sum(availableWeights))
    {
      hide Accounted, Sum;
      TakeAccounted(availableWeights, jobsQueue, led + excess);
      availableWork := availableWork - 1;
      next := jobsQueue[0];
      excess := excess + Excess(availableWeights, next);
      if !next.Stop? && |availableWeights| > 0 {
        if availableWeights[0] - WeightOf(next) <= 0 {
          availableWeights := availableWeights[1..];
        } else {
          availableWeights := [availableWeights[0] - WeightOf(next)] + availableWeights[1..];
        }
      }
      jobsQueue := jobsQueue[1..];
    }

    /** The loop of `fetchWork`. */
    method TakeJobs(limit: nat) returns (jobs: seq<Job>)
      requires jobsQueue != [] && availableWork == |jobsQueue| && limit > 0
      requires Accounted(availableWeights, jobsQueue, led + excess) && (|availableWeights| > 1 ==> limit == 1)
      modifies `jobsQueue, `availableWork, `availableWeights, `excess
      ensures jobs != [] && old(jobsQueue) == jobs + jobsQueue && availableWork == |jobsQueue|
      ensures Accounted(availableWeights, jobsQueue, led + excess)
      ensures Sum(availableWeights) <= old(Sum(availableWeights))
      ensures TotalWeight(jobs[..|jobs| - 1]) < limit && forall j <- jobs[..|jobs| - 1] :: j.Work?
      ensures jobsQueue == [] || !jobs[|jobs| - 1].Work? || TotalWeight(jobs) >= limit
      ensures availableWeights == After(old(availableWeights), jobs)
      ensures excess == old(excess) + Excess(old(availableWeights), jobs[0])
    {
      hide Sum, TotalWeight, Accounted, After, DebitedBy;
      var maxWeight: int := limit;
      jobs := [];
      NoWeight();
      NoneAfter(availableWeights);
      while availableWork > 0 && maxWeight > 0
        invariant old(jobsQueue) == jobs + jobsQueue && availableWork == |jobsQueue| && (jobs == [] ==> maxWeight > 0)
        invariant maxWeight == limit - TotalWeight(jobs) && forall j <- jobs :: j.Work?
        invariant jobs != [] ==> TotalWeight(jobs[..|jobs| - 1]) < limit
        invariant Accounted(availableWeights, jobsQueue, led + excess)
        invariant Sum(availableWeights) <= old(Sum(availableWeights))
        invariant availableWeights == After(old(availableWeights), jobs)
        invariant excess == old(excess) + if jobs == [] then 0 else Excess(old(availableWeights), jobs[0])
        invariant |availableWeights| <= |old(availableWeights)|
        invariant |old(availableWeights)| > 1 && jobs != [] ==> maxWeight <= 0
        decreases |jobsQueue|
      {
        AfterOne(old(availableWeights), jobs, jobsQueue[0]);
        var next := Take();
        TotalWeightAppend(jobs, [next]);
        TotalWeightOne(next);
        assert (jobs + [next])[..|jobs|] == jobs;
        jobs := jobs + [next];
        if !next.Stop? {
          maxWeight := maxWeight - WeightOf(next);
        }
        if next.Stop? || next.Barrier? {
          break;
        }
      }
    }

    /**
     * `fetchWork`, once there is work: jobs from the front, as many as it takes to reach the weight allowed, but
     * none behind a barrier or a stop job. So it takes the first barrier in the queue exactly if the jobs in front of
     * the barrier weigh less than what is allowed.
     */
    method FetchWork(ghost w: nat) returns (jobs: seq<Job>)
      requires Valid() && availableWork > 0
      requires w < |state.workers| && state.workers[w].phase == Running && state.workers[w].next >= state.workers[w].end
      modifies this
      ensures Valid() && jobs != [] && old(jobsQueue) == jobs + jobsQueue
      ensures Next(old(state), Fetch(w, |jobs|), state)
      ensures states == old(states) + [state] && steps == old(steps) + [Fetch(w, |jobs|)]
      ensures TotalWeight(jobs[..|jobs| - 1]) < old(MaxWeight(availableWeights))
      ensures jobsQueue == [] || !jobs[|jobs| - 1].Work? || TotalWeight(jobs) >= old(MaxWeight(availableWeights))
      ensures forall k | 0 <= k < |old(jobsQueue)| && old(jobsQueue)[k].Barrier? ::
                (forall x | 0 <= x < k :: old(jobsQueue)[x].Work?) ==>
                && |jobs| <= k + 1
                && (|jobs| == k + 1 <==> TotalWeight(old(jobsQueue)[..k]) < old(MaxWeight(availableWeights)))
      ensures old(TotalWeight(state.log)) < 2 * 128 * THREADS ==> |jobs| == 1
      ensures availableWeights == After(old(availableWeights), jobs) && led == old(led)
      ensures excess == old(excess) + Excess(old(availableWeights), jobs[0])
    {
      hide Sum, TotalWeight, Next, WeightOf, Barriers, Accounted, IsRun, After, Excess;
      FirstIsPart(availableWeights);
      AccountedCovers(availableWeights, jobsQueue, led + excess);
      var maxWeight := 1;
      if |availableWeights| > 0 {
        maxWeight := availableWeights[0] / (128 * THREADS);
      }
      if maxWeight < 1 {
        maxWeight := 1;
      }
      jobs := TakeJobs(maxWeight);
      TotalWeightAtLeast(jobs[..|jobs| - 1]);
      state := state.(fetched := state.fetched + |jobs|, availableWork := state.availableWork - |jobs|,
        workers := state.workers[w := Worker(Running, state.fetched, state.fetched + |jobs|)]);
      Fetched(old(state), w, jobs, jobsQueue, state);
      RunExtended(states, steps, Fetch(w, |jobs|), state);
      states, steps := states + [state], steps + [Fetch(w, |jobs|)];
      forall k | 0 <= k < |old(jobsQueue)| && old(jobsQueue)[k].Barrier? &&
                 forall x | 0 <= x < k :: old(jobsQueue)[x].Work?
        ensures |jobs| <= k + 1
        ensures |jobs| == k + 1 <==> TotalWeight(old(jobsQueue)[..k]) < maxWeight
      {
        TakesBarrier(old(jobsQueue), jobs, maxWeight, k);
      }
    }

    /** The steps of the workers at their jobs leave the queue alone. */
    ghost method Proceed(step: Step, state': State)
      requires Valid() && Next(state, step, state') && !step.Schedule? && !step.Fetch?
      modifies `state, `states, `steps
      ensures Valid() && state == state' && jobsQueue == old(jobsQueue)
      ensures states == old(states) + [state'] && steps == old(steps) + [step]
    {
      hide Sum, TotalWeight, Accounted, IsRun;
      RunExtended(states, steps, step, state');
      state := state';
      states, steps := states + [state'], steps + [step];
    }
  }

  // ----- the jobs that hash the words of a batch -----

  /**
   * With nothing but hashing jobs and their barriers in the queue, no fetch takes a barrier behind work as long as the
   * weight that is left over stays below the bound, which it does for thousands of batches.
   */
  lemma HashBarriersAlone(q: JobQueue, k: nat)
    requires q.Valid() && 0 < k < |q.jobsQueue| && q.led + q.excess < 6 * 128 * THREADS - 1505 - THREADS
    requires forall x | 0 <= x < k :: q.jobsQueue[x].Work? && q.jobsQueue[x].weight >= 5
    requires TotalWeight(q.jobsQueue) <= 1505 + THREADS
    ensures TotalWeight(q.jobsQueue[..k]) >= MaxWeight(q.availableWeights)
  {
    hide IsRun, Accounted, Sum;
    AccountedCovers(q.availableWeights, q.jobsQueue, q.led + q.excess);
    assert q.jobsQueue[..k][0] == q.jobsQueue[0];
  }
}
