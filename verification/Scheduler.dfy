/**
 * The job queue and its barrier groups as a protocol: a step is one critical section of one worker or of a
 * caller of `Schedule`, and a run is any interleaving of steps.
 */
module Scheduler {

  type Weight = x: nat | x >= 1 witness 1

  /** `group` numbers the calls that put a barrier group behind their jobs. */
  datatype Job = Work(weight: Weight) | Barrier(group: nat) | Stop

  /** Jobs are scheduled from outside, or by the job that a worker is at. */
  datatype Caller = Outside | ByWorker(w: nat)

  /** What a worker does with the first job it holds; a woken worker has been released from its barrier. */
  datatype Phase = Running | Waiting | Woken | Stopped

  /** A worker has fetched the jobs at the positions from `next` up to `end` and not yet finished any of them. */
  datatype Worker = Worker(phase: Phase, next: nat, end: nat)

  /**
   * `log` is every job ever scheduled, in order, so a job is known by its position; the queue is what lies
   * behind `fetched`. `groups` tells where each barrier group starts, `counts` are the shared counters.
   * `released` records the groups whose last worker has broadcast.
   */
  datatype State = State(log: seq<Job>, fetched: nat, availableWork: int, workers: seq<Worker>,
                         groups: seq<nat>, counts: seq<nat>, released: set<nat>)

  datatype Step =
    | Schedule(caller: Caller, jobs: seq<Job>, barriers: bool)
    | Fetch(w: nat, n: nat)
    | FinishWork(w: nat)
    | BarrierWait(w: nat)
    | BarrierBroadcast(w: nat)
    | LeaveBarrier(w: nat)
    | Halt(w: nat)

  ghost predicate Init(s: State) {
    && s.log == [] && s.fetched == 0 && s.availableWork == 0 && |s.workers| > 0
    && (forall w: nat | w < |s.workers| :: s.workers[w] == Worker(Running, 0, 0))
    && s.groups == [] && s.counts == [] && s.released == {}
  }

  function Barriers(n: nat, group: nat): (b: seq<Job>)
    ensures |b| == n && forall x | 0 <= x < n :: b[x] == Barrier(group)
  {
    if n == 0 then [] else Barriers(n - 1, group) + [Barrier(group)]
  }

  predicate Holds(s: State, w: nat, p: nat) {
    w < |s.workers| && s.workers[w].next <= p < s.workers[w].end
  }

  /** A job is done when it has been fetched and no worker holds it any more. */
  ghost predicate Done(s: State, p: nat) {
    p < s.fetched && forall w: nat :: !Holds(s, w, p)
  }

  /** Worker `w` is at a job it has fetched. */
  predicate Busy(s: State, w: nat) {
    w < |s.workers| && s.workers[w].next < s.workers[w].end <= |s.log|
  }

  function Current(s: State, w: nat): Job
    requires Busy(s, w)
  {
    s.log[s.workers[w].next]
  }

  function Advance(s: State, w: nat, phase: Phase): State
    requires w < |s.workers|
  {
    s.(workers := s.workers[w := Worker(phase, s.workers[w].next + 1, s.workers[w].end)])
  }

  function Wake(workers: seq<Worker>, w: nat): (woken: seq<Worker>)
    ensures |woken| == |workers|
    ensures forall x | 0 <= x < |workers| ::
              woken[x] == if x == w || workers[x].phase == Waiting then workers[x].(phase := Woken) else workers[x]
  {
    seq(|workers|, x requires 0 <= x < |workers| =>
      if x == w || workers[x].phase == Waiting then workers[x].(phase := Woken) else workers[x])
  }

  ghost predicate Next(s: State, step: Step, s': State) {
    match step
    case Schedule(caller, jobs, barriers) =>
      // one call pushes its jobs, and, with barriers, one barrier for each worker behind them
      var start: nat := |s.log| + |jobs|;
      var more := jobs + if barriers then Barriers(|s.workers|, |s.groups|) else [];
      && (forall j <- jobs :: !j.Barrier?) && |s.workers| > 0
      && (caller.ByWorker? ==> Busy(s, caller.w) && s.workers[caller.w].phase == Running && Current(s, caller.w).Work?)
      && s' == s.(log := s.log + more, availableWork := s.availableWork + |more|,
                  groups := if barriers then s.groups + [start] else s.groups,
                  counts := if barriers then s.counts + [|s.workers| - 1] else s.counts)
    case Fetch(w, n) =>
      // `fetchWork` takes some jobs from the front, and none behind a barrier or a stop job
      && w < |s.workers| && s.workers[w].phase == Running && s.workers[w].next >= s.workers[w].end
      && 1 <= n <= s.availableWork && s.fetched + n <= |s.log|
      && (forall p | s.fetched <= p < s.fetched + n - 1 :: s.log[p].Work?)
      && s' == s.(fetched := s.fetched + n, availableWork := s.availableWork - n,
                  workers := s.workers[w := Worker(Running, s.fetched, s.fetched + n)])
    case FinishWork(w) =>
      Busy(s, w) && s.workers[w].phase == Running && Current(s, w).Work? && s' == Advance(s, w, Running)
    case BarrierWait(w) =>
      && Busy(s, w) && s.workers[w].phase == Running && Current(s, w).Barrier?
      && var g := Current(s, w).group;
      && g < |s.counts| && s.counts[g] > 0
      && s' == s.(workers := s.workers[w := s.workers[w].(phase := Waiting)], counts := s.counts[g := s.counts[g] - 1])
    case BarrierBroadcast(w) =>
      // the condition variable is shared by all groups: every waiting worker is woken
      && Busy(s, w) && s.workers[w].phase == Running && Current(s, w).Barrier?
      && var g := Current(s, w).group;
      && g < |s.counts| && s.counts[g] == 0
      && s' == s.(workers := Wake(s.workers, w), released := s.released + {g})
    case LeaveBarrier(w) =>
      Busy(s, w) && s.workers[w].phase == Woken && s' == Advance(s, w, Running)
    case Halt(w) =>
      Busy(s, w) && s.workers[w].phase == Running && Current(s, w).Stop? && s' == Advance(s, w, Stopped)
  }

  // ----- the invariant -----

  /** Barriers lie in the log exactly where their groups are. */
  ghost predicate GroupsOk(s: State) {
    && |s.counts| == |s.groups|
    && (forall g: nat | g < |s.groups| :: s.groups[g] + |s.workers| <= |s.log|)
    && (forall g: nat, p: nat | g < |s.groups| && s.groups[g] <= p < s.groups[g] + |s.workers| ::
        s.log[p] == Barrier(g))
    && (forall p: nat | p < |s.log| && s.log[p].Barrier? ::
          s.log[p].group < |s.groups| && s.groups[s.log[p].group] <= p < s.groups[s.log[p].group] + |s.workers|)
  }

  /** No job is in the hands of two workers, and none is held that is still in the queue. */
  ghost predicate Disjoint(s: State) {
    && s.fetched <= |s.log| && s.availableWork == |s.log| - s.fetched
    && (forall w: nat | w < |s.workers| :: s.workers[w].end <= s.fetched)
    && (forall w: nat, w': nat, p: nat | Holds(s, w, p) && Holds(s, w', p) :: w == w')
  }

  /** A barrier or stop job is the last one its worker holds. */
  ghost predicate Ordered(s: State) {
    forall w: nat, p: nat | Holds(s, w, p) && p < s.workers[w].end - 1 :: p < |s.log| && s.log[p].Work?
  }

  /** Worker `w` holds a barrier of group `g` and nothing else. */
  ghost predicate InBarrier(s: State, w: nat, g: nat) {
    Busy(s, w) && s.workers[w].next + 1 == s.workers[w].end && Current(s, w) == Barrier(g)
  }

  /** Worker `w` holds a barrier of group `g`, perhaps with other jobs in front of it. */
  ghost predicate HoldsBarrier(s: State, w: nat, g: nat) {
    Busy(s, w) && s.log[s.workers[w].end - 1] == Barrier(g)
  }

  ghost function WaitingOn(s: State, g: nat): set<nat> {
    set w: nat | w < |s.workers| && s.workers[w].phase == Waiting && InBarrier(s, w, g)
  }

  /** What the phase of a worker says about the job it is at. */
  ghost predicate PhaseOk(s: State, w: nat)
    requires w < |s.workers|
  {
    match s.workers[w].phase
    case Running => forall g: nat | g in s.released :: !HoldsBarrier(s, w, g)
    case Waiting => exists g: nat :: g < |s.groups| && g !in s.released && InBarrier(s, w, g)
    case Woken => exists g: nat :: g in s.released && InBarrier(s, w, g)
    case Stopped => s.workers[w].next >= s.workers[w].end
  }

  /** The counter of a group not released tells how many workers have yet to come, the last one apart. */
  ghost predicate CountOk(s: State, g: nat) {
    g < |s.groups| && g < |s.counts| && g !in s.released ==> s.counts[g] + |WaitingOn(s, g)| == |s.workers| - 1
  }

  /**
   * A released group has been fetched and everything in front of it is done. A group not released has none of
   * its own jobs done and nothing behind it fetched.
   */
  ghost predicate SeparatedAt(s: State, g: nat)
    requires g < |s.groups|
  {
    if g in s.released then
      (forall p: nat | p < s.groups[g] :: Done(s, p)) && s.fetched >= s.groups[g] + |s.workers|
    else
      (forall p: nat | p < |s.log| && s.log[p] == Barrier(g) :: !Done(s, p)) && s.fetched <= s.groups[g] + |s.workers|
  }

  ghost predicate Inv(s: State) {
    && GroupsOk(s) && Disjoint(s) && Ordered(s)
    && (forall g <- s.released :: g < |s.groups|)
    && (forall w: nat | w < |s.workers| :: PhaseOk(s, w))
    && (forall g: nat :: CountOk(s, g))
    && (forall g: nat | g < |s.groups| :: SeparatedAt(s, g))
  }

  lemma InitInv(s: State)
    requires Init(s)
    ensures Inv(s)
  {
  }

  // ----- counting workers -----

  ghost function Interval(from: nat, n: nat): (ps: set<nat>)
    ensures forall p: nat :: p in ps <==> from <= p < from + n
    ensures |ps| == n
  {
    if n == 0 then {} else Interval(from, n - 1) + {from + n - 1}
  }

  lemma SubsetSize(a: set<nat>, b: set<nat>)
    requires a <= b
    ensures |a| <= |b|
    ensures |a| == |b| ==> a == b
  {
    assert b == a + (b - a);
    if |a| == |b| {
      assert |b - a| == 0;
    }
  }

  ghost function Image(ws: set<nat>, f: map<nat, nat>): set<nat>
    requires ws <= f.Keys
  {
    set w | w in ws :: f[w]
  }

  lemma {:induction false} ImageSize(ws: set<nat>, f: map<nat, nat>)
    requires ws <= f.Keys
    ensures |Image(ws, f)| <= |ws|
    ensures (forall w, w' | w in ws && w' in ws && w != w' :: f[w] != f[w']) ==> |Image(ws, f)| == |ws|
    decreases |ws|
  {
    if ws == {} {
      assert Image(ws, f) == {};
    } else {
      var x :| x in ws;
      var rest := ws - {x};
      ImageSize(rest, f);
      assert Image(ws, f) == Image(rest, f) + {f[x]};
    }
  }

  // ----- the steps keep the invariant -----

  lemma ScheduleGroups(s: State, caller: Caller, jobs: seq<Job>, barriers: bool, s': State)
    requires GroupsOk(s) && Next(s, Schedule(caller, jobs, barriers), s')
    ensures GroupsOk(s')
  {
    forall p: nat | |s.log| <= p < |s.log| + |jobs| ensures !s'.log[p].Barrier? {
      assert s'.log[p] == jobs[p - |s.log|];
    }
    forall p: nat | p < |s'.log| && s'.log[p].Barrier?
      ensures s'.log[p].group < |s'.groups|
              && s'.groups[s'.log[p].group] <= p < s'.groups[s'.log[p].group] + |s'.workers|
    {
      if p < |s.log| {
        assert s'.log[p] == s.log[p];
      }
    }
  }

  lemma ScheduleSeparated(s: State, caller: Caller, jobs: seq<Job>, barriers: bool, s': State, g: nat)
    requires Inv(s) && Next(s, Schedule(caller, jobs, barriers), s') && g < |s'.groups| && GroupsOk(s')
    ensures SeparatedAt(s', g)
  {
    forall p: nat ensures Done(s', p) <==> Done(s, p) {
      forall w: nat ensures Holds(s', w, p) <==> Holds(s, w, p) {
      }
    }
    if g < |s.groups| {
      assert SeparatedAt(s, g);
    }
  }

  lemma ScheduleKeeps(s: State, caller: Caller, jobs: seq<Job>, barriers: bool, s': State)
    requires Inv(s) && Next(s, Schedule(caller, jobs, barriers), s')
    ensures Inv(s')
  {
    ScheduleGroups(s, caller, jobs, barriers, s');
    forall w: nat, p: nat ensures Holds(s', w, p) <==> Holds(s, w, p) {
    }
    forall w: nat, g: nat ensures InBarrier(s', w, g) <==> InBarrier(s, w, g) {
    }
    forall g: nat ensures CountOk(s', g) {
      assert CountOk(s, g);
      assert WaitingOn(s', g) == WaitingOn(s, g);
      if g == |s.groups| {
        assert WaitingOn(s, g) == {};
      }
    }
    forall w: nat | w < |s'.workers| ensures PhaseOk(s', w) {
      assert PhaseOk(s, w);
    }
    forall g: nat | g < |s'.groups| ensures SeparatedAt(s', g) {
      ScheduleSeparated(s, caller, jobs, barriers, s', g);
    }
  }

  /** A worker moves on to its next job; it was not waiting, and the job was no barrier of an unreleased group. */
  lemma AdvanceKeeps(s: State, w: nat, phase: Phase)
    requires Inv(s) && Busy(s, w) && s.workers[w].phase != Waiting && phase != Waiting && phase != Woken
    requires Current(s, w).Barrier? ==> Current(s, w).group in s.released
    requires s.workers[w].phase == Woken || !Current(s, w).Barrier?
    requires phase == Stopped ==> s.workers[w].next + 1 == s.workers[w].end
    ensures Inv(Advance(s, w, phase))
  {
    var s' := Advance(s, w, phase);
    forall x: nat, p: nat ensures Holds(s', x, p) <==> Holds(s, x, p) && !(x == w && p == s.workers[w].next) {
    }
    forall g: nat ensures WaitingOn(s', g) == WaitingOn(s, g) {
      assert PhaseOk(s, w);
    }
    forall g: nat ensures CountOk(s', g) {
      assert CountOk(s, g);
    }
    forall x: nat | x < |s'.workers| ensures PhaseOk(s', x) {
      assert PhaseOk(s, x);
    }
    forall g: nat | g < |s'.groups| ensures SeparatedAt(s', g) {
      AdvanceSeparated(s, w, phase, g);
    }
  }

  lemma AdvanceSeparated(s: State, w: nat, phase: Phase, g: nat)
    requires Inv(s) && Busy(s, w) && g < |s.groups|
    requires Current(s, w).Barrier? ==> Current(s, w).group in s.released
    ensures SeparatedAt(Advance(s, w, phase), g)
  {
    var s' := Advance(s, w, phase);
    assert SeparatedAt(s, g);
    forall p: nat | Done(s, p) ensures Done(s', p) {
      forall x: nat ensures !Holds(s', x, p) {
        assert !Holds(s, x, p);
      }
    }
    if g !in s.released {
      forall p: nat | p < |s'.log| && s'.log[p] == Barrier(g) ensures !Done(s', p) {
        assert !Done(s, p);
        if p < s.fetched {
          var x: nat :| Holds(s, x, p);
          assert Holds(s', x, p);
        }
      }
    }
  }

  ghost predicate HeldBySome(s: State, p: nat) {
    exists w: nat :: Holds(s, w, p)
  }

  /** The holder of a barrier holds it last. */
  lemma HolderOf(s: State, g: nat, p: nat) returns (x: nat)
    requires GroupsOk(s) && Disjoint(s) && Ordered(s) && g < |s.groups|
    requires s.groups[g] <= p < s.groups[g] + |s.workers| && HeldBySome(s, p)
    ensures x < |s.workers| && HoldsBarrier(s, x, g) && LastHeld(s, x) == p
  {
    x :| Holds(s, x, p);
    assert s.log[p] == Barrier(g);
    assert p == s.workers[x].end - 1;
  }

  /** If all barriers of a group are in workers' hands, every worker holds one. */
  lemma AllWorkersHold(s: State, g: nat, w: nat)
    requires GroupsOk(s) && Disjoint(s) && Ordered(s) && g < |s.groups| && w < |s.workers|
    requires forall p: nat | s.groups[g] <= p < s.groups[g] + |s.workers| :: HeldBySome(s, p)
    ensures HoldsBarrier(s, w, g)
  {
    var n := |s.workers|;
    var holders := set x: nat | x < n && HoldsBarrier(s, x, g);
    EnoughHolders(s, g, holders);
    SubsetSize(holders, Interval(0, n));
    assert w in Interval(0, n);
  }

  lemma EnoughHolders(s: State, g: nat, holders: set<nat>)
    requires GroupsOk(s) && Disjoint(s) && Ordered(s) && g < |s.groups|
    requires forall x: nat :: x in holders <==> x < |s.workers| && HoldsBarrier(s, x, g)
    requires forall p: nat | s.groups[g] <= p < s.groups[g] + |s.workers| :: HeldBySome(s, p)
    ensures |holders| >= |s.workers|
  {
    var last := map x: nat | x in holders :: LastHeld(s, x);
    forall p: nat | s.groups[g] <= p < s.groups[g] + |s.workers| ensures p in Image(holders, last) {
      var x := HolderOf(s, g, p);
      assert x in holders && last[x] == p;
    }
    ImageSize(holders, last);
    SubsetSize(Interval(s.groups[g], |s.workers|), Image(holders, last));
  }

  function LastHeld(s: State, w: nat): nat {
    if w < |s.workers| && s.workers[w].end > 0 then s.workers[w].end - 1 else 0
  }

  lemma FetchKeeps(s: State, w: nat, n: nat, s': State)
    requires Inv(s) && Next(s, Fetch(w, n), s')
    ensures Inv(s')
  {
    forall x: nat, p: nat ensures Holds(s', x, p) <==>
        if x == w then s.fetched <= p < s.fetched + n else Holds(s, x, p) {
    }
    forall p: nat ensures Done(s', p) <==> Done(s, p) {
      if p < s.fetched {
        forall x: nat ensures Holds(s', x, p) <==> Holds(s, x, p) {
        }
      } else if p < s.fetched + n {
        assert Holds(s', w, p);
      }
    }
    forall g: nat ensures WaitingOn(s', g) == WaitingOn(s, g) {
      forall x: nat ensures x in WaitingOn(s', g) <==> x in WaitingOn(s, g) {
      }
    }
    forall g: nat ensures CountOk(s', g) {
      assert CountOk(s, g);
    }
    forall g: nat | g < |s'.groups| ensures SeparatedAt(s', g) {
      assert SeparatedAt(s, g);
      if g !in s.released {
        FetchNotBehind(s, w, n, g);
      }
    }
    forall x: nat | x < |s'.workers| ensures PhaseOk(s', x) {
      assert PhaseOk(s, x);
      if x == w {
        forall g: nat | g in s'.released ensures !HoldsBarrier(s', w, g) {
          assert SeparatedAt(s, g);
        }
      }
    }
  }

  /** An idle worker cannot fetch past a group that is not released. */
  lemma FetchNotBehind(s: State, w: nat, n: nat, g: nat)
    requires Inv(s) && w < |s.workers| && s.workers[w].next >= s.workers[w].end && g < |s.groups| && g !in s.released
    requires n >= 1 && s.fetched + n <= |s.log|
    requires forall p | s.fetched <= p < s.fetched + n - 1 :: s.log[p].Work?
    ensures s.fetched + n <= s.groups[g] + |s.workers|
  {
    assert SeparatedAt(s, g);
    var last := s.groups[g] + |s.workers|;
    assert s.log[last - 1] == Barrier(g);
    if s.fetched == last {
      forall p: nat | s.groups[g] <= p < last ensures HeldBySome(s, p) {
        assert s.log[p] == Barrier(g);
        assert !Done(s, p);
      }
      AllWorkersHold(s, g, w);
    }
  }

  lemma OneMoreWaits(s: State, w: nat, s': State, g: nat)
    requires w < |s.workers| && s.workers[w].phase == Running
    requires s'.workers == s.workers[w := s.workers[w].(phase := Waiting)]
    requires forall x: nat :: InBarrier(s', x, g) <==> InBarrier(s, x, g)
    ensures WaitingOn(s', g) == WaitingOn(s, g) + (if InBarrier(s, w, g) then {w} else {}) && w !in WaitingOn(s, g)
  {
    hide InBarrier;
    forall x: nat ensures x in WaitingOn(s', g) <==> x in WaitingOn(s, g) || (x == w && InBarrier(s, w, g)) {
      assert InBarrier(s', x, g) <==> InBarrier(s, x, g);
    }
  }

  lemma BarrierWaitCounts(s: State, w: nat, s': State, g: nat)
    requires CountOk(s, g) && Next(s, BarrierWait(w), s') && (InBarrier(s, w, g) <==> g == Current(s, w).group)
    requires forall x: nat :: InBarrier(s', x, g) <==> InBarrier(s, x, g)
    ensures CountOk(s', g)
  {
    hide InBarrier, WaitingOn;
    OneMoreWaits(s, w, s', g);
  }

  lemma BarrierWaitKeeps(s: State, w: nat, s': State)
    requires Inv(s) && Next(s, BarrierWait(w), s')
    ensures Inv(s')
  {
    var g0 := Current(s, w).group;
    assert PhaseOk(s, w) && InBarrier(s, w, g0) && HoldsBarrier(s, w, g0);
    forall x: nat, p: nat ensures Holds(s', x, p) <==> Holds(s, x, p) {
    }
    forall p: nat ensures Done(s', p) <==> Done(s, p) {
    }
    forall x: nat, g: nat ensures InBarrier(s', x, g) <==> InBarrier(s, x, g) {
    }
    forall g: nat ensures CountOk(s', g) {
      assert CountOk(s, g);
      BarrierWaitCounts(s, w, s', g);
    }
    forall x: nat | x < |s'.workers| ensures PhaseOk(s', x) {
      assert PhaseOk(s, x);
    }
    forall g: nat | g < |s'.groups| ensures SeparatedAt(s', g) {
      assert SeparatedAt(s, g);
    }
  }

  /** When the counter is used up, every other worker waits in the same group. */
  lemma AllArrived(s: State, w: nat)
    requires Inv(s) && Busy(s, w) && s.workers[w].phase == Running && Current(s, w).Barrier?
    requires Current(s, w).group < |s.counts| && s.counts[Current(s, w).group] == 0
    ensures Current(s, w).group !in s.released
    ensures forall x: nat | x < |s.workers| ::
            InBarrier(s, x, Current(s, w).group) && (x != w ==> s.workers[x].phase == Waiting)
  {
    var g := Current(s, w).group;
    var n := |s.workers|;
    assert PhaseOk(s, w) && InBarrier(s, w, g);
    assert HoldsBarrier(s, w, g);
    assert CountOk(s, g);
    var all := WaitingOn(s, g) + {w};
    assert |all| == n;
    SubsetSize(all, Interval(0, n));
    forall x: nat | x < n ensures InBarrier(s, x, g) && (x != w ==> s.workers[x].phase == Waiting) {
      assert x in Interval(0, n);
      assert x in all;
    }
  }

  /** Workers at barriers of the group hold different ones. */
  lemma HeldApart(s: State, g: nat, x: nat, y: nat)
    requires GroupsOk(s) && Disjoint(s) && g < |s.groups| && InBarrier(s, x, g) && InBarrier(s, y, g)
    ensures x < |s.workers| && s.workers[x].end == LastHeld(s, x) + 1
    ensures s.groups[g] <= LastHeld(s, x) < s.groups[g] + |s.workers| && (LastHeld(s, x) == LastHeld(s, y) ==> x == y)
  {
    assert Holds(s, x, LastHeld(s, x)) && Holds(s, y, LastHeld(s, y));
  }

  /** With every worker at a barrier of the group, the last one of its barriers is held too. */
  lemma AllBarriersHeld(s: State, g: nat) returns (w: nat)
    requires GroupsOk(s) && Disjoint(s) && g < |s.groups| && |s.workers| > 0
    requires forall x: nat | x < |s.workers| :: InBarrier(s, x, g)
    ensures w < |s.workers| && s.workers[w].end == s.groups[g] + |s.workers|
  {
    hide GroupsOk, Disjoint, InBarrier, Holds, LastHeld;
    var n := |s.workers|;
    var workers := Interval(0, n);
    var at := map x: nat | x in workers :: LastHeld(s, x);
    var positions := Image(workers, at);
    forall x, y | x in workers && y in workers ensures at[x] == at[y] ==> x == y {
      HeldApart(s, g, x, y);
    }
    ImageSize(workers, at);
    forall p | p in positions ensures p in Interval(s.groups[g], n) {
      var x :| x in workers && at[x] == p;
      HeldApart(s, g, x, x);
    }
    SubsetSize(positions, Interval(s.groups[g], n));
    var last: nat := s.groups[g] + n - 1;
    assert last in positions;
    w :| w in workers && at[w] == last;
    HeldApart(s, g, w, w);
  }

  lemma FrontDone(s: State, g: nat, p: nat)
    requires GroupsOk(s) && Disjoint(s) && g < |s.groups| && |s.workers| > 0 && p < s.groups[g]
    requires forall x: nat | x < |s.workers| :: InBarrier(s, x, g)
    ensures Done(s, p)
  {
    assert InBarrier(s, 0, g);
    forall y: nat ensures !Holds(s, y, p) {
      assert y < |s.workers| ==> InBarrier(s, y, g);
    }
  }

  /** Then the whole group is fetched and all jobs in front of it are done. */
  lemma AllArrivedSeparates(s: State, g: nat)
    requires Inv(s) && g < |s.groups| && |s.workers| > 0
    requires forall x: nat | x < |s.workers| :: InBarrier(s, x, g)
    ensures s.fetched >= s.groups[g] + |s.workers|
    ensures forall p: nat | p < s.groups[g] :: Done(s, p)
  {
    var w := AllBarriersHeld(s, g);
    forall p: nat | p < s.groups[g] ensures Done(s, p) {
      FrontDone(s, g, p);
    }
  }

  lemma BroadcastKeeps(s: State, w: nat, s': State)
    requires Inv(s) && Next(s, BarrierBroadcast(w), s')
    ensures Inv(s')
  {
    var g0 := Current(s, w).group;
    AllArrived(s, w);
    AllArrivedSeparates(s, g0);
    forall x: nat, p: nat ensures Holds(s', x, p) <==> Holds(s, x, p) {
    }
    forall p: nat ensures Done(s', p) <==> Done(s, p) {
    }
    forall x: nat, g: nat ensures InBarrier(s', x, g) <==> InBarrier(s, x, g) {
    }
    forall g: nat ensures CountOk(s', g) {
      assert CountOk(s, g);
      if g != g0 {
        forall x: nat | x < |s.workers| ensures !InBarrier(s, x, g) {
          assert InBarrier(s, x, g0);
        }
        assert WaitingOn(s, g) == {} && WaitingOn(s', g) == {};
      }
    }
    forall x: nat | x < |s'.workers| ensures PhaseOk(s', x) {
      assert InBarrier(s', x, g0) && g0 in s'.released;
    }
    forall g: nat | g < |s'.groups| ensures SeparatedAt(s', g) {
      assert SeparatedAt(s, g);
    }
  }

  lemma StepKeepsInv(s: State, step: Step, s': State)
    requires Inv(s) && Next(s, step, s')
    ensures Inv(s')
  {
    match step
    case Schedule(caller, jobs, barriers) => ScheduleKeeps(s, caller, jobs, barriers, s');
    case Fetch(w, n) => FetchKeeps(s, w, n, s');
    case FinishWork(w) => AdvanceKeeps(s, w, Running);
    case BarrierWait(w) => BarrierWaitKeeps(s, w, s');
    case BarrierBroadcast(w) => BroadcastKeeps(s, w, s');
    case LeaveBarrier(w) =>
      assert PhaseOk(s, w);
      AdvanceKeeps(s, w, Running);
    case Halt(w) =>
      assert Holds(s, w, s.workers[w].next);
      AdvanceKeeps(s, w, Stopped);
  }

  // ----- every run -----

  ghost predicate StepAt(states: seq<State>, steps: seq<Step>, n: nat) {
    n < |steps| && n + 1 < |states| && Next(states[n], steps[n], states[n + 1])
  }

  ghost predicate IsRun(states: seq<State>, steps: seq<Step>) {
    && |states| == |steps| + 1 && Init(states[0])
    && forall n: nat | n < |steps| :: StepAt(states, steps, n)
  }

  lemma {:induction false} RunKeepsInv(states: seq<State>, steps: seq<Step>, n: nat)
    requires IsRun(states, steps) && n <= |steps|
    ensures Inv(states[n])
    decreases n
  {
    if n == 0 {
      InitInv(states[0]);
    } else {
      RunKeepsInv(states, steps, n - 1);
      assert StepAt(states, steps, n - 1);
      StepKeepsInv(states[n - 1], steps[n - 1], states[n]);
    }
  }

  /**
   * Barrier safety: in every interleaving, once any job behind a barrier group has been fetched, all jobs in
   * front of the group have finished running.
   */
  lemma BarrierSafety(states: seq<State>, steps: seq<Step>, n: nat, g: nat, p: nat, q: nat)
    requires IsRun(states, steps) && n <= |steps|
    requires g < |states[n].groups| && p < states[n].groups[g]
    requires states[n].groups[g] + |states[n].workers| <= q < states[n].fetched
    ensures Done(states[n], p)
  {
    RunKeepsInv(states, steps, n);
    assert SeparatedAt(states[n], g);
  }

  /** The counter of available work is the length of the queue, and no job is ever in two workers' hands. */
  lemma QueueAccounted(states: seq<State>, steps: seq<Step>, n: nat)
    requires IsRun(states, steps) && n <= |steps|
    ensures states[n].availableWork == |states[n].log| - states[n].fetched >= 0
    ensures forall w: nat, w': nat, p: nat | Holds(states[n], w, p) && Holds(states[n], w', p) ::
            w == w' && p < states[n].fetched
  {
    RunKeepsInv(states, steps, n);
  }

  lemma StepMovesOn(states: seq<State>, steps: seq<Step>, n: nat, p: nat)
    requires IsRun(states, steps) && n < |steps|
    ensures states[n].fetched <= states[n + 1].fetched
    ensures states[n].fetched < states[n + 1].fetched ==> steps[n].Fetch?
    ensures Done(states[n], p) ==> Done(states[n + 1], p)
  {
    RunKeepsInv(states, steps, n);
    assert StepAt(states, steps, n);
    DoneStays(states[n], steps[n], states[n + 1], p);
  }

  lemma {:induction false} FetchedGrows(states: seq<State>, steps: seq<Step>, n: nat, n': nat)
    requires IsRun(states, steps) && n <= n' <= |steps|
    ensures states[n].fetched <= states[n'].fetched
    decreases n'
  {
    if n < n' {
      FetchedGrows(states, steps, n, n' - 1);
      StepMovesOn(states, steps, n' - 1, 0);
    }
  }

  /** The job at position `p` leaves the queue in step `n`. */
  ghost predicate LeavesAt(states: seq<State>, n: nat, p: nat) {
    n + 1 < |states| && states[n].fetched <= p < states[n + 1].fetched
  }

  /** Every job that has left the queue left it in exactly one step, a fetch, and in the order of the queue. */
  lemma {:induction false} FetchedOnce(states: seq<State>, steps: seq<Step>, end: nat, p: nat) returns (n: nat)
    requires IsRun(states, steps) && end <= |steps| && p < states[end].fetched
    ensures n < end && steps[n].Fetch? && LeavesAt(states, n, p)
    ensures forall m: nat | m < end && LeavesAt(states, m, p) :: m == n
    decreases end
  {
    StepMovesOn(states, steps, end - 1, p);
    if p < states[end - 1].fetched {
      n := FetchedOnce(states, steps, end - 1, p);
    } else {
      n := end - 1;
      forall m: nat | m < end - 1 ensures !LeavesAt(states, m, p) {
        FetchedGrows(states, steps, m + 1, end - 1);
      }
    }
  }

  /** What is done stays done. */
  lemma {:induction false} DoneForGood(states: seq<State>, steps: seq<Step>, n: nat, n': nat, p: nat)
    requires IsRun(states, steps) && n <= n' <= |steps| && Done(states[n], p)
    ensures Done(states[n'], p)
    decreases n'
  {
    if n < n' {
      DoneForGood(states, steps, n, n' - 1, p);
      StepMovesOn(states, steps, n' - 1, p);
    }
  }

  lemma DoneStays(s: State, step: Step, s': State, p: nat)
    requires Inv(s) && Next(s, step, s')
    ensures s.fetched <= s'.fetched && (s.fetched < s'.fetched ==> step.Fetch?)
    ensures Done(s, p) ==> Done(s', p)
  {
    if Done(s, p) {
      forall w: nat ensures !Holds(s', w, p) {
        assert !Holds(s, w, p);
      }
    }
  }

  // ----- the order of the phases -----

  /** No worker holds a barrier of the group behind other jobs. */
  ghost predicate Alone(s: State, g: nat) {
    forall w: nat | HoldsBarrier(s, w, g) :: InBarrier(s, w, g)
  }

  /** A fetch that takes a barrier of the group takes nothing else. */
  ghost predicate FetchesAlone(s: State, step: Step, g: nat) {
    step.Fetch? && 1 <= step.n && s.fetched + step.n <= |s.log| && s.log[s.fetched + step.n - 1] == Barrier(g) ==>
      step.n == 1
  }

  lemma StepKeepsAlone(s: State, step: Step, s': State, g: nat)
    requires Disjoint(s) && Alone(s, g) && Next(s, step, s') && FetchesAlone(s, step, g)
    ensures Alone(s', g)
  {
    forall w: nat | HoldsBarrier(s', w, g) ensures InBarrier(s', w, g) {
      if !(step.Fetch? && step.w == w) {
        assert HoldsBarrier(s, w, g);
        assert InBarrier(s, w, g);
      }
    }
  }

  lemma {:induction false} RunKeepsAlone(states: seq<State>, steps: seq<Step>, n: nat, g: nat)
    requires IsRun(states, steps) && n <= |steps|
    requires forall m: nat | m < n :: FetchesAlone(states[m], steps[m], g)
    ensures Alone(states[n], g)
    decreases n
  {
    if n > 0 {
      RunKeepsAlone(states, steps, n - 1, g);
      RunKeepsInv(states, steps, n - 1);
      assert StepAt(states, steps, n - 1);
      StepKeepsAlone(states[n - 1], steps[n - 1], states[n], g);
    }
  }

  /** A worker that holds a barrier of the group behind other jobs is at a job in front of the group. */
  lemma WorkInFront(s: State, g: nat, w: nat)
    requires Inv(s) && g < |s.groups| && HoldsBarrier(s, w, g) && !InBarrier(s, w, g)
    ensures s.workers[w].next < s.groups[g] && !Done(s, s.workers[w].next)
    ensures s.workers[w].phase == Running && Current(s, w).Work?
  {
    var next := s.workers[w].next;
    assert Holds(s, w, next) && next < s.workers[w].end - 1;
    assert s.log[next].Work?;
    assert PhaseOk(s, w);
  }

  /** With an empty queue, all in front of a group is done if and only if no worker has work in front of its barrier. */
  lemma IdleQueueSeparates(s: State, g: nat)
    requires Inv(s) && g < |s.groups| && s.availableWork == 0
    ensures (forall p: nat | p < s.groups[g] :: Done(s, p)) <==> Alone(s, g)
  {
    if Alone(s, g) {
      AloneSeparates(s, g);
    } else {
      var w: nat :| HoldsBarrier(s, w, g) && !InBarrier(s, w, g);
      WorkInFront(s, g, w);
    }
  }

  lemma AloneSeparates(s: State, g: nat)
    requires Inv(s) && g < |s.groups| && s.availableWork == 0 && Alone(s, g)
    ensures forall p: nat | p < s.groups[g] :: Done(s, p)
  {
    assert SeparatedAt(s, g);
    if g !in s.released && |s.workers| > 0 {
      forall p: nat | s.groups[g] <= p < s.groups[g] + |s.workers| ensures HeldBySome(s, p) {
        assert s.log[p] == Barrier(g);
        assert !Done(s, p);
      }
      forall w: nat | w < |s.workers| ensures InBarrier(s, w, g) {
        AllWorkersHold(s, g, w);
      }
      AllArrivedSeparates(s, g);
    }
  }

  /** What `nojobleft` waits for, with no worker that has yet to do work in front of its barrier. */
  ghost predicate Idle(states: seq<State>, n: nat, g: nat) {
    n < |states| && g < |states[n].groups| && states[n].availableWork == 0 && Alone(states[n], g)
  }

  /**
   * An empty queue is idle once something behind the group has been scheduled, for then it has been fetched too.
   * Otherwise it is enough that the barriers of this one group were fetched alone.
   */
  lemma EmptyIsIdle(states: seq<State>, steps: seq<Step>, n: nat, g: nat)
    requires IsRun(states, steps) && n <= |steps| && g < |states[n].groups| && states[n].availableWork == 0
    requires || states[n].groups[g] + |states[n].workers| < |states[n].log|
             || forall m: nat | m < n :: FetchesAlone(states[m], steps[m], g)
    ensures Idle(states, n, g)
  {
    RunKeepsInv(states, steps, n);
    if states[n].groups[g] + |states[n].workers| < |states[n].log| {
      assert SeparatedAt(states[n], g);
      IdleQueueSeparates(states[n], g);
    } else {
      RunKeepsAlone(states, steps, n, g);
    }
  }

  /** The log and the groups only grow, and new groups lie behind everything scheduled before. */
  lemma {:induction false} GroupsBehind(states: seq<State>, steps: seq<Step>, n: nat, m: nat)
    requires IsRun(states, steps) && n <= m <= |steps|
    ensures states[n].log <= states[m].log && states[n].groups <= states[m].groups
    ensures forall g: nat | |states[n].groups| <= g < |states[m].groups| :: |states[n].log| <= states[m].groups[g]
    decreases m
  {
    if n < m {
      GroupsBehind(states, steps, n, m - 1);
      assert StepAt(states, steps, m - 1);
    }
  }

  /**
   * The order of the phases: everything that the jobs in front of a group schedule lies in front of every group
   * that is scheduled from an idle queue on.
   */
  lemma PhaseOrder(states: seq<State>, steps: seq<Step>, n: nat, g: nat, k: nat, m: nat, g': nat)
    requires IsRun(states, steps) && Idle(states, n, g)
    requires k < |steps| && steps[k].Schedule? && steps[k].caller.ByWorker? && steps[k].caller.w < |states[k].workers|
    requires states[k].workers[steps[k].caller.w].next < states[n].groups[g]
    requires m <= |steps| && |states[n].groups| <= g' < |states[m].groups|
    ensures k < n && |states[k + 1].log| <= states[m].groups[g']
  {
    var w := steps[k].caller.w;
    var p := states[k].workers[w].next;
    RunKeepsInv(states, steps, n);
    IdleQueueSeparates(states[n], g);
    assert StepAt(states, steps, k);
    assert Holds(states[k], w, p);
    if n <= k {
      DoneForGood(states, steps, n, k, p);
    }
    GroupsBehind(states, steps, k + 1, n);
    if m < n {
      GroupsBehind(states, steps, m, n);
    } else {
      GroupsBehind(states, steps, n, m);
    }
  }

  lemma RunExtended(states: seq<State>, steps: seq<Step>, step: Step, s': State)
    requires IsRun(states, steps) && Next(states[|steps|], step, s')
    ensures IsRun(states + [s'], steps + [step])
  {
    var states', steps' := states + [s'], steps + [step];
    forall n: nat | n < |steps'| ensures StepAt(states', steps', n) {
      if n < |steps| {
        assert StepAt(states, steps, n);
      }
    }
  }

  /** One more call that schedules a barrier group and nothing else. */
  lemma OneMoreGroup(s: State) returns (s': State)
    requires |s.workers| > 0
    ensures Next(s, Schedule(Outside, [], true), s') && s'.workers == s.workers
    ensures s'.log == s.log + Barriers(|s.workers|, |s.groups|) && s'.groups == s.groups + [|s.log|]
  {
    var more := Barriers(|s.workers|, |s.groups|);
    assert [] + more == more;
    s' := s.(log := s.log + more, availableWork := s.availableWork + |more|,
             groups := s.groups + [|s.log|], counts := s.counts + [|s.workers| - 1]);
  }

  /** One more job, scheduled by a worker from the job it is at. */
  lemma OneMoreJob(s: State, w: nat, job: Job) returns (s': State)
    requires Busy(s, w) && s.workers[w].phase == Running && Current(s, w).Work? && job.Work?
    ensures Next(s, Schedule(ByWorker(w), [job], false), s') && s'.log == s.log + [job]
  {
    assert [job] + [] == [job];
    s' := s.(log := s.log + [job], availableWork := s.availableWork + 1);
  }

  /**
   * The condition is exact: from any empty queue that is not idle in this sense, one more group can be scheduled,
   * and then a job in front of the first group schedules a job behind the second.
   */
  lemma LateJob(states: seq<State>, steps: seq<Step>, g: nat, job: Job) returns (w: nat, s1: State, s2: State)
    requires IsRun(states, steps) && g < |states[|steps|].groups| && states[|steps|].availableWork == 0
    requires !Idle(states, |steps|, g) && job.Work?
    ensures IsRun(states + [s1, s2], steps + [Schedule(Outside, [], true), Schedule(ByWorker(w), [job], false)])
    ensures |s1.groups| > g + 1 && w < |s1.workers| && s1.workers[w].next < s1.groups[g]
    ensures s1.groups[|s1.groups| - 1] + |s1.workers| <= |s1.log| && s2.log == s1.log + [job]
  {
    hide Inv, Next, Barriers;
    var s := states[|steps|];
    RunKeepsInv(states, steps, |steps|);
    w :| HoldsBarrier(s, w, g) && !InBarrier(s, w, g);
    WorkInFront(s, g, w);
    s1 := OneMoreGroup(s);
    s2 := OneMoreJob(s1, w, job);
    var step1, step2 := Schedule(Outside, [], true), Schedule(ByWorker(w), [job], false);
    RunExtended(states, steps, step1, s1);
    RunExtended(states + [s1], steps + [step1], step2, s2);
    assert states + [s1] + [s2] == states + [s1, s2] && steps + [step1] + [step2] == steps + [step1, step2];
  }
}
