/** Shutdown of the thread pool once its clients have stopped submitting: it always terminates, and it completes
    exactly because the shutdown broadcast is sent while holding the mutex. */
module PoolShutdown {
  import opened PoolSafety
  import opened ThreadPool

  // ----- Every step after bRun has been cleared brings the pool closer to its end -----

  function WorkerRank(pc: WorkerPc): nat {
    match pc
    case Exited => 0
    case Leaving => 1
    case Taking => 4
    case Deciding => 5
    case Testing => 6
    case Starting => 7
    case Awake => 7
    case Asleep => 8
    case GoingToSleep => 9
    case Freeing(_) => 9
    case Running(_) => 10
    case Releasing(_) => 11
  }

  function RankSum(ws: seq<WorkerPc>): nat {
    if ws == [] then 0 else RankSum(ws[..|ws| - 1]) + WorkerRank(ws[|ws| - 1])
  }

  function DestroyerRank(pc: DestroyerPc, workers: nat): int {
    match pc
    case NotStarted => workers + 8
    case Clearing => workers + 7
    case Locking => workers + 6
    case Holding => workers + 5
    case Unlocking => workers + 4
    case Broadcasting => workers + 4
    case Joining(next) => workers - next + 2
    case TearingDown => 1
    case Finished => 0
  }

  /** Taking a job off the queue pays for the statements that execute it. */
  function Measure(s: State): int {
    8 * |s.queue| + RankSum(s.workers) + DestroyerRank(s.destroyer, |s.workers|)
  }

  lemma {:induction false} RankUpdate(ws: seq<WorkerPc>, i: nat, pc: WorkerPc)
    requires i < |ws|
    ensures RankSum(ws[i := pc]) == RankSum(ws) - WorkerRank(ws[i]) + WorkerRank(pc)
  {
    var front := ws[..|ws| - 1];
    if i < |front| {
      RankUpdate(front, i, pc);
      assert ws[i := pc][..|ws| - 1] == front[i := pc];
    } else {
      assert ws[i := pc][..|ws| - 1] == front;
    }
  }

  lemma {:induction false} RankWakeAll(ws: seq<WorkerPc>)
    ensures RankSum(WakeAll(ws)) <= RankSum(ws)
  {
    if ws != [] {
      RankWakeAll(ws[..|ws| - 1]);
      assert WakeAll(ws)[..|ws| - 1] == WakeAll(ws[..|ws| - 1]);
    }
  }

  lemma WorkerStepDecreases(s: State, i: nat)
    requires WorkerEnabled(s, i) && !s.bRun && WorkerSees(s, s.workers[i])
    ensures Measure(WorkerStep(s, i)) < Measure(s)
  {
    var t := WorkerStep(s, i);
    assert t.workers == s.workers[i := t.workers[i]];
    RankUpdate(s.workers, i, t.workers[i]);
    hide RankSum;
  }

  lemma StepDecreases(c: Config, s: State, step: Step)
    requires Inv(c, s) && c.disciplined && !s.bRun && Enabled(c, s, step)
    ensures !Next(c, s, step).bRun && Measure(Next(c, s, step)) < Measure(s)
  {
    RunFlagKept(c, s, step);
    assert WorkersSee(s) && Drained(c, s) && JoinedExited(c, s) && RunFlag(s);
    assert s.destroyer.Joining? ==> s.destroyer.next <= |s.workers|;
    hide Inv, JoinedExited, WorkerStep, SubmitStep, DestroyStep, Measure;
    match step {
      case Worker(i) => WorkerStepDecreases(s, i);
      case SpuriousWakeup(i) => WakeupDecreases(s, i);
      case Begin(j, f) => assert false;
      case Submit(j) => assert false;
      case Destroy => DestroyStepDecreases(c, s);
    }
  }

  lemma WakeupDecreases(s: State, i: nat)
    requires i < |s.workers| && s.workers[i] == Asleep
    ensures Measure(s.(workers := s.workers[i := Awake])) < Measure(s)
  {
    RankUpdate(s.workers, i, Awake);
    hide RankSum;
  }

  lemma DestroyStepDecreases(c: Config, s: State)
    requires DestroyEnabled(c, s) && !s.bRun && RunFlag(s)
    requires s.destroyer.Joining? ==> s.destroyer.next <= |s.workers|
    ensures Measure(DestroyStep(c, s)) < Measure(s)
  {
    RankWakeAll(s.workers);
    hide RankSum;
  }

  /** However the threads are scheduled, and whatever wakes them, at most Measure(s) more steps can be taken. */
  lemma {:induction false} ShutdownTerminates(c: Config, s: State, steps: seq<Step>, t: State)
    requires Inv(c, s) && c.disciplined && !s.bRun && IsRun(c, s, steps, t)
    ensures |steps| <= Measure(s)
    ensures Inv(c, t) && !t.bRun
    decreases |steps|
  {
    hide Inv, Next, Enabled;
    MeasureIsNat(c, s);
    if steps != [] {
      StepDecreases(c, s, steps[0]);
      InvKept(c, s, steps[0]);
      ShutdownTerminates(c, Next(c, s, steps[0]), steps[1..], t);
    }
  }

  lemma MeasureIsNat(c: Config, s: State)
    requires Inv(c, s)
    ensures Measure(s) >= 0
  {
    assert JoinedExited(c, s);
    hide Inv;
  }

  // ----- When no thread can move, except by a spurious wakeup -----

  ghost predicate Quiescent(c: Config, s: State) {
    forall step :: Enabled(c, s, step) ==> step.SpuriousWakeup?
  }

  /** While a broadcast is still to come, or nobody sleeps, some thread can take its next step. */
  lemma Progress(c: Config, s: State)
    requires Inv(c, s) && c.disciplined && !s.bRun && s.destroyer != Finished
    requires BroadcastSent(s) ==> NoneSleepy(s)
    ensures !Quiescent(c, s)
  {
    assert MutualExclusion(s) && RunFlag(s) && Drained(c, s) && JoinedExited(c, s);
    hide Inv;
    if s.mutex.Some? {
      match s.mutex.value {
        case W(i) => assert WorkerHolds(s.workers[i]) && Enabled(c, s, Worker(i));
        case S(j) => assert false;
        case D => assert Enabled(c, s, Destroy);
      }
    } else if s.destroyer.Joining? && s.destroyer.next < |s.workers| && s.workers[s.destroyer.next] != Exited {
      assert Enabled(c, s, Worker(s.destroyer.next));
    } else {
      assert Enabled(c, s, Destroy);
    }
  }

  /** Drain before teardown: when queue_destroy is reached every accepted job has been completed, and queue_destroy
      finds no job struct to apply a free function to. */
  lemma DrainBeforeTeardown(c: Config, s: State)
    requires Reachable(c, s) && c.disciplined && c.workers > 0 && (s.destroyer.TearingDown? || s.destroyer.Finished?)
    ensures forall i :: 0 <= i < |s.workers| ==> s.workers[i] == Exited
    ensures s.queue == [] && s.stray == []
    ensures multiset(s.completed) == multiset(s.accepted)
  {
    ReachableInv(c, s);
    assert JoinedExited(c, s) && Drained(c, s) && Conserved(s);
    hide Inv, Reachable;
    forall i | 0 <= i < |s.workers| ensures s.workers[i] == Exited {
      assert Joined(s, i);
    }
    assert Gone(s.workers[0]);
    EmptyTally(s.workers, Held);
  }

  /** The locked copy: from any reachable state after bRun has been cleared, a run that can only be continued by
      spurious wakeups has completed tpool_destroy.  With ShutdownTerminates, every run gets there. */
  lemma ShutdownCompletes(c: Config, s: State, steps: seq<Step>, t: State)
    requires Reachable(c, s) && c.disciplined && c.lockedShutdown && !s.bRun
    requires IsRun(c, s, steps, t) && Quiescent(c, t)
    ensures t.destroyer == Finished && |steps| <= Measure(s)
  {
    ReachableInv(c, s);
    hide Reachable, Quiescent, IsRun;
    ShutdownTerminates(c, s, steps, t);
    assert NoMissedShutdown(c, t);
    if t.destroyer != Finished {
      Progress(c, t);
    }
  }

  ghost predicate NoSpuriousWakeup(steps: seq<Step>) {
    forall k :: 0 <= k < |steps| ==> !steps[k].SpuriousWakeup?
  }

  /** Let the threads run, without spurious wakeups, until none of them can move. */
  lemma {:induction false} RunToQuiescence(c: Config, s: State) returns (steps: seq<Step>, t: State)
    requires Inv(c, s) && c.disciplined && !s.bRun
    ensures IsRun(c, s, steps, t) && Quiescent(c, t) && NoSpuriousWakeup(steps)
    decreases Measure(s)
  {
    hide Inv, Next, Enabled, Measure;
    if Quiescent(c, s) {
      return [], s;
    }
    var step :| Enabled(c, s, step) && !step.SpuriousWakeup?;
    StepDecreases(c, s, step);
    InvKept(c, s, step);
    MeasureIsNat(c, Next(c, s, step));
    var rest;
    rest, t := RunToQuiescence(c, Next(c, s, step));
    steps := [step] + rest;
    assert steps[1..] == rest;
  }

  // ----- A worker that misses the broadcast -----

  /** The broadcast is over, and worker i sleeps or is about to. */
  ghost predicate Missed(c: Config, s: State, i: nat) {
    && Inv(c, s) && c.disciplined && !s.bRun && BroadcastSent(s) && s.destroyer != Unlocking
    && i < |s.workers| && Sleepy(s.workers[i])
  }

  lemma MissedKept(c: Config, s: State, i: nat, step: Step)
    requires Missed(c, s, i) && Enabled(c, s, step) && !step.SpuriousWakeup?
    ensures Missed(c, Next(c, s, step), i)
  {
    InvKept(c, s, step);
    RunFlagKept(c, s, step);
    assert JoinedExited(c, s) && Drained(c, s) && RunFlag(s);
    SleeperKept(c, s, i, step);
    hide Inv, Next, Enabled, RunFlag, JoinedExited, Drained;
  }

  lemma SleeperKept(c: Config, s: State, i: nat, step: Step)
    requires JoinedExited(c, s) && RunFlag(s) && AllIdle(s.submitters)
    requires BroadcastSent(s) && s.destroyer != Unlocking && i < |s.workers| && Sleepy(s.workers[i])
    requires Enabled(c, s, step) && !step.SpuriousWakeup?
    ensures var t := Next(c, s, step);
      && BroadcastSent(t) && t.destroyer != Unlocking && i < |t.workers| && Sleepy(t.workers[i])
  {
    assert !Joined(s, i);
  }

  lemma {:induction false} MissedForever(c: Config, s: State, i: nat, steps: seq<Step>, t: State)
    requires Missed(c, s, i) && IsRun(c, s, steps, t) && NoSpuriousWakeup(steps)
    ensures Missed(c, t, i) && t.destroyer != Finished
    decreases |steps|
  {
    if steps == [] {
      assert JoinedExited(c, s) && (s.destroyer == Finished ==> Joined(s, i));
    } else {
      hide Missed, Next, Enabled;
      MissedKept(c, s, i, steps[0]);
      assert forall k :: 0 <= k < |steps[1..]| ==> steps[1..][k] == steps[k + 1];
      MissedForever(c, Next(c, s, steps[0]), i, steps[1..], t);
    }
  }

  /** Either copy, once the destroyer is joining: every run that stops has completed tpool_destroy if and only if no
      worker is asleep or between its test of bRun and its wait. */
  lemma JoinCompletesIff(c: Config, s: State)
    requires Reachable(c, s) && c.disciplined && s.destroyer.Joining?
    ensures (forall steps, t :: IsRun(c, s, steps, t) && Quiescent(c, t) ==> t.destroyer == Finished) <==> NoneSleepy(s)
  {
    ReachableInv(c, s);
    FlagCleared(c, s);
    if NoneSleepy(s) {
      forall steps, t | IsRun(c, s, steps, t) && Quiescent(c, t) ensures t.destroyer == Finished {
        NoneSleepyAlong(c, s, steps, t);
        if t.destroyer != Finished {
          Progress(c, t);
        }
      }
    } else {
      hide IsRun, Quiescent, Inv;
      var i :| 0 <= i < |s.workers| && Sleepy(s.workers[i]);
      var steps, t := RunToQuiescence(c, s);
      MissedForever(c, s, i, steps, t);
    }
  }

  lemma {:induction false} NoneSleepyAlong(c: Config, s: State, steps: seq<Step>, t: State)
    requires Inv(c, s) && c.disciplined && !s.bRun && NoneSleepy(s) && IsRun(c, s, steps, t)
    ensures Inv(c, t) && !t.bRun && NoneSleepy(t)
    decreases |steps|
  {
    if steps != [] {
      NoneSleepyKept(c, s, steps[0]);
      InvKept(c, s, steps[0]);
      StepDecreases(c, s, steps[0]);
      hide Inv, Next, Enabled, NoneSleepy;
      NoneSleepyAlong(c, Next(c, s, steps[0]), steps[1..], t);
    }
  }

  lemma NoneSleepyKept(c: Config, s: State, step: Step)
    requires !s.bRun && NoneSleepy(s) && Enabled(c, s, step)
    ensures NoneSleepy(Next(c, s, step))
  {
  }

  /** The unlocked copy can miss the broadcast: worker 0 finds bRun set, then the destroyer clears it and broadcasts,
      then the worker goes to sleep. */
  lemma UnlockedCanMiss(c: Config) returns (s: State)
    requires !c.lockedShutdown && c.disciplined && c.workers > 0
    ensures Reachable(c, s) && s.destroyer == Joining(0)
    ensures |s.workers| > 0 && Sleepy(s.workers[0])
  {
    var s0 := Init(c);
    var s1 := Next(c, s0, Worker(0));
    var s2 := Next(c, s1, Worker(0));
    var s3 := Next(c, s2, Destroy);
    var s4 := Next(c, s3, Destroy);
    s := Next(c, s4, Destroy);
    assert s2.workers[0] == GoingToSleep;
    StepsFromInit(c, [s0, s1, s2, s3, s4, s], [Worker(0), Worker(0), Destroy, Destroy, Destroy]);
  }

  lemma FlagCleared(c: Config, s: State)
    requires Inv(c, s) && s.destroyer.Joining?
    ensures !s.bRun
  {
    assert RunFlag(s);
  }

  /** What the two commented-out lines of the ChatRoom copy decide.  Every pool whose clients have stopped and whose
      threads can no longer move has completed its shutdown, if and only if the broadcast is sent under the mutex, or
      there is no worker to miss it. */
  lemma LockDecidesShutdown(c: Config)
    requires c.disciplined
    ensures (forall t :: Reachable(c, t) && !t.bRun && Quiescent(c, t) ==> t.destroyer == Finished) <==>
      c.lockedShutdown || c.workers == 0
  {
    if c.lockedShutdown {
      forall t | Reachable(c, t) && !t.bRun && Quiescent(c, t) ensures t.destroyer == Finished {
        assert IsRun(c, t, [], t);
        ShutdownCompletes(c, t, [], t);
      }
    } else if c.workers == 0 {
      forall t | Reachable(c, t) && !t.bRun && Quiescent(c, t) ensures t.destroyer == Finished {
        ReachableInv(c, t);
        assert JoinedExited(c, t);
        hide Inv, Quiescent, Reachable;
        if t.destroyer != Finished {
          Progress(c, t);
        }
      }
    } else {
      hide Quiescent, IsRun, Inv, Reachable;
      var s := UnlockedCanMiss(c);
      ReachableInv(c, s);
      FlagCleared(c, s);
      var steps, t := RunToQuiescence(c, s);
      ReachableOn(c, s, steps, t);
      MissedForever(c, s, 0, steps, t);
    }
  }
}
