/** Every call of tpool_add_job becomes exactly one accepted job, and every accepted job is executed before the pool
    falls idle. */
module PoolSubmissions {
  import opened Options
  import opened PoolDrain
  import opened PoolSafety
  import opened PoolShutdown
  import opened ThreadPool

  /** The calls of tpool_add_job in a run whose argument has, or has not, a free function. */
  function Submissions(steps: seq<Step>, hasFree: bool): nat {
    if steps == [] then 0
    else (if steps[0].Begin? && steps[0].hasFree == hasFree then 1 else 0) + Submissions(steps[1..], hasFree)
  }

  function Flagged(jobs: seq<Job>, hasFree: bool): nat {
    if jobs == [] then 0
    else Flagged(jobs[..|jobs| - 1], hasFree) + if jobs[|jobs| - 1].hasFree == hasFree then 1 else 0
  }

  /** The submitters before their enqueue. */
  ghost function Pending(submitters: seq<SubmitterPc>, hasFree: bool): nat {
    multiset(submitters)[Wanting(hasFree)] + multiset(submitters)[Adding(hasFree)]
  }

  /** In every run of either copy the submissions are the accepted jobs and those on their way to the queue. */
  lemma EachSubmissionAccepted(c: Config, steps: seq<Step>, s: State, hasFree: bool)
    requires IsRun(c, Init(c), steps, s)
    ensures Submissions(steps, hasFree) == Flagged(s.accepted, hasFree) + Pending(s.submitters, hasFree)
  {
    NonePending(Init(c).submitters, hasFree);
    hide IsRun, Init, Pending;
    AcceptedAlong(c, Init(c), steps, s, hasFree);
    assert Init(c).accepted == [];
  }

  lemma {:induction false} AcceptedAlong(c: Config, s: State, steps: seq<Step>, t: State, hasFree: bool)
    requires IsRun(c, s, steps, t)
    ensures Flagged(t.accepted, hasFree) + Pending(t.submitters, hasFree) ==
      Flagged(s.accepted, hasFree) + Pending(s.submitters, hasFree) + Submissions(steps, hasFree)
    decreases |steps|
  {
    if steps != [] {
      AcceptedStep(c, s, steps[0], hasFree);
      hide Enabled, Next, Pending, Flagged;
      AcceptedAlong(c, Next(c, s, steps[0]), steps[1..], t, hasFree);
    }
  }

  lemma AcceptedStep(c: Config, s: State, step: Step, hasFree: bool)
    requires Enabled(c, s, step)
    ensures var t := Next(c, s, step);
      Flagged(t.accepted, hasFree) + Pending(t.submitters, hasFree) ==
      Flagged(s.accepted, hasFree) + Pending(s.submitters, hasFree)
        + if step.Begin? && step.hasFree == hasFree then 1 else 0
  {
    hide WorkerStep, DestroyStep, SubmitStep, Flagged;
    match step {
      case Worker(i) => WorkerSubmitsNothing(s, i);
      case SpuriousWakeup(i) =>
      case Begin(j, f) => PendingUpdate(s.submitters, j, Wanting(f), hasFree);
      case Submit(j) => SubmitAccepts(s, j, hasFree);
      case Destroy => DestroyerSubmitsNothing(c, s);
    }
  }

  lemma WorkerSubmitsNothing(s: State, i: nat)
    requires WorkerEnabled(s, i)
    ensures WorkerStep(s, i).accepted == s.accepted && WorkerStep(s, i).submitters == s.submitters
  {
  }

  lemma DestroyerSubmitsNothing(c: Config, s: State)
    requires DestroyEnabled(c, s)
    ensures DestroyStep(c, s).accepted == s.accepted && DestroyStep(c, s).submitters == s.submitters
  {
  }

  lemma SubmitAccepts(s: State, j: nat, hasFree: bool)
    requires SubmitEnabled(s, j)
    ensures var t := SubmitStep(s, j);
      Flagged(t.accepted, hasFree) + Pending(t.submitters, hasFree) ==
      Flagged(s.accepted, hasFree) + Pending(s.submitters, hasFree)
  {
    hide Flagged, Pending;
    var pc, t := s.submitters[j], SubmitStep(s, j);
    assert t.submitters == s.submitters[j := t.submitters[j]];
    PendingUpdate(s.submitters, j, t.submitters[j], hasFree);
    if pc.Adding? {
      FlaggedConcat(s.accepted, [Job(|s.accepted|, pc.hasFree)], hasFree);
    }
  }

  function OnItsWay(pc: SubmitterPc, hasFree: bool): nat {
    if pc == Wanting(hasFree) || pc == Adding(hasFree) then 1 else 0
  }

  lemma PendingUpdate(submitters: seq<SubmitterPc>, j: nat, pc: SubmitterPc, hasFree: bool)
    requires j < |submitters|
    ensures Pending(submitters[j := pc], hasFree) ==
      Pending(submitters, hasFree) - OnItsWay(submitters[j], hasFree) + OnItsWay(pc, hasFree)
  {
    assert multiset(submitters[j := pc]) == multiset(submitters) - multiset{submitters[j]} + multiset{pc};
    assert submitters[j] in multiset(submitters);
  }

  lemma {:induction false} FlaggedConcat(a: seq<Job>, b: seq<Job>, hasFree: bool)
    ensures Flagged(a + b, hasFree) == Flagged(a, hasFree) + Flagged(b, hasFree)
    ensures |b| == 1 ==> Flagged(b, hasFree) == if b[0].hasFree == hasFree then 1 else 0
    decreases |b|
  {
    if b == [] {
      assert a + b == a;
    } else {
      var front := b[..|b| - 1];
      assert (a + b)[..|a + b| - 1] == a + front;
      FlaggedConcat(a, front, hasFree);
    }
  }

  lemma {:induction false} FlaggedSame(a: seq<Job>, b: seq<Job>, hasFree: bool)
    requires multiset(a) == multiset(b)
    ensures Flagged(a, hasFree) == Flagged(b, hasFree)
    decreases |a|
  {
    if a == [] {
      assert |b| == |multiset(b)|;
    } else {
      var front, x := a[..|a| - 1], a[|a| - 1];
      var before, after := Around(a, b);
      FlaggedSame(front, before + after, hasFree);
      hide Flagged;
      FlaggedConcat(front, [x], hasFree);
      FlaggedConcat(before + [x], after, hasFree);
      FlaggedConcat(before, [x], hasFree);
      FlaggedConcat(before, after, hasFree);
    }
  }

  /** What is before and after the last element of a in its permutation b. */
  lemma Around<T>(a: seq<T>, b: seq<T>) returns (before: seq<T>, after: seq<T>)
    requires a != [] && multiset(a) == multiset(b)
    ensures a == a[..|a| - 1] + [a[|a| - 1]] && b == before + [a[|a| - 1]] + after
    ensures multiset(a[..|a| - 1]) == multiset(before + after)
  {
    var front, x := a[..|a| - 1], a[|a| - 1];
    assert a == front + [x];
    assert x in multiset(b);
    var k :| 0 <= k < |b| && b[k] == x;
    before, after := b[..k], b[k + 1..];
    assert b == before + [x] + after;
    assert multiset(front) == multiset(a) - multiset{x};
    assert multiset(before + after) == multiset(b) - multiset{x};
  }

  lemma NonePending(submitters: seq<SubmitterPc>, hasFree: bool)
    requires AllIdle(submitters)
    ensures Pending(submitters, hasFree) == 0
  {
    assert Wanting(hasFree) !in submitters && Adding(hasFree) !in submitters;
    assert Wanting(hasFree) !in multiset(submitters) && Adding(hasFree) !in multiset(submitters);
  }

  /** With clients that have stopped and a worker, every call of tpool_add_job has been executed when tpool_destroy
      returns. */
  lemma EachSubmissionCompleted(c: Config, steps: seq<Step>, s: State, hasFree: bool)
    requires IsRun(c, Init(c), steps, s) && c.disciplined && c.workers > 0 && s.destroyer == Finished
    ensures Flagged(s.completed, hasFree) == Submissions(steps, hasFree)
  {
    EachSubmissionAccepted(c, steps, s, hasFree);
    DrainBeforeTeardown(c, s);
    ReachableInv(c, s);
    assert Drained(c, s);
    hide Inv, Reachable, IsRun, Pending;
    NonePending(s.submitters, hasFree);
    FlaggedSame(s.completed, s.accepted, hasFree);
  }

  /** No worker and no submitter can take a step by itself. */
  ghost predicate Idling(s: State) {
    && (forall i :: 0 <= i < |s.workers| ==> !WorkerEnabled(s, i))
    && (forall j :: 0 <= j < |s.submitters| ==> !SubmitEnabled(s, j))
  }

  /** Before the shutdown a pool with a worker is idle if and only if all workers sleep and no submitter is on its way,
      and then every submission has been executed. */
  lemma IdleIff(c: Config, steps: seq<Step>, s: State)
    requires IsRun(c, Init(c), steps, s) && c.workers > 0 && s.destroyer == NotStarted
    ensures Idling(s) <==> AllIdle(s.submitters) && forall i :: 0 <= i < |s.workers| ==> s.workers[i] == Asleep
    ensures Idling(s) ==> s.queue == [] && multiset(s.completed) == multiset(s.accepted)
    ensures Idling(s) ==> forall hasFree :: Flagged(s.completed, hasFree) == Submissions(steps, hasFree)
  {
    assert Reachable(c, s);
    ReachableInv(c, s);
    hide Reachable, IsRun;
    if Idling(s) {
      IdleThreads(c, s);
      IdleJobs(c, s);
      hide Inv, Idling;
      forall hasFree ensures Flagged(s.completed, hasFree) == Submissions(steps, hasFree) {
        EachSubmissionAccepted(c, steps, s, hasFree);
        NonePending(s.submitters, hasFree);
        FlaggedSame(s.completed, s.accepted, hasFree);
      }
    }
  }

  lemma OwnerMoves(s: State)
    requires MutualExclusion(s) && s.destroyer == NotStarted && s.mutex.Some?
    ensures !Idling(s)
  {
    match s.mutex.value {
      case W(i) => assert WorkerEnabled(s, i);
      case S(j) => assert SubmitEnabled(s, j);
      case D => assert false;
    }
  }

  lemma IdleThreads(c: Config, s: State)
    requires Inv(c, s) && s.destroyer == NotStarted && Idling(s)
    ensures AllIdle(s.submitters) && forall i :: 0 <= i < |s.workers| ==> s.workers[i] == Asleep
  {
    assert MutualExclusion(s) && RunFlag(s) && Drained(c, s);
    hide Inv;
    if s.mutex.Some? {
      OwnerMoves(s);
    }
    forall i | 0 <= i < |s.workers| ensures s.workers[i] == Asleep {
      assert !WorkerEnabled(s, i);
      assert Gone(s.workers[i]) ==> !s.bRun;
    }
    forall j | 0 <= j < |s.submitters| ensures s.submitters[j] == Idle {
      assert !SubmitEnabled(s, j);
    }
  }

  lemma IdleJobs(c: Config, s: State)
    requires Inv(c, s) && s.destroyer == NotStarted && c.workers > 0
    requires AllIdle(s.submitters) && forall i :: 0 <= i < |s.workers| ==> s.workers[i] == Asleep
    ensures s.queue == [] && multiset(s.completed) == multiset(s.accepted)
  {
    assert NoLostWakeup(s) && Conserved(s) && Fifo(s) && JoinedExited(c, s);
    hide Inv;
    assert s.workers[0] == Asleep;
    EmptyTally(s.workers, Held);
  }
}
