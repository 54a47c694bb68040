/** What every step of the thread pool keeps, for both copies of tpool.c and any clients. */
module PoolSafety {
  import opened Options
  import opened ThreadPool

  // ----- Mutual exclusion -----

  predicate WorkerHolds(pc: WorkerPc) {
    pc.Testing? || pc.GoingToSleep? || pc.Deciding? || pc.Leaving? || pc.Taking? || pc.Releasing?
  }

  predicate SubmitterHolds(pc: SubmitterPc) {
    pc.Adding? || pc.Added?
  }

  predicate DestroyerHolds(pc: DestroyerPc) {
    pc.Holding? || pc.Unlocking?
  }

  /** A thread is inside its critical section exactly when it owns the mutex. */
  ghost predicate MutualExclusion(s: State) {
    && (forall i :: 0 <= i < |s.workers| ==> (WorkerHolds(s.workers[i]) <==> s.mutex == Some(W(i))))
    && (forall j :: 0 <= j < |s.submitters| ==> (SubmitterHolds(s.submitters[j]) <==> s.mutex == Some(S(j))))
    && (DestroyerHolds(s.destroyer) <==> s.mutex == Some(D))
    && (s.mutex.Some? && s.mutex.value.W? ==> s.mutex.value.i < |s.workers|)
    && (s.mutex.Some? && s.mutex.value.S? ==> s.mutex.value.j < |s.submitters|)
  }

  lemma MutualExclusionKept(c: Config, s: State, step: Step)
    requires MutualExclusion(s) && Enabled(c, s, step)
    ensures MutualExclusion(Next(c, s, step))
  {
    hide WorkerStep, SubmitStep, DestroyStep;
    match step {
      case Worker(i) => WorkerKeepsMutualExclusion(s, i);
      case SpuriousWakeup(i) =>
      case Begin(j, f) =>
      case Submit(j) => SubmitterKeepsMutualExclusion(s, j);
      case Destroy => DestroyerKeepsMutualExclusion(c, s);
    }
  }

  lemma WorkerKeepsMutualExclusion(s: State, i: nat)
    requires MutualExclusion(s) && WorkerEnabled(s, i)
    ensures MutualExclusion(WorkerStep(s, i))
  {
    var t := WorkerStep(s, i);
    assert forall k :: 0 <= k < |t.workers| && k != i ==> t.workers[k] == s.workers[k];
    assert t.mutex ==
      if WorkerHolds(t.workers[i]) then Some(W(i)) else if WorkerHolds(s.workers[i]) then None else s.mutex;
    hide WorkerStep;
  }

  lemma SubmitterKeepsMutualExclusion(s: State, j: nat)
    requires MutualExclusion(s) && SubmitEnabled(s, j)
    ensures MutualExclusion(SubmitStep(s, j))
  {
  }

  lemma DestroyerKeepsMutualExclusion(c: Config, s: State)
    requires MutualExclusion(s) && DestroyEnabled(c, s)
    ensures MutualExclusion(DestroyStep(c, s))
  {
  }

  // ----- Where the threads can be -----

  /** `bRun` is true until the destroyer clears it, and never becomes true again. */
  ghost predicate RunFlag(s: State) {
    s.bRun <==> s.destroyer.NotStarted? || s.destroyer.Clearing?
  }

  lemma RunFlagKept(c: Config, s: State, step: Step)
    requires RunFlag(s) && Enabled(c, s, step)
    ensures RunFlag(Next(c, s, step))
    ensures Next(c, s, step).bRun ==> s.bRun
  {
  }

  /** The lock protects what a worker has seen of the queue; of the flag it has seen only that it was cleared. */
  ghost predicate WorkerSees(s: State, pc: WorkerPc) {
    match pc
    case GoingToSleep => s.queue == []
    case Deciding => s.queue != [] || !s.bRun
    case Taking => s.queue != []
    case Leaving => s.queue == [] && !s.bRun
    case Releasing(job) => job.Some?
    case Running(job) => job.Some?
    case _ => true
  }

  ghost predicate WorkersSee(s: State) {
    forall i :: 0 <= i < |s.workers| ==> WorkerSees(s, s.workers[i])
  }

  lemma WorkersSeeKept(c: Config, s: State, step: Step)
    requires MutualExclusion(s) && RunFlag(s) && WorkersSee(s) && JoinedExited(c, s) && Enabled(c, s, step)
    ensures WorkersSee(Next(c, s, step))
  {
    hide WorkerStep, SubmitStep, DestroyStep;
    match step {
      case Worker(i) => WorkerKeepsSeen(s, i);
      case SpuriousWakeup(i) =>
      case Begin(j, f) =>
      case Submit(j) => SubmitterKeepsSeen(s, j);
      case Destroy => DestroyerKeepsSeen(c, s);
    }
  }

  lemma WorkerKeepsSeen(s: State, i: nat)
    requires MutualExclusion(s) && WorkersSee(s) && WorkerEnabled(s, i)
    ensures WorkersSee(WorkerStep(s, i))
  {
    var t := WorkerStep(s, i);
    forall k | 0 <= k < |t.workers| ensures WorkerSees(t, t.workers[k]) {
      assert WorkerSees(s, s.workers[k]);
      assert WorkerHolds(s.workers[k]) <==> s.mutex == Some(W(k));
    }
  }

  lemma SubmitterKeepsSeen(s: State, j: nat)
    requires WorkersSee(s) && MutualExclusion(s) && SubmitEnabled(s, j)
    ensures WorkersSee(SubmitStep(s, j))
  {
    var t := SubmitStep(s, j);
    forall k | 0 <= k < |t.workers| ensures WorkerSees(t, t.workers[k]) {
      assert WorkerSees(s, s.workers[k]);
      assert WorkerHolds(s.workers[k]) <==> s.mutex == Some(W(k));
    }
  }

  lemma DestroyerKeepsSeen(c: Config, s: State)
    requires RunFlag(s) && WorkersSee(s) && JoinedExited(c, s) && DestroyEnabled(c, s)
    ensures WorkersSee(DestroyStep(c, s))
  {
    var t := DestroyStep(c, s);
    forall k | 0 <= k < |t.workers| ensures WorkerSees(t, t.workers[k]) {
      assert WorkerSees(s, s.workers[k]);
    }
  }

  /** The destroyer takes the path of its copy of tpool.c, and has seen the joined workers exit. */
  ghost predicate JoinedExited(c: Config, s: State) {
    && |s.workers| == c.workers && |s.submitters| == c.submitters
    && (s.destroyer.Locking? || s.destroyer.Holding? || s.destroyer.Unlocking? ==> c.lockedShutdown)
    && (s.destroyer.Broadcasting? ==> !c.lockedShutdown)
    && (s.destroyer.Joining? ==> s.destroyer.next <= |s.workers|)
    && (forall i :: 0 <= i < |s.workers| && Joined(s, i) ==> s.workers[i] == Exited)
  }

  predicate Joined(s: State, i: nat) {
    s.destroyer.TearingDown? || s.destroyer.Finished? || (s.destroyer.Joining? && i < s.destroyer.next)
  }

  lemma JoinedExitedKept(c: Config, s: State, step: Step)
    requires JoinedExited(c, s) && Enabled(c, s, step)
    ensures JoinedExited(c, Next(c, s, step))
  {
    var t := Next(c, s, step);
    forall k | 0 <= k < |t.workers| && Joined(t, k) ensures t.workers[k] == Exited {
      assert Joined(s, k) ==> s.workers[k] == Exited;
    }
  }

  // ----- The queue is a FIFO, and job structs are distinct -----

  ghost predicate Fifo(s: State) {
    && (s.destroyer != Finished ==> s.accepted == s.taken + s.queue)
    && s.taken <= s.accepted
    && (forall k :: 0 <= k < |s.accepted| ==> s.accepted[k].id == k)
  }

  lemma FifoKept(c: Config, s: State, step: Step)
    requires Fifo(s) && JoinedExited(c, s) && Enabled(c, s, step)
    ensures Fifo(Next(c, s, step))
  {
    hide Next, WorkerStep, SubmitStep, DestroyStep;
    QueueEffect(c, s, step);
  }

  lemma QueueEffect(c: Config, s: State, step: Step)
    requires JoinedExited(c, s) && Enabled(c, s, step)
    ensures var t := Next(c, s, step);
      || (t.accepted == s.accepted && t.taken == s.taken && (t.queue == s.queue || t.destroyer.Finished?) &&
          (s.destroyer.Finished? ==> t.destroyer.Finished?))
      || (t.accepted == s.accepted && s.queue != [] && t.taken == s.taken + [s.queue[0]] && t.queue == s.queue[1..] &&
          !s.destroyer.Finished?)
      || (t.taken == s.taken && !s.destroyer.Finished? &&
          (exists f ::
             t.accepted == s.accepted + [Job(|s.accepted|, f)] && t.queue == s.queue + [Job(|s.accepted|, f)]))
  {
    match step {
      case Worker(i) =>
        assert s.destroyer.Finished? ==> Joined(s, i);
      case Submit(j) =>
        if s.submitters[j].Adding? {
          var f := s.submitters[j].hasFree;
          assert SubmitStep(s, j).accepted == s.accepted + [Job(|s.accepted|, f)];
        }
      case _ =>
    }
  }

  // ----- Every accepted job is queued, held by one worker or completed -----

  /** The union of f over the workers. */
  ghost function Tally(ws: seq<WorkerPc>, f: WorkerPc -> multiset<Job>): multiset<Job> {
    if ws == [] then multiset{} else Tally(ws[..|ws| - 1], f) + f(ws[|ws| - 1])
  }

  lemma {:induction false} TallyUpdate(ws: seq<WorkerPc>, i: nat, pc: WorkerPc, f: WorkerPc -> multiset<Job>)
    requires i < |ws|
    ensures Tally(ws[i := pc], f) + f(ws[i]) == Tally(ws, f) + f(pc)
  {
    var front := ws[..|ws| - 1];
    if i < |front| {
      TallyUpdate(front, i, pc, f);
      assert ws[i := pc][..|ws| - 1] == front[i := pc];
      var last := f(ws[|ws| - 1]);
      assert Tally(ws[i := pc], f) + f(ws[i]) == (Tally(front[i := pc], f) + f(front[i])) + last;
      assert Tally(ws, f) + f(pc) == (Tally(front, f) + f(pc)) + last;
    } else {
      assert ws[i := pc][..|ws| - 1] == front;
    }
  }

  lemma {:induction false} TallySame(ws: seq<WorkerPc>, vs: seq<WorkerPc>, f: WorkerPc -> multiset<Job>)
    requires |ws| == |vs| && forall i :: 0 <= i < |ws| ==> f(ws[i]) == f(vs[i])
    ensures Tally(ws, f) == Tally(vs, f)
  {
    if ws != [] {
      TallySame(ws[..|ws| - 1], vs[..|vs| - 1], f);
    }
  }

  function AsMultiset(job: Option<Job>): multiset<Job> {
    if job.Some? then multiset{job.value} else multiset{}
  }

  /** The job a worker has dequeued and not completed. */
  function Held(pc: WorkerPc): multiset<Job> {
    if pc.Releasing? || pc.Running? then AsMultiset(pc.taken) else Called(pc)
  }

  /** The job whose function a worker has called, while the argument is still to be freed. */
  function Called(pc: WorkerPc): multiset<Job> {
    if pc.Freeing? then multiset{pc.job} else multiset{}
  }

  /** Only the workers' own steps touch jobs that have left the queue. */
  lemma OtherThreads(c: Config, s: State, step: Step)
    requires Enabled(c, s, step)
    ensures !step.Worker? ==>
      var t := Next(c, s, step); t.taken == s.taken && t.completed == s.completed && t.log == s.log
    ensures step.Worker? ==> WorkerEnabled(s, step.i) && Next(c, s, step) == WorkerStep(s, step.i)
    ensures |Next(c, s, step).workers| == |s.workers|
  {
  }

  ghost predicate Conserved(s: State) {
    multiset(s.taken) == Tally(s.workers, Held) + multiset(s.completed)
  }

  lemma ConservedKept(c: Config, s: State, step: Step)
    requires Conserved(s) && Enabled(c, s, step)
    ensures Conserved(Next(c, s, step))
  {
    assert Held(Asleep) == Held(Awake);
    OtherThreads(c, s, step);
    WorkerTally(c, s, step, Held);
    hide Tally, Held, Enabled, Next, WorkerStep;
    if step.Worker? {
      WorkerConserves(s, step.i);
      var t := WorkerStep(s, step.i);
      Rebalance(multiset(s.taken), Tally(s.workers, Held), multiset(s.completed), Held(s.workers[step.i]),
        multiset(t.taken), Tally(t.workers, Held), multiset(t.completed), Held(t.workers[step.i]));
    }
  }

  /** If the sum a == b + d holds before, h of b is replaced by h', and a and d change to match, it holds after. */
  lemma Rebalance(a: multiset<Job>, b: multiset<Job>, d: multiset<Job>, h: multiset<Job>,
                  a': multiset<Job>, b': multiset<Job>, d': multiset<Job>, h': multiset<Job>)
    requires a == b + d && b' + h == b + h' && a' + (h + d) == a + (h' + d')
    ensures a' == b' + d'
  {
    forall job: Job ensures a'[job] == b'[job] + d'[job] {
      assert a[job] == b[job] + d[job];
      assert (b' + h)[job] == (b + h')[job];
      assert (a' + (h + d))[job] == (a + (h' + d'))[job];
    }
  }

  lemma WorkerConserves(s: State, i: nat)
    requires WorkerEnabled(s, i)
    ensures var t := WorkerStep(s, i);
      multiset(t.taken) + (Held(s.workers[i]) + multiset(s.completed))
      == multiset(s.taken) + (Held(t.workers[i]) + multiset(t.completed))
  {
    hide WorkerStep, Held;
    if s.workers[i] == Taking && s.queue != [] {
      TakeConserves(s, i);
    } else if s.workers[i].Freeing? {
      FreeConserves(s, i);
    } else {
      OtherSteps(s, i);
    }
  }

  lemma OtherSteps(s: State, i: nat)
    requires WorkerEnabled(s, i) && !s.workers[i].Freeing? && (s.workers[i].Taking? ==> s.queue == [])
    ensures var t := WorkerStep(s, i);
      && t.taken == s.taken && t.completed == s.completed && Held(t.workers[i]) == Held(s.workers[i])
      && (!(s.workers[i].Running? && s.workers[i].taken.Some?) ==>
           t.log == s.log && Called(t.workers[i]) == Called(s.workers[i]))
  {
    hide AsMultiset, Held, Called;
    var pc, pc' := s.workers[i], WorkerStep(s, i).workers[i];
    if pc.Releasing? {
      assert pc' == Running(pc.taken);
    } else if pc.Running? {
      assert pc' == if pc.taken.Some? then Freeing(pc.taken.value) else Starting;
    } else {
      assert !pc'.Freeing? && !pc'.Running? && (pc'.Releasing? ==> pc'.taken == None);
    }
    SamePc(pc, pc');
  }

  lemma SamePc(pc: WorkerPc, pc': WorkerPc)
    requires !pc.Freeing?
    requires pc.Releasing? ==> pc' == Running(pc.taken)
    requires pc.Running? ==> pc' == if pc.taken.Some? then Freeing(pc.taken.value) else Starting
    requires !pc.Releasing? && !pc.Running? ==> !pc'.Freeing? && !pc'.Running? && (pc'.Releasing? ==> pc'.taken == None)
    ensures Held(pc') == Held(pc)
    ensures !pc'.Freeing? ==> Called(pc') == Called(pc)
  {
  }

  lemma TakeConserves(s: State, i: nat)
    requires WorkerEnabled(s, i) && s.workers[i] == Taking && s.queue != []
    ensures var t := WorkerStep(s, i);
      && multiset(t.taken) == multiset(s.taken) + Held(t.workers[i])
      && t.completed == s.completed && Held(s.workers[i]) == multiset{}
  {
    var t, job := WorkerStep(s, i), s.queue[0];
    assert t.taken == s.taken + [job] && t.workers[i] == Releasing(Some(job));
    hide WorkerStep;
  }

  lemma FreeConserves(s: State, i: nat)
    requires WorkerEnabled(s, i) && s.workers[i].Freeing?
    ensures var t := WorkerStep(s, i);
      && multiset(t.completed) == multiset(s.completed) + Held(s.workers[i])
      && t.taken == s.taken && Held(t.workers[i]) == multiset{}
  {
    var t, job := WorkerStep(s, i), s.workers[i].job;
    assert t.completed == s.completed + [job] && t.workers[i] == Starting && t.taken == s.taken;
    hide WorkerStep;
  }

  /** How a step changes a tally that does not tell sleeping workers from woken ones. */
  lemma WorkerTally(c: Config, s: State, step: Step, f: WorkerPc -> multiset<Job>)
    requires Enabled(c, s, step) && f(Asleep) == f(Awake)
    ensures step.Worker? ==>
      Tally(Next(c, s, step).workers, f) + f(s.workers[step.i]) ==
      Tally(s.workers, f) + f(Next(c, s, step).workers[step.i])
    ensures !step.Worker? ==> Tally(Next(c, s, step).workers, f) == Tally(s.workers, f)
  {
    var t := Next(c, s, step);
    hide Tally, SubmitStep, DestroyStep;
    if step.Worker? {
      assert t.workers == s.workers[step.i := t.workers[step.i]];
      TallyUpdate(s.workers, step.i, t.workers[step.i], f);
    } else {
      OthersOnlyWake(c, s, step);
      TallySame(s.workers, t.workers, f);
    }
  }

  lemma OthersOnlyWake(c: Config, s: State, step: Step)
    requires Enabled(c, s, step) && !step.Worker?
    ensures var t := Next(c, s, step);
      && |t.workers| == |s.workers|
      && forall i :: 0 <= i < |s.workers| ==>
           t.workers[i] == s.workers[i] || (s.workers[i].Asleep? && t.workers[i].Awake?)
  {
    hide WorkerStep;
  }

  // ----- Functions are called once, and free functions once afterwards -----

  ghost predicate Logged(s: State, job: Job) {
    && multiset(s.log)[Ran(job)] == Tally(s.workers, Called)[job] + multiset(s.completed)[job]
    && multiset(s.log)[Freed(job)] == if job.hasFree then multiset(s.completed)[job] else 0
  }

  lemma LoggedKept(c: Config, s: State, step: Step, job: Job)
    requires Logged(s, job) && Enabled(c, s, step)
    ensures Logged(Next(c, s, step), job)
  {
    assert Called(Asleep) == Called(Awake);
    OtherThreads(c, s, step);
    WorkerTally(c, s, step, Called);
    hide Tally, Called, Enabled, Next, WorkerStep;
    if step.Worker? {
      var t := WorkerStep(s, step.i);
      WorkerLogs(s, step.i, job);
      SameSums(Tally(t.workers, Called), Called(s.workers[step.i]),
               Tally(s.workers, Called), Called(t.workers[step.i]), job);
    }
  }

  lemma SameSums(a: multiset<Job>, b: multiset<Job>, a': multiset<Job>, b': multiset<Job>, job: Job)
    requires a + b == a' + b'
    ensures a[job] + b[job] == a'[job] + b'[job]
  {
    assert (a + b)[job] == (a' + b')[job];
  }

  lemma WorkerLogs(s: State, i: nat, job: Job)
    requires WorkerEnabled(s, i)
    ensures var t := WorkerStep(s, i);
      && multiset(t.log)[Ran(job)] + Called(s.workers[i])[job] + multiset(s.completed)[job]
         == multiset(s.log)[Ran(job)] + Called(t.workers[i])[job] + multiset(t.completed)[job]
      && multiset(t.log)[Freed(job)] + (if job.hasFree then multiset(s.completed)[job] else 0)
         == multiset(s.log)[Freed(job)] + if job.hasFree then multiset(t.completed)[job] else 0
  {
    hide WorkerStep;
    if s.workers[i].Running? && s.workers[i].taken.Some? {
      RunLogs(s, i);
    } else if s.workers[i].Freeing? {
      FreeLogs(s, i);
    } else if s.workers[i] == Taking && s.queue != [] {
      TakeLogs(s, i);
    } else {
      OtherSteps(s, i);
    }
  }

  lemma TakeLogs(s: State, i: nat)
    requires WorkerEnabled(s, i) && s.workers[i].Taking?
    ensures var t := WorkerStep(s, i);
      t.log == s.log && t.completed == s.completed && Called(t.workers[i]) == Called(Taking)
  {
  }

  lemma RunLogs(s: State, i: nat)
    requires WorkerEnabled(s, i) && s.workers[i].Running? && s.workers[i].taken.Some?
    ensures var t, job := WorkerStep(s, i), s.workers[i].taken.value;
      && multiset(t.log) == multiset(s.log) + multiset{Ran(job)}
      && t.completed == s.completed && t.workers[i] == Freeing(job)
  {
    var t, job := WorkerStep(s, i), s.workers[i].taken.value;
    assert t.log == s.log + [Ran(job)];
  }

  lemma FreeLogs(s: State, i: nat)
    requires WorkerEnabled(s, i) && s.workers[i].Freeing?
    ensures var t, job := WorkerStep(s, i), s.workers[i].job;
      && multiset(t.log) == multiset(s.log) + (if job.hasFree then multiset{Freed(job)} else multiset{})
      && multiset(t.completed) == multiset(s.completed) + multiset{job} && t.workers[i] == Starting
  {
    var t, job := WorkerStep(s, i), s.workers[i].job;
    assert t.log == s.log + (if job.hasFree then [Freed(job)] else []) && t.completed == s.completed + [job];
    assert t.workers[i] == Starting;
    hide WorkerStep;
  }

  /** An argument is freed only after the job's function has been called. */
  ghost predicate FreedAfterRun(s: State) {
    && (forall k :: 0 <= k < |s.log| && s.log[k].Freed? ==> Ran(s.log[k].job) in s.log[..k])
    && (forall i :: 0 <= i < |s.workers| && s.workers[i].Freeing? ==> Ran(s.workers[i].job) in s.log)
  }

  lemma LogEffect(c: Config, s: State, step: Step)
    requires Enabled(c, s, step)
    ensures var t := Next(c, s, step);
      && |t.workers| == |s.workers|
      && (t.log == s.log || (exists e :: t.log == s.log + [e] && (e.Freed? ==> Freeing(e.job) in s.workers)))
      && (forall i :: 0 <= i < |t.workers| && t.workers[i].Freeing? ==>
           t.workers[i] == s.workers[i] || Ran(t.workers[i].job) in t.log)
  {
    if step.Worker? {
      var pc, t := s.workers[step.i], WorkerStep(s, step.i);
      if pc.Freeing? && pc.job.hasFree {
        assert t.log == s.log + [Freed(pc.job)];
      } else if pc.Running? && pc.taken.Some? {
        assert t.log == s.log + [Ran(pc.taken.value)];
      } else {
        assert t.log == s.log;
      }
    }
  }

  lemma FreedAfterRunKept(c: Config, s: State, step: Step)
    requires FreedAfterRun(s) && Enabled(c, s, step)
    ensures FreedAfterRun(Next(c, s, step))
  {
    var t := Next(c, s, step);
    LogEffect(c, s, step);
    hide Next;
    forall k | 0 <= k < |t.log| && t.log[k].Freed? ensures Ran(t.log[k].job) in t.log[..k] {
      if k < |s.log| {
        assert t.log[..k] == s.log[..k];
      } else {
        assert t.log[..k] == s.log;
      }
    }
    assert s.log <= t.log;
  }

  // ----- No lost wakeup -----

  /** While a job waits and a worker sleeps, some submitter's broadcast is still to come. */
  ghost predicate NoLostWakeup(s: State) {
    s.queue != [] && (exists i :: 0 <= i < |s.workers| && s.workers[i] == Asleep) ==>
      exists j :: 0 <= j < |s.submitters| && AboutToAnnounce(s.submitters[j])
  }

  predicate AboutToAnnounce(pc: SubmitterPc) {
    pc.Added? || pc.Announcing?
  }

  lemma NoLostWakeupKept(c: Config, s: State, step: Step)
    requires WorkersSee(s) && NoLostWakeup(s) && Enabled(c, s, step)
    ensures NoLostWakeup(Next(c, s, step))
  {
    hide WorkerStep, SubmitStep;
    match step {
      case Worker(i) => WorkerLosesNoWakeup(s, i);
      case SpuriousWakeup(i) =>
      case Begin(j, f) =>
        var t := Next(c, s, step);
        assert forall k :: 0 <= k < |s.submitters| && AboutToAnnounce(s.submitters[k]) ==>
          t.submitters[k] == s.submitters[k];
      case Submit(j) => SubmitterLosesNoWakeup(s, j);
      case Destroy =>
    }
  }

  lemma WorkerLosesNoWakeup(s: State, i: nat)
    requires WorkersSee(s) && NoLostWakeup(s) && WorkerEnabled(s, i)
    ensures NoLostWakeup(WorkerStep(s, i))
  {
    var t := WorkerStep(s, i);
    assert WorkerSees(s, s.workers[i]);
    assert forall k :: 0 <= k < |t.workers| && k != i ==> t.workers[k] == s.workers[k];
  }

  /** A submitter wakes everybody, or is itself the one that will. */
  lemma SubmitterLosesNoWakeup(s: State, j: nat)
    requires NoLostWakeup(s) && SubmitEnabled(s, j)
    ensures NoLostWakeup(SubmitStep(s, j))
  {
    var t := SubmitStep(s, j);
    if s.submitters[j].Announcing? {
      assert forall k :: 0 <= k < |t.workers| ==> t.workers[k] != Asleep;
    } else if s.submitters[j].Wanting? {
      assert forall k :: 0 <= k < |s.submitters| && AboutToAnnounce(s.submitters[k]) ==>
        t.submitters[k] == s.submitters[k];
    } else {
      assert AboutToAnnounce(t.submitters[j]);
    }
  }

  // ----- No missed shutdown -----

  predicate Sleepy(pc: WorkerPc) {
    pc.GoingToSleep? || pc.Asleep?
  }

  ghost predicate NoneSleepy(s: State) {
    forall i :: 0 <= i < |s.workers| ==> !Sleepy(s.workers[i])
  }

  /** The shutdown broadcast has been sent. */
  predicate BroadcastSent(s: State) {
    s.destroyer.Unlocking? || s.destroyer.Joining? || s.destroyer.TearingDown? || s.destroyer.Finished?
  }

  /** With the locked broadcast no worker can be asleep, or between its test of bRun and its wait, once it is sent. */
  ghost predicate NoMissedShutdown(c: Config, s: State) {
    c.lockedShutdown && BroadcastSent(s) ==> NoneSleepy(s)
  }

  lemma NoMissedShutdownKept(c: Config, s: State, step: Step)
    requires MutualExclusion(s) && RunFlag(s) && JoinedExited(c, s) && NoMissedShutdown(c, s) && Enabled(c, s, step)
    ensures NoMissedShutdown(c, Next(c, s, step))
  {
    var t := Next(c, s, step);
    if c.lockedShutdown && BroadcastSent(t) {
      forall i | 0 <= i < |t.workers| ensures !Sleepy(t.workers[i]) {
        assert WorkerHolds(s.workers[i]) <==> s.mutex == Some(W(i));
      }
    }
  }

  // ----- Drain before teardown -----

  predicate Gone(pc: WorkerPc) {
    pc.Leaving? || pc.Exited?
  }

  ghost predicate SomeGone(s: State) {
    exists i :: 0 <= i < |s.workers| && Gone(s.workers[i])
  }

  /** A worker leaves only when bRun is clear and the queue is empty, and then disciplined clients add nothing. */
  ghost predicate Drained(c: Config, s: State) {
    && (SomeGone(s) ==> !s.bRun)
    && (c.disciplined && s.destroyer != NotStarted ==> AllIdle(s.submitters))
    && (c.disciplined && SomeGone(s) ==> s.queue == [])
    && (c.disciplined && c.workers > 0 ==> s.stray == [] && s.accepted == s.taken + s.queue)
  }

  lemma DrainedKept(c: Config, s: State, step: Step)
    requires RunFlag(s) && WorkersSee(s) && JoinedExited(c, s) && Fifo(s) && Drained(c, s) && Enabled(c, s, step)
    ensures Drained(c, Next(c, s, step))
  {
    hide WorkerStep, DestroyStep, Fifo, JoinedExited;
    match step {
      case Worker(i) => WorkerKeepsDrained(c, s, i);
      case SpuriousWakeup(i) =>
        assert SomeGone(Next(c, s, step)) ==> SomeGone(s);
      case Begin(j, f) =>
      case Submit(j) => SubmitterKeepsDrained(c, s, j);
      case Destroy => DestroyerKeepsDrained(c, s);
    }
  }

  lemma WorkerKeepsDrained(c: Config, s: State, i: nat)
    requires WorkersSee(s) && Drained(c, s) && WorkerEnabled(s, i)
    ensures Drained(c, WorkerStep(s, i))
  {
    var t := WorkerStep(s, i);
    assert WorkerSees(s, s.workers[i]);
    if SomeGone(t) {
      var k :| 0 <= k < |t.workers| && Gone(t.workers[k]);
      assert Gone(s.workers[k]) || (s.queue == [] && !s.bRun);
    }
  }

  lemma SubmitterKeepsDrained(c: Config, s: State, j: nat)
    requires RunFlag(s) && Drained(c, s) && SubmitEnabled(s, j)
    ensures Drained(c, SubmitStep(s, j))
  {
    assert SomeGone(SubmitStep(s, j)) ==> SomeGone(s);
  }

  lemma DestroyerKeepsDrained(c: Config, s: State)
    requires JoinedExited(c, s) && Drained(c, s) && RunFlag(s) && DestroyEnabled(c, s)
    ensures Drained(c, DestroyStep(c, s))
  {
    var t := DestroyStep(c, s);
    assert SomeGone(t) ==> SomeGone(s);
    if s.destroyer.TearingDown? && c.workers > 0 {
      assert Joined(s, 0) && Gone(s.workers[0]);
    }
  }

  // ----- All of it, in every reachable state -----

  ghost predicate Inv(c: Config, s: State) {
    && MutualExclusion(s) && RunFlag(s) && JoinedExited(c, s) && WorkersSee(s) && Fifo(s)
    && Conserved(s) && (forall job :: Logged(s, job)) && FreedAfterRun(s)
    && NoLostWakeup(s) && NoMissedShutdown(c, s) && Drained(c, s)
  }

  lemma InvKept(c: Config, s: State, step: Step)
    requires Inv(c, s) && Enabled(c, s, step)
    ensures Inv(c, Next(c, s, step))
  {
    hide Next, Enabled, MutualExclusion, RunFlag, JoinedExited, WorkersSee, Fifo, Conserved, Logged, FreedAfterRun,
      NoLostWakeup, NoMissedShutdown, Drained;
    MutualExclusionKept(c, s, step);
    RunFlagKept(c, s, step);
    JoinedExitedKept(c, s, step);
    WorkersSeeKept(c, s, step);
    FifoKept(c, s, step);
    ConservedKept(c, s, step);
    forall job ensures Logged(Next(c, s, step), job) {
      LoggedKept(c, s, step, job);
    }
    FreedAfterRunKept(c, s, step);
    NoLostWakeupKept(c, s, step);
    NoMissedShutdownKept(c, s, step);
    DrainedKept(c, s, step);
  }

  lemma {:induction false} EmptyTally(ws: seq<WorkerPc>, f: WorkerPc -> multiset<Job>)
    requires forall i :: 0 <= i < |ws| ==> f(ws[i]) == multiset{}
    ensures Tally(ws, f) == multiset{}
  {
    if ws != [] {
      EmptyTally(ws[..|ws| - 1], f);
    }
  }

  lemma InvInit(c: Config)
    ensures Inv(c, Init(c))
  {
    hide MutualExclusion, RunFlag, JoinedExited, WorkersSee, Fifo, Conserved, Logged, FreedAfterRun,
      NoLostWakeup, NoMissedShutdown, Drained;
    InitThreads(c);
    InitJobs(c);
  }

  lemma InitThreads(c: Config)
    ensures var s := Init(c);
      && MutualExclusion(s) && RunFlag(s) && JoinedExited(c, s) && WorkersSee(s)
      && NoLostWakeup(s) && NoMissedShutdown(c, s) && Drained(c, s)
  {
  }

  lemma InitJobs(c: Config)
    ensures var s := Init(c);
      Fifo(s) && Conserved(s) && FreedAfterRun(s) && forall job :: Logged(s, job)
  {
    var s := Init(c);
    EmptyTally(s.workers, Held);
    EmptyTally(s.workers, Called);
    hide Tally;
  }

  lemma {:induction false} InvAlong(c: Config, s: State, steps: seq<Step>, t: State)
    requires Inv(c, s) && IsRun(c, s, steps, t)
    ensures Inv(c, t)
    decreases |steps|
  {
    if steps != [] {
      hide Inv, Next, Enabled;
      InvKept(c, s, steps[0]);
      InvAlong(c, Next(c, s, steps[0]), steps[1..], t);
    }
  }

  lemma ReachableInv(c: Config, s: State)
    requires Reachable(c, s)
    ensures Inv(c, s)
  {
    hide Inv, IsRun;
    var steps :| IsRun(c, Init(c), steps, s);
    InvInit(c);
    InvAlong(c, Init(c), steps, s);
  }

  lemma {:induction false} DistinctIds(jobs: seq<Job>, job: Job)
    requires forall k :: 0 <= k < |jobs| ==> jobs[k].id == k
    ensures multiset(jobs)[job] <= 1
  {
    if jobs != [] {
      var front, last := jobs[..|jobs| - 1], jobs[|jobs| - 1];
      DistinctIds(front, job);
      assert jobs == front + [last];
      assert last !in front;
      assert multiset(front)[last] == 0;
    }
  }

  /** Exactly-once execution, for either copy and any clients: no accepted job is lost or duplicated, its function is
      called at most once and before its argument is freed, and a completed job has had both calls. */
  lemma ExactlyOnce(c: Config, s: State, job: Job)
    requires Reachable(c, s)
    ensures s.destroyer != Finished ==>
      multiset(s.accepted) == multiset(s.queue) + Tally(s.workers, Held) + multiset(s.completed)
    ensures multiset(s.accepted)[job] <= 1 && multiset(s.completed)[job] <= 1
    ensures multiset(s.log)[Ran(job)] <= 1 && multiset(s.log)[Freed(job)] <= 1
    ensures job in s.completed ==>
      multiset(s.log)[Ran(job)] == 1 && multiset(s.log)[Freed(job)] == if job.hasFree then 1 else 0
    ensures s.destroyer != Finished && job in s.queue ==> multiset(s.log)[Ran(job)] == 0 == multiset(s.log)[Freed(job)]
    ensures forall k :: 0 <= k < |s.log| && s.log[k] == Freed(job) ==> Ran(job) in s.log[..k]
  {
    ReachableInv(c, s);
    assert Fifo(s) && Conserved(s) && Logged(s, job) && FreedAfterRun(s);
    hide Inv, Tally, Held, Called, Reachable, Fifo, Conserved, Logged;
    JobCounts(s, job);
  }

  /** A job is accepted at most once, is taken after it is accepted, and is called and completed only when taken. */
  lemma JobCounts(s: State, job: Job)
    requires Fifo(s) && Conserved(s) && Logged(s, job)
    ensures multiset(s.taken)[job] <= multiset(s.accepted)[job] <= 1
    ensures s.destroyer != Finished ==>
      && multiset(s.accepted) == multiset(s.queue) + Tally(s.workers, Held) + multiset(s.completed)
      && multiset(s.accepted)[job] == multiset(s.taken)[job] + multiset(s.queue)[job]
    ensures multiset(s.taken)[job] == Tally(s.workers, Held)[job] + multiset(s.completed)[job]
    ensures Tally(s.workers, Called)[job] <= Tally(s.workers, Held)[job]
    ensures multiset(s.log)[Ran(job)] == Tally(s.workers, Called)[job] + multiset(s.completed)[job]
    ensures multiset(s.log)[Freed(job)] == if job.hasFree then multiset(s.completed)[job] else 0
  {
    hide Tally, Held, Called;
    var rest := s.accepted[|s.taken|..];
    assert s.accepted == s.taken + rest;
    CountIn(s.taken, rest, job);
    DistinctIds(s.accepted, job);
    CalledAreHeld(s.workers, job);
    assert multiset(s.taken)[job] == Tally(s.workers, Held)[job] + multiset(s.completed)[job];
  }

  lemma CountIn(a: seq<Job>, b: seq<Job>, job: Job)
    ensures multiset(a + b) == multiset(a) + multiset(b)
    ensures multiset(a + b)[job] == multiset(a)[job] + multiset(b)[job]
  {
  }

  lemma {:induction false} CalledAreHeld(ws: seq<WorkerPc>, job: Job)
    ensures Tally(ws, Called)[job] <= Tally(ws, Held)[job]
  {
    if ws != [] {
      CalledAreHeld(ws[..|ws| - 1], job);
    }
  }

  /** Jobs leave the queue in the order in which they were accepted, and no worker ever finds the queue empty when it
      dequeues: execute_job is never given a null job. */
  lemma DispatchIsFifo(c: Config, s: State)
    requires Reachable(c, s)
    ensures s.taken <= s.accepted && (s.destroyer != Finished ==> s.queue == s.accepted[|s.taken|..])
    ensures forall i :: 0 <= i < |s.workers| ==>
      match s.workers[i]
      case Taking => s.queue != []
      case Releasing(job) => job.Some?
      case Running(job) => job.Some?
      case _ => true
  {
    ReachableInv(c, s);
    assert Fifo(s) && WorkersSee(s);
    hide Inv, Reachable;
    forall i | 0 <= i < |s.workers| ensures WorkerSees(s, s.workers[i]) {
    }
  }

  /** Is this thread, of whatever kind, in a critical section? */
  predicate Inside(s: State, t: Thread) {
    match t
    case W(i) => i < |s.workers| && WorkerHolds(s.workers[i])
    case S(j) => j < |s.submitters| && SubmitterHolds(s.submitters[j])
    case D => DestroyerHolds(s.destroyer)
  }

  /** At most one thread is in a critical section, and it is the one that owns the mutex. */
  lemma OneInside(c: Config, s: State, a: Thread, b: Thread)
    requires Reachable(c, s) && Inside(s, a)
    ensures s.mutex == Some(a)
    ensures Inside(s, b) ==> a == b
  {
    ReachableInv(c, s);
    assert MutualExclusion(s);
    hide Inv, Reachable;
  }

  /** A worker never sleeps through a submission, and with the locked broadcast not through the shutdown. */
  lemma WakeupsArrive(c: Config, s: State, i: nat)
    requires Reachable(c, s) && i < |s.workers| && Sleepy(s.workers[i])
    ensures s.queue != [] ==> exists j :: 0 <= j < |s.submitters| && AboutToAnnounce(s.submitters[j])
    ensures c.lockedShutdown ==> !BroadcastSent(s)
  {
    ReachableInv(c, s);
    assert NoLostWakeup(s) && NoMissedShutdown(c, s) && WorkersSee(s);
    hide Inv, Reachable;
    assert WorkerSees(s, s.workers[i]);
  }
}
