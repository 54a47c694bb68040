/** The thread pool (tpool.c) as interleaved steps: worker threads in handle_work, submitting threads in
    tpool_add_job and one thread in tpool_destroy share a mutex, a condition variable, a FIFO of jobs and the flag
    `bRun`.  A step is one statement of one thread; a condition wait may also end for no reason. */
module ThreadPool {
  import opened Options
  import opened Sequences

  /** `lockedShutdown`: is the shutdown broadcast sent while holding the mutex (module_1) or not (ChatRoom)?
      `disciplined`: do clients stop submitting before they call tpool_destroy? */
  datatype Config = Config(workers: nat, submitters: nat, lockedShutdown: bool, disciplined: bool)

  /** A job struct; `hasFree` says that its argument comes with a free function.  `id` tells structs apart. */
  datatype Job = Job(id: nat, hasFree: bool)

  /** A job's function, or the free function of its argument, has been called. */
  datatype Event = Ran(job: Job) | Freed(job: Job)

  datatype Thread = W(i: nat) | S(j: nat) | D

  datatype WorkerPc =
    | Starting                         // wants the mutex
    | Testing                          // holds it, before the test of the inner loop
    | GoingToSleep                     // holds it, found no job and bRun set
    | Asleep                           // in the condition wait, mutex released
    | Awake                            // woken, wants the mutex back
    | Deciding                         // holds it, after the inner loop
    | Leaving                          // holds it, found no job and bRun clear
    | Taking                           // holds it, before the dequeue
    | Releasing(taken: Option<Job>)    // holds it, after the dequeue
    | Running(taken: Option<Job>)      // in execute_job, before the call
    | Freeing(job: Job)                // in execute_job, after the call
    | Exited

  datatype SubmitterPc =
    | Idle
    | Wanting(hasFree: bool)           // wants the mutex
    | Adding(hasFree: bool)            // holds it, before the enqueue
    | Added                            // holds it, after the enqueue
    | Announcing                       // before the broadcast

  datatype DestroyerPc =
    | NotStarted
    | Clearing                         // before bRun is cleared
    | Locking                          // wants the mutex
    | Holding                          // holds it, before the broadcast
    | Unlocking                        // holds it, after the broadcast
    | Broadcasting                     // ChatRoom: before the broadcast, mutex not held
    | Joining(next: nat)               // workers below `next` have been joined
    | TearingDown                      // before queue_destroy
    | Finished

  datatype State = State(
    bRun: bool,
    mutex: Option<Thread>,
    queue: seq<Job>,
    workers: seq<WorkerPc>,
    submitters: seq<SubmitterPc>,
    destroyer: DestroyerPc,
    // history
    accepted: seq<Job>,                // enqueued so far
    taken: seq<Job>,                   // dequeued so far
    log: seq<Event>,
    completed: seq<Job>,
    stray: seq<Job>)                   // job structs that queue_destroy handed to a free function

  // ----- The steps -----

  datatype Step =
    | Worker(i: nat)
    | SpuriousWakeup(i: nat)
    | Begin(j: nat, hasFree: bool)     // submitter j calls tpool_add_job
    | Submit(j: nat)
    | Destroy

  function Init(c: Config): State {
    State(true, None, [], Repeat(Starting, c.workers), Repeat(Idle, c.submitters), NotStarted, [], [], [], [], [])
  }

  /** A broadcast on the condition variable. */
  function WakeAll(ws: seq<WorkerPc>): (r: seq<WorkerPc>)
    ensures |r| == |ws|
    ensures forall i :: 0 <= i < |ws| ==> r[i] == if ws[i].Asleep? then Awake else ws[i]
  {
    if ws == [] then [] else WakeAll(ws[..|ws| - 1]) + [if ws[|ws| - 1].Asleep? then Awake else ws[|ws| - 1]]
  }

  function WithFree(jobs: seq<Job>): seq<Job> {
    if jobs == [] then []
    else WithFree(jobs[..|jobs| - 1]) + (if jobs[|jobs| - 1].hasFree then [jobs[|jobs| - 1]] else [])
  }

  /** Exactly the jobs whose argument has a free function, in order. */
  lemma {:induction false} WithFreeConcat(a: seq<Job>, b: seq<Job>)
    ensures WithFree(a + b) == WithFree(a) + WithFree(b)
    ensures |b| == 1 ==> WithFree(b) == if b[0].hasFree then b else []
    decreases |b|
  {
    if b == [] {
      assert a + b == a;
    } else {
      var front := b[..|b| - 1];
      assert (a + b)[..|a + b| - 1] == a + front;
      WithFreeConcat(a, front);
    }
  }

  lemma {:induction false} WithFreeIff(jobs: seq<Job>, job: Job)
    ensures job in WithFree(jobs) <==> job in jobs && job.hasFree
  {
    if jobs != [] {
      WithFreeIff(jobs[..|jobs| - 1], job);
    }
  }

  ghost predicate AllIdle(submitters: seq<SubmitterPc>) {
    forall j :: 0 <= j < |submitters| ==> submitters[j] == Idle
  }

  predicate WorkerEnabled(s: State, i: nat) {
    i < |s.workers| &&
    match s.workers[i]
    case Starting => s.mutex == None
    case Awake => s.mutex == None
    case Asleep => false
    case Exited => false
    case _ => true
  }

  /** Using a pool that has been torn down has no defined effect, so submitters stop there. */
  predicate SubmitEnabled(s: State, j: nat) {
    && j < |s.submitters|
    && s.destroyer != Finished
    && match s.submitters[j]
       case Idle => false
       case Wanting(_) => s.mutex == None
       case _ => true
  }

  ghost predicate DestroyEnabled(c: Config, s: State) {
    match s.destroyer
    case NotStarted => c.disciplined ==> AllIdle(s.submitters)
    case Locking => s.mutex == None
    case Joining(next) => next < |s.workers| ==> s.workers[next] == Exited
    case Finished => false
    case _ => true
  }

  ghost predicate Enabled(c: Config, s: State, step: Step) {
    match step
    case Worker(i) => WorkerEnabled(s, i)
    case SpuriousWakeup(i) => i < |s.workers| && s.workers[i] == Asleep
    case Begin(j, _) =>
      && j < |s.submitters| && s.submitters[j] == Idle
      && s.destroyer != Finished
      && (c.disciplined ==> s.destroyer == NotStarted)
    case Submit(j) => SubmitEnabled(s, j)
    case Destroy => DestroyEnabled(c, s)
  }

  function WorkerStep(s: State, i: nat): State
    requires WorkerEnabled(s, i)
  {
    var noJob := s.queue == [];
    match s.workers[i]
    case Starting => s.(mutex := Some(W(i)), workers := s.workers[i := Testing])
    case Awake => s.(mutex := Some(W(i)), workers := s.workers[i := Testing])
    case Testing => s.(workers := s.workers[i := if noJob && s.bRun then GoingToSleep else Deciding])
    case GoingToSleep => s.(mutex := None, workers := s.workers[i := Asleep])
    case Deciding => s.(workers := s.workers[i := if noJob && !s.bRun then Leaving else Taking])
    case Leaving => s.(mutex := None, workers := s.workers[i := Exited])
    case Taking =>
      if noJob then s.(workers := s.workers[i := Releasing(None)])
      else
        var job := s.queue[0];
        s.(queue := s.queue[1..], taken := s.taken + [job], workers := s.workers[i := Releasing(Some(job))])
    case Releasing(job) => s.(mutex := None, workers := s.workers[i := Running(job)])
    case Running(None) => s.(workers := s.workers[i := Starting])
    case Running(Some(job)) => s.(log := s.log + [Ran(job)], workers := s.workers[i := Freeing(job)])
    case Freeing(job) =>
      s.(log := s.log + (if job.hasFree then [Freed(job)] else []),
         completed := s.completed + [job],
         workers := s.workers[i := Starting])
  }

  function SubmitStep(s: State, j: nat): State
    requires SubmitEnabled(s, j)
  {
    match s.submitters[j]
    case Wanting(f) => s.(mutex := Some(S(j)), submitters := s.submitters[j := Adding(f)])
    case Adding(f) =>
      var job := Job(|s.accepted|, f);
      s.(queue := s.queue + [job], accepted := s.accepted + [job], submitters := s.submitters[j := Added])
    case Added => s.(mutex := None, submitters := s.submitters[j := Announcing])
    case Announcing => s.(workers := WakeAll(s.workers), submitters := s.submitters[j := Idle])
  }

  function DestroyStep(c: Config, s: State): State
    requires s.destroyer != Finished
  {
    match s.destroyer
    case NotStarted => s.(destroyer := Clearing)
    case Clearing => s.(bRun := false, destroyer := if c.lockedShutdown then Locking else Broadcasting)
    case Locking => s.(mutex := Some(D), destroyer := Holding)
    case Holding => s.(workers := WakeAll(s.workers), destroyer := Unlocking)
    case Unlocking => s.(mutex := None, destroyer := Joining(0))
    case Broadcasting => s.(workers := WakeAll(s.workers), destroyer := Joining(0))
    case Joining(next) => s.(destroyer := if next < |s.workers| then Joining(next + 1) else TearingDown)
    case TearingDown => s.(queue := [], stray := s.stray + WithFree(s.queue), destroyer := Finished)
  }

  /** Every broadcast of either copy, and nothing else that the destroyer or a submitter does, wakes all sleepers. */
  lemma BroadcastsWakeAll(c: Config, s: State, step: Step, i: nat)
    requires Enabled(c, s, step) && (step.Submit? || step.Destroy?) && i < |s.workers|
    ensures var t := Next(c, s, step);
      var announces := if step.Submit? then s.submitters[step.j].Announcing?
                       else s.destroyer.Holding? || s.destroyer.Broadcasting?;
      |t.workers| == |s.workers| && t.workers[i] == if announces && s.workers[i].Asleep? then Awake else s.workers[i]
  {
    hide WorkerStep;
  }

  ghost function Next(c: Config, s: State, step: Step): State
    requires Enabled(c, s, step)
  {
    match step
    case Worker(i) => WorkerStep(s, i)
    case SpuriousWakeup(i) => s.(workers := s.workers[i := Awake])
    case Begin(j, f) => s.(submitters := s.submitters[j := Wanting(f)])
    case Submit(j) => SubmitStep(s, j)
    case Destroy => DestroyStep(c, s)
  }

  ghost predicate IsRun(c: Config, s: State, steps: seq<Step>, t: State)
    decreases |steps|
  {
    if steps == [] then s == t
    else Enabled(c, s, steps[0]) && IsRun(c, Next(c, s, steps[0]), steps[1..], t)
  }

  ghost predicate Reachable(c: Config, s: State) {
    exists steps :: IsRun(c, Init(c), steps, s)
  }

  // ----- Runs can be put together -----

  lemma {:induction false} RunsCompose(c: Config, s: State, a: seq<Step>, t: State, b: seq<Step>, u: State)
    requires IsRun(c, s, a, t) && IsRun(c, t, b, u)
    ensures IsRun(c, s, a + b, u)
    decreases |a|
  {
    hide Next, Enabled;
    if a == [] {
      assert a + b == b;
    } else {
      RunsCompose(c, Next(c, s, a[0]), a[1..], t, b, u);
      assert (a + b)[0] == a[0] && (a + b)[1..] == a[1..] + b;
    }
  }

  lemma ReachableOn(c: Config, s: State, steps: seq<Step>, t: State)
    requires Reachable(c, s) && IsRun(c, s, steps, t)
    ensures Reachable(c, t)
  {
    hide IsRun;
    var before :| IsRun(c, Init(c), before, s);
    RunsCompose(c, Init(c), before, s, steps, t);
  }

  lemma ReachableNext(c: Config, s: State, step: Step)
    requires Reachable(c, s) && Enabled(c, s, step)
    ensures Reachable(c, Next(c, s, step))
  {
    hide Reachable, Enabled, Next;
    assert IsRun(c, s, [step], Next(c, s, step));
    ReachableOn(c, s, [step], Next(c, s, step));
  }

  lemma ReachableInit(c: Config)
    ensures Reachable(c, Init(c))
  {
    assert IsRun(c, Init(c), [], Init(c));
  }

  /** A list of states linked by steps is a run. */
  lemma {:induction false} StepsAreRun(c: Config, states: seq<State>, steps: seq<Step>)
    requires |states| == |steps| + 1
    requires forall k :: 0 <= k < |steps| ==>
      Enabled(c, states[k], steps[k]) && states[k + 1] == Next(c, states[k], steps[k])
    ensures IsRun(c, states[0], steps, states[|steps|])
    decreases |steps|
  {
    hide Next, Enabled;
    if steps != [] {
      StepsAreRun(c, states[1..], steps[1..]);
    }
  }

  lemma StepsFromInit(c: Config, states: seq<State>, steps: seq<Step>)
    requires |states| == |steps| + 1 && states[0] == Init(c)
    requires forall k :: 0 <= k < |steps| ==>
      Enabled(c, states[k], steps[k]) && states[k + 1] == Next(c, states[k], steps[k])
    ensures Reachable(c, states[|steps|])
  {
    StepsAreRun(c, states, steps);
  }
}
