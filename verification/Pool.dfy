/** The pool as the object that its threads share.  Each method executes the next statement of one thread in place,
    on the linked queue of queue.c, and is proved to be the corresponding step of ThreadPool.  The object is therefore
    always in a reachable state, and every theorem about those holds of it. */
module SharedPool {
  import opened Options
  import opened PoolSafety
  import opened PoolShutdown
  import opened Queues
  import opened Sequences
  import opened ThreadPool

  class Pool {
    const config: Config
    var bRun: bool
    var mutex: Option<Thread>
    var jobs: Queue<Job>
    var workers: array<WorkerPc>
    var submitters: array<SubmitterPc>
    var destroyer: DestroyerPc
    var nextId: nat  // stands for the address of the next job struct

    ghost var accepted: seq<Job>
    ghost var taken: seq<Job>
    ghost var log: seq<Event>
    ghost var completed: seq<Job>
    ghost var stray: seq<Job>

    /** The fields are the pool of some reachable state of the step system, and the queue is well linked. */
    ghost predicate Valid()
      reads this, jobs, jobs.Repr, workers, submitters
    {
      Linked() && Reachable(config, Snapshot())
    }

    ghost predicate Linked()
      reads this, jobs, jobs.Repr
    {
      && jobs.Valid()
      && this !in jobs.Repr && workers !in jobs.Repr && submitters !in jobs.Repr
      && (forall k :: 0 <= k < |jobs.nodes| ==> jobs.nodes[k].hasFree == jobs.contents[k].hasFree)
      && nextId == |accepted|
    }

    ghost function Snapshot(): State
      reads this, jobs, workers, submitters
    {
      State(bRun, mutex, jobs.contents, workers[..], submitters[..], destroyer, accepted, taken, log, completed, stray)
    }

    /** tpool_create, every thread creation succeeding. */
    constructor (config: Config)
      ensures Valid() && fresh(jobs) && fresh(jobs.Repr) && fresh(workers) && fresh(submitters)
      ensures this.config == config && Snapshot() == Init(config)
    {
      this.config := config;
      bRun, mutex, destroyer, nextId := true, None, NotStarted, 0;
      jobs := new Queue<Job>();
      workers := new WorkerPc[config.workers](_ => Starting);
      submitters := new SubmitterPc[config.submitters](_ => Idle);
      accepted, taken, log, completed, stray := [], [], [], [], [];
      new;
      assert workers[..] == Repeat(Starting, config.workers);
      assert submitters[..] == Repeat(Idle, config.submitters);
      ReachableInit(config);
    }

    /** Exactly-once execution, of the object. */
    lemma EachJobOnce(job: Job)
      requires Valid()
      ensures multiset(log)[Ran(job)] <= 1 && multiset(log)[Freed(job)] <= 1
      ensures job in completed ==>
        multiset(log)[Ran(job)] == 1 && multiset(log)[Freed(job)] == if job.hasFree then 1 else 0
      ensures destroyer != Finished && job in jobs.contents ==> Ran(job) !in log && Freed(job) !in log
    {
      ExactlyOnce(config, Snapshot(), job);
      assert Ran(job) in log ==> multiset(log)[Ran(job)] > 0;
      assert Freed(job) in log ==> multiset(log)[Freed(job)] > 0;
      hide Reachable, Linked;
    }

    /** pthread_cond_broadcast */
    method Broadcast()
      modifies workers
      ensures workers[..] == WakeAll(old(workers[..]))
    {
      for k := 0 to workers.Length
        invariant forall m :: 0 <= m < k ==> workers[m] == if old(workers[m]) == Asleep then Awake else old(workers[m])
        invariant forall m :: k <= m < workers.Length ==> workers[m] == old(workers[m])
      {
        if workers[k] == Asleep {
          workers[k] := Awake;
        }
      }
    }

    /** Worker i at the inner loop of handle_work: lock, test, wait. */
    method AwaitJob(i: nat)
      requires Valid() && WorkerEnabled(Snapshot(), i)
      requires workers[i].Starting? || workers[i].Awake? || workers[i].Testing? || workers[i].GoingToSleep?
      modifies this`mutex, workers
      ensures Valid() && Snapshot() == WorkerStep(old(Snapshot()), i)
    {
      ghost var next := Next(config, Snapshot(), Worker(i));
      ReachableNext(config, Snapshot(), Worker(i));
      hide Reachable, Queue<Job>.Valid;
      match workers[i] {
        case Starting =>
          mutex, workers[i] := Some(W(i)), Testing;
        case Awake =>
          mutex, workers[i] := Some(W(i)), Testing;
        case Testing =>
          var empty := jobs.IsEmpty();
          workers[i] := if empty && bRun then GoingToSleep else Deciding;
        case GoingToSleep =>
          mutex, workers[i] := None, Asleep;
      }
      assert Snapshot() == next;
    }

    /** Worker i after the inner loop of handle_work: leave or take a job, and unlock. */
    method LeaveOrTake(i: nat)
      requires Valid() && WorkerEnabled(Snapshot(), i)
      requires workers[i].Deciding? || workers[i].Leaving? || workers[i].Releasing?
      modifies this`mutex, workers
      ensures Valid() && Snapshot() == WorkerStep(old(Snapshot()), i)
    {
      ghost var next := Next(config, Snapshot(), Worker(i));
      ReachableNext(config, Snapshot(), Worker(i));
      hide Reachable, Queue<Job>.Valid;
      match workers[i] {
        case Deciding =>
          var empty := jobs.IsEmpty();
          workers[i] := if empty && !bRun then Leaving else Taking;
        case Leaving =>
          mutex, workers[i] := None, Exited;
        case Releasing(job) =>
          mutex, workers[i] := None, Running(job);
      }
      assert Snapshot() == next;
    }

    /** Worker i at the dequeue of handle_work. */
    method TakeJob(i: nat)
      requires Valid() && i < workers.Length && workers[i] == Taking
      modifies this`taken, workers, jobs
      ensures Valid() && Snapshot() == WorkerStep(old(Snapshot()), i)
      ensures old(jobs.contents) != [] && workers[i] == Releasing(Some(old(jobs.contents)[0]))
    {
      DispatchIsFifo(config, Snapshot());
      ghost var next := Next(config, Snapshot(), Worker(i));
      ReachableNext(config, Snapshot(), Worker(i));
      hide Reachable;
      var job := jobs.Dequeue();
      workers[i] := Releasing(job);
      if job.Some? {
        taken := taken + [job.value];
      }
      assert Snapshot() == next;
    }

    /** No worker ever holds a null job. */
    lemma HeldJobIsThere(i: nat)
      requires Valid() && i < workers.Length && (workers[i].Releasing? || workers[i].Running?)
      ensures workers[i].taken.Some?
    {
      DispatchIsFifo(config, Snapshot());
      hide Reachable, Linked;
      assert Snapshot().workers[i] == workers[i];
    }

    /** Worker i in execute_job: the call of the job, if it is not null. */
    method CallJob(i: nat)
      requires Valid() && i < workers.Length && workers[i].Running?
      modifies this`log, workers
      ensures Valid() && Snapshot() == WorkerStep(old(Snapshot()), i)
    {
      ghost var next := Next(config, Snapshot(), Worker(i));
      ReachableNext(config, Snapshot(), Worker(i));
      hide Reachable, Queue<Job>.Valid;
      var job := workers[i].taken;
      if job.Some? {
        log := log + [Ran(job.value)];
        workers[i] := Freeing(job.value);
      } else {
        workers[i] := Starting;
      }
      assert Snapshot() == next;
    }

    /** Worker i in execute_job: the free function of the argument, if there is one. */
    method FreeArgument(i: nat)
      requires Valid() && i < workers.Length && workers[i].Freeing?
      modifies this`log, this`completed, workers
      ensures Valid() && Snapshot() == WorkerStep(old(Snapshot()), i)
    {
      ghost var next := Next(config, Snapshot(), Worker(i));
      ReachableNext(config, Snapshot(), Worker(i));
      hide Reachable, Queue<Job>.Valid;
      var job := workers[i].job;
      if job.hasFree {
        log := log + [Freed(job)];
      }
      completed := completed + [job];
      workers[i] := Starting;
      assert Snapshot() == next;
    }

    /** The condition wait of worker i ends without a broadcast. */
    method WakeSpuriously(i: nat)
      requires Valid() && i < workers.Length && workers[i] == Asleep
      modifies workers
      ensures Valid()
      ensures Snapshot() == Next(config, old(Snapshot()), SpuriousWakeup(i))
    {
      ghost var next := Next(config, Snapshot(), SpuriousWakeup(i));
      ReachableNext(config, Snapshot(), SpuriousWakeup(i));
      hide Reachable;
      workers[i] := Awake;
      assert Snapshot() == next;
    }

    /** Submitter j calls tpool_add_job. */
    method BeginAddJob(j: nat, hasFree: bool)
      requires Valid() && Enabled(config, Snapshot(), Begin(j, hasFree))
      modifies submitters
      ensures Valid()
      ensures Snapshot() == Next(config, old(Snapshot()), Begin(j, hasFree))
    {
      ghost var next := Next(config, Snapshot(), Begin(j, hasFree));
      ReachableNext(config, Snapshot(), Begin(j, hasFree));
      hide Reachable;
      submitters[j] := Wanting(hasFree);
      assert Snapshot() == next;
    }

    /** Builds the job struct and enqueues it. */
    method Push(hasFree: bool)
      requires Linked()
      modifies this`nextId, this`accepted, jobs.Repr
      ensures Linked() && fresh(jobs.Repr - old(jobs.Repr))
      ensures var job, s := Job(|old(accepted)|, hasFree), old(Snapshot());
        Snapshot() == s.(queue := s.queue + [job], accepted := s.accepted + [job])
    {
      hide Queue<Job>.Valid;
      var job := Job(nextId, hasFree);
      nextId := nextId + 1;
      jobs.Enqueue(job, job.hasFree);
      accepted := accepted + [job];
    }

    /** Submitter j at the enqueue of tpool_add_job. */
    method EnqueueJob(j: nat)
      requires Valid() && SubmitEnabled(Snapshot(), j) && submitters[j].Adding?
      modifies this`nextId, this`accepted, submitters, jobs.Repr
      ensures Valid() && fresh(jobs.Repr - old(jobs.Repr))
      ensures Snapshot() == SubmitStep(old(Snapshot()), j)
      ensures var job := Job(|old(accepted)|, old(submitters[j]).hasFree);
        jobs.contents == old(jobs.contents) + [job] && accepted == old(accepted) + [job]
    {
      ghost var next := Next(config, Snapshot(), Submit(j));
      ReachableNext(config, Snapshot(), Submit(j));
      hide Reachable, Queue<Job>.Valid;
      Push(submitters[j].hasFree);
      submitters[j] := Added;
      assert Snapshot() == next;
    }

    /** Submitter j at any other statement of tpool_add_job. */
    method LockOrAnnounce(j: nat)
      requires Valid() && SubmitEnabled(Snapshot(), j) && !submitters[j].Adding?
      modifies this`mutex, workers, submitters
      ensures Valid() && Snapshot() == SubmitStep(old(Snapshot()), j)
    {
      ghost var next := Next(config, Snapshot(), Submit(j));
      ReachableNext(config, Snapshot(), Submit(j));
      hide Reachable, Queue<Job>.Valid;
      match submitters[j] {
        case Wanting(hasFree) =>
          mutex, submitters[j] := Some(S(j)), Adding(hasFree);
        case Added =>
          mutex, submitters[j] := None, Announcing;
        case Announcing =>
          Broadcast();
          submitters[j] := Idle;
      }
      assert Snapshot() == next;
    }

    /** The destroyer in tpool_destroy: clearing the flag. */
    method BeginShutdown()
      requires Valid() && DestroyEnabled(config, Snapshot()) && (destroyer.NotStarted? || destroyer.Clearing?)
      modifies this`bRun, this`destroyer
      ensures Valid() && Snapshot() == DestroyStep(config, old(Snapshot()))
    {
      ghost var next := Next(config, Snapshot(), Destroy);
      ReachableNext(config, Snapshot(), Destroy);
      hide Reachable, Queue<Job>.Valid;
      if destroyer.NotStarted? {
        destroyer := Clearing;
      } else {
        bRun := false;
        destroyer := if config.lockedShutdown then Locking else Broadcasting;
      }
      assert Snapshot() == next;
    }

    /** The destroyer in shutdown_threads: the mutex around the broadcast. */
    method LockForShutdown()
      requires Valid() && DestroyEnabled(config, Snapshot()) && (destroyer.Locking? || destroyer.Unlocking?)
      modifies this`mutex, this`destroyer
      ensures Valid() && Snapshot() == DestroyStep(config, old(Snapshot()))
    {
      ghost var next := Next(config, Snapshot(), Destroy);
      ReachableNext(config, Snapshot(), Destroy);
      hide Reachable, Queue<Job>.Valid;
      if destroyer.Locking? {
        mutex, destroyer := Some(D), Holding;
      } else {
        mutex, destroyer := None, Joining(0);
      }
      assert Snapshot() == next;
    }

    /** The destroyer in shutdown_threads: the broadcast, of either copy. */
    method AnnounceShutdown()
      requires Valid() && (destroyer.Holding? || destroyer.Broadcasting?)
      modifies this`destroyer, workers
      ensures Valid() && Snapshot() == DestroyStep(config, old(Snapshot()))
    {
      ghost var next := Next(config, Snapshot(), Destroy);
      ReachableNext(config, Snapshot(), Destroy);
      assert next == DestroyStep(config, Snapshot());
      hide Reachable, Queue<Job>.Valid, Next, WakeAll, DestroyEnabled, Enabled;
      Broadcast();
      destroyer := if destroyer.Holding? then Unlocking else Joining(0);
      assert Snapshot() == next;
    }

    /** The destroyer in shutdown_threads: one turn of the loop of joins. */
    method JoinNext()
      requires Valid() && DestroyEnabled(config, Snapshot()) && destroyer.Joining?
      modifies this`destroyer
      ensures Valid() && Snapshot() == DestroyStep(config, old(Snapshot()))
    {
      ghost var next := Next(config, Snapshot(), Destroy);
      ReachableNext(config, Snapshot(), Destroy);
      hide Reachable, Queue<Job>.Valid;
      destroyer := if destroyer.next < workers.Length then Joining(destroyer.next + 1) else TearingDown;
      assert Snapshot() == next;
    }

    /** The destroyer at queue_destroy. */
    method TearDown()
      requires Valid() && destroyer.TearingDown?
      modifies this`stray, this`destroyer, jobs
      ensures Valid() && Snapshot() == DestroyStep(config, old(Snapshot()))
      ensures config.disciplined && config.workers > 0 ==> stray == [] && multiset(completed) == multiset(accepted)
    {
      if config.disciplined && config.workers > 0 {
        DrainBeforeTeardown(config, Snapshot());
      }
      ghost var next := Next(config, Snapshot(), Destroy);
      ReachableNext(config, Snapshot(), Destroy);
      hide Reachable;
      OwnedAreWithFree(jobs.nodes, jobs.contents);
      hide Queue<Job>.Valid;
      var freed := jobs.DestroyItems();
      stray := stray + freed;
      destroyer := Finished;
      assert Snapshot() == next;
    }
  }

  /** A queue node carries the free function of its job's argument, and applies it to the job struct. */
  lemma {:induction false} OwnedAreWithFree(nodes: seq<QueueNode<Job>>, jobs: seq<Job>)
    requires |nodes| == |jobs|
    requires forall k :: 0 <= k < |nodes| ==> nodes[k].data == jobs[k] && nodes[k].hasFree == jobs[k].hasFree
    ensures OwnedPayloads(nodes) == WithFree(jobs)
  {
    if nodes != [] {
      OwnedAreWithFree(nodes[..|nodes| - 1], jobs[..|jobs| - 1]);
    }
  }
}
