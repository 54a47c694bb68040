/** Is every accepted job completed, and none of its structs handed to a free function, when tpool_destroy returns? */
module PoolDrain {
  import opened Options
  import opened PoolSafety
  import opened PoolShutdown
  import opened ThreadPool

  ghost predicate Drains(c: Config) {
    forall t :: Reachable(c, t) && t.destroyer == Finished ==>
      t.stray == [] && multiset(t.completed) == multiset(t.accepted)
  }

  /** Either copy of the pool drains exactly when nobody submits, or when clients stop submitting before they destroy
      it and there is a worker. */
  lemma DrainsIff(c: Config)
    ensures Drains(c) <==> c.submitters == 0 || (c.disciplined && c.workers > 0)
  {
    hide Reachable;
    if c.submitters == 0 {
      forall t | Reachable(c, t) ensures t.stray == [] && multiset(t.completed) == multiset(t.accepted) {
        NothingSubmitted(c, t);
      }
    } else if c.disciplined && c.workers > 0 {
      forall t | Reachable(c, t) && t.destroyer == Finished
        ensures t.stray == [] && multiset(t.completed) == multiset(t.accepted)
      {
        DrainBeforeTeardown(c, t);
      }
    } else {
      var t := JobStrays(c);
      assert multiset(t.completed) == multiset{} && Job(0, true) in multiset(t.accepted);
    }
  }

  // ----- Nobody submits -----

  ghost predicate NoJobs(s: State) {
    s.submitters == [] && s.accepted == [] && s.queue == [] && s.stray == []
  }

  lemma {:induction false} NoJobsAlong(c: Config, s: State, steps: seq<Step>, t: State)
    requires NoJobs(s) && IsRun(c, s, steps, t)
    ensures NoJobs(t)
    decreases |steps|
  {
    if steps != [] {
      NoJobsKept(c, s, steps[0]);
      hide NoJobs, Next, Enabled;
      NoJobsAlong(c, Next(c, s, steps[0]), steps[1..], t);
    }
  }

  lemma NoJobsKept(c: Config, s: State, step: Step)
    requires NoJobs(s) && Enabled(c, s, step)
    ensures NoJobs(Next(c, s, step))
  {
  }

  lemma NothingSubmitted(c: Config, s: State)
    requires Reachable(c, s) && c.submitters == 0
    ensures s.accepted == s.stray == s.completed == []
  {
    var steps :| IsRun(c, Init(c), steps, s);
    NoJobsAlong(c, Init(c), steps, s);
    ReachableInv(c, s);
    assert Fifo(s) && Conserved(s);
    hide Inv, Reachable, IsRun, Tally;
    assert s.taken == [];
    assert multiset(s.completed) <= multiset(s.taken) == multiset{};
    assert |s.completed| == |multiset(s.completed)|;
  }

  // ----- A job is left behind -----

  /** With a client that goes on submitting, the workers leave one after the other before its job is enqueued; without
      a worker nobody takes the job.  queue_destroy then applies the argument's free function to the job struct. */
  lemma JobStrays(c: Config) returns (t: State)
    requires c.submitters > 0 && (!c.disciplined || c.workers == 0)
    ensures Reachable(c, t) && t.destroyer == Finished
    ensures t.stray == t.accepted == [Job(0, true)] && t.completed == []
  {
    hide Reachable, Next, Enabled;
    var s0 := Begun(c);
    var s: State;
    if c.workers == 0 {
      var s1 := Submitted(c, s0);
      var s2 := Announced(c, s1);
      var s3 := Cleared(c, s2);
      s := BroadcastToNobody(c, s3);
    } else {
      var s1 := Cleared(c, s0);
      var s2 := WorkersLeave(c, s1, 0);
      var s3 := BroadcastToNobody(c, s2);
      s := Submitted(c, s3);
    }
    var u := JoinAll(c, s, 0);
    t := TornDown(c, u);
    assert WithFree([Job(0, true)]) == [Job(0, true)] by {
      assert [Job(0, true)][..0] == [];
    }
  }

  lemma Begun(c: Config) returns (t: State)
    requires c.submitters > 0
    ensures Reachable(c, t)
    ensures t == Init(c).(submitters := Init(c).submitters[0 := Wanting(true)])
  {
    ReachableInit(c);
    ReachableNext(c, Init(c), Begin(0, true));
    t := Next(c, Init(c), Begin(0, true));
  }

  lemma Submitted(c: Config, s: State) returns (t: State)
    requires Reachable(c, s) && s.submitters != [] && s.submitters[0] == Wanting(true)
    requires s.mutex == None && s.queue == s.accepted == [] && s.destroyer != Finished
    ensures Reachable(c, t)
    ensures var job := Job(0, true);
      t == s.(mutex := Some(S(0)), queue := [job], accepted := [job], submitters := s.submitters[0 := Added])
  {
    ReachableNext(c, s, Submit(0));
    var s1 := Next(c, s, Submit(0));
    ReachableNext(c, s1, Submit(0));
    t := Next(c, s1, Submit(0));
    assert s1.submitters[0 := Added] == s.submitters[0 := Added];
  }

  /** The submission ends, and wakes nobody. */
  lemma Announced(c: Config, s: State) returns (t: State)
    requires Reachable(c, s) && s.submitters != [] && s.submitters[0] == Added
    requires s.workers == [] && s.destroyer != Finished
    ensures Reachable(c, t) && t == s.(mutex := None, submitters := s.submitters[0 := Idle])
  {
    ReachableNext(c, s, Submit(0));
    var s1 := Next(c, s, Submit(0));
    ReachableNext(c, s1, Submit(0));
    t := Next(c, s1, Submit(0));
    assert s1.submitters[0 := Idle] == s.submitters[0 := Idle];
  }

  lemma Cleared(c: Config, s: State) returns (t: State)
    requires Reachable(c, s) && s.destroyer == NotStarted && (c.disciplined ==> AllIdle(s.submitters))
    ensures Reachable(c, t)
    ensures t == s.(bRun := false, destroyer := if c.lockedShutdown then Locking else Broadcasting)
  {
    ReachableNext(c, s, Destroy);
    var s1 := Next(c, s, Destroy);
    ReachableNext(c, s1, Destroy);
    t := Next(c, s1, Destroy);
  }

  /** Workers k, k + 1, ... find no job and bRun clear, and leave. */
  lemma {:induction false} WorkersLeave(c: Config, s: State, k: nat) returns (t: State)
    requires Reachable(c, s) && !s.bRun && s.mutex == None && s.queue == [] && k <= |s.workers|
    requires forall i :: 0 <= i < |s.workers| ==> s.workers[i] == if i < k then Exited else Starting
    ensures Reachable(c, t) && |t.workers| == |s.workers| && t == s.(workers := t.workers)
    ensures forall i :: 0 <= i < |t.workers| ==> t.workers[i] == Exited
    decreases |s.workers| - k
  {
    if k == |s.workers| {
      t := s;
    } else {
      hide Reachable;
      var s1 := WorkerLeaves(c, s, k);
      t := WorkersLeave(c, s1, k + 1);
    }
  }

  lemma WorkerLeaves(c: Config, s: State, i: nat) returns (t: State)
    requires Reachable(c, s) && !s.bRun && s.mutex == None && s.queue == []
    requires i < |s.workers| && s.workers[i] == Starting
    ensures Reachable(c, t) && t == s.(workers := s.workers[i := Exited])
  {
    hide Reachable;
    var s1 := s.(mutex := Some(W(i)), workers := s.workers[i := Testing]);
    var s2 := s1.(workers := s.workers[i := Deciding]);
    var s3 := s1.(workers := s.workers[i := Leaving]);
    t := s.(workers := s.workers[i := Exited]);
    ReachableNext(c, s, Worker(i));
    assert Next(c, s, Worker(i)) == s1;
    ReachableNext(c, s1, Worker(i));
    assert s1.workers[i := Deciding] == s2.workers;
    ReachableNext(c, s2, Worker(i));
    assert s2.workers[i := Leaving] == s3.workers;
    ReachableNext(c, s3, Worker(i));
    assert s3.workers[i := Exited] == t.workers;
  }

  lemma BroadcastToNobody(c: Config, s: State) returns (t: State)
    requires Reachable(c, s) && s.mutex == None
    requires s.destroyer == if c.lockedShutdown then Locking else Broadcasting
    requires forall i :: 0 <= i < |s.workers| ==> s.workers[i] == Exited
    ensures Reachable(c, t) && t == s.(destroyer := Joining(0))
  {
    hide Reachable;
    assert WakeAll(s.workers) == s.workers;
    ReachableNext(c, s, Destroy);
    t := Next(c, s, Destroy);
    if c.lockedShutdown {
      ReachableNext(c, t, Destroy);
      t := Next(c, t, Destroy);
      ReachableNext(c, t, Destroy);
      t := Next(c, t, Destroy);
    }
  }

  lemma {:induction false} JoinAll(c: Config, s: State, k: nat) returns (t: State)
    requires Reachable(c, s) && k <= |s.workers| && s.destroyer == Joining(k)
    requires forall i :: 0 <= i < |s.workers| ==> s.workers[i] == Exited
    ensures Reachable(c, t) && t == s.(destroyer := TearingDown)
    decreases |s.workers| - k
  {
    ReachableNext(c, s, Destroy);
    t := Next(c, s, Destroy);
    if k < |s.workers| {
      hide Reachable;
      t := JoinAll(c, t, k + 1);
    }
  }

  lemma TornDown(c: Config, s: State) returns (t: State)
    requires Reachable(c, s) && s.destroyer == TearingDown
    ensures Reachable(c, t) && t == s.(queue := [], stray := s.stray + WithFree(s.queue), destroyer := Finished)
  {
    ReachableNext(c, s, Destroy);
    t := Next(c, s, Destroy);
  }
}
