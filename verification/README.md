# Verified models of the client-server code

This project models the four connected cores of `Client-Server-Networking` in Dafny and proves what they promise.

* **Thread pool** (`tpool.c`, `queue.c`). `ThreadPool.dfy` is a step system: any number of workers and submitters and
  one destroyer share a mutex, a condition variable with spurious wakeups, a FIFO and the flag `b_run`; a step is one
  statement of one thread. Two switches cover both copies of the code (is the shutdown broadcast sent under the
  mutex?) and both kinds of clients (do they stop submitting before the shutdown?). `PoolSafety.dfy` proves the
  invariants over every run of both copies, `PoolShutdown.dfy` what happens from the moment `b_run` is cleared,
  `PoolDrain.dfy` which pools leave no job behind, and `PoolSubmissions.dfy` that the accepted jobs are the calls of
  `tpool_add_job`. `Pool.dfy` is the shared object itself, over the linked queue of
  `Queue.dfy`; each method is proved to be a step, so that the object is always in a reachable state.
* **Tournament bracket** (`bracket.c`). `Bracket.dfy` proves the queue loops against functions on sequences, and then
  for which line-ups the declared winner is the strongest entrant.
* **Ring list, merge sort, hash table** (`list.c`, `htable.c`). `RingList.dfy` is the circular list with its relinking
  sort, `MergeSort.dfy` the sort on sequences. `HashTable.dfy` is the bucket array over these lists; each method is
  proved to compute a function of `HashSpec.dfy`, where the table is shown to refine a finite map.
* **Account service** (`server_client_helper.c`). `Names.dfy` has the concrete hash and comparison and what they need
  of a key. `Accounts.dfy` specifies the service, `Server.dfy` is the service over the hash table with its client
  objects, and `AccountRuns.dfy` has the theorems about whole runs.

`Options.dfy`, `Powers.dfy` and `Sequences.dfy` are shared helpers. `dafny verify dfyconfig.toml` checks everything.

Eight promises do not hold for all inputs. For each one the code is kept and the exact condition is proved:

* The ChatRoom copy of the pool comments the shutdown lock out. Its shutdown can hang: a worker may find `b_run` set,
  miss the broadcast and then sleep (`UnlockedCanMiss`, `MissedForever`, `LockDecidesShutdown`, `JoinCompletesIff`).
* A job can be left behind, and its struct handed to its argument's free function, when clients go on submitting
  during the shutdown, or when there is no worker; and only then (`DrainsIff`).
* `set_bracket` fights `size / 4 + 1` rounds, which is one too few for six sizes of the field (`CorrectSizes`).
* One doubling of the table makes room up to 2^30 buckets; beyond that `capacity * 3` overflows 32 bits, and after one
  more key the capacity itself does (`DoublingMakesRoomIff`, `RehashMakesRoomIff`, `LimitIsExact`).
* Names that compare equal hash alike only when they end within the 10 bytes that are compared: the hash reads up to
  100 (`HashAgreesIff`).
* Updating a password copies `new_pass_len + 1` bytes over the old one. A length that does not cover the new
  password leaves a mixture of both (`UpdateHonouredIff`, `UpdateThenLoginIff`, `ShortLengthLocksOut`).
* Session numbers of live accounts are different until the 64-bit counter wraps around (`CreateKeepsSessionsIff`).
* The number of users in a login reply has 8 bits and is right for fewer than 256 accounts (`LoginCountIff`).

The header of the list promises a sorted list and no more: the sort is not stable (`SortIsNotStable`),
and a list with one element is left as an open chain with `false` returned, as the code does.

In the step system one statement is one step. This is adequate because `b_run` is atomic in the source and everything
else is shared only under the mutex, which `OneInside` proves. Arithmetic is unbounded except where the source's width
can matter: load, capacity and hash are computed modulo 2^32, session numbers modulo 2^64, the user count modulo 2^8,
and `char` is signed.

## Model

| member | source | states |
|---|---|---|
| `PoolShutdown.LockDecidesShutdown` | Client-Server-Networking/ChatRoom/src/tpool.c:189-191 | With clients that have stopped, every reachable pool in which no thread can move after `b_run` was cleared has finished its shutdown, if and only if the broadcast is sent under the mutex or there is no worker: module_1 always finishes, the ChatRoom copy need not. |
| `PoolShutdown.ShutdownCompletes` | Client-Server-Networking/CSD-D-JQR-Project-6-thread-pool/module_1/src/tpool.c:169-208 | Once `b_run` is clear, every maximal run of the locked pool ends with `tpool_destroy` completed, after at most `Measure` steps. |
| `PoolShutdown.ShutdownTerminates` | Client-Server-Networking/CSD-D-JQR-Project-6-thread-pool/module_1/src/tpool.c:122-208 | Every run after `b_run` is clear is no longer than the measure over queue length and program counters of its first state, for either copy. |
| `PoolShutdown.StepDecreases` | Client-Server-Networking/CSD-D-JQR-Project-6-thread-pool/module_1/src/tpool.c:122-208 | Every step of every thread, spurious wakeups included, strictly decreases the measure once `b_run` is clear. |
| `PoolShutdown.Progress` | Client-Server-Networking/CSD-D-JQR-Project-6-thread-pool/module_1/src/tpool.c:122-208 | Until the destroyer has finished some thread can move, provided no worker sleeps after the broadcast. |
| `PoolShutdown.DrainBeforeTeardown` | Client-Server-Networking/CSD-D-JQR-Project-6-thread-pool/module_1/src/tpool.c:137-145 | When `queue_destroy` is reached or done, all workers have exited, the queue is empty, every accepted job is completed and no job struct was handed to a free function. |
| `PoolShutdown.RunToQuiescence` | Client-Server-Networking/CSD-D-JQR-Project-6-thread-pool/module_1/src/tpool.c:122-208 | From every state after `b_run` is clear there is a run, without spurious wakeups, to a state where nothing can move. |
| `PoolShutdown.JoinCompletesIff` | Client-Server-Networking/CSD-D-JQR-Project-6-thread-pool/module_1/src/tpool.c:182-185 | The joins complete on every maximal run if and only if no worker is asleep, or about to sleep, when they begin. |
| `PoolShutdown.MissedForever` | Client-Server-Networking/ChatRoom/src/tpool.c:143-146 | A worker that missed the broadcast is never woken but by a spurious wakeup, and the destroyer never finishes. |
| `PoolShutdown.UnlockedCanMiss` | Client-Server-Networking/ChatRoom/src/tpool.c:189-195 | A reachable state of the unlocked copy, for every number of workers, in which the joins begin while worker 0 is about to sleep. |
| `PoolDrain.DrainsIff` | Client-Server-Networking/CSD-D-JQR-Project-6-thread-pool/module_1/src/tpool.c:137-204 | For either copy and any numbers of threads: whenever `tpool_destroy` has finished, every accepted job is completed and no job struct was handed to a free function, if and only if nobody submits, or clients stop submitting first and there is a worker. |
| `PoolDrain.JobStrays` | Client-Server-Networking/CSD-D-JQR-Project-6-thread-pool/module_1/src/tpool.c:85-204 | Otherwise, for every number of workers and submitters, a reachable run in which a job is never executed and its struct is handed to its argument's free function. |
| `PoolSubmissions.EachSubmissionAccepted` | Client-Server-Networking/CSD-D-JQR-Project-6-thread-pool/module_1/src/tpool.c:64-89 | In every run of either copy the calls of `tpool_add_job`, with and without a free function, are as many as the accepted jobs and the submitters before their enqueue: no call is dropped or counted twice. |
| `PoolSubmissions.EachSubmissionCompleted` | Client-Server-Networking/CSD-D-JQR-Project-6-thread-pool/module_1/src/tpool.c:64-208 | With clients that have stopped and a worker, as many jobs of either kind are completed when `tpool_destroy` returns as there were calls. |
| `PoolSubmissions.IdleIff` | Client-Server-Networking/CSD-D-JQR-Project-6-thread-pool/module_1/src/tpool.c:130-146 | Before the shutdown no worker and no submitter can move by itself if and only if all workers sleep and no submitter is on its way; then the queue is empty and every call has been executed. |
| `ThreadPool.BroadcastsWakeAll` | Client-Server-Networking/ChatRoom/src/tpool.c:190 | Each broadcast of either copy wakes every sleeping worker, and the other steps of submitters and destroyer change no worker. |
| `PoolSafety.ExactlyOnce` | Client-Server-Networking/CSD-D-JQR-Project-6-thread-pool/module_1/src/tpool.c:64-89 | In every reachable state accepted jobs are the queued, held and completed ones as multisets; a completed job's function was called once and its argument's free function once if there is one and never otherwise, after the function; a queued job was not called. |
| `PoolSafety.DispatchIsFifo` | Client-Server-Networking/CSD-D-JQR-Project-6-thread-pool/module_1/src/tpool.c:137-145 | Jobs leave the queue in acceptance order, and a worker at the dequeue always finds a job. |
| `PoolSafety.OneInside` | Client-Server-Networking/CSD-D-JQR-Project-6-thread-pool/module_1/src/tpool.c:84-86 | Of all workers, submitters and the destroyer at most one is inside a critical section, and it owns the mutex. |
| `PoolSafety.WakeupsArrive` | Client-Server-Networking/CSD-D-JQR-Project-6-thread-pool/module_1/src/tpool.c:84-87 | A worker that sleeps beside a queued job has an announcement still coming; with the locked broadcast none sleeps after the shutdown broadcast. |
| `PoolSafety.ReachableInv` | Client-Server-Networking/ChatRoom/src/tpool.c:75-219 | Every reachable state of either copy satisfies all eleven invariants. |
| `PoolSafety.InvKept` | Client-Server-Networking/CSD-D-JQR-Project-6-thread-pool/module_1/src/tpool.c:64-208 | Every step of every thread keeps the whole invariant. |
| `PoolSafety.InvInit` | Client-Server-Networking/CSD-D-JQR-Project-6-thread-pool/module_1/src/tpool.c:23-62 | A new pool satisfies the invariant. |
| `PoolSafety.MutualExclusionKept` | Client-Server-Networking/CSD-D-JQR-Project-6-thread-pool/module_1/src/tpool.c:84-86 | Every step keeps: the mutex has an owner exactly when that thread, and no other, is in a critical section. |
| `PoolSafety.RunFlagKept` | Client-Server-Networking/CSD-D-JQR-Project-6-thread-pool/module_1/src/tpool.c:199 | `b_run` is set exactly until the destroyer has cleared it, and never again. |
| `PoolSafety.WorkersSeeKept` | Client-Server-Networking/CSD-D-JQR-Project-6-thread-pool/module_1/src/tpool.c:130-144 | What a worker has tested stays true while it holds the mutex, although `b_run` is cleared without it. |
| `PoolSafety.JoinedExitedKept` | Client-Server-Networking/CSD-D-JQR-Project-6-thread-pool/module_1/src/tpool.c:182-185 | Joined workers have exited; at teardown all have been joined. |
| `PoolSafety.FifoKept` | Client-Server-Networking/CSD-D-JQR-Project-6-thread-pool/module_1/src/queue.c:55-122 | The acceptance history is the dequeue history followed by the queue. |
| `PoolSafety.ConservedKept` | Client-Server-Networking/CSD-D-JQR-Project-6-thread-pool/module_1/src/tpool.c:143-167 | Dequeued jobs are those held by workers and those completed. |
| `PoolSafety.LoggedKept` | Client-Server-Networking/CSD-D-JQR-Project-6-thread-pool/module_1/src/tpool.c:151-167 | For every job the calls logged are those of workers past the call and of completions. |
| `PoolSafety.FreedAfterRunKept` | Client-Server-Networking/CSD-D-JQR-Project-6-thread-pool/module_1/src/tpool.c:157-162 | A free function is only called after the job's function. |
| `PoolSafety.NoLostWakeupKept` | Client-Server-Networking/CSD-D-JQR-Project-6-thread-pool/module_1/src/tpool.c:84-87 | A non-empty queue beside a sleeping worker means a submitter about to broadcast. |
| `PoolSafety.NoMissedShutdownKept` | Client-Server-Networking/CSD-D-JQR-Project-6-thread-pool/module_1/src/tpool.c:178-180 | After the locked broadcast no worker is asleep or between its test and its wait. |
| `PoolSafety.DrainedKept` | Client-Server-Networking/CSD-D-JQR-Project-6-thread-pool/module_1/src/tpool.c:137-141 | With clients that have stopped, a worker leaves only an empty queue, and nothing is enqueued afterwards. |
| `SharedPool.Pool.constructor` | Client-Server-Networking/CSD-D-JQR-Project-6-thread-pool/module_1/src/tpool.c:23-62 | The object form of the pool starts in the initial state, which is reachable; every method keeps it reachable. |
| `SharedPool.Pool.EachJobOnce` | Client-Server-Networking/CSD-D-JQR-Project-6-thread-pool/module_1/src/tpool.c:151-167 | On the object: each job's function and the free function of its argument are called at most once, and both exactly as often as due once it is completed. |
| `SharedPool.Pool.HeldJobIsThere` | Client-Server-Networking/CSD-D-JQR-Project-6-thread-pool/module_1/src/tpool.c:155 | On the object: the job that a worker has taken is never null. |
| `SharedPool.Pool.Broadcast` | Client-Server-Networking/CSD-D-JQR-Project-6-thread-pool/module_1/src/tpool.c:87 | Wakes exactly the sleeping workers. |
| `SharedPool.Pool.AwaitJob` | Client-Server-Networking/CSD-D-JQR-Project-6-thread-pool/module_1/src/tpool.c:130-135 | The inner loop, statement by statement, is the step of the model. |
| `SharedPool.Pool.LeaveOrTake` | Client-Server-Networking/CSD-D-JQR-Project-6-thread-pool/module_1/src/tpool.c:137-144 | The test after the inner loop and both unlocks are the steps of the model. |
| `SharedPool.Pool.TakeJob` | Client-Server-Networking/CSD-D-JQR-Project-6-thread-pool/module_1/src/tpool.c:143 | Dequeuing from the linked queue is the step of the model, and always yields the front job. |
| `SharedPool.Pool.CallJob` | Client-Server-Networking/CSD-D-JQR-Project-6-thread-pool/module_1/src/tpool.c:155-157 | The null test and the call of `execute_job` are the step of the model. |
| `SharedPool.Pool.FreeArgument` | Client-Server-Networking/CSD-D-JQR-Project-6-thread-pool/module_1/src/tpool.c:159-164 | The rest of `execute_job` is the step of the model. |
| `SharedPool.Pool.WakeSpuriously` | Client-Server-Networking/CSD-D-JQR-Project-6-thread-pool/module_1/src/tpool.c:134 | A condition wait that ends for no reason is the step of the model. |
| `SharedPool.Pool.BeginAddJob` | Client-Server-Networking/CSD-D-JQR-Project-6-thread-pool/module_1/src/tpool.c:64-71 | Entering `tpool_add_job` is the step of the model. |
| `SharedPool.Pool.EnqueueJob` | Client-Server-Networking/CSD-D-JQR-Project-6-thread-pool/module_1/src/tpool.c:73-85 | The job struct, which only its submitter knows before, goes behind all others on the linked queue with its submitter's free function: the step of the model. |
| `SharedPool.Pool.LockOrAnnounce` | Client-Server-Networking/CSD-D-JQR-Project-6-thread-pool/module_1/src/tpool.c:84-87 | Lock, unlock and broadcast of `tpool_add_job` are the steps of the model. |
| `SharedPool.Pool.BeginShutdown` | Client-Server-Networking/CSD-D-JQR-Project-6-thread-pool/module_1/src/tpool.c:190-199 | Entering `tpool_destroy` and clearing `b_run` are the steps of the model. |
| `SharedPool.Pool.LockForShutdown` | Client-Server-Networking/CSD-D-JQR-Project-6-thread-pool/module_1/src/tpool.c:178-180 | Lock and unlock around the broadcast are the steps of the model. |
| `SharedPool.Pool.AnnounceShutdown` | Client-Server-Networking/ChatRoom/src/tpool.c:190 | The broadcast of either copy is the step of the model. |
| `SharedPool.Pool.JoinNext` | Client-Server-Networking/CSD-D-JQR-Project-6-thread-pool/module_1/src/tpool.c:182-185 | One turn of the loop of joins is the step of the model. |
| `SharedPool.Pool.TearDown` | Client-Server-Networking/CSD-D-JQR-Project-6-thread-pool/module_1/src/tpool.c:204 | `queue_destroy` is the step of the model: it hands every remaining job struct with a free function to it; with clients that have stopped and a worker there is none, and every accepted job is completed. |
| `Queues.Queue.constructor` | Client-Server-Networking/CSD-D-JQR-Project-6-thread-pool/module_1/src/queue.c:10-24 | A new queue is empty. |
| `Queues.Queue.IsEmpty` | Client-Server-Networking/CSD-D-JQR-Project-6-thread-pool/module_1/src/queue.c:38-53 | Says whether the queue is empty. |
| `Queues.Queue.Enqueue` | Client-Server-Networking/CSD-D-JQR-Project-6-thread-pool/module_1/src/queue.c:55-90 | Links one fresh node with the given free function behind all others, also after the queue was emptied. |
| `Queues.Queue.Dequeue` | Client-Server-Networking/CSD-D-JQR-Project-6-thread-pool/module_1/src/queue.c:93-122 | Unlinks the front node and returns its payload; nothing happens on an empty queue. |
| `Queues.Queue.Peek` | Client-Server-Networking/CSD-D-JQR-Project-6-thread-pool/module_1/src/queue.c:124-141 | Returns the front payload, if there is one. |
| `Queues.Queue.DestroyItems` | Client-Server-Networking/CSD-D-JQR-Project-6-thread-pool/module_1/src/queue.c:144-178 | Empties the queue, and frees exactly the payloads whose node has a free function, in order. |
| `Queues.OwnedIff` | Client-Server-Networking/CSD-D-JQR-Project-6-thread-pool/module_1/src/queue.c:161-172 | The payloads freed are exactly those of the nodes with a free function. |
| `Queues.OwnedConcat` | Client-Server-Networking/CSD-D-JQR-Project-6-thread-pool/module_1/src/queue.c:161-172 | They are freed node by node, in the order of the chain. |
| `ThreadPool.WithFreeIff` | Client-Server-Networking/CSD-D-JQR-Project-6-thread-pool/module_1/src/queue.c:161-172 | On the queue of the pool: exactly the jobs whose argument has a free function. |
| `ThreadPool.WithFreeConcat` | Client-Server-Networking/CSD-D-JQR-Project-6-thread-pool/module_1/src/queue.c:161-172 | On the queue of the pool: in order. |
| `Bracket.CorrectSizes` | Client-Server-Networking/bracket.c:17-114 | `set_bracket` returns the maximum of every line-up of n entrants if and only if n is not 10, 11, 13, 18, 19 or 21. |
| `Bracket.SetBracketDeclaresStrongestContender` | Client-Server-Networking/bracket.c:41-114 | For every line-up the returned value is the maximum of an explicit part of the field: all of it, except for the six short sizes. |
| `Bracket.SetBracketCorrectIff` | Client-Server-Networking/bracket.c:41-114 | For every line-up the returned value is the maximum of the field if and only if the maximum is in that part. |
| `Bracket.FinalistsIff` | Client-Server-Networking/bracket.c:19-35 | After the rounds there are two entrants left for the six short sizes and exactly one for all others. |
| `Bracket.ShortSizeWinner` | Client-Server-Networking/bracket.c:36 | With two finalists the front one, which is returned, is the maximum of its part of the field. |
| `Bracket.RoundsCorrect` | Client-Server-Networking/bracket.c:21-35 | k rounds keep the maximum, and leave one entrant if and only if there were at most 2^k. |
| `Bracket.EnoughRounds` | Client-Server-Networking/bracket.c:19 | `size / 4 + 1` rounds suffice for an even size if and only if it is not 6 or 10. |
| `Bracket.StageKeepsStrongest` | Client-Server-Networking/bracket.c:55-110 | Byes and play-in never eliminate the maximum. |
| `Bracket.Stage` | Client-Server-Networking/bracket.c:55-110 | The second stage has an even number of at least two entrants. |
| `Bracket.StageIsByes` | Client-Server-Networking/bracket.c:60-93 | With one or two byes the front entrants go on first, and the others are paired off in an even number. |
| `Bracket.StageIsPlayIn` | Client-Server-Networking/bracket.c:94-110 | With a play-in its winner comes last, and all are paired off. |
| `Bracket.SetBracket` | Client-Server-Networking/bracket.c:41-114 | The queue program computes the specified winner, through all five branches. |
| `Bracket.PerfectBracket` | Client-Server-Networking/bracket.c:17-39 | The round loop on the linked queue computes the rounds, returns their front entrant and empties the queue. |
| `Bracket.FightRound` | Client-Server-Networking/bracket.c:23-33 | One pass leaves an odd last entrant in front of the winners. |
| `Bracket.NextFight` | Client-Server-Networking/bracket.c:26-29 | Two entrants leave the front, the stronger is returned. |
| `Bracket.PairOff` | Client-Server-Networking/bracket.c:65-73 | The pair-off loop appends the winners of neighbouring pairs. |
| `Bracket.OneBye` | Client-Server-Networking/bracket.c:60-74 | Size 3 modulo 4: the front entrant goes on, the others fight. |
| `Bracket.TwoByes` | Client-Server-Networking/bracket.c:75-93 | Size 2 modulo 4: the two front entrants go on, the others fight. |
| `Bracket.OnePlayIn` | Client-Server-Networking/bracket.c:94-110 | Size 1 modulo 4: the two front entrants fight for the last place first. |
| `Bracket.WinnersPairedOff` | Client-Server-Networking/bracket.c:66-73 | Winner k is the stronger of entrants 2k and 2k + 1. |
| `RingLists.RingList.constructor` | Client-Server-Networking/ChatRoom/src/list.c:30-45 | A new list is empty, with the given comparison. |
| `RingLists.RingList.Append` | Client-Server-Networking/ChatRoom/src/list.c:59-94 | One fresh node goes behind the tail and the ring is closed, also on a list emptied before. |
| `RingLists.RingList.Prepend` | Client-Server-Networking/ChatRoom/src/list.c:96-131 | One fresh node goes before the head and the ring is closed, also on a list emptied before. |
| `RingLists.RingList.Insert` | Client-Server-Networking/ChatRoom/src/list.c:133-180 | One fresh node goes to the position, which is clamped to the length. |
| `RingLists.RingList.LinkAfter` | Client-Server-Networking/ChatRoom/src/list.c:161-179 | A fresh node between two positions changes nothing else. |
| `RingLists.InsertAtOrder` | Client-Server-Networking/ChatRoom/src/list.c:165-178 | An insertion puts one element in, and all elements before and behind it stay in order. |
| `RingLists.RingList.NodeBefore` | Client-Server-Networking/ChatRoom/src/list.c:265-284 | The walk of insertion and removal ends at the node before the position. |
| `RingLists.RingList.PopTail` | Client-Server-Networking/ChatRoom/src/list.c:182-215 | Removes and returns the last element, if there is one. |
| `RingLists.RingList.PopHead` | Client-Server-Networking/ChatRoom/src/list.c:217-235 | Removes and returns the first element, if there is one. |
| `RingLists.RingList.Remove` | Client-Server-Networking/ChatRoom/src/list.c:237-288 | Removes and returns the element at the position; a position beyond the end does nothing. |
| `RingLists.RingList.UnlinkAfter` | Client-Server-Networking/ChatRoom/src/list.c:270-279 | Unlinking an interior node keeps the order of the others. |
| `RingLists.RemoveAtOrder` | Client-Server-Networking/ChatRoom/src/list.c:265-284 | A removal takes one element out, and all elements before and behind it stay in order. |
| `RingLists.InsertRemove` | Client-Server-Networking/ChatRoom/src/list.c:133-288 | A removal undoes an insertion at the same position, and the reverse. |
| `RingLists.RingList.Index` | Client-Server-Networking/ChatRoom/src/list.c:290-314 | Returns the element at the position, if there is one. |
| `RingLists.FirstMatch` | Client-Server-Networking/ChatRoom/src/list.c:316-346 | The result is the first position that compares equal, or -1 exactly when there is none. |
| `RingLists.RingList.FirstOccurrence` | Client-Server-Networking/ChatRoom/src/list.c:316-346 | The loop around the ring finds the first match. |
| `RingLists.RemovalIndex` | Client-Server-Networking/ChatRoom/src/list.c:348-393 | Some element is removed exactly when one matches: the head if it matches, else the tail if it matches, else the first match. |
| `RingLists.RingList.RemoveVal` | Client-Server-Networking/ChatRoom/src/list.c:348-393 | Removes that element and keeps the ring and the order of the others; otherwise changes nothing. |
| `RingLists.RingList.MergeSort` | Client-Server-Networking/ChatRoom/src/list.c:436-463 | Returns true exactly for two or more elements; then the same nodes, each with its data and free function, form a closed ring again, in the order of the specified sort. With one element the ring is left open. |
| `RingLists.NodeMergeSort` | Client-Server-Networking/ChatRoom/src/list.c:465-523 | Relinks a chain of nodes into the specified sort of exactly these nodes; the end is reported only when there was something to merge. |
| `RingLists.CutChain` | Client-Server-Networking/ChatRoom/src/list.c:480-518 | The loop cuts a chain after half its nodes and finds its end. |
| `RingLists.MergeChains` | Client-Server-Networking/ChatRoom/src/list.c:395-434 | Relinks two disjoint chains into the specified merge and reports its last node. |
| `RingLists.SortOnData` | Client-Server-Networking/ChatRoom/src/list.c:465-523 | Sorting nodes by their data sorts the data. |
| `MergeSort.MergePermutes` | Client-Server-Networking/ChatRoom/src/list.c:395-434 | The merge loses and duplicates nothing, whatever the comparison answers. |
| `MergeSort.MergeSorted` | Client-Server-Networking/ChatRoom/src/list.c:395-434 | Under a total preorder the merge of sorted sequences is sorted, although the arguments are exchanged. |
| `MergeSort.SortPermutes` | Client-Server-Networking/ChatRoom/src/list.c:465-523 | The sort loses and duplicates nothing, whatever the comparison answers. |
| `MergeSort.SortSorted` | Client-Server-Networking/ChatRoom/src/list.c:436-523 | Under a total preorder on the elements the result is sorted. |
| `MergeSort.SortIsNotStable` | Client-Server-Networking/ChatRoom/src/list.c:432 | Elements that compare equal can change their order. |
| `HashSpec.RunRefinesMap` | Client-Server-Networking/ChatRoom/src/htable.c:201-320 | Over every run of insertions, searches and removals, of any length, with never more than 3 * 2^28 keys at a time, the table answers like a finite map and goes on representing it. |
| `HashSpec.InsertCorrect` | Client-Server-Networking/ChatRoom/src/htable.c:201-260 | An insertion changes nothing when the key is there and adds it otherwise, rehash included. |
| `HashSpec.FindCorrect` | Client-Server-Networking/ChatRoom/src/htable.c:262-286 | A search finds the map's entry, or nothing exactly when there is none. |
| `HashSpec.RemoveCorrect` | Client-Server-Networking/ChatRoom/src/htable.c:288-320 | A removal takes the key's entry out of the map, and changes nothing when there is none. |
| `HashSpec.RehashKeeps` | Client-Server-Networking/ChatRoom/src/htable.c:102-179 | From any table: a rehash loses, duplicates and misplaces no entry and keeps `curr_size`. |
| `HashSpec.MoveAllKeeps` | Client-Server-Networking/ChatRoom/src/htable.c:146-173 | Bucket after bucket, the rest of the old table and the new table add up. |
| `HashSpec.RehashOrder` | Client-Server-Networking/ChatRoom/src/htable.c:146-173 | Every bucket of the new table holds what belongs there of the old table, in reverse order. |
| `HashSpec.PlaceKeeps` | Client-Server-Networking/ChatRoom/src/htable.c:80-100 | Inserting a node puts it into the bucket of its hash modulo the capacity, and nowhere else. |
| `HashSpec.SizeAndLoad` | Client-Server-Networking/ChatRoom/src/htable.c:50-56 | `curr_size` is the sum of the bucket sizes and the number of keys, at most three quarters of a capacity that is a power of two. |
| `HashSpec.MaxSizeIsThreeQuarters` | Client-Server-Networking/ChatRoom/src/htable.c:139-141 | Up to 2^30 buckets the 32-bit load arithmetic does not overflow. |
| `HashSpec.DoublingMakesRoomIff` | Client-Server-Networking/ChatRoom/src/htable.c:126-141 | For every 32-bit power of two: one doubling makes room if and only if the new capacity is at most 2^30. |
| `HashSpec.RehashMakesRoomIff` | Client-Server-Networking/ChatRoom/src/htable.c:222-226 | A full table has room after one rehash if and only if it had fewer than 2^30 buckets, and is then within its load. |
| `HashSpec.LimitIsExact` | Client-Server-Networking/ChatRoom/src/htable.c:126-141 | After a new key is inserted the table can take another one if and only if there were fewer than 3 * 2^28 keys: otherwise the next doubling gives 0 buckets. |
| `HashSpec.GrowthIsAmortized` | Client-Server-Networking/ChatRoom/src/htable.c:22-24 | Over every such run from the empty table all rehashes together move fewer than two entries per successful insertion. |
| `HashSpec.PaidStep` | Client-Server-Networking/ChatRoom/src/htable.c:201-320 | Every operation keeps the books of entries moved and entries inserted. |
| `HashSpec.NewTableCorrect` | Client-Server-Networking/ChatRoom/src/htable.c:31-66 | A new table represents the empty map. |
| `HashTables.HTable.constructor` | Client-Server-Networking/ChatRoom/src/htable.c:31-66 | Two buckets without lists, and room for one entry. |
| `HashTables.HTable.Find` | Client-Server-Networking/ChatRoom/src/htable.c:262-286 | Searching the bucket's list is the specified search, the missing list and the -1 index included. |
| `HashTables.HTable.NodeInsert` | Client-Server-Networking/ChatRoom/src/htable.c:80-100 | Prepends to the list of the node's bucket, creating it first if need be; the other buckets stay. |
| `HashTables.HTable.Rehash` | Client-Server-Networking/ChatRoom/src/htable.c:102-179 | Fails exactly when there is room; otherwise the fresh table is the specified rehash. |
| `HashTables.HTable.MoveBuckets` | Client-Server-Networking/ChatRoom/src/htable.c:146-173 | The outer loop moves all buckets in order. |
| `HashTables.HTable.MoveBucket` | Client-Server-Networking/ChatRoom/src/htable.c:163-170 | The inner loop empties one bucket from its head into the new table. |
| `HashTables.HTable.Insert` | Client-Server-Networking/ChatRoom/src/htable.c:201-260 | Fails exactly when the key is found, and then changes nothing; otherwise the table referred to afterwards is the specified insertion. |
| `HashTables.HTable.Remove` | Client-Server-Networking/ChatRoom/src/htable.c:288-320 | Returns what the search finds, and removes it. |
| `Names.HashF` | Client-Server-Networking/ChatRoom/src/server_client_helper.c:48-58 | The 32-bit accumulator loop computes the sum of the characters, reduced once: 0 for the empty string, the character itself for a string of one. |
| `Names.SumConcat` | Client-Server-Networking/ChatRoom/src/server_client_helper.c:51-56 | The sum starts at 0, adds each character once, and adds up over parts. |
| `Names.StrNCmpIsZeroIff` | Client-Server-Networking/ChatRoom/src/server_client_helper.c:61-67 | Two strings compare equal exactly when they are the same up to the compared length. |
| `Names.StrNCmpFirstDifference` | Client-Server-Networking/ChatRoom/src/server_client_helper.c:65 | Otherwise the result is the difference of the first two characters that differ, as unsigned characters. |
| `Names.HashAgreesIff` | Client-Server-Networking/ChatRoom/src/server_client_helper.c:48-67 | A key hashes like everything it compares equal to, at every table size, if and only if its NUL is within the 10 bytes compared. |
| `Names.AccountOpsLawful` | Client-Server-Networking/ChatRoom/src/server_client_helper.c:48-67 | For the name fields of accounts, keys that compare equal have one name and hash alike: what the hash table needs. |
| `Names.HashOfDouble` | Client-Server-Networking/ChatRoom/src/server_client_helper.c:57 | The hash for 2c buckets, modulo c, is the hash for c. |
| `Names.RehashSplitsBucket` | Client-Server-Networking/ChatRoom/src/htable.c:80-84 | A rehash sends an entry of bucket i to bucket i or i + capacity and nowhere else. |
| `AccountRuns.RunAgrees` | Client-Server-Networking/ChatRoom/src/server_client_helper.c:87-344 | Over every run a request succeeds exactly when it succeeds on a plain map from names to passwords, and that map is the service's. |
| `AccountRuns.StepAgrees` | Client-Server-Networking/ChatRoom/src/server_client_helper.c:87-344 | The same for one request from any state. |
| `AccountRuns.ReplyIff` | Client-Server-Networking/ChatRoom/src/server_client_helper.c:167-344 | From any state: unknown name if and only if the name is absent, wrong password if and only if it is present with another one, with different codes; otherwise, and only then, each request's own acknowledgement, which for a deletion is silence. |
| `AccountRuns.CreateReplyIff` | Client-Server-Networking/ChatRoom/src/server_client_helper.c:139-151 | A creation is refused with its own code if and only if the name is present, and acknowledged otherwise. |
| `AccountRuns.AckIsStored` | Client-Server-Networking/ChatRoom/src/server_client_helper.c:130-160 | An acknowledged creation stores the session number that is sent, and the password. |
| `AccountRuns.OthersUntouched` | Client-Server-Networking/ChatRoom/src/server_client_helper.c:87-344 | A request changes no other account, a refused one and a login change none, and no account ever changes its session number. |
| `AccountRuns.LoginCountIff` | Client-Server-Networking/ChatRoom/src/server_client_helper.c:211-223 | The number of users in a login reply is right if and only if there are fewer than 256, and otherwise right modulo 256. |
| `Accounts.StrNCpy` | Client-Server-Networking/ChatRoom/src/server_client_helper.c:134-135 | Byte by byte: the string, then NULs up to the length, then the old bytes. |
| `AccountRuns.RunKeepsSessions` | Client-Server-Networking/ChatRoom/src/server_client_helper.c:130-132 | Over every run with too few creations to wrap 64 bits, live accounts have different session numbers, none above the counter, which counts the creations. |
| `AccountRuns.CreateKeepsSessionsIff` | Client-Server-Networking/ChatRoom/src/server_client_helper.c:130-132 | A creation, accepted or refused, keeps that if and only if the counter does not wrap around. |
| `AccountRuns.SessionsGrow` | Client-Server-Networking/ChatRoom/src/server_client_helper.c:130-160 | Session numbers sent out only grow, so a deleted account's number is not given again. |
| `AccountRuns.NewFieldIff` | Client-Server-Networking/ChatRoom/src/server_client_helper.c:134-135 | A new account's name or password is the packet's string if and only if the packet's length covers it. |
| `AccountRuns.UpdateStoresIff` | Client-Server-Networking/ChatRoom/src/server_client_helper.c:329 | An update stores the packet's string over every old password if and only if the copied length covers its NUL, or the whole field. |
| `AccountRuns.UpdatedFieldIff` | Client-Server-Networking/ChatRoom/src/server_client_helper.c:329 | For a given old password: if and only if the NUL is copied, or the rest of the old password continues the new one. |
| `AccountRuns.UpdateThenLoginIff` | Client-Server-Networking/ChatRoom/src/server_client_helper.c:309-344 | After an acknowledged update from any state, a login with the new password succeeds if and only if that is so. |
| `AccountRuns.UpdateHonouredIff` | Client-Server-Networking/ChatRoom/src/server_client_helper.c:309-344 | Every acknowledged update with this password and length is followed by a successful login, if and only if the length covers the password. |
| `AccountRuns.ShortLengthLocksOut` | Client-Server-Networking/ChatRoom/src/server_client_helper.c:329 | An acknowledged update with too short a length after which neither the old nor the new password is accepted. |
| `Servers.Server.constructor` | Client-Server-Networking/ChatRoom/src/server_client_helper.c:108 | The service starts without accounts. |
| `Servers.Server.VerifyClient` | Client-Server-Networking/ChatRoom/src/server_client_helper.c:232-270 | Finds the account of the name and the right password; otherwise reports an unknown name or a wrong password. |
| `Servers.Server.CreateAccount` | Client-Server-Networking/ChatRoom/src/server_client_helper.c:87-165 | The reply and the new accounts are those of the specification, creating the table first if need be; a refused creation uses up a session number. |
| `Servers.Server.HandleLogin` | Client-Server-Networking/ChatRoom/src/server_client_helper.c:167-227 | The reply is that of the specification, with the number of accounts modulo 256. |
| `Servers.Server.RemoveClient` | Client-Server-Networking/ChatRoom/src/server_client_helper.c:272-307 | The reply and the remaining accounts are those of the specification. |
| `Servers.Server.UpdateClient` | Client-Server-Networking/ChatRoom/src/server_client_helper.c:309-344 | Writes the password of one account in place; the reply and all accounts are those of the specification. |
| `Servers.Server.Handle` | Client-Server-Networking/ChatRoom/src/server_client_helper.c:376-416 | Dispatching a request is one step of the specification. |

## Left out

- Sockets, file transfer, directory listing, signals, logging and printing: input and output only.
- Null arguments and failing allocations: the types exclude the first, the second is taken not to happen.
- Releasing memory: nodes and tables that the source frees become unreachable here. What free functions are applied to is modelled for the queue only.
- The queue's `position` field, which nothing reads, and the wrap-around of its 32-bit size.
- A list is limited to 2^31 - 1 elements, because `list_first_occurrence` returns a signed 32-bit position.
- RingLists.RingList.MergeSort: requires that a list without elements was never filled, because after pops its pointers refer to released nodes. The comparison is a parameter, because the list's own one compares an element with an item.
- RingLists.RingList.RemoveVal: requires an element, because `list_remove_val` reads the head without a test of the size.
- `list_size`, `list_destroy`, `htable_update` and `htable_destroy`: single reads, assignments or releases; nothing calls `htable_update`.
- HashTables.HTable.Insert: requires a table whose size field is the number of its entries and below 2^31, and whose next capacity is not 0; every table that represents a map is one.
- HashSpec.RunRefinesMap: requires that there are never more than 3 * 2^28 keys at a time. `LimitIsExact` shows that beyond this the source divides by a capacity of 0.
- HashSpec.GrowthIsAmortized: requires the same.
- Servers.Server.CreateAccount: requires that the account still fits into the table, that the name fields have a NUL in them, and lengths below 10 and 25. With a larger length `strncpy` runs past the field, which has no defined effect.
- Servers.Server.UpdateClient: requires a length below 25 for the same reason.
- Servers.Server.Handle: requires what these two require.
- AccountRuns.RunAgrees: assumes that the packet lengths cover the strings; `NewFieldIff` and `UpdateHonouredIff` say what happens otherwise.
- Servers.Server.HandleLogin: stops at the reply; the message loop that follows is not part of this model.
- Concurrent use of the account table: requests are handled one after the other. `remove_client` releases a mutex that it has not taken.
- The account's socket and address fields, which no reply depends on.
- PoolShutdown.ShutdownCompletes: job functions are taken to terminate; the call of a job is one step.
- SharedPool.Pool.BeginAddJob: the allocation of the job struct is part of the enqueue step, since no other thread can see the struct before.
- Partial failure of `tpool_create`, and using or destroying a pool that has been torn down.
- `decide_winner` of worker.c: its end depends on random numbers.
- The second copies of the bracket and of the queue, and the practice programs: they add nothing to these models.
