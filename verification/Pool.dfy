/** `POOL_ctx` and its critical sections, each proved to be one event of
    `PoolModel`.  The mutex is what makes a method atomic here; `workers` stands for
    the threads themselves. */
module Pool {
  import opened PoolModel
  import opened PoolProofs

  class PoolCtx<J(0)> {
    var queue: array<J>
    var queueHead: nat
    var queueTail: nat
    var queueSize: nat
    var numThreadsBusy: nat
    var queueEmpty: bool
    var shutdown: bool
    var threadCapacity: nat
    var threadLimit: nat

    ghost var workers: seq<Worker<J>>
    ghost var woken: bool
    ghost var accepted: seq<J>
    ghost var started: seq<J>
    ghost var finished: multiset<J>

    ghost function Snapshot(): State<J>
      reads this, queue
    {
      State(queue[..], queueHead, queueTail, queueEmpty, numThreadsBusy, threadLimit, shutdown, woken, workers,
            accepted, started, finished)
    }

    ghost predicate Valid()
      reads this, queue
    {
      queueSize == queue.Length && threadCapacity == |workers| && Inv(Snapshot())
    }

    /** `POOL_create_advanced`: one slot more than the intended queue size, so that a
        full queue differs from an empty one. */
    constructor (numThreads: nat, size: nat)
      requires numThreads > 0
      ensures Valid() && fresh(queue) && Init(Snapshot())
      ensures queueSize == size + 1 && threadCapacity == numThreads
    {
      queueSize := size + 1;
      queue := new J[size + 1];
      queueHead, queueTail, numThreadsBusy := 0, 0, 0;
      queueEmpty, shutdown := true, false;
      threadCapacity, threadLimit := numThreads, numThreads;
      workers := seq(numThreads, _ => Awake);
      woken, accepted, started, finished := false, [], [], multiset{};
      new;
      InitKeeps(Snapshot());
    }

    /** `isQueueFull`. */
    predicate IsQueueFull()
      requires Valid()
      reads this, queue
      ensures IsQueueFull() == Full(Snapshot())
    {
      if queueSize > 1 then queueHead == (queueTail + 1) % queueSize
      else numThreadsBusy == threadLimit || !queueEmpty
    }

    /** `pthread_cond_signal(&queuePopCond)`. */
    ghost method SignalPop()
      modifies this`workers
      ensures Signalled(old(workers), workers)
    {
      if i :| 0 <= i < |workers| && workers[i].Waiting? {
        workers := workers[i := Awake];
      }
    }

    /** `POOL_add_internal`: a pool that is shutting down drops the job. */
    method AddInternal(job: J)
      requires Valid() && (!IsQueueFull() || shutdown)
      modifies this, queue
      ensures queue == old(queue) && Valid() && PoolModel.AddInternal(old(Snapshot()), job, Snapshot())
    {
      hide Number, RunningJobs, Contents, Slot, Inv;
      InvQueue(Snapshot());
      ghost var s := Snapshot();
      if shutdown { return; }
      queueEmpty := false;
      queue[queueTail] := job;
      queueTail := (queueTail + 1) % queueSize;
      accepted := accepted + [job];
      SignalPop();
      Threads(s);
      AddKeeps(s, job, Snapshot());
    }

    lemma Threads(s: State<J>)
      ensures forall t: seq<Worker<J>> :: Signalled(s.workers, t) ==> |t| == |s.workers|
    {}

    /** `POOL_add`, once its wait for space is over. */
    method Add(job: J)
      requires Valid() && (!IsQueueFull() || shutdown)
      modifies this, queue
      ensures queue == old(queue) && Valid() && Next(old(Snapshot()), Event.Add(job), Snapshot())
    {
      hide Number, RunningJobs, Contents, Slot, Inv;
      InvQueue(Snapshot());
      AddInternal(job);
    }

    /** `POOL_tryAdd`.  It answers true also when a shutdown dropped the job. */
    method TryAdd(job: J) returns (done: bool)
      requires Valid()
      modifies this, queue
      ensures queue == old(queue) && Valid() && Next(old(Snapshot()), Event.TryAdd(job, done), Snapshot())
      ensures var waiting, s := |old(Contents(Snapshot()))|, old(Snapshot());
        done <==> if queueSize > 1 then waiting < queueSize - 1 else waiting == 0 && Number(s.workers, KRunning) != s.limit
    {
      hide Number, RunningJobs, Contents, Slot, Inv;
      InvQueue(Snapshot());
      FullExactly(Snapshot());
      if IsQueueFull() { return false; }
      AddInternal(job);
      return true;
    }

    /** `POOL_thread` from taking the mutex to releasing it: the worker takes a job,
        goes to sleep, or leaves. */
    method ThreadCheck(ghost w: nat) returns (state: Worker<J>)
      requires Valid() && w < |workers| && workers[w].Awake?
      modifies this
      ensures queue == old(queue) && Valid() && Next(old(Snapshot()), Check(w), Snapshot())
      ensures state == workers[w]
    {
      hide Number, RunningJobs, Contents, Slot, Inv;
      InvQueue(Snapshot());
      ghost var s := Snapshot();
      if queueEmpty || numThreadsBusy >= threadLimit {
        state := if shutdown then Exited else Waiting;
      } else {
        state := Running(queue[queueHead]);
        started := started + [queue[queueHead]];
        queueHead := (queueHead + 1) % queueSize;
        numThreadsBusy := numThreadsBusy + 1;
        queueEmpty := queueHead == queueTail;
      }
      workers := workers[w := state];
      StepKeeps(s, Check(w), Snapshot());
    }

    /** `POOL_thread` after the job. */
    method ThreadFinish(ghost w: nat)
      requires Valid() && w < |workers| && workers[w].Running?
      modifies this
      ensures queue == old(queue) && Valid() && Next(old(Snapshot()), Finish(w), Snapshot())
    {
      hide RunningJobs, Contents, Slot;
      NumberNone(workers, KRunning);
      InvQueue(Snapshot());
      ghost var s := Snapshot();
      numThreadsBusy := numThreadsBusy - 1;
      finished := finished + multiset{workers[w].job};
      workers := workers[w := Awake];
      StepKeeps(s, Finish(w), Snapshot());
    }

    /** `POOL_resize`, when `startable` more threads can be started.  It fails for no
        threads at all, or when a thread cannot be started. */
    method Resize(numThreads: nat, startable: nat) returns (failed: bool)
      requires Valid()
      modifies this
      ensures queue == old(queue) && Valid()
      ensures exists created :: Next(old(Snapshot()), Event.Resize(numThreads, created), Snapshot())
      ensures failed <==> numThreads == 0 || numThreads > old(threadCapacity) + startable
      ensures threadLimit == if failed then old(threadLimit) else numThreads
    {
      hide Number, RunningJobs, Contents, Slot, Inv;
      InvQueue(Snapshot());
      ghost var s := Snapshot();
      ghost var created := 0;
      failed := false;
      if numThreads <= threadCapacity {
        if numThreads == 0 { failed := true; } else { threadLimit := numThreads; }
      } else {
        var threadId := threadCapacity;
        while threadId < numThreads && threadId - threadCapacity < startable
          invariant threadCapacity <= threadId <= numThreads && threadId - threadCapacity <= startable
        {
          threadId := threadId + 1;
        }
        created := threadId - threadCapacity;
        failed := threadId < numThreads;
        threadCapacity := threadId;
        workers := workers + seq(created, _ => Awake);
        if !failed { threadLimit := numThreads; }
      }
      workers := WakeAll(workers);
      assert Next(s, Event.Resize(numThreads, created), Snapshot());
      StepKeeps(s, Event.Resize(numThreads, created), Snapshot());
    }

    /** `POOL_join`, under the mutex, */
    method BeginShutdown()
      requires Valid()
      modifies this
      ensures queue == old(queue) && Valid() && Next(old(Snapshot()), Event.Shutdown, Snapshot())
    {
      hide Number, RunningJobs, Contents, Slot, Inv;
      InvQueue(Snapshot());
      ghost var s := Snapshot();
      shutdown := true;
      StepKeeps(s, Event.Shutdown, Snapshot());
    }

    /** ... and the broadcast that follows. */
    method WakeSleepers()
      requires Valid() && shutdown
      modifies this
      ensures queue == old(queue) && Valid() && Next(old(Snapshot()), Event.Broadcast, Snapshot())
    {
      hide Number, RunningJobs, Contents, Slot, Inv;
      InvQueue(Snapshot());
      ghost var s := Snapshot();
      workers := WakeAll(workers);
      woken := true;
      StepKeeps(s, Event.Broadcast, Snapshot());
    }
  }
}
