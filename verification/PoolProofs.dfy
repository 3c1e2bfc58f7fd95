/** Safety and wake-up properties of the thread pool over whole runs. */
module PoolProofs {
  import opened PoolModel

  // ----- the ring buffer is a queue -----

  ghost predicate RingOk<J>(s: State<J>)
  {
    && s.head < |s.queue| && s.tail < |s.queue|
    && (|s.queue| > 1 ==> (s.empty <==> s.head == s.tail))
  }

  lemma NextSlotCases(at: nat, size: nat)
    requires at < size
    ensures NextSlot(at, size) == if at + 1 == size then 0 else at + 1
  {}

  /** Writing at the tail of a queue that is not full overwrites nothing. */
  lemma Enqueue<J>(s: State<J>, job: J, t: State<J>)
    requires RingOk(s) && !Full(s)
    requires t.queue == s.queue[s.tail := job] && t.head == s.head && !t.empty
    requires t.tail == NextSlot(s.tail, |s.queue|)
    ensures RingOk(t) && Contents(t) == Contents(s) + [job]
  {
    NextSlotCases(s.tail, |s.queue|);
    assert Jobs(t) == Jobs(s) + 1;
    forall i | 0 <= i < Jobs(t) ensures Contents(t)[i] == (Contents(s) + [job])[i] {
      if i == Jobs(s) {
        assert Slot(t, i) == s.tail;
      } else {
        assert Slot(t, i) == Slot(s, i) != s.tail;
      }
    }
  }

  lemma Dequeue<J>(s: State<J>, t: State<J>)
    requires RingOk(s) && !s.empty
    requires t.queue == s.queue && t.tail == s.tail
    requires t.head == NextSlot(s.head, |s.queue|) && t.empty == (t.head == s.tail)
    ensures RingOk(t) && Contents(s) == [s.queue[s.head]] + Contents(t)
  {
    NextSlotCases(s.head, |s.queue|);
    assert Jobs(s) == Jobs(t) + 1;
    assert Slot(s, 0) == s.head;
    forall i | 0 <= i < Jobs(t) ensures Contents(t)[i] == Contents(s)[i + 1] {
      assert Slot(t, i) == Slot(s, i + 1);
    }
  }

  lemma SameContents<J>(s: State<J>, t: State<J>)
    requires RingOk(s) && t.queue == s.queue && t.head == s.head && t.tail == s.tail && t.empty == s.empty
    ensures RingOk(t) && Contents(t) == Contents(s)
  {
    assert Jobs(t) == Jobs(s);
    forall i | 0 <= i < Jobs(s) ensures Contents(t)[i] == Contents(s)[i] {
      assert Slot(t, i) == Slot(s, i);
    }
  }

  // ----- one step keeps the invariant -----

  lemma AddKeeps<J>(s: State<J>, job: J, t: State<J>)
    requires Inv(s) && (!Full(s) || s.shutdown) && AddInternal(s, job, t)
    ensures Inv(t)
  {
    hide Number, RunningJobs, Contents, Full, Slot;
    if !s.shutdown {
      Enqueue(s, job, t);
      assert s.started + Contents(s) + [job] == s.started + (Contents(s) + [job]);
      NumberNone(s.workers, KWaiting);
      NumberSum(s.workers);
      if exists i :: 0 <= i < |s.workers| && s.workers[i].Waiting? {
        var i :| 0 <= i < |s.workers| && s.workers[i].Waiting? && t.workers == s.workers[i := Awake];
        UpdateAll(s.workers, i, Awake);
      }
      assert Jobs(t) == Jobs(s) + 1;
    }
  }

  lemma UpdateAll<J>(ws: seq<Worker<J>>, i: nat, w: Worker<J>)
    requires i < |ws|
    ensures forall k :: Number(ws[i := w], k) ==
              Number(ws, k) + (if KindOf(w) == k then 1 else 0) - (if KindOf(ws[i]) == k then 1 else 0)
    ensures RunningJobs(ws[i := w]) + JobOf(ws[i]) == RunningJobs(ws) + JobOf(w)
    ensures !ws[i].Running? && !w.Running? ==> RunningJobs(ws[i := w]) == RunningJobs(ws)
    ensures !ws[i].Running? && w.Running? ==> RunningJobs(ws[i := w]) == RunningJobs(ws) + multiset{w.job}
    ensures ws[i].Running? && !w.Running? ==> RunningJobs(ws[i := w]) + multiset{ws[i].job} == RunningJobs(ws)
  {
    hide Number, RunningJobs;
    assert forall m: multiset<J> :: m + multiset{} == m;
    forall k ensures Number(ws[i := w], k) ==
              Number(ws, k) + (if KindOf(w) == k then 1 else 0) - (if KindOf(ws[i]) == k then 1 else 0)
    {
      NumberUpdate(ws, i, w, k);
    }
    RunningUpdate(ws, i, w);
  }

  lemma SleepKeeps<J>(s: State<J>, w: nat, t: State<J>)
    requires Inv(s) && w < |s.workers| && s.workers[w].Awake? && CheckQueue(s, w, t)
    requires s.empty || s.busy >= s.limit
    ensures Inv(t)
  {
    hide Number, RunningJobs, Contents, Full, Slot;
    NumberSum(s.workers);
    NumberSum(t.workers);
    SameContents(s, t);
    UpdateAll(s.workers, w, if s.shutdown then Exited else Waiting);
  }

  lemma PopKeeps<J>(s: State<J>, w: nat, t: State<J>)
    requires Inv(s) && w < |s.workers| && s.workers[w].Awake? && CheckQueue(s, w, t)
    requires !(s.empty || s.busy >= s.limit)
    ensures Inv(t)
  {
    hide Number, RunningJobs, Contents, Full, Slot;
    NumberSum(s.workers);
    Dequeue(s, t);
    var job := s.queue[s.head];
    UpdateAll(s.workers, w, Running(job));
    assert s.started + ([job] + Contents(t)) == (s.started + [job]) + Contents(t);
    assert multiset(s.started + [job]) == multiset(s.started) + multiset{job};
  }

  lemma FinishKeeps<J>(s: State<J>, w: nat, t: State<J>)
    requires Inv(s) && Next(s, Finish(w), t)
    ensures Inv(t)
  {
    hide Number, RunningJobs, Contents, Full, Slot;
    SameContents(s, t);
    UpdateAll(s.workers, w, Awake);
    var job := s.workers[w].job;
    var rest := RunningJobs(t.workers);
    assert RunningJobs(s.workers) == rest + multiset{job};
    assert s.finished + (rest + multiset{job}) == (s.finished + multiset{job}) + rest;
  }

  lemma ResizeKeeps<J>(s: State<J>, threads: nat, created: nat, t: State<J>)
    requires Inv(s) && ResizeTo(s, threads, created, t)
    ensures Inv(t)
  {
    hide Number, RunningJobs, Contents, Full, Slot;
    SameContents(s, t);
    var ws := if threads <= |s.workers| then s.workers else s.workers + seq(created, _ => Awake);
    if threads > |s.workers| {
      forall k ensures Number(ws, k) == Number(s.workers, k) + (if k == KAwake then created else 0) {
        NumberAppend(s.workers, created, k);
      }
      NumberAppend(s.workers, created, KAwake);
    }
    NumberWake(ws);
  }

  lemma QuietKeeps<J>(s: State<J>, e: Event<J>, t: State<J>)
    requires Inv(s) && Next(s, e, t) && (e.Shutdown? || e.Broadcast? || e.Spurious?)
    ensures Inv(t)
  {
    hide Number, RunningJobs, Contents, Full, Slot;
    SameContents(s, t);
    NumberWake(s.workers);
    if e.Spurious? { UpdateAll(s.workers, e.w, Awake); }
  }

  /** Every critical section keeps the invariant. */
  lemma StepKeeps<J>(s: State<J>, e: Event<J>, t: State<J>)
    requires Inv(s) && Next(s, e, t)
    ensures Inv(t)
  {
    hide Number, RunningJobs, Contents, Inv, Full;
    match e
    case Add(job) => AddKeeps(s, job, t);
    case TryAdd(job, done) => if done { AddKeeps(s, job, t); }
    case Check(w) => if s.empty || s.busy >= s.limit { SleepKeeps(s, w, t); } else { PopKeeps(s, w, t); }
    case Finish(w) => FinishKeeps(s, w, t);
    case Resize(threads, created) => ResizeKeeps(s, threads, created, t);
    case Shutdown => QuietKeeps(s, e, t);
    case Broadcast => QuietKeeps(s, e, t);
    case Spurious(_) => QuietKeeps(s, e, t);
  }

  lemma InitKeeps<J>(s: State<J>)
    requires Init(s)
    ensures Inv(s)
  {
    NumberNone(s.workers, KRunning);
    NumberNone(s.workers, KExited);
    NoJobs(s.workers);
  }

  lemma {:induction false} NoJobs<J>(ws: seq<Worker<J>>)
    requires forall i :: 0 <= i < |ws| ==> ws[i].Awake? || ws[i].Waiting?
    ensures RunningJobs(ws) == multiset{}
    decreases |ws|
  {
    if ws != [] { NoJobs(ws[..|ws| - 1]); }
  }

  // ----- whole runs -----

  /** A run: any interleaving of the events of any number of threads. */
  ghost predicate Run<J>(states: seq<State<J>>, events: seq<Event<J>>)
  {
    && |states| == |events| + 1
    && Init(states[0])
    && forall i :: 0 <= i < |events| ==> Next(states[i], events[i], states[i + 1])
  }

  lemma {:induction false} RunKeeps<J>(states: seq<State<J>>, events: seq<Event<J>>, n: nat)
    requires Run(states, events) && n < |states|
    ensures Inv(states[n])
    decreases n
  {
    hide Inv, Init, Next;
    if n == 0 {
      InitKeeps(states[0]);
    } else {
      RunKeeps(states, events, n - 1);
      StepKeeps(states[n - 1], events[n - 1], states[n]);
    }
  }

  /** Jobs start in the order in which they were accepted; the ones not started yet
      are all in the queue; every started job is running or finished, once. */
  lemma RunSafety<J>(states: seq<State<J>>, events: seq<Event<J>>)
    requires Run(states, events)
    ensures forall n :: 0 <= n < |states| ==> QueueInv(states[n])
  {
    hide Inv, Init, Next, Run;
    forall n | 0 <= n < |states| ensures QueueInv(states[n]) {
      RunKeeps(states, events, n);
      InvQueue(states[n]);
    }
  }

  lemma InvQueue<J>(s: State<J>)
    requires Inv(s)
    ensures QueueInv(s)
  {}

  /** When `POOL_join` has joined every worker, whichever test each of them left by,
      the queue is empty and every accepted job has run exactly once. */
  lemma JoinedMeansDone<J>(states: seq<State<J>>, events: seq<Event<J>>, n: nat)
    requires Run(states, events) && n < |states|
    requires forall i :: 0 <= i < |states[n].workers| ==> states[n].workers[i].Exited?
    ensures states[n].empty && states[n].started == states[n].accepted
    ensures states[n].finished == multiset(states[n].accepted)
  {
    RunKeeps(states, events, n);
    AllExited(states[n]);
  }

  lemma AllExited<J>(s: State<J>)
    requires Inv(s) && forall i :: 0 <= i < |s.workers| ==> s.workers[i].Exited?
    ensures s.empty && s.started == s.accepted && s.finished == multiset(s.accepted)
  {
    hide Number, RunningJobs, Slot;
    NumberNone(s.workers, KAwake);
    NumberNone(s.workers, KWaiting);
    NumberNone(s.workers, KRunning);
    NumberSum(s.workers);
    NoRunning(s.workers);
    assert Contents(s) == [];
  }

  lemma {:induction false} NoRunning<J>(ws: seq<Worker<J>>)
    requires forall i :: 0 <= i < |ws| ==> !ws[i].Running?
    ensures RunningJobs(ws) == multiset{}
    decreases |ws|
  {
    if ws != [] { NoRunning(ws[..|ws| - 1]); }
  }

  /** No wake-up is lost: whenever a job may be taken, some worker is awake to take
      it. */
  lemma NoLostWakeUp<J>(states: seq<State<J>>, events: seq<Event<J>>, n: nat)
    requires Run(states, events) && n < |states|
    requires !states[n].shutdown && !states[n].empty && states[n].busy < states[n].limit
    ensures exists w :: 0 <= w < |states[n].workers| && states[n].workers[w].Awake?
  {
    RunKeeps(states, events, n);
    SomeAwake(states[n]);
  }

  lemma SomeAwake<J>(s: State<J>)
    requires Inv(s) && !s.shutdown && !s.empty && s.busy < s.limit
    ensures exists w :: 0 <= w < |s.workers| && s.workers[w].Awake?
  {
    hide Number, RunningJobs, Contents, Slot;
    NumberSum(s.workers);
    NumberNone(s.workers, KAwake);
    assert Jobs(s) > 0;
  }

  // ----- when a job is taken, in and out -----

  /** A pool with a queue takes as many waiting jobs as were asked for; one without takes
      a job exactly when none waits and the running ones are not as many as the limit. */
  lemma FullExactly<J>(s: State<J>)
    requires Inv(s)
    ensures |s.queue| > 1 ==> (Full(s) <==> |Contents(s)| == |s.queue| - 1)
    ensures |s.queue| == 1 ==> (Full(s) <==> Contents(s) != [] || Number(s.workers, KRunning) == s.limit)
  {
    hide Number, RunningJobs, Slot;
  }

  /** A worker that looks takes the oldest job exactly when one waits and fewer run than
      may; otherwise it leaves or goes to sleep and changes nothing. */
  lemma TakesExactly<J>(s: State<J>, w: nat, t: State<J>)
    requires Inv(s) && Next(s, Check(w), t)
    ensures w < |t.workers| == |s.workers|
    ensures if Contents(s) != [] && Number(s.workers, KRunning) < s.limit
            then t.workers == s.workers[w := Running(Contents(s)[0])] && Contents(t) == Contents(s)[1..]
            else t.workers == s.workers[w := if s.shutdown then Exited else Waiting] && Contents(t) == Contents(s)
    ensures Number(t.workers, KRunning) <= Number(s.workers, KRunning) || Number(t.workers, KRunning) <= t.limit
  {
    hide Number, RunningJobs, Slot, Contents;
    if s.empty || s.busy >= s.limit {
      SameContents(s, t);
    } else {
      Dequeue(s, t);
    }
    UpdateAll(s.workers, w, t.workers[w]);
    assert |Contents(s)| == Jobs(s);
  }

  /** After a resize as many jobs may run as there were to be threads, exactly if all
      threads that were missing could be started; threads that are not to run jobs stay.
      Nobody sleeps, and no job starts, ends or moves. */
  lemma ResizeLimits<J>(s: State<J>, threads: nat, created: nat, t: State<J>)
    requires Inv(s) && Next(s, Resize(threads, created), t)
    ensures t.limit == if 0 < threads <= |s.workers| + created then threads else s.limit
    ensures |t.workers| == if threads <= |s.workers| then |s.workers| else |s.workers| + created
    ensures Number(t.workers, KWaiting) == 0 && Number(t.workers, KRunning) == Number(s.workers, KRunning)
    ensures Contents(t) == Contents(s) && RunningJobs(t.workers) == RunningJobs(s.workers)
  {
    hide Number, RunningJobs, Slot, Contents;
    SameContents(s, t);
    if threads <= |s.workers| {
      NumberWake(s.workers);
    } else {
      NumberWake(s.workers + seq(created, _ => Awake));
      NumberAppend(s.workers, created, KRunning);
    }
  }

  /** A job that is added to a pool is the last of the waiting ones, or dropped when the
      pool is shutting down. */
  lemma AddsLast<J>(s: State<J>, e: Event<J>, t: State<J>)
    requires Inv(s) && Next(s, e, t) && (e.Add? || (e.TryAdd? && e.done))
    ensures Contents(t) == if s.shutdown then Contents(s) else Contents(s) + [e.job]
  {
    hide Number, RunningJobs, Slot, Contents;
    if !s.shutdown { Enqueue(s, e.job, t); }
  }

  /** Never more jobs run at once than the limit, as long as that is not lowered. */
  lemma {:induction false} NeverTooMany<J>(states: seq<State<J>>, events: seq<Event<J>>, n: nat)
    requires Run(states, events) && n < |states|
    requires forall i :: 0 <= i < n ==> states[i].limit <= states[i + 1].limit
    ensures Number(states[n].workers, KRunning) <= states[n].limit
    decreases n
  {
    hide Number, RunningJobs, Slot, Contents, Inv, Init, Next;
    RunKeeps(states, events, n);
    InvBusy(states[n]);
    if n == 0 {
      NothingRuns(states[0]);
    } else {
      NeverTooMany(states, events, n - 1);
      RunKeeps(states, events, n - 1);
      InvBusy(states[n - 1]);
      BusyStep(states[n - 1], events[n - 1], states[n]);
    }
  }

  lemma InvBusy<J>(s: State<J>)
    requires Inv(s)
    ensures s.busy == Number(s.workers, KRunning)
  {}

  lemma NothingRuns<J>(s: State<J>)
    requires Init(s)
    ensures s.busy <= s.limit
  {}

  lemma BusyStep<J>(s: State<J>, e: Event<J>, t: State<J>)
    requires Next(s, e, t) && s.busy <= s.limit <= t.limit
    ensures t.busy <= t.limit
  {}

  // ----- shutting down -----

  /** What is left to do after the broadcast of `POOL_join`. */
  ghost function Left<J>(s: State<J>): nat
    requires s.head < |s.queue| && s.tail < |s.queue|
  {
    3 * Jobs(s) + 2 * Number(s.workers, KRunning) + Number(s.workers, KAwake)
  }

  /** After that broadcast every step of a worker brings the end closer, */
  lemma ShutdownProgress<J>(s: State<J>, e: Event<J>, t: State<J>)
    requires Inv(s) && s.shutdown && s.woken && Next(s, e, t) && (e.Check? || e.Finish?)
    ensures t.shutdown && t.woken && t.head < |t.queue| && t.tail < |t.queue| && Left(t) < Left(s)
  {
    hide Number, RunningJobs, Contents, Slot;
    match e
    case Check(w) =>
      if s.empty || s.busy >= s.limit {
        SameContents(s, t);
        UpdateAll(s.workers, w, Exited);
      } else {
        Dequeue(s, t);
        UpdateAll(s.workers, w, Running(s.queue[s.head]));
      }
    case Finish(w) =>
      SameContents(s, t);
      UpdateAll(s.workers, w, Awake);
  }

  /** ... and until all have left some worker has a step: joining them cannot hang. */
  lemma ShutdownNotStuck<J>(s: State<J>)
    requires Inv(s) && s.shutdown && s.woken
    requires exists i :: 0 <= i < |s.workers| && !s.workers[i].Exited?
    ensures exists e: Event<J>, t: State<J> :: (e.Check? || e.Finish?) && Next(s, e, t)
  {
    hide Number, RunningJobs, Contents, Slot;
    NumberNone(s.workers, KWaiting);
    NumberNone(s.workers, KRunning);
    var w: nat :| w < |s.workers| && !s.workers[w].Exited?;
    assert KindOf(s.workers[w]) != KWaiting;
    if s.workers[w].Awake? {
      var t := Checked(s, w);
      assert Next(s, Check(w), t);
    } else {
      assert KindOf(s.workers[w]) == KRunning;
      var t := s.(busy := s.busy - 1, workers := s.workers[w := Awake], finished := s.finished + multiset{s.workers[w].job});
      assert Next(s, Finish(w), t);
    }
  }

  /** The waiting loop has a result in every state. */
  ghost function Checked<J>(s: State<J>, w: nat): (t: State<J>)
    requires w < |s.workers| && s.head < |s.queue|
    ensures CheckQueue(s, w, t)
  {
    if s.empty || s.busy >= s.limit then
      s.(workers := s.workers[w := if s.shutdown then Exited else Waiting])
    else
      var job, head := s.queue[s.head], NextSlot(s.head, |s.queue|);
      s.(head := head, busy := s.busy + 1, empty := head == s.tail,
         workers := s.workers[w := Running(job)], started := s.started + [job])
  }
}
