/** The thread pool of libzstd/common/pool.c as a state machine.  One event is one
    critical section: what a thread does between taking `queueMutex` and releasing
    it or going to sleep.  A pusher blocked in `POOL_add` has simply not taken its
    `Add` step yet. */
module PoolModel {

  /** A worker sleeps on `queuePopCond` when `Waiting`; when `Awake` it is about to
      take the mutex and test the queue. */
  datatype Worker<J> = Awake | Waiting | Running(job: J) | Exited

  /** The fields of `POOL_ctx`, the workers, and, as history, the jobs enqueued,
      taken and finished so far.  `woken` records the broadcast of `POOL_join`. */
  datatype State<J> = State(
    queue: seq<J>, head: nat, tail: nat, empty: bool, busy: nat, limit: nat, shutdown: bool,
    woken: bool, workers: seq<Worker<J>>,
    accepted: seq<J>, started: seq<J>, finished: multiset<J>)

  datatype Event<J> =
    | Add(job: J)
    | TryAdd(job: J, done: bool)
    | Check(w: nat)
    | Finish(w: nat)
    | Resize(threads: nat, created: nat)
    | Shutdown
    | Broadcast
    | Spurious(w: nat)

  // ----- the queue -----

  /** `isQueueFull`. */
  predicate Full<J>(s: State<J>)
    requires |s.queue| > 0
  {
    if |s.queue| > 1 then s.head == (s.tail + 1) % |s.queue|
    else s.busy == s.limit || !s.empty
  }

  function Jobs<J>(s: State<J>): nat
    requires s.head < |s.queue| && s.tail < |s.queue|
  {
    if s.empty then 0
    else if s.head < s.tail then s.tail - s.head
    else s.tail + |s.queue| - s.head
  }

  /** The waiting jobs, oldest first. */
  ghost function Contents<J>(s: State<J>): (c: seq<J>)
    requires s.head < |s.queue| && s.tail < |s.queue|
    ensures |c| == Jobs(s)
  {
    seq(Jobs(s), i requires 0 <= i < Jobs(s) => s.queue[Slot(s, i)])
  }

  function Slot<J>(s: State<J>, i: nat): (at: nat)
    requires s.head < |s.queue| && s.tail < |s.queue| && i < Jobs(s)
    ensures at < |s.queue|
  {
    if s.head + i < |s.queue| then s.head + i else s.head + i - |s.queue|
  }

  function NextSlot(at: nat, size: nat): nat
    requires at < size
  {
    (at + 1) % size
  }

  // ----- the workers -----

  datatype Kind = KAwake | KWaiting | KRunning | KExited

  function KindOf<J>(w: Worker<J>): Kind
  {
    match w
    case Awake => KAwake
    case Waiting => KWaiting
    case Running(_) => KRunning
    case Exited => KExited
  }

  function Number<J>(ws: seq<Worker<J>>, k: Kind): (n: nat)
    ensures n <= |ws|
  {
    if ws == [] then 0 else Number(ws[..|ws| - 1], k) + (if KindOf(ws[|ws| - 1]) == k then 1 else 0)
  }

  ghost function RunningJobs<J>(ws: seq<Worker<J>>): multiset<J>
  {
    if ws == [] then multiset{} else RunningJobs(ws[..|ws| - 1]) + JobOf(ws[|ws| - 1])
  }

  ghost function JobOf<J>(w: Worker<J>): multiset<J>
  {
    if w.Running? then multiset{w.job} else multiset{}
  }

  /** `pthread_cond_broadcast(&queuePopCond)`. */
  function WakeAll<J>(ws: seq<Worker<J>>): (r: seq<Worker<J>>)
    ensures |r| == |ws|
    ensures forall i :: 0 <= i < |ws| ==> r[i] == if ws[i].Waiting? then Awake else ws[i]
  {
    seq(|ws|, i requires 0 <= i < |ws| => if ws[i].Waiting? then Awake else ws[i])
  }

  /** `pthread_cond_signal(&queuePopCond)`: one sleeper wakes, if there is any. */
  ghost predicate Signalled<J>(ws: seq<Worker<J>>, after: seq<Worker<J>>)
  {
    if exists i :: 0 <= i < |ws| && ws[i].Waiting?
    then exists i :: 0 <= i < |ws| && ws[i].Waiting? && after == ws[i := Awake]
    else after == ws
  }

  // ----- the critical sections -----

  /** `POOL_add_internal`. */
  ghost predicate AddInternal<J>(s: State<J>, job: J, t: State<J>)
    requires s.tail < |s.queue|
  {
    if s.shutdown then t == s
    else
      && Signalled(s.workers, t.workers)
      && t == s.(empty := false, queue := s.queue[s.tail := job], tail := NextSlot(s.tail, |s.queue|),
                 workers := t.workers, accepted := s.accepted + [job])
  }

  /** One pass of `POOL_thread`'s waiting loop, up to the end of the pop. */
  ghost predicate CheckQueue<J>(s: State<J>, w: nat, t: State<J>)
    requires w < |s.workers| && s.head < |s.queue|
  {
    if s.empty || s.busy >= s.limit then
      t == s.(workers := s.workers[w := if s.shutdown then Exited else Waiting])
    else
      var job := s.queue[s.head];
      var head := NextSlot(s.head, |s.queue|);
      t == s.(head := head, busy := s.busy + 1, empty := head == s.tail,
              workers := s.workers[w := Running(job)], started := s.started + [job])
  }

  /** `POOL_resize`; `created` threads could be started of those that were missing. */
  ghost predicate ResizeTo<J>(s: State<J>, threads: nat, created: nat, t: State<J>)
  {
    if threads <= |s.workers| then
      t == s.(limit := if threads == 0 then s.limit else threads, workers := WakeAll(s.workers))
    else
      && created <= threads - |s.workers|
      && t == s.(limit := if created == threads - |s.workers| then threads else s.limit,
                 workers := WakeAll(s.workers + seq(created, _ => Awake)))
  }

  ghost predicate Next<J>(s: State<J>, e: Event<J>, t: State<J>)
  {
    && s.head < |s.queue| && s.tail < |s.queue|
    && match e
       case Add(job) => (!Full(s) || s.shutdown) && AddInternal(s, job, t)
       case TryAdd(job, done) => done == !Full(s) && (if done then AddInternal(s, job, t) else t == s)
       case Check(w) => w < |s.workers| && s.workers[w].Awake? && CheckQueue(s, w, t)
       case Finish(w) =>
         && w < |s.workers| && s.workers[w].Running? && s.busy > 0
         && t == s.(busy := s.busy - 1, workers := s.workers[w := Awake],
                    finished := s.finished + multiset{s.workers[w].job})
       case Resize(threads, created) => ResizeTo(s, threads, created, t)
       case Shutdown => t == s.(shutdown := true)
       case Broadcast => s.shutdown && t == s.(woken := true, workers := WakeAll(s.workers))
       case Spurious(w) =>
         w < |s.workers| && s.workers[w].Waiting? && t == s.(workers := s.workers[w := Awake])
  }

  /** `POOL_create` with at least one thread; a worker may already have gone to
      sleep on the empty queue. */
  ghost predicate Init<J>(s: State<J>)
  {
    && |s.queue| > 0 && s.head == s.tail == 0 && s.empty && s.busy == 0
    && !s.shutdown && !s.woken
    && 0 < s.limit == |s.workers|
    && (forall i :: 0 <= i < |s.workers| ==> s.workers[i].Awake? || s.workers[i].Waiting?)
    && s.accepted == [] && s.started == [] && s.finished == multiset{}
  }

  // ----- what every state keeps -----

  /** The ring buffer is well formed, jobs start in the order they were accepted,
      none is lost or overwritten, and the ones started are those finished and
      those running. */
  ghost predicate QueueInv<J>(s: State<J>)
  {
    && s.head < |s.queue| && s.tail < |s.queue|
    && (|s.queue| > 1 ==> (s.empty <==> s.head == s.tail))
    && s.accepted == s.started + Contents(s)
    && multiset(s.started) == s.finished + RunningJobs(s.workers)
  }

  ghost predicate WorkerInv<J>(s: State<J>)
  {
    && s.busy == Number(s.workers, KRunning)
    && 0 < s.limit <= |s.workers|
    && (!s.shutdown ==> Number(s.workers, KExited) == 0 && !s.woken)
    && (s.woken ==> Number(s.workers, KWaiting) == 0)
    && (!s.empty ==> Number(s.workers, KExited) < |s.workers|)
  }

  function Min(a: int, b: int): int { if a < b then a else b }

  /** If any worker sleeps, enough others are awake to take every job that may be
      taken now. */
  ghost predicate WakeInv<J>(s: State<J>)
    requires s.head < |s.queue| && s.tail < |s.queue|
  {
    !s.shutdown && Number(s.workers, KWaiting) > 0 ==>
      Number(s.workers, KAwake) >= Min(Jobs(s), s.limit - s.busy)
  }

  ghost predicate Inv<J>(s: State<J>)
  {
    QueueInv(s) && WorkerInv(s) && WakeInv(s)
  }

  // ----- counting workers -----

  lemma {:induction false} NumberUpdate<J>(ws: seq<Worker<J>>, i: nat, w: Worker<J>, k: Kind)
    requires i < |ws|
    ensures Number(ws[i := w], k) ==
            Number(ws, k) + (if KindOf(w) == k then 1 else 0) - (if KindOf(ws[i]) == k then 1 else 0)
    decreases |ws|
  {
    var m := |ws| - 1;
    if i == m {
      assert ws[i := w][..m] == ws[..m];
    } else {
      assert ws[i := w][..m] == ws[..m][i := w];
      NumberUpdate(ws[..m], i, w, k);
    }
  }

  lemma {:induction false} NumberNone<J>(ws: seq<Worker<J>>, k: Kind)
    ensures Number(ws, k) == 0 <==> forall i :: 0 <= i < |ws| ==> KindOf(ws[i]) != k
    decreases |ws|
  {
    if ws != [] {
      NumberNone(ws[..|ws| - 1], k);
      assert forall i :: 0 <= i < |ws| ==> i == |ws| - 1 || ws[i] == ws[..|ws| - 1][i];
    }
  }

  lemma {:induction false} NumberSum<J>(ws: seq<Worker<J>>)
    ensures Number(ws, KAwake) + Number(ws, KWaiting) + Number(ws, KRunning) + Number(ws, KExited) == |ws|
    decreases |ws|
  {
    if ws != [] { NumberSum(ws[..|ws| - 1]); }
  }

  lemma {:induction false} NumberAppend<J>(ws: seq<Worker<J>>, n: nat, k: Kind)
    ensures Number(ws + seq(n, _ => Awake), k) == Number(ws, k) + (if k == KAwake then n else 0)
    ensures RunningJobs(ws + seq(n, _ => Awake)) == RunningJobs(ws)
    decreases n
  {
    var more := ws + seq(n, _ => Awake);
    if n == 0 {
      assert more == ws;
    } else {
      NumberAppend(ws, n - 1, k);
      assert more[..|more| - 1] == ws + seq(n - 1, _ => Awake);
    }
  }

  lemma {:induction false} NumberWake<J>(ws: seq<Worker<J>>)
    ensures Number(WakeAll(ws), KAwake) == Number(ws, KAwake) + Number(ws, KWaiting)
    ensures Number(WakeAll(ws), KWaiting) == 0
    ensures Number(WakeAll(ws), KRunning) == Number(ws, KRunning)
    ensures Number(WakeAll(ws), KExited) == Number(ws, KExited)
    ensures RunningJobs(WakeAll(ws)) == RunningJobs(ws)
    decreases |ws|
  {
    if ws != [] {
      NumberWake(ws[..|ws| - 1]);
      assert WakeAll(ws)[..|ws| - 1] == WakeAll(ws[..|ws| - 1]);
    }
  }

  lemma {:induction false} RunningUpdate<J>(ws: seq<Worker<J>>, i: nat, w: Worker<J>)
    requires i < |ws|
    ensures RunningJobs(ws[i := w]) + JobOf(ws[i]) == RunningJobs(ws) + JobOf(w)
    decreases |ws|
  {
    hide JobOf;
    var m := |ws| - 1;
    var below := RunningJobs(ws[..m]);
    if i == m {
      assert ws[i := w][..m] == ws[..m];
      assert below + JobOf(w) + JobOf(ws[m]) == below + JobOf(ws[m]) + JobOf(w);
    } else {
      assert ws[i := w][..m] == ws[..m][i := w];
      RunningUpdate(ws[..m], i, w);
      var above := RunningJobs(ws[..m][i := w]);
      assert above + JobOf(ws[m]) + JobOf(ws[i]) == above + JobOf(ws[i]) + JobOf(ws[m]);
      assert below + JobOf(w) + JobOf(ws[m]) == below + JobOf(ws[m]) + JobOf(w);
    }
  }
}
