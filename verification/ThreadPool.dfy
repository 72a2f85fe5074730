/** The thread pool as interleaved steps. Each step is what one thread does between two points where
    another can intervene; a thread's program counter says where it stands. */
module ThreadPool {
  import opened Wrappers

  /** Where a pool thread stands in `thread_do`. */
  datatype Worker =
    | Check                        // about to test the semaphore in bsem_wait
    | Asleep                       // blocked on the semaphore's condition variable
    | Enter                        // past bsem_wait, about to count itself working
    | Pull                         // counted, about to pull from the queue
    | Posting(job: nat)            // pulled, more jobs left: holds the queue lock, about to post
    | Running(held: Option<nat>)   // executing its job; None if the queue was empty
    | Leave                        // job done, about to uncount itself

  /** Where a caller of `thpool_wait` stands; `before` counts the jobs pushed before the call. */
  datatype Waiter =
    | Away
    | WantsLock(before: nat)       // called or woken, about to take the count lock
    | ReadsLen(before: nat)        // holds the count lock, about to read the queue length
    | ReadsWorking(before: nat)    // found the queue empty, about to read the working count
    | MustBlock(before: nat)       // found work, about to block, which releases the lock
    | Blocked(before: nat)         // blocked on threads_all_idle
    | Returned(before: nat)

  /** Who holds the queue lock between two steps. */
  datatype QueueLock = Free | Pusher | Puller(thread: nat)

  /** Jobs are numbered in the order they are linked into the queue. */
  datatype Pool = Pool(
    workers: seq<Worker>,
    waiters: seq<Waiter>,
    queue: seq<nat>,
    v: bool,                       // the binary semaphore
    queueLock: QueueLock,
    countLock: Option<nat>,        // the waiter holding thcount_lock
    working: int,
    pushed: nat,
    pulled: seq<nat>,              // history: jobs in the order they were pulled
    finished: set<nat>)            // history: jobs whose function has returned

  /** The thread a signal wakes: some sleeper if there is one. */
  datatype Event =
    | PushLink
    | PushPost(wakes: Option<nat>)
    | TakeSemaphore(t: nat)
    | Block(t: nat)
    | Spurious(t: nat)
    | Count(t: nat)
    | PullJob(t: nat)
    | PullPost(t: nat, wakes: Option<nat>)
    | Finish(t: nat)
    | Uncount(t: nat, wakesWaiter: Option<nat>)
    | CallWait(w: nat)
    | LockCount(w: nat)
    | ReadLen(w: nat)
    | ReadWorking(w: nat)
    | BlockWaiter(w: nat)
    | SpuriousWaiter(w: nat)

  function Init(threads: nat, callers: nat): Pool {
    Pool(seq(threads, _ => Check), seq(callers, _ => Away), [], false, Free, None, 0, 0, [], {})
  }

  predicate At(s: Pool, t: nat, pc: Worker) {
    t < |s.workers| && s.workers[t] == pc
  }

  /** A signal on the semaphore wakes a sleeper if there is one. */
  ghost predicate SignalOk(s: Pool, wakes: Option<nat>) {
    match wakes
    case Some(t) => At(s, t, Asleep)
    case None => forall t: nat :: !At(s, t, Asleep)
  }

  ghost predicate WaiterBlocked(s: Pool, w: nat) {
    w < |s.waiters| && s.waiters[w].Blocked?
  }

  ghost predicate SignalWaiterOk(s: Pool, wakes: Option<nat>) {
    match wakes
    case Some(w) => WaiterBlocked(s, w)
    case None => forall w: nat :: !WaiterBlocked(s, w)
  }

  ghost predicate Enabled(s: Pool, e: Event) {
    match e
    case PushLink => s.queueLock == Free
    case PushPost(wakes) => s.queueLock == Pusher && SignalOk(s, wakes)
    case TakeSemaphore(t) => At(s, t, Check) && s.v
    case Block(t) => At(s, t, Check) && !s.v
    case Spurious(t) => At(s, t, Asleep)
    case Count(t) => At(s, t, Enter) && s.countLock == None
    case PullJob(t) => At(s, t, Pull) && s.queueLock == Free
    case PullPost(t, wakes) => t < |s.workers| && s.workers[t].Posting? && s.queueLock == Puller(t) && SignalOk(s, wakes)
    case Finish(t) => t < |s.workers| && s.workers[t].Running?
    case Uncount(t, wakesWaiter) =>
      && At(s, t, Leave) && s.countLock == None
      && (if s.working - 1 == 0 then SignalWaiterOk(s, wakesWaiter) else wakesWaiter == None)
    case CallWait(w) => w < |s.waiters| && (s.waiters[w].Away? || s.waiters[w].Returned?)
    case LockCount(w) => w < |s.waiters| && s.waiters[w].WantsLock? && s.countLock == None
    case ReadLen(w) => w < |s.waiters| && s.waiters[w].ReadsLen?
    case ReadWorking(w) => w < |s.waiters| && s.waiters[w].ReadsWorking?
    case BlockWaiter(w) => w < |s.waiters| && s.waiters[w].MustBlock?
    case SpuriousWaiter(w) => WaiterBlocked(s, w)
  }

  ghost function Move(s: Pool, t: nat, pc: Worker): Pool
    requires t < |s.workers|
  {
    s.(workers := s.workers[t := pc])
  }

  ghost function MoveWaiter(s: Pool, w: nat, pc: Waiter): Pool
    requires w < |s.waiters|
  {
    s.(waiters := s.waiters[w := pc])
  }

  ghost function Post(s: Pool, wakes: Option<nat>): Pool
    requires SignalOk(s, wakes)
  {
    var s' := s.(v := true);
    if wakes.Some? then Move(s', wakes.value, Check) else s'
  }

  ghost function Apply(s: Pool, e: Event): Pool
    requires Enabled(s, e)
  {
    match e
    case PushLink => s.(queue := s.queue + [s.pushed], pushed := s.pushed + 1, queueLock := Pusher)
    case PushPost(wakes) => Post(s, wakes).(queueLock := Free)
    case TakeSemaphore(t) => Move(s, t, Enter).(v := false)
    case Block(t) => Move(s, t, Asleep)
    case Spurious(t) => Move(s, t, Check)
    case Count(t) => Move(s, t, Pull).(working := s.working + 1)
    case PullJob(t) =>
      if |s.queue| == 0 then Move(s, t, Running(None))
      else
        var job := s.queue[0];
        var s' := s.(queue := s.queue[1..], pulled := s.pulled + [job]);
        if |s.queue| == 1 then Move(s', t, Running(Some(job)))
        else Move(s', t, Posting(job)).(queueLock := Puller(t))
    case PullPost(t, wakes) => Move(Post(s, wakes), t, Running(Some(s.workers[t].job))).(queueLock := Free)
    case Finish(t) =>
      var s' := Move(s, t, Leave);
      if s.workers[t].held.Some? then s'.(finished := s.finished + {s.workers[t].held.value}) else s'
    case Uncount(t, wakesWaiter) =>
      var s' := Move(s, t, Check).(working := s.working - 1);
      if wakesWaiter.Some? then MoveWaiter(s', wakesWaiter.value, WantsLock(s.waiters[wakesWaiter.value].before)) else s'
    case CallWait(w) => MoveWaiter(s, w, WantsLock(s.pushed))
    case LockCount(w) => MoveWaiter(s, w, ReadsLen(s.waiters[w].before)).(countLock := Some(w))
    case ReadLen(w) =>
      MoveWaiter(s, w, if |s.queue| > 0 then MustBlock(s.waiters[w].before) else ReadsWorking(s.waiters[w].before))
    case ReadWorking(w) =>
      if s.working != 0 then MoveWaiter(s, w, MustBlock(s.waiters[w].before))
      else MoveWaiter(s, w, Returned(s.waiters[w].before)).(countLock := None)
    case BlockWaiter(w) => MoveWaiter(s, w, Blocked(s.waiters[w].before)).(countLock := None)
    case SpuriousWaiter(w) => MoveWaiter(s, w, WantsLock(s.waiters[w].before))
  }

  /** A run: every event enabled when its turn comes. */
  ghost predicate Legal(s: Pool, events: seq<Event>)
    decreases |events|
  {
    events == [] || (Enabled(s, events[0]) && Legal(Apply(s, events[0]), events[1..]))
  }

  ghost function After(s: Pool, events: seq<Event>): Pool
    requires Legal(s, events)
    decreases |events|
  {
    if events == [] then s else After(Apply(s, events[0]), events[1..])
  }

  ghost predicate Reachable(s: Pool, threads: nat, callers: nat) {
    exists events :: Legal(Init(threads, callers), events) && s == After(Init(threads, callers), events)
  }

  // ---------- the invariant ----------

  /** Counted in `num_threads_working`. */
  predicate IsCounted(pc: Worker) {
    pc.Pull? || pc.Posting? || pc.Running? || pc.Leave?
  }

  function CountWorking(ws: seq<Worker>): nat {
    if ws == [] then 0 else CountWorking(ws[..|ws| - 1]) + if IsCounted(ws[|ws| - 1]) then 1 else 0
  }

  /** Thread `t` has pulled job `j` and not finished it. */
  ghost predicate Holds(s: Pool, t: nat, j: nat) {
    t < |s.workers| && (s.workers[t] == Posting(j) || s.workers[t] == Running(Some(j)))
  }

  /** Passed `bsem_wait` and will still pull or post. */
  predicate Committed(pc: Worker) {
    pc.Enter? || pc.Pull? || pc.Posting?
  }

  ghost function Upto(n: nat): seq<nat> {
    seq(n, i => i)
  }

  /** Jobs leave the queue in the order they entered it. */
  ghost predicate Fifo(s: Pool) {
    s.pulled + s.queue == Upto(s.pushed)
  }

  /** A pulled job is held by one thread or finished, never both. */
  ghost predicate Conserved(s: Pool) {
    && (forall j :: j in s.finished ==> j < |s.pulled|)
    && (forall t: nat, j: nat :: Holds(s, t, j) ==> j < |s.pulled| && j !in s.finished)
    && (forall t: nat, t': nat, j: nat :: Holds(s, t, j) && Holds(s, t', j) ==> t == t')
    && (forall j: nat :: j < |s.pulled| && j !in s.finished ==> exists t: nat :: Holds(s, t, j))
  }

  ghost predicate QueueLockOk(s: Pool) {
    && (forall t: nat :: t < |s.workers| && s.workers[t].Posting? ==> s.queueLock == Puller(t))
    && (s.queueLock.Puller? ==> s.queueLock.thread < |s.workers| && s.workers[s.queueLock.thread].Posting?)
  }

  ghost predicate CountLockOk(s: Pool) {
    && (forall w: nat :: w < |s.waiters| && HoldsCountLock(s.waiters[w]) ==> s.countLock == Some(w))
    && (s.countLock.Some? ==>
          s.countLock.value < |s.waiters| && HoldsCountLock(s.waiters[s.countLock.value]))
  }

  predicate HoldsCountLock(pc: Waiter) {
    pc.ReadsLen? || pc.ReadsWorking? || pc.MustBlock?
  }

  ghost predicate SomeCommitted(s: Pool) {
    exists t: nat :: t < |s.workers| && Committed(s.workers[t])
  }

  /** A non-empty queue has the semaphore up, a post coming, or a thread on its way to pull. */
  ghost predicate NotStranded(s: Pool) {
    s.queue != [] ==> s.v || s.queueLock == Pusher || SomeCommitted(s)
  }

  /** While the semaphore is up, not every thread waiting for it is asleep. */
  ghost predicate NotAllAsleep(s: Pool) {
    s.v && (exists t: nat :: At(s, t, Asleep)) ==> exists t: nat :: At(s, t, Check)
  }

  /** What a caller at `pc` may rely on. */
  ghost predicate WaiterOk(s: Pool, pc: Waiter) {
    match pc
    case ReadsWorking(before) => before <= |s.pulled|
    case MustBlock(before) => before <= s.pushed && (s.queue != [] || s.working != 0)
    case Returned(before) => forall j: nat :: j < before ==> j in s.finished
    case Away => true
    case _ => pc.before <= s.pushed
  }

  ghost predicate WaitersOk(s: Pool) {
    forall w: nat :: w < |s.waiters| ==> WaiterOk(s, s.waiters[w])
  }

  ghost predicate Inv(s: Pool) {
    && s.working == CountWorking(s.workers)
    && Fifo(s)
    && Conserved(s)
    && QueueLockOk(s)
    && CountLockOk(s)
    && NotStranded(s)
    && NotAllAsleep(s)
    && WaitersOk(s)
  }

  // ---------- counting ----------

  lemma {:induction false} CountUpdate(ws: seq<Worker>, t: nat, pc: Worker)
    requires t < |ws|
    ensures CountWorking(ws[t := pc]) + (if IsCounted(ws[t]) then 1 else 0)
         == CountWorking(ws) + (if IsCounted(pc) then 1 else 0)
  {
    var n := |ws| - 1;
    if t == n {
      assert ws[t := pc][..n] == ws[..n];
    } else {
      assert ws[t := pc][..n] == ws[..n][t := pc];
      CountUpdate(ws[..n], t, pc);
    }
  }

  lemma {:induction false} CountPositive(ws: seq<Worker>, t: nat)
    requires t < |ws| && IsCounted(ws[t])
    ensures CountWorking(ws) > 0
  {
    if t < |ws| - 1 {
      CountPositive(ws[..|ws| - 1], t);
    }
  }

  lemma {:induction false} CountNone(n: nat)
    ensures CountWorking(seq(n, _ => Check)) == 0
  {
    if n > 0 {
      assert seq(n, _ => Check)[..n - 1] == seq(n - 1, _ => Check);
      CountNone(n - 1);
    }
  }

  // ---------- every step keeps the invariant ----------

  lemma CountKept(s: Pool, e: Event)
    requires s.working == CountWorking(s.workers) && Enabled(s, e)
    ensures Apply(s, e).working == CountWorking(Apply(s, e).workers)
  {
    hide CountWorking;
    match e {
      case PushPost(wakes) =>
        if wakes.Some? { CountUpdate(s.workers, wakes.value, Check); }
      case TakeSemaphore(t) => CountUpdate(s.workers, t, Enter);
      case Block(t) => CountUpdate(s.workers, t, Asleep);
      case Spurious(t) => CountUpdate(s.workers, t, Check);
      case Count(t) => CountUpdate(s.workers, t, Pull);
      case PullJob(t) => CountUpdate(s.workers, t, Apply(s, e).workers[t]);
      case PullPost(t, wakes) =>
        var s' := Post(s, wakes);
        if wakes.Some? { CountUpdate(s.workers, wakes.value, Check); }
        CountUpdate(s'.workers, t, Running(Some(s.workers[t].job)));
      case Finish(t) => CountUpdate(s.workers, t, Leave);
      case Uncount(t, _) => CountUpdate(s.workers, t, Check);
      case _ =>
    }
  }

  lemma FifoKept(s: Pool, e: Event)
    requires Fifo(s) && Enabled(s, e)
    ensures Fifo(Apply(s, e))
  {
    var s' := Apply(s, e);
    if e.PushLink? {
      assert s'.pulled + s'.queue == (s.pulled + s.queue) + [s.pushed];
    } else if e.PullJob? && s.queue != [] {
      assert s'.pulled + s'.queue == s.pulled + s.queue;
    } else {
      assert s'.pulled == s.pulled && s'.queue == s.queue;
    }
  }

  /** Steps that neither pull nor finish a job leave every thread holding what it held. */
  lemma SameHoldings(s: Pool, s': Pool)
    requires Conserved(s)
    requires s'.finished == s.finished && s'.pulled == s.pulled
    requires forall t: nat, j: nat :: Holds(s', t, j) <==> Holds(s, t, j)
    ensures Conserved(s')
  {
    forall j: nat | j < |s'.pulled| && j !in s'.finished
      ensures exists t: nat :: Holds(s', t, j)
    {
      var t: nat :| Holds(s, t, j);
      assert Holds(s', t, j);
    }
  }

  lemma PullConserves(s: Pool, t: nat, s': Pool)
    requires Fifo(s) && Conserved(s) && s.queue != []
    requires s'.finished == s.finished && s'.pulled == s.pulled + [s.queue[0]]
    requires forall u: nat, j: nat :: Holds(s', u, j) <==> Holds(s, u, j) || (u == t && j == s.queue[0])
    ensures Conserved(s')
  {
    assert s.queue[0] == |s.pulled| by {
      assert s.queue[0] == (s.pulled + s.queue)[|s.pulled|];
    }
    forall j: nat | j < |s'.pulled| && j !in s'.finished
      ensures exists u: nat :: Holds(s', u, j)
    {
      if j == |s.pulled| {
        assert Holds(s', t, j);
      } else {
        var u: nat :| Holds(s, u, j);
        assert Holds(s', u, j);
      }
    }
  }

  lemma FinishConserves(s: Pool, t: nat, job: nat, s': Pool)
    requires Conserved(s) && Holds(s, t, job)
    requires s'.finished == s.finished + {job} && s'.pulled == s.pulled
    requires forall u: nat, j: nat :: Holds(s', u, j) <==> Holds(s, u, j) && u != t
    ensures Conserved(s')
  {
    forall j: nat | j < |s'.pulled| && j !in s'.finished
      ensures exists u: nat :: Holds(s', u, j)
    {
      var u: nat :| Holds(s, u, j);
      assert Holds(s', u, j);
    }
  }

  lemma PostKeepsHoldings(s: Pool, e: Event)
    requires Enabled(s, e) && (e.PushPost? || e.PullPost?)
    ensures var s' := Apply(s, e);
            && s'.finished == s.finished && s'.pulled == s.pulled
            && forall t: nat, j: nat :: Holds(s', t, j) <==> Holds(s, t, j)
  {
  }

  lemma OtherKeepsHoldings(s: Pool, e: Event)
    requires Enabled(s, e) && !e.PushPost? && !e.PullPost?
    requires !(e.PullJob? && s.queue != []) && !(e.Finish? && s.workers[e.t].held.Some?)
    ensures var s' := Apply(s, e);
            && s'.finished == s.finished && s'.pulled == s.pulled
            && forall t: nat, j: nat :: Holds(s', t, j) <==> Holds(s, t, j)
  {
  }

  lemma PullHoldings(s: Pool, e: Event)
    requires Enabled(s, e) && e.PullJob? && s.queue != []
    ensures var s' := Apply(s, e);
            && s'.finished == s.finished && s'.pulled == s.pulled + [s.queue[0]]
            && forall t: nat, j: nat :: Holds(s', t, j) <==> Holds(s, t, j) || (t == e.t && j == s.queue[0])
  {
  }

  lemma FinishHoldings(s: Pool, e: Event)
    requires Enabled(s, e) && e.Finish? && s.workers[e.t].held.Some?
    ensures var s', job := Apply(s, e), s.workers[e.t].held.value;
            && Holds(s, e.t, job) && s'.finished == s.finished + {job} && s'.pulled == s.pulled
            && forall t: nat, j: nat :: Holds(s', t, j) <==> Holds(s, t, j) && t != e.t
  {
  }

  lemma ConservedKept(s: Pool, e: Event)
    requires Fifo(s) && Conserved(s) && Enabled(s, e)
    ensures Conserved(Apply(s, e))
  {
    hide Conserved, Fifo, Holds, Apply;
    if e.PullJob? && s.queue != [] {
      PullHoldings(s, e);
      PullConserves(s, e.t, Apply(s, e));
    } else if e.Finish? && s.workers[e.t].held.Some? {
      FinishHoldings(s, e);
      FinishConserves(s, e.t, s.workers[e.t].held.value, Apply(s, e));
    } else {
      if e.PushPost? || e.PullPost? {
        PostKeepsHoldings(s, e);
      } else {
        OtherKeepsHoldings(s, e);
      }
      SameHoldings(s, Apply(s, e));
    }
  }

  lemma QueueLockByPost(s: Pool, e: Event)
    requires QueueLockOk(s) && Enabled(s, e) && (e.PushPost? || e.PullPost?)
    ensures QueueLockOk(Apply(s, e))
  {
  }

  lemma QueueLockByJob(s: Pool, e: Event)
    requires QueueLockOk(s) && Enabled(s, e) && (e.PushLink? || e.PullJob?)
    ensures QueueLockOk(Apply(s, e))
  {
  }

  /** Steps of threads away from the queue. */
  lemma QueueLockByThread(s: Pool, e: Event)
    requires QueueLockOk(s) && Enabled(s, e)
    requires e.TakeSemaphore? || e.Block? || e.Spurious? || e.Count? || e.Finish? || e.Uncount?
    ensures QueueLockOk(Apply(s, e))
  {
  }

  lemma QueueLockByCaller(s: Pool, e: Event)
    requires QueueLockOk(s) && Enabled(s, e)
    requires e.CallWait? || e.LockCount? || e.ReadLen? || e.ReadWorking? || e.BlockWaiter? || e.SpuriousWaiter?
    ensures QueueLockOk(Apply(s, e))
  {
  }

  lemma QueueLockKept(s: Pool, e: Event)
    requires QueueLockOk(s) && Enabled(s, e)
    ensures QueueLockOk(Apply(s, e))
  {
    hide QueueLockOk, Enabled, Apply;
    if e.PushPost? || e.PullPost? {
      QueueLockByPost(s, e);
    } else if e.PushLink? || e.PullJob? {
      QueueLockByJob(s, e);
    } else if e.CallWait? || e.LockCount? || e.ReadLen? || e.ReadWorking? || e.BlockWaiter? || e.SpuriousWaiter? {
      QueueLockByCaller(s, e);
    } else {
      QueueLockByThread(s, e);
    }
  }

  /** Steps that move no caller into or out of the lock. */
  lemma CountLockByOther(s: Pool, e: Event)
    requires CountLockOk(s) && Enabled(s, e)
    requires !e.LockCount? && !e.ReadLen? && !e.ReadWorking? && !e.BlockWaiter?
    requires !e.CallWait? && !e.SpuriousWaiter? && !e.Uncount?
    ensures CountLockOk(Apply(s, e))
  {
    assert Apply(s, e).waiters == s.waiters && Apply(s, e).countLock == s.countLock;
  }

  lemma CountLockByWake(s: Pool, e: Event)
    requires CountLockOk(s) && Enabled(s, e) && (e.CallWait? || e.SpuriousWaiter? || e.Uncount?)
    ensures CountLockOk(Apply(s, e))
  {
  }

  lemma CountLockByHolder(s: Pool, e: Event)
    requires CountLockOk(s) && Enabled(s, e) && (e.LockCount? || e.ReadLen? || e.ReadWorking? || e.BlockWaiter?)
    ensures CountLockOk(Apply(s, e))
  {
  }

  lemma CountLockKept(s: Pool, e: Event)
    requires CountLockOk(s) && Enabled(s, e)
    ensures CountLockOk(Apply(s, e))
  {
    hide CountLockOk, Enabled, Apply;
    if e.LockCount? || e.ReadLen? || e.ReadWorking? || e.BlockWaiter? {
      CountLockByHolder(s, e);
    } else if e.CallWait? || e.SpuriousWaiter? || e.Uncount? {
      CountLockByWake(s, e);
    } else {
      CountLockByOther(s, e);
    }
  }

  lemma NotStrandedKept(s: Pool, e: Event)
    requires NotStranded(s) && Enabled(s, e)
    ensures NotStranded(Apply(s, e))
  {
    var s' := Apply(s, e);
    if s'.queue != [] && !s'.v && s'.queueLock != Pusher {
      if e.TakeSemaphore? {
        assert Committed(s'.workers[e.t]);
      } else {
        var t: nat :| t < |s.workers| && Committed(s.workers[t]);
        assert Committed(s'.workers[if e.PullJob? then e.t else t]);
      }
    }
  }

  lemma NotAllAsleepKept(s: Pool, e: Event)
    requires NotAllAsleep(s) && Enabled(s, e)
    ensures NotAllAsleep(Apply(s, e))
  {
    var s' := Apply(s, e);
    if s'.v && exists t: nat :: At(s', t, Asleep) {
      var u: nat :| At(s', u, Asleep);
      assert At(s, u, Asleep);
      if e.PushPost? || e.PullPost? {
        assert At(s', e.wakes.value, Check);
      } else {
        var t: nat :| At(s, t, Check);
        assert At(s', t, Check);
      }
    }
  }

  /** With the count at zero no thread holds a job, so every pulled job has finished. */
  lemma IdleMeansFinished(s: Pool)
    requires s.working == CountWorking(s.workers) && Conserved(s) && s.working == 0
    ensures forall j: nat :: j < |s.pulled| ==> j in s.finished
  {
    forall t: nat | t < |s.workers|
      ensures !IsCounted(s.workers[t])
    {
      if IsCounted(s.workers[t]) {
        CountPositive(s.workers, t);
      }
    }
    assert forall t: nat, j: nat :: !Holds(s, t, j);
  }

  lemma FifoLengths(s: Pool)
    requires Fifo(s)
    ensures |s.pulled| + |s.queue| == s.pushed
  {
    assert |s.pulled + s.queue| == |Upto(s.pushed)|;
  }

  /** Nothing a caller relies on is taken back. */
  lemma WaiterStays(s: Pool, s': Pool, pc: Waiter)
    requires WaiterOk(s, pc) && s.pushed <= s'.pushed && |s.pulled| <= |s'.pulled| && s.finished <= s'.finished
    requires pc.MustBlock? && (s.queue != [] || s.working != 0) ==> s'.queue != [] || s'.working != 0
    ensures WaiterOk(s', pc)
  {
  }

  /** Steps of threads and of the pusher leave every caller but a woken one where it was. */
  lemma WaitersByOther(s: Pool, e: Event)
    requires WaitersOk(s) && CountLockOk(s) && s.working == CountWorking(s.workers) && Enabled(s, e)
    requires !e.CallWait? && !e.LockCount? && !e.ReadLen? && !e.ReadWorking? && !e.BlockWaiter? && !e.SpuriousWaiter?
    ensures WaitersOk(Apply(s, e))
  {
    hide CountWorking, WaiterOk;
    var s' := Apply(s, e);
    OtherProgress(s, e);
    forall w: nat | w < |s'.waiters|
      ensures WaiterOk(s', s'.waiters[w])
    {
      assert WaiterOk(s, s.waiters[w]);
      if s'.waiters[w] == s.waiters[w] {
        WaiterStays(s, s', s.waiters[w]);
      } else {
        WokenWaiter(s, s', s.waiters[w], s'.waiters[w]);
      }
    }
  }

  lemma WokenWaiter(s: Pool, s': Pool, pc: Waiter, pc': Waiter)
    requires WaiterOk(s, pc) && pc.Blocked? && pc' == WantsLock(pc.before) && s.pushed <= s'.pushed
    ensures WaiterOk(s', pc')
  {
  }

  lemma OtherProgress(s: Pool, e: Event)
    requires CountLockOk(s) && s.working == CountWorking(s.workers) && Enabled(s, e)
    requires !e.CallWait? && !e.LockCount? && !e.ReadLen? && !e.ReadWorking? && !e.BlockWaiter? && !e.SpuriousWaiter?
    ensures var s' := Apply(s, e);
            && s.pushed <= s'.pushed && |s.pulled| <= |s'.pulled| && s.finished <= s'.finished
            && |s'.waiters| == |s.waiters|
            && (s.queue != [] || s.working != 0 ==> s'.queue != [] || s'.working != 0 || s.countLock == None)
            && forall w: nat :: w < |s.waiters| && s'.waiters[w] != s.waiters[w] ==>
                 s.waiters[w].Blocked? && s'.waiters[w] == WantsLock(s.waiters[w].before)
  {
    hide CountWorking, CountLockOk;
    if e.PullJob? {
      CountPositive(s.workers, e.t);
    }
  }

  /** Steps of one caller. */
  lemma WaitersByCaller(s: Pool, e: Event)
    requires Inv(s) && Enabled(s, e)
    requires e.CallWait? || e.LockCount? || e.ReadLen? || e.ReadWorking? || e.BlockWaiter? || e.SpuriousWaiter?
    ensures WaitersOk(Apply(s, e))
  {
    hide Fifo, Conserved, CountWorking, NotStranded, NotAllAsleep, QueueLockOk, CountLockOk, Upto;
    FifoLengths(s);
    var s' := Apply(s, e);
    if e.ReadWorking? && s.working == 0 {
      IdleMeansFinished(s);
    }
    forall w: nat | w < |s'.waiters|
      ensures WaiterOk(s', s'.waiters[w])
    {
      assert WaiterOk(s, s.waiters[w]);
    }
  }

  lemma WaitersKept(s: Pool, e: Event)
    requires Inv(s) && Enabled(s, e)
    ensures WaitersOk(Apply(s, e))
  {
    hide WaitersOk, CountLockOk, Fifo, Conserved, NotStranded, NotAllAsleep, QueueLockOk, Enabled, Apply;
    if e.CallWait? || e.LockCount? || e.ReadLen? || e.ReadWorking? || e.BlockWaiter? || e.SpuriousWaiter? {
      WaitersByCaller(s, e);
    } else {
      WaitersByOther(s, e);
    }
  }

  lemma InvKept(s: Pool, e: Event)
    requires Inv(s) && Enabled(s, e)
    ensures Inv(Apply(s, e))
  {
    hide Fifo, Conserved, CountWorking, NotStranded, NotAllAsleep, QueueLockOk, CountLockOk, WaitersOk, Apply, Enabled;
    CountKept(s, e);
    FifoKept(s, e);
    ConservedKept(s, e);
    QueueLockKept(s, e);
    CountLockKept(s, e);
    NotStrandedKept(s, e);
    NotAllAsleepKept(s, e);
    WaitersKept(s, e);
  }

  lemma InitInv(threads: nat, callers: nat)
    ensures Inv(Init(threads, callers))
  {
    CountNone(threads);
    var s := Init(threads, callers);
    assert Fifo(s);
    assert forall t: nat :: t < |s.workers| ==> s.workers[t] == Check;
    assert Conserved(s);
  }

  lemma {:induction false} RunKeepsInv(s: Pool, events: seq<Event>)
    requires Inv(s) && Legal(s, events)
    ensures Inv(After(s, events))
    decreases |events|
  {
    hide Inv, Apply, Enabled;
    if events != [] {
      InvKept(s, events[0]);
      RunKeepsInv(Apply(s, events[0]), events[1..]);
    }
  }

  /** Every state of every interleaving satisfies the invariant. */
  lemma ReachableInv(s: Pool, threads: nat, callers: nat)
    requires Reachable(s, threads, callers)
    ensures Inv(s)
  {
    hide Inv, Legal, After;
    InitInv(threads, callers);
    var events :| Legal(Init(threads, callers), events) && s == After(Init(threads, callers), events);
    RunKeepsInv(Init(threads, callers), events);
  }

  // ---------- what holds in every reachable state ----------

  /** A queued job is never stranded: unless its push is still about to post, the semaphore is up or
      some thread has passed it and will still pull or post. */
  lemma NoStrandedJob(s: Pool, threads: nat, callers: nat)
    requires Reachable(s, threads, callers)
    requires s.queue != [] && s.queueLock != Pusher
    ensures s.v || exists t: nat :: t < |s.workers| && Committed(s.workers[t])
  {
    ReachableInv(s, threads, callers);
  }

  /** Steps of threads that have work to do: not a new call, a new push or a spurious wake-up. */
  predicate Internal(e: Event) {
    !e.PushLink? && !e.CallWait? && !e.Spurious? && !e.SpuriousWaiter?
  }

  ghost predicate CanStep(s: Pool) {
    exists e :: Internal(e) && Enabled(s, e)
  }

  lemma SomeSignal(s: Pool) returns (wakes: Option<nat>)
    ensures SignalOk(s, wakes)
  {
    if t: nat :| At(s, t, Asleep) {
      wakes := Some(t);
    } else {
      wakes := None;
    }
  }

  lemma SomeWaiterSignal(s: Pool) returns (wakes: Option<nat>)
    ensures SignalWaiterOk(s, wakes)
  {
    if w: nat :| WaiterBlocked(s, w) {
      wakes := Some(w);
    } else {
      wakes := None;
    }
  }

  /** Whoever holds the queue lock can go on. */
  lemma QueueLockHolderSteps(s: Pool)
    requires QueueLockOk(s) && s.queueLock != Free
    ensures CanStep(s)
  {
    var wakes := SomeSignal(s);
    if s.queueLock == Pusher {
      assert Enabled(s, PushPost(wakes));
    } else {
      assert Enabled(s, PullPost(s.queueLock.thread, wakes));
    }
  }

  lemma CountLockHolderSteps(s: Pool)
    requires CountLockOk(s) && s.countLock.Some?
    ensures CanStep(s)
  {
    var w := s.countLock.value;
    match s.waiters[w] {
      case ReadsLen(_) => assert Enabled(s, ReadLen(w));
      case ReadsWorking(_) => assert Enabled(s, ReadWorking(w));
      case MustBlock(_) => assert Enabled(s, BlockWaiter(w));
    }
  }

  /** With both locks free, a thread that is neither asleep nor at the semaphore can go on. */
  lemma BusyThreadSteps(s: Pool, t: nat)
    requires QueueLockOk(s) && s.queueLock == Free && s.countLock == None
    requires t < |s.workers| && s.workers[t] != Check && s.workers[t] != Asleep
    ensures CanStep(s)
  {
    match s.workers[t] {
      case Enter => assert Enabled(s, Count(t));
      case Pull => assert Enabled(s, PullJob(t));
      case Running(_) => assert Enabled(s, Finish(t));
      case Leave =>
        var w := SomeWaiterSignal(s);
        assert Enabled(s, Uncount(t, if s.working - 1 == 0 then w else None));
    }
  }

  /** Work in the queue never leaves the pool stuck: some thread can take a step of its own. */
  lemma QueuedWorkProgresses(s: Pool, threads: nat, callers: nat)
    requires Reachable(s, threads, callers) && threads > 0
    requires s.queue != []
    ensures CanStep(s)
  {
    ReachableInv(s, threads, callers);
    RunKeepsSizes(s, threads, callers);
    if s.queueLock != Free {
      QueueLockHolderSteps(s);
    } else if s.countLock.Some? {
      CountLockHolderSteps(s);
    } else if t: nat :| t < |s.workers| && s.workers[t] != Check && s.workers[t] != Asleep {
      BusyThreadSteps(s, t);
    } else {
      assert !SomeCommitted(s);
      assert At(s, 0, Check) || At(s, 0, Asleep);
      var t: nat :| At(s, t, Check);
      assert Enabled(s, TakeSemaphore(t));
    }
  }

  /** When no thread and no caller can take a step of its own, every job ever pushed has finished. */
  lemma QuietMeansDone(s: Pool, threads: nat, callers: nat)
    requires Reachable(s, threads, callers) && threads > 0 && !CanStep(s)
    ensures s.queue == [] && s.working == 0
    ensures forall j: nat :: j < s.pushed ==> j in s.finished
  {
    hide Reachable, Fifo, Conserved, Upto, NotStranded, NotAllAsleep, WaitersOk, CanStep;
    ReachableInv(s, threads, callers);
    if s.queue != [] {
      QueuedWorkProgresses(s, threads, callers);
    }
    if s.queueLock != Free {
      QueueLockHolderSteps(s);
    }
    if s.countLock.Some? {
      CountLockHolderSteps(s);
    }
    forall t: nat | t < |s.workers|
      ensures !IsCounted(s.workers[t])
    {
      if IsCounted(s.workers[t]) {
        BusyThreadSteps(s, t);
      }
    }
    NoneCounted(s.workers);
    IdleMeansFinished(s);
    FifoLengths(s);
  }

  lemma {:induction false} NoneCounted(ws: seq<Worker>)
    requires forall t: nat :: t < |ws| ==> !IsCounted(ws[t])
    ensures CountWorking(ws) == 0
  {
    if ws != [] {
      NoneCounted(ws[..|ws| - 1]);
    }
  }

  // ---------- every run of the threads' own steps ends ----------

  /** How far a thread is from resting: taking the semaphore costs more than it leaves. */
  function WorkerWeight(pc: Worker): nat {
    match pc
    case Asleep => 0
    case Check => 1
    case Leave => 6
    case Running(_) => 7
    case Pull => 8
    case Enter => 9
    case Posting(_) => 18
  }

  function WaiterWeight(pc: Waiter): nat {
    match pc
    case WantsLock(_) => 4
    case ReadsLen(_) => 3
    case ReadsWorking(_) => 2
    case MustBlock(_) => 1
    case _ => 0
  }

  function WorkersWeight(ws: seq<Worker>): nat {
    if ws == [] then 0 else WorkersWeight(ws[..|ws| - 1]) + WorkerWeight(ws[|ws| - 1])
  }

  function WaitersWeight(ws: seq<Waiter>): nat {
    if ws == [] then 0 else WaitersWeight(ws[..|ws| - 1]) + WaiterWeight(ws[|ws| - 1])
  }

  function Weight(s: Pool): nat {
    11 * |s.queue| + (if s.v then 9 else 0) + (if s.queueLock == Pusher then 11 else 0)
    + WorkersWeight(s.workers) + WaitersWeight(s.waiters)
  }

  lemma {:induction false} WorkersWeightUpdate(ws: seq<Worker>, t: nat, pc: Worker)
    requires t < |ws|
    ensures WorkersWeight(ws[t := pc]) + WorkerWeight(ws[t]) == WorkersWeight(ws) + WorkerWeight(pc)
  {
    hide WorkerWeight;
    var n := |ws| - 1;
    if t == n {
      assert ws[t := pc][..n] == ws[..n];
    } else {
      assert ws[t := pc][..n] == ws[..n][t := pc];
      WorkersWeightUpdate(ws[..n], t, pc);
    }
  }

  lemma {:induction false} WaitersWeightUpdate(ws: seq<Waiter>, w: nat, pc: Waiter)
    requires w < |ws|
    ensures WaitersWeight(ws[w := pc]) + WaiterWeight(ws[w]) == WaitersWeight(ws) + WaiterWeight(pc)
  {
    hide WaiterWeight;
    var n := |ws| - 1;
    if w == n {
      assert ws[w := pc][..n] == ws[..n];
    } else {
      assert ws[w := pc][..n] == ws[..n][w := pc];
      WaitersWeightUpdate(ws[..n], w, pc);
    }
  }

  lemma WeightOfPost(s: Pool, wakes: Option<nat>)
    requires SignalOk(s, wakes)
    ensures WorkersWeight(Post(s, wakes).workers) <= WorkersWeight(s.workers) + 1
  {
    hide WorkersWeight;
    if wakes.Some? {
      WorkersWeightUpdate(s.workers, wakes.value, Check);
    }
  }

  lemma WaiterWeightFalls(s: Pool, e: Event)
    requires Enabled(s, e) && (e.LockCount? || e.ReadLen? || e.ReadWorking? || e.BlockWaiter?)
    ensures Weight(Apply(s, e)) < Weight(s)
  {
    hide WorkersWeight, WaitersWeight;
    WaitersWeightUpdate(s.waiters, e.w, Apply(s, e).waiters[e.w]);
  }

  lemma PullWeightFalls(s: Pool, e: Event)
    requires Enabled(s, e) && (e.PullJob? || e.PullPost?)
    ensures Weight(Apply(s, e)) < Weight(s)
  {
    hide WorkersWeight, WaitersWeight;
    if e.PullJob? {
      WorkersWeightUpdate(s.workers, e.t, Apply(s, e).workers[e.t]);
    } else {
      WeightOfPost(s, e.wakes);
      WorkersWeightUpdate(Post(s, e.wakes).workers, e.t, Running(Some(s.workers[e.t].job)));
    }
  }

  lemma UncountWeightFalls(s: Pool, e: Event)
    requires Enabled(s, e) && e.Uncount?
    ensures Weight(Apply(s, e)) < Weight(s)
  {
    hide WorkersWeight, WaitersWeight;
    WorkersWeightUpdate(s.workers, e.t, Check);
    if e.wakesWaiter.Some? {
      WaitersWeightUpdate(s.waiters, e.wakesWaiter.value, WantsLock(s.waiters[e.wakesWaiter.value].before));
    }
  }

  lemma WorkerWeightFalls(s: Pool, e: Event)
    requires Enabled(s, e) && (e.PushPost? || e.TakeSemaphore? || e.Block? || e.Count? || e.Finish?)
    ensures Weight(Apply(s, e)) < Weight(s)
  {
    hide WorkersWeight, WaitersWeight;
    match e {
      case PushPost(wakes) => WeightOfPost(s, wakes);
      case TakeSemaphore(t) => WorkersWeightUpdate(s.workers, t, Enter);
      case Block(t) => WorkersWeightUpdate(s.workers, t, Asleep);
      case Count(t) => WorkersWeightUpdate(s.workers, t, Pull);
      case Finish(t) => WorkersWeightUpdate(s.workers, t, Leave);
    }
  }

  /** Every step of a thread's or caller's own brings the pool closer to rest. */
  lemma WeightFalls(s: Pool, e: Event)
    requires Enabled(s, e) && Internal(e)
    ensures Weight(Apply(s, e)) < Weight(s)
  {
    hide Weight, Apply, Enabled;
    if e.LockCount? || e.ReadLen? || e.ReadWorking? || e.BlockWaiter? {
      WaiterWeightFalls(s, e);
    } else if e.PullJob? || e.PullPost? {
      PullWeightFalls(s, e);
    } else if e.Uncount? {
      UncountWeightFalls(s, e);
    } else {
      WorkerWeightFalls(s, e);
    }
  }

  /** So without new pushes, new calls and spurious wake-ups the pool comes to rest. */
  lemma {:induction false} InternalRunsEnd(s: Pool, events: seq<Event>)
    requires Legal(s, events) && forall e :: e in events ==> Internal(e)
    ensures |events| + Weight(After(s, events)) <= Weight(s)
    decreases |events|
  {
    hide Weight, Apply, Enabled, Internal;
    if events != [] {
      assert events[0] in events;
      WeightFalls(s, events[0]);
      InternalRunsEnd(Apply(s, events[0]), events[1..]);
    }
  }

  /** The number of threads and of callers never changes. */
  lemma RunKeepsSizes(s: Pool, threads: nat, callers: nat)
    requires Reachable(s, threads, callers)
    ensures |s.workers| == threads && |s.waiters| == callers
  {
    var events :| Legal(Init(threads, callers), events) && s == After(Init(threads, callers), events);
    SizesAlong(Init(threads, callers), events);
  }

  lemma {:induction false} SizesAlong(s: Pool, events: seq<Event>)
    requires Legal(s, events)
    ensures |After(s, events).workers| == |s.workers| && |After(s, events).waiters| == |s.waiters|
    decreases |events|
  {
    if events != [] {
      SizesAlong(Apply(s, events[0]), events[1..]);
    }
  }

  /** Every job ever linked is in exactly one place: queued, held by exactly one thread that is
      counted as working, or finished. */
  lemma JobConservation(s: Pool, threads: nat, callers: nat, j: nat)
    requires Reachable(s, threads, callers) && j < s.pushed
    ensures j in s.queue <==> |s.pulled| <= j
    ensures j < |s.pulled| ==> (j in s.finished <==> forall t: nat :: !Holds(s, t, j))
    ensures j in s.finished ==> j < |s.pulled|
    ensures forall t: nat, t': nat :: Holds(s, t, j) && Holds(s, t', j) ==> t == t'
    ensures forall t: nat :: Holds(s, t, j) ==> j < |s.pulled| && IsCounted(s.workers[t])
  {
    ReachableInv(s, threads, callers);
    FifoLengths(s);
    assert forall i :: 0 <= i < |s.queue| ==> s.queue[i] == (s.pulled + s.queue)[|s.pulled| + i];
    if |s.pulled| <= j {
      assert s.queue[j - |s.pulled|] == j;
    }
  }

  /** Jobs are pulled in the order they were pushed. */
  lemma PulledInPushOrder(s: Pool, threads: nat, callers: nat)
    requires Reachable(s, threads, callers)
    ensures s.pulled == Upto(|s.pulled|)
    ensures forall i :: 0 <= i < |s.queue| ==> s.queue[i] == |s.pulled| + i
  {
    ReachableInv(s, threads, callers);
    assert forall i :: 0 <= i < |s.pulled| ==> s.pulled[i] == (s.pulled + s.queue)[i];
    assert forall i :: 0 <= i < |s.queue| ==> s.queue[i] == (s.pulled + s.queue)[|s.pulled| + i];
  }

  /** When `thpool_wait` returns, every job pushed before the call has finished. */
  lemma WaitIsSound(s: Pool, threads: nat, callers: nat, w: nat)
    requires Reachable(s, threads, callers)
    requires w < |s.waiters| && s.waiters[w].Returned?
    ensures forall j: nat :: j < s.waiters[w].before ==> j in s.finished
  {
    ReachableInv(s, threads, callers);
  }

  /** From its call on, caller `w` stands in `thpool_wait` or has returned from it, and remembers how many
      jobs had been pushed. */
  ghost predicate Called(s: Pool, w: nat, pushed: nat) {
    w < |s.waiters| && !s.waiters[w].Away? && s.waiters[w].before == pushed
  }

  lemma CalledKept(s: Pool, e: Event, w: nat, pushed: nat)
    requires Called(s, w, pushed) && Enabled(s, e) && e != CallWait(w)
    ensures Called(Apply(s, e), w, pushed)
  {
  }

  lemma {:induction false} CalledAlong(s: Pool, events: seq<Event>, w: nat, pushed: nat)
    requires Called(s, w, pushed) && Legal(s, events) && CallWait(w) !in events
    ensures Called(After(s, events), w, pushed)
    decreases |events|
  {
    hide Called, Apply, Enabled;
    if events != [] {
      assert events[0] in events;
      CalledKept(s, events[0], w, pushed);
      CalledAlong(Apply(s, events[0]), events[1..], w, pushed);
    }
  }

  lemma {:induction false} ReachAlong(s: Pool, events: seq<Event>, threads: nat, callers: nat)
    requires Reachable(s, threads, callers) && Legal(s, events)
    ensures Reachable(After(s, events), threads, callers)
    decreases |events|
  {
    hide Reachable, Apply, Enabled;
    if events != [] {
      ReachStep(s, events[0], threads, callers);
      ReachAlong(Apply(s, events[0]), events[1..], threads, callers);
    }
  }

  /** Whatever happens between the call of `thpool_wait` and its return, on return every job pushed
      before the call has finished. */
  lemma WaitReturnsDone(s: Pool, threads: nat, callers: nat, w: nat, events: seq<Event>)
    requires Reachable(s, threads, callers) && Enabled(s, CallWait(w))
    requires Legal(Apply(s, CallWait(w)), events) && CallWait(w) !in events
    ensures var s' := After(Apply(s, CallWait(w)), events);
            && w < |s'.waiters| && !s'.waiters[w].Away?
            && (s'.waiters[w].Returned? ==> forall j: nat :: j < s.pushed ==> j in s'.finished)
  {
    hide Reachable;
    var called := Apply(s, CallWait(w));
    ReachStep(s, CallWait(w), threads, callers);
    CalledAlong(called, events, w, s.pushed);
    ReachAlong(called, events, threads, callers);
    if After(called, events).waiters[w].Returned? {
      WaitIsSound(After(called, events), threads, callers, w);
    }
  }

  /** No thread gets past the semaphore without taking it down, and no job is pulled otherwise. */
  lemma SemaphoreGuards(s: Pool, e: Event, t: nat)
    requires Enabled(s, e) && t < |s.workers|
    ensures Committed(Apply(s, e).workers[t]) && !Committed(s.workers[t]) ==> s.v && !Apply(s, e).v
    ensures Apply(s, e).pulled != s.pulled ==> exists u: nat :: u < |s.workers| && Committed(s.workers[u])
  {
    if e.PullJob? {
      assert Committed(s.workers[e.t]);
    }
  }

  // ---------- the histories against the run ----------

  /** How many jobs a run pushes. */
  function Pushes(events: seq<Event>): nat {
    if events == [] then 0 else (if events[0].PushLink? then 1 else 0) + Pushes(events[1..])
  }

  /** The jobs whose functions return in a run, in that order. */
  ghost function Ends(s: Pool, events: seq<Event>): seq<nat>
    requires Legal(s, events)
    decreases |events|
  {
    if events == [] then []
    else
      var rest := Ends(Apply(s, events[0]), events[1..]);
      match events[0]
      case Finish(t) => if s.workers[t].held.Some? then [s.workers[t].held.value] + rest else rest
      case _ => rest
  }

  lemma PushedGrows(s: Pool, e: Event)
    requires Enabled(s, e)
    ensures Apply(s, e).pushed == s.pushed + if e.PushLink? then 1 else 0
  {
  }

  /** A job counts as finished when the thread that runs it ends it, and at no other step. */
  lemma FinishedGrows(s: Pool, e: Event)
    requires Enabled(s, e)
    ensures Apply(s, e).finished == s.finished +
              (if e.Finish? && s.workers[e.t].held.Some? then {s.workers[e.t].held.value} else {})
  {
  }

  lemma {:induction false} EndsAlong(s: Pool, events: seq<Event>)
    requires Inv(s) && Legal(s, events)
    ensures var ends, s' := Ends(s, events), After(s, events);
            && (forall j :: j in s'.finished <==> j in s.finished || j in ends)
            && (forall j :: j in ends ==> j !in s.finished)
            && (forall i, k :: 0 <= i < k < |ends| ==> ends[i] != ends[k])
            && s'.pushed == s.pushed + Pushes(events)
    decreases |events|
  {
    hide Inv, Apply, Enabled;
    if events != [] {
      var e := events[0];
      InvKept(s, e);
      EndsAlong(Apply(s, e), events[1..]);
      PushedGrows(s, e);
      FinishedGrows(s, e);
      if e.Finish? {
        EndedIsNew(s, e);
      }
    }
  }

  lemma EndedIsNew(s: Pool, e: Event)
    requires Inv(s) && Enabled(s, e) && e.Finish?
    ensures s.workers[e.t].held.Some? ==> s.workers[e.t].held.value !in s.finished
  {
    hide Fifo, CountWorking, NotStranded, NotAllAsleep, QueueLockOk, CountLockOk, WaitersOk;
    assert s.workers[e.t].held.Some? ==> Holds(s, e.t, s.workers[e.t].held.value);
  }

  /** In every run from the start, what counts as pushed are the pushes, and what counts as finished
      are the jobs whose functions have returned, each once. */
  lemma JobsRunOnce(threads: nat, callers: nat, events: seq<Event>)
    requires Legal(Init(threads, callers), events)
    ensures var ends, s := Ends(Init(threads, callers), events), After(Init(threads, callers), events);
            && s.pushed == Pushes(events)
            && (forall j :: j in s.finished <==> j in ends)
            && (forall i, k :: 0 <= i < k < |ends| ==> ends[i] != ends[k])
  {
    hide Inv, Apply, Enabled, Pushes, Ends, After;
    InitInv(threads, callers);
    EndsAlong(Init(threads, callers), events);
  }

  // ---------- lost wake-ups of thpool_wait ----------

  /** A caller is blocked although nothing is queued or running. */
  ghost predicate Lost(s: Pool) {
    s.queue == [] && s.working == 0 && exists w: nat :: WaiterBlocked(s, w)
  }

  /** Blocking is only for a caller that found work. */
  lemma NotLostByBlock(s: Pool, e: Event)
    requires WaitersOk(s) && Enabled(s, e) && e.BlockWaiter?
    ensures !Lost(Apply(s, e))
  {
    assert WaiterOk(s, s.waiters[e.w]);
  }

  /** The last thread to finish signals a lone caller. */
  lemma NotLostByUncount(s: Pool, e: Event)
    requires Enabled(s, e) && e.Uncount? && !Lost(s) && |s.waiters| <= 1
    ensures !Lost(Apply(s, e))
  {
    assert forall w: nat :: WaiterBlocked(Apply(s, e), w) ==> WaiterBlocked(s, w);
  }

  lemma NotLostByOther(s: Pool, e: Event)
    requires Enabled(s, e) && !Lost(s) && s.working == CountWorking(s.workers) && !e.BlockWaiter? && !e.Uncount?
    ensures !Lost(Apply(s, e))
  {
    hide CountWorking;
    if e.PullJob? {
      CountPositive(s.workers, e.t);
    } else {
      assert forall w: nat :: WaiterBlocked(Apply(s, e), w) ==> WaiterBlocked(s, w);
    }
  }

  lemma NotLostKept(s: Pool, e: Event)
    requires Inv(s) && Enabled(s, e) && !Lost(s)
    requires |s.waiters| <= 1 || |s.workers| == 0
    ensures !Lost(Apply(s, e))
  {
    hide Fifo, Conserved, CountWorking, NotStranded, NotAllAsleep, QueueLockOk, CountLockOk, WaitersOk, Apply, Lost;
    if e.BlockWaiter? {
      NotLostByBlock(s, e);
    } else if e.Uncount? {
      NotLostByUncount(s, e);
    } else {
      NotLostByOther(s, e);
    }
  }

  lemma {:induction false} RunNeverLoses(s: Pool, events: seq<Event>)
    requires Inv(s) && !Lost(s) && Legal(s, events)
    requires |s.waiters| <= 1 || |s.workers| == 0
    ensures !Lost(After(s, events))
    decreases |events|
  {
    if events != [] {
      InvKept(s, events[0]);
      NotLostKept(s, events[0]);
      SizesAlong(s, events[..1]);
      RunNeverLoses(Apply(s, events[0]), events[1..]);
    }
  }

  lemma ReachStep(s: Pool, e: Event, threads: nat, callers: nat)
    requires Reachable(s, threads, callers) && Enabled(s, e)
    ensures Reachable(Apply(s, e), threads, callers)
  {
    hide Apply, Enabled;
    var events :| Legal(Init(threads, callers), events) && s == After(Init(threads, callers), events);
    Extend(Init(threads, callers), events, e);
    assert Legal(Init(threads, callers), events + [e]);
  }

  lemma {:induction false} Extend(s: Pool, events: seq<Event>, e: Event)
    requires Legal(s, events) && Enabled(After(s, events), e)
    ensures Legal(s, events + [e]) && After(s, events + [e]) == Apply(After(s, events), e)
    decreases |events|
  {
    hide Apply, Enabled;
    if events == [] {
      assert [e][1..] == [];
      assert events + [e] == [e];
    } else {
      Extend(Apply(s, events[0]), events[1..], e);
      assert (events + [e])[1..] == events[1..] + [e];
    }
  }

  /** One job is taken up by thread 0 and is running. */
  lemma JobTakenUp(threads: nat, callers: nat) returns (s: Pool)
    requires threads >= 1
    ensures Reachable(s, threads, callers)
    ensures s == Init(threads, callers).(workers := Init(threads, callers).workers[0 := Running(Some(0))],
                                         working := 1, pushed := 1, pulled := [0])
  {
    var s0 := Init(threads, callers);
    assert Legal(s0, []) && After(s0, []) == s0;
    ReachStep(s0, PushLink, threads, callers);
    var s1 := Apply(s0, PushLink);
    ReachStep(s1, PushPost(None), threads, callers);
    var s2 := Apply(s1, PushPost(None));
    ReachStep(s2, TakeSemaphore(0), threads, callers);
    var s3 := Apply(s2, TakeSemaphore(0));
    ReachStep(s3, Count(0), threads, callers);
    var s4 := Apply(s3, Count(0));
    ReachStep(s4, PullJob(0), threads, callers);
    s := Apply(s4, PullJob(0));
    assert s.workers == s0.workers[0 := Running(Some(0))];
  }

  /** A caller that finds the running job blocks. */
  lemma CallerBlocks(s: Pool, w: nat, threads: nat, callers: nat) returns (s': Pool)
    requires Reachable(s, threads, callers)
    requires w < |s.waiters| && s.waiters[w] == Away && s.countLock == None && s.queue == [] && s.working == 1
    ensures Reachable(s', threads, callers)
    ensures s' == s.(waiters := s.waiters[w := Blocked(s.pushed)])
  {
    ReachStep(s, CallWait(w), threads, callers);
    var s1 := Apply(s, CallWait(w));
    ReachStep(s1, LockCount(w), threads, callers);
    var s2 := Apply(s1, LockCount(w));
    ReachStep(s2, ReadLen(w), threads, callers);
    var s3 := Apply(s2, ReadLen(w));
    s' := CallerGivesUp(s3, w, threads, callers);
    assert s'.waiters == s.waiters[w := Blocked(s.pushed)];
  }

  lemma CallerGivesUp(s: Pool, w: nat, threads: nat, callers: nat) returns (s': Pool)
    requires Reachable(s, threads, callers)
    requires w < |s.waiters| && s.waiters[w] == ReadsWorking(s.pushed) && s.working == 1
    ensures Reachable(s', threads, callers)
    ensures s' == s.(waiters := s.waiters[w := Blocked(s.pushed)], countLock := None)
  {
    ReachStep(s, ReadWorking(w), threads, callers);
    var s1 := Apply(s, ReadWorking(w));
    ReachStep(s1, BlockWaiter(w), threads, callers);
    s' := Apply(s1, BlockWaiter(w));
  }

  /** Two callers wait for the same job; its end signals only one of them, and the other is dead. */
  lemma SecondCallerLost(threads: nat, callers: nat) returns (s: Pool)
    requires threads >= 1 && callers >= 2
    ensures Reachable(s, threads, callers) && Lost(s) && Dead(s, 1)
  {
    var s1 := JobTakenUp(threads, callers);
    var s2 := CallerBlocks(s1, 0, threads, callers);
    var s3 := CallerBlocks(s2, 1, threads, callers);
    ReachStep(s3, Finish(0), threads, callers);
    var s4 := Apply(s3, Finish(0));
    assert WaiterBlocked(s4, 0);
    ReachStep(s4, Uncount(0, Some(0)), threads, callers);
    s := Apply(s4, Uncount(0, Some(0)));
    assert WaiterBlocked(s, 1);
  }

  /** `thpool_wait` never loses a wake-up exactly when at most one caller uses it (or no thread ever
      runs a job). */
  lemma NeverLostIff(threads: nat, callers: nat)
    ensures (forall s :: Reachable(s, threads, callers) ==> !Lost(s)) <==> callers <= 1 || threads == 0
  {
    if callers <= 1 || threads == 0 {
      forall s | Reachable(s, threads, callers)
        ensures !Lost(s)
      {
        var events :| Legal(Init(threads, callers), events) && s == After(Init(threads, callers), events);
        InitInv(threads, callers);
        RunNeverLoses(Init(threads, callers), events);
      }
    } else {
      var s := SecondCallerLost(threads, callers);
    }
  }

  /** Caller `w` is blocked and no thread has a step left that could signal it. */
  ghost predicate Dead(s: Pool, w: nat) {
    && s.queue == [] && !s.v && s.queueLock == Free && WaiterBlocked(s, w)
    && forall t: nat :: t < |s.workers| ==> s.workers[t] == Check || s.workers[t] == Asleep
  }

  lemma DeadKept(s: Pool, e: Event, w: nat)
    requires Dead(s, w) && Enabled(s, e) && Internal(e)
    ensures Dead(Apply(s, e), w)
  {
  }

  /** Only a new push or a spurious wake-up can bring a dead caller back. */
  lemma {:induction false} DeadForever(s: Pool, events: seq<Event>, w: nat)
    requires Dead(s, w) && Legal(s, events) && forall e :: e in events ==> Internal(e) || e.CallWait?
    ensures Dead(After(s, events), w)
    decreases |events|
  {
    hide Dead, Apply, Enabled, Internal;
    if events != [] {
      assert events[0] in events;
      if events[0].CallWait? {
        CallKeepsDead(s, events[0], w);
      } else {
        DeadKept(s, events[0], w);
      }
      DeadForever(Apply(s, events[0]), events[1..], w);
    }
  }

  lemma CallKeepsDead(s: Pool, e: Event, w: nat)
    requires Dead(s, w) && Enabled(s, e) && e.CallWait?
    ensures Dead(Apply(s, e), w)
  {
  }

  lemma DeadIsLost(s: Pool, threads: nat, callers: nat, w: nat)
    requires Reachable(s, threads, callers) && Dead(s, w)
    ensures Lost(s)
  {
    hide Reachable, Fifo, Conserved, QueueLockOk, CountLockOk, NotStranded, NotAllAsleep, WaitersOk;
    ReachableInv(s, threads, callers);
    NoneCounted(s.workers);
  }

  /** With at most one caller, when no step is left the caller is not waiting: `thpool_wait` returns. */
  lemma QuietMeansReturned(s: Pool, threads: nat, callers: nat, w: nat)
    requires Reachable(s, threads, callers) && threads > 0 && callers <= 1 && !CanStep(s) && w < |s.waiters|
    ensures s.waiters[w].Away? || s.waiters[w].Returned?
  {
    hide Reachable, Fifo, Conserved, Upto, NotStranded, NotAllAsleep, WaitersOk, QueueLockOk;
    ReachableInv(s, threads, callers);
    QuietMeansDone(s, threads, callers);
    NeverLostIff(threads, callers);
    assert !Lost(s);
    assert !WaiterBlocked(s, w);
    if s.countLock.Some? {
      CountLockHolderSteps(s);
    }
    assert !Enabled(s, LockCount(w));
  }

  /** No caller ever sleeps for good exactly when at most one caller waits (or there are no threads). */
  lemma NeverDeadIff(threads: nat, callers: nat)
    ensures (forall s, w :: Reachable(s, threads, callers) ==> !Dead(s, w)) <==> callers <= 1 || threads == 0
  {
    hide Reachable, Dead, Lost;
    NeverLostIff(threads, callers);
    if callers <= 1 || threads == 0 {
      forall s, w | Reachable(s, threads, callers)
        ensures !Dead(s, w)
      {
        if Dead(s, w) {
          DeadIsLost(s, threads, callers, w);
        }
      }
    } else {
      var s := SecondCallerLost(threads, callers);
      assert Dead(s, 1);
    }
  }
}
