/** The thread pool as a transition system: every worker and the main thread is at a statement of its
    own, one mutex, one condition variable whose waiters form an explicit set (pc Waiting). */
module ThreadPool {
  import opened Wire
  import opened TaskRing

  /** Where a worker is. Between Guard and an Unlock it holds the mutex. */
  datatype Pc =
    | Lock                      // about to lock the mutex
    | Guard                     // at the loop condition
    | Waiting                   // in pthread_cond_wait, mutex released
    | Relock                    // woken inside pthread_cond_wait, about to lock again
    | Check                     // behind the wait loop, at the test of stop
    | Fetch                     // at the test for a task
    | UnlockRun(task: Task)     // has taken a task, about to unlock
    | UnlockIdle                // has found no task, about to unlock
    | UnlockExit                // has seen stop, about to unlock
    | Running(task: Task)
    | Exited

  /** Where the main thread is: it submits tasks and finally destroys the pool. */
  datatype Main =
    | Idle
    | AddLock(task: Task)
    | AddTest(task: Task)
    | AddSignal
    | AddUnlock(ret: int)
    | StopLock
    | StopSet
    | StopBroadcast
    | StopUnlock
    | Joining(next: nat)
    | Done

  datatype Owner = Nobody | Worker(i: nat) | MainThread

  datatype Pool = Pool(
    ring: Ring,
    stop: bool,
    workers: seq<Pc>,
    main: Main,
    owner: Owner,
    accepted: seq<Task>,        // tasks put into the queue, in order
    taken: seq<Task>,           // tasks taken out of it, in order
    finished: multiset<Task>)

  datatype Action =
    | Work(i: nat)              // worker i executes its next statement
    | Wake(i: nat)              // worker i wakes up spuriously
    | Submit(task: Task)
    | Destroy
    | Proceed(woken: nat)       // main executes its next statement; a signal wakes this worker

  /** After thread_pool_init. */
  function Start(size: nat, threads: nat): Pool
    requires size >= 1
  {
    Pool(Ring(seq(size, _ => 0), 0, 0), false, seq(threads, _ => Lock), Idle, Nobody, [], [], multiset{})
  }

  // ----- workers -----

  predicate WorkEnabled(s: Pool, i: nat) {
    && i < |s.workers|
    && match s.workers[i]
       case Lock => s.owner == Nobody
       case Relock => s.owner == Nobody
       case Waiting => false
       case Exited => false
       case _ => true
  }

  function Move(s: Pool, i: nat, pc: Pc, owner: Owner): Pool
    requires i < |s.workers|
  {
    s.(workers := s.workers[i := pc], owner := owner)
  }

  function DoWork(s: Pool, i: nat): Pool
    requires s.ring.Valid() && WorkEnabled(s, i)
  {
    match s.workers[i]
    case Lock => Move(s, i, Guard, Worker(i))
    case Relock => Move(s, i, Guard, Worker(i))
    case Guard => if s.ring.Empty() && !s.stop then Move(s, i, Waiting, Nobody) else Move(s, i, Check, s.owner)
    case Check => Move(s, i, if s.stop then UnlockExit else Fetch, s.owner)
    case Fetch =>
      if !s.ring.Empty() then
        var task := s.ring.cells[s.ring.front];
        Move(s, i, UnlockRun(task), s.owner).(ring := s.ring.Pop(), taken := s.taken + [task])
      else Move(s, i, UnlockIdle, s.owner)
    case UnlockRun(task) => Move(s, i, Running(task), Nobody)
    case UnlockIdle => Move(s, i, Lock, Nobody)
    case UnlockExit => Move(s, i, Exited, Nobody)
    case Running(task) => Move(s, i, Lock, s.owner).(finished := s.finished + multiset{task})
  }

  // ----- the main thread -----

  predicate SomeoneWaits(workers: seq<Pc>) {
    exists i :: 0 <= i < |workers| && workers[i] == Waiting
  }

  predicate ProceedEnabled(s: Pool, woken: nat) {
    match s.main
    case Idle => false
    case AddLock(_) => s.owner == Nobody
    case StopLock => s.owner == Nobody
    case AddSignal => SomeoneWaits(s.workers) ==> woken < |s.workers| && s.workers[woken] == Waiting
    case Joining(next) => next < |s.workers| ==> s.workers[next] == Exited
    case Done => false
    case _ => true
  }

  function Woken(pc: Pc): Pc {
    if pc == Waiting then Relock else pc
  }

  function Broadcast(workers: seq<Pc>): (awake: seq<Pc>)
    ensures |awake| == |workers|
    ensures forall i | 0 <= i < |workers| :: awake[i] == Woken(workers[i])
  {
    if workers == [] then []
    else
      var init, last := workers[..|workers| - 1], workers[|workers| - 1];
      assert workers == init + [last];
      Broadcast(init) + [Woken(last)]
  }

  function DoProceed(s: Pool, woken: nat): Pool
    requires s.ring.Valid() && ProceedEnabled(s, woken)
  {
    match s.main
    case AddLock(task) => s.(main := AddTest(task), owner := MainThread)
    case AddTest(task) =>
      if s.ring.Full() then s.(main := AddUnlock(-1))
      else s.(main := AddSignal, ring := s.ring.Push(task), accepted := s.accepted + [task])
    case AddSignal =>
      if SomeoneWaits(s.workers) then s.(main := AddUnlock(0), workers := s.workers[woken := Relock])
      else s.(main := AddUnlock(0))
    case AddUnlock(_) => s.(main := Idle, owner := Nobody)
    case StopLock => s.(main := StopSet, owner := MainThread)
    case StopSet => s.(main := StopBroadcast, stop := true)
    case StopBroadcast => s.(main := StopUnlock, workers := Broadcast(s.workers))
    case StopUnlock => s.(main := Joining(0), owner := Nobody)
    case Joining(next) => s.(main := if next < |s.workers| then Joining(next + 1) else Done)
  }

  // ----- both -----

  predicate Enabled(s: Pool, a: Action) {
    match a
    case Work(i) => WorkEnabled(s, i)
    case Wake(i) => i < |s.workers| && s.workers[i] == Waiting
    case Submit(_) => s.main == Idle
    case Destroy => s.main == Idle
    case Proceed(woken) => ProceedEnabled(s, woken)
  }

  function Do(s: Pool, a: Action): (t: Pool)
    requires s.ring.Valid() && Enabled(s, a)
    ensures t.ring.Valid() && |t.ring.cells| == |s.ring.cells| && |t.workers| == |s.workers|
  {
    match a
    case Work(i) => DoWork(s, i)
    case Wake(i) => Move(s, i, Relock, s.owner)
    case Submit(task) => s.(main := AddLock(task))
    case Destroy => s.(main := StopLock)
    case Proceed(woken) => DoProceed(s, woken)
  }

  // ----- sums over the workers -----

  function Awake(workers: seq<Pc>): nat {
    if workers == [] then 0
    else Awake(workers[..|workers| - 1]) + if workers[|workers| - 1] == Waiting then 0 else 1
  }

  function Holding(pc: Pc, task: Task): nat {
    if pc == UnlockRun(task) || pc == Running(task) then 1 else 0
  }

  /** How often a task is in the hands of workers. */
  function InHand(workers: seq<Pc>, task: Task): nat {
    if workers == [] then 0
    else InHand(workers[..|workers| - 1], task) + Holding(workers[|workers| - 1], task)
  }

  lemma {:induction false} AwakeAfterMove(workers: seq<Pc>, i: nat, pc: Pc)
    requires i < |workers|
    ensures Awake(workers[i := pc]) + (if workers[i] == Waiting then 0 else 1)
         == Awake(workers) + if pc == Waiting then 0 else 1
  {
    var init := workers[..|workers| - 1];
    if i < |init| {
      AwakeAfterMove(init, i, pc);
      assert workers[i := pc][..|workers| - 1] == init[i := pc];
    } else {
      assert workers[i := pc][..|workers| - 1] == init;
    }
  }

  lemma {:induction false} InHandAfterMove(workers: seq<Pc>, i: nat, pc: Pc, task: Task)
    requires i < |workers|
    ensures InHand(workers[i := pc], task) + Holding(workers[i], task) == InHand(workers, task) + Holding(pc, task)
  {
    var init := workers[..|workers| - 1];
    if i < |init| {
      InHandAfterMove(init, i, pc, task);
      assert workers[i := pc][..|workers| - 1] == init[i := pc];
    } else {
      assert workers[i := pc][..|workers| - 1] == init;
    }
  }

  lemma {:induction false} AllAwake(workers: seq<Pc>)
    requires !SomeoneWaits(workers)
    ensures Awake(workers) == |workers|
  {
    if workers != [] {
      AllAwake(workers[..|workers| - 1]);
    }
  }

  lemma {:induction false} SomeoneAwake(workers: seq<Pc>)
    requires Awake(workers) > 0
    ensures exists i :: 0 <= i < |workers| && workers[i] != Waiting
  {
    if workers[|workers| - 1] == Waiting {
      SomeoneAwake(workers[..|workers| - 1]);
    }
  }

  lemma {:induction false} InHandAfterBroadcast(workers: seq<Pc>, task: Task)
    ensures InHand(Broadcast(workers), task) == InHand(workers, task)
  {
    if workers != [] {
      InHandAfterBroadcast(workers[..|workers| - 1], task);
      assert Broadcast(workers)[..|workers| - 1] == Broadcast(workers[..|workers| - 1]);
    }
  }

  lemma {:induction false} InHandOfIdle(workers: seq<Pc>, task: Task)
    requires forall i | 0 <= i < |workers| :: !workers[i].UnlockRun? && !workers[i].Running?
    ensures InHand(workers, task) == 0
  {
    if workers != [] {
      InHandOfIdle(workers[..|workers| - 1], task);
    }
  }

  // ----- the invariant -----

  predicate Holds(pc: Pc) {
    pc in {Guard, Check, Fetch, UnlockIdle, UnlockExit} || pc.UnlockRun?
  }

  predicate MainHolds(m: Main) {
    m.AddTest? || m.AddSignal? || m.AddUnlock? || m.StopSet? || m.StopBroadcast? || m.StopUnlock?
  }

  predicate Stopping(m: Main) {
    m.StopBroadcast? || m.StopUnlock? || m.Joining? || m.Done?
  }

  /** The mutex belongs to whoever is in a critical section, and that is one thread at most. */
  predicate MutualExclusion(s: Pool) {
    && (forall i | 0 <= i < |s.workers| :: Holds(s.workers[i]) <==> s.owner == Worker(i))
    && (MainHolds(s.main) <==> s.owner == MainThread)
    && (s.owner.Worker? ==> s.owner.i < |s.workers|)
  }

  /** Behind the wait loop there is a task or a stop; exits happen only after a stop. */
  predicate ControlFlow(s: Pool) {
    && (s.stop <==> Stopping(s.main))
    && (forall i | 0 <= i < |s.workers| ::
          match s.workers[i]
          case Check => s.stop || !s.ring.Empty()
          case Fetch => !s.stop && !s.ring.Empty()
          case UnlockIdle => false
          case UnlockExit => s.stop
          case Exited => s.stop
          case Waiting => s.stop ==> s.main == StopBroadcast
          case _ => true)
  }

  /** Every accepted task is queued, in a worker's hands or finished, once each; tasks leave the queue
      in the order in which they were accepted. */
  ghost predicate Accounts(s: Pool)
    requires s.ring.Valid()
  {
    && s.accepted == s.taken + s.ring.Contents()
    && forall task :: multiset(s.taken)[task] == s.finished[task] + InHand(s.workers, task)
  }

  /** Tasks in the queue that a signal has been sent for. */
  function Announced(s: Pool): int
    requires s.ring.Valid()
  {
    |s.ring.Contents()| - if s.main.AddSignal? then 1 else 0
  }

  /** No lost wakeup: as many workers are outside the wait set as there are announced tasks, or all. */
  predicate NoLostWakeup(s: Pool)
    requires s.ring.Valid()
  {
    !s.stop ==> Awake(s.workers) >= Min(Announced(s), |s.workers|)
  }

  predicate Joined(s: Pool) {
    match s.main
    case Joining(next) => next <= |s.workers| && forall i | 0 <= i < next :: s.workers[i] == Exited
    case Done => forall i | 0 <= i < |s.workers| :: s.workers[i] == Exited
    case _ => true
  }

  ghost predicate Inv(s: Pool) {
    && s.ring.Valid()
    && MutualExclusion(s)
    && ControlFlow(s)
    && Accounts(s)
    && NoLostWakeup(s)
    && Joined(s)
  }

  // ----- runs -----

  /** A schedule: actions that are enabled one after the other. */
  predicate Schedule(s: Pool, actions: seq<Action>)
    requires s.ring.Valid()
    decreases |actions|
  {
    actions == [] || (Enabled(s, actions[0]) && Schedule(Do(s, actions[0]), actions[1..]))
  }

  function After(s: Pool, actions: seq<Action>): (t: Pool)
    requires s.ring.Valid() && Schedule(s, actions)
    ensures t.ring.Valid() && |t.ring.cells| == |s.ring.cells| && |t.workers| == |s.workers|
    decreases |actions|
  {
    if actions == [] then s else After(Do(s, actions[0]), actions[1..])
  }
}
