/** What every interleaving of the thread pool keeps, and what follows from it. */
module PoolSafety {
  import opened Wire
  import opened TaskRing
  import opened ThreadPool

  // ----- one worker step -----

  lemma WorkKeepsRing(s: Pool, i: nat)
    requires Inv(s) && WorkEnabled(s, i)
    ensures DoWork(s, i).ring.Valid()
    ensures DoWork(s, i).ring.Contents()
         == if s.workers[i] == Fetch then s.ring.Contents()[1..] else s.ring.Contents()
    ensures s.workers[i] == Fetch ==>
              s.ring.Contents() != [] && s.ring.cells[s.ring.front] == s.ring.Contents()[0]
  {
    hide MutualExclusion, Accounts, NoLostWakeup, Joined;
    if s.workers[i] == Fetch {
      PopDrops(s.ring);
    }
  }

  lemma WorkKeepsMutualExclusion(s: Pool, i: nat)
    requires Inv(s) && WorkEnabled(s, i)
    ensures MutualExclusion(DoWork(s, i))
  {
    hide Accounts, NoLostWakeup, Joined;
  }

  /** A worker step changes the queue only as the holder of the mutex, so nobody else relies on it. */
  lemma WorkKeepsControlFlow(s: Pool, i: nat)
    requires Inv(s) && WorkEnabled(s, i)
    ensures ControlFlow(DoWork(s, i))
  {
    hide Accounts, NoLostWakeup, Joined;
    var t := DoWork(s, i);
    assert t.main == s.main && t.stop == s.stop;
    forall j | 0 <= j < |s.workers| && j != i
      ensures t.workers[j] == s.workers[j]
      ensures Holds(s.workers[i]) ==> !Holds(s.workers[j])
    {
    }
  }

  lemma WorkKeepsOrder(s: Pool, i: nat)
    requires Inv(s) && WorkEnabled(s, i)
    ensures DoWork(s, i).ring.Valid()
    ensures DoWork(s, i).accepted == DoWork(s, i).taken + DoWork(s, i).ring.Contents()
  {
    hide MutualExclusion, NoLostWakeup, Joined, InHand, Ring.Contents;
    WorkKeepsRing(s, i);
    if s.workers[i] == Fetch {
      FrontMoves(s.taken, s.ring.Contents());
    }
  }

  lemma FrontMoves(taken: seq<Task>, queued: seq<Task>)
    requires queued != []
    ensures taken + [queued[0]] + queued[1..] == taken + queued
    ensures multiset(taken + [queued[0]]) == multiset(taken) + multiset{queued[0]}
  {
  }

  /** What a worker takes, holds and finishes. */
  lemma WorkOnTasks(s: Pool, i: nat, task: Task)
    requires Inv(s) && WorkEnabled(s, i)
    ensures var t := DoWork(s, i);
            && t.workers == s.workers[i := t.workers[i]]
            && match s.workers[i]
               case Fetch =>
                 && t.workers[i] == UnlockRun(s.ring.cells[s.ring.front])
                 && t.taken == s.taken + [s.ring.cells[s.ring.front]] && t.finished == s.finished
               case Running(done) =>
                 t.workers[i] == Lock && t.taken == s.taken && t.finished == s.finished + multiset{done}
               case _ =>
                 && Holding(t.workers[i], task) == Holding(s.workers[i], task)
                 && t.taken == s.taken && t.finished == s.finished
  {
    hide MutualExclusion, Accounts, NoLostWakeup, Joined;
  }

  lemma WorkKeepsHands(s: Pool, i: nat, task: Task)
    requires Inv(s) && WorkEnabled(s, i)
    ensures multiset(DoWork(s, i).taken)[task] == DoWork(s, i).finished[task] + InHand(DoWork(s, i).workers, task)
  {
    hide MutualExclusion, ControlFlow, NoLostWakeup, Joined, InHand, Ring.Contents, DoWork;
    WorkOnTasks(s, i, task);
    InHandAfterMove(s.workers, i, DoWork(s, i).workers[i], task);
  }

  lemma WorkKeepsAccounts(s: Pool, i: nat)
    requires Inv(s) && WorkEnabled(s, i)
    ensures DoWork(s, i).ring.Valid() && Accounts(DoWork(s, i))
  {
    hide MutualExclusion, NoLostWakeup, Joined, DoWork, ControlFlow;
    WorkKeepsOrder(s, i);
    forall task {
      WorkKeepsHands(s, i, task);
    }
  }

  lemma WorkKeepsWakeups(s: Pool, i: nat)
    requires Inv(s) && WorkEnabled(s, i)
    ensures DoWork(s, i).ring.Valid() && NoLostWakeup(DoWork(s, i))
  {
    hide MutualExclusion, Accounts, Joined, Awake;
    var t := DoWork(s, i);
    WorkKeepsRing(s, i);
    AwakeAfterMove(s.workers, i, t.workers[i]);
    assert t.workers == s.workers[i := t.workers[i]];
    if s.workers[i] == Guard {
      EmptyMeansNothingQueued(s.ring);
    }
  }

  lemma WorkKeepsJoined(s: Pool, i: nat)
    requires Inv(s) && WorkEnabled(s, i)
    ensures Joined(DoWork(s, i))
  {
    hide MutualExclusion, ControlFlow, Accounts, NoLostWakeup;
  }

  // ----- a spurious wakeup -----

  lemma WakeKeepsInv(s: Pool, i: nat)
    requires Inv(s) && i < |s.workers| && s.workers[i] == Waiting
    ensures Inv(Move(s, i, Relock, s.owner))
  {
    hide Awake, InHand, Ring.Contents;
    AwakeAfterMove(s.workers, i, Relock);
    forall task
      ensures InHand(s.workers[i := Relock], task) == InHand(s.workers, task)
    {
      InHandAfterMove(s.workers, i, Relock, task);
    }
  }

  // ----- one step of the main thread -----

  lemma ProceedKeepsRing(s: Pool, woken: nat)
    requires Inv(s) && ProceedEnabled(s, woken)
    ensures DoProceed(s, woken).ring.Valid()
    ensures DoProceed(s, woken).ring.Contents()
         == if s.main.AddTest? && !s.ring.Full() then s.ring.Contents() + [s.main.task] else s.ring.Contents()
  {
    hide MutualExclusion, ControlFlow, Accounts, NoLostWakeup, Joined;
    if s.main.AddTest? && !s.ring.Full() {
      PushAppends(s.ring, s.main.task);
    }
  }

  lemma ProceedKeepsMutualExclusion(s: Pool, woken: nat)
    requires Inv(s) && ProceedEnabled(s, woken)
    ensures MutualExclusion(DoProceed(s, woken))
  {
    hide ControlFlow, Accounts, NoLostWakeup, Joined;
  }

  lemma ProceedKeepsControlFlow(s: Pool, woken: nat)
    requires Inv(s) && ProceedEnabled(s, woken)
    ensures ControlFlow(DoProceed(s, woken))
  {
    hide Accounts, NoLostWakeup, Joined, Ring.Contents;
    if s.main.AddTest? && !s.ring.Full() {
      PushFills(s.ring, s.main.task);
    }
  }

  lemma PushFills(r: Ring, task: Task)
    requires r.Valid() && !r.Full()
    ensures !r.Push(task).Empty()
  {
    PushAppends(r, task);
    EmptyMeansNothingQueued(r.Push(task));
  }

  lemma ProceedKeepsHands(s: Pool, woken: nat, task: Task)
    requires ProceedEnabled(s, woken) && s.ring.Valid()
    ensures InHand(DoProceed(s, woken).workers, task) == InHand(s.workers, task)
  {
    hide InHand, Broadcast, Ring.Full, Ring.Push;
    if s.main.AddSignal? && SomeoneWaits(s.workers) {
      InHandAfterMove(s.workers, woken, Relock, task);
    }
    InHandAfterBroadcast(s.workers, task);
  }

  lemma ProceedOnTasks(s: Pool, woken: nat)
    requires ProceedEnabled(s, woken) && s.ring.Valid()
    ensures var t := DoProceed(s, woken);
            && t.taken == s.taken && t.finished == s.finished
            && t.accepted == if s.main.AddTest? && !s.ring.Full() then s.accepted + [s.main.task] else s.accepted
  {
    hide Broadcast, Ring.Full, Ring.Push;
  }

  lemma ProceedKeepsAccounts(s: Pool, woken: nat)
    requires Inv(s) && ProceedEnabled(s, woken)
    ensures DoProceed(s, woken).ring.Valid() && Accounts(DoProceed(s, woken))
  {
    hide MutualExclusion, ControlFlow, NoLostWakeup, Joined, InHand, DoProceed, Ring.Contents, Ring.Full;
    ProceedKeepsRing(s, woken);
    ProceedOnTasks(s, woken);
    forall task
      ensures InHand(DoProceed(s, woken).workers, task) == InHand(s.workers, task)
    {
      ProceedKeepsHands(s, woken, task);
    }
    if s.main.AddTest? {
      Assoc(s.taken, s.ring.Contents(), [s.main.task]);
    }
  }

  lemma ProceedKeepsWakeups(s: Pool, woken: nat)
    requires Inv(s) && ProceedEnabled(s, woken)
    ensures DoProceed(s, woken).ring.Valid() && NoLostWakeup(DoProceed(s, woken))
  {
    hide MutualExclusion, Accounts, Joined, Awake, Broadcast;
    ProceedKeepsRing(s, woken);
    if s.main.AddSignal? {
      if SomeoneWaits(s.workers) {
        AwakeAfterMove(s.workers, woken, Relock);
      } else {
        AllAwake(s.workers);
      }
    }
  }

  lemma ProceedKeepsJoined(s: Pool, woken: nat)
    requires Inv(s) && ProceedEnabled(s, woken)
    ensures Joined(DoProceed(s, woken))
  {
    hide MutualExclusion, ControlFlow, Accounts, NoLostWakeup;
  }

  lemma SubmitOrDestroyKeepsInv(s: Pool, main: Main)
    requires Inv(s) && s.main == Idle && (main.AddLock? || main == StopLock)
    ensures Inv(s.(main := main))
  {
    hide Awake, InHand, Ring.Contents;
  }

  // ----- any step, any run -----

  lemma DoKeepsInv(s: Pool, a: Action)
    requires Inv(s) && Enabled(s, a)
    ensures Inv(Do(s, a))
  {
    hide MutualExclusion, ControlFlow, Accounts, NoLostWakeup, Joined, DoWork, DoProceed;
    match a
    case Work(i) =>
      WorkKeepsMutualExclusion(s, i);
      WorkKeepsControlFlow(s, i);
      WorkKeepsAccounts(s, i);
      WorkKeepsWakeups(s, i);
      WorkKeepsJoined(s, i);
    case Wake(i) => WakeKeepsInv(s, i);
    case Submit(task) => SubmitOrDestroyKeepsInv(s, AddLock(task));
    case Destroy => SubmitOrDestroyKeepsInv(s, StopLock);
    case Proceed(woken) =>
      ProceedKeepsMutualExclusion(s, woken);
      ProceedKeepsControlFlow(s, woken);
      ProceedKeepsAccounts(s, woken);
      ProceedKeepsWakeups(s, woken);
      ProceedKeepsJoined(s, woken);
  }

  lemma {:induction false} ScheduleKeepsInv(s: Pool, actions: seq<Action>)
    requires Inv(s) && Schedule(s, actions)
    ensures Inv(After(s, actions))
    decreases |actions|
  {
    hide MutualExclusion, ControlFlow, Accounts, NoLostWakeup, Joined, Do, Enabled;
    if actions != [] {
      DoKeepsInv(s, actions[0]);
      ScheduleKeepsInv(Do(s, actions[0]), actions[1..]);
    }
  }

  lemma StartKeepsInv(size: nat, threads: nat)
    requires size >= 1
    ensures Inv(Start(size, threads))
  {
    var s := Start(size, threads);
    assert s.ring.Contents() == [];
    forall task
      ensures InHand(s.workers, task) == 0
    {
      InHandOfIdle(s.workers, task);
    }
  }

  /** The pool as it is configured: this many workers, all about to begin, this many cells, no task. */
  lemma StartIsConfigured(size: nat, threads: nat)
    requires size >= 1
    ensures var s := Start(size, threads);
            && |s.workers| == threads && (forall i | 0 <= i < threads :: s.workers[i] == Lock)
            && |s.ring.cells| == size && s.ring.Contents() == []
            && s.main == Idle && !s.stop && s.accepted == s.taken == [] && s.finished == multiset{}
  {
  }

  /** In every reachable state of every pool: there are the configured workers and cells, no wakeup is
      lost, accepted tasks are exactly the taken and the queued ones in order of acceptance, and the
      taken ones are finished or in hand. */
  lemma ReachablePoolIsSafe(size: nat, threads: nat, actions: seq<Action>)
    requires size >= 1
    requires Schedule(Start(size, threads), actions)
    ensures var s := After(Start(size, threads), actions);
            && |s.workers| == threads && |s.ring.cells| == size && |s.ring.Contents()| <= size - 1
            && MutualExclusion(s)
            && s.accepted == s.taken + s.ring.Contents()
            && (forall task :: multiset(s.accepted)[task]
                               == s.finished[task] + InHand(s.workers, task) + multiset(s.ring.Contents())[task])
            && (!s.stop ==> Awake(s.workers) >= Min(Announced(s), |s.workers|))
  {
    hide Start, MutualExclusion, ControlFlow, Joined, Awake, InHand, Schedule, After, Ring.Contents;
    StartIsConfigured(size, threads);
    StartKeepsInv(size, threads);
    ScheduleKeepsInv(Start(size, threads), actions);
    QueueIsBounded(After(Start(size, threads), actions).ring);
  }

  /** The branch behind a failed test for a task is never taken: whoever passes the wait loop without
      a stop finds a task, since the mutex is held throughout. */
  lemma NobodyFindsTheQueueEmpty(s: Pool, i: nat)
    requires Inv(s) && i < |s.workers| && s.workers[i] == Fetch
    ensures DoWork(s, i).workers[i].UnlockRun?
    ensures DoWork(s, i).workers[i].task == s.ring.Contents()[0]
  {
    hide MutualExclusion, Accounts, NoLostWakeup, Joined;
    PopDrops(s.ring);
  }

  // ----- refinement of a bounded queue -----

  datatype QueueStep = Unchanged | Enqueue(task: Task) | Refuse | Dequeue

  function QueueStepOf(s: Pool, a: Action): QueueStep
    requires s.ring.Valid()
  {
    match a
    case Proceed(_) =>
      if s.main.AddTest? then if |s.ring.Contents()| < Capacity(|s.ring.cells|) then Enqueue(s.main.task) else Refuse
      else Unchanged
    case Work(i) => if i < |s.workers| && s.workers[i] == Fetch then Dequeue else Unchanged
    case _ => Unchanged
  }

  lemma WorkIsQueueStep(s: Pool, i: nat)
    requires Inv(s) && WorkEnabled(s, i)
    ensures DoWork(s, i).ring.Valid()
    ensures var before, t := s.ring.Contents(), DoWork(s, i);
            if s.workers[i] == Fetch then
              && before != [] && t.taken == s.taken + [before[0]]
              && before == [before[0]] + t.ring.Contents()
            else t.ring.Contents() == before && t.taken == s.taken
  {
    hide Inv, DoWork, Ring.Contents;
    RingOfInv(s);
    WorkKeepsRing(s, i);
    WorkOnTasks(s, i, 0);
    FrontOfQueue(s);
  }

  lemma RingOfInv(s: Pool)
    requires Inv(s)
    ensures s.ring.Valid()
  {
  }

  lemma ProceedIsQueueStep(s: Pool, woken: nat)
    requires Inv(s) && ProceedEnabled(s, woken)
    ensures DoProceed(s, woken).ring.Valid() && DoProceed(s, woken).taken == s.taken
    ensures var before, t := s.ring.Contents(), DoProceed(s, woken);
            if !s.main.AddTest? then t.ring.Contents() == before
            else if |before| < Capacity(|s.ring.cells|) then
              t.ring.Contents() == before + [s.main.task] && t.main == AddSignal
            else t.ring.Contents() == before && t.main == AddUnlock(-1)
  {
    hide MutualExclusion, ControlFlow, Accounts, NoLostWakeup, Joined, Ring.Contents, Ring.Full;
    FullMeansCapacity(s.ring);
    QueueIsBounded(s.ring);
    ProceedKeepsRing(s, woken);
  }

  /** Every step is a step of a first-in first-out queue of capacity queue_size - 1: a submission is
      refused exactly when the queue is full, and what is taken is the oldest. */
  lemma DoRefinesBoundedQueue(s: Pool, a: Action)
    requires Inv(s) && Enabled(s, a)
    ensures Do(s, a).ring.Valid()
    ensures var before, after := s.ring.Contents(), Do(s, a).ring.Contents();
            match QueueStepOf(s, a)
            case Unchanged => after == before && Do(s, a).taken == s.taken
            case Enqueue(task) => after == before + [task] && Do(s, a).main == AddSignal
            case Refuse => after == before && Do(s, a).main == AddUnlock(-1)
            case Dequeue => before == [before[0]] + after && Do(s, a).taken == s.taken + [before[0]]
  {
    hide Inv, DoWork, DoProceed, Ring.Contents;
    RingOfInv(s);
    match a
    case Work(i) => WorkIsQueueStep(s, i);
    case Proceed(woken) => ProceedIsQueueStep(s, woken);
    case _ =>
  }

  lemma FrontOfQueue(s: Pool)
    requires s.ring.Valid()
    ensures s.ring.Contents() != [] ==> s.ring.Contents() == [s.ring.Contents()[0]] + s.ring.Contents()[1..]
  {
  }

  lemma QueueIsBounded(r: Ring)
    requires r.Valid()
    ensures |r.Contents()| <= Capacity(|r.cells|)
  {
  }

  // ----- what a submission returns -----

  /** Main is in a call that submits `task`, begun when `before` had been accepted. */
  predicate Calling(before: seq<Task>, task: Task, s: Pool) {
    match s.main
    case AddLock(t) => t == task && s.accepted == before
    case AddTest(t) => t == task && s.accepted == before
    case AddSignal => s.accepted == before + [task]
    case AddUnlock(ret) =>
      if ret == 0 then s.accepted == before + [task] else ret == -1 && s.accepted == before
    case _ => false
  }

  predicate Returned(before: seq<Task>, task: Task, s: Pool) {
    s.main == Idle && (s.accepted == before || s.accepted == before + [task])
  }

  predicate NoCall(actions: seq<Action>) {
    forall k | 0 <= k < |actions| :: !actions[k].Submit? && !actions[k].Destroy?
  }

  lemma CallStep(before: seq<Task>, task: Task, s: Pool, a: Action)
    requires s.ring.Valid() && Enabled(s, a) && !a.Submit? && !a.Destroy?
    requires Calling(before, task, s) || Returned(before, task, s)
    ensures Calling(before, task, Do(s, a)) || Returned(before, task, Do(s, a))
  {
    hide Ring.Full, Broadcast;
  }

  lemma {:induction false} CallRuns(before: seq<Task>, task: Task, s: Pool, actions: seq<Action>)
    requires s.ring.Valid() && Schedule(s, actions) && NoCall(actions)
    requires Calling(before, task, s) || Returned(before, task, s)
    ensures Calling(before, task, After(s, actions)) || Returned(before, task, After(s, actions))
    decreases |actions|
  {
    hide Calling, Returned, Do, Enabled;
    if actions != [] {
      CallStep(before, task, s, actions[0]);
      CallRuns(before, task, Do(s, actions[0]), actions[1..]);
    }
  }

  /** Whatever the workers do during a submission: when it is about to return 0, what was submitted,
      and no other, has been put at the end of what was accepted; when it is about to return anything
      else, that is -1 and nothing has. */
  lemma SubmissionReturns(s: Pool, task: Task, actions: seq<Action>)
    requires s.ring.Valid() && s.main == Idle
    requires Schedule(Do(s, Submit(task)), actions) && NoCall(actions)
    ensures var t := After(Do(s, Submit(task)), actions);
            t.main.AddUnlock? ==>
              && (t.main.ret == 0 <==> t.accepted == s.accepted + [task])
              && (t.main.ret == -1 <==> t.accepted == s.accepted)
              && (t.main.ret == 0 || t.main.ret == -1)
  {
    hide After, Schedule;
    CallRuns(s.accepted, task, Do(s, Submit(task)), actions);
    assert |s.accepted + [task]| > |s.accepted|;
  }
}
