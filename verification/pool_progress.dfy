/** The thread pool gets its work done: a queue drains, a shutdown ends. */
module PoolProgress {
  import opened TaskRing
  import opened ThreadPool
  import opened PoolSafety

  /** Statements ahead of a worker, counted so that each of its steps goes down. */
  function Rank(pc: Pc): nat {
    match pc
    case Exited => 0
    case UnlockExit => 1
    case Fetch => 1
    case Check => 2
    case Guard => 3
    case Lock => 4
    case Relock => 4
    case Waiting => 5
    case UnlockIdle => 5
    case Running(_) => 5
    case UnlockRun(_) => 6
  }

  function Ranks(workers: seq<Pc>): nat {
    if workers == [] then 0 else Ranks(workers[..|workers| - 1]) + Rank(workers[|workers| - 1])
  }

  lemma {:induction false} RanksAfterMove(workers: seq<Pc>, i: nat, pc: Pc)
    requires i < |workers|
    ensures Ranks(workers[i := pc]) + Rank(workers[i]) == Ranks(workers) + Rank(pc)
  {
    hide Rank;
    var init := workers[..|workers| - 1];
    if i < |init| {
      RanksAfterMove(init, i, pc);
      assert workers[i := pc][..|workers| - 1] == init[i := pc];
    } else {
      assert workers[i := pc][..|workers| - 1] == init;
    }
  }

  // ----- draining -----

  predicate ByWorker(a: Action) {
    a.Work? || a.Wake?
  }

  predicate AllByWorkers(actions: seq<Action>) {
    forall k | 0 <= k < |actions| :: ByWorker(actions[k])
  }

  /** Queued tasks first, then the statements ahead of the workers. */
  function Backlog(s: Pool): nat
    requires s.ring.Valid()
  {
    6 * |s.ring.Contents()| + Ranks(s.workers)
  }

  predicate Draining(s: Pool)
    requires s.ring.Valid()
  {
    s.ring.Contents() != [] && !s.stop && s.main == Idle
  }

  /** While tasks are queued and the producer is idle, every step of a worker, a spurious wakeup
      included, reduces the backlog. */
  lemma WorkReducesBacklog(s: Pool, a: Action)
    requires Inv(s) && Draining(s) && ByWorker(a) && Enabled(s, a)
    ensures Backlog(Do(s, a)) < Backlog(s)
    ensures Do(s, a).main == Idle && !Do(s, a).stop
  {
    hide MutualExclusion, Accounts, NoLostWakeup, Joined, Ranks, Ring.Contents;
    EmptyMeansNothingQueued(s.ring);
    match a
    case Work(i) =>
      WorkKeepsRing(s, i);
      MoveOf(s, i);
      RanksAfterMove(s.workers, i, DoWork(s, i).workers[i]);
    case Wake(i) =>
      RanksAfterMove(s.workers, i, Relock);
  }

  lemma MoveOf(s: Pool, i: nat)
    requires s.ring.Valid() && WorkEnabled(s, i)
    ensures DoWork(s, i).workers == s.workers[i := DoWork(s, i).workers[i]]
  {
  }

  /** While tasks are queued, some worker can go on: the holder of the mutex, or one outside the wait
      set, of which there is one because no wakeup is lost. */
  lemma SomeWorkerCanGoOn(s: Pool)
    requires Inv(s) && Draining(s) && s.workers != []
    ensures exists i :: Enabled(s, Work(i))
  {
    hide Accounts, Joined, Awake, Ring.Contents;
    var i: nat;
    if s.owner.Worker? {
      i := s.owner.i;
    } else {
      SomeoneAwake(s.workers);
      i :| 0 <= i < |s.workers| && s.workers[i] != Waiting;
    }
    assert s.owner == Nobody ==> !Holds(s.workers[i]);
    assert Enabled(s, Work(i));
  }

  /** Whatever the schedule: after at most as many worker steps as the backlog counts, the queue has
      been empty. */
  lemma {:induction false} QueueDrains(s: Pool, actions: seq<Action>)
    requires Inv(s) && s.main == Idle && !s.stop
    requires AllByWorkers(actions) && Schedule(s, actions) && |actions| >= Backlog(s)
    ensures exists k :: 0 <= k <= |actions| && EmptyAfter(s, actions, k)
    decreases |actions|
  {
    hide MutualExclusion, ControlFlow, Accounts, NoLostWakeup, Joined, Do, Enabled, Ring.Contents, Ranks;
    if s.ring.Contents() == [] {
      assert EmptyAfter(s, actions, 0) by {
        NoStepsTaken(s, actions);
      }
    } else {
      BacklogOfQueue(s);
      var next, rest := Do(s, actions[0]), actions[1..];
      DoKeepsInv(s, actions[0]);
      WorkReducesBacklog(s, actions[0]);
      assert AllByWorkers(rest);
      QueueDrains(next, rest);
      var k :| 0 <= k <= |rest| && EmptyAfter(next, rest, k);
      assert actions[..k + 1][1..] == rest[..k];
      assert EmptyAfter(s, actions, k + 1);
    }
  }

  predicate EmptyAfter(s: Pool, actions: seq<Action>, k: nat)
    requires s.ring.Valid() && k <= |actions|
  {
    Schedule(s, actions[..k]) && After(s, actions[..k]).ring.Contents() == []
  }

  lemma NoStepsTaken(s: Pool, actions: seq<Action>)
    requires s.ring.Valid() && s.ring.Contents() == []
    ensures EmptyAfter(s, actions, 0)
  {
    assert actions[..0] == [];
  }

  lemma BacklogOfQueue(s: Pool)
    requires s.ring.Valid() && s.ring.Contents() != []
    ensures Backlog(s) >= 6
  {
  }

  /** In a pool configured with a worker at all, some worker can go on while tasks are queued. */
  lemma ReachedPoolGoesOn(size: nat, threads: nat, actions: seq<Action>)
    requires size >= 1 && threads >= 1 && Schedule(Start(size, threads), actions)
    ensures var s := After(Start(size, threads), actions);
            Draining(s) ==> exists i :: Enabled(s, Work(i))
  {
    hide Start, Schedule, After, Draining, Inv, Enabled;
    StartKeepsInv(size, threads);
    StartIsConfigured(size, threads);
    ScheduleKeepsInv(Start(size, threads), actions);
    if Draining(After(Start(size, threads), actions)) {
      SomeWorkerCanGoOn(After(Start(size, threads), actions));
    }
  }

  lemma WorkerAcceptsNothing(s: Pool, a: Action)
    requires s.ring.Valid() && Enabled(s, a) && ByWorker(a)
    ensures Do(s, a).accepted == s.accepted && Do(s, a).main == s.main && Do(s, a).stop == s.stop
  {
    hide Ring.Contents;
  }

  /** All is done that has been accepted. */
  predicate AllFinished(s: Pool, accepted: seq<Task>) {
    s.accepted == s.taken == accepted && s.finished == multiset(accepted)
  }

  /** A run of the workers alone after which all is done. */
  predicate Finishes(s: Pool, more: seq<Action>)
    requires s.ring.Valid()
  {
    AllByWorkers(more) && Schedule(s, more) && AllFinished(After(s, more), s.accepted)
  }

  predicate InWork(pc: Pc) {
    pc.UnlockRun? || pc.Running?
  }

  /** A worker with a task can always go on, and comes closer to its end. */
  lemma FinishingStep(s: Pool, i: nat)
    requires Inv(s) && i < |s.workers| && InWork(s.workers[i])
    ensures Enabled(s, Work(i)) && Backlog(Do(s, Work(i))) < Backlog(s)
  {
    hide MutualExclusion, ControlFlow, Accounts, NoLostWakeup, Joined, Ranks, Ring.Contents;
    MoveOf(s, i);
    RanksAfterMove(s.workers, i, DoWork(s, i).workers[i]);
  }

  lemma NothingInHand(s: Pool)
    requires Inv(s) && s.ring.Contents() == []
    requires forall i | 0 <= i < |s.workers| :: !InWork(s.workers[i])
    ensures AllFinished(s, s.accepted)
  {
    hide MutualExclusion, ControlFlow, NoLostWakeup, Joined, Ring.Contents, InHand;
    forall task
      ensures multiset(s.taken)[task] == s.finished[task]
    {
      InHandOfIdle(s.workers, task);
    }
    assert s.accepted == s.taken;
  }

  lemma FirstThenRest(s: Pool, a: Action, more: seq<Action>)
    requires s.ring.Valid() && Enabled(s, a) && ByWorker(a) && Finishes(Do(s, a), more)
    ensures Finishes(s, [a] + more)
  {
    hide Do, Enabled;
    WorkerAcceptsNothing(s, a);
    assert ([a] + more)[1..] == more;
  }

  /** While the producer is idle the workers can, by their own steps, finish every accepted task. */
  lemma {:induction false} EverythingCanFinish(s: Pool) returns (more: seq<Action>)
    requires Inv(s) && s.main == Idle && !s.stop && s.workers != []
    ensures Finishes(s, more)
    decreases Backlog(s)
  {
    hide MutualExclusion, ControlFlow, Accounts, NoLostWakeup, Joined, Do, Enabled, Ring.Contents, Ranks, Finishes;
    var i: nat;
    if Draining(s) {
      SomeWorkerCanGoOn(s);
      i :| Enabled(s, Work(i));
      WorkReducesBacklog(s, Work(i));
    } else if exists j :: 0 <= j < |s.workers| && InWork(s.workers[j]) {
      i :| 0 <= i < |s.workers| && InWork(s.workers[i]);
      FinishingStep(s, i);
    } else {
      NothingInHand(s);
      NothingMore(s);
      return [];
    }
    DoKeepsInv(s, Work(i));
    WorkerAcceptsNothing(s, Work(i));
    more := EverythingCanFinish(Do(s, Work(i)));
    FirstThenRest(s, Work(i), more);
    more := [Work(i)] + more;
  }

  lemma NothingMore(s: Pool)
    requires s.ring.Valid() && AllFinished(s, s.accepted)
    ensures Finishes(s, [])
  {
  }

  /** From every state a configured pool reaches with the producer idle, all accepted tasks can be run. */
  lemma ReachedPoolFinishes(size: nat, threads: nat, actions: seq<Action>)
    requires size >= 1 && threads >= 1 && Schedule(Start(size, threads), actions)
    ensures var s := After(Start(size, threads), actions);
            s.main == Idle && !s.stop ==> exists more :: Finishes(s, more)
  {
    hide Start, Schedule, After, Inv, Finishes;
    StartKeepsInv(size, threads);
    StartIsConfigured(size, threads);
    ScheduleKeepsInv(Start(size, threads), actions);
    var s := After(Start(size, threads), actions);
    if s.main == Idle && !s.stop {
      var more := EverythingCanFinish(s);
    }
  }

  /** And whatever the workers' schedule: once the queue has been empty, all that had been accepted has
      been taken. */
  lemma {:induction false} AcceptedAreTaken(s: Pool, actions: seq<Action>)
    requires Inv(s) && AllByWorkers(actions) && Schedule(s, actions)
    ensures After(s, actions).ring.Contents() == [] ==> After(s, actions).taken == s.accepted
    decreases |actions|
  {
    hide MutualExclusion, ControlFlow, NoLostWakeup, Joined, Do, Enabled, Ring.Contents;
    if actions != [] {
      DoKeepsInv(s, actions[0]);
      WorkerAcceptsNothing(s, actions[0]);
      AcceptedAreTaken(Do(s, actions[0]), actions[1..]);
    }
  }

  // ----- shutdown -----

  function MainRank(s: Pool): int {
    match s.main
    case StopBroadcast => |s.workers| + 4
    case StopUnlock => |s.workers| + 3
    case Joining(next) => |s.workers| + 2 - next
    case Done => 0
    case _ => 0
  }

  /** Statements ahead of everybody once stop is set. */
  function Ahead(s: Pool): int {
    MainRank(s) + Ranks(s.workers)
  }

  lemma {:induction false} BroadcastLowersRanks(workers: seq<Pc>)
    ensures Ranks(Broadcast(workers)) <= Ranks(workers)
  {
    if workers != [] {
      BroadcastLowersRanks(workers[..|workers| - 1]);
      assert Broadcast(workers)[..|workers| - 1] == Broadcast(workers[..|workers| - 1]);
    }
  }

  /** After stop no task is taken any more and nobody enters the wait set; every step counts down. */
  lemma StopStep(s: Pool, a: Action)
    requires Inv(s) && s.stop && Enabled(s, a)
    ensures var t := Do(s, a);
            && t.stop && t.taken == s.taken && t.accepted == s.accepted && t.ring == s.ring
            && 0 <= Ahead(t) < Ahead(s)
            && forall i | 0 <= i < |s.workers| :: t.workers[i] == Waiting ==> s.workers[i] == Waiting
  {
    hide MutualExclusion, Accounts, NoLostWakeup, Ranks, Ring.Contents, Broadcast;
    match a
    case Work(i) =>
      MoveOf(s, i);
      RanksAfterMove(s.workers, i, DoWork(s, i).workers[i]);
    case Wake(i) => RanksAfterMove(s.workers, i, Relock);
    case Proceed(_) => BroadcastLowersRanks(s.workers);
  }

  /** Until the pool is gone somebody can go on. */
  lemma SomeoneCanGoOn(s: Pool)
    requires Inv(s) && s.stop && s.main != Done
    ensures exists a :: Enabled(s, a)
  {
    hide Accounts, NoLostWakeup, Ring.Contents;
    match s.owner
    case Worker(i) => assert Enabled(s, Work(i));
    case MainThread => assert Enabled(s, Proceed(0));
    case Nobody =>
      var next := s.main.next;
      if next < |s.workers| && s.workers[next] != Exited {
        assert !Holds(s.workers[next]);
        assert Enabled(s, Work(next));
      } else {
        assert Enabled(s, Proceed(0));
      }
  }

  /** Once the pool is gone: all workers have exited, every task ever taken is finished, and those
      that never ran are exactly the ones still in the queue. */
  lemma WhatIsLeft(s: Pool)
    requires Inv(s) && s.main == Done
    ensures forall i | 0 <= i < |s.workers| :: s.workers[i] == Exited
    ensures s.accepted == s.taken + s.ring.Contents()
    ensures multiset(s.taken) == s.finished
  {
    hide MutualExclusion, ControlFlow, NoLostWakeup, Ring.Contents, InHand;
    forall task
      ensures multiset(s.taken)[task] == s.finished[task]
    {
      InHandOfIdle(s.workers, task);
    }
  }

  /** Shutdown in any interleaving: from the moment stop is set, a schedule has at most as many steps
      as there are statements ahead; one that cannot be continued ends with all workers joined, no
      task taken since, and the unfinished tasks exactly those queued when stop was set. */
  lemma {:induction false} ShutdownEnds(s: Pool, actions: seq<Action>)
    requires Inv(s) && s.stop && Schedule(s, actions)
    ensures |actions| <= Ahead(s)
    ensures var t := After(s, actions);
            && t.taken == s.taken && t.ring == s.ring
            && ((forall a :: !Enabled(t, a)) ==>
                  && t.main == Done
                  && (forall i | 0 <= i < |t.workers| :: t.workers[i] == Exited)
                  && multiset(t.taken) == t.finished
                  && t.accepted == t.taken + s.ring.Contents())
    decreases |actions|
  {
    hide MutualExclusion, ControlFlow, Accounts, NoLostWakeup, Joined, Do, Enabled, Ring.Contents, Ahead;
    if actions == [] {
      AheadIsNatural(s);
      if s.main == Done {
        WhatIsLeft(s);
      } else {
        SomeoneCanGoOn(s);
      }
    } else {
      DoKeepsInv(s, actions[0]);
      StopStep(s, actions[0]);
      ShutdownEnds(Do(s, actions[0]), actions[1..]);
    }
  }

  lemma AheadIsNatural(s: Pool)
    requires Inv(s)
    ensures Ahead(s) >= 0
  {
    hide MutualExclusion, ControlFlow, Accounts, NoLostWakeup;
  }

  /** Behind the broadcast no worker is left in the wait set. */
  lemma NobodyIsForgotten(s: Pool, i: nat)
    requires Inv(s) && s.stop && s.main != StopBroadcast && i < |s.workers|
    ensures s.workers[i] != Waiting
  {
    hide MutualExclusion, Accounts, NoLostWakeup, Joined;
  }

  // ----- nobody is stuck -----

  /** A waiting worker may wake up at any time, a signal may wake any of those waiting, and an idle main
      thread may submit or destroy. */
  lemma AnythingMayHappen(s: Pool, i: nat, task: Task)
    requires i < |s.workers|
    ensures Enabled(s, Wake(i)) <==> s.workers[i] == Waiting
    ensures s.main == AddSignal && s.workers[i] == Waiting ==> Enabled(s, Proceed(i))
    ensures Enabled(s, Submit(task)) <==> s.main == Idle
    ensures Enabled(s, Destroy) <==> s.main == Idle
  {
  }

  /** Whoever holds the mutex can go on; so can a main thread in a call, when no worker holds it. */
  lemma HolderCanGoOn(s: Pool)
    requires Inv(s)
    ensures s.owner.Worker? ==> Enabled(s, Work(s.owner.i))
    ensures !s.owner.Worker? && !s.main.Idle? && !s.main.Joining? && !s.main.Done? ==>
              exists woken :: Enabled(s, Proceed(woken))
  {
    hide ControlFlow, Accounts, NoLostWakeup, Joined;
    if !s.owner.Worker? && !s.main.Idle? && !s.main.Joining? && !s.main.Done? {
      var woken: nat := 0;
      if s.main == AddSignal && SomeoneWaits(s.workers) {
        woken :| 0 <= woken < |s.workers| && s.workers[woken] == Waiting;
      }
      assert Enabled(s, Proceed(woken));
    }
  }

  /** Main is on its way from thread_pool_destroy to its end. */
  predicate Destroying(m: Main) {
    m.StopLock? || m.StopSet? || Stopping(m)
  }

  lemma DestroyStep(s: Pool, a: Action)
    requires s.ring.Valid() && Enabled(s, a) && Destroying(s.main)
    ensures Destroying(Do(s, a).main) && Do(s, a).accepted == s.accepted
  {
    hide Broadcast;
  }

  /** A shutdown, from the call on: no task is accepted any more, and a schedule that cannot be continued
      ends with the pool destroyed - every worker joined, every task taken finished, the others queued. */
  lemma {:induction false} DestroyEnds(s: Pool, actions: seq<Action>)
    requires Inv(s) && Destroying(s.main) && Schedule(s, actions)
    ensures var t := After(s, actions);
            && Destroying(t.main) && t.accepted == s.accepted
            && ((forall a :: !Enabled(t, a)) ==>
                  && t.main == Done && t.stop
                  && (forall i | 0 <= i < |t.workers| :: t.workers[i] == Exited)
                  && multiset(t.taken) == t.finished
                  && t.accepted == t.taken + t.ring.Contents())
    decreases |actions|
  {
    hide MutualExclusion, Accounts, NoLostWakeup, Joined, Do, Enabled, Ring.Contents;
    if actions == [] {
      HolderCanGoOn(s);
      if s.stop && s.main != Done {
        SomeoneCanGoOn(s);
      }
      if s.main == Done {
        WhatIsLeft(s);
      }
    } else {
      DoKeepsInv(s, actions[0]);
      DestroyStep(s, actions[0]);
      DestroyEnds(Do(s, actions[0]), actions[1..]);
    }
  }

  /** The call leads there. */
  lemma DestroyIsCalled(s: Pool)
    requires Inv(s) && s.main == Idle
    ensures Inv(Do(s, Destroy)) && Destroying(Do(s, Destroy).main) && Do(s, Destroy).accepted == s.accepted
  {
    hide MutualExclusion, ControlFlow, Accounts, NoLostWakeup, Joined;
    DoKeepsInv(s, Destroy);
  }
}
