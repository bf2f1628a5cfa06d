/** The circular task queue that leaves one cell unused, as a value and as the array it is. */
module TaskRing {
  type Task = int

  datatype Ring = Ring(cells: seq<Task>, front: nat, rear: nat) {
    predicate Valid() {
      front < |cells| && rear < |cells|
    }

    predicate Empty() {
      front == rear
    }

    predicate Full()
      requires Valid()
    {
      (rear + 1) % |cells| == front
    }

    function Push(task: Task): Ring
      requires Valid()
    {
      Ring(cells[rear := task], front, (rear + 1) % |cells|)
    }

    function Pop(): Ring
      requires Valid()
    {
      Ring(cells, (front + 1) % |cells|, rear)
    }

    function Count(): (n: nat)
      requires Valid()
      ensures n < |cells|
    {
      if front <= rear then rear - front else rear + |cells| - front
    }

    /** The cell of the i-th queued task. */
    function At(i: nat): (k: nat)
      requires Valid() && i < |cells|
      ensures k < |cells|
    {
      if front + i < |cells| then front + i else front + i - |cells|
    }

    /** The queued tasks, oldest first. */
    function Contents(): (tasks: seq<Task>)
      requires Valid()
      ensures |tasks| == Count()
      ensures forall i | 0 <= i < Count() :: tasks[i] == cells[At(i)]
    {
      seq(Count(), i requires 0 <= i < Count() => cells[At(i)])
    }
  }

  function Capacity(size: nat): int {
    size - 1
  }

  /** Stepping an index modulo the size wraps at the end and nowhere else. */
  lemma NextIndex(x: nat, size: nat)
    requires x < size
    ensures (x + 1) % size == if x + 1 == size then 0 else x + 1
  {
  }

  lemma EmptyMeansNothingQueued(r: Ring)
    requires r.Valid()
    ensures r.Empty() <==> r.Contents() == []
  {
  }

  /** "Full" means size - 1 tasks are queued: the sacrificed cell tells full from empty. */
  lemma FullMeansCapacity(r: Ring)
    requires r.Valid()
    ensures r.Full() <==> |r.Contents()| == Capacity(|r.cells|)
  {
    NextIndex(r.rear, |r.cells|);
  }

  lemma PushAppends(r: Ring, task: Task)
    requires r.Valid() && !r.Full()
    ensures r.Push(task).Valid()
    ensures r.Push(task).Contents() == r.Contents() + [task]
  {
    NextIndex(r.rear, |r.cells|);
    var next := r.Push(task);
    assert next.Count() == r.Count() + 1;
    assert r.At(r.Count()) == r.rear;
    forall i | 0 <= i < r.Count()
      ensures next.Contents()[i] == r.Contents()[i]
    {
      assert next.At(i) == r.At(i) != r.rear;
    }
  }

  lemma PopDrops(r: Ring)
    requires r.Valid() && !r.Empty()
    ensures r.Pop().Valid() && r.Contents() != []
    ensures r.cells[r.front] == r.Contents()[0]
    ensures r.Pop().Contents() == r.Contents()[1..]
  {
    NextIndex(r.front, |r.cells|);
    var next := r.Pop();
    assert next.Count() == r.Count() - 1;
    forall i | 0 <= i < next.Count()
      ensures next.Contents()[i] == r.Contents()[i + 1]
    {
      assert next.At(i) == r.At(i + 1);
    }
  }

  /** The queue part of the ThreadPool; its methods are the bodies of the critical sections. */
  class TaskQueue {
    const queueSize: nat
    const taskQueue: array<Task>
    var front: nat
    var rear: nat

    constructor (queueSize: nat)
      requires queueSize >= 1
      ensures Valid() && fresh(taskQueue) && this.queueSize == queueSize
      ensures View().Contents() == []
    {
      this.queueSize := queueSize;
      taskQueue := new Task[queueSize](_ => 0);
      front, rear := 0, 0;
    }

    predicate Valid()
      reads this, taskQueue
    {
      taskQueue.Length == queueSize && View().Valid()
    }

    function View(): Ring
      reads this, taskQueue
    {
      Ring(taskQueue[..], front, rear)
    }

    /** thread_pool_add_task between lock and signal. */
    method AddTask(task: Task) returns (ret: int)
      requires Valid()
      modifies this`rear, taskQueue
      ensures Valid()
      ensures ret == if |old(View().Contents())| == Capacity(queueSize) then -1 else 0
      ensures View().Contents() == old(View().Contents()) + if ret == 0 then [task] else []
    {
      ghost var before := View();
      FullMeansCapacity(before);
      if (rear + 1) % queueSize == front {
        return -1;
      }
      PushAppends(before, task);
      taskQueue[rear] := task;
      rear := (rear + 1) % queueSize;
      assert View() == before.Push(task);
      return 0;
    }

    /** The worker's removal of the oldest task. */
    method TakeTask() returns (task: Task)
      requires Valid() && !View().Empty()
      modifies this`front
      ensures Valid()
      ensures [task] + View().Contents() == old(View().Contents())
    {
      ghost var before := View();
      PopDrops(before);
      task := taskQueue[front];
      front := (front + 1) % queueSize;
      assert View() == before.Pop();
    }
  }
}
