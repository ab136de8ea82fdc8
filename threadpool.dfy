/** The pool record of threadpool.c and its singly linked task queue, updated in place.
    Each method is one stretch of code that runs under the pool mutex (the mutex and the
    condition variable themselves are not modelled) and is proved to perform the matching
    transition of PoolSpec on the abstract view State(). */
module Threadpool {
  import opened PoolSpec

  /** `struct ThreadpoolTask`: the work function and its argument, stored once when the
      node is filled in, and the link to the next node of the queue. */
  class TaskNode {
    const work: WorkFn
    const data: Arg
    var next: TaskNode?

    /** A zeroed node (calloc) with `work` and `data` stored into it. */
    constructor (work: WorkFn, data: Arg)
      ensures this.work == work && this.data == data && next == null
    {
      this.work := work;
      this.data := data;
      next := null;
    }
  }

  /** The tasks held by a chain of nodes, in chain order. */
  function TasksOf(ns: seq<TaskNode>): seq<Task>
  {
    seq(|ns|, i requires 0 <= i < |ns| => Task(ns[i].work, ns[i].data))
  }

  /** `struct Threadpool`. The ghost `nodes` lists the queue's nodes from the head on;
      the ghost `dispatched` logs the `work(data)` calls the workers have made. */
  class Pool {
    var idle: int
    var nthreads: nat
    var workers: seq<WorkerState>
    var taskQueue: TaskNode?
    var run: bool
    ghost var nodes: seq<TaskNode>
    ghost var dispatched: seq<Task>

    /** The queue is a NULL-terminated chain through `next`, starting at `taskQueue`
        and visiting each node once. */
    ghost predicate Valid()
      reads this, nodes
    {
      (taskQueue == null <==> nodes == []) &&
      (nodes != [] ==> taskQueue == nodes[0] && nodes[|nodes| - 1].next == null) &&
      (forall i :: 0 <= i < |nodes| - 1 ==> nodes[i].next == nodes[i + 1]) &&
      (forall i, j :: 0 <= i < j < |nodes| ==> nodes[i] != nodes[j])
    }

    /** The queued tasks, head first. */
    ghost function Queue(): seq<Task>
      reads this
    {
      TasksOf(nodes)
    }

    /** The abstract pool this record stands for. */
    ghost function State(): PoolState
      reads this
    {
      PoolState(Queue(), run, idle, nthreads, workers, dispatched)
    }

    /** threadpool_init on a caller-provided record: settle the worker count, zero the
        record, set the running flag, allocate the worker array and start one worker per
        slot. Whatever the record held before is forgotten. */
    method Init(requested: nat, cpuCount: nat, workersAllocFails: bool) returns (rv: int)
      requires cpuCount > 0
      modifies this
      ensures Valid()
      ensures (State(), rv) == PoolSpec.Init(requested, cpuCount, workersAllocFails)
    {
      var n := ThreadCount(requested, cpuCount);
      idle, nthreads, workers, taskQueue, run := 0, 0, [], null, false;
      nodes, dispatched := [], [];
      nthreads := n;
      run := true;
      assert Queue() == [];
      if workersAllocFails {
        return -1;
      }
      var spawned: seq<WorkerState> := [];
      var i := 0;
      while i < n
        invariant i <= n
        invariant spawned == seq(i, _ => Running)
      {
        spawned := spawned + [Running];
        i := i + 1;
      }
      workers := spawned;
      rv := 0;
    }

    /** The tail scan of threadpool_schedule: follow `next` from the head until the node
        without a successor, which is the last node of the queue. */
    method ScanToTail() returns (last: TaskNode)
      requires Valid() && taskQueue != null
      ensures last == nodes[|nodes| - 1]
    {
      last := taskQueue;
      ghost var k := 0;
      while last.next != null
        invariant 0 <= k < |nodes| && last == nodes[k]
        invariant last.next == if k < |nodes| - 1 then nodes[k + 1] else null
        decreases |nodes| - k
      {
        last := last.next;
        k := k + 1;
      }
    }

    /** threadpool_schedule: on success the queue is the old queue followed by the new
        task, which becomes the head of an empty queue; the old nodes stay where they
        were, and the only link that changes is the old tail's `next`. When the task node
        cannot be allocated, -1 is returned and nothing changes. */
    method Schedule(work: WorkFn, data: Arg, allocFails: bool) returns (rv: int)
      requires Valid()
      modifies this, if nodes == [] then {} else {nodes[|nodes| - 1]}
      ensures Valid()
      ensures (State(), rv) == PoolSpec.Schedule(old(State()), Task(work, data), allocFails)
      ensures |nodes| >= |old(nodes)| && nodes[..|old(nodes)|] == old(nodes)
      ensures forall i :: 0 <= i < |old(nodes)| - 1 ==> nodes[i].next == old(nodes[i].next)
      ensures allocFails ==> unchanged(this) && nodes == old(nodes)
      ensures !allocFails ==> fresh(nodes[|nodes| - 1])
      ensures !allocFails ==> old(nodes) == [] ==> taskQueue == nodes[0]
    {
      if allocFails {
        return -1;
      }
      var task := new TaskNode(work, data);
      if taskQueue == null {
        taskQueue := task;
      } else {
        var last := ScanToTail();
        last.next := task;
      }
      assert TasksOf(nodes + [task]) == TasksOf(nodes) + [Task(work, data)];
      nodes := nodes + [task];
      rv := 0;
    }

    /** worker_consume_single_task: detach exactly the head, leave the rest as the new
        queue, and dispatch the head's work/data pair. */
    method ConsumeSingle()
      requires Valid() && taskQueue != null
      modifies this
      ensures Valid()
      ensures State() == PoolSpec.ConsumeSingle(old(State()))
      ensures nodes == old(nodes)[1..] && taskQueue == old(taskQueue.next)
      ensures dispatched == old(dispatched) + [Task(old(taskQueue).work, old(taskQueue).data)]
    {
      var task := taskQueue;
      assert |nodes| > 1 ==> task.next == nodes[1];
      taskQueue := task.next;
      nodes := nodes[1..];
      dispatched := dispatched + [Task(task.work, task.data)];
    }

    /** worker_consume_tasks: consume the head while the queue is non-empty. The queue
        ends empty and the tasks it held are dispatched in FIFO order, each once. */
    method ConsumeTasks()
      requires Valid()
      modifies this
      ensures Valid()
      ensures State() == PoolSpec.ConsumeTasks(old(State()))
      ensures Queue() == [] && dispatched == old(dispatched) + old(Queue())
    {
      if taskQueue == null {
        return;
      }
      while taskQueue != null
        invariant Valid()
        invariant dispatched + Queue() == old(dispatched) + old(Queue())
        invariant run == old(run) && idle == old(idle) && nthreads == old(nthreads)
        invariant workers == old(workers)
        decreases |nodes|
      {
        ConsumeSingle();
      }
    }

    /** One iteration of the loop of worker_run for worker w: drain, then leave the loop
        if the running flag is off, or else count one idle wait. The wait itself is where
        control goes back to the caller; the next call is the wake-up, and it drains
        again before it looks at the flag. */
    method WorkerLoopStep(w: nat) returns (exited: bool)
      requires Valid() && w < |workers| && workers[w].Running?
      modifies this
      ensures Valid()
      ensures (State(), exited) == WorkerStep(old(State()), w)
    {
      ConsumeTasks();
      if !run {
        workers := workers[w := Exited(0)];
        return true;
      }
      idle := idle + 1;
      exited := false;
    }

    /** threadpool_cleanup: clear the running flag before joining, join the workers in
        spawn order, then free every task still queued. */
    method Cleanup() returns (rv: int)
      requires Valid() && |workers| == nthreads
      modifies this
      ensures Valid()
      ensures State() == PoolSpec.Cleanup(old(State())) && rv == 0
    {
      run := false;
      var i := 0;
      while i < nthreads
        invariant Valid() && !run && i <= nthreads == |workers|
        invariant JoinFrom(State(), i) == JoinFrom(old(State()).(run := false), 0)
      {
        if workers[i].Running? {
          var exited := WorkerLoopStep(i);
          assert exited;
        }
        i := i + 1;
      }
      ghost var joined := State();
      while taskQueue != null
        invariant Valid()
        invariant State().(queue := []) == joined.(queue := [])
        decreases |nodes|
      {
        var task := taskQueue;
        assert |nodes| > 1 ==> task.next == nodes[1];
        taskQueue := task.next;
        nodes := nodes[1..];
      }
      rv := 0;
    }
  }
}
