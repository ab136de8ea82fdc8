/** The pool of libthreadpool as a sequential state machine. Every stretch of threadpool.c
    that runs while holding the pool mutex is one transition of PoolState; the unlocked
    `work(data)` call is recorded in the `dispatched` log instead of being executed. */
module PoolSpec {

  /** Identity of a task's work function pointer. */
  type WorkFn = nat

  /** Address of a task's opaque argument; the pool never looks behind it. */
  type Arg = nat

  /** One scheduled unit of work: the `work`/`data` pair of a task node. */
  datatype Task = Task(work: WorkFn, data: Arg)

  /** A worker thread as the pool sees it: still inside worker_run, or gone with its final rv. */
  datatype WorkerState = Running | Exited(rv: int)

  /** The fields of `struct Threadpool` that the core reads and writes (the mutex, the
      condition variable and the thread ids are left out), plus the log of the tasks
      whose `work(data)` call has been made, oldest first. */
  datatype PoolState = PoolState(
    queue: seq<Task>,
    run: bool,
    idle: int,
    nthreads: nat,
    workers: seq<WorkerState>,
    dispatched: seq<Task>)

  predicate AllExited(ws: seq<WorkerState>)
  {
    forall j :: 0 <= j < |ws| ==> ws[j].Exited?
  }

  /** The worker count threadpool_init settles on: a request of 0 means one worker per
      online CPU, so the pool never ends up without workers. */
  function ThreadCount(requested: nat, cpuCount: nat): (n: nat)
    requires cpuCount > 0
    ensures n > 0
    ensures requested != 0 ==> n == requested
    ensures requested == 0 ==> n == cpuCount
  {
    if requested == 0 then cpuCount else requested
  }

  /** threadpool_init: a zeroed pool that is running, with its worker count and, unless
      the worker array cannot be allocated, one running worker per thread. Returns the
      new state and the return code. */
  function Init(requested: nat, cpuCount: nat, workersAllocFails: bool): (PoolState, int)
    requires cpuCount > 0
  {
    var n := ThreadCount(requested, cpuCount);
    if workersAllocFails then
      (PoolState([], true, 0, n, [], []), -1)
    else
      (PoolState([], true, 0, n, seq(n, _ => Running), []), 0)
  }

  /** threadpool_schedule: append the task at the tail, or leave the pool alone and
      return -1 when the task node cannot be allocated. */
  function Schedule(s: PoolState, t: Task, allocFails: bool): (PoolState, int)
  {
    if allocFails then (s, -1) else (s.(queue := s.queue + [t]), 0)
  }

  /** worker_consume_single_task: detach the head and dispatch it. */
  function ConsumeSingle(s: PoolState): PoolState
    requires s.queue != []
  {
    s.(queue := s.queue[1..], dispatched := s.dispatched + [s.queue[0]])
  }

  /** worker_consume_tasks: consume heads until the queue is empty. The whole queue is
      dispatched in FIFO order, each task once, and nothing but the queue and the log
      changes. */
  function ConsumeTasks(s: PoolState): (r: PoolState)
    ensures r.queue == []
    ensures r.dispatched == s.dispatched + s.queue
    ensures r.(queue := s.queue, dispatched := s.dispatched) == s
    decreases |s.queue|
  {
    if s.queue == [] then s
    else
      assert s.queue == [s.queue[0]] + s.queue[1..];
      ConsumeTasks(ConsumeSingle(s))
  }

  /** One iteration of the loop in worker_run for worker w: drain the queue, then leave
      the loop with rv 0 if the running flag is off, or else count one more idle wait
      and block. Returns the new state and whether the worker left the loop. The worker
      leaves exactly when the flag is off, and only with the queue drained; idle grows
      by one per wait and has no say in the decision. */
  function WorkerStep(s: PoolState, w: nat): (r: (PoolState, bool))
    requires w < |s.workers|
    ensures r.0.queue == [] && r.0.dispatched == s.dispatched + s.queue
    ensures r.1 <==> !s.run
    ensures r.0.idle == s.idle + (if r.1 then 0 else 1)
    ensures r.0.workers == if r.1 then s.workers[w := Exited(0)] else s.workers
    ensures r.0.run == s.run && r.0.nthreads == s.nthreads
  {
    var d := ConsumeTasks(s);
    if !d.run then (d.(workers := d.workers[w := Exited(0)]), true)
    else (d.(idle := d.idle + 1), false)
  }

  /** The join loop of threadpool_cleanup from worker i on, after the running flag was
      cleared and every worker woken: joining a worker that is still inside worker_run
      waits for its next loop iteration, which ends it. */
  function JoinFrom(s: PoolState, i: nat): (r: PoolState)
    requires i <= |s.workers|
    requires !s.run
    ensures !r.run && r.nthreads == s.nthreads && r.idle == s.idle
    ensures |r.workers| == |s.workers|
    ensures forall j :: 0 <= j < i ==> r.workers[j] == s.workers[j]
    ensures forall j :: i <= j < |r.workers| ==> r.workers[j].Exited?
    ensures r.dispatched + r.queue == s.dispatched + s.queue
    ensures s.dispatched <= r.dispatched
    ensures (exists j :: i <= j < |s.workers| && s.workers[j].Running?) ==> r.queue == []
    decreases |s.workers| - i
  {
    if i == |s.workers| then s
    else if s.workers[i].Running? then JoinFrom(WorkerStep(s, i).0, i + 1)
    else JoinFrom(s, i + 1)
  }

  /** The loop at the end of threadpool_cleanup: free every task still queued, without
      running it. */
  function FreeQueue(s: PoolState): PoolState
  {
    s.(queue := [])
  }

  /** threadpool_cleanup: clear the running flag, join every worker in spawn order, then
      free what is left. All workers are gone and the queue is empty afterwards; nothing
      is dispatched but what was queued, and when a worker was still there to be joined,
      everything that was queued has been dispatched (drain, then stop). */
  function Cleanup(s: PoolState): (r: PoolState)
    requires |s.workers| == s.nthreads
    ensures !r.run && r.queue == [] && r.nthreads == s.nthreads && r.idle == s.idle
    ensures |r.workers| == s.nthreads && AllExited(r.workers)
    ensures s.dispatched <= r.dispatched <= s.dispatched + s.queue
    ensures (exists j :: 0 <= j < |s.workers| && s.workers[j].Running?) ==>
              r.dispatched == s.dispatched + s.queue
  {
    var joined := JoinFrom(s.(run := false), 0);
    assert joined.dispatched + joined.queue == s.dispatched + s.queue;
    FreeQueue(joined)
  }
}
