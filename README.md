# libthreadpool: the task queue and worker lifecycle, verified

libthreadpool is a fixed-size pool of worker threads. Callers hand it `work(data)` pairs
with `threadpool_schedule`. The pool keeps them in a singly linked FIFO (`task_queue`,
linked through `next`). Each worker repeatedly drains that queue and then blocks on a
condition variable. `threadpool_cleanup` clears the `run` flag, wakes and joins every
worker, and frees whatever is still queued.

This project models that core as a sequential state machine. Each stretch of
`threadpool.c` that runs while the pool mutex is held is one atomic step. The unlocked
`work(data)` call is not executed: it is appended to a `dispatched` log. The model has
three files:

- `pool_spec.dfy` (module `PoolSpec`). The abstract pool, `PoolState`, holds the queue as
  a `seq<Task>`, along with `run`, `idle`, `nthreads`, one `WorkerState` per worker slot
  (`Running`, or `Exited(rv)`), and the `dispatched` log. Each operation is a transition
  function: `Init`, `Schedule`, `ConsumeSingle`, `ConsumeTasks`, `WorkerStep` (one
  iteration of `worker_run`'s loop), `JoinFrom` (the join loop), `FreeQueue` and `Cleanup`.
- `threadpool.dfy` (module `Threadpool`). This is the record as the C code updates it in
  place. Class `Pool` has the fields of `struct Threadpool`. Class `TaskNode` is
  `struct ThreadpoolTask`: immutable `work`/`data` and a mutable `next`. The ghost
  sequence `nodes` lists the chain from `taskQueue` on, and `Valid()` states that it is a
  NULL-terminated chain without repeats. Each method is proved to perform its `PoolSpec`
  transition on the abstract view `State()`. The methods also state the node-level
  facts: the tail scan stops at the last node, scheduling keeps every old node and every
  old link except the tail's `next`, and consuming detaches exactly the head.
- `pool_traces.dfy` (module `PoolTraces`). A history is a sequence of events: a
  submission, which may fail to allocate, or a worker taking the lock for one loop
  iteration. The lemmas here are the promises about whole histories: FIFO and
  exactly-once dispatch, drain-then-stop shutdown, and an idle counter that steers
  nothing.

Work functions and arguments are opaque identities (`nat`). Allocation failure
(`calloc` returning NULL) is a boolean parameter. The online CPU count is a positive
parameter.

The join loop in `threadpool_cleanup` is modelled as follows. By the time a worker is
joined, the running flag is off and every worker has been woken. Joining a worker that is
still inside `worker_run` therefore waits for that worker's next loop iteration, which
drains the queue and exits. `Pool.Cleanup` runs that iteration (`WorkerLoopStep`) for
each running worker, in spawn order.

## Model

`PoolSpec.Init`, `PoolSpec.Schedule`, `PoolSpec.ConsumeSingle` and `PoolSpec.FreeQueue` are
plain definitions of the transitions of threadpool.c:94-126, 128-167, 28-44 and 193-197.
What they state is carried by the rows of the `Pool` methods that are proved to perform
them, and by the history lemmas built on them.

| member | source | states |
|---|---|---|
| PoolSpec.ThreadCount | threadpool.c:95-99 | The worker count chosen at init is always positive; a non-zero request is kept as it is, and a request of 0 becomes exactly the CPU count. |
| PoolSpec.ConsumeTasks | threadpool.c:46-64 | The drain ends with an empty queue and dispatches the whole entry queue in FIFO order, each task once; nothing but the queue and the log changes. |
| PoolSpec.WorkerStep | threadpool.c:76-87 | One loop iteration drains first, then exits (rv 0) exactly when run is false; otherwise idle grows by exactly one and nothing else changes; run and nthreads are untouched. |
| PoolSpec.JoinFrom | threadpool.c:181-188 | Joining from slot i on leaves every later worker exited and earlier slots untouched; no task is lost or duplicated; if any later worker was running, the queue is empty afterwards. |
| PoolSpec.Cleanup | threadpool.c:169-202 | After cleanup run is false, the queue is empty and every worker has exited; the log grew only by a prefix of the queued tasks, and by all of them whenever a worker was still running (drain, then stop). |
| PoolTraces.RunAccountsForEveryTask | threadpool.c:28-167 | In any history, dispatched tasks followed by queued tasks equal the initial ones followed by the accepted submissions, in order: nothing lost, duplicated or reordered. |
| PoolTraces.RunKeepsLifecycle | threadpool.c:76-84 | Submissions and worker iterations never change run, nthreads or the number of worker slots, and while run is true no worker leaves its loop. |
| PoolTraces.IdleDoesNotSteer | threadpool.c:85 | Any history from a different idle value produces the same pool, with idle shifted by the same amount: the counter never influences control flow. |
| PoolTraces.DispatchedIsPrefixOfAccepted | threadpool.c:31-38 | After any history of a fresh pool, the dispatched tasks are a prefix of the accepted submissions (at most once, in FIFO order). |
| PoolTraces.ShutdownRunsEveryAcceptedTask | threadpool.c:169-197 | After any history of a fresh pool, cleanup leaves all workers exited, the queue empty and run false, and every accepted task dispatched exactly once in submission order. |
| Threadpool.TaskNode.constructor | threadpool.c:135-142 | A new node holds the given work and data and has no successor. |
| Threadpool.Pool.Init | threadpool.c:94-126 | The record is reset to PoolSpec.Init's pool whatever it held before, with a well-formed empty queue. |
| Threadpool.Pool.ScanToTail | threadpool.c:149-155 | Following next from the head stops at the last node of the queue. |
| Threadpool.Pool.Schedule | threadpool.c:128-167 | On success the queue is the old queue plus the new task, held by a freshly allocated last node, which is also the head when the queue was empty. Old nodes keep their order and only the old tail's next changes. On allocation failure rv is -1 and the record is untouched. |
| Threadpool.Pool.ConsumeSingle | threadpool.c:28-44 | Detaches exactly the head, leaves the rest as the new queue, and logs the head's work/data pair. |
| Threadpool.Pool.ConsumeTasks | threadpool.c:46-64 | The queue ends empty and the log grows by the entry queue, in order; the other fields are unchanged. |
| Threadpool.Pool.WorkerLoopStep | threadpool.c:66-92 | Performs PoolSpec.WorkerStep on the record: drain, then exit when run is false, else one more idle wait. |
| Threadpool.Pool.Cleanup | threadpool.c:169-202 | Clears run before joining, joins every worker in spawn order, frees the rest; the result is PoolSpec.Cleanup of the old pool and rv is 0. |

## Left out

- The mutex, the condition variable, `pthread_create` and `pthread_join` are not modelled as such. Each lock-held section is one atomic step, a condition-variable wait returns control to the caller, and a join runs the joined worker's next loop iteration.
- Races between threads are not modelled, in particular a `threadpool_schedule` arriving after `threadpool_cleanup` has begun. In the model, the free loop of `threadpool_cleanup` can only find a non-empty queue when no worker is still inside `worker_run`: `threadpool_cleanup` joins every slot, and a slot whose worker has already exited contributes no drain.
- `PoolTraces.Apply` runs a worker's whole drain as one step. In `threadpool.c` the lock is released around each `work(data)` call, so other submissions and workers can interleave between two pops. The history lemmas therefore hold at this coarser granularity. At the finer one, the per-pop step `Pool.ConsumeSingle` is the atomic unit.
- The `rv < 0` checks after pthread calls are not modelled: every pthread call succeeds. The only error path is allocation failure (rv -1 from `threadpool_schedule`, or from `threadpool_init` when the worker array cannot be allocated). `threadpool_cleanup` always returns 0.
- `threadpool_init`'s CPU-count query (`sysconf`, cast to `int`) is a positive parameter. Its failure value -1, and what that becomes as a `size_t`, are not modelled.
- `work(data)` is a foreign call. The model records it in the `dispatched` log and does not model its effects.
- `calloc` and `free` are not modelled as memory. A freed node simply leaves `nodes`.
- Threadpool.Pool.WorkerLoopStep: `idle` is an unbounded integer, so the overflow of the C `int` is not modelled. `nthreads` (`size_t`) is a `nat`.
- Worker thread ids and the worker's back-pointer to its pool are not modelled. A worker's final `rv` is recorded only as `Exited(0)`, the one value it can take when no pthread call fails.
- Threadpool.Pool.Cleanup requires that the worker array exists (`|workers| == nthreads`). After a failed `threadpool_init` the C code would join through a NULL `workers` pointer, so that case is not modelled.
- `threadpool_init` called again on a pool that is already running is not modelled to leak or to stop old workers: the record is simply reset.
- `threadpool_test.c` and `example.c` are not part of this model. Their counter scenario is the statement of `PoolTraces.ShutdownRunsEveryAcceptedTask`.
