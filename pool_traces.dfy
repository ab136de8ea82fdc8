/** Histories of a pool: any interleaving of submissions and worker loop iterations, each
    one atomic step under the pool mutex. The lemmas here are the pool's promises about
    whole histories: FIFO, exactly-once dispatch, drain-then-stop, and an idle counter
    that steers nothing. */
module PoolTraces {
  import opened PoolSpec

  /** What can happen to a running pool between two lock-held sections: a
      threadpool_schedule call (whose task node allocation may fail), or worker w
      taking the lock and running one iteration of its loop. */
  datatype Event = Submit(task: Task, allocFails: bool) | Wake(worker: nat)

  /** One event. Waking a worker that does not exist or has already left its loop does
      nothing. */
  function Apply(s: PoolState, e: Event): PoolState
  {
    match e
    case Submit(t, fails) => Schedule(s, t, fails).0
    case Wake(w) =>
      if w < |s.workers| && s.workers[w].Running? then WorkerStep(s, w).0 else s
  }

  /** A history of events, oldest first. */
  function Run(s: PoolState, evs: seq<Event>): PoolState
    decreases |evs|
  {
    if evs == [] then s else Run(Apply(s, evs[0]), evs[1..])
  }

  /** The tasks of the submissions in a history that were accepted (returned 0), in
      submission order. */
  function Accepted(evs: seq<Event>): seq<Task>
    decreases |evs|
  {
    if evs == [] then []
    else
      var here := match evs[0]
        case Submit(t, fails) => if fails then [] else [t]
        case Wake(_) => [];
      here + Accepted(evs[1..])
  }

  /** Nothing is lost, duplicated or reordered: at every point of a history, the tasks
      dispatched so far followed by the tasks still queued are the tasks there were at
      the start followed by the accepted submissions, in order. */
  lemma {:induction false} RunAccountsForEveryTask(s: PoolState, evs: seq<Event>)
    ensures Run(s, evs).dispatched + Run(s, evs).queue == s.dispatched + s.queue + Accepted(evs)
    decreases |evs|
  {
    if evs != [] {
      var s' := Apply(s, evs[0]);
      RunAccountsForEveryTask(s', evs[1..]);
      var here := match evs[0]
        case Submit(t, fails) => if fails then [] else [t]
        case Wake(_) => [];
      assert s'.dispatched + s'.queue == s.dispatched + s.queue + here;
      assert Accepted(evs) == here + Accepted(evs[1..]);
    }
  }

  /** Submissions and worker iterations never touch the running flag, the worker count
      or the worker array's size, and while the flag is on no worker leaves its loop. */
  lemma {:induction false} RunKeepsLifecycle(s: PoolState, evs: seq<Event>)
    ensures Run(s, evs).run == s.run && Run(s, evs).nthreads == s.nthreads
    ensures |Run(s, evs).workers| == |s.workers|
    ensures s.run ==> Run(s, evs).workers == s.workers
    decreases |evs|
  {
    if evs != [] {
      RunKeepsLifecycle(Apply(s, evs[0]), evs[1..]);
    }
  }

  /** The idle counter never influences control flow: starting from any other idle value
      gives the same history, with idle shifted by the same amount. */
  lemma {:induction false} IdleDoesNotSteer(s: PoolState, evs: seq<Event>, k: int)
    ensures Run(s.(idle := k), evs) == Run(s, evs).(idle := Run(s, evs).idle - s.idle + k)
    decreases |evs|
  {
    if evs != [] {
      var s' := Apply(s, evs[0]);
      var sk := Apply(s.(idle := k), evs[0]);
      assert sk == s'.(idle := s'.idle - s.idle + k);
      IdleDoesNotSteer(s', evs[1..], s'.idle - s.idle + k);
    }
  }

  /** Exactly-once, in order, so far: after any history of a freshly initialised pool,
      the dispatched tasks are a prefix of the accepted submissions. */
  lemma DispatchedIsPrefixOfAccepted(requested: nat, cpuCount: nat, evs: seq<Event>)
    requires cpuCount > 0
    ensures Run(Init(requested, cpuCount, false).0, evs).dispatched <= Accepted(evs)
  {
    var s0 := Init(requested, cpuCount, false).0;
    var s := Run(s0, evs);
    RunAccountsForEveryTask(s0, evs);
    assert s.dispatched + s.queue == Accepted(evs);
    assert s.dispatched <= s.dispatched + s.queue;
  }

  /** Drain-then-stop: after any history of a freshly initialised pool, threadpool_cleanup
      leaves every worker exited and an empty queue, and every accepted task has been
      dispatched exactly once, in submission order. (The test suite's counter that ends
      equal to the number of scheduled tasks.) */
  lemma ShutdownRunsEveryAcceptedTask(requested: nat, cpuCount: nat, evs: seq<Event>)
    requires cpuCount > 0
    ensures var s := Run(Init(requested, cpuCount, false).0, evs);
      |s.workers| == s.nthreads &&
      var r := Cleanup(s);
      r.dispatched == Accepted(evs) && r.queue == [] && !r.run &&
      r.nthreads > 0 && |r.workers| == r.nthreads && AllExited(r.workers)
  {
    var s0 := Init(requested, cpuCount, false).0;
    var s := Run(s0, evs);
    RunAccountsForEveryTask(s0, evs);
    RunKeepsLifecycle(s0, evs);
    assert s.workers[0].Running?;
  }
}
