/** `EventLoopThreadPool` (net/EventLoopThreadPool.h, .cc): the base loop
    and the loops of the worker threads, handed out round-robin to new
    connections. Loops are identified by their address; the threads that
    run them are outside this model, so `start` receives the loops its
    threads report. */
module EventLoopThreadPools {
  import opened Common

  /** An `EventLoop*`; 0 is the null pointer. */
  type Loop = nat

  const NullLoop: Loop := 0

  /** The index `getNextLoop` moves to after handing out `loops_[next]`
      from a list of `n` loops. */
  function NextIndex(next: nat, n: nat): (r: nat)
    requires next < n
    ensures r < n
    ensures r == (next + 1) % n
  {
    var r := next + 1;
    if r >= n then
      DivisionUnique(next + 1, n, 1, 0);
      0
    else
      DivisionUnique(next + 1, n, 0, next + 1);
      r
  }

  /** The loops `k` consecutive calls of `getNextLoop` return, starting at
      index `next`. */
  function Schedule(loops: seq<Loop>, next: nat, k: nat): (r: seq<Loop>)
    requires next < |loops|
    ensures |r| == k
    decreases k
  {
    if k == 0 then []
    else [loops[next]] + Schedule(loops, NextIndex(next, |loops|), k - 1)
  }

  /** Without wrapping, consecutive calls walk the list in order. */
  lemma {:induction false} ScheduleInOrder(loops: seq<Loop>, next: nat, k: nat)
    requires next < |loops| && next + k <= |loops|
    ensures Schedule(loops, next, k) == loops[next..next + k]
    decreases k
  {
    if k > 1 {
      ScheduleInOrder(loops, next + 1, k - 1);
    }
  }

  /** Past the end of the list, the calls start over at its head. */
  lemma {:induction false} ScheduleWraps(loops: seq<Loop>, next: nat, k: nat)
    requires next < |loops| && |loops| - next <= k <= 2 * |loops| - next
    ensures Schedule(loops, next, k) == loops[next..] + loops[..k - (|loops| - next)]
    decreases k
  {
    if next + 1 == |loops| {
      if k - 1 > 0 {
        ScheduleInOrder(loops, 0, k - 1);
      }
    } else {
      ScheduleWraps(loops, next + 1, k - 1);
    }
  }

  /** Any `n` consecutive calls over `n` loops return each loop once, in
      list order from where the rotation stood. */
  lemma FullRound(loops: seq<Loop>, next: nat)
    requires next < |loops|
    ensures Schedule(loops, next, |loops|) == loops[next..] + loops[..next]
    ensures multiset(Schedule(loops, next, |loops|)) == multiset(loops)
  {
    ScheduleWraps(loops, next, |loops|);
    assert loops == loops[..next] + loops[next..];
  }

  class EventLoopThreadPool {
    const baseLoop: Loop
    const name: string
    var started: bool
    var numThreads: int
    var next: int
    var loops: seq<Loop>

    /** A stopped pool has no loops and its rotation at the head; a started
        one keeps `next` inside its loop list. */
    ghost predicate Valid()
      reads this
    {
      0 <= next &&
      (!started ==> loops == [] && next == 0) &&
      (loops != [] ==> next < |loops|)
    }

    /** The constructor: not started, no threads, rotation at 0. */
    constructor (base: Loop, nameArg: string)
      requires base != NullLoop
      ensures Valid() && !started && numThreads == 0 && loops == []
      ensures baseLoop == base && name == nameArg
    {
      baseLoop, name := base, nameArg;
      started, numThreads, next, loops := false, 0, 0, [];
    }

    /** `setThreadNum`. */
    method SetThreadNum(n: int)
      modifies this
      ensures numThreads == n
      ensures started == old(started) && next == old(next) && loops == old(loops)
    {
      numThreads := n;
    }

    /** `start`: one loop per worker thread, in creation order. The loops
        the threads report are the parameter `threadLoops`. The source
        asserts only that the pool is not started, so a restart after the
        as-written `stop` keeps whatever rotation that left behind; the pool
        satisfies `Valid()` afterwards exactly when that rotation indexes
        inside the new list. */
    method Start(threadLoops: seq<Loop>)
      requires !started && loops == []
      requires |threadLoops| == if numThreads < 0 then 0 else numThreads
      modifies this
      ensures started && loops == threadLoops
      ensures numThreads == old(numThreads) && next == old(next)
      ensures Valid() <==> 0 <= old(next) && (threadLoops == [] || old(next) < |threadLoops|)
    {
      started := true;
      var i := 0;
      while i < |threadLoops|
        invariant 0 <= i <= |threadLoops|
        invariant loops == threadLoops[..i]
        invariant next == old(next) && started && numThreads == old(numThreads)
      {
        loops := loops + [threadLoops[i]];
        i := i + 1;
      }
    }

    /** `stop`: the loops are dropped and the pool is no longer started,
        but `next_` keeps its value, so the pool satisfies `Valid()` again
        only when the rotation happened to stand at the head. */
    method Stop()
      requires started
      modifies this
      ensures !started && loops == [] && next == old(next)
      ensures numThreads == old(numThreads)
      ensures Valid() <==> old(next) == 0
    {
      loops := [];
      started := false;
    }

    /** `stop` corrected: the rotation is rewound as well, so a later
        `start` with fewer threads indexes inside its list. */
    method StopCorrected()
      requires started
      modifies this
      ensures Valid() && !started && loops == [] && next == 0
      ensures numThreads == old(numThreads)
    {
      loops := [];
      started := false;
      next := 0;
    }

    /** `getAllLoops`: the base loop alone when there are no workers. */
    function GetAllLoops(): (r: seq<Loop>)
      reads this
      requires started
      ensures |r| >= 1
      ensures loops != [] ==> r == loops
      ensures loops == [] ==> r == [baseLoop]
    {
      if loops == [] then [baseLoop] else loops
    }

    /** `getNextLoop`: with no workers the base loop; otherwise the loop
        at the rotation, and the rotation moves on by one, wrapping. */
    method GetNextLoop() returns (loop: Loop)
      requires Valid() && started
      modifies this
      ensures Valid() && started && loops == old(loops) && numThreads == old(numThreads)
      ensures loop in GetAllLoops()
      ensures loops == [] ==> loop == baseLoop && next == old(next)
      ensures loops != [] ==> ([loop] == Schedule(loops, old(next), 1) &&
                               next == NextIndex(old(next), |loops|))
    {
      loop := baseLoop;
      if loops != [] {
        loop := loops[next];
        next := next + 1;
        if next >= |loops| {
          next := 0;
        }
      }
    }
  }

  /** Two workers, one connection handed out, `stop`, one worker and a
      restart: the rotation is left at index 1 of a list holding a single
      loop, so the pool no longer satisfies the invariant and the next
      `getNextLoop` would read past the end of `loops_`. */
  method StaleRotationAfterStop() returns (pool: EventLoopThreadPool)
    ensures pool.started && pool.loops == [4] && pool.next == 1
    ensures !pool.Valid() && pool.next >= |pool.loops|
  {
    pool := new EventLoopThreadPool(1, "pool");
    pool.SetThreadNum(2);
    pool.Start([2, 3]);
    var first := pool.GetNextLoop();
    pool.Stop();
    pool.SetThreadNum(1);
    pool.Start([4]);
  }

  /** The same sequence with the corrected `stop`: the pool is valid again,
      and after restarting with one worker the next connection goes to it. */
  method RotationRewoundAfterStop() returns (pool: EventLoopThreadPool, loop: Loop)
    ensures pool.Valid() && pool.started && pool.next == 0 && pool.loops == [4]
    ensures loop == 4
  {
    pool := new EventLoopThreadPool(1, "pool");
    pool.SetThreadNum(2);
    pool.Start([2, 3]);
    var first := pool.GetNextLoop();
    pool.StopCorrected();
    pool.SetThreadNum(1);
    pool.Start([4]);
    loop := pool.GetNextLoop();
  }
}
