/** The bounded pool that runs the test groups of the workspace. */
module WorkerPool {
  import opened Wrappers

  const DEFAULT_MAXIMUM_CONCURRENCY := 4

  /** A positive number from the environment, or the default. */
  function ReadMaximumConcurrency(parsed: Option<int>): (r: int)
    ensures r > 0
    ensures r == if parsed.Some? && parsed.value > 0 then parsed.value else 4
  {
    if parsed.Some? && parsed.value > 0 then parsed.value else DEFAULT_MAXIMUM_CONCURRENCY
  }

  /**
   The state the workers share. A worker that awaits a group holds its index; one that has left its
   loop holds None. `started` records the groups in the order they were handed out.
   */
  class Pool<G, R> {
    const groups: seq<G>
    const execute: G -> R
    var next: nat
    var results: seq<Option<R>>
    var workers: seq<Option<nat>>
    ghost var started: seq<nat>

    /** Group i is with exactly one worker or its own result is stored; later groups are untouched. */
    ghost predicate Valid()
      reads this
    {
      && next <= |groups| == |results|
      && started == seq(next, i => i)
      && (forall i :: next <= i < |groups| ==> results[i] == None)
      && (forall w :: 0 <= w < |workers| && workers[w].Some? ==>
            workers[w].value < next && results[workers[w].value] == None)
      && (forall v, w :: 0 <= v < w < |workers| && workers[v].Some? ==> workers[v] != workers[w])
      && (forall i :: 0 <= i < next ==> results[i] == Some(execute(groups[i])) || Some(i) in workers)
      && (next < |groups| ==> forall w :: 0 <= w < |workers| ==> workers[w].Some?)
    }

    /** Starts the workers; each runs up to awaiting its first group. */
    constructor (groups: seq<G>, maximumConcurrency: int, execute: G -> R)
      ensures Valid() && this.groups == groups && this.execute == execute
      ensures |workers| == if maximumConcurrency < 0 then 0 else Min(maximumConcurrency, |groups|)
      ensures next == |workers| && forall w :: 0 <= w < |workers| ==> workers[w].Some?
    {
      this.groups, this.execute := groups, execute;
      var workerCount := if maximumConcurrency < |groups| then maximumConcurrency else |groups|;
      var count := if workerCount < 0 then 0 else workerCount;
      next := 0;
      results := seq(|groups|, _ => None);
      workers := [];
      started := [];
      new;
      for k := 0 to count
        invariant |results| == |groups| && forall i :: 0 <= i < |groups| ==> results[i] == None
        invariant next == k == |workers| && started == seq(k, i => i)
        invariant forall w :: 0 <= w < k ==> workers[w] == Some(w)
        invariant this.groups == groups && this.execute == execute
      {
        workers := workers + [Some(next)];
        started := started + [next];
        next := next + 1;
      }
      assert forall i :: 0 <= i < next ==> workers[i] == Some(i);
    }

    /** Once no worker holds a group, every group has its own result and was started once. */
    lemma IdleMeansDone()
      requires Valid() && (forall w :: 0 <= w < |workers| ==> workers[w].None?) && (next < |groups| ==> workers != [])
      ensures results == seq(|groups|, i requires 0 <= i < |groups| => Some(execute(groups[i])))
      ensures started == seq(|groups|, i => i)
    {
      if workers != [] { assert workers[0].None?; }
    }

    /** One worker's await returns: it stores the result and takes the next group, if there is one. */
    method Complete(w: nat)
      requires Valid() && w < |workers| && workers[w].Some?
      modifies this
      ensures Valid() && |workers| == |old(workers)|
      ensures results == old(results)[old(workers[w].value) := Some(execute(groups[old(workers[w].value)]))]
      ensures old(next) < |groups| ==> next == old(next) + 1 && workers == old(workers)[w := Some(old(next))]
      ensures old(next) == |groups| ==> next == old(next) && workers == old(workers)[w := None]
    {
      var currentIndex := workers[w].value;
      results := results[currentIndex := Some(execute(groups[currentIndex]))];
      if next < |groups| {
        workers := workers[w := Some(next)];
        started := started + [next];
        next := next + 1;
      } else {
        workers := workers[w := None];
      }
      forall i | 0 <= i < next ensures results[i] == Some(execute(groups[i])) || Some(i) in workers {
        if i < old(next) && i != currentIndex && old(results)[i] == None {
          var v :| 0 <= v < |old(workers)| && old(workers)[v] == Some(i);
          assert workers[v] == Some(i);
        } else if i == old(next) {
          assert workers[w] == Some(i);
        }
      }
    }
  }

  function Busy(workers: seq<Option<nat>>): set<nat> {
    set w | 0 <= w < |workers| && workers[w].Some?
  }

  function Min(a: int, b: int): int { if a < b then a else b }

  /**
   Runs the groups in whatever order they complete: each is started exactly once, result i comes from
   group i, and after k completions exactly as many groups are in flight as the limit and the remaining
   groups allow. The pool finishes once all groups have completed.
   */
  method RunWithConcurrency<G, R>(groups: seq<G>, maximumConcurrency: int, execute: G -> R)
    returns (results: seq<Option<R>>, ghost started: seq<nat>, ghost inFlight: seq<nat>)
    requires maximumConcurrency > 0
    ensures results == seq(|groups|, i requires 0 <= i < |groups| => Some(execute(groups[i])))
    ensures started == seq(|groups|, i => i)
    ensures |inFlight| == |groups| + 1
    ensures forall k :: 0 <= k <= |groups| ==> inFlight[k] == Min(maximumConcurrency, |groups| - k)
  {
    var pool := new Pool(groups, maximumConcurrency, execute);
    BusyIsBounded(pool.workers);
    inFlight := [|Busy(pool.workers)|];
    while Busy(pool.workers) != {}
      invariant pool.Valid() && pool.groups == groups && pool.execute == execute
      invariant |pool.workers| == Min(maximumConcurrency, |groups|)
      invariant 1 <= |inFlight| <= |groups| + 1
      invariant pool.next == Min(|groups|, |pool.workers| + |inFlight| - 1)
      invariant |Busy(pool.workers)| == Min(maximumConcurrency, |groups| - (|inFlight| - 1))
      invariant forall k :: 0 <= k < |inFlight| ==> inFlight[k] == Min(maximumConcurrency, |groups| - k)
      decreases |groups| - pool.next, |Busy(pool.workers)|
    {
      var w :| w in Busy(pool.workers);
      ghost var before := pool.workers;
      pool.Complete(w);
      OneCompletes(before, w, pool.workers[w]);
      inFlight := inFlight + [|Busy(pool.workers)|];
    }
    AllIdle(pool.workers);
    results, started := pool.results, pool.started;
    pool.IdleMeansDone();
  }

  lemma OneCompletes(before: seq<Option<nat>>, w: nat, taken: Option<nat>)
    requires w < |before| && before[w].Some?
    ensures |Busy(before[w := taken])| == if taken.Some? then |Busy(before)| else |Busy(before)| - 1
  {
    var after := before[w := taken];
    assert Busy(after) == if taken.Some? then Busy(before) else Busy(before) - {w};
  }

  lemma AllIdle(workers: seq<Option<nat>>)
    requires Busy(workers) == {}
    ensures forall k :: 0 <= k < |workers| ==> workers[k].None?
  {
    forall k | 0 <= k < |workers| ensures workers[k].None? {
      assert k in Busy(workers) <==> workers[k].Some?;
    }
  }

  lemma BusyIsBounded(workers: seq<Option<nat>>)
    ensures |Busy(workers)| <= |workers|
    ensures (forall w :: 0 <= w < |workers| ==> workers[w].Some?) ==> |Busy(workers)| == |workers|
  {
    CountBelow(|workers|, Busy(workers));
  }

  lemma {:induction false} CountBelow(n: nat, s: set<nat>)
    requires forall w :: w in s ==> w < n
    ensures |s| <= n
    ensures (forall w :: 0 <= w < n ==> w in s) ==> |s| == n
  {
    if n == 0 {
      assert s == {};
    } else {
      CountBelow(n - 1, s - {n - 1});
    }
  }
}
