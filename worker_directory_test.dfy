/** What the unit test of the worker directory asserts, stated for every input rather
    than for the test's hundred workers: its reference helpers for the least and most
    loaded worker, the increment/decrement scenario driven by a stack of worker ids,
    and the scenario that adds a worker after construction. The workers the
    increment/decrement test picks at random are a parameter. */
module WorkerDirectoryTest {
  import opened QueryExecution

  /** `getMinElement`: position and value of the first smallest count, scanning from
      the front and moving on only to a strictly smaller count, as `std::min_element`. */
  function MinElement(s: seq<nat>): (r: (nat, nat))
    requires |s| > 0
    ensures IsFirstArgMin(s, r.0) && r.1 == s[r.0]
  {
    if |s| == 1 then (0, s[0])
    else
      var (i, v) := MinElement(s[..|s| - 1]);
      if s[|s| - 1] < v then (|s| - 1, s[|s| - 1]) else (i, v)
  }

  /** `getMaxElement`: position and value of the first largest count, scanning from
      the front and moving on only to a strictly larger count, as `std::max_element`. */
  function MaxElement(s: seq<nat>): (r: (nat, nat))
    requires |s| > 0
    ensures IsFirstArgMax(s, r.0) && r.1 == s[r.0]
  {
    if |s| == 1 then (0, s[0])
    else
      var (i, v) := MaxElement(s[..|s| - 1]);
      if v < s[|s| - 1] then (|s| - 1, s[|s| - 1]) else (i, v)
  }

  /** At most one position is the first smallest. */
  lemma FirstArgMinIsUnique(s: seq<nat>, i: nat, j: nat)
    ensures IsFirstArgMin(s, i) && IsFirstArgMin(s, j) ==> i == j
  {
    if i < j < |s| {
      assert IsFirstArgMin(s, j) ==> s[i] > s[j];
      assert IsFirstArgMin(s, i) ==> s[i] <= s[j];
    } else if j < i < |s| {
      assert IsFirstArgMin(s, i) ==> s[j] > s[i];
      assert IsFirstArgMin(s, j) ==> s[j] <= s[i];
    }
  }

  /** At most one position is the first largest. */
  lemma FirstArgMaxIsUnique(s: seq<nat>, i: nat, j: nat)
    ensures IsFirstArgMax(s, i) && IsFirstArgMax(s, j) ==> i == j
  {
    if i < j < |s| {
      assert IsFirstArgMax(s, j) ==> s[i] < s[j];
      assert IsFirstArgMax(s, i) ==> s[j] <= s[i];
    } else if j < i < |s| {
      assert IsFirstArgMax(s, i) ==> s[j] < s[i];
      assert IsFirstArgMax(s, j) ==> s[i] <= s[j];
    }
  }

  /** The check made before every step of the load test: the directory's least and most
      loaded workers are exactly the pairs the reference helpers compute. */
  method CheckLeastAndMostLoaded(wd: WorkerDirectory) returns (least: (nat, nat), most: (nat, nat))
    requires wd.Valid() && wd.NumWorkers() > 0
    ensures least == MinElement(wd.numQueued)
    ensures most == MaxElement(wd.numQueued)
  {
    var w, c := wd.GetLeastLoadedWorker();
    FirstArgMinIsUnique(wd.numQueued, w, MinElement(wd.numQueued).0);
    least := (w, c);
    w, c := wd.GetMostLoadedWorker();
    FirstArgMaxIsUnique(wd.numQueued, w, MaxElement(wd.numQueued).0);
    most := (w, c);
  }

  /** Increments (true) minus decrements (false) in a sequence of steps. */
  function Depth(steps: seq<bool>): int {
    if steps == [] then 0
    else Depth(steps[..|steps| - 1]) + (if steps[|steps| - 1] then 1 else -1)
  }

  /** No prefix decrements more than it increments, and the whole sequence undoes every
      increment: each decrement can pop the worker of a pending increment. */
  ghost predicate Balanced(steps: seq<bool>) {
    && Depth(steps) == 0
    && forall k :: 0 <= k <= |steps| ==> Depth(steps[..k]) >= 0
  }

  lemma {:induction false} DepthOfConcat(a: seq<bool>, b: seq<bool>)
    ensures Depth(a + b) == Depth(a) + Depth(b)
  {
    if b == [] {
      assert a + b == a;
    } else {
      assert (a + b)[..|a + b| - 1] == a + b[..|b| - 1];
      DepthOfConcat(a, b[..|b| - 1]);
    }
  }

  /** Two balanced sequences one after the other are balanced. */
  lemma BalancedConcat(a: seq<bool>, b: seq<bool>)
    requires Balanced(a) && Balanced(b)
    ensures Balanced(a + b)
  {
    DepthOfConcat(a, b);
    forall k | 0 <= k <= |a + b|
      ensures Depth((a + b)[..k]) >= 0
    {
      if k <= |a| {
        assert (a + b)[..k] == a[..k];
      } else {
        assert (a + b)[..k] == a + b[..k - |a|];
        DepthOfConcat(a, b[..k - |a|]);
      }
    }
  }

  /** The mini sequence of the test. */
  function MiniSequence(): seq<bool> {
    [true, true, false, true, false, false, true, false]
  }

  /** `n` copies of `mini`, one after the other: the first copy is `mini` and every later
      step repeats the step one copy earlier. */
  function Repeat(mini: seq<bool>, n: nat): (r: seq<bool>)
    ensures |r| == n * |mini|
    ensures forall k :: 0 <= k < |mini| && k < |r| ==> r[k] == mini[k]
    ensures forall k :: |mini| <= k < |r| ==> r[k] == r[k - |mini|]
  {
    if n == 0 then [] else mini + Repeat(mini, n - 1)
  }

  lemma MiniSequenceIsBalanced()
    ensures Balanced(MiniSequence())
  {
    var m := MiniSequence();
    assert Depth(m[..0]) == 0;
    assert m[..1][..0] == m[..0];
    assert Depth(m[..1]) == 1;
    assert m[..2][..1] == m[..1];
    assert Depth(m[..2]) == 2;
    assert m[..3][..2] == m[..2];
    assert Depth(m[..3]) == 1;
    assert m[..4][..3] == m[..3];
    assert Depth(m[..4]) == 2;
    assert m[..5][..4] == m[..4];
    assert Depth(m[..5]) == 1;
    assert m[..6][..5] == m[..5];
    assert Depth(m[..6]) == 0;
    assert m[..7][..6] == m[..6];
    assert Depth(m[..7]) == 1;
    assert m[..8][..7] == m[..7];
    assert Depth(m[..8]) == 0;
    assert m[..8] == m;
  }

  /** The step sequence the test runs, the mini sequence once per worker, is balanced. */
  lemma {:induction false} TestSequenceIsBalanced(n: nat)
    ensures Balanced(Repeat(MiniSequence(), n))
  {
    if n == 0 {
      assert Repeat(MiniSequence(), 0) == [];
    } else {
      TestSequenceIsBalanced(n - 1);
      MiniSequenceIsBalanced();
      BalancedConcat(MiniSequence(), Repeat(MiniSequence(), n - 1));
    }
  }

  /** The increment/decrement test: an increment step queues a work order for the worker
      picked at that step and pushes its id; a decrement step pops the id on top and
      takes a work order from it. That worker always has one, and once the steps are done
      every worker is back to the count it started with (zero, in the test). */
  method IncrementDecrementSequence(wd: WorkerDirectory, steps: seq<bool>, picks: seq<nat>)
    requires wd.Valid() && Balanced(steps)
    requires |picks| == |steps|
    requires forall i :: 0 <= i < |picks| ==> picks[i] < wd.NumWorkers()
    modifies wd
    ensures wd.Valid()
    ensures wd.numQueued == old(wd.numQueued)
    ensures wd.clientIds == old(wd.clientIds) && wd.numaNodes == old(wd.numaNodes)
  {
    var n := wd.NumWorkers();
    var stack: seq<nat> := [];
    var i := 0;
    while i < |steps|
      invariant 0 <= i <= |steps|
      invariant wd.Valid() && wd.NumWorkers() == n
      invariant wd.clientIds == old(wd.clientIds) && wd.numaNodes == old(wd.numaNodes)
      invariant |stack| == Depth(steps[..i])
      invariant forall k :: 0 <= k < |stack| ==> stack[k] < n
      invariant forall w :: 0 <= w < n ==> wd.numQueued[w] == old(wd.numQueued)[w] + multiset(stack)[w]
    {
      assert steps[..i + 1][..i] == steps[..i];
      if steps[i] {
        var w := picks[i];
        wd.IncrementNumQueuedWorkOrders(w);
        stack := stack + [w];
      } else {
        assert Depth(steps[..i + 1]) >= 0;
        var w := stack[|stack| - 1];
        var rest := stack[..|stack| - 1];
        assert stack == rest + [w];
        assert w in multiset(stack);
        wd.DecrementNumQueuedWorkOrders(w);
        stack := rest;
      }
      i := i + 1;
    }
    assert steps[..i] == steps;
    assert stack == [];
  }

  /** The add-worker test: the new worker gets the next id, the given client id and NUMA
      node, no work orders, and goes from 0 to 1 and back to 0 work orders. */
  method AddWorkerScenario(wd: WorkerDirectory, cid: int, numaNode: int) returns (newWorker: nat)
    requires wd.Valid()
    modifies wd
    ensures newWorker == old(wd.NumWorkers())
    ensures wd.Valid() && wd.NumWorkers() == old(wd.NumWorkers()) + 1
    ensures wd.ClientID(newWorker) == cid && wd.NUMANode(newWorker) == numaNode
    ensures wd.numQueued == old(wd.numQueued) + [0]
  {
    wd.AddWorker(cid, numaNode);
    newWorker := wd.NumWorkers() - 1;
    assert wd.NumQueuedWorkOrders(newWorker) == 0;
    wd.IncrementNumQueuedWorkOrders(newWorker);
    assert wd.NumQueuedWorkOrders(newWorker) == 1;
    wd.DecrementNumQueuedWorkOrders(newWorker);
    assert wd.NumQueuedWorkOrders(newWorker) == 0;
    assert wd.numQueued == old(wd.numQueued) + [0];
  }

  /** The whole increment/decrement test: a fresh directory, the mini sequence repeated
      once per worker as the steps, and any worker picked at each increment. Every count
      is 0 again at the end. */
  method IncrementDecrementTest(clientIds: seq<int>, numaNodes: seq<int>, picks: seq<nat>)
    returns (wd: WorkerDirectory)
    requires |clientIds| == |numaNodes|
    requires |picks| == |clientIds| * |MiniSequence()|
    requires forall i :: 0 <= i < |picks| ==> picks[i] < |clientIds|
    ensures wd.Valid() && wd.NumWorkers() == |clientIds|
    ensures forall w :: 0 <= w < wd.NumWorkers() ==>
              wd.NumQueuedWorkOrders(w) == 0 && wd.ClientID(w) == clientIds[w] && wd.NUMANode(w) == numaNodes[w]
  {
    var n := |clientIds|;
    wd := new WorkerDirectory(n, clientIds, numaNodes);
    var steps := Repeat(MiniSequence(), n);
    TestSequenceIsBalanced(n);
    ghost var start := wd.numQueued;
    forall w | 0 <= w < n
      ensures start[w] == 0
    {
      assert wd.NumQueuedWorkOrders(w) == 0;
    }
    IncrementDecrementSequence(wd, steps, picks);
    assert wd.numQueued == start;
  }
}
