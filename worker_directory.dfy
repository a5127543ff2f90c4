/** The scheduler's table of workers (`WorkerDirectory`): for every worker, its NUMA
    node, the client id it receives messages on, and how many work orders are queued
    for it. Workers are numbered from 0 in the order they were registered. */
module QueryExecution {

  /** `i` is the first position holding the smallest count, the position
      `std::min_element` reports. */
  ghost predicate IsFirstArgMin(s: seq<nat>, i: nat) {
    && i < |s|
    && (forall j :: 0 <= j < |s| ==> s[i] <= s[j])
    && (forall j :: 0 <= j < i ==> s[j] > s[i])
  }

  /** `i` is the first position holding the largest count, the position
      `std::max_element` reports. */
  ghost predicate IsFirstArgMax(s: seq<nat>, i: nat) {
    && i < |s|
    && (forall j :: 0 <= j < |s| ==> s[j] <= s[i])
    && (forall j :: 0 <= j < i ==> s[j] < s[i])
  }

  class WorkerDirectory {
    /** NUMA node of each worker, by worker id. */
    var numaNodes: seq<int>
    /** Client id of each worker, by worker id. */
    var clientIds: seq<int>
    /** Work orders queued for each worker, by worker id. */
    var numQueued: seq<nat>

    /** The three tables describe the same workers. */
    ghost predicate Valid()
      reads this
    {
      |numaNodes| == |clientIds| == |numQueued|
    }

    /** `numWorkers` workers with the given client ids and NUMA nodes, none of them
        holding a queued work order. */
    constructor (numWorkers: nat, clientIds: seq<int>, numaNodes: seq<int>)
      requires |clientIds| == numWorkers && |numaNodes| == numWorkers
      ensures Valid() && NumWorkers() == numWorkers
      ensures forall w :: 0 <= w < numWorkers ==>
                ClientID(w) == clientIds[w] && NUMANode(w) == numaNodes[w] && NumQueuedWorkOrders(w) == 0
    {
      this.clientIds := clientIds;
      this.numaNodes := numaNodes;
      numQueued := seq(numWorkers, _ => 0);
    }

    /** `getNumWorkers`: the number of registered workers, on which all three tables agree. */
    function NumWorkers(): (n: nat)
      reads this
      ensures n == |numQueued|
      ensures Valid() ==> n == |clientIds| && n == |numaNodes|
    {
      |numQueued|
    }

    /** `getNUMANode`: the NUMA node recorded for worker `w`. */
    function NUMANode(w: nat): (node: int)
      reads this
      requires Valid() && w < NumWorkers()
      ensures node == numaNodes[w]
    {
      numaNodes[w]
    }

    /** `getClientID`: the client id recorded for worker `w`. */
    function ClientID(w: nat): (cid: int)
      reads this
      requires Valid() && w < NumWorkers()
      ensures cid == clientIds[w]
    {
      clientIds[w]
    }

    /** `getNumQueuedWorkOrders`: the work orders queued for worker `w`. */
    function NumQueuedWorkOrders(w: nat): (count: nat)
      reads this
      requires Valid() && w < NumWorkers()
      ensures count == numQueued[w]
    {
      numQueued[w]
    }

    /** One more work order is queued for worker `w`; nothing else changes. */
    method IncrementNumQueuedWorkOrders(w: nat)
      requires Valid() && w < NumWorkers()
      modifies this
      ensures Valid() && NumWorkers() == old(NumWorkers())
      ensures numaNodes == old(numaNodes) && clientIds == old(clientIds)
      ensures NumQueuedWorkOrders(w) == old(NumQueuedWorkOrders(w)) + 1
      ensures forall v :: 0 <= v < NumWorkers() && v != w ==> numQueued[v] == old(numQueued[v])
    {
      numQueued := numQueued[w := numQueued[w] + 1];
    }

    /** One work order fewer is queued for worker `w`, which has at least one; nothing
        else changes. */
    method DecrementNumQueuedWorkOrders(w: nat)
      requires Valid() && w < NumWorkers() && NumQueuedWorkOrders(w) > 0
      modifies this
      ensures Valid() && NumWorkers() == old(NumWorkers())
      ensures numaNodes == old(numaNodes) && clientIds == old(clientIds)
      ensures NumQueuedWorkOrders(w) == old(NumQueuedWorkOrders(w)) - 1
      ensures forall v :: 0 <= v < NumWorkers() && v != w ==> numQueued[v] == old(numQueued[v])
    {
      numQueued := numQueued[w := numQueued[w] - 1];
    }

    /** Registers one more worker; it gets the next id and starts with no work orders. */
    method AddWorker(cid: int, numaNode: int)
      requires Valid()
      modifies this
      ensures Valid() && NumWorkers() == old(NumWorkers()) + 1
      ensures clientIds == old(clientIds) + [cid]
      ensures numaNodes == old(numaNodes) + [numaNode]
      ensures numQueued == old(numQueued) + [0]
      ensures ClientID(old(NumWorkers())) == cid && NUMANode(old(NumWorkers())) == numaNode
      ensures NumQueuedWorkOrders(old(NumWorkers())) == 0
    {
      clientIds := clientIds + [cid];
      numaNodes := numaNodes + [numaNode];
      numQueued := numQueued + [0];
    }

    /** The id and count of the least loaded worker; on a tie, the lowest id. */
    method GetLeastLoadedWorker() returns (worker: nat, count: nat)
      requires Valid() && NumWorkers() > 0
      ensures IsFirstArgMin(numQueued, worker)
      ensures count == numQueued[worker]
    {
      worker := 0;
      var i := 1;
      while i < |numQueued|
        invariant 0 <= worker < i <= |numQueued|
        invariant forall j :: 0 <= j < i ==> numQueued[worker] <= numQueued[j]
        invariant forall j :: 0 <= j < worker ==> numQueued[j] > numQueued[worker]
      {
        if numQueued[i] < numQueued[worker] {
          worker := i;
        }
        i := i + 1;
      }
      count := numQueued[worker];
    }

    /** The id and count of the most loaded worker; on a tie, the lowest id. */
    method GetMostLoadedWorker() returns (worker: nat, count: nat)
      requires Valid() && NumWorkers() > 0
      ensures IsFirstArgMax(numQueued, worker)
      ensures count == numQueued[worker]
    {
      worker := 0;
      var i := 1;
      while i < |numQueued|
        invariant 0 <= worker < i <= |numQueued|
        invariant forall j :: 0 <= j < i ==> numQueued[j] <= numQueued[worker]
        invariant forall j :: 0 <= j < worker ==> numQueued[j] < numQueued[worker]
      {
        if numQueued[worker] < numQueued[i] {
          worker := i;
        }
        i := i + 1;
      }
      count := numQueued[worker];
    }
  }
}
