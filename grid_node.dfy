/**
 * A grid node (substation): immutable id and region, mutable load and capacity in MW.
 * The per-node read/write lock of the simulator is not modelled: every access is a
 * sequential step, so a derived read always sees one (load, capacity) pair.
 */
module Nodes {
  import opened Common

  /** A snapshot of the balancing-relevant state of one node. */
  datatype NodeState = NodeState(id: string, load: real, capacity: real)

  /** Load as a percentage of capacity; capacity must be positive (no NaN/Infinity here). */
  function Utilization(s: NodeState): (u: real)
    requires s.capacity > 0.0
    ensures u * s.capacity == s.load * 100.0
    ensures u > 100.0 <==> s.load > s.capacity
  {
    s.load / s.capacity * 100.0
  }

  /** A utilization strictly above t, stated without division. */
  lemma UtilizationAbove(s: NodeState, t: real)
    requires s.capacity > 0.0
    ensures Utilization(s) > t <==> s.load > s.capacity * (t / 100.0)
  {
    var u := Utilization(s);
    assert u * s.capacity == s.load * 100.0;
    if u > t {
      assert u * s.capacity > t * s.capacity;
    } else {
      assert u * s.capacity <= t * s.capacity;
    }
  }

  /** The underload test in load terms: utilization < t exactly when load < capacity * t%. */
  lemma UtilizationBelow(s: NodeState, t: real)
    requires s.capacity > 0.0
    ensures Utilization(s) < t <==> s.load < s.capacity * (t / 100.0)
  {
    var u := Utilization(s);
    assert u * s.capacity == s.load * 100.0;
    if u < t {
      assert u * s.capacity < t * s.capacity;
    } else {
      assert u * s.capacity >= t * s.capacity;
    }
  }

  /** Headroom in MW: max(0, capacity - load). */
  function Available(s: NodeState): (a: real)
    ensures a >= 0.0
    ensures a >= s.capacity - s.load
    ensures a > 0.0 <==> s.load < s.capacity
    ensures a > 0.0 ==> a == s.capacity - s.load
  {
    Max(0.0, s.capacity - s.load)
  }

  class GridNode {
    const nodeId: string
    const region: string
    var currentLoad: real
    var capacity: real

    /** A new node starts with no load. */
    constructor (nodeId: string, region: string, capacity: real)
      ensures this.nodeId == nodeId && this.region == region
      ensures this.capacity == capacity && currentLoad == 0.0
    {
      this.nodeId := nodeId;
      this.region := region;
      this.capacity := capacity;
      this.currentLoad := 0.0;
    }

    /** The node's current (id, load, capacity). */
    function State(): (s: NodeState)
      reads this
      ensures s.id == nodeId && s.load == currentLoad && s.capacity == capacity
    {
      NodeState(nodeId, currentLoad, capacity)
    }

    /** Overwrites the load; capacity, id and region stay. */
    method SetCurrentLoad(v: real)
      modifies this
      ensures currentLoad == v && capacity == old(capacity)
    {
      currentLoad := v;
    }

    /** Overwrites the capacity; load, id and region stay. */
    method SetCapacity(v: real)
      modifies this
      ensures capacity == v && currentLoad == old(currentLoad)
    {
      capacity := v;
    }

    function UtilizationPercent(): (u: real)
      reads this
      requires capacity > 0.0
      ensures u * capacity == currentLoad * 100.0
      ensures u == Utilization(State())
    {
      Utilization(State())
    }

    function AvailableCapacity(): (a: real)
      reads this
      ensures a >= 0.0 && a >= capacity - currentLoad
      ensures a > 0.0 <==> currentLoad < capacity
      ensures a == Available(State())
    {
      Available(State())
    }

    /** Strictly above the threshold percentage. */
    predicate IsOverloaded(threshold: real)
      reads this
      requires capacity > 0.0
      ensures IsOverloaded(threshold) <==> currentLoad > capacity * (threshold / 100.0)
    {
      UtilizationAbove(State(), threshold);
      UtilizationPercent() > threshold
    }
  }

  /** The states of a list of nodes, position by position. */
  function Snapshot(nodes: seq<GridNode>): (g: seq<NodeState>)
    reads nodes
    ensures |g| == |nodes|
    ensures forall i :: 0 <= i < |nodes| ==> g[i] == nodes[i].State()
  {
    seq(|nodes|, i requires 0 <= i < |nodes| reads nodes => nodes[i].State())
  }
}
