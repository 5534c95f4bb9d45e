/**
 * The discrete parts of the simulation engine: building the grid, assigning load sources
 * to nodes, the per-node load update, the optimization run, the status report and the
 * running flag. The scheduler and thread pool are replaced by sequential calls; every
 * random draw and the clock are parameters.
 */
module Simulation {
  import opened Common
  import opened Nodes
  import opened Sources
  import opened Rebalancing
  import opened LoadBalancing

  const Regions: seq<string> := ["North", "South", "East", "West", "Central"]

  /** The sensor record sent with each status report (timestamp as a clock value). */
  datatype Sensor = Sensor(sensorId: string, nodeId: string, timestamp: int, loadReading: real, voltage: real, frequency: real)

  predicate AllDraws(draws: seq<real>)
  {
    forall i :: 0 <= i < |draws| ==> IsDraw(draws[i])
  }

  // ---------------------------------------------------------------------------
  // Names and kinds given at initialization

  /** Id of the node at position i: "NODE-" followed by i + 1. */
  function NodeName(i: nat): (s: string)
    ensures |s| > 5 && s[..5] == "NODE-"
  {
    "NODE-" + NatToString(i + 1)
  }

  /** Id of the source at position i: "SOURCE-" followed by i + 1. */
  function SourceName(i: nat): (s: string)
    ensures |s| > 7 && s[..7] == "SOURCE-"
  {
    "SOURCE-" + NatToString(i + 1)
  }

  /** Regions are handed out round-robin. */
  function RegionOf(i: nat): (r: string)
    ensures r in Regions
  {
    Regions[i % |Regions|]
  }

  /** Every fifth source, starting with the first, is a producer. */
  function SourceKind(i: nat): (k: string)
    ensures k == Producer <==> i % 5 == 0
    ensures k == Producer || k == Consumer
  {
    if i % 5 == 0 then Producer else Consumer
  }

  /** The source built at position i from its two draws. */
  function InitialSource(i: nat, baseDraw: real, variabilityDraw: real): (s: LoadSource)
    requires IsDraw(baseDraw) && IsDraw(variabilityDraw)
    ensures s.sourceId == SourceName(i) && s.kind == SourceKind(i)
    ensures 10.0 <= s.baseLoad < 40.0 && s.baseLoad == 10.0 + baseDraw * 30.0
    ensures 0.3 <= s.variabilityFactor < 0.7
    ensures s.variabilityFactor == 0.3 + variabilityDraw * 0.4
  {
    NewLoadSource(SourceName(i), SourceKind(i), 10.0 + baseDraw * 30.0, 0.3 + variabilityDraw * 0.4)
  }

  /** Different positions get different node ids. */
  lemma {:induction false} NodeNamesUnique(i: nat, j: nat)
    requires i != j
    ensures NodeName(i) != NodeName(j)
  {
    if NodeName(i) == NodeName(j) {
      PrefixCancel("NODE-", NatToString(i + 1), NatToString(j + 1));
      NatToStringInjective(i + 1, j + 1);
    }
  }

  /** Different positions get different source ids. */
  lemma {:induction false} SourceNamesUnique(i: nat, j: nat)
    requires i != j
    ensures SourceName(i) != SourceName(j)
  {
    if SourceName(i) == SourceName(j) {
      PrefixCancel("SOURCE-", NatToString(i + 1), NatToString(j + 1));
      NatToStringInjective(i + 1, j + 1);
    }
  }

  // ---------------------------------------------------------------------------
  // Assignment of sources to nodes

  /** Node k of m reads sources [k * (n / m), min(k * (n / m) + n / m, n)) of n. */
  function SliceStart(k: nat, n: nat, m: nat): (s: nat)
    requires m > 0
    ensures k < m ==> s + n / m <= m * (n / m) <= n
  {
    if k < m then
      assert k * (n / m) + n / m == (k + 1) * (n / m);
      MulLe(k + 1, m, n / m, (k + 1) * (n / m), m * (n / m));
      k * (n / m)
    else
      k * (n / m)
  }

  /** The min at the end only bites for k >= m: a node that exists always gets a full slice. */
  function SliceEnd(k: nat, n: nat, m: nat): (e: nat)
    requires m > 0
    ensures e <= n && e <= SliceStart(k, n, m) + n / m
    ensures k < m ==> e == SliceStart(k, n, m) + n / m
  {
    if k * (n / m) + n / m <= n then k * (n / m) + n / m else n
  }

  lemma {:induction false} MulLe(a: nat, b: nat, q: nat, pa: nat, pb: nat)
    requires a <= b && pa == a * q && pb == b * q
    ensures pa <= pb
  {
    assert pb - pa == (b - a) * q;
  }

  /** For a node that exists, its slice holds exactly n / m sources and ends by m * (n / m) <= n. */
  lemma {:induction false} SliceWithin(k: nat, n: nat, m: nat)
    requires 0 < m && k < m
    ensures SliceStart(k, n, m) <= SliceEnd(k, n, m)
    ensures SliceEnd(k, n, m) == SliceStart(k, n, m) + n / m
    ensures SliceEnd(k, n, m) <= m * (n / m) <= n
  {
    var q := n / m;
    assert m * q <= n;
    assert k * q + q == (k + 1) * q;
    MulLe(k + 1, m, q, (k + 1) * q, m * q);
  }

  /** Each slice starts where the previous one ends. */
  lemma {:induction false} SlicesContiguous(k: nat, n: nat, m: nat)
    requires 0 < m && k + 1 < m
    ensures SliceEnd(k, n, m) == SliceStart(k + 1, n, m)
  {
    SliceWithin(k, n, m);
    assert k * (n / m) + n / m == (k + 1) * (n / m);
  }

  /** Two different nodes read no common source. */
  lemma {:induction false} SlicesDisjoint(k1: nat, k2: nat, n: nat, m: nat, i: nat)
    requires 0 < m && k1 < k2 < m
    requires SliceStart(k1, n, m) <= i < SliceEnd(k1, n, m)
    ensures !(SliceStart(k2, n, m) <= i < SliceEnd(k2, n, m))
  {
    var q := n / m;
    SliceWithin(k1, n, m);
    assert k1 * q + q == (k1 + 1) * q;
    MulLe(k1 + 1, k2, q, (k1 + 1) * q, k2 * q);
  }

  /** The n mod m sources after m * (n / m) are read by no node. */
  lemma {:induction false} RemainderUnread(k: nat, n: nat, m: nat, i: nat)
    requires 0 < m && k < m && m * (n / m) <= i
    ensures !(SliceStart(k, n, m) <= i < SliceEnd(k, n, m))
  {
    SliceWithin(k, n, m);
  }

  /** With more nodes than sources every slice is empty. */
  lemma {:induction false} MoreNodesThanSources(k: nat, n: nat, m: nat)
    requires n < m
    ensures SliceStart(k, n, m) == 0 && SliceEnd(k, n, m) == 0
  {
    assert n / m == 0;
  }

  /** The output of every source for one update, source i using draw i. */
  function Outputs(sources: seq<LoadSource>, draws: seq<real>): (out: seq<real>)
    requires |draws| == |sources| && AllDraws(draws)
    requires forall i :: 0 <= i < |sources| ==> 0.0 <= sources[i].variabilityFactor
    ensures |out| == |sources|
    ensures forall i :: 0 <= i < |sources| ==> out[i] == CurrentLoad(sources[i], draws[i])
  {
    seq(|sources|, i requires 0 <= i < |sources| => CurrentLoad(sources[i], draws[i]))
  }

  lemma {:induction false} SumSnoc(s: seq<real>, a: nat, i: nat)
    requires a <= i < |s|
    ensures Sum(s[a..i + 1]) == Sum(s[a..i]) + s[i]
  {
    assert s[a..i + 1] == s[a..i] + [s[i]];
    SumAppend(s[a..i], [s[i]]);
    assert [s[i]][1..] == [];
  }

  // ---------------------------------------------------------------------------
  // Totals

  function TotalCapacity(g: seq<NodeState>): real
  {
    if g == [] then 0.0 else g[0].capacity + TotalCapacity(g[1..])
  }

  /** On a grid of positive capacities the reported capacity is positive exactly when a node exists. */
  lemma {:induction false} TotalCapacityPositive(g: seq<NodeState>)
    requires forall i :: 0 <= i < |g| ==> g[i].capacity > 0.0
    ensures TotalCapacity(g) > 0.0 <==> g != []
  {
    if g != [] {
      TotalCapacityPositive(g[1..]);
    }
  }

  /** Adding the next node's load and capacity to running totals gives the totals of the longer prefix. */
  lemma {:induction false} TotalsSnoc(g: seq<NodeState>, k: nat)
    requires k < |g|
    ensures TotalLoad(g[..k + 1]) == TotalLoad(g[..k]) + g[k].load
    ensures TotalCapacity(g[..k + 1]) == TotalCapacity(g[..k]) + g[k].capacity
    decreases k
  {
    if k > 0 {
      assert g[..k + 1][1..] == g[1..][..k];
      assert g[..k][1..] == g[1..][..k - 1];
      TotalsSnoc(g[1..], k - 1);
    } else {
      assert g[..1][1..] == [];
    }
  }

  class SimulationEngine {
    var gridNodes: seq<GridNode>
    var loadSources: seq<LoadSource>
    const loadBalancer: LoadBalancer
    var running: bool

    /** Distinct nodes with positive capacity; variability factors clamped. */
    ghost predicate Valid()
      reads this, gridNodes
    {
      Distinct(gridNodes) && Capacitated(gridNodes) &&
      forall i :: 0 <= i < |loadSources| ==> 0.0 <= loadSources[i].variabilityFactor <= 1.0
    }

    /**
     * A new engine: the balancer gets the two thresholds, the engine is not running and
     * the grid is built from the configured counts and the draws.
     */
    constructor (numberOfNodes: nat, numberOfLoadSources: nat, nodeBaseCapacity: real,
                 overloadThreshold: real, underloadThreshold: real,
                 capacityDraws: seq<real>, baseDraws: seq<real>, variabilityDraws: seq<real>)
      requires nodeBaseCapacity > 0.0
      requires |capacityDraws| == numberOfNodes && AllDraws(capacityDraws)
      requires |baseDraws| == numberOfLoadSources && AllDraws(baseDraws)
      requires |variabilityDraws| == numberOfLoadSources && AllDraws(variabilityDraws)
      ensures Valid() && !running
      ensures loadBalancer.overloadThreshold == overloadThreshold
      ensures loadBalancer.underloadThreshold == underloadThreshold
      ensures |gridNodes| == numberOfNodes && |loadSources| == numberOfLoadSources
      ensures forall i :: 0 <= i < |gridNodes| ==>
        gridNodes[i].nodeId == NodeName(i) && gridNodes[i].region == RegionOf(i) &&
        gridNodes[i].capacity == nodeBaseCapacity + capacityDraws[i] * 50.0 && gridNodes[i].currentLoad == 0.0
      ensures forall i :: 0 <= i < |loadSources| ==> loadSources[i] == InitialSource(i, baseDraws[i], variabilityDraws[i])
    {
      gridNodes := [];
      loadSources := [];
      loadBalancer := new LoadBalancer(overloadThreshold, underloadThreshold);
      running := false;
      new;
      InitializeGrid(numberOfNodes, numberOfLoadSources, nodeBaseCapacity, capacityDraws, baseDraws, variabilityDraws);
    }

    /** Fills the empty node and source lists. */
    method InitializeGrid(numberOfNodes: nat, numberOfLoadSources: nat, nodeBaseCapacity: real,
                          capacityDraws: seq<real>, baseDraws: seq<real>, variabilityDraws: seq<real>)
      requires gridNodes == [] && loadSources == []
      requires nodeBaseCapacity > 0.0
      requires |capacityDraws| == numberOfNodes && AllDraws(capacityDraws)
      requires |baseDraws| == numberOfLoadSources && AllDraws(baseDraws)
      requires |variabilityDraws| == numberOfLoadSources && AllDraws(variabilityDraws)
      modifies this
      ensures Valid() && running == old(running)
      ensures |gridNodes| == numberOfNodes && |loadSources| == numberOfLoadSources
      ensures forall i :: 0 <= i < |gridNodes| ==> fresh(gridNodes[i])
      ensures forall i :: 0 <= i < |gridNodes| ==>
        gridNodes[i].nodeId == NodeName(i) && gridNodes[i].region == RegionOf(i) &&
        gridNodes[i].capacity == nodeBaseCapacity + capacityDraws[i] * 50.0 && gridNodes[i].currentLoad == 0.0
      ensures forall i :: 0 <= i < |loadSources| ==> loadSources[i] == InitialSource(i, baseDraws[i], variabilityDraws[i])
    {
      AddNodes(numberOfNodes, nodeBaseCapacity, capacityDraws);
      AddSources(numberOfLoadSources, baseDraws, variabilityDraws);
    }

    /** The first loop of the initialization: numberOfNodes fresh nodes, named and placed by position. */
    method AddNodes(numberOfNodes: nat, nodeBaseCapacity: real, capacityDraws: seq<real>)
      requires gridNodes == []
      requires nodeBaseCapacity > 0.0
      requires |capacityDraws| == numberOfNodes && AllDraws(capacityDraws)
      modifies this
      ensures loadSources == old(loadSources) && running == old(running)
      ensures |gridNodes| == numberOfNodes && Distinct(gridNodes)
      ensures forall i :: 0 <= i < |gridNodes| ==> fresh(gridNodes[i])
      ensures forall i :: 0 <= i < |gridNodes| ==>
        gridNodes[i].nodeId == NodeName(i) && gridNodes[i].region == RegionOf(i) &&
        gridNodes[i].capacity == nodeBaseCapacity + capacityDraws[i] * 50.0 && gridNodes[i].currentLoad == 0.0
    {
      for i := 0 to numberOfNodes
        invariant |gridNodes| == i && loadSources == old(loadSources) && running == old(running)
        invariant Distinct(gridNodes)
        invariant forall j :: 0 <= j < i ==> fresh(gridNodes[j])
        invariant forall j :: 0 <= j < i ==>
          gridNodes[j].nodeId == NodeName(j) && gridNodes[j].region == RegionOf(j) &&
          gridNodes[j].capacity == nodeBaseCapacity + capacityDraws[j] * 50.0 && gridNodes[j].currentLoad == 0.0
      {
        var node := new GridNode(NodeName(i), RegionOf(i), nodeBaseCapacity + capacityDraws[i] * 50.0);
        assert node !in gridNodes;
        gridNodes := gridNodes + [node];
      }
    }

    /** The second loop of the initialization: numberOfLoadSources sources, every fifth a producer. */
    method AddSources(numberOfLoadSources: nat, baseDraws: seq<real>, variabilityDraws: seq<real>)
      requires loadSources == []
      requires |baseDraws| == numberOfLoadSources && AllDraws(baseDraws)
      requires |variabilityDraws| == numberOfLoadSources && AllDraws(variabilityDraws)
      modifies this
      ensures gridNodes == old(gridNodes) && running == old(running)
      ensures |loadSources| == numberOfLoadSources
      ensures forall i :: 0 <= i < |loadSources| ==> loadSources[i] == InitialSource(i, baseDraws[i], variabilityDraws[i])
      ensures forall i :: 0 <= i < |loadSources| ==> 0.0 <= loadSources[i].variabilityFactor <= 1.0
    {
      for i := 0 to numberOfLoadSources
        invariant gridNodes == old(gridNodes) && running == old(running)
        invariant |loadSources| == i
        invariant forall j :: 0 <= j < i ==> loadSources[j] == InitialSource(j, baseDraws[j], variabilityDraws[j])
      {
        var kind := if i % 5 == 0 then Producer else Consumer;
        var source := NewLoadSource(SourceName(i), kind, 10.0 + baseDraws[i] * 30.0, 0.3 + variabilityDraws[i] * 0.4);
        loadSources := loadSources + [source];
      }
    }

    method Start()
      requires Valid()
      modifies this
      ensures Valid() && running
      ensures gridNodes == old(gridNodes) && loadSources == old(loadSources)
    {
      running := true;
    }

    method Stop()
      requires Valid()
      modifies this
      ensures Valid() && !running
      ensures gridNodes == old(gridNodes) && loadSources == old(loadSources)
    {
      running := false;
    }

    function IsRunning(): (r: bool)
      reads this
      ensures r <==> running
    {
      running
    }

    /** A copy of the node list: a value, so changing it cannot change the engine's list. */
    function GetGridNodes(): (r: seq<GridNode>)
      reads this
      ensures |r| == |gridNodes| && forall i :: 0 <= i < |r| ==> r[i] == gridNodes[i]
    {
      gridNodes[..]
    }

    /** The load a node gets in an update: its slice's outputs summed, floored at zero. */
    function SliceLoad(draws: seq<real>, k: nat): (x: real)
      reads this
      requires |draws| == |loadSources| && AllDraws(draws) && k < |gridNodes|
      requires forall i :: 0 <= i < |loadSources| ==> 0.0 <= loadSources[i].variabilityFactor
      ensures x >= 0.0
      ensures x >= Sum(Outputs(loadSources, draws)[SliceStart(k, |loadSources|, |gridNodes|)..SliceEnd(k, |loadSources|, |gridNodes|)])
      ensures x == 0.0 || x == Sum(Outputs(loadSources, draws)[SliceStart(k, |loadSources|, |gridNodes|)..SliceEnd(k, |loadSources|, |gridNodes|)])
    {
      SliceWithin(k, |loadSources|, |gridNodes|);
      var n, m := |loadSources|, |gridNodes|;
      Max(0.0, Sum(Outputs(loadSources, draws)[SliceStart(k, n, m)..SliceEnd(k, n, m)]))
    }

    /** The per-node update job: sum its slice of sources and store max(0, sum). */
    method UpdateNode(node: GridNode, draws: seq<real>)
      requires Valid() && node in gridNodes
      requires |draws| == |loadSources| && AllDraws(draws)
      modifies node
      ensures Valid()
      ensures node.currentLoad == SliceLoad(draws, IndexOf(gridNodes, node)) && node.capacity == old(node.capacity)
    {
      var sourcesPerNode := |loadSources| / |gridNodes|;
      var k := IndexOf(gridNodes, node);
      var startIdx := k * sourcesPerNode;
      var endIdx := if startIdx + sourcesPerNode <= |loadSources| then startIdx + sourcesPerNode else |loadSources|;
      SliceWithin(k, |loadSources|, |gridNodes|);
      var totalLoad := SliceTotal(startIdx, endIdx, draws);
      node.SetCurrentLoad(Max(0.0, totalLoad));
    }

    /** The inner loop of the per-node update: outputs of sources startIdx .. endIdx - 1 added up in order. */
    method SliceTotal(startIdx: nat, endIdx: nat, draws: seq<real>) returns (totalLoad: real)
      requires startIdx <= endIdx <= |loadSources|
      requires |draws| == |loadSources| && AllDraws(draws)
      requires forall i :: 0 <= i < |loadSources| ==> 0.0 <= loadSources[i].variabilityFactor
      ensures totalLoad == Sum(Outputs(loadSources, draws)[startIdx..endIdx])
    {
      ghost var out := Outputs(loadSources, draws);
      assert out[startIdx..startIdx] == [];
      totalLoad := 0.0;
      for i := startIdx to endIdx
        invariant totalLoad == Sum(out[startIdx..i])
      {
        SumSnoc(out, startIdx, i);
        totalLoad := totalLoad + CurrentLoad(loadSources[i], draws[i]);
      }
    }

    /** One update round: every node gets the load of its slice; capacities stay. */
    method UpdateLoads(draws: seq<real>)
      requires Valid()
      requires |draws| == |loadSources| && AllDraws(draws)
      modifies gridNodes
      ensures Valid()
      ensures forall k :: 0 <= k < |gridNodes| ==>
        gridNodes[k].currentLoad == SliceLoad(draws, k) && gridNodes[k].capacity == old(gridNodes[k].capacity)
    {
      for k := 0 to |gridNodes|
        invariant Valid()
        invariant forall j :: 0 <= j < k ==> gridNodes[j].currentLoad == SliceLoad(draws, j)
        invariant forall j :: 0 <= j < |gridNodes| ==> gridNodes[j].capacity == old(gridNodes[j].capacity)
      {
        var node := gridNodes[k];
        IndexOfDistinct(gridNodes, k);
        UpdateNode(node, draws);
        forall j | 0 <= j < |gridNodes|
          ensures j <= k ==> gridNodes[j].currentLoad == SliceLoad(draws, j)
          ensures gridNodes[j].capacity == old(gridNodes[j].capacity)
        {
          if j != k {
            assert gridNodes[j] != node;
          }
        }
      }
    }

    /** One optimization run: the overload check (logged only), then optimize; sending is left out. */
    method RunOptimization() returns (actions: seq<OptimizationAction>)
      requires Valid()
      modifies gridNodes
      ensures Valid()
      ensures PositiveCapacities(old(Snapshot(gridNodes)))
      ensures var r := Rebalance(old(Snapshot(gridNodes)), loadBalancer.overloadThreshold, loadBalancer.underloadThreshold);
        Snapshot(gridNodes) == r.grid && actions == r.actions
      ensures TotalLoad(Snapshot(gridNodes)) == TotalLoad(old(Snapshot(gridNodes)))
    {
      var overloaded := loadBalancer.DetectOverloadedNodes(gridNodes);
      ghost var g0 := Snapshot(gridNodes);
      actions := loadBalancer.Optimize(gridNodes);
      RebalanceConservesLoad(g0, loadBalancer.overloadThreshold, loadBalancer.underloadThreshold);
      RebalanceShape(g0, loadBalancer.overloadThreshold, loadBalancer.underloadThreshold);
      assert forall i :: 0 <= i < |gridNodes| ==> gridNodes[i].State().capacity == g0[i].capacity;
    }

    /**
     * The status report: total load and capacity over all nodes, and one sensor per node
     * carrying the node's id and load; voltages and frequencies come from the draws.
     */
    method ReportStatus(voltageDraws: seq<real>, frequencyDraws: seq<real>, now: int)
      returns (totalLoad: real, totalCapacity: real, sensors: seq<Sensor>)
      requires |voltageDraws| == |gridNodes| && |frequencyDraws| == |gridNodes|
      ensures totalLoad == TotalLoad(Snapshot(gridNodes))
      ensures totalCapacity == TotalCapacity(Snapshot(gridNodes))
      ensures |sensors| == |gridNodes|
      ensures forall k :: 0 <= k < |sensors| ==>
        sensors[k].sensorId == "SENSOR-" + gridNodes[k].nodeId && sensors[k].nodeId == gridNodes[k].nodeId &&
        sensors[k].loadReading == gridNodes[k].currentLoad && sensors[k].timestamp == now &&
        sensors[k].voltage == 400.0 + voltageDraws[k] * 20.0 && sensors[k].frequency == 60.0 + frequencyDraws[k] * 0.5
    {
      ghost var g := Snapshot(gridNodes);
      totalLoad, totalCapacity := 0.0, 0.0;
      for k := 0 to |gridNodes|
        invariant totalLoad == TotalLoad(g[..k]) && totalCapacity == TotalCapacity(g[..k])
      {
        TotalsSnoc(g, k);
        totalLoad := totalLoad + gridNodes[k].currentLoad;
        totalCapacity := totalCapacity + gridNodes[k].capacity;
      }
      assert g[..|gridNodes|] == g;
      sensors := [];
      for k := 0 to |gridNodes|
        invariant |sensors| == k
        invariant forall j :: 0 <= j < k ==>
          sensors[j].sensorId == "SENSOR-" + gridNodes[j].nodeId && sensors[j].nodeId == gridNodes[j].nodeId &&
          sensors[j].loadReading == gridNodes[j].currentLoad && sensors[j].timestamp == now &&
          sensors[j].voltage == 400.0 + voltageDraws[j] * 20.0 && sensors[j].frequency == 60.0 + frequencyDraws[j] * 0.5
      {
        var node := gridNodes[k];
        var sensor := Sensor("SENSOR-" + node.nodeId, node.nodeId, now, node.currentLoad,
                             400.0 + voltageDraws[k] * 20.0, 60.0 + frequencyDraws[k] * 0.5);
        sensors := sensors + [sensor];
      }
    }
  }

  /** List.indexOf: the first position holding x, or -1. */
  function IndexOf<T(==)>(s: seq<T>, x: T): (k: int)
    ensures -1 <= k < |s|
    ensures k >= 0 ==> s[k] == x && forall j :: 0 <= j < k ==> s[j] != x
    ensures k == -1 <==> x !in s
    decreases |s|
  {
    if s == [] then -1
    else if s[0] == x then 0
    else
      var r := IndexOf(s[1..], x);
      if r < 0 then -1 else r + 1
  }

  /** In a list without repetitions, indexOf finds each element at its own position. */
  lemma {:induction false} IndexOfDistinct<T>(s: seq<T>, k: nat)
    requires Distinct(s) && k < |s|
    ensures IndexOf(s, s[k]) == k
  {
    var r := IndexOf(s, s[k]);
    assert s[k] in s;
    assert s[r] == s[k];
  }
}
