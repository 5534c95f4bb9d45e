# Smart-grid load balancing, modelled in Dafny

This project models the discrete core of a smart-grid load-balancing simulator and of the
API service that stores its data.

The simulator keeps a list of grid nodes (substations), each with a load and a capacity in
MW. Load sources (consumers and producers) feed the nodes. A periodic optimize pass moves
load greedily from overloaded nodes to underloaded ones and records every move as an
optimization action. The API service stores sensor readings, load events and actions in
four tables and aggregates a grid status report from them.

Modules, one per source file of the core:

- `Common` (`common.dfy`): min/max/abs, distinctness, sums and decimal rendering of
  naturals.
- `Nodes` (`grid_node.dfy`): the `GridNode` class and the `NodeState` value (id, load,
  capacity) used to state what optimize does.
- `Sources` (`load_source.dfy`): load sources as values. The random draw is a parameter.
- `StableSort` (`stable_sort.dfy`): the stable descending sort that `List.sort` with a
  reversed comparator performs, as an insertion sort on positions.
- `Rebalancing` (`rebalancing.dfy`): the greedy rebalancing as functions on snapshots:
  `Transfer`, then `Inner` (one donor against the targets), `Outer` (all donors) and
  `Rebalance`. The lemmas in this module carry the properties.
- `LoadBalancing` (`load_balancer.dfy`): the `LoadBalancer` class. Its `Optimize` method
  changes the nodes in place with the same nested loops as the source. It is proved to
  leave the nodes and return the actions exactly as `Rebalance` says.
- `Simulation` (`simulation_engine.dfy`): the `SimulationEngine` class. It covers grid
  initialization, the split of sources into slices per node, the per-node load update, the
  optimization run, the status totals and the running flag.
- `GridServices` (`grid_service.dfy`): the API's `GridService` over in-memory tables. It
  covers the conditional node insert, sensor-data and action intake with skip-on-error,
  and the grid status aggregation.

MW and percentage values are `real`. Every random draw, the clock and timestamp parsing are
parameters.

Two points where the code decides:

- A target never runs out of headroom. Each transfer takes at most half of the target's
  free capacity, so a target's free capacity only halves and never reaches zero. A target
  therefore stays strictly below capacity (`Rebalancing.TargetsStayBelowCapacity`), and a
  later donor still transfers to it.
- Sources left over by the integer division are never read. When the number of sources is
  not a multiple of the number of nodes, the sources past the last full slice are read by
  no node (`Simulation.RemainderUnread`). The model keeps this behaviour as written.

## Model

Source paths are relative to the repository root.

| member | source | states |
|---|---|---|
| Nodes.Utilization | java-simulator/src/main/java/com/smartgrid/models/GridNode.java:66-73 | utilization × capacity = load × 100; utilization exceeds 100 % exactly when load exceeds capacity |
| Nodes.UtilizationAbove | java-simulator/src/main/java/com/smartgrid/models/GridNode.java:87-89 | utilization > t holds exactly when load > capacity × t / 100 |
| Nodes.UtilizationBelow | java-simulator/src/main/java/com/smartgrid/services/LoadBalancer.java:40 | utilization < t holds exactly when load < capacity × t / 100 |
| Nodes.Available | java-simulator/src/main/java/com/smartgrid/models/GridNode.java:78-85 | free capacity is ≥ 0 and ≥ capacity − load; it is positive exactly when load < capacity, and then equals capacity − load |
| Nodes.GridNode.constructor | java-simulator/src/main/java/com/smartgrid/models/GridNode.java:16-22 | a new node has the given id, region and capacity, and load 0 |
| Nodes.GridNode.State | java-simulator/src/main/java/com/smartgrid/models/GridNode.java:10-13 | the snapshot carries the node's id, load and capacity |
| Nodes.GridNode.SetCurrentLoad | java-simulator/src/main/java/com/smartgrid/models/GridNode.java:41-48 | load becomes v; capacity is unchanged (id and region are constants) |
| Nodes.GridNode.SetCapacity | java-simulator/src/main/java/com/smartgrid/models/GridNode.java:54-61 | capacity becomes v; load is unchanged |
| Nodes.GridNode.UtilizationPercent | java-simulator/src/main/java/com/smartgrid/models/GridNode.java:66-73 | result × capacity = load × 100, for positive capacity |
| Nodes.GridNode.AvailableCapacity | java-simulator/src/main/java/com/smartgrid/models/GridNode.java:78-85 | max(0, capacity − load): never negative, positive exactly when load < capacity |
| Nodes.GridNode.IsOverloaded | java-simulator/src/main/java/com/smartgrid/models/GridNode.java:87-89 | holds exactly when load > capacity × threshold / 100, i.e. utilization strictly above the threshold |
| Sources.NewLoadSource | java-simulator/src/main/java/com/smartgrid/models/LoadSource.java:13-18 | id, kind and base load as given; variability clamped to [0, 1]: kept inside, 0 below, 1 above |
| Sources.Spread | java-simulator/src/main/java/com/smartgrid/models/LoadSource.java:41 | for a draw in [0, 1), (draw − 0.5) × 2 lies in [−1, 1) |
| Sources.Variation | java-simulator/src/main/java/com/smartgrid/models/LoadSource.java:41 | the variation lies in [−v, v], strictly below v when v > 0, and is 0 when v = 0 |
| Sources.CurrentLoad | java-simulator/src/main/java/com/smartgrid/models/LoadSource.java:40-44 | a producer's output is ≤ 0 and any other kind's is ≥ 0; its magnitude is \|base × (1 + variation)\| |
| Sources.ZeroVariabilityIsExact | java-simulator/src/main/java/com/smartgrid/models/LoadSource.java:41-43 | with variability 0 the output is −\|base\| for a producer and \|base\| otherwise, whatever the draw |
| Sources.MagnitudeWithinVariability | java-simulator/src/main/java/com/smartgrid/models/LoadSource.java:41-43 | for base ≥ 0 the output's magnitude lies between base × (1 − v) and base × (1 + v) |
| StableSort.SortDesc | java-simulator/src/main/java/com/smartgrid/services/LoadBalancer.java:51-52 | the sorted list has the input's length and holds valid positions |
| StableSort.InsertPermutes | java-simulator/src/main/java/com/smartgrid/services/LoadBalancer.java:51-52 | one insertion step adds exactly the inserted element to the multiset |
| StableSort.SortDescPermutes | java-simulator/src/main/java/com/smartgrid/services/LoadBalancer.java:51-52 | sorting is a permutation: same multiset of positions |
| StableSort.InsertSorted | java-simulator/src/main/java/com/smartgrid/services/LoadBalancer.java:51-52 | inserting into a descending list keeps it descending |
| StableSort.SortDescSorted | java-simulator/src/main/java/com/smartgrid/services/LoadBalancer.java:51-52 | the result is in descending key order |
| StableSort.WithKeyInsert | java-simulator/src/main/java/com/smartgrid/services/LoadBalancer.java:51-52 | an inserted element goes before the elements already in the list that have the same key, so inserting a head into its sorted tail keeps input order among equal keys |
| StableSort.SortDescStable | java-simulator/src/main/java/com/smartgrid/services/LoadBalancer.java:51-52 | the elements with any given key keep their input order (a stable sort) |
| StableSort.InsertDistinct | java-simulator/src/main/java/com/smartgrid/services/LoadBalancer.java:51-52 | inserting a new element into a duplicate-free list keeps it duplicate-free |
| StableSort.SortDescDistinct | java-simulator/src/main/java/com/smartgrid/services/LoadBalancer.java:51-52 | sorting a duplicate-free list gives a duplicate-free list |
| Rebalancing.OverloadedIdx | java-simulator/src/main/java/com/smartgrid/services/LoadBalancer.java:36-43 | increasing positions, holding exactly the nodes whose utilization exceeds the overload threshold |
| Rebalancing.UnderloadedIdx | java-simulator/src/main/java/com/smartgrid/services/LoadBalancer.java:36-43 | increasing positions, holding exactly the nodes that are not overloaded, are below the underload threshold and have free capacity |
| Rebalancing.IsOverloaded | java-simulator/src/main/java/com/smartgrid/services/LoadBalancer.java:38 | a donor is a node whose load is above capacity × threshold / 100, i.e. above its Floor |
| Rebalancing.IsUnderloaded | java-simulator/src/main/java/com/smartgrid/services/LoadBalancer.java:40 | a target is a node that is not a donor, whose load is below capacity × underload threshold / 100 and below its capacity |
| Rebalancing.UtilKeys | java-simulator/src/main/java/com/smartgrid/services/LoadBalancer.java:51 | the sort key of each node is its utilization |
| Rebalancing.AvailKeys | java-simulator/src/main/java/com/smartgrid/services/LoadBalancer.java:52 | the sort key of each node is its free capacity |
| Rebalancing.OverloadedOrder | java-simulator/src/main/java/com/smartgrid/services/LoadBalancer.java:51 | the donor order holds positions of the grid; what it contains and its order are in OrdersClassify and OrdersSortedAndStable |
| Rebalancing.UnderloadedOrder | java-simulator/src/main/java/com/smartgrid/services/LoadBalancer.java:52 | the target order holds positions of the grid; see OrdersClassify and OrdersSortedAndStable |
| Rebalancing.Floor | java-simulator/src/main/java/com/smartgrid/services/LoadBalancer.java:56-57 | the load at which the node sits exactly at the overload threshold: floor × 100 = capacity × threshold |
| Rebalancing.Excess | java-simulator/src/main/java/com/smartgrid/services/LoadBalancer.java:56-57 | the excess is positive exactly when the node is overloaded |
| Rebalancing.OverloadedHasExcess | java-simulator/src/main/java/com/smartgrid/services/LoadBalancer.java:55-59 | an overloaded node has positive excess, so the skip at line 59 never fires for a donor |
| Rebalancing.Transfer | java-simulator/src/main/java/com/smartgrid/services/LoadBalancer.java:67-81 | one transfer keeps the grid size and records one action |
| Rebalancing.TransferFacts | java-simulator/src/main/java/com/smartgrid/services/LoadBalancer.java:62-79 | the action runs from donor to target as LOAD_TRANSFER; 0 < amount ≤ excess; amount ≤ half the target's free capacity; amount is one of the two; the donor loses and the target gains exactly amount |
| Rebalancing.Inner | java-simulator/src/main/java/com/smartgrid/services/LoadBalancer.java:61-87 | the walk of one donor keeps the grid size |
| Rebalancing.InnerStep | java-simulator/src/main/java/com/smartgrid/services/LoadBalancer.java:61-82 | unfolding of Inner used by the loop proofs: one step of the inner loop: it stops when no excess or no target is left, skips a target without free capacity, and otherwise transfers and goes on with the reduced excess |
| Rebalancing.Outer | java-simulator/src/main/java/com/smartgrid/services/LoadBalancer.java:55-88 | the walk over all donors keeps the grid size |
| Rebalancing.OuterSingle | java-simulator/src/main/java/com/smartgrid/services/LoadBalancer.java:55-59 | unfolding of Outer used by the loop proofs: a donor with excess ≤ 0 is skipped; otherwise its inner walk starts with its excess load − capacity × threshold / 100 |
| Rebalancing.OuterStep | java-simulator/src/main/java/com/smartgrid/services/LoadBalancer.java:55-88 | unfolding of Outer used by the loop proofs: donors are processed in list order, each on the grid the previous one left |
| Rebalancing.Rebalance | java-simulator/src/main/java/com/smartgrid/services/LoadBalancer.java:29-91 | an optimize pass keeps the grid size |
| Rebalancing.TransferFrame | java-simulator/src/main/java/com/smartgrid/services/LoadBalancer.java:70-71 | a transfer changes no id or capacity, and no node other than donor and target |
| Rebalancing.InnerFrame | java-simulator/src/main/java/com/smartgrid/services/LoadBalancer.java:61-87 | one donor's walk changes only loads, and only of the donor and the listed targets |
| Rebalancing.OuterFrame | java-simulator/src/main/java/com/smartgrid/services/LoadBalancer.java:55-88 | the whole walk changes only loads, and only of listed donors and targets |
| Rebalancing.RebalanceShape | java-simulator/src/main/java/com/smartgrid/services/LoadBalancer.java:29-91 | optimize changes no node's id or capacity |
| Rebalancing.OrdersClassify | java-simulator/src/main/java/com/smartgrid/services/LoadBalancer.java:36-52 | both sorted lists are duplicate-free; they hold exactly the overloaded and exactly the underloaded nodes; no node is in both (the else-if) |
| Rebalancing.OrdersSortedAndStable | java-simulator/src/main/java/com/smartgrid/services/LoadBalancer.java:51-52 | donors in descending utilization and targets in descending free capacity; nodes with equal keys keep list order |
| Rebalancing.NoOverloadNoChange | java-simulator/src/main/java/com/smartgrid/services/LoadBalancer.java:36-48 | with no overloaded node, optimize returns no actions and changes no node |
| Rebalancing.UnclassifiedUnchanged | java-simulator/src/main/java/com/smartgrid/services/LoadBalancer.java:36-43 | a node that is neither overloaded nor underloaded ends exactly as it started |
| Rebalancing.InnerActions | java-simulator/src/main/java/com/smartgrid/services/LoadBalancer.java:61-79 | one donor's actions are positive LOAD_TRANSFERs from that donor, at most one per target |
| Rebalancing.OuterActions | java-simulator/src/main/java/com/smartgrid/services/LoadBalancer.java:55-79 | all actions are positive LOAD_TRANSFERs, at most donors × targets of them |
| Rebalancing.ActionsBounded | java-simulator/src/main/java/com/smartgrid/services/LoadBalancer.java:29-91 | every action of optimize is a positive LOAD_TRANSFER, and there are at most \|overloaded\| × \|underloaded\| |
| Rebalancing.TotalLoad | java-simulator/src/main/java/com/smartgrid/services/SimulationEngine.java:166-168 | the sum of the node loads in list order; TotalLoadSet gives its change when one load is overwritten, and the Conserves lemmas below use it |
| Rebalancing.TotalLoadSet | java-simulator/src/main/java/com/smartgrid/services/LoadBalancer.java:70-71 | overwriting one node's load changes the total by the new load minus the old one |
| Rebalancing.TransferConserves | java-simulator/src/main/java/com/smartgrid/services/LoadBalancer.java:70-71 | a transfer leaves the total load of the grid unchanged |
| Rebalancing.InnerConserves | java-simulator/src/main/java/com/smartgrid/services/LoadBalancer.java:61-87 | one donor's walk leaves the total load unchanged |
| Rebalancing.OuterConserves | java-simulator/src/main/java/com/smartgrid/services/LoadBalancer.java:55-88 | the whole walk leaves the total load unchanged |
| Rebalancing.RebalanceConservesLoad | java-simulator/src/main/java/com/smartgrid/services/LoadBalancer.java:29-91 | optimize leaves the total load unchanged |
| Rebalancing.InnerDonorBounds | java-simulator/src/main/java/com/smartgrid/services/LoadBalancer.java:61-81 | a donor that is not also a target loses at most its excess and never gains |
| Rebalancing.OuterDonorBound | java-simulator/src/main/java/com/smartgrid/services/LoadBalancer.java:55-81 | each donor ends between min(its load, capacity × threshold / 100) and its load |
| Rebalancing.DonorsKeepFloor | java-simulator/src/main/java/com/smartgrid/services/LoadBalancer.java:56-62 | an overloaded node ends between capacity × threshold / 100 and its initial load |
| Rebalancing.TransferBelowCapacity | java-simulator/src/main/java/com/smartgrid/services/LoadBalancer.java:64-71 | a node below capacity stays below capacity through a transfer |
| Rebalancing.InnerBelowCapacity | java-simulator/src/main/java/com/smartgrid/services/LoadBalancer.java:61-71 | the same through one donor's walk |
| Rebalancing.OuterBelowCapacity | java-simulator/src/main/java/com/smartgrid/services/LoadBalancer.java:55-71 | the same through the whole walk |
| Rebalancing.TargetsStayBelowCapacity | java-simulator/src/main/java/com/smartgrid/services/LoadBalancer.java:64-71 | every underloaded node ends strictly below its capacity |
| Rebalancing.OuterWithoutTargets | java-simulator/src/main/java/com/smartgrid/services/LoadBalancer.java:61 | with no targets the walk records no action |
| Rebalancing.ActionsEmptyIff | java-simulator/src/main/java/com/smartgrid/services/LoadBalancer.java:29-91 | optimize returns no action exactly when there is no overloaded node or no underloaded node |
| Rebalancing.FirstPairTransfers | java-simulator/src/main/java/com/smartgrid/services/LoadBalancer.java:55-79 | when the first donor has excess and the first target has free capacity, some action is recorded |
| Rebalancing.InnerRoute | java-simulator/src/main/java/com/smartgrid/services/LoadBalancer.java:61-79 | one donor's actions run from it to targets in target-list order, each at most once |
| Rebalancing.OuterRoute | java-simulator/src/main/java/com/smartgrid/services/LoadBalancer.java:55-79 | the (from, to) pairs form a subsequence of donors × targets in nested-loop order |
| Rebalancing.ActionsFollowSortedOrder | java-simulator/src/main/java/com/smartgrid/services/LoadBalancer.java:51-79 | optimize's (from, to) pairs follow the sorted donors (outer) and sorted targets (inner) |
| Rebalancing.TwoNodeExample | java-simulator/src/main/java/com/smartgrid/services/LoadBalancer.java:29-91 | thresholds 85/40, A(90 of 100) and B(20 of 100): A moves 5 MW to B, giving 85 and 25 and the single action A→B 5 LOAD_TRANSFER |
| LoadBalancing.LoadBalancer.constructor | java-simulator/src/main/java/com/smartgrid/services/LoadBalancer.java:20-23 | the balancer keeps the two thresholds |
| LoadBalancing.LoadBalancer.Optimize | java-simulator/src/main/java/com/smartgrid/services/LoadBalancer.java:29-91 | the nodes end exactly as Rebalance says, and the returned actions are Rebalance's actions |
| LoadBalancing.LoadBalancer.Classify | java-simulator/src/main/java/com/smartgrid/services/LoadBalancer.java:36-43 | the classifying loop yields exactly OverloadedIdx and UnderloadedIdx of the current nodes |
| LoadBalancing.LoadBalancer.RelieveAll | java-simulator/src/main/java/com/smartgrid/services/LoadBalancer.java:55-88 | the outer loop leaves the nodes and returns the actions as Outer says |
| LoadBalancing.LoadBalancer.Relieve | java-simulator/src/main/java/com/smartgrid/services/LoadBalancer.java:56-87 | one donor's excess computation and inner loop act as Outer on that single donor |
| LoadBalancing.LoadBalancer.MoveLoad | java-simulator/src/main/java/com/smartgrid/services/LoadBalancer.java:67-81 | the two load writes and the action are exactly Transfer, with the amount min(excess, 0.5 × free capacity) |
| LoadBalancing.LoadBalancer.DetectOverloadedNodes | java-simulator/src/main/java/com/smartgrid/services/LoadBalancer.java:96-100 | the filter returns no more nodes than it was given |
| LoadBalancing.LoadBalancer.DetectOverloadedExact | java-simulator/src/main/java/com/smartgrid/services/LoadBalancer.java:96-100 | every returned node is in the input and overloaded, and every overloaded input node is returned |
| LoadBalancing.LoadBalancer.DetectMatchesClassification | java-simulator/src/main/java/com/smartgrid/services/LoadBalancer.java:96-100 | the filter returns the nodes at the overloaded positions in input order; an empty input gives an empty result |
| Simulation.NodeName | java-simulator/src/main/java/com/smartgrid/services/SimulationEngine.java:53 | a node id starts with "NODE-" |
| Simulation.NodeNamesUnique | java-simulator/src/main/java/com/smartgrid/services/SimulationEngine.java:53 | different positions get different node ids ("NODE-" + (i + 1)) |
| Simulation.SourceName | java-simulator/src/main/java/com/smartgrid/services/SimulationEngine.java:64 | a source id starts with "SOURCE-" |
| Simulation.SourceNamesUnique | java-simulator/src/main/java/com/smartgrid/services/SimulationEngine.java:64 | different positions get different source ids |
| Simulation.RegionOf | java-simulator/src/main/java/com/smartgrid/services/SimulationEngine.java:49-51 | the region is one of North, South, East, West, Central |
| Simulation.SourceKind | java-simulator/src/main/java/com/smartgrid/services/SimulationEngine.java:62 | source i is a PRODUCER exactly when i % 5 == 0, otherwise a CONSUMER |
| Simulation.InitialSource | java-simulator/src/main/java/com/smartgrid/services/SimulationEngine.java:61-68 | a new source has base load 10 + 30 × draw, in [10, 40), and variability 0.3 + 0.4 × draw, in [0.3, 0.7) |
| Simulation.SliceStart | java-simulator/src/main/java/com/smartgrid/services/SimulationEngine.java:113-115 | node k of m starts its slice at k × (n / m); for an existing node the slice fits within the first m × (n / m) sources |
| Simulation.SliceEnd | java-simulator/src/main/java/com/smartgrid/services/SimulationEngine.java:113-115 | the slice end is capped at n and lies at most n / m past the start; for an existing node it is exactly start + n / m, so the cap never bites |
| Simulation.SliceWithin | java-simulator/src/main/java/com/smartgrid/services/SimulationEngine.java:113-115 | node k's slice [k·q, min(k·q + q, n)) with q = n / m has q entries and lies within the source list |
| Simulation.SlicesContiguous | java-simulator/src/main/java/com/smartgrid/services/SimulationEngine.java:113-115 | each slice ends where the next one starts |
| Simulation.SlicesDisjoint | java-simulator/src/main/java/com/smartgrid/services/SimulationEngine.java:113-115 | no source is in two nodes' slices |
| Simulation.RemainderUnread | java-simulator/src/main/java/com/smartgrid/services/SimulationEngine.java:113-117 | a source at index ≥ m × (n / m) is in no node's slice |
| Simulation.MoreNodesThanSources | java-simulator/src/main/java/com/smartgrid/services/SimulationEngine.java:113-115 | with fewer sources than nodes every slice is empty |
| Simulation.Outputs | java-simulator/src/main/java/com/smartgrid/services/SimulationEngine.java:118 | entry i is source i's output for draw i |
| Simulation.IndexOf | java-simulator/src/main/java/com/smartgrid/services/SimulationEngine.java:114 | List.indexOf: the first position holding x, or −1 exactly when x is absent |
| Simulation.IndexOfDistinct | java-simulator/src/main/java/com/smartgrid/services/SimulationEngine.java:114 | in a list of distinct nodes, a node's indexOf is its own position |
| Simulation.SimulationEngine.constructor | java-simulator/src/main/java/com/smartgrid/services/SimulationEngine.java:31-45 | not running; the balancer holds the thresholds; the requested numbers of nodes and sources, named, placed and sized as initializeGrid does |
| Simulation.SimulationEngine.InitializeGrid | java-simulator/src/main/java/com/smartgrid/services/SimulationEngine.java:47-74 | node i is "NODE-(i+1)" in region i % 5 with capacity base + 50 × draw and load 0; source i is InitialSource(i); the node objects are fresh |
| Simulation.SimulationEngine.AddNodes | java-simulator/src/main/java/com/smartgrid/services/SimulationEngine.java:49-58 | the node loop builds distinct fresh nodes with those ids, regions and capacities |
| Simulation.SimulationEngine.AddSources | java-simulator/src/main/java/com/smartgrid/services/SimulationEngine.java:60-70 | the source loop builds source i as InitialSource(i), with variability in [0, 1] |
| Simulation.SimulationEngine.Start | java-simulator/src/main/java/com/smartgrid/services/SimulationEngine.java:76-77 | sets running; nodes and sources unchanged |
| Simulation.SimulationEngine.Stop | java-simulator/src/main/java/com/smartgrid/services/SimulationEngine.java:197-198 | clears running, also before any start; nodes and sources unchanged |
| Simulation.SimulationEngine.IsRunning | java-simulator/src/main/java/com/smartgrid/services/SimulationEngine.java:224-226 | reports the running flag |
| Simulation.SimulationEngine.GetGridNodes | java-simulator/src/main/java/com/smartgrid/services/SimulationEngine.java:220-222 | a list value with the engine's nodes in order; changing it cannot change the engine's list |
| Simulation.SimulationEngine.SliceLoad | java-simulator/src/main/java/com/smartgrid/services/SimulationEngine.java:110-121 | a node's new load is ≥ 0, ≥ the sum of its slice's outputs, and equal to 0 or to that sum |
| Simulation.SimulationEngine.SliceTotal | java-simulator/src/main/java/com/smartgrid/services/SimulationEngine.java:117-119 | the loop total equals the sum of the outputs of the sources in [start, end) |
| Simulation.SimulationEngine.UpdateNode | java-simulator/src/main/java/com/smartgrid/services/SimulationEngine.java:109-122 | one per-node update overwrites the node's load with SliceLoad at its indexOf position; capacity unchanged |
| Simulation.SimulationEngine.UpdateLoads | java-simulator/src/main/java/com/smartgrid/services/SimulationEngine.java:105-134 | after the update every node k holds SliceLoad(k) and its old capacity |
| Simulation.SimulationEngine.RunOptimization | java-simulator/src/main/java/com/smartgrid/services/SimulationEngine.java:136-158 | the nodes and actions are those of Rebalance on the thresholds, and the total load is unchanged |
| Simulation.SimulationEngine.ReportStatus | java-simulator/src/main/java/com/smartgrid/services/SimulationEngine.java:160-195 | the totals are the sums of load and capacity over all nodes; one sensor per node with id "SENSOR-" + nodeId, that node's id and load, the clock value and the voltage and frequency from the draws |
| Simulation.TotalCapacity | java-simulator/src/main/java/com/smartgrid/services/SimulationEngine.java:166-168 | the sum of the node capacities in list order, as ReportStatus reports it |
| Simulation.TotalCapacityPositive | java-simulator/src/main/java/com/smartgrid/services/SimulationEngine.java:166-172 | on a grid of positive capacities the total capacity is positive exactly when the grid has a node |
| GridServices.EnsureNode | csharp-api/SmartGridAPI/Services/GridService.cs:147-163 | afterwards the id is present; an existing id leaves the table unchanged, a missing one appends ("Unknown", 100.0, now) |
| GridServices.EnsureNodeIdempotent | csharp-api/SmartGridAPI/Services/GridService.cs:147-163 | a second insert of the same id changes nothing |
| GridServices.EnsureNodeKeepsIdsUnique | csharp-api/SmartGridAPI/Data/SmartGridDbContext.cs:24 | the insert keeps node ids unique, as the unique index demands |
| GridServices.IngestOne | csharp-api/SmartGridAPI/Services/GridService.cs:21-59 | a record whose timestamp fails to parse changes nothing; otherwise the node is ensured and one reading and one NORMAL event with utilization 0 are appended |
| GridServices.IngestSensorData | csharp-api/SmartGridAPI/Services/GridService.cs:21-60 | the batch, record by record in order: readings grow by at most one per record, events grow exactly as readings do, and no optimization action changes |
| GridServices.ParsedReadings | csharp-api/SmartGridAPI/Services/GridService.cs:26-42 | at most one reading per record |
| GridServices.ParsedEvents | csharp-api/SmartGridAPI/Services/GridService.cs:44-54 | one event per stored reading, each NORMAL with utilization 0 |
| GridServices.IngestAppends | csharp-api/SmartGridAPI/Services/GridService.cs:19-64 | a batch appends exactly the parsed readings and events in order, and leaves the actions table unchanged |
| GridServices.IngestSplit | csharp-api/SmartGridAPI/Services/GridService.cs:21-60 | processing a + b equals processing a then b: a failing record does not affect the others |
| GridServices.IngestNodes | csharp-api/SmartGridAPI/Services/GridService.cs:29 | node ids stay unique; existing nodes stay; every node of a parsed record is present |
| GridServices.ParsedActions | csharp-api/SmartGridAPI/Services/GridService.cs:66-93 | at most one stored action per incoming action |
| GridServices.AllParsedActionsStored | csharp-api/SmartGridAPI/Services/GridService.cs:72-83 | when every timestamp parses, each action is stored with its fields and parsed timestamp, in order |
| GridServices.LatestReading | csharp-api/SmartGridAPI/Services/GridService.cs:100-103 | none exactly when the node has no reading; otherwise a reading of that node with the greatest timestamp |
| GridServices.UtilizationOf | csharp-api/SmartGridAPI/Services/GridService.cs:114 | load / capacity × 100 when capacity > 0, else 0 |
| GridServices.StatusOf | csharp-api/SmartGridAPI/Services/GridService.cs:112-129 | the node's id, region and capacity; load and time from its latest reading, or 0 and the node's own time without one; utilization from that load |
| GridServices.Statuses | csharp-api/SmartGridAPI/Services/GridService.cs:110-129 | one status per node, in node order |
| GridServices.OverloadCount | csharp-api/SmartGridAPI/Services/GridService.cs:116-119 | the count never exceeds the number of nodes |
| GridServices.OverloadCountExact | csharp-api/SmartGridAPI/Services/GridService.cs:116-119 | the count is the number of nodes with utilization strictly above 85; it is 0 exactly when none is |
| GridServices.LoadSum | csharp-api/SmartGridAPI/Services/GridService.cs:131 | the running load total over the statuses in node order |
| GridServices.LoadSumNonNegative | csharp-api/SmartGridAPI/Services/GridService.cs:131 | with no negative load the load total is ≥ 0 |
| GridServices.CapacitySum | csharp-api/SmartGridAPI/Services/GridService.cs:132 | the running capacity total over the statuses in node order |
| GridServices.CapacitySumPositive | csharp-api/SmartGridAPI/Services/GridService.cs:132-141 | with every capacity positive the capacity total is positive exactly when there is a node, so the average's guard passes exactly then |
| GridServices.GridStatusOf | csharp-api/SmartGridAPI/Services/GridService.cs:95-145 | the report carries the given time, one status per node with that node's id and capacity, an overload count ≤ the node count, and the average guarded as UtilizationOf the totals |
| GridServices.GridService.constructor | csharp-api/SmartGridAPI/Services/GridService.cs:13-17 | the four tables hold exactly the rows of the database the service is opened over (Tables() == db) |
| GridServices.GridService.Tables | csharp-api/SmartGridAPI/Services/GridService.cs:10 | the value of the four tables |
| GridServices.GridService.EnsureGridNodeExists | csharp-api/SmartGridAPI/Services/GridService.cs:147-163 | the node table becomes EnsureNode of the old one; the other tables are unchanged |
| GridServices.GridService.ProcessSensorData | csharp-api/SmartGridAPI/Services/GridService.cs:19-64 | the tables become the record-by-record intake of the batch |
| GridServices.GridService.ProcessOptimizationActions | csharp-api/SmartGridAPI/Services/GridService.cs:66-93 | the parsed actions are appended in order; the other tables are unchanged |
| GridServices.GridService.NodeStatusOf | csharp-api/SmartGridAPI/Services/GridService.cs:112-129 | the loop body's status is StatusOf the node |
| GridServices.GridService.GetGridStatus | csharp-api/SmartGridAPI/Services/GridService.cs:95-145 | the report is the node statuses in order with the load and capacity sums, the guarded average and the 85 % count, which is ≤ the node count = the number of statuses |

## Left out

- Concurrency. The node's read/write lock, the thread pool, the scheduler, futures and
  their timeouts, and shutdown are left out. Every call is one sequential step, so a read
  of a node always sees one (load, capacity) pair. The per-node updates run in list
  order.
- Network. The HTTP client that posts sensor data and actions is left out; sending is a
  no-op.
- Configuration and process wiring. The properties loader, the main class and the ASP.NET
  wiring are left out. Configuration values are parameters, and counts are naturals.
- Randomness and the clock. Every `Math.random()` draw (capacity jitter, base load,
  variability, voltage, frequency and each source read) is a parameter in [0, 1). A clock
  read is an integer parameter, and one clock value per call stands for every clock read
  inside that call: `ReportStatus` gives every sensor the same time where each sensor reads
  `LocalDateTime.now()` itself, and a sensor-data batch gives every inserted node the same
  `LastUpdated` where each insert reads `DateTime.UtcNow`.
- Floating point. MW and percentages are exact reals; rounding, NaN and Infinity are not
  modelled. Utilization requires positive capacity, so `Optimize`, `Classify` and
  `DetectOverloadedNodes` require it, and the engine's invariant keeps it. The
  API's utilization keeps the source's capacity > 0 guard.
- LoadBalancing.LoadBalancer.Optimize: requires the node list to hold distinct objects. The
  engine's list always does, because its nodes are fresh. With the same object twice the
  source would move load through an aliased node, and that case is not modelled.
- Sorting. The sorted lists hold positions into the node list, not references. The
  sort is specified by the stable, descending order it produces, not by TimSort's steps.
- Persistence. The table row ids, `SaveChangesAsync` and its transaction boundaries, and the
  query translation are left out. A failure while saving is not modelled; only a
  timestamp that fails to parse makes a record be skipped.
- Timestamp parsing. `DateTime.Parse` is a partial function parameter. A timestamp is an
  integer.
- GridServices.LatestReading: when two readings of a node have the same greatest timestamp,
  the model returns the earlier-stored one. The source's grouped query leaves that choice to
  the database.
- Logging and formatting. Log output, `toString` and the utilization percentage printed in
  the status report are left out.
- Controllers and DTO mapping. They are plain data holders with HTTP status codes and are
  not part of this model.
