/**
 * The API's grid service over its four tables, held in memory: sensor-data intake with a
 * skip-on-error loop, optimization-action intake, the conditional node insert and the
 * grid status aggregation. Timestamps are integers (ticks); parsing a timestamp string is
 * a parameter that may fail.
 */
module GridServices {
  import opened Common

  const DefaultRegion: string := "Unknown"
  const DefaultCapacity: real := 100.0
  const NormalEvent: string := "NORMAL"
  /** The hard-coded overload line of the status report, in percent. */
  const StatusOverloadPercent: real := 85.0

  datatype NodeRow = NodeRow(nodeId: string, region: string, capacity: real, lastUpdated: int)
  datatype ReadingRow = ReadingRow(sensorId: string, nodeId: string, timestamp: int, loadReading: real, voltage: real, frequency: real)
  datatype EventRow = EventRow(nodeId: string, timestamp: int, loadValue: real, utilizationPercent: real, eventType: string)
  datatype ActionRow = ActionRow(fromNodeId: string, toNodeId: string, amount: real, actionType: string, timestamp: int)

  /** The four tables. */
  datatype Db = Db(gridNodes: seq<NodeRow>, sensorReadings: seq<ReadingRow>, loadEvents: seq<EventRow>, optimizationActions: seq<ActionRow>)

  /** Incoming records, with the timestamp still a string. */
  datatype SensorData = SensorData(sensorId: string, nodeId: string, timestamp: string, loadReading: real, voltage: real, frequency: real)
  datatype ActionData = ActionData(fromNodeId: string, toNodeId: string, amount: real, actionType: string, timestamp: string)

  datatype NodeStatus = NodeStatus(nodeId: string, region: string, currentLoad: real, capacity: real, utilizationPercent: real, lastUpdated: int)
  datatype GridStatus = GridStatus(timestamp: int, totalNodes: nat, totalLoad: real, totalCapacity: real,
                                   averageUtilization: real, overloadedNodes: nat, nodes: seq<NodeStatus>)

  // ---------------------------------------------------------------------------
  // Node table: conditional insert

  predicate HasNode(rows: seq<NodeRow>, id: string)
  {
    exists k :: 0 <= k < |rows| && rows[k].nodeId == id
  }

  /** The unique index on NodeId. */
  predicate UniqueIds(rows: seq<NodeRow>)
  {
    forall a, b :: 0 <= a < b < |rows| ==> rows[a].nodeId != rows[b].nodeId
  }

  /** Adds a default row for id unless a row with that id is already there. */
  function EnsureNode(rows: seq<NodeRow>, id: string, now: int): (r: seq<NodeRow>)
    ensures HasNode(r, id)
    ensures HasNode(rows, id) ==> r == rows
    ensures !HasNode(rows, id) ==> r == rows + [NodeRow(id, DefaultRegion, DefaultCapacity, now)]
  {
    if HasNode(rows, id) then rows
    else
      var r := rows + [NodeRow(id, DefaultRegion, DefaultCapacity, now)];
      assert r[|rows|].nodeId == id;
      r
  }

  /** A second call with the same id changes nothing. */
  lemma {:induction false} EnsureNodeIdempotent(rows: seq<NodeRow>, id: string, now: int, later: int)
    ensures EnsureNode(EnsureNode(rows, id, now), id, later) == EnsureNode(rows, id, now)
  {
  }

  /** The insert never creates a second row with the same id. */
  lemma {:induction false} EnsureNodeKeepsIdsUnique(rows: seq<NodeRow>, id: string, now: int)
    requires UniqueIds(rows)
    ensures UniqueIds(EnsureNode(rows, id, now))
  {
    if !HasNode(rows, id) {
      var r := EnsureNode(rows, id, now);
      forall a, b | 0 <= a < b < |r| ensures r[a].nodeId != r[b].nodeId {
        if b == |rows| {
          assert r[a] == rows[a];
        }
      }
    }
  }

  // ---------------------------------------------------------------------------
  // Sensor-data intake

  /** One record: skipped when its timestamp does not parse, otherwise node, reading and event. */
  function IngestOne(db: Db, d: SensorData, parse: string -> Option<int>, now: int): (r: Db)
    ensures parse(d.timestamp).None? ==> r == db
    ensures parse(d.timestamp).Some? ==>
      var t := parse(d.timestamp).value;
      r.gridNodes == EnsureNode(db.gridNodes, d.nodeId, now) &&
      r.sensorReadings == db.sensorReadings + [ReadingRow(d.sensorId, d.nodeId, t, d.loadReading, d.voltage, d.frequency)] &&
      r.loadEvents == db.loadEvents + [EventRow(d.nodeId, t, d.loadReading, 0.0, NormalEvent)] &&
      r.optimizationActions == db.optimizationActions
  {
    match parse(d.timestamp)
    case None => db
    case Some(t) =>
      Db(EnsureNode(db.gridNodes, d.nodeId, now),
         db.sensorReadings + [ReadingRow(d.sensorId, d.nodeId, t, d.loadReading, d.voltage, d.frequency)],
         db.loadEvents + [EventRow(d.nodeId, t, d.loadReading, 0.0, NormalEvent)],
         db.optimizationActions)
  }

  /** The whole batch, record by record in order. */
  function IngestSensorData(db: Db, data: seq<SensorData>, parse: string -> Option<int>, now: int): (r: Db)
    ensures |db.sensorReadings| <= |r.sensorReadings| <= |db.sensorReadings| + |data|
    ensures |r.loadEvents| - |db.loadEvents| == |r.sensorReadings| - |db.sensorReadings|
    ensures r.optimizationActions == db.optimizationActions
    decreases |data|
  {
    if data == [] then db
    else IngestOne(IngestSensorData(db, data[..|data| - 1], parse, now), data[|data| - 1], parse, now)
  }

  /** The readings a batch adds: one per record whose timestamp parses, in order. */
  function ParsedReadings(data: seq<SensorData>, parse: string -> Option<int>): (r: seq<ReadingRow>)
    ensures |r| <= |data|
    decreases |data|
  {
    if data == [] then []
    else
      var d := data[|data| - 1];
      ParsedReadings(data[..|data| - 1], parse) +
        match parse(d.timestamp)
        case None => []
        case Some(t) => [ReadingRow(d.sensorId, d.nodeId, t, d.loadReading, d.voltage, d.frequency)]
  }

  /** The events a batch adds: one NORMAL event with utilization 0 per parsed record. */
  function ParsedEvents(data: seq<SensorData>, parse: string -> Option<int>): (r: seq<EventRow>)
    ensures |r| == |ParsedReadings(data, parse)|
    ensures forall k :: 0 <= k < |r| ==> r[k].eventType == NormalEvent && r[k].utilizationPercent == 0.0
    decreases |data|
  {
    if data == [] then []
    else
      var d := data[|data| - 1];
      ParsedEvents(data[..|data| - 1], parse) +
        match parse(d.timestamp)
        case None => []
        case Some(t) => [EventRow(d.nodeId, t, d.loadReading, 0.0, NormalEvent)]
  }

  /** Intake appends exactly the parsed readings and events and touches no optimization action. */
  lemma {:induction false} IngestAppends(db: Db, data: seq<SensorData>, parse: string -> Option<int>, now: int)
    ensures IngestSensorData(db, data, parse, now).sensorReadings == db.sensorReadings + ParsedReadings(data, parse)
    ensures IngestSensorData(db, data, parse, now).loadEvents == db.loadEvents + ParsedEvents(data, parse)
    ensures IngestSensorData(db, data, parse, now).optimizationActions == db.optimizationActions
    decreases |data|
  {
    if data != [] {
      var init := data[..|data| - 1];
      IngestAppends(db, init, parse, now);
      var d := data[|data| - 1];
      AppendAssoc(db.sensorReadings, ParsedReadings(init, parse),
        match parse(d.timestamp)
        case None => []
        case Some(t) => [ReadingRow(d.sensorId, d.nodeId, t, d.loadReading, d.voltage, d.frequency)]);
      AppendAssoc(db.loadEvents, ParsedEvents(init, parse),
        match parse(d.timestamp)
        case None => []
        case Some(t) => [EventRow(d.nodeId, t, d.loadReading, 0.0, NormalEvent)]);
    }
  }

  /** Records are handled independently: a batch is its first part followed by its second. */
  lemma {:induction false} IngestSplit(db: Db, a: seq<SensorData>, b: seq<SensorData>, parse: string -> Option<int>, now: int)
    ensures IngestSensorData(db, a + b, parse, now) == IngestSensorData(IngestSensorData(db, a, parse, now), b, parse, now)
    decreases |b|
  {
    if b == [] {
      assert a + b == a;
    } else {
      var ab := a + b;
      assert ab[..|ab| - 1] == a + b[..|b| - 1];
      assert ab[|ab| - 1] == b[|b| - 1];
      IngestSplit(db, a, b[..|b| - 1], parse, now);
    }
  }

  /** Intake keeps node ids unique, and every parsed record's node is present afterwards. */
  lemma {:induction false} IngestNodes(db: Db, data: seq<SensorData>, parse: string -> Option<int>, now: int)
    requires UniqueIds(db.gridNodes)
    ensures UniqueIds(IngestSensorData(db, data, parse, now).gridNodes)
    ensures forall k :: 0 <= k < |db.gridNodes| ==> HasNode(IngestSensorData(db, data, parse, now).gridNodes, db.gridNodes[k].nodeId)
    ensures forall k :: 0 <= k < |data| && parse(data[k].timestamp).Some? ==>
      HasNode(IngestSensorData(db, data, parse, now).gridNodes, data[k].nodeId)
    decreases |data|
  {
    if data != [] {
      var init := data[..|data| - 1];
      var d := data[|data| - 1];
      IngestNodes(db, init, parse, now);
      var mid := IngestSensorData(db, init, parse, now);
      var r := IngestSensorData(db, data, parse, now);
      assert r == IngestOne(mid, d, parse, now);
      if parse(d.timestamp).Some? {
        EnsureNodeKeepsIdsUnique(mid.gridNodes, d.nodeId, now);
        assert mid.gridNodes <= r.gridNodes;
        forall id | HasNode(mid.gridNodes, id) ensures HasNode(r.gridNodes, id) {
          var k :| 0 <= k < |mid.gridNodes| && mid.gridNodes[k].nodeId == id;
          assert r.gridNodes[k] == mid.gridNodes[k];
        }
      }
      forall k | 0 <= k < |data| && parse(data[k].timestamp).Some? ensures HasNode(r.gridNodes, data[k].nodeId) {
        if k < |data| - 1 {
          assert data[k] == init[k];
        }
      }
    }
  }

  // ---------------------------------------------------------------------------
  // Optimization-action intake

  /** Actions whose timestamp parses are stored, in order; the others are skipped. */
  function ParsedActions(actions: seq<ActionData>, parse: string -> Option<int>): (r: seq<ActionRow>)
    ensures |r| <= |actions|
    decreases |actions|
  {
    if actions == [] then []
    else
      var a := actions[|actions| - 1];
      ParsedActions(actions[..|actions| - 1], parse) +
        match parse(a.timestamp)
        case None => []
        case Some(t) => [ActionRow(a.fromNodeId, a.toNodeId, a.amount, a.actionType, t)]
  }

  /** With every timestamp parseable, every action is stored with its own fields. */
  lemma {:induction false} AllParsedActionsStored(actions: seq<ActionData>, parse: string -> Option<int>)
    requires forall k :: 0 <= k < |actions| ==> parse(actions[k].timestamp).Some?
    ensures |ParsedActions(actions, parse)| == |actions|
    ensures forall k :: 0 <= k < |actions| ==>
      var r := ParsedActions(actions, parse)[k];
      r.fromNodeId == actions[k].fromNodeId && r.toNodeId == actions[k].toNodeId &&
      r.amount == actions[k].amount && r.actionType == actions[k].actionType &&
      Some(r.timestamp) == parse(actions[k].timestamp)
    decreases |actions|
  {
    if actions != [] {
      var init := actions[..|actions| - 1];
      forall k | 0 <= k < |init| ensures parse(init[k].timestamp).Some? {
        assert init[k] == actions[k];
      }
      AllParsedActionsStored(init, parse);
      var r := ParsedActions(actions, parse);
      forall k | 0 <= k < |actions| - 1 ensures r[k] == ParsedActions(init, parse)[k] && actions[k] == init[k] {
      }
    }
  }

  // ---------------------------------------------------------------------------
  // Status aggregation

  /**
   * The newest reading of node id: greatest timestamp, the first in table order among
   * equal timestamps; None when the node has no reading.
   */
  function LatestReading(rs: seq<ReadingRow>, id: string): (r: Option<ReadingRow>)
    ensures r.None? <==> forall k :: 0 <= k < |rs| ==> rs[k].nodeId != id
    ensures r.Some? ==> r.value in rs && r.value.nodeId == id
    ensures r.Some? ==> forall k :: 0 <= k < |rs| && rs[k].nodeId == id ==> rs[k].timestamp <= r.value.timestamp
    decreases |rs|
  {
    if rs == [] then None
    else
      var rest := LatestReading(rs[1..], id);
      assert forall k :: 1 <= k < |rs| ==> rs[k] == rs[1..][k - 1];
      if rs[0].nodeId != id then rest
      else if rest.Some? && rest.value.timestamp > rs[0].timestamp then rest
      else Some(rs[0])
  }

  /** load / capacity * 100 for a positive capacity, else 0. */
  function UtilizationOf(load: real, capacity: real): (u: real)
    ensures capacity > 0.0 ==> u * capacity == load * 100.0
    ensures capacity <= 0.0 ==> u == 0.0
  {
    if capacity > 0.0 then load / capacity * 100.0 else 0.0
  }

  /** The status line of one node. */
  function StatusOf(node: NodeRow, rs: seq<ReadingRow>): (s: NodeStatus)
    ensures s.nodeId == node.nodeId && s.region == node.region && s.capacity == node.capacity
    ensures s.utilizationPercent == UtilizationOf(s.currentLoad, node.capacity)
    ensures LatestReading(rs, node.nodeId).None? ==> s.currentLoad == 0.0 && s.lastUpdated == node.lastUpdated
    ensures LatestReading(rs, node.nodeId).Some? ==>
      s.currentLoad == LatestReading(rs, node.nodeId).value.loadReading &&
      s.lastUpdated == LatestReading(rs, node.nodeId).value.timestamp
  {
    var reading := LatestReading(rs, node.nodeId);
    var currentLoad := if reading.Some? then reading.value.loadReading else 0.0;
    var lastUpdated := if reading.Some? then reading.value.timestamp else node.lastUpdated;
    NodeStatus(node.nodeId, node.region, currentLoad, node.capacity, UtilizationOf(currentLoad, node.capacity), lastUpdated)
  }

  function Statuses(nodes: seq<NodeRow>, rs: seq<ReadingRow>): (ss: seq<NodeStatus>)
    ensures |ss| == |nodes| && forall k :: 0 <= k < |nodes| ==> ss[k] == StatusOf(nodes[k], rs)
  {
    seq(|nodes|, k requires 0 <= k < |nodes| => StatusOf(nodes[k], rs))
  }

  function LoadSum(ss: seq<NodeStatus>): real
    decreases |ss|
  {
    if ss == [] then 0.0 else LoadSum(ss[..|ss| - 1]) + ss[|ss| - 1].currentLoad
  }

  function CapacitySum(ss: seq<NodeStatus>): real
    decreases |ss|
  {
    if ss == [] then 0.0 else CapacitySum(ss[..|ss| - 1]) + ss[|ss| - 1].capacity
  }

  /** No negative load makes the load total negative. */
  lemma {:induction false} LoadSumNonNegative(ss: seq<NodeStatus>)
    requires forall k :: 0 <= k < |ss| ==> ss[k].currentLoad >= 0.0
    ensures LoadSum(ss) >= 0.0
    decreases |ss|
  {
    if ss != [] {
      LoadSumNonNegative(ss[..|ss| - 1]);
    }
  }

  /** With every capacity positive, the capacity total is positive exactly when there is a node. */
  lemma {:induction false} CapacitySumPositive(ss: seq<NodeStatus>)
    requires forall k :: 0 <= k < |ss| ==> ss[k].capacity > 0.0
    ensures CapacitySum(ss) > 0.0 <==> ss != []
    decreases |ss|
  {
    if ss != [] {
      CapacitySumPositive(ss[..|ss| - 1]);
    }
  }

  /** Number of statuses strictly above the 85 % line. */
  function OverloadCount(ss: seq<NodeStatus>): (c: nat)
    ensures c <= |ss|
    decreases |ss|
  {
    if ss == [] then 0
    else OverloadCount(ss[..|ss| - 1]) + (if ss[|ss| - 1].utilizationPercent > StatusOverloadPercent then 1 else 0)
  }

  /** Extending the node list by one appends that node's status. */
  lemma StatusesSnoc(nodes: seq<NodeRow>, rs: seq<ReadingRow>, k: nat)
    requires k < |nodes|
    ensures Statuses(nodes[..k + 1], rs) == Statuses(nodes[..k], rs) + [StatusOf(nodes[k], rs)]
    ensures var ss := Statuses(nodes[..k + 1], rs); ss[..k] == Statuses(nodes[..k], rs)
  {
  }

  /** The report for the given tables at time now. */
  function GridStatusOf(nodes: seq<NodeRow>, rs: seq<ReadingRow>, now: int): (r: GridStatus)
    ensures r.timestamp == now && r.totalNodes == |nodes| == |r.nodes|
    ensures r.overloadedNodes <= r.totalNodes
    ensures forall k :: 0 <= k < |nodes| ==> r.nodes[k].nodeId == nodes[k].nodeId && r.nodes[k].capacity == nodes[k].capacity
    ensures r.averageUtilization == UtilizationOf(r.totalLoad, r.totalCapacity)
  {
    var ss := Statuses(nodes, rs);
    GridStatus(now, |nodes|, LoadSum(ss), CapacitySum(ss), UtilizationOf(LoadSum(ss), CapacitySum(ss)), OverloadCount(ss), ss)
  }

  /** The count is exactly the number of nodes above 85 %, so it lies between 0 and the node count. */
  lemma {:induction false} OverloadCountExact(ss: seq<NodeStatus>)
    ensures OverloadCount(ss) == |set k | 0 <= k < |ss| && ss[k].utilizationPercent > StatusOverloadPercent|
    ensures OverloadCount(ss) == 0 <==> forall k :: 0 <= k < |ss| ==> ss[k].utilizationPercent <= StatusOverloadPercent
    decreases |ss|
  {
    if ss != [] {
      var n := |ss| - 1;
      var init := ss[..n];
      OverloadCountExact(init);
      var A := set k | 0 <= k < n && init[k].utilizationPercent > StatusOverloadPercent;
      var B := set k | 0 <= k < |ss| && ss[k].utilizationPercent > StatusOverloadPercent;
      if ss[n].utilizationPercent > StatusOverloadPercent {
        assert B == A + {n};
      } else {
        assert B == A;
      }
    }
  }

  class GridService {
    var gridNodes: seq<NodeRow>
    var sensorReadings: seq<ReadingRow>
    var loadEvents: seq<EventRow>
    var optimizationActions: seq<ActionRow>

    /** A service over a database whose four tables already hold the rows in db. */
    constructor (db: Db)
      ensures Tables() == db
    {
      gridNodes, sensorReadings, loadEvents, optimizationActions := db.gridNodes, db.sensorReadings, db.loadEvents, db.optimizationActions;
    }

    function Tables(): (db: Db)
      reads this
      ensures db.gridNodes == gridNodes && db.sensorReadings == sensorReadings
      ensures db.loadEvents == loadEvents && db.optimizationActions == optimizationActions
    {
      Db(gridNodes, sensorReadings, loadEvents, optimizationActions)
    }

    /** Inserts a default node for nodeId unless one exists; the other tables stay. */
    method EnsureGridNodeExists(nodeId: string, now: int)
      modifies this
      ensures gridNodes == EnsureNode(old(gridNodes), nodeId, now)
      ensures sensorReadings == old(sensorReadings) && loadEvents == old(loadEvents)
      ensures optimizationActions == old(optimizationActions)
    {
      var found := false;
      for k := 0 to |gridNodes|
        invariant found <==> HasNode(gridNodes[..k], nodeId)
      {
        assert gridNodes[..k + 1] == gridNodes[..k] + [gridNodes[k]];
        if gridNodes[k].nodeId == nodeId {
          found := true;
        }
      }
      assert gridNodes[..|gridNodes|] == gridNodes;
      if !found {
        gridNodes := gridNodes + [NodeRow(nodeId, DefaultRegion, DefaultCapacity, now)];
      }
    }

    /** The intake loop: a record whose timestamp does not parse is skipped and the rest go on. */
    method ProcessSensorData(data: seq<SensorData>, parse: string -> Option<int>, now: int)
      modifies this
      ensures Tables() == IngestSensorData(old(Tables()), data, parse, now)
    {
      ghost var db0 := Tables();
      for i := 0 to |data|
        invariant Tables() == IngestSensorData(db0, data[..i], parse, now)
      {
        assert data[..i + 1][..i] == data[..i];
        var d := data[i];
        var timestamp := parse(d.timestamp);
        if timestamp.Some? {
          EnsureGridNodeExists(d.nodeId, now);
          sensorReadings := sensorReadings + [ReadingRow(d.sensorId, d.nodeId, timestamp.value, d.loadReading, d.voltage, d.frequency)];
          loadEvents := loadEvents + [EventRow(d.nodeId, timestamp.value, d.loadReading, 0.0, NormalEvent)];
        }
      }
      assert data[..|data|] == data;
    }

    /** Stores every action whose timestamp parses, in order; the others are skipped. */
    method ProcessOptimizationActions(actions: seq<ActionData>, parse: string -> Option<int>)
      modifies this
      ensures optimizationActions == old(optimizationActions) + ParsedActions(actions, parse)
      ensures gridNodes == old(gridNodes) && sensorReadings == old(sensorReadings) && loadEvents == old(loadEvents)
    {
      for i := 0 to |actions|
        invariant optimizationActions == old(optimizationActions) + ParsedActions(actions[..i], parse)
        invariant gridNodes == old(gridNodes) && sensorReadings == old(sensorReadings) && loadEvents == old(loadEvents)
      {
        assert actions[..i + 1][..i] == actions[..i];
        var a := actions[i];
        var timestamp := parse(a.timestamp);
        if timestamp.Some? {
          optimizationActions := optimizationActions + [ActionRow(a.fromNodeId, a.toNodeId, a.amount, a.actionType, timestamp.value)];
        }
      }
      assert actions[..|actions|] == actions;
    }

    /** The per-node part of the status loop: latest reading, load and utilization. */
    method NodeStatusOf(node: NodeRow) returns (st: NodeStatus)
      ensures st == StatusOf(node, sensorReadings)
    {
      var reading := LatestReading(sensorReadings, node.nodeId);
      var currentLoad := if reading.Some? then reading.value.loadReading else 0.0;
      var utilization := if node.capacity > 0.0 then currentLoad / node.capacity * 100.0 else 0.0;
      var lastUpdated := if reading.Some? then reading.value.timestamp else node.lastUpdated;
      st := NodeStatus(node.nodeId, node.region, currentLoad, node.capacity, utilization, lastUpdated);
    }

    /** The status report over the node table and the newest reading of each node. */
    method GetGridStatus(now: int) returns (status: GridStatus)
      ensures status == GridStatusOf(gridNodes, sensorReadings, now)
      ensures status.overloadedNodes <= status.totalNodes == |status.nodes| == |gridNodes|
    {
      var nodeStatuses: seq<NodeStatus> := [];
      var totalLoad, totalCapacity := 0.0, 0.0;
      var overloadedNodes := 0;
      for k := 0 to |gridNodes|
        invariant nodeStatuses == Statuses(gridNodes[..k], sensorReadings)
        invariant totalLoad == LoadSum(nodeStatuses) && totalCapacity == CapacitySum(nodeStatuses)
        invariant overloadedNodes == OverloadCount(nodeStatuses)
      {
        var st := NodeStatusOf(gridNodes[k]);
        if st.utilizationPercent > StatusOverloadPercent {
          overloadedNodes := overloadedNodes + 1;
        }
        StatusesSnoc(gridNodes, sensorReadings, k);
        totalLoad := totalLoad + st.currentLoad;
        totalCapacity := totalCapacity + st.capacity;
        nodeStatuses := nodeStatuses + [st];
      }
      assert gridNodes[..|gridNodes|] == gridNodes;
      var average := if totalCapacity > 0.0 then totalLoad / totalCapacity * 100.0 else 0.0;
      status := GridStatus(now, |gridNodes|, totalLoad, totalCapacity, average, overloadedNodes, nodeStatuses);
    }
  }
}
