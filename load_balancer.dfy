/**
 * The load balancer object: its two thresholds, the in-place optimize pass over a list
 * of grid nodes, and the overload filter. optimize is proved to leave the nodes exactly
 * as the functional model Rebalancing.Rebalance says and to return its actions.
 */
module LoadBalancing {
  import opened Common
  import opened Nodes
  import opened StableSort
  import opened Rebalancing

  /** Every node of the list has positive capacity. */
  predicate Capacitated(nodes: seq<GridNode>)
    reads nodes
  {
    forall i :: 0 <= i < |nodes| ==> nodes[i].capacity > 0.0
  }

  class LoadBalancer {
    const overloadThreshold: real
    const underloadThreshold: real

    constructor (overloadThreshold: real, underloadThreshold: real)
      ensures this.overloadThreshold == overloadThreshold
      ensures this.underloadThreshold == underloadThreshold
    {
      this.overloadThreshold := overloadThreshold;
      this.underloadThreshold := underloadThreshold;
    }

    /**
     * One optimize pass. The nodes must be distinct objects (the engine's list is) with
     * positive capacity; the lists inside hold positions into nodes.
     */
    method Optimize(nodes: seq<GridNode>) returns (actions: seq<OptimizationAction>)
      requires Distinct(nodes) && Capacitated(nodes)
      modifies nodes
      ensures PositiveCapacities(old(Snapshot(nodes)))
      ensures Snapshot(nodes) == Rebalance(old(Snapshot(nodes)), overloadThreshold, underloadThreshold).grid
      ensures actions == Rebalance(old(Snapshot(nodes)), overloadThreshold, underloadThreshold).actions
    {
      ghost var g0 := Snapshot(nodes);
      actions := [];

      var overloaded, underloaded := Classify(nodes);
      if |overloaded| == 0 {
        return;
      }

      overloaded := SortDesc(overloaded, UtilKeys(Snapshot(nodes)));
      underloaded := SortDesc(underloaded, AvailKeys(Snapshot(nodes)));
      assert overloaded == OverloadedOrder(g0, overloadThreshold);
      assert underloaded == UnderloadedOrder(g0, overloadThreshold, underloadThreshold);

      actions := RelieveAll(nodes, overloaded, underloaded);
    }

    /** The outer loop: every donor in the sorted order, each with its own fresh excess. */
    method RelieveAll(nodes: seq<GridNode>, overloaded: seq<nat>, underloaded: seq<nat>) returns (actions: seq<OptimizationAction>)
      requires Distinct(nodes) && InRange(overloaded, |nodes|) && InRange(underloaded, |nodes|)
      modifies nodes
      ensures var r := Outer(old(Snapshot(nodes)), overloaded, underloaded, overloadThreshold);
        Snapshot(nodes) == r.grid && actions == r.actions
    {
      ghost var result := Outer(Snapshot(nodes), overloaded, underloaded, overloadThreshold);
      assert overloaded[0..] == overloaded;
      actions := [];
      var oi := 0;
      while oi < |overloaded|
        invariant 0 <= oi <= |overloaded|
        invariant result.grid == Outer(Snapshot(nodes), overloaded[oi..], underloaded, overloadThreshold).grid
        invariant result.actions == actions + Outer(Snapshot(nodes), overloaded[oi..], underloaded, overloadThreshold).actions
      {
        ghost var cur := Snapshot(nodes);
        ghost var todo := overloaded[oi..];
        assert todo[0] == overloaded[oi] && todo[1..] == overloaded[oi + 1..];
        OuterStep(cur, todo, underloaded, overloadThreshold);
        ghost var first := Outer(cur, [overloaded[oi]], underloaded, overloadThreshold);
        var moved := Relieve(nodes, overloaded[oi], underloaded);
        ghost var rest := Outer(first.grid, overloaded[oi + 1..], underloaded, overloadThreshold).actions;
        AppendAssoc(actions, moved, rest);
        actions := actions + moved;
        oi := oi + 1;
      }
      assert overloaded[oi..] == [];
    }

    /** The classification loop: overloaded, else underloaded with headroom, in list order. */
    method Classify(nodes: seq<GridNode>) returns (overloaded: seq<nat>, underloaded: seq<nat>)
      requires Capacitated(nodes)
      ensures PositiveCapacities(Snapshot(nodes))
      ensures overloaded == OverloadedIdx(Snapshot(nodes), overloadThreshold, |nodes|)
      ensures underloaded == UnderloadedIdx(Snapshot(nodes), overloadThreshold, underloadThreshold, |nodes|)
    {
      ghost var g := Snapshot(nodes);
      overloaded, underloaded := [], [];
      for i := 0 to |nodes|
        invariant overloaded == OverloadedIdx(g, overloadThreshold, i)
        invariant underloaded == UnderloadedIdx(g, overloadThreshold, underloadThreshold, i)
      {
        ghost var s := g[i];
        assert nodes[i].State() == s;
        var utilization := nodes[i].UtilizationPercent();
        assert utilization == Utilization(s);
        ghost var isOver := IsOverloaded(s, overloadThreshold);
        ghost var isUnder := IsUnderloaded(s, overloadThreshold, underloadThreshold);
        assert OverloadedIdx(g, overloadThreshold, i + 1) == overloaded + (if isOver then [i] else []);
        assert UnderloadedIdx(g, overloadThreshold, underloadThreshold, i + 1) == underloaded + (if isUnder then [i] else []);
        if utilization > overloadThreshold {
          overloaded := overloaded + [i];
        } else if utilization < underloadThreshold && nodes[i].AvailableCapacity() > 0.0 {
          underloaded := underloaded + [i];
        }
      }
    }

    /**
     * The body of the outer loop for the donor at position o: its excess is read afresh,
     * and while excess remains it gives to each target in turn.
     */
    method Relieve(nodes: seq<GridNode>, o: nat, underloaded: seq<nat>) returns (moved: seq<OptimizationAction>)
      requires Distinct(nodes) && o < |nodes| && InRange(underloaded, |nodes|)
      modifies nodes
      ensures var g := old(Snapshot(nodes));
        var r := Outer(g, [o], underloaded, overloadThreshold);
        Snapshot(nodes) == r.grid && moved == r.actions
    {
      ghost var before := Snapshot(nodes);
      OuterSingle(before, o, underloaded, overloadThreshold);
      moved := [];
      var donor := nodes[o];
      assert donor.capacity == before[o].capacity && donor.currentLoad == before[o].load;
      var excessLoad := donor.currentLoad - donor.capacity * (overloadThreshold / 100.0);
      assert excessLoad == Excess(before[o], overloadThreshold);
      if excessLoad <= 0.0 {
        return;
      }
      ghost var whole := Inner(before, o, underloaded, excessLoad);
      ghost var g := before;
      assert underloaded[0..] == underloaded;
      var ui := 0;
      while ui < |underloaded| && excessLoad > 0.0
        invariant 0 <= ui <= |underloaded|
        invariant g == Snapshot(nodes)
        invariant Walked(whole, g, o, underloaded, ui, excessLoad, moved)
      {
        var u := underloaded[ui];
        assert g[u] == nodes[u].State();
        var availableCapacity := nodes[u].AvailableCapacity();
        if availableCapacity > 0.0 {
          var transferAmount := Min(excessLoad, availableCapacity * 0.5);
          ghost var g0, e0, moved0 := g, excessLoad, moved;
          var action := MoveLoad(nodes, o, u, transferAmount, excessLoad);
          moved := moved + [action];
          excessLoad := excessLoad - transferAmount;
          g := Snapshot(nodes);
          WalkTransfer(whole, g0, o, underloaded, ui, e0, moved0, g, excessLoad, moved);
        } else {
          WalkSkip(whole, g, o, underloaded, ui, excessLoad, moved);
        }
        ui := ui + 1;
      }
      WalkDone(whole, g, o, underloaded, ui, excessLoad, moved);
    }

    /** One transfer: the donor's load goes down, then the target's (read afresh) goes up. */
    method MoveLoad(nodes: seq<GridNode>, o: nat, u: nat, amount: real, ghost excess: real) returns (action: OptimizationAction)
      requires Distinct(nodes) && o < |nodes| && u < |nodes|
      requires excess > 0.0 && Available(nodes[u].State()) > 0.0
      requires amount == Min(excess, Available(nodes[u].State()) * 0.5)
      modifies nodes[o], nodes[u]
      ensures var t := Transfer(old(Snapshot(nodes)), o, u, excess);
        Snapshot(nodes) == t.grid && [action] == t.actions
      ensures action.amount == amount
    {
      ghost var cur := Snapshot(nodes);
      ghost var t := Transfer(cur, o, u, excess);
      var donor, target := nodes[o], nodes[u];
      donor.SetCurrentLoad(donor.currentLoad - amount);
      target.SetCurrentLoad(target.currentLoad + amount);
      action := OptimizationAction(donor.nodeId, target.nodeId, amount, LoadTransfer);
      forall i | 0 <= i < |nodes| ensures Snapshot(nodes)[i] == t.grid[i] {
        if i != o && i != u {
          assert nodes[i] != donor && nodes[i] != target;
        }
      }
    }

    /** The nodes above the overload threshold, in list order (a stream filter). */
    function DetectOverloadedNodes(nodes: seq<GridNode>): (r: seq<GridNode>)
      reads nodes
      requires Capacitated(nodes)
      ensures |r| <= |nodes|
      decreases |nodes|
    {
      if nodes == [] then []
      else
        var init := nodes[..|nodes| - 1];
        var last := nodes[|nodes| - 1];
        DetectOverloadedNodes(init) + (if last.IsOverloaded(overloadThreshold) then [last] else [])
    }

    /** The filter keeps the overloaded nodes of the list, and only those. */
    lemma {:induction false} DetectOverloadedExact(nodes: seq<GridNode>)
      requires Capacitated(nodes)
      ensures var r := DetectOverloadedNodes(nodes);
        (forall k :: 0 <= k < |r| ==> r[k] in nodes && r[k].IsOverloaded(overloadThreshold)) &&
        (forall i :: 0 <= i < |nodes| && nodes[i].IsOverloaded(overloadThreshold) ==> nodes[i] in r)
      decreases |nodes|
    {
      if nodes != [] {
        var init := nodes[..|nodes| - 1];
        DetectOverloadedExact(init);
        assert forall x :: x in init ==> x in nodes;
        forall i | 0 <= i < |nodes| - 1 ensures nodes[i] == init[i] {}
      }
    }

    /** The filter keeps exactly the nodes at the positions optimize classifies as overloaded. */
    lemma {:induction false} DetectMatchesClassification(nodes: seq<GridNode>, n: nat)
      requires Capacitated(nodes) && n <= |nodes|
      ensures PositiveCapacities(Snapshot(nodes))
      ensures DetectOverloadedNodes(nodes[..n]) == Pick(nodes, OverloadedIdx(Snapshot(nodes), overloadThreshold, n))
    {
      if n > 0 {
        DetectMatchesClassification(nodes, n - 1);
        DetectMatchesStep(nodes, n);
      }
    }

    /** One more node: the filter and the classification both append it exactly when it is overloaded. */
    lemma DetectMatchesStep(nodes: seq<GridNode>, n: nat)
      requires Capacitated(nodes) && 0 < n <= |nodes|
      requires PositiveCapacities(Snapshot(nodes))
      requires DetectOverloadedNodes(nodes[..n - 1]) == Pick(nodes, OverloadedIdx(Snapshot(nodes), overloadThreshold, n - 1))
      ensures DetectOverloadedNodes(nodes[..n]) == Pick(nodes, OverloadedIdx(Snapshot(nodes), overloadThreshold, n))
    {
      var g := Snapshot(nodes);
      var s := nodes[n - 1];
      var idx := OverloadedIdx(g, overloadThreshold, n - 1);
      assert nodes[..n][..n - 1] == nodes[..n - 1] && nodes[..n][n - 1] == s;
      UtilizationAbove(g[n - 1], overloadThreshold);
      if s.IsOverloaded(overloadThreshold) {
        assert IsOverloaded(g[n - 1], overloadThreshold);
        PickSnoc(nodes, idx, n - 1);
      } else {
        assert !IsOverloaded(g[n - 1], overloadThreshold);
        assert idx + [] == idx;
      }
    }
  }

  /**
   * The state of optimize's inner loop over the underloaded list: after the first i
   * positions, with grid g, remaining excess and the actions taken so far, the rest of
   * the walk completes the whole walk.
   */
  ghost predicate Walked(whole: Outcome, g: seq<NodeState>, o: nat, unders: seq<nat>, i: nat, excess: real,
                         taken: seq<OptimizationAction>)
  {
    o < |g| && InRange(unders, |g|) && i <= |unders| &&
    whole.grid == Inner(g, o, unders[i..], excess).grid &&
    whole.actions == taken + Inner(g, o, unders[i..], excess).actions
  }

  /** A target without headroom is passed over. */
  lemma WalkSkip(whole: Outcome, g: seq<NodeState>, o: nat, unders: seq<nat>, i: nat, excess: real,
                 taken: seq<OptimizationAction>)
    requires Walked(whole, g, o, unders, i, excess, taken) && i < |unders| && excess > 0.0
    requires Available(g[unders[i]]) <= 0.0
    ensures Walked(whole, g, o, unders, i + 1, excess, taken)
  {
    InnerAt(g, o, unders, i, excess);
  }

  /** A target with headroom receives one transfer, recorded after the actions taken so far. */
  lemma WalkTransfer(whole: Outcome, g: seq<NodeState>, o: nat, unders: seq<nat>, i: nat, excess: real,
                     taken: seq<OptimizationAction>, g': seq<NodeState>, excess': real, taken': seq<OptimizationAction>)
    requires Walked(whole, g, o, unders, i, excess, taken) && i < |unders| && excess > 0.0
    requires Available(g[unders[i]]) > 0.0
    requires var t := Transfer(g, o, unders[i], excess);
      g' == t.grid && excess' == excess - t.actions[0].amount && taken' == taken + t.actions
    ensures Walked(whole, g', o, unders, i + 1, excess', taken')
  {
    InnerAt(g, o, unders, i, excess);
    var t := Transfer(g, o, unders[i], excess);
    AppendAssoc(taken, t.actions, Inner(g', o, unders[i + 1..], excess').actions);
  }

  /** When the list or the excess runs out, the actions taken are the whole walk's. */
  lemma WalkDone(whole: Outcome, g: seq<NodeState>, o: nat, unders: seq<nat>, i: nat, excess: real,
                 taken: seq<OptimizationAction>)
    requires Walked(whole, g, o, unders, i, excess, taken) && (i == |unders| || excess <= 0.0)
    ensures whole == Outcome(g, taken)
  {
    InnerStep(g, o, unders[i..], excess);
    assert taken + [] == taken;
  }

  lemma PickSnoc(nodes: seq<GridNode>, idx: seq<nat>, i: nat)
    requires InRange(idx, |nodes|) && i < |nodes|
    ensures InRange(idx + [i], |nodes|) && Pick(nodes, idx + [i]) == Pick(nodes, idx) + [nodes[i]]
  {
    assert Pick(nodes, idx + [i])[..|idx|] == Pick(nodes, idx);
  }

  /** The nodes at the given positions, in that order. */
  function Pick(nodes: seq<GridNode>, idx: seq<nat>): (r: seq<GridNode>)
    requires InRange(idx, |nodes|)
    ensures |r| == |idx| && forall k :: 0 <= k < |idx| ==> r[k] == nodes[idx[k]]
  {
    seq(|idx|, k requires 0 <= k < |idx| => nodes[idx[k]])
  }
}
