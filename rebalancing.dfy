/**
 * The greedy rebalancing of the load balancer, as a function on node snapshots.
 * Positions into the node list stand for the nodes. A call classifies the nodes,
 * sorts the overloaded ones by utilization and the underloaded ones by available
 * capacity (once, before any transfer), then walks every overloaded node against the
 * underloaded list, moving min(excess, half the target's available capacity) per step.
 */
module Rebalancing {
  import opened Common
  import opened Nodes
  import opened StableSort

  const LoadTransfer: string := "LOAD_TRANSFER"

  datatype OptimizationAction = OptimizationAction(fromNodeId: string, toNodeId: string, amount: real, actionType: string)

  /** The grid after a run and the actions it recorded, in the order they were taken. */
  datatype Outcome = Outcome(grid: seq<NodeState>, actions: seq<OptimizationAction>)

  predicate PositiveCapacities(g: seq<NodeState>)
  {
    forall i :: 0 <= i < |g| ==> g[i].capacity > 0.0
  }

  /** Same nodes in the same places, with the same ids and capacities; only loads may differ. */
  predicate SameShape(g: seq<NodeState>, h: seq<NodeState>)
  {
    |g| == |h| && forall i :: 0 <= i < |g| ==> h[i].id == g[i].id && h[i].capacity == g[i].capacity
  }

  predicate Increasing(r: seq<nat>)
  {
    forall a, b :: 0 <= a < b < |r| ==> r[a] < r[b]
  }

  predicate IsOverloaded(s: NodeState, over: real)
    requires s.capacity > 0.0
    ensures IsOverloaded(s, over) <==> s.load > Floor(s, over)
  {
    UtilizationAbove(s, over);
    Utilization(s) > over
  }

  /** The else-if of the classification: not overloaded, below the lower threshold, with headroom. */
  predicate IsUnderloaded(s: NodeState, over: real, under: real)
    requires s.capacity > 0.0
    ensures IsUnderloaded(s, over, under) <==>
      s.load <= Floor(s, over) && s.load < s.capacity * (under / 100.0) && s.load < s.capacity
  {
    UtilizationBelow(s, under);
    !IsOverloaded(s, over) && Utilization(s) < under && Available(s) > 0.0
  }

  /** Positions among the first n whose node is overloaded, in input order. */
  function OverloadedIdx(g: seq<NodeState>, over: real, n: nat): (r: seq<nat>)
    requires n <= |g| && PositiveCapacities(g)
    ensures InRange(r, n) && Increasing(r)
    ensures forall i :: 0 <= i < n ==> (i in r <==> IsOverloaded(g[i], over))
  {
    if n == 0 then []
    else
      var r := OverloadedIdx(g, over, n - 1);
      r + (if IsOverloaded(g[n - 1], over) then [n - 1] else [])
  }

  /** Positions among the first n whose node is underloaded, in input order. */
  function UnderloadedIdx(g: seq<NodeState>, over: real, under: real, n: nat): (r: seq<nat>)
    requires n <= |g| && PositiveCapacities(g)
    ensures InRange(r, n) && Increasing(r)
    ensures forall i :: 0 <= i < n ==> (i in r <==> IsUnderloaded(g[i], over, under))
  {
    if n == 0 then []
    else
      var r := UnderloadedIdx(g, over, under, n - 1);
      r + (if IsUnderloaded(g[n - 1], over, under) then [n - 1] else [])
  }

  function UtilKeys(g: seq<NodeState>): (k: seq<real>)
    requires PositiveCapacities(g)
    ensures |k| == |g| && forall i :: 0 <= i < |g| ==> k[i] == Utilization(g[i])
  {
    seq(|g|, i requires 0 <= i < |g| => Utilization(g[i]))
  }

  function AvailKeys(g: seq<NodeState>): (k: seq<real>)
    ensures |k| == |g| && forall i :: 0 <= i < |g| ==> k[i] == Available(g[i])
  {
    seq(|g|, i requires 0 <= i < |g| => Available(g[i]))
  }

  /** Overloaded positions, most utilized first (stable for ties). */
  function OverloadedOrder(g: seq<NodeState>, over: real): (r: seq<nat>)
    requires PositiveCapacities(g)
    ensures InRange(r, |g|)
  {
    SortDesc(OverloadedIdx(g, over, |g|), UtilKeys(g))
  }

  /** Underloaded positions, most available capacity first (stable for ties). */
  function UnderloadedOrder(g: seq<NodeState>, over: real, under: real): (r: seq<nat>)
    requires PositiveCapacities(g)
    ensures InRange(r, |g|)
  {
    SortDesc(UnderloadedIdx(g, over, under, |g|), AvailKeys(g))
  }

  /** Load above capacity * over%, the most an overloaded node gives away in one call. */
  function Excess(s: NodeState, over: real): (e: real)
    ensures s.capacity > 0.0 ==> (e > 0.0 <==> IsOverloaded(s, over))
  {
    s.load - Floor(s, over)
  }

  /** capacity * over%, the load an overloaded node is brought down towards. */
  function Floor(s: NodeState, over: real): (f: real)
    ensures f * 100.0 == s.capacity * over
  {
    s.capacity * (over / 100.0)
  }

  lemma {:induction false} OverloadedHasExcess(s: NodeState, over: real)
    requires s.capacity > 0.0 && IsOverloaded(s, over)
    ensures Excess(s, over) > 0.0
  {
    UtilizationAbove(s, over);
  }

  /**
   * One transfer from o to u, with u's available capacity read fresh: the amount is
   * positive, at most the remaining excess and at most half of u's available capacity.
   */
  function Transfer(g: seq<NodeState>, o: nat, u: nat, excess: real): (r: Outcome)
    requires o < |g| && u < |g| && excess > 0.0 && Available(g[u]) > 0.0
    ensures |r.grid| == |g| && |r.actions| == 1
  {
    var amount := Min(excess, Available(g[u]) * 0.5);
    var g1 := g[o := g[o].(load := g[o].load - amount)];
    var g2 := g1[u := g1[u].(load := g1[u].load + amount)];
    Outcome(g2, [OptimizationAction(g[o].id, g[u].id, amount, LoadTransfer)])
  }

  /**
   * What one transfer records and moves: a positive LOAD_TRANSFER from o to u of at most
   * the excess and at most half of u's available capacity (and equal to one of the two),
   * taken off o and added to u.
   */
  lemma TransferFacts(g: seq<NodeState>, o: nat, u: nat, excess: real)
    requires o < |g| && u < |g| && excess > 0.0 && Available(g[u]) > 0.0
    ensures var r := Transfer(g, o, u, excess); var a := r.actions[0];
      a.fromNodeId == g[o].id && a.toNodeId == g[u].id && a.actionType == LoadTransfer &&
      0.0 < a.amount <= excess && a.amount <= Available(g[u]) / 2.0 &&
      (a.amount == excess || a.amount == Available(g[u]) / 2.0) &&
      (o != u ==> r.grid[o].load == g[o].load - a.amount && r.grid[u].load == g[u].load + a.amount)
  {
  }

  /** The inner walk: overloaded node o against the remaining underloaded positions. */
  function Inner(g: seq<NodeState>, o: nat, unders: seq<nat>, excess: real): (r: Outcome)
    requires o < |g| && InRange(unders, |g|)
    ensures |r.grid| == |g|
    decreases |unders|
  {
    if unders == [] || excess <= 0.0 then Outcome(g, [])
    else if Available(g[unders[0]]) <= 0.0 then Inner(g, o, unders[1..], excess)
    else
      var t := Transfer(g, o, unders[0], excess);
      var rest := Inner(t.grid, o, unders[1..], excess - t.actions[0].amount);
      Outcome(rest.grid, t.actions + rest.actions)
  }

  /** One step of the inner walk, as the loop over the underloaded list takes it. */
  lemma InnerStep(g: seq<NodeState>, o: nat, unders: seq<nat>, excess: real)
    requires o < |g| && InRange(unders, |g|)
    ensures unders == [] || excess <= 0.0 ==> Inner(g, o, unders, excess) == Outcome(g, [])
    ensures unders != [] && excess > 0.0 && Available(g[unders[0]]) <= 0.0 ==>
      Inner(g, o, unders, excess) == Inner(g, o, unders[1..], excess)
    ensures unders != [] && excess > 0.0 && Available(g[unders[0]]) > 0.0 ==>
      var t := Transfer(g, o, unders[0], excess);
      var rest := Inner(t.grid, o, unders[1..], excess - t.actions[0].amount);
      Inner(g, o, unders, excess) == Outcome(rest.grid, t.actions + rest.actions)
  {
  }

  /** InnerStep at position i of the underloaded list, as a loop index walks it. */
  lemma InnerAt(g: seq<NodeState>, o: nat, unders: seq<nat>, i: nat, excess: real)
    requires o < |g| && InRange(unders, |g|) && i < |unders| && excess > 0.0
    ensures Available(g[unders[i]]) <= 0.0 ==>
      Inner(g, o, unders[i..], excess) == Inner(g, o, unders[i + 1..], excess)
    ensures Available(g[unders[i]]) > 0.0 ==>
      var t := Transfer(g, o, unders[i], excess);
      var rest := Inner(t.grid, o, unders[i + 1..], excess - t.actions[0].amount);
      Inner(g, o, unders[i..], excess) == Outcome(rest.grid, t.actions + rest.actions)
  {
    assert unders[i..][0] == unders[i] && unders[i..][1..] == unders[i + 1..];
    InnerStep(g, o, unders[i..], excess);
  }

  /** The outer walk over the overloaded positions, each with its own fresh excess. */
  function Outer(g: seq<NodeState>, overs: seq<nat>, unders: seq<nat>, over: real): (r: Outcome)
    requires InRange(overs, |g|) && InRange(unders, |g|)
    ensures |r.grid| == |g|
    decreases |overs|
  {
    if overs == [] then Outcome(g, [])
    else
      var o := overs[0];
      var e := Excess(g[o], over);
      if e <= 0.0 then Outer(g, overs[1..], unders, over)
      else
        var first := Inner(g, o, unders, e);
        var rest := Outer(first.grid, overs[1..], unders, over);
        Outcome(rest.grid, first.actions + rest.actions)
  }

  /** The outer walk for a single donor is its inner walk with its excess, if it has any. */
  lemma OuterSingle(g: seq<NodeState>, o: nat, unders: seq<nat>, over: real)
    requires o < |g| && InRange(unders, |g|)
    ensures Excess(g[o], over) <= 0.0 ==> Outer(g, [o], unders, over) == Outcome(g, [])
    ensures Excess(g[o], over) > 0.0 ==> Outer(g, [o], unders, over) == Inner(g, o, unders, Excess(g[o], over))
  {
    assert [o][1..] == [];
    var inner := Inner(g, o, unders, Excess(g[o], over));
    assert inner.actions + [] == inner.actions;
  }

  /** One optimize call on the grid g with the two thresholds (percentages). */
  function Rebalance(g: seq<NodeState>, over: real, under: real): (r: Outcome)
    requires PositiveCapacities(g)
    ensures |r.grid| == |g|
  {
    if OverloadedIdx(g, over, |g|) == [] then Outcome(g, [])
    else Outer(g, OverloadedOrder(g, over), UnderloadedOrder(g, over, under), over)
  }

  /** The outer walk is the walk for its first donor followed by the walk for the rest. */
  lemma {:induction false} OuterStep(g: seq<NodeState>, overs: seq<nat>, unders: seq<nat>, over: real)
    requires InRange(overs, |g|) && InRange(unders, |g|) && overs != []
    ensures var first := Outer(g, [overs[0]], unders, over);
      var rest := Outer(first.grid, overs[1..], unders, over);
      Outer(g, overs, unders, over) == Outcome(rest.grid, first.actions + rest.actions)
  {
    var o := overs[0];
    var e := Excess(g[o], over);
    assert [o][1..] == [];
    if e > 0.0 {
      var inner := Inner(g, o, unders, e);
      assert Outer(g, [o], unders, over) == Outcome(inner.grid, inner.actions + []);
      assert inner.actions + [] == inner.actions;
    }
  }

  // ---------------------------------------------------------------------------
  // What a run changes: loads only, and only at the positions it walks

  /** A transfer changes only the loads of the donor and the target. */
  lemma TransferFrame(g: seq<NodeState>, o: nat, u: nat, excess: real)
    requires o < |g| && u < |g| && excess > 0.0 && Available(g[u]) > 0.0
    ensures var h := Transfer(g, o, u, excess).grid;
      SameShape(g, h) && forall i :: 0 <= i < |g| && i != o && i != u ==> h[i] == g[i]
  {
  }

  /** The inner walk changes only loads, and only of the donor and the listed targets. */
  lemma {:induction false} InnerFrame(g: seq<NodeState>, o: nat, unders: seq<nat>, excess: real)
    requires o < |g| && InRange(unders, |g|)
    ensures var h := Inner(g, o, unders, excess).grid;
      SameShape(g, h) && forall i :: 0 <= i < |g| && i != o && i !in unders ==> h[i] == g[i]
    decreases |unders|
  {
    InnerStep(g, o, unders, excess);
    if unders != [] && excess > 0.0 {
      TailMembers(unders);
      if Available(g[unders[0]]) <= 0.0 {
        var h := Inner(g, o, unders[1..], excess).grid;
        InnerFrame(g, o, unders[1..], excess);
        FrameWiden(g, h, o, unders);
        assert Inner(g, o, unders, excess).grid == h;
      } else {
        var t := Transfer(g, o, unders[0], excess);
        var rest := Inner(t.grid, o, unders[1..], excess - t.actions[0].amount);
        InnerFrame(t.grid, o, unders[1..], excess - t.actions[0].amount);
        InnerFrameStep(g, o, unders, excess, t.grid, rest.grid);
        assert Inner(g, o, unders, excess).grid == rest.grid;
      }
    }
  }

  /** A frame that holds outside o and the tail of unders also holds outside o and unders. */
  lemma FrameWiden(g: seq<NodeState>, h: seq<NodeState>, o: nat, unders: seq<nat>)
    requires unders != [] && |h| == |g|
    requires forall i :: 0 <= i < |g| && i != o && i !in unders[1..] ==> h[i] == g[i]
    ensures forall i :: 0 <= i < |g| && i != o && i !in unders ==> h[i] == g[i]
  {
    TailMembers(unders);
  }

  /** The transfer case of InnerFrame: a transfer to unders[0], then the rest of the walk. */
  lemma InnerFrameStep(g: seq<NodeState>, o: nat, unders: seq<nat>, excess: real, mid: seq<NodeState>, h: seq<NodeState>)
    requires o < |g| && InRange(unders, |g|) && unders != [] && excess > 0.0 && Available(g[unders[0]]) > 0.0
    requires mid == Transfer(g, o, unders[0], excess).grid
    requires SameShape(mid, h) && forall i :: 0 <= i < |mid| && i != o && i !in unders[1..] ==> h[i] == mid[i]
    ensures SameShape(g, h) && forall i :: 0 <= i < |g| && i != o && i !in unders ==> h[i] == g[i]
  {
    TransferFrame(g, o, unders[0], excess);
    TailMembers(unders);
  }

  /** The outer walk changes only loads, and only of the listed donors and targets. */
  lemma {:induction false} OuterFrame(g: seq<NodeState>, overs: seq<nat>, unders: seq<nat>, over: real)
    requires InRange(overs, |g|) && InRange(unders, |g|)
    ensures var h := Outer(g, overs, unders, over).grid;
      SameShape(g, h) && forall i :: 0 <= i < |g| && i !in overs && i !in unders ==> h[i] == g[i]
    decreases |overs|
  {
    if overs != [] {
      var o := overs[0];
      var e := Excess(g[o], over);
      if e <= 0.0 {
        OuterFrame(g, overs[1..], unders, over);
      } else {
        var first := Inner(g, o, unders, e);
        InnerFrame(g, o, unders, e);
        OuterFrame(first.grid, overs[1..], unders, over);
      }
    }
  }

  /** An optimize call keeps every node's id and capacity in place. */
  lemma RebalanceShape(g: seq<NodeState>, over: real, under: real)
    requires PositiveCapacities(g)
    ensures SameShape(g, Rebalance(g, over, under).grid)
  {
    if OverloadedIdx(g, over, |g|) != [] {
      OuterFrame(g, OverloadedOrder(g, over), UnderloadedOrder(g, over, under), over);
    }
  }

  // ---------------------------------------------------------------------------
  // The two sorted lists

  lemma {:induction false} IncreasingIsDistinct(r: seq<nat>)
    requires Increasing(r)
    ensures Distinct(r)
  {
  }

  /** The sorted lists hold exactly the classified positions, once each, and never share one. */
  lemma {:induction false} OrdersClassify(g: seq<NodeState>, over: real, under: real)
    requires PositiveCapacities(g)
    ensures Distinct(OverloadedOrder(g, over)) && Distinct(UnderloadedOrder(g, over, under))
    ensures forall i :: 0 <= i < |g| ==> (i in OverloadedOrder(g, over) <==> IsOverloaded(g[i], over))
    ensures forall i :: 0 <= i < |g| ==> (i in UnderloadedOrder(g, over, under) <==> IsUnderloaded(g[i], over, under))
    ensures forall i :: i in OverloadedOrder(g, over) ==> i !in UnderloadedOrder(g, over, under)
  {
    var oi, ui := OverloadedIdx(g, over, |g|), UnderloadedIdx(g, over, under, |g|);
    var os, us := OverloadedOrder(g, over), UnderloadedOrder(g, over, under);
    IncreasingIsDistinct(oi);
    IncreasingIsDistinct(ui);
    SortDescDistinct(oi, UtilKeys(g));
    SortDescDistinct(ui, AvailKeys(g));
    SortDescPermutes(oi, UtilKeys(g));
    SortDescPermutes(ui, AvailKeys(g));
    MultisetMembership(os, oi);
    MultisetMembership(us, ui);
    forall i | i in os ensures i !in us {
      assert i in oi;
      assert i < |g|;
    }
  }

  /** The overloaded list is in non-increasing utilization, the underloaded one in non-increasing
      available capacity, and each keeps the input order among equal keys. */
  lemma {:induction false} OrdersSortedAndStable(g: seq<NodeState>, over: real, under: real, c: real)
    requires PositiveCapacities(g)
    ensures SortedDesc(OverloadedOrder(g, over), UtilKeys(g))
    ensures SortedDesc(UnderloadedOrder(g, over, under), AvailKeys(g))
    ensures WithKey(OverloadedOrder(g, over), UtilKeys(g), c) == WithKey(OverloadedIdx(g, over, |g|), UtilKeys(g), c)
    ensures WithKey(UnderloadedOrder(g, over, under), AvailKeys(g), c)
         == WithKey(UnderloadedIdx(g, over, under, |g|), AvailKeys(g), c)
  {
    SortDescSorted(OverloadedIdx(g, over, |g|), UtilKeys(g));
    SortDescSorted(UnderloadedIdx(g, over, under, |g|), AvailKeys(g));
    SortDescStable(OverloadedIdx(g, over, |g|), UtilKeys(g), c);
    SortDescStable(UnderloadedIdx(g, over, under, |g|), AvailKeys(g), c);
  }

  // ---------------------------------------------------------------------------
  // Nothing happens without an overloaded node

  /** With no node above the overload threshold there is no action and no change. */
  lemma {:induction false} NoOverloadNoChange(g: seq<NodeState>, over: real, under: real)
    requires PositiveCapacities(g)
    requires forall i :: 0 <= i < |g| ==> !IsOverloaded(g[i], over)
    ensures Rebalance(g, over, under) == Outcome(g, [])
  {
  }

  /** Nodes neither overloaded nor underloaded keep their load. */
  lemma {:induction false} UnclassifiedUnchanged(g: seq<NodeState>, over: real, under: real, i: nat)
    requires PositiveCapacities(g) && i < |g|
    requires !IsOverloaded(g[i], over) && !IsUnderloaded(g[i], over, under)
    ensures Rebalance(g, over, under).grid[i] == g[i]
  {
    OrdersClassify(g, over, under);
    if OverloadedIdx(g, over, |g|) != [] {
      OuterFrame(g, OverloadedOrder(g, over), UnderloadedOrder(g, over, under), over);
    }
  }

  // ---------------------------------------------------------------------------
  // Actions

  predicate WellFormedActions(acts: seq<OptimizationAction>)
  {
    forall k :: 0 <= k < |acts| ==> acts[k].amount > 0.0 && acts[k].actionType == LoadTransfer
  }

  /** Every action moves load out of the node with the given id. */
  predicate FromNode(acts: seq<OptimizationAction>, id: string)
  {
    forall k :: 0 <= k < |acts| ==> acts[k].fromNodeId == id
  }

  lemma {:induction false} ActionsConcat(a: seq<OptimizationAction>, b: seq<OptimizationAction>, id: string)
    requires WellFormedActions(a) && WellFormedActions(b) && FromNode(a, id) && FromNode(b, id)
    ensures WellFormedActions(a + b) && FromNode(a + b, id)
  {
    forall k | |a| <= k < |a + b| ensures (a + b)[k] == b[k - |a|] {
    }
  }

  lemma {:induction false} InnerActions(g: seq<NodeState>, o: nat, unders: seq<nat>, excess: real)
    requires o < |g| && InRange(unders, |g|)
    ensures var acts := Inner(g, o, unders, excess).actions;
      WellFormedActions(acts) && |acts| <= |unders| && FromNode(acts, g[o].id)
    decreases |unders|
  {
    if unders == [] || excess <= 0.0 {
    } else if Available(g[unders[0]]) <= 0.0 {
      InnerActions(g, o, unders[1..], excess);
    } else {
      var t := Transfer(g, o, unders[0], excess);
      InnerActions(t.grid, o, unders[1..], excess - t.actions[0].amount);
      InnerActionsStep(g, o, unders, excess);
    }
  }

  /** The transfer case of InnerActions, given the fact for the rest of the walk. */
  lemma {:induction false} InnerActionsStep(g: seq<NodeState>, o: nat, unders: seq<nat>, excess: real)
    requires o < |g| && InRange(unders, |g|) && unders != [] && excess > 0.0 && Available(g[unders[0]]) > 0.0
    requires var t := Transfer(g, o, unders[0], excess);
      var acts := Inner(t.grid, o, unders[1..], excess - t.actions[0].amount).actions;
      WellFormedActions(acts) && |acts| <= |unders| - 1 && FromNode(acts, t.grid[o].id)
    ensures var acts := Inner(g, o, unders, excess).actions;
      WellFormedActions(acts) && |acts| <= |unders| && FromNode(acts, g[o].id)
  {
    var t := Transfer(g, o, unders[0], excess);
    var rest := Inner(t.grid, o, unders[1..], excess - t.actions[0].amount);
    assert Inner(g, o, unders, excess).actions == t.actions + rest.actions;
    ActionsConcat(t.actions, rest.actions, g[o].id);
  }

  lemma {:induction false} MulStep(a: nat, b: nat)
    requires a >= 1
    ensures b + (a - 1) * b == a * b
  {
  }

  lemma {:induction false} OuterActions(g: seq<NodeState>, overs: seq<nat>, unders: seq<nat>, over: real)
    requires InRange(overs, |g|) && InRange(unders, |g|)
    ensures var acts := Outer(g, overs, unders, over).actions;
      WellFormedActions(acts) && |acts| <= |overs| * |unders|
    decreases |overs|
  {
    if overs != [] {
      var o := overs[0];
      var e := Excess(g[o], over);
      MulStep(|overs|, |unders|);
      if e <= 0.0 {
        OuterActions(g, overs[1..], unders, over);
      } else {
        var first := Inner(g, o, unders, e);
        InnerActions(g, o, unders, e);
        OuterActions(first.grid, overs[1..], unders, over);
      }
    }
  }

  /** Every action is a positive LOAD_TRANSFER, and there are at most |overloaded| * |underloaded|. */
  lemma {:induction false} ActionsBounded(g: seq<NodeState>, over: real, under: real)
    requires PositiveCapacities(g)
    ensures WellFormedActions(Rebalance(g, over, under).actions)
    ensures |Rebalance(g, over, under).actions|
         <= |OverloadedIdx(g, over, |g|)| * |UnderloadedIdx(g, over, under, |g|)|
  {
    if OverloadedIdx(g, over, |g|) != [] {
      OuterActions(g, OverloadedOrder(g, over), UnderloadedOrder(g, over, under), over);
    }
  }

  // ---------------------------------------------------------------------------
  // Conservation of the total load

  function TotalLoad(g: seq<NodeState>): real
  {
    if g == [] then 0.0 else g[0].load + TotalLoad(g[1..])
  }

  lemma {:induction false} TotalLoadSet(g: seq<NodeState>, i: nat, v: real)
    requires i < |g|
    ensures TotalLoad(g[i := g[i].(load := v)]) == TotalLoad(g) - g[i].load + v
  {
    var h := g[i := g[i].(load := v)];
    if i == 0 {
      assert h[1..] == g[1..];
    } else {
      assert h[1..] == g[1..][i - 1 := g[i].(load := v)];
      TotalLoadSet(g[1..], i - 1, v);
    }
  }

  lemma {:induction false} TransferConserves(g: seq<NodeState>, o: nat, u: nat, excess: real)
    requires o < |g| && u < |g| && excess > 0.0 && Available(g[u]) > 0.0
    ensures TotalLoad(Transfer(g, o, u, excess).grid) == TotalLoad(g)
  {
    var amount := Min(excess, Available(g[u]) * 0.5);
    var g1 := g[o := g[o].(load := g[o].load - amount)];
    var g2 := g1[u := g1[u].(load := g1[u].load + amount)];
    assert Transfer(g, o, u, excess).grid == g2;
    TotalLoadSet(g, o, g[o].load - amount);
    assert TotalLoad(g1) == TotalLoad(g) - amount;
    TotalLoadSet(g1, u, g1[u].load + amount);
    assert TotalLoad(g2) == TotalLoad(g1) + amount;
  }

  lemma {:induction false} InnerConserves(g: seq<NodeState>, o: nat, unders: seq<nat>, excess: real)
    requires o < |g| && InRange(unders, |g|)
    ensures TotalLoad(Inner(g, o, unders, excess).grid) == TotalLoad(g)
    decreases |unders|
  {
    if unders == [] || excess <= 0.0 {
    } else if Available(g[unders[0]]) <= 0.0 {
      InnerConserves(g, o, unders[1..], excess);
    } else {
      var t := Transfer(g, o, unders[0], excess);
      assert Inner(g, o, unders, excess).grid == Inner(t.grid, o, unders[1..], excess - t.actions[0].amount).grid;
      TransferConserves(g, o, unders[0], excess);
      InnerConserves(t.grid, o, unders[1..], excess - t.actions[0].amount);
    }
  }

  lemma {:induction false} OuterConserves(g: seq<NodeState>, overs: seq<nat>, unders: seq<nat>, over: real)
    requires InRange(overs, |g|) && InRange(unders, |g|)
    ensures TotalLoad(Outer(g, overs, unders, over).grid) == TotalLoad(g)
    decreases |overs|
  {
    if overs != [] {
      var o := overs[0];
      var e := Excess(g[o], over);
      if e <= 0.0 {
        OuterConserves(g, overs[1..], unders, over);
      } else {
        var first := Inner(g, o, unders, e);
        InnerConserves(g, o, unders, e);
        OuterConserves(first.grid, overs[1..], unders, over);
      }
    }
  }

  /** An optimize call moves load between nodes and never creates or destroys any. */
  lemma {:induction false} RebalanceConservesLoad(g: seq<NodeState>, over: real, under: real)
    requires PositiveCapacities(g)
    ensures TotalLoad(Rebalance(g, over, under).grid) == TotalLoad(g)
  {
    if OverloadedIdx(g, over, |g|) != [] {
      OuterConserves(g, OverloadedOrder(g, over), UnderloadedOrder(g, over, under), over);
    }
  }

  // ---------------------------------------------------------------------------
  // Bounds on the loads of donors and targets

  lemma {:induction false} InnerDonorBounds(g: seq<NodeState>, o: nat, unders: seq<nat>, excess: real)
    requires o < |g| && InRange(unders, |g|) && o !in unders && excess >= 0.0
    ensures g[o].load - excess <= Inner(g, o, unders, excess).grid[o].load <= g[o].load
    decreases |unders|
  {
    if unders == [] || excess <= 0.0 {
    } else if Available(g[unders[0]]) <= 0.0 {
      InnerDonorBounds(g, o, unders[1..], excess);
    } else {
      var t := Transfer(g, o, unders[0], excess);
      InnerDonorBounds(t.grid, o, unders[1..], excess - t.actions[0].amount);
    }
  }

  lemma {:induction false} OuterDonorBound(g: seq<NodeState>, overs: seq<nat>, unders: seq<nat>, over: real, x: nat)
    requires InRange(overs, |g|) && InRange(unders, |g|) && Distinct(overs) && x in overs
    requires forall i :: i in overs ==> i !in unders
    ensures x < |g|
    ensures Min(g[x].load, Floor(g[x], over)) <= Outer(g, overs, unders, over).grid[x].load <= g[x].load
    decreases |overs|
  {
    var o := overs[0];
    var e := Excess(g[o], over);
    var tail := overs[1..];
    DistinctTail(overs);
    assert forall i :: i in tail ==> i in overs;
    var first := if e <= 0.0 then Outcome(g, []) else Inner(g, o, unders, e);
    var h := Outer(first.grid, tail, unders, over).grid;
    assert Outer(g, overs, unders, over).grid == h;
    if e > 0.0 {
      InnerFrame(g, o, unders, e);
    }
    if x == o {
      assert x !in unders;
      OuterFrame(first.grid, tail, unders, over);
      assert h[x] == first.grid[x];
      if e > 0.0 {
        InnerDonorBounds(g, o, unders, e);
      }
    } else {
      assert x in tail;
      assert first.grid[x] == g[x];
      OuterDonorBound(first.grid, tail, unders, over, x);
    }
  }

  /** An overloaded node gives away at most its excess: it ends between capacity * over% and its
      starting load. */
  lemma {:induction false} DonorsKeepFloor(g: seq<NodeState>, over: real, under: real, i: nat)
    requires PositiveCapacities(g) && i < |g| && IsOverloaded(g[i], over)
    ensures g[i].capacity * (over / 100.0) <= Rebalance(g, over, under).grid[i].load <= g[i].load
  {
    var os, us := OverloadedOrder(g, over), UnderloadedOrder(g, over, under);
    OrdersClassify(g, over, under);
    OverloadedHasExcess(g[i], over);
    assert Min(g[i].load, Floor(g[i], over)) == Floor(g[i], over);
    assert OverloadedIdx(g, over, |g|) != [] by {
      assert i in OverloadedIdx(g, over, |g|);
    }
    OuterDonorBound(g, os, us, over, i);
  }

  /** Below capacity stays below capacity. */
  predicate BelowCapacityKept(g: seq<NodeState>, h: seq<NodeState>)
    requires |h| == |g|
  {
    forall i :: 0 <= i < |g| && g[i].load < g[i].capacity ==> h[i].load < h[i].capacity
  }

  lemma {:induction false} TransferBelowCapacity(g: seq<NodeState>, o: nat, u: nat, excess: real)
    requires o < |g| && u < |g| && excess > 0.0 && Available(g[u]) > 0.0
    ensures BelowCapacityKept(g, Transfer(g, o, u, excess).grid)
  {
  }

  lemma {:induction false} InnerBelowCapacity(g: seq<NodeState>, o: nat, unders: seq<nat>, excess: real)
    requires o < |g| && InRange(unders, |g|)
    ensures BelowCapacityKept(g, Inner(g, o, unders, excess).grid)
    decreases |unders|
  {
    if unders == [] || excess <= 0.0 {
    } else if Available(g[unders[0]]) <= 0.0 {
      InnerBelowCapacity(g, o, unders[1..], excess);
    } else {
      var t := Transfer(g, o, unders[0], excess);
      TransferBelowCapacity(g, o, unders[0], excess);
      InnerBelowCapacity(t.grid, o, unders[1..], excess - t.actions[0].amount);
    }
  }

  lemma {:induction false} OuterBelowCapacity(g: seq<NodeState>, overs: seq<nat>, unders: seq<nat>, over: real)
    requires InRange(overs, |g|) && InRange(unders, |g|)
    ensures BelowCapacityKept(g, Outer(g, overs, unders, over).grid)
    decreases |overs|
  {
    if overs != [] {
      var o := overs[0];
      var e := Excess(g[o], over);
      if e <= 0.0 {
        OuterBelowCapacity(g, overs[1..], unders, over);
      } else {
        var first := Inner(g, o, unders, e);
        InnerBelowCapacity(g, o, unders, e);
        OuterBelowCapacity(first.grid, overs[1..], unders, over);
      }
    }
  }

  /** A target starts with headroom and receives at most half of it per step, so it stays strictly
      below its capacity. */
  lemma {:induction false} TargetsStayBelowCapacity(g: seq<NodeState>, over: real, under: real)
    requires PositiveCapacities(g)
    ensures forall i :: 0 <= i < |g| && IsUnderloaded(g[i], over, under) ==>
      Rebalance(g, over, under).grid[i].load < g[i].capacity
  {
    RebalanceShape(g, over, under);
    if OverloadedIdx(g, over, |g|) != [] {
      OuterBelowCapacity(g, OverloadedOrder(g, over), UnderloadedOrder(g, over, under), over);
    }
  }

  // ---------------------------------------------------------------------------
  // When there are actions at all

  lemma {:induction false} OuterWithoutTargets(g: seq<NodeState>, overs: seq<nat>, over: real)
    requires InRange(overs, |g|)
    ensures Outer(g, overs, [], over).actions == []
    decreases |overs|
  {
    if overs != [] {
      var o := overs[0];
      var e := Excess(g[o], over);
      var first := if e <= 0.0 then Outcome(g, []) else Inner(g, o, [], e);
      OuterWithoutTargets(first.grid, overs[1..], over);
    }
  }

  /** optimize records an action exactly when there is an overloaded and an underloaded node. */
  lemma {:induction false} ActionsEmptyIff(g: seq<NodeState>, over: real, under: real)
    requires PositiveCapacities(g)
    ensures Rebalance(g, over, under).actions == [] <==>
      OverloadedIdx(g, over, |g|) == [] || UnderloadedIdx(g, over, under, |g|) == []
  {
    var os, us := OverloadedOrder(g, over), UnderloadedOrder(g, over, under);
    if OverloadedIdx(g, over, |g|) != [] {
      OrdersClassify(g, over, under);
      if UnderloadedIdx(g, over, under, |g|) == [] {
        assert us == [];
        OuterWithoutTargets(g, os, over);
      } else {
        assert os[0] in os && us[0] in us;
        OverloadedHasExcess(g[os[0]], over);
        FirstPairTransfers(g, os, us, over);
      }
    }
  }

  /** The first donor has excess and the first target headroom, so their pair moves load. */
  lemma {:induction false} FirstPairTransfers(g: seq<NodeState>, overs: seq<nat>, unders: seq<nat>, over: real)
    requires InRange(overs, |g|) && InRange(unders, |g|) && overs != [] && unders != []
    requires Excess(g[overs[0]], over) > 0.0 && Available(g[unders[0]]) > 0.0
    ensures Outer(g, overs, unders, over).actions != []
  {
    var o, u := overs[0], unders[0];
    var e := Excess(g[o], over);
    var t := Transfer(g, o, u, e);
    var first := Inner(g, o, unders, e);
    assert first.actions == t.actions + Inner(t.grid, o, unders[1..], e - t.actions[0].amount).actions;
    assert Outer(g, overs, unders, over).actions == first.actions + Outer(first.grid, overs[1..], unders, over).actions;
  }

  // ---------------------------------------------------------------------------
  // Order of the actions

  /** a can be obtained from b by deleting elements. */
  predicate IsSubsequence<T(==)>(a: seq<T>, b: seq<T>)
    decreases |b|
  {
    if b == [] then a == []
    else (a != [] && a[0] == b[0] && IsSubsequence(a[1..], b[1..])) || IsSubsequence(a, b[1..])
  }

  lemma {:induction false} EmptySubsequence<T>(b: seq<T>)
    ensures IsSubsequence([], b)
    decreases |b|
  {
    if b != [] {
      EmptySubsequence(b[1..]);
    }
  }

  lemma {:induction false} SubsequenceExtendLeft<T>(a: seq<T>, c: seq<T>, b: seq<T>)
    requires IsSubsequence(a, b)
    ensures IsSubsequence(a, c + b)
    decreases |c|
  {
    if c == [] {
      assert c + b == b;
    } else {
      assert (c + b)[1..] == c[1..] + b;
      SubsequenceExtendLeft(a, c[1..], b);
    }
  }

  lemma {:induction false} SubsequenceConcat<T>(a1: seq<T>, b1: seq<T>, a2: seq<T>, b2: seq<T>)
    requires IsSubsequence(a1, b1) && IsSubsequence(a2, b2)
    ensures IsSubsequence(a1 + a2, b1 + b2)
    decreases |b1|
  {
    if b1 == [] {
      assert a1 + a2 == a2 && b1 + b2 == b2;
    } else {
      assert (b1 + b2)[0] == b1[0] && (b1 + b2)[1..] == b1[1..] + b2;
      if a1 != [] && a1[0] == b1[0] && IsSubsequence(a1[1..], b1[1..]) {
        SubsequenceConcat(a1[1..], b1[1..], a2, b2);
        assert (a1 + a2)[0] == a1[0] && (a1 + a2)[1..] == a1[1..] + a2;
      } else {
        SubsequenceConcat(a1, b1[1..], a2, b2);
      }
    }
  }

  /** The (from, to) id pairs of a list of actions. */
  function Route(acts: seq<OptimizationAction>): (r: seq<(string, string)>)
    ensures |r| == |acts|
    ensures forall k :: 0 <= k < |acts| ==> r[k] == (acts[k].fromNodeId, acts[k].toNodeId)
  {
    seq(|acts|, k requires 0 <= k < |acts| => (acts[k].fromNodeId, acts[k].toNodeId))
  }

  /** The pairs of donor o with every target in unders, in list order. */
  function Row(g: seq<NodeState>, o: nat, unders: seq<nat>): (r: seq<(string, string)>)
    requires o < |g| && InRange(unders, |g|)
    ensures |r| == |unders|
    ensures forall k :: 0 <= k < |unders| ==> r[k] == (g[o].id, g[unders[k]].id)
  {
    seq(|unders|, k requires 0 <= k < |unders| => (g[o].id, g[unders[k]].id))
  }

  /** All (donor, target) pairs, donor-major: the order the two nested loops visit them. */
  function Product(g: seq<NodeState>, overs: seq<nat>, unders: seq<nat>): (r: seq<(string, string)>)
    requires InRange(overs, |g|) && InRange(unders, |g|)
    ensures |r| == |overs| * |unders|
    decreases |overs|
  {
    if overs == [] then []
    else
      MulStep(|overs|, |unders|);
      Row(g, overs[0], unders) + Product(g, overs[1..], unders)
  }

  lemma {:induction false} ProductSameShape(g: seq<NodeState>, h: seq<NodeState>, overs: seq<nat>, unders: seq<nat>)
    requires SameShape(g, h) && InRange(overs, |g|) && InRange(unders, |g|)
    ensures Product(g, overs, unders) == Product(h, overs, unders)
    decreases |overs|
  {
    if overs != [] {
      assert Row(g, overs[0], unders) == Row(h, overs[0], unders);
      ProductSameShape(g, h, overs[1..], unders);
    }
  }

  lemma {:induction false} InnerRoute(g: seq<NodeState>, o: nat, unders: seq<nat>, excess: real)
    requires o < |g| && InRange(unders, |g|)
    ensures IsSubsequence(Route(Inner(g, o, unders, excess).actions), Row(g, o, unders))
    decreases |unders|
  {
    var row := Row(g, o, unders);
    if unders == [] || excess <= 0.0 {
      assert Route(Inner(g, o, unders, excess).actions) == [];
      EmptySubsequence(row);
    } else {
      assert row[1..] == Row(g, o, unders[1..]);
      if Available(g[unders[0]]) <= 0.0 {
        InnerRoute(g, o, unders[1..], excess);
      } else {
        var t := Transfer(g, o, unders[0], excess);
        var rest := Inner(t.grid, o, unders[1..], excess - t.actions[0].amount);
        InnerRoute(t.grid, o, unders[1..], excess - t.actions[0].amount);
        assert Row(t.grid, o, unders[1..]) == row[1..];
        var r := Route(t.actions + rest.actions);
        assert r[0] == row[0] && r[1..] == Route(rest.actions);
      }
    }
  }

  lemma {:induction false} RouteConcat(a: seq<OptimizationAction>, b: seq<OptimizationAction>)
    ensures Route(a + b) == Route(a) + Route(b)
  {
  }

  lemma {:induction false} OuterRoute(g: seq<NodeState>, overs: seq<nat>, unders: seq<nat>, over: real)
    requires InRange(overs, |g|) && InRange(unders, |g|)
    ensures IsSubsequence(Route(Outer(g, overs, unders, over).actions), Product(g, overs, unders))
    decreases |overs|
  {
    if overs == [] {
      assert Route(Outer(g, overs, unders, over).actions) == [];
    } else {
      var o := overs[0];
      var e := Excess(g[o], over);
      var first := if e <= 0.0 then Outcome(g, []) else Inner(g, o, unders, e);
      var rest := Outer(first.grid, overs[1..], unders, over);
      var row := Row(g, o, unders);
      var tail := Product(g, overs[1..], unders);
      assert Product(g, overs, unders) == row + tail;
      assert Outer(g, overs, unders, over).actions == first.actions + rest.actions;
      if e <= 0.0 {
        EmptySubsequence(row);
      } else {
        InnerRoute(g, o, unders, e);
        InnerFrame(g, o, unders, e);
      }
      OuterRoute(first.grid, overs[1..], unders, over);
      ProductSameShape(g, first.grid, overs[1..], unders);
      RouteConcat(first.actions, rest.actions);
      SubsequenceConcat(Route(first.actions), row, Route(rest.actions), tail);
    }
  }

  /**
   * The actions come in the order of the nested loops: donors by descending utilization,
   * and for each donor the targets by descending available capacity (both sorted once).
   */
  lemma {:induction false} ActionsFollowSortedOrder(g: seq<NodeState>, over: real, under: real)
    requires PositiveCapacities(g)
    ensures IsSubsequence(Route(Rebalance(g, over, under).actions),
                          Product(g, OverloadedOrder(g, over), UnderloadedOrder(g, over, under)))
  {
    var os, us := OverloadedOrder(g, over), UnderloadedOrder(g, over, under);
    if OverloadedIdx(g, over, |g|) == [] {
      assert Route(Rebalance(g, over, under).actions) == [];
      EmptySubsequence(Product(g, os, us));
    } else {
      OuterRoute(g, os, us, over);
    }
  }

  // ---------------------------------------------------------------------------
  // A worked case

  /**
   * Thresholds 85 % and 40 %: node A (load 90 of 100) is overloaded with excess 5, node B
   * (load 20 of 100) is underloaded with 80 MW free, so A moves min(5, 40) = 5 MW to B.
   */
  lemma TwoNodeExample()
    ensures Rebalance([NodeState("A", 90.0, 100.0), NodeState("B", 20.0, 100.0)], 85.0, 40.0)
         == Outcome([NodeState("A", 85.0, 100.0), NodeState("B", 25.0, 100.0)],
                    [OptimizationAction("A", "B", 5.0, LoadTransfer)])
  {
    var g := [NodeState("A", 90.0, 100.0), NodeState("B", 20.0, 100.0)];
    TwoNodeOrders(g);
    TwoNodeOuter(g);
    assert Rebalance(g, 85.0, 40.0) == Outer(g, [0], [1], 85.0);
  }

  /** The outer walk of the worked case: A's excess is 5, and its inner walk is the whole run. */
  lemma TwoNodeOuter(g: seq<NodeState>)
    requires g == [NodeState("A", 90.0, 100.0), NodeState("B", 20.0, 100.0)]
    ensures Outer(g, [0], [1], 85.0) == Outcome([NodeState("A", 85.0, 100.0), NodeState("B", 25.0, 100.0)],
                                                [OptimizationAction("A", "B", 5.0, LoadTransfer)])
  {
    assert Floor(g[0], 85.0) == 85.0;
    OuterSingle(g, 0, [1], 85.0);
    TwoNodeInner(g);
  }

  /** The inner walk of the worked case: one transfer, after which the excess is used up. */
  lemma TwoNodeInner(g: seq<NodeState>)
    requires g == [NodeState("A", 90.0, 100.0), NodeState("B", 20.0, 100.0)]
    ensures Inner(g, 0, [1], 5.0) == Outcome([NodeState("A", 85.0, 100.0), NodeState("B", 25.0, 100.0)],
                                              [OptimizationAction("A", "B", 5.0, LoadTransfer)])
  {
    var t := Transfer(g, 0, 1, 5.0);
    TwoNodeTransfer(g);
    InnerStep(g, 0, [1], 5.0);
    InnerStep(t.grid, 0, [], 0.0);
    assert t.actions + [] == t.actions;
  }

  /** The one transfer of the worked case: min(5, 80 / 2) = 5 MW from A to B. */
  lemma TwoNodeTransfer(g: seq<NodeState>)
    requires g == [NodeState("A", 90.0, 100.0), NodeState("B", 20.0, 100.0)]
    ensures Transfer(g, 0, 1, 5.0) == Outcome([NodeState("A", 85.0, 100.0), NodeState("B", 25.0, 100.0)],
                                              [OptimizationAction("A", "B", 5.0, LoadTransfer)])
  {
    assert Min(5.0, Available(g[1]) * 0.5) == 5.0;
    var g1 := g[0 := g[0].(load := 85.0)];
    assert g1 == [NodeState("A", 85.0, 100.0), NodeState("B", 20.0, 100.0)];
    assert g1[1 := g1[1].(load := 25.0)] == [NodeState("A", 85.0, 100.0), NodeState("B", 25.0, 100.0)];
  }

  /** The classification and the sorted lists of the worked case. */
  lemma TwoNodeOrders(g: seq<NodeState>)
    requires g == [NodeState("A", 90.0, 100.0), NodeState("B", 20.0, 100.0)]
    ensures PositiveCapacities(g)
    ensures OverloadedIdx(g, 85.0, |g|) == OverloadedOrder(g, 85.0) == [0]
    ensures UnderloadedOrder(g, 85.0, 40.0) == [1]
  {
    assert Utilization(g[0]) == 90.0 && Utilization(g[1]) == 20.0;
    assert OverloadedIdx(g, 85.0, 1) == [0];
    assert OverloadedIdx(g, 85.0, 2) == [0];
    assert UnderloadedIdx(g, 85.0, 40.0, 1) == [];
    assert UnderloadedIdx(g, 85.0, 40.0, 2) == [1];
  }
}
