/**
 * Rewiring: after the new node is appended, each near node is re-pointed at it
 * when that strictly lowers the near node's cost over a collision-free edge.
 * Costs of the re-pointed node's descendants are left as they were.
 */
module Rewiring {
  import opened Wrappers
  import opened Geometry
  import opened Arena
  import opened Settings

  /**
   * One near node after rewire has looked at it: re-pointed at newIndex with
   * cost newNode.cost + d exactly when that is strictly below its cost and the
   * edge towards the new node passes the segment test; otherwise untouched.
   */
  function RewiredNode(c: Config, near: Node, newNode: Node, newIndex: nat): (r: Node)
    requires 0.0 < c.expandDis
    ensures r.x == near.x && r.y == near.y
    ensures r == near || (r.parent == Some(newIndex) && r.cost == newNode.cost + LineCost(c.math, Pos(near), Pos(newNode)))
    ensures r.cost <= near.cost
    ensures MathSound(c.math) && r != near ==> newNode.cost <= r.cost
  {
    var d := LineCost(c.math, Pos(near), Pos(newNode));
    var scost := newNode.cost + d;
    SqNonNegative(near.x - newNode.x);
    SqNonNegative(near.y - newNode.y);
    if near.cost > scost && ExtendFree(c, Pos(near), Atan2(c.math, newNode.y - near.y, newNode.x - near.x), d)
    then near.(parent := Some(newIndex), cost := scost)
    else near
  }

  /**
   * The node changes exactly when the route through the new node is strictly
   * cheaper and the edge from the near node towards the new node is free.
   */
  lemma RewiredNodeChanges(c: Config, near: Node, newNode: Node, newIndex: nat)
    requires 0.0 < c.expandDis
    ensures RewiredNode(c, near, newNode, newIndex) != near <==>
      near.cost > newNode.cost + LineCost(c.math, Pos(near), Pos(newNode))
      && ExtendFree(c, Pos(near), Atan2(c.math, newNode.y - near.y, newNode.x - near.x), LineCost(c.math, Pos(near), Pos(newNode)))
  {
  }

  /** The three outcomes of rewire's two tests, one per branch. */
  lemma RewiredNodeBranches(c: Config, near: Node, newNode: Node, newIndex: nat)
    requires 0.0 < c.expandDis
    ensures var d := LineCost(c.math, Pos(near), Pos(newNode));
      var free := ExtendFree(c, Pos(near), Atan2(c.math, newNode.y - near.y, newNode.x - near.x), d);
      && (!(near.cost > newNode.cost + d) ==> RewiredNode(c, near, newNode, newIndex) == near)
      && (near.cost > newNode.cost + d && !free ==> RewiredNode(c, near, newNode, newIndex) == near)
      && (near.cost > newNode.cost + d && free ==>
            RewiredNode(c, near, newNode, newIndex) == near.(parent := Some(newIndex), cost := newNode.cost + d))
  {
  }

  /** Looking at the same near node a second time changes nothing. */
  lemma RewiredNodeIdempotent(c: Config, near: Node, newNode: Node, newIndex: nat)
    requires 0.0 < c.expandDis
    ensures RewiredNode(c, RewiredNode(c, near, newNode, newIndex), newNode, newIndex)
         == RewiredNode(c, near, newNode, newIndex)
  {
  }

  /** rewire's loop: the near nodes visited in order, each read as it stands at that moment. */
  function RewireAll(c: Config, nodes: seq<Node>, newNode: Node, nearInds: seq<nat>): (r: seq<Node>)
    requires 0.0 < c.expandDis && 0 < |nodes|
    requires forall k :: 0 <= k < |nearInds| ==> nearInds[k] < |nodes|
    ensures |r| == |nodes|
    decreases |nearInds|
  {
    if |nearInds| == 0 then nodes
    else
      var i := nearInds[0];
      RewireAll(c, nodes[i := RewiredNode(c, nodes[i], newNode, |nodes| - 1)], newNode, nearInds[1..])
  }

  /**
   * The order of nearInds and its duplicates do not matter: each node ends up
   * as RewiredNode of its own original value if its index is listed, and
   * untouched otherwise.
   */
  lemma {:induction false} RewireClosedForm(c: Config, nodes: seq<Node>, newNode: Node, nearInds: seq<nat>)
    requires 0.0 < c.expandDis && 0 < |nodes|
    requires forall k :: 0 <= k < |nearInds| ==> nearInds[k] < |nodes|
    ensures |RewireAll(c, nodes, newNode, nearInds)| == |nodes|
    ensures forall j :: 0 <= j < |nodes| ==>
      RewireAll(c, nodes, newNode, nearInds)[j]
        == if j in nearInds then RewiredNode(c, nodes[j], newNode, |nodes| - 1) else nodes[j]
    decreases |nearInds|
  {
    if |nearInds| != 0 {
      var i := nearInds[0];
      var nodes' := nodes[i := RewiredNode(c, nodes[i], newNode, |nodes| - 1)];
      RewireClosedForm(c, nodes', newNode, nearInds[1..]);
      RewiredNodeIdempotent(c, nodes[i], newNode, |nodes| - 1);
      forall j | 0 <= j < |nodes|
        ensures RewireAll(c, nodes, newNode, nearInds)[j]
          == if j in nearInds then RewiredNode(c, nodes[j], newNode, |nodes| - 1) else nodes[j]
      {
        assert j in nearInds <==> j == i || j in nearInds[1..];
      }
    }
  }

  /** Visiting one more near index rewires that node as it stands after the earlier visits. */
  lemma {:induction false} RewireAllSnoc(c: Config, nodes: seq<Node>, newNode: Node, nearInds: seq<nat>, i: nat)
    requires 0.0 < c.expandDis && 0 < |nodes| && i < |nodes|
    requires forall k :: 0 <= k < |nearInds| ==> nearInds[k] < |nodes|
    ensures var r := RewireAll(c, nodes, newNode, nearInds);
      RewireAll(c, nodes, newNode, nearInds + [i]) == r[i := RewiredNode(c, r[i], newNode, |nodes| - 1)]
    decreases |nearInds|
  {
    if |nearInds| != 0 {
      var j := nearInds[0];
      var nodes' := nodes[j := RewiredNode(c, nodes[j], newNode, |nodes| - 1)];
      assert (nearInds + [i])[1..] == nearInds[1..] + [i];
      RewireAllSnoc(c, nodes', newNode, nearInds[1..], i);
    }
  }

  /**
   * The frame of rewire: only listed nodes change; a changed node now points at
   * the newest index and its cost is the route through the new node, strictly
   * below its old cost; positions never move and no cost increases.
   */
  lemma RewireFrame(c: Config, nodes: seq<Node>, newNode: Node, nearInds: seq<nat>)
    requires 0.0 < c.expandDis && 0 < |nodes|
    requires forall k :: 0 <= k < |nearInds| ==> nearInds[k] < |nodes|
    ensures var r := RewireAll(c, nodes, newNode, nearInds);
      && |r| == |nodes|
      && (forall j :: 0 <= j < |nodes| && j !in nearInds ==> r[j] == nodes[j])
      && (forall j :: 0 <= j < |nodes| ==> r[j].x == nodes[j].x && r[j].y == nodes[j].y && r[j].cost <= nodes[j].cost)
      && (forall j :: 0 <= j < |nodes| && r[j] != nodes[j] ==>
            r[j].parent == Some(|nodes| - 1)
            && r[j].cost == newNode.cost + LineCost(c.math, Pos(nodes[j]), Pos(newNode))
            && r[j].cost < nodes[j].cost)
  {
    RewireClosedForm(c, nodes, newNode, nearInds);
  }

  /**
   * rewire, run with the new node as the last element of the arena, keeps the
   * arena invariant: the strict guard means a re-pointed node's old descendants
   * still cost at least as much as it does, and the cost order rules out cycles.
   */
  lemma RewirePreservesTree(c: Config, nodes: seq<Node>, nearInds: seq<nat>)
    requires ConfigOk(c) && Tree(nodes)
    requires forall k :: 0 <= k < |nearInds| ==> nearInds[k] < |nodes|
    ensures Tree(RewireAll(c, nodes, nodes[|nodes| - 1], nearInds))
  {
    var n := |nodes|;
    var nn := nodes[n - 1];
    var r := RewireAll(c, nodes, nn, nearInds);
    RewireClosedForm(c, nodes, nn, nearInds);
    LineCostNonNegative(c.math, Pos(nn), Pos(nn));
    assert RewiredNode(c, nn, nn, n - 1) == nn;
    RepointPreservesTree(nodes, r);
  }
}
