/**
 * Parent selection: among the near nodes, the candidate through which the new
 * node is cheapest to reach over a collision-free edge.
 */
module Selection {
  import opened Wrappers
  import opened Geometry
  import opened Arena
  import opened Neighbors
  import opened Settings

  /**
   * The cost of reaching newNode through node i: node i's cost plus the edge
   * length when the edge from node i passes the segment test, infinite otherwise.
   */
  function Candidate(c: Config, nodes: seq<Node>, newNode: Node, i: nat): (r: Cost)
    requires 0.0 < c.expandDis && i < |nodes|
    ensures MathSound(c.math) && r.Fin? ==> nodes[i].cost <= r.v
  {
    var d := LineCost(c.math, Pos(newNode), Pos(nodes[i]));
    var theta := Atan2(c.math, newNode.y - nodes[i].y, newNode.x - nodes[i].x);
    SqNonNegative(newNode.x - nodes[i].x);
    SqNonNegative(newNode.y - nodes[i].y);
    if ExtendFree(c, Pos(nodes[i]), theta, d) then Fin(nodes[i].cost + d) else Inf
  }

  predicate AllInRange(inds: seq<nat>, n: nat) {
    forall k :: 0 <= k < |inds| ==> inds[k] < n
  }

  /** choose_parent's dList: one candidate cost per entry of nearInds. */
  function Candidates(c: Config, nodes: seq<Node>, newNode: Node, nearInds: seq<nat>): (dList: seq<Cost>)
    requires 0.0 < c.expandDis && AllInRange(nearInds, |nodes|)
    ensures |dList| == |nearInds|
    ensures forall k :: 0 <= k < |nearInds| ==> dList[k] == Candidate(c, nodes, newNode, nearInds[k])
  {
    seq(|nearInds|, k requires 0 <= k < |nearInds| => Candidate(c, nodes, newNode, nearInds[k]))
  }

  /** Python's min over a non-empty list of possibly infinite costs. */
  function MinCost(xs: seq<Cost>): (m: Cost)
    requires 0 < |xs|
    ensures m in xs
    ensures forall k :: 0 <= k < |xs| ==> !xs[k].Less(m)
  {
    if |xs| == 1 then xs[0]
    else var t := MinCost(xs[1..]); if t.Less(xs[0]) then t else xs[0]
  }

  /**
   * choose_parent. With no near nodes, or when every candidate is infinite,
   * newNode comes back unchanged. Otherwise its cost becomes the least finite
   * candidate cost and its parent the first entry of nearInds attaining it.
   * Its position never changes.
   */
  function BestParent(c: Config, nodes: seq<Node>, newNode: Node, nearInds: seq<nat>): (r: Node)
    requires 0.0 < c.expandDis && AllInRange(nearInds, |nodes|)
    ensures r.x == newNode.x && r.y == newNode.y
  {
    if |nearInds| == 0 then newNode
    else
      var dList := Candidates(c, nodes, newNode, nearInds);
      var minCost := MinCost(dList);
      var minPos := IndexOf(dList, minCost);
      var minInd := nearInds[minPos];
      if minCost == Inf then newNode
      else newNode.(cost := minCost.v, parent := Some(minInd))
  }

  /**
   * What choose_parent picks: nothing changes when there are no near nodes or
   * every candidate is infinite; otherwise the cost and parent come from the
   * first position of nearInds holding the least finite candidate.
   */
  lemma BestParentMeaning(c: Config, nodes: seq<Node>, newNode: Node, nearInds: seq<nat>)
    requires 0.0 < c.expandDis && AllInRange(nearInds, |nodes|)
    ensures var r := BestParent(c, nodes, newNode, nearInds);
      && (|nearInds| == 0 ==> r == newNode)
      && ((forall k :: 0 <= k < |nearInds| ==> Candidate(c, nodes, newNode, nearInds[k]) == Inf) ==> r == newNode)
      && ((exists k :: 0 <= k < |nearInds| && Candidate(c, nodes, newNode, nearInds[k]).Fin?) ==>
            exists k :: 0 <= k < |nearInds| && FirstCheapest(c, nodes, newNode, nearInds, k)
              && r == newNode.(cost := Candidate(c, nodes, newNode, nearInds[k]).v, parent := Some(nearInds[k])))
  {
    if |nearInds| != 0 {
      var dList := Candidates(c, nodes, newNode, nearInds);
      var minCost := MinCost(dList);
      var minPos := IndexOf(dList, minCost);
      if minCost != Inf {
        assert FirstCheapest(c, nodes, newNode, nearInds, minPos);
      }
    }
  }

  /**
   * Position k of nearInds holds a finite candidate cost that no finite
   * candidate undercuts, and no earlier position holds that same cost.
   */
  ghost predicate FirstCheapest(c: Config, nodes: seq<Node>, newNode: Node, nearInds: seq<nat>, k: nat)
    requires 0.0 < c.expandDis && AllInRange(nearInds, |nodes|) && k < |nearInds|
  {
    var best := Candidate(c, nodes, newNode, nearInds[k]);
    && best.Fin?
    && (forall j :: 0 <= j < |nearInds| ==> !Candidate(c, nodes, newNode, nearInds[j]).Less(best))
    && (forall j :: 0 <= j < k ==> Candidate(c, nodes, newNode, nearInds[j]) != best)
  }

  /** A node chosen as parent never costs more than the child it is chosen for. */
  lemma BestParentOrdered(c: Config, nodes: seq<Node>, newNode: Node, nearInds: seq<nat>)
    requires ConfigOk(c) && AllInRange(nearInds, |nodes|)
    requires newNode.parent.Some? && newNode.parent.value < |nodes|
    requires nodes[newNode.parent.value].cost <= newNode.cost
    ensures var r := BestParent(c, nodes, newNode, nearInds);
      r.parent.Some? && r.parent.value < |nodes| && nodes[r.parent.value].cost <= r.cost
  {
    var r := BestParent(c, nodes, newNode, nearInds);
    BestParentMeaning(c, nodes, newNode, nearInds);
    if r != newNode {
      var k :| 0 <= k < |nearInds| && FirstCheapest(c, nodes, newNode, nearInds, k)
        && r == newNode.(cost := Candidate(c, nodes, newNode, nearInds[k]).v, parent := Some(nearInds[k]));
    }
  }
}
