/**
 * The node arena: an append-only sequence of nodes linked by integer parent
 * handles, the invariant that keeps the parent graph a tree rooted at index 0,
 * and the parent walk that path extraction performs.
 */
module Arena {
  import opened Wrappers
  import opened Geometry

  /** A tree vertex: position, cost from the root, and the index of its parent. */
  datatype Node = Node(x: real, y: real, cost: real, parent: Option<nat>)

  /** The root node built from the start position. */
  function Root(p: Point): Node {
    Node(p.x, p.y, 0.0, None)
  }

  function Pos(n: Node): Point {
    Point(n.x, n.y)
  }

  /** Parent handle of node i, when it has one, is a valid index. */
  predicate ParentInRange(nodes: seq<Node>, i: nat)
    requires i < |nodes|
  {
    nodes[i].parent.Some? ==> nodes[i].parent.value < |nodes|
  }

  /**
   * Lexicographic order on (cost, stamp): the stamps break ties between
   * nodes of equal cost.
   */
  predicate KeyLess(nodes: seq<Node>, stamps: seq<nat>, a: nat, b: nat)
    requires a < |nodes| && b < |nodes| && |stamps| == |nodes|
  {
    nodes[a].cost < nodes[b].cost || (nodes[a].cost == nodes[b].cost && stamps[a] < stamps[b])
  }

  /** Every parent handle points to a node with a strictly smaller key. */
  ghost predicate Ranked(nodes: seq<Node>, stamps: seq<nat>) {
    && |stamps| == |nodes|
    && forall i :: 0 <= i < |nodes| && nodes[i].parent.Some? ==>
         nodes[i].parent.value < |nodes| && KeyLess(nodes, stamps, nodes[i].parent.value, i)
  }

  /**
   * The arena invariant: the root sits at index 0 with no parent and cost 0,
   * every other node has an in-range parent whose cost is at most its own,
   * costs are never negative, and some stamping ranks the parent graph,
   * which makes it acyclic.
   */
  ghost predicate Tree(nodes: seq<Node>) {
    && 0 < |nodes|
    && nodes[0].parent == None
    && nodes[0].cost == 0.0
    && (forall i :: 0 < i < |nodes| ==> nodes[i].parent.Some?)
    && (forall i :: 0 <= i < |nodes| ==> ParentInRange(nodes, i))
    && (forall i :: 0 <= i < |nodes| && nodes[i].parent.Some? && nodes[i].parent.value < |nodes| ==>
          nodes[nodes[i].parent.value].cost <= nodes[i].cost)
    && (forall i :: 0 <= i < |nodes| ==> 0.0 <= nodes[i].cost)
    && exists stamps :: Ranked(nodes, stamps)
  }

  function MaxStamp(s: seq<nat>): (r: nat)
    ensures forall k :: 0 <= k < |s| ==> s[k] <= r
  {
    if |s| == 0 then 0
    else var t := MaxStamp(s[1..]); if s[0] < t then t else s[0]
  }

  /** The arena the search starts from holds only the root. */
  lemma InitialTree(p: Point)
    ensures Tree([Root(p)])
  {
    assert Ranked([Root(p)], [0]);
  }

  /** Appending a node under an existing parent of no greater cost keeps the invariant. */
  lemma AppendPreservesTree(nodes: seq<Node>, n: Node)
    requires Tree(nodes)
    requires n.parent.Some? && n.parent.value < |nodes|
    requires nodes[n.parent.value].cost <= n.cost
    ensures Tree(nodes + [n])
  {
    var s: seq<nat> :| Ranked(nodes, s);
    var s' := s + [MaxStamp(s) + 1];
    var nodes' := nodes + [n];
    forall i | 0 <= i < |nodes'| && nodes'[i].parent.Some?
      ensures nodes'[i].parent.value < |nodes'| && KeyLess(nodes', s', nodes'[i].parent.value, i)
    {
      if i < |nodes| {
        assert nodes'[i] == nodes[i];
        assert KeyLess(nodes, s, nodes[i].parent.value, i);
      }
    }
    assert Ranked(nodes', s');
  }

  /**
   * Re-pointing nodes at the last node keeps the invariant, provided the root
   * and the last node stay as they are and each re-pointed node gets a cost
   * strictly below its old one and no lower than the last node's.
   */
  lemma RepointPreservesTree(nodes: seq<Node>, r: seq<Node>)
    requires Tree(nodes) && |r| == |nodes|
    requires r[0] == nodes[0] && r[|nodes| - 1] == nodes[|nodes| - 1]
    requires forall j :: 0 <= j < |nodes| ==>
      r[j] == nodes[j]
      || (r[j].parent == Some(|nodes| - 1) && nodes[|nodes| - 1].cost <= r[j].cost < nodes[j].cost)
    ensures Tree(r)
  {
    var n := |nodes|;
    var s: seq<nat> :| Ranked(nodes, s);
    var top := MaxStamp(s) + 1;
    var s' := seq(n, j requires 0 <= j < n => if r[j] != nodes[j] then top else s[j]);
    forall i | 0 <= i < n && r[i].parent.Some?
      ensures r[i].parent.value < n && r[r[i].parent.value].cost <= r[i].cost
      ensures KeyLess(r, s', r[i].parent.value, i)
    {
      if r[i] == nodes[i] {
        assert KeyLess(nodes, s, nodes[i].parent.value, i);
      }
    }
    assert Ranked(r, s');
  }

  /** A stamping of a valid arena, fixed once per arena value. */
  ghost function Witness(nodes: seq<Node>): (s: seq<nat>)
    requires Tree(nodes)
    ensures Ranked(nodes, s)
  {
    var s :| Ranked(nodes, s); s
  }

  /** The nodes whose key is below that of node i. */
  ghost function Below(nodes: seq<Node>, s: seq<nat>, i: nat): set<nat>
    requires |s| == |nodes| && i < |nodes|
  {
    set j: nat | j < |nodes| && KeyLess(nodes, s, j, i)
  }

  /** The number of nodes below node i: the measure the parent walk decreases. */
  ghost function Rank(nodes: seq<Node>, i: nat): nat
    requires Tree(nodes) && i < |nodes|
  {
    |Below(nodes, Witness(nodes), i)|
  }

  /** The indices below n. */
  function Indices(n: nat): (r: set<nat>)
    ensures forall j: nat :: j in r <==> j < n
    ensures |r| == n
  {
    if n == 0 then {} else Indices(n - 1) + {n - 1}
  }

  /** A node's rank is less than the arena size: it is never below itself. */
  lemma RankBound(nodes: seq<Node>, i: nat)
    requires Tree(nodes) && i < |nodes|
    ensures Rank(nodes, i) < |nodes|
  {
    var s := Witness(nodes);
    var b := Below(nodes, s, i);
    var all := Indices(|nodes|);
    var others := all - {i};
    assert b <= others;
    assert |others| == |nodes| - 1;
    assert |others| == |b| + |others - b|;
  }

  /** Following a parent handle strictly decreases the rank. */
  lemma RankDecreases(nodes: seq<Node>, i: nat)
    requires Tree(nodes) && i < |nodes| && nodes[i].parent.Some?
    ensures nodes[i].parent.value < |nodes|
    ensures Rank(nodes, nodes[i].parent.value) < Rank(nodes, i)
  {
    var s := Witness(nodes);
    var p := nodes[i].parent.value;
    var bp, bi := Below(nodes, s, p), Below(nodes, s, i);
    assert KeyLess(nodes, s, p, i);
    assert bp <= bi;
    assert p in bi - bp;
    assert |bi| == |bp| + |bi - bp|;
  }

  /**
   * The non-root nodes met when walking parent handles from node i up to the
   * root, i first. Empty exactly when i is the root.
   */
  ghost function Trail(nodes: seq<Node>, i: nat): (t: seq<nat>)
    requires Tree(nodes) && i < |nodes|
    ensures forall k :: 0 <= k < |t| ==> t[k] < |nodes|
    decreases Rank(nodes, i)
  {
    if nodes[i].parent.None? then []
    else
      RankDecreases(nodes, i);
      [i] + Trail(nodes, nodes[i].parent.value)
  }

  /**
   * The parent walk is well shaped: it starts at i, each entry is the parent
   * of the one before, every entry is a non-root node, and the last one hangs
   * directly under the root. It is empty exactly when i is the root.
   */
  lemma {:induction false} TrailShape(nodes: seq<Node>, i: nat)
    requires Tree(nodes) && i < |nodes|
    ensures var t := Trail(nodes, i);
      && (t == [] <==> i == 0)
      && (t != [] ==> t[0] == i)
      && (forall k :: 0 <= k < |t| ==> 0 < t[k] && nodes[t[k]].parent.Some?)
      && (forall k :: 0 <= k < |t| - 1 ==> nodes[t[k]].parent == Some(t[k + 1]))
      && (t != [] ==> nodes[t[|t| - 1]].parent == Some(0))
    decreases Rank(nodes, i)
  {
    var t := Trail(nodes, i);
    if nodes[i].parent.Some? {
      var p := nodes[i].parent.value;
      RankDecreases(nodes, i);
      TrailShape(nodes, p);
      var tp := Trail(nodes, p);
      assert t == [i] + tp;
      if tp == [] {
        assert p == 0;
      }
    }
  }

  /**
   * Ranks strictly decrease along the walk, so its length is bounded by the
   * rank of node i.
   */
  lemma {:induction false} TrailRanks(nodes: seq<Node>, i: nat)
    requires Tree(nodes) && i < |nodes|
    ensures var t := Trail(nodes, i);
      && (forall a, b :: 0 <= a < b < |t| ==> Rank(nodes, t[b]) < Rank(nodes, t[a]))
      && (forall k :: 0 <= k < |t| ==> Rank(nodes, t[k]) <= Rank(nodes, i))
      && |t| <= Rank(nodes, i)
    decreases Rank(nodes, i)
  {
    var t := Trail(nodes, i);
    if nodes[i].parent.Some? {
      var p := nodes[i].parent.value;
      RankDecreases(nodes, i);
      TrailRanks(nodes, p);
      var tp := Trail(nodes, p);
      assert t == [i] + tp;
      forall a, b | 0 <= a < b < |t|
        ensures Rank(nodes, t[b]) < Rank(nodes, t[a])
      {
        if a == 0 {
          assert t[b] == tp[b - 1];
        } else {
          assert t[a] == tp[a - 1] && t[b] == tp[b - 1];
        }
      }
      forall k | 0 <= k < |t|
        ensures Rank(nodes, t[k]) <= Rank(nodes, i)
      {
        if 0 < k {
          assert t[k] == tp[k - 1];
        }
      }
    }
  }

  /** The parent walk never repeats a node. */
  lemma TrailDistinct(nodes: seq<Node>, i: nat)
    requires Tree(nodes) && i < |nodes|
    ensures var t := Trail(nodes, i);
      forall a, b :: 0 <= a < b < |t| ==> t[a] != t[b]
  {
    TrailRanks(nodes, i);
  }

  /** The walk from any node reaches the root in fewer hops than there are nodes. */
  lemma TrailBound(nodes: seq<Node>, i: nat)
    requires Tree(nodes) && i < |nodes|
    ensures |Trail(nodes, i)| < |nodes|
  {
    TrailRanks(nodes, i);
    RankBound(nodes, i);
  }

  /** The positions of the listed nodes, in order. */
  function Positions(nodes: seq<Node>, t: seq<nat>): (ps: seq<Point>)
    requires forall k :: 0 <= k < |t| ==> t[k] < |nodes|
    ensures |ps| == |t|
    ensures forall k :: 0 <= k < |t| ==> ps[k] == Pos(nodes[t[k]])
  {
    if |t| == 0 then [] else [Pos(nodes[t[0]])] + Positions(nodes, t[1..])
  }

  /**
   * get_final_course's result: the goal, then the position of every non-root
   * node on the walk from i, then the start.
   */
  ghost function Course(start: Point, goal: Point, nodes: seq<Node>, i: nat): seq<Point>
    requires Tree(nodes) && i < |nodes|
  {
    [goal] + Positions(nodes, Trail(nodes, i)) + [start]
  }

  /** The extracted path begins at the goal, ends at the start and has two more points than the walk has non-root nodes. */
  lemma CourseShape(start: Point, goal: Point, nodes: seq<Node>, i: nat)
    requires Tree(nodes) && i < |nodes|
    ensures var c := Course(start, goal, nodes, i);
      && |c| == |Trail(nodes, i)| + 2
      && c[0] == goal
      && c[|c| - 1] == start
      && (i != 0 ==> c[1] == Pos(nodes[i]))
      && |c| <= |nodes| + 1
  {
    TrailShape(nodes, i);
    TrailBound(nodes, i);
  }
}
