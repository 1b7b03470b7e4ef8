/**
 * The Informed RRT* planner: the search loop and the tree operations it runs,
 * over the node arena held by the planner object.
 */
module Planner {
  import opened Wrappers
  import opened Geometry
  import opened Arena
  import opened Neighbors
  import opened Settings
  import opened Selection
  import opened Rewiring

  /**
   * The random draws one iteration consumes: the goal-bias roll of
   * random.randint(0, 100), two random.random() values for the uniform
   * coordinates, and the point the informed (ellipse) sampler returns.
   */
  datatype Draw = Draw(roll: int, u1: real, u2: real, ellipse: Point)

  /** random.uniform(a, b) as Python computes it from a random.random() value u. */
  function Uniform(a: real, b: real, u: real): real {
    a + (b - a) * u
  }

  lemma UniformInRange(a: real, b: real, u: real)
    requires a <= b && 0.0 <= u <= 1.0
    ensures a <= Uniform(a, b, u) <= b
  {
    var w := b - a;
    assert 0.0 <= w * u;
    assert 0.0 <= w * (1.0 - u);
  }

  /**
   * sample_free_space: the goal itself when the roll does not exceed the goal
   * sample rate, otherwise a point of the sampling square.
   */
  function SampleFreeSpace(c: Config, d: Draw): (rnd: Point)
    ensures d.roll <= c.goalSampleRate ==> rnd == c.goal
    ensures c.goalSampleRate < d.roll && c.minRand <= c.maxRand && 0.0 <= d.u1 <= 1.0 && 0.0 <= d.u2 <= 1.0 ==>
      c.minRand <= rnd.x <= c.maxRand && c.minRand <= rnd.y <= c.maxRand
  {
    if d.roll > c.goalSampleRate then
      if c.minRand <= c.maxRand && 0.0 <= d.u1 <= 1.0 && 0.0 <= d.u2 <= 1.0 then
        UniformInRange(c.minRand, c.maxRand, d.u1);
        UniformInRange(c.minRand, c.maxRand, d.u2);
        Point(Uniform(c.minRand, c.maxRand, d.u1), Uniform(c.minRand, c.maxRand, d.u2))
      else
        Point(Uniform(c.minRand, c.maxRand, d.u1), Uniform(c.minRand, c.maxRand, d.u2))
    else c.goal
  }

  /** informed_sample's dispatch: uniform sampling until a path is known, the ellipse draw after. */
  function InformedSample(c: Config, cBest: Cost, d: Draw): Point {
    if cBest.Less(Inf) then d.ellipse else SampleFreeSpace(c, d)
  }

  /**
   * get_new_node: a copy of the nearest node moved one step along theta, with
   * the nearest node as parent and one step added to its cost.
   */
  function GetNewNode(c: Config, theta: real, nind: nat, nearestNode: Node): (newNode: Node)
    ensures newNode.parent == Some(nind)
    ensures 0.0 < c.expandDis ==> nearestNode.cost < newNode.cost
  {
    nearestNode.(
      x := nearestNode.x + Scaled(c.expandDis, Cos(c.math, theta)),
      y := nearestNode.y + Scaled(c.expandDis, Sin(c.math, theta)),
      cost := nearestNode.cost + c.expandDis,
      parent := Some(nind))
  }

  /**
   * The new node stands exactly where the segment test visits its first point
   * on the edge from the nearest node along theta.
   */
  lemma NewNodeIsFirstStep(c: Config, theta: real, nind: nat, nearestNode: Node)
    ensures Pos(GetNewNode(c, theta, nind, nearestNode)) == StepPoint(c.math, c.expandDis, Pos(nearestNode), theta, 1)
  {
    StepPointOnce(c.math, c.expandDis, Pos(nearestNode), theta);
  }

  /** The nearest node to the sample and the steering angle towards the sample. */
  function SteerAngle(c: Config, nodes: seq<Node>, rnd: Point): real
    requires 0 < |nodes|
  {
    var nearestNode := nodes[GetNearestListIndex(nodes, rnd)];
    Atan2(c.math, rnd.y - nearestNode.y, rnd.x - nearestNode.x)
  }

  /** The node steering produces from the sample, before parent selection. */
  function Steered(c: Config, nodes: seq<Node>, rnd: Point): Node
    requires 0 < |nodes|
  {
    var nind := GetNearestListIndex(nodes, rnd);
    GetNewNode(c, SteerAngle(c, nodes, rnd), nind, nodes[nind])
  }

  /** Both collision tests of the search loop: the new point, and the edge to it. */
  predicate EdgeValid(c: Config, nodes: seq<Node>, rnd: Point)
    requires 0.0 < c.expandDis && 0 < |nodes|
  {
    var nearestNode := nodes[GetNearestListIndex(nodes, rnd)];
    var newNode := Steered(c, nodes, rnd);
    CollisionCheck(Pos(newNode), c.obstacles)
    && ExtendFree(c, Pos(nearestNode), SteerAngle(c, nodes, rnd), LineCost(c.math, Pos(nearestNode), Pos(newNode)))
  }

  /**
   * What one iteration does to the arena for sample rnd: nothing when a
   * collision test fails; otherwise the steered node, with its parent
   * chosen among the near nodes, is appended and the near nodes are rewired.
   */
  function Grown(c: Config, nodes: seq<Node>, rnd: Point): Option<seq<Node>>
    requires 0.0 < c.expandDis && 0 < |nodes|
  {
    if EdgeValid(c, nodes, rnd) then
      var newNode := Steered(c, nodes, rnd);
      var nearInds := FindNearNodes(c.math, nodes, newNode);
      var chosen := BestParent(c, nodes, newNode, nearInds);
      Some(RewireAll(c, nodes + [chosen], chosen, nearInds))
    else None
  }

  /**
   * One iteration keeps the arena invariant, and appends exactly one node
   * when, and only when, both collision tests pass.
   */
  lemma GrowPreservesTree(c: Config, nodes: seq<Node>, rnd: Point)
    requires ConfigOk(c) && Tree(nodes)
    ensures Grown(c, nodes, rnd).Some? <==> EdgeValid(c, nodes, rnd)
    ensures Grown(c, nodes, rnd).Some? ==>
      Tree(Grown(c, nodes, rnd).value) && |Grown(c, nodes, rnd).value| == |nodes| + 1
  {
    if EdgeValid(c, nodes, rnd) {
      var newNode := Steered(c, nodes, rnd);
      var nearInds := FindNearNodes(c.math, nodes, newNode);
      var chosen := BestParent(c, nodes, newNode, nearInds);
      BestParentOrdered(c, nodes, newNode, nearInds);
      AppendPreservesTree(nodes, chosen);
      RewirePreservesTree(c, nodes + [chosen], nearInds);
      RewireClosedForm(c, nodes + [chosen], chosen, nearInds);
    }
  }

  /**
   * What else an iteration that appends does: the new node sits where
   * steering put it, hangs under an earlier node and is not itself rewired;
   * earlier nodes keep their positions, no cost rises, and a node that
   * changed now hangs under the new node.
   */
  lemma GrowFrame(c: Config, nodes: seq<Node>, rnd: Point)
    requires ConfigOk(c) && Tree(nodes) && EdgeValid(c, nodes, rnd)
    ensures Grown(c, nodes, rnd).Some?
    ensures var g := Grown(c, nodes, rnd).value;
      && |g| == |nodes| + 1
      && Pos(g[|nodes|]) == Pos(Steered(c, nodes, rnd))
      && g[|nodes|].parent.Some? && g[|nodes|].parent.value < |nodes|
      && (forall j :: 0 <= j < |nodes| ==>
            g[j].x == nodes[j].x && g[j].y == nodes[j].y && g[j].cost <= nodes[j].cost)
      && (forall j :: 0 <= j < |nodes| && g[j] != nodes[j] ==> g[j].parent == Some(|nodes|))
  {
    var newNode := Steered(c, nodes, rnd);
    var nearInds := FindNearNodes(c.math, nodes, newNode);
    var chosen := BestParent(c, nodes, newNode, nearInds);
    BestParentOrdered(c, nodes, newNode, nearInds);
    var grown := nodes + [chosen];
    RewireFrame(c, grown, chosen, nearInds);
    var g := RewireAll(c, grown, chosen, nearInds);
    assert |nodes| !in nearInds;
    assert g[|nodes|] == chosen;
    forall j | 0 <= j < |nodes|
      ensures g[j].x == nodes[j].x && g[j].y == nodes[j].y && g[j].cost <= nodes[j].cost
      ensures g[j] != nodes[j] ==> g[j].parent == Some(|nodes|)
    {
      assert grown[j] == nodes[j];
    }
  }

  /** The part of GrowPreservesTree one iteration of the search relies on. */
  lemma GrowAppendsChosen(c: Config, nodes: seq<Node>, rnd: Point)
    requires ConfigOk(c) && Tree(nodes) && EdgeValid(c, nodes, rnd)
    ensures Grown(c, nodes, rnd).Some?
    ensures var g := Grown(c, nodes, rnd).value;
      var newNode := Steered(c, nodes, rnd);
      Tree(g) && |g| == |nodes| + 1
      && g[|nodes|] == BestParent(c, nodes, newNode, FindNearNodes(c.math, nodes, newNode))
  {
    var newNode := Steered(c, nodes, rnd);
    var nearInds := FindNearNodes(c.math, nodes, newNode);
    var chosen := BestParent(c, nodes, newNode, nearInds);
    GrowPreservesTree(c, nodes, rnd);
    RewireFrame(c, nodes + [chosen], chosen, nearInds);
    assert |nodes| !in nearInds;
  }

  /**
   * How the search ends: it raises ZeroDivisionError when the start-to-goal
   * distance cMin is zero (the sampling frame divides by it before the loop),
   * and otherwise returns the last recorded path, if any.
   */
  datatype SearchResult = ZeroDivision | Returned(path: Option<seq<Point>>)

  /** A recorded path runs from the goal to the start. */
  predicate GoalToStart(c: Config, path: seq<Point>) {
    2 <= |path| && path[0] == c.goal && path[|path| - 1] == c.start
  }

  /**
   * The goal test after an iteration: when a node was appended, lies within one
   * step of the goal, and its course is shorter than pathLen, that course and
   * its length are recorded; otherwise the previous record stands.
   */
  ghost function Recorded(c: Config, before: seq<Node>, after: seq<Node>, pathLen: Cost,
                          cBest: Cost, path: Option<seq<Point>>): (Cost, Option<seq<Point>>)
    requires Tree(after)
  {
    if |after| == |before| + 1 && IsNearGoal(c, after[|after| - 1]) then
      var t := Course(c.start, c.goal, after, |after| - 1);
      if Fin(PathLen(c.math, t)).Less(pathLen) then (Fin(PathLen(c.math, t)), Some(t)) else (cBest, path)
    else (cBest, path)
  }

  /**
   * A record that changed holds a course from the goal to the start, its
   * length, and that length is below pathLen.
   */
  lemma RecordedSound(c: Config, before: seq<Node>, after: seq<Node>, pathLen: Cost,
                      cBest: Cost, path: Option<seq<Point>>)
    requires Tree(after)
    ensures var r := Recorded(c, before, after, pathLen, cBest, path);
      && (r.1 != path ==> r.1.Some? && GoalToStart(c, r.1.value) && r.0 == Fin(PathLen(c.math, r.1.value)))
      && (r != (cBest, path) ==> r.0.Less(pathLen))
  {
    if |after| == |before| + 1 && IsNearGoal(c, after[|after| - 1]) {
      var t := Course(c.start, c.goal, after, |after| - 1);
      var len := PathLen(c.math, t);
      CourseShape(c.start, c.goal, after, |after| - 1);
      assert GoalToStart(c, t);
      RecordedAfterGoal(c, before, after, pathLen, cBest, path, t, len);
    }
  }

  /** An iteration that appends nothing leaves the record as it was. */
  lemma RecordedUnchanged(c: Config, nodes: seq<Node>, pathLen: Cost, cBest: Cost, path: Option<seq<Point>>)
    requires Tree(nodes)
    ensures Recorded(c, nodes, nodes, pathLen, cBest, path) == (cBest, path)
  {
  }

  /**
   * An iteration that appended a goal-reaching node, whose course is t of
   * length len, records that course exactly when len is below pathLen.
   */
  lemma RecordedAfterGoal(c: Config, before: seq<Node>, after: seq<Node>, pathLen: Cost,
                          cBest: Cost, path: Option<seq<Point>>, t: seq<Point>, len: real)
    requires Tree(after) && |after| == |before| + 1 && IsNearGoal(c, after[|after| - 1])
    requires t == Course(c.start, c.goal, after, |after| - 1) && len == PathLen(c.math, t)
    ensures Recorded(c, before, after, pathLen, cBest, path)
         == if Fin(len).Less(pathLen) then (Fin(len), Some(t)) else (cBest, path)
  {
  }

  /**
   * With pathLen left at infinity, as the search leaves it, every goal-reaching
   * insertion replaces the record by the new course and its length.
   */
  lemma RecordedAlwaysReplaces(c: Config, before: seq<Node>, after: seq<Node>,
                               cBest: Cost, path: Option<seq<Point>>)
    requires Tree(after) && |after| == |before| + 1 && IsNearGoal(c, after[|after| - 1])
    ensures var t := Course(c.start, c.goal, after, |after| - 1);
      Recorded(c, before, after, Inf, cBest, path) == (Fin(PathLen(c.math, t)), Some(t))
  {
  }

  /** An iteration that appended a node away from the goal leaves the record as it was. */
  lemma RecordedAwayFromGoal(c: Config, before: seq<Node>, after: seq<Node>, pathLen: Cost,
                             cBest: Cost, path: Option<seq<Point>>)
    requires Tree(after) && |after| == |before| + 1 && !IsNearGoal(c, after[|after| - 1])
    ensures Recorded(c, before, after, pathLen, cBest, path) == (cBest, path)
  {
  }

  class InformedRRTStar {
    const cfg: Config
    var nodeList: seq<Node>

    /** Stores the parameters; the arena is created by the search. */
    constructor (start: Point, goal: Point, obstacleList: seq<Obstacle>, randArea: (real, real), math: MathLib,
                 expandDis: real := 0.5, goalSampleRate: int := 10, maxIter: int := 200)
      ensures cfg == Config(start, goal, obstacleList, randArea.0, randArea.1, expandDis, goalSampleRate, maxIter, math)
      ensures nodeList == []
    {
      cfg := Config(start, goal, obstacleList, randArea.0, randArea.1, expandDis, goalSampleRate, maxIter, math);
      nodeList := [];
    }

    /**
     * check_collision_extend: steps a copy of nearNode int(d / expandDis) times
     * along theta and point-tests each stepped position, stopping at the first
     * collision. `tests` counts the point tests performed.
     */
    method CheckCollisionExtend(nearNode: Node, theta: real, d: real) returns (safe: bool, ghost tests: nat)
      requires 0.0 < cfg.expandDis
      ensures safe == ExtendFree(cfg, Pos(nearNode), theta, d)
      ensures var n := StepCount(d, cfg.expandDis);
        safe ==> tests == (if n < 0 then 0 else n)
      ensures !safe ==>
        && 1 <= tests <= StepCount(d, cfg.expandDis)
        && !CollisionCheck(StepPoint(cfg.math, cfg.expandDis, Pos(nearNode), theta, tests), cfg.obstacles)
        && (forall k :: 1 <= k < tests ==> CollisionCheck(StepPoint(cfg.math, cfg.expandDis, Pos(nearNode), theta, k), cfg.obstacles))
    {
      var tmpNode := nearNode;
      var n := Trunc(d / cfg.expandDis);
      var i := 0;
      tests := 0;
      while i < n
        invariant 0 <= i && (i <= n || i == 0)
        invariant tests == i
        invariant Pos(tmpNode) == StepPoint(cfg.math, cfg.expandDis, Pos(nearNode), theta, i)
        invariant forall k :: 1 <= k <= i ==> CollisionCheck(StepPoint(cfg.math, cfg.expandDis, Pos(nearNode), theta, k), cfg.obstacles)
      {
        StepPointNext(cfg.math, cfg.expandDis, Pos(nearNode), theta, i);
        tmpNode := tmpNode.(x := tmpNode.x + Scaled(cfg.expandDis, Cos(cfg.math, theta)));
        tmpNode := tmpNode.(y := tmpNode.y + Scaled(cfg.expandDis, Sin(cfg.math, theta)));
        assert Pos(tmpNode) == StepPoint(cfg.math, cfg.expandDis, Pos(nearNode), theta, i + 1);
        tests := tests + 1;
        if !CollisionCheck(Pos(tmpNode), cfg.obstacles) {
          return false, tests;
        }
        i := i + 1;
      }
      return true, tests;
    }

    /**
     * choose_parent: builds the candidate list over nearInds, then keeps the
     * first minimum when it is finite.
     */
    method ChooseParent(newNode: Node, nearInds: seq<nat>) returns (r: Node)
      requires 0.0 < cfg.expandDis && AllInRange(nearInds, |nodeList|)
      ensures r == BestParent(cfg, nodeList, newNode, nearInds)
    {
      if |nearInds| == 0 {
        return newNode;
      }
      var dList: seq<Cost> := [];
      for k := 0 to |nearInds|
        invariant |dList| == k
        invariant forall j :: 0 <= j < k ==> dList[j] == Candidate(cfg, nodeList, newNode, nearInds[j])
      {
        var i := nearInds[k];
        var dx := newNode.x - nodeList[i].x;
        var dy := newNode.y - nodeList[i].y;
        var d := Sqrt(cfg.math, Sq(dx) + Sq(dy));
        var theta := Atan2(cfg.math, dy, dx);
        var free, _ := CheckCollisionExtend(nodeList[i], theta, d);
        if free {
          dList := dList + [Fin(nodeList[i].cost + d)];
        } else {
          dList := dList + [Inf];
        }
      }
      assert dList == Candidates(cfg, nodeList, newNode, nearInds);
      var minCost := MinCost(dList);
      var minInd := nearInds[IndexOf(dList, minCost)];
      if minCost == Inf {
        return newNode;
      }
      r := newNode.(cost := minCost.v, parent := Some(minInd));
    }

    /**
     * rewire: for each near index in turn, re-points that node at the newest
     * index when the route through newNode is strictly cheaper and collision-free.
     */
    method Rewire(newNode: Node, nearInds: seq<nat>)
      requires 0.0 < cfg.expandDis && 0 < |nodeList| && AllInRange(nearInds, |nodeList|)
      modifies this
      ensures nodeList == RewireAll(cfg, old(nodeList), newNode, nearInds)
    {
      for k := 0 to |nearInds|
        invariant nodeList == RewireAll(cfg, old(nodeList), newNode, nearInds[..k])
      {
        var i := nearInds[k];
        RewireAllSnoc(cfg, old(nodeList), newNode, nearInds[..k], i);
        assert nearInds[..k + 1] == nearInds[..k] + [i];
        RewireNode(i, newNode);
      }
      assert nearInds[..|nearInds|] == nearInds;
    }

    /**
     * The body of rewire's loop for near index i: node i is re-pointed at the
     * last node when the route through newNode is strictly cheaper and the
     * edge towards newNode passes the segment test.
     */
    method RewireNode(i: nat, newNode: Node)
      requires 0.0 < cfg.expandDis && i < |nodeList|
      modifies this
      ensures nodeList == old(nodeList)[i := RewiredNode(cfg, old(nodeList)[i], newNode, |old(nodeList)| - 1)]
    {
      var nNode := |nodeList|;
      // nearNode aliases node_list[i] in the source; here it is copied out and written back
      var nearNode := nodeList[i];
      var d := LineCost(cfg.math, Pos(nearNode), Pos(newNode));
      var scost := newNode.cost + d;
      RewiredNodeBranches(cfg, nearNode, newNode, nNode - 1);
      if nearNode.cost > scost {
        var theta := Atan2(cfg.math, newNode.y - nearNode.y, newNode.x - nearNode.x);
        var free, _ := CheckCollisionExtend(nearNode, theta, d);
        if free {
          nearNode := nearNode.(parent := Some(nNode - 1), cost := scost);
        }
      }
      nodeList := nodeList[i := nearNode];
    }

    /**
     * get_final_course: the goal, then the position of each node reached by
     * following parent handles from lastIndex until the root, then the start.
     */
    method GetFinalCourse(lastIndex: nat) returns (path: seq<Point>)
      requires Tree(nodeList) && lastIndex < |nodeList|
      ensures path == Course(cfg.start, cfg.goal, nodeList, lastIndex)
    {
      path := [cfg.goal];
      var cur: nat := lastIndex;
      while nodeList[cur].parent.Some?
        invariant cur < |nodeList|
        invariant path + Positions(nodeList, Trail(nodeList, cur))
               == [cfg.goal] + Positions(nodeList, Trail(nodeList, lastIndex))
        decreases Rank(nodeList, cur)
      {
        var node := nodeList[cur];
        RankDecreases(nodeList, cur);
        ghost var t := Trail(nodeList, node.parent.value);
        assert Trail(nodeList, cur) == [cur] + t;
        assert Positions(nodeList, [cur] + t) == [Pos(node)] + Positions(nodeList, t);
        path := path + [Point(node.x, node.y)];
        cur := node.parent.value;
      }
      path := path + [cfg.start];
    }

    /** get_path_len: sums the segment lengths of a path. */
    static method GetPathLen(m: MathLib, path: seq<Point>) returns (pathLen: real)
      ensures pathLen == PathLen(m, path)
      ensures MathSound(m) ==> 0.0 <= pathLen
    {
      pathLen := 0.0;
      var i := 1;
      while i < |path|
        invariant 1 <= i
        invariant i <= |path| ==> pathLen == PathLen(m, path[..i])
        invariant |path| < i ==> |path| == 0 && pathLen == 0.0
      {
        assert path[..i + 1][..i] == path[..i];
        pathLen := pathLen + Sqrt(m, Sq(path[i].x - path[i - 1].x) + Sq(path[i].y - path[i - 1].y));
        i := i + 1;
      }
      assert i <= |path| ==> path[..i] == path;
      if MathSound(m) {
        PathLenNonNegative(m, path);
      }
    }

    /**
     * The tree-growing half of one pass of the search loop: steer towards the
     * sample and, when both collision tests pass, add the new node.
     * `added` tells whether a node was appended.
     */
    method ExtendTree(rnd: Point) returns (added: bool)
      requires ConfigOk(cfg) && Tree(nodeList)
      modifies this
      ensures Tree(nodeList)
      ensures var g := Grown(cfg, old(nodeList), rnd);
        && (added <==> g.Some?)
        && nodeList == if g.Some? then g.value else old(nodeList)
      ensures |nodeList| == |old(nodeList)| + (if added then 1 else 0)
    {
      var newNode;
      newNode, added := Steer(rnd);
      if added {
        AddNode(rnd, newNode);
      }
    }

    /**
     * The first half of a pass: the nearest node, the steering angle, the new
     * node one step towards the sample, and both collision tests.
     */
    method Steer(rnd: Point) returns (newNode: Node, valid: bool)
      requires 0.0 < cfg.expandDis && 0 < |nodeList|
      ensures newNode == Steered(cfg, nodeList, rnd)
      ensures valid == EdgeValid(cfg, nodeList, rnd)
    {
      var nind := GetNearestListIndex(nodeList, rnd);
      var nearestNode := nodeList[nind];
      var theta := Atan2(cfg.math, rnd.y - nearestNode.y, rnd.x - nearestNode.x);
      newNode := GetNewNode(cfg, theta, nind, nearestNode);
      var d := LineCost(cfg.math, Pos(nearestNode), Pos(newNode));
      var isCollision := CollisionCheck(Pos(newNode), cfg.obstacles);
      var isCollisionEx, _ := CheckCollisionExtend(nearestNode, theta, d);
      valid := isCollision && isCollisionEx;
    }

    /**
     * The second half of a pass, once both collision tests passed: near set,
     * parent choice, append and rewire.
     */
    method AddNode(ghost rnd: Point, newNode: Node)
      requires ConfigOk(cfg) && Tree(nodeList)
      requires EdgeValid(cfg, nodeList, rnd) && newNode == Steered(cfg, nodeList, rnd)
      modifies this
      ensures Grown(cfg, old(nodeList), rnd).Some? && nodeList == Grown(cfg, old(nodeList), rnd).value
      ensures Tree(nodeList) && |nodeList| == |old(nodeList)| + 1
    {
      GrowPreservesTree(cfg, nodeList, rnd);
      var nearInds := FindNearNodes(cfg.math, nodeList, newNode);
      var chosen := ChooseParent(newNode, nearInds);
      nodeList := nodeList + [chosen];
      Rewire(chosen, nearInds);
    }

    /**
     * One pass of the search loop: sample, grow the tree, and, when the
     * appended node is within one step of the goal, build its course and
     * record it if it is shorter than pathLen.
     */
    method Iterate(cBest: Cost, pathLen: Cost, path: Option<seq<Point>>, draw: Draw)
      returns (cBest': Cost, path': Option<seq<Point>>)
      requires ConfigOk(cfg) && Tree(nodeList)
      modifies this
      ensures Tree(nodeList)
      ensures var g := Grown(cfg, old(nodeList), InformedSample(cfg, cBest, draw));
        nodeList == if g.Some? then g.value else old(nodeList)
      ensures (cBest', path') == Recorded(cfg, old(nodeList), nodeList, pathLen, cBest, path)
      ensures |old(nodeList)| <= |nodeList| <= |old(nodeList)| + 1
    {
      cBest', path' := cBest, path;
      ghost var nodes := nodeList;
      var rnd := InformedSample(cfg, cBest, draw);
      var added := ExtendTree(rnd);
      if added {
        cBest', path' := RecordIfNearGoal(nodes, pathLen, cBest, path);
      } else {
        RecordedUnchanged(cfg, nodes, pathLen, cBest, path);
      }
    }

    /**
     * The goal test after a node was appended: when the newest node is within
     * one step of the goal, its course and course length are recorded if that
     * length is below pathLen.
     */
    method RecordIfNearGoal(ghost before: seq<Node>, pathLen: Cost, cBest: Cost, path: Option<seq<Point>>)
      returns (cBest': Cost, path': Option<seq<Point>>)
      requires Tree(nodeList) && |nodeList| == |before| + 1
      ensures (cBest', path') == Recorded(cfg, before, nodeList, pathLen, cBest, path)
    {
      cBest', path' := cBest, path;
      var lastIndex := |nodeList| - 1;
      if IsNearGoal(cfg, nodeList[lastIndex]) {
        var tempPath := GetFinalCourse(lastIndex);
        var tempPathLen := GetPathLen(cfg.math, tempPath);
        RecordedAfterGoal(cfg, before, nodeList, pathLen, cBest, path, tempPath, tempPathLen);
        if Fin(tempPathLen).Less(pathLen) {
          path' := Some(tempPath);
          cBest' := Fin(tempPathLen);
        }
      } else {
        RecordedAwayFromGoal(cfg, before, nodeList, pathLen, cBest, path);
      }
    }

    /**
     * informed_rrt_star_search: resets the arena to the root, computes cMin
     * (and fails when the frame's division by it cannot be done), then runs
     * the loop body maxIter times, iteration i consuming draws[i]. pathLen is
     * never lowered from infinity, so every goal-reaching insertion replaces
     * the path.
     */
    method InformedRrtStarSearch(draws: seq<Draw>) returns (r: SearchResult)
      requires ConfigOk(cfg) && cfg.maxIter <= |draws|
      modifies this
      ensures Tree(nodeList)
      ensures r.ZeroDivision? <==> LineCost(cfg.math, cfg.start, cfg.goal) == 0.0
      ensures r.ZeroDivision? ==> nodeList == [Root(cfg.start)]
      ensures r.Returned? ==> 1 <= |nodeList| <= 1 + (if cfg.maxIter < 0 then 0 else cfg.maxIter)
      ensures r.Returned? && r.path.Some? ==> GoalToStart(cfg, r.path.value)
    {
      nodeList := [Root(cfg.start)];
      InitialTree(cfg.start);
      var cBest := Inf;
      var pathLen := Inf;
      var path := None;
      var cMin := LineCost(cfg.math, cfg.start, cfg.goal);
      if cMin == 0.0 {
        return ZeroDivision;
      }
      var i := 0;
      while i < cfg.maxIter
        invariant ConfigOk(cfg) && Tree(nodeList)
        invariant 0 <= i && (i <= cfg.maxIter || i == 0)
        invariant 1 <= |nodeList| <= 1 + i
        invariant path.Some? ==> GoalToStart(cfg, path.value)
      {
        ghost var nodes, cBest0, path0 := nodeList, cBest, path;
        cBest, path := Iterate(cBest, pathLen, path, draws[i]);
        RecordedSound(cfg, nodes, nodeList, pathLen, cBest0, path0);
        i := i + 1;
      }
      r := Returned(path);
    }
  }
}
