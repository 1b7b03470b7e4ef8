/**
 * Planar geometry of the planner: positions, the math-library calls it makes,
 * circular obstacles, the point and segment collision tests, path length,
 * and the extended cost scale used for "infinite" costs.
 */
module Geometry {

  /** A position in the plane. */
  datatype Point = Point(x: real, y: real)

  /**
   * The math-library calls the planner makes. Their values are not modelled:
   * they are parameters, and the only fact assumed about them is MathSound.
   */
  datatype MathLib = MathLib(
    sqrt: real -> real,
    cos: real -> real,
    sin: real -> real,
    atan2: (real, real) -> real,
    log: real -> real)

  // One heap-free entry point per library call, so that every use of a call
  // denotes the same term.
  function Sqrt(m: MathLib, v: real): real { m.sqrt(v) }
  function Cos(m: MathLib, t: real): real { m.cos(t) }
  function Sin(m: MathLib, t: real): real { m.sin(t) }
  function Atan2(m: MathLib, y: real, x: real): real { m.atan2(y, x) }
  function Log(m: MathLib, v: real): real { m.log(v) }

  /** The one property of the square root the model relies on. */
  ghost predicate MathSound(m: MathLib) {
    forall v :: 0.0 <= v ==> 0.0 <= Sqrt(m, v)
  }

  function Sq(v: real): real { v * v }

  lemma SqNonNegative(v: real)
    ensures 0.0 <= Sq(v)
  {
    if v < 0.0 {
      assert Sq(v) == (-v) * (-v);
    }
  }

  /** A cost that may be infinite, as Python's float('inf'). */
  datatype Cost = Fin(v: real) | Inf {

    predicate Less(other: Cost) {
      match (this, other)
      case (Fin(a), Fin(b)) => a < b
      case (Fin(_), Inf) => true
      case (Inf, _) => false
    }
  }

  /** A circular obstacle with centre (ox, oy) and radius size. */
  datatype Obstacle = Obstacle(ox: real, oy: real, size: real)

  /** The point test's collision condition: 10% inflation on the squared radius. */
  predicate Hits(o: Obstacle, p: Point) {
    var dx := o.ox - p.x;
    var dy := o.oy - p.y;
    dx * dx + dy * dy <= 1.1 * Sq(o.size)
  }

  /**
   * collision_check: scans the obstacles in order and reports false ("collision")
   * at the first one the point hits, true ("safe") when none is hit.
   */
  function CollisionCheck(p: Point, obstacles: seq<Obstacle>): bool {
    if |obstacles| == 0 then true
    else if Hits(obstacles[0], p) then false
    else CollisionCheck(p, obstacles[1..])
  }

  /**
   * The point test is safe exactly when no obstacle is hit; the early return
   * does not change the verdict.
   */
  lemma {:induction false} CollisionCheckMeaning(p: Point, obstacles: seq<Obstacle>)
    ensures CollisionCheck(p, obstacles) <==> forall k :: 0 <= k < |obstacles| ==> !Hits(obstacles[k], p)
    ensures |obstacles| == 0 ==> CollisionCheck(p, obstacles)
  {
    if |obstacles| != 0 {
      CollisionCheckMeaning(p, obstacles[1..]);
      assert forall k :: 1 <= k < |obstacles| ==> obstacles[k] == obstacles[1..][k - 1];
    }
  }

  /** Python's int() on a float: truncation toward zero. */
  function Trunc(v: real): int {
    if 0.0 <= v then v.Floor else -((-v).Floor)
  }

  /** Truncation lands on the integer next to v on the side of zero. */
  lemma TruncBounds(v: real)
    ensures 0.0 <= v ==> 0 <= Trunc(v) && Trunc(v) as real <= v < Trunc(v) as real + 1.0
    ensures v < 0.0 ==> Trunc(v) <= 0 && Trunc(v) as real - 1.0 < v <= Trunc(v) as real
  {
  }

  /** One step of length `step` times a direction component. */
  function Scaled(step: real, component: real): real { step * component }

  /** A coordinate after k increments of delta, added one at a time. */
  function Stepped(start: real, delta: real, k: nat): real {
    if k == 0 then start else Stepped(start, delta, k - 1) + delta
  }

  lemma SteppedOnce(start: real, delta: real)
    ensures Stepped(start, delta, 1) == start + delta
  {
  }

  /** The k-th point the segment test visits from `from` towards angle theta. */
  function StepPoint(m: MathLib, step: real, from: Point, theta: real, k: nat): Point {
    Point(Stepped(from.x, Scaled(step, Cos(m, theta)), k), Stepped(from.y, Scaled(step, Sin(m, theta)), k))
  }

  lemma StepPointOnce(m: MathLib, step: real, from: Point, theta: real)
    ensures StepPoint(m, step, from, theta, 1)
         == Point(from.x + Scaled(step, Cos(m, theta)), from.y + Scaled(step, Sin(m, theta)))
  {
    SteppedOnce(from.x, Scaled(step, Cos(m, theta)));
    SteppedOnce(from.y, Scaled(step, Sin(m, theta)));
  }

  lemma StepPointNext(m: MathLib, step: real, from: Point, theta: real, k: nat)
    ensures StepPoint(m, step, from, theta, k + 1)
         == Point(StepPoint(m, step, from, theta, k).x + Scaled(step, Cos(m, theta)),
                  StepPoint(m, step, from, theta, k).y + Scaled(step, Sin(m, theta)))
  {
  }

  /** The number of point tests the segment test performs on an edge of length d. */
  function StepCount(d: real, step: real): int
    requires step != 0.0
  {
    Trunc(d / step)
  }

  /** An edge shorter than one step gets no stepped point. */
  lemma ShortEdgeNoSteps(d: real, step: real)
    requires 0.0 < step
    ensures 0.0 <= d < step ==> StepCount(d, step) == 0
  {
    var q := d / step;
    assert q * step == d;
    TruncBounds(q);
    if 1.0 <= q {
      assert 0.0 <= (q - 1.0) * step;
      assert step <= q * step;
    }
  }

  /** ... and so it passes the segment test. */
  lemma ShortEdgeFree(m: MathLib, obstacles: seq<Obstacle>, step: real, from: Point, theta: real, d: real)
    requires 0.0 < step && 0.0 <= d < step
    ensures SegmentFree(m, obstacles, step, from, theta, d)
  {
    ShortEdgeNoSteps(d, step);
  }

  /**
   * The segment test's verdict: every one of the StepCount(d, step) stepped points
   * passes the point test. An edge shorter than one step is checked nowhere.
   */
  function SegmentFree(m: MathLib, obstacles: seq<Obstacle>, step: real, from: Point, theta: real, d: real): bool
    requires 0.0 < step
  {
    forall k :: 1 <= k <= StepCount(d, step) ==> CollisionCheck(StepPoint(m, step, from, theta, k), obstacles)
  }

  /**
   * Euclidean distance, first point's coordinates first: line_cost, and the
   * same expression written out in get_path_len, choose_parent and rewire.
   */
  function LineCost(m: MathLib, a: Point, b: Point): real {
    Sqrt(m, Sq(a.x - b.x) + Sq(a.y - b.y))
  }

  lemma LineCostNonNegative(m: MathLib, a: Point, b: Point)
    requires MathSound(m)
    ensures 0.0 <= LineCost(m, a, b)
  {
    SqNonNegative(a.x - b.x);
    SqNonNegative(a.y - b.y);
  }

  /** get_path_len's value: the sum of the lengths of consecutive segments. */
  function PathLen(m: MathLib, path: seq<Point>): real {
    if |path| < 2 then 0.0
    else PathLen(m, path[..|path| - 1]) + LineCost(m, path[|path| - 1], path[|path| - 2])
  }

  lemma {:induction false} PathLenNonNegative(m: MathLib, path: seq<Point>)
    requires MathSound(m)
    ensures 0.0 <= PathLen(m, path)
  {
    if 2 <= |path| {
      PathLenNonNegative(m, path[..|path| - 1]);
      var a, b := path[|path| - 1], path[|path| - 2];
      SqNonNegative(a.x - b.x);
      SqNonNegative(a.y - b.y);
    }
  }
}
