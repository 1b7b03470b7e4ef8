/**
 * The planner's construction-time parameters and the tests that read them:
 * the subdivided-segment test, the edge cost and the goal test.
 */
module Settings {
  import opened Geometry
  import opened Arena

  /**
   * start, goal, obstacle list, sampling bounds [minRand, maxRand], step length
   * expandDis, goal bias in percent, iteration budget, and the math library.
   */
  datatype Config = Config(
    start: Point,
    goal: Point,
    obstacles: seq<Obstacle>,
    minRand: real,
    maxRand: real,
    expandDis: real,
    goalSampleRate: int,
    maxIter: int,
    math: MathLib)

  /** What the planner needs of its parameters: a positive step and a sound square root. */
  ghost predicate ConfigOk(c: Config) {
    0.0 < c.expandDis && MathSound(c.math)
  }

  /**
   * check_collision_extend's verdict for an edge of length d leaving `from` at
   * angle theta: each of the int(d / expandDis) stepped points is safe.
   */
  function ExtendFree(c: Config, from: Point, theta: real, d: real): bool
    requires 0.0 < c.expandDis
  {
    SegmentFree(c.math, c.obstacles, c.expandDis, from, theta, d)
  }

  /** An edge shorter than expandDis is accepted without any point test. */
  lemma ShortExtendFree(c: Config, from: Point, theta: real, d: real)
    requires 0.0 < c.expandDis && 0.0 <= d < c.expandDis
    ensures ExtendFree(c, from, theta, d)
  {
    ShortEdgeFree(c.math, c.obstacles, c.expandDis, from, theta, d);
  }

  /** is_near_goal: the strict test that the node lies closer to the goal than one step. */
  predicate IsNearGoal(c: Config, n: Node) {
    LineCost(c.math, Pos(n), c.goal) < c.expandDis
  }
}
