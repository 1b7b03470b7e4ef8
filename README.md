# Informed RRT* path planner — a Dafny model

This project models the core of the Informed RRT* planner of
`PathPlanning/InformedRRTStar/informed_rrt_star.py`: a sampling-based planner
that grows a tree of nodes from a start point across a plane scattered with
circular obstacles, re-wires the tree so that nodes are reached more cheaply,
and records a path whenever a node lands within one step of the goal.

The model follows the code, module by module:

- `Geometry` — points, the math library as parameters, circular obstacles and
  the point collision test (`collision_check`), Python's `int()` truncation,
  the stepped points visited by the segment test, the distance `line_cost`,
  and path length (`get_path_len`). Python's `float('inf')` is the `Cost` datatype.
- `Arena` — the node list as an append-only sequence of `Node` values linked by
  integer parent handles; the invariant `Tree` (root at index 0 with cost 0,
  every other node under an in-range parent that costs no more than it,
  and a ranking of the parent graph that makes it acyclic); the parent walk
  that `get_final_course` performs and the course it builds.
- `Neighbors` — `get_nearest_list_index` and `find_near_nodes`, both over the
  list of squared distances, with Python's `min` and `list.index`.
- `Settings` — the planner's parameters, the segment test's verdict
  (`check_collision_extend`) and `is_near_goal`.
- `Selection` — `choose_parent`: the candidate cost list and its first finite
  minimum.
- `Rewiring` — `rewire`: one near node at a time, and the whole loop with its
  closed form, its frame and the preservation of the tree invariant.
- `Planner` — `sample_free_space`, the dispatch of `informed_sample`,
  `get_new_node`, and the class `InformedRRTStar` holding the configuration and
  the node list, with the imperative operations: `CheckCollisionExtend`,
  `ChooseParent`, `Rewire` (and its loop body `RewireNode`), `GetFinalCourse`,
  `GetPathLen`, the loop body of `informed_rrt_star_search` (`Steer` and
  `AddNode`, joined by `ExtendTree`, grow the tree; `RecordIfNearGoal` is the
  goal test; `Iterate` is a whole pass) and the search itself.
  The pure functions `Grown` and `Recorded` describe what one pass does to the
  node list and to the recorded path, and the lemmas beside them state what
  that pass guarantees.

Where the code differs from the algorithm's design, the code is modelled:

- A rewired node is re-pointed at the newest node, whose index is larger than
  its own, so a parent's index may be larger than its child's. Acyclicity is
  therefore not a matter of index order: it is proved from costs (a parent
  never costs more than its child, and rewiring lowers a cost strictly) with
  ghost tie-breaking stamps.
- Rewiring lowers the cost of the re-pointed node only; its descendants keep
  their old, now stale, costs. The invariant "a parent costs no more than its
  child" still holds, and that is what the model proves; it does not claim
  that a node's cost equals the length of its path to the root.
- `pathLen` is set to infinity before the loop and never updated, so every
  goal-reaching insertion replaces both `path` and `cBest`. The recording step
  is modelled for an arbitrary `pathLen` (`Planner.Recorded`) and the search
  passes infinity, as the code does; `Planner.RecordedAlwaysReplaces` states
  the consequence.
- `find_near_nodes` reports each near node by the first index holding the same
  squared distance, so two nodes at equal distance produce the same index
  twice and the later node is never considered (`Neighbors.NearNodesMayRepeat`).

## Model

| member | source | states |
|---|---|---|
| `Geometry.CollisionCheckMeaning` | PathPlanning/InformedRRTStar/informed_rrt_star.py:198-206 | the point test reports safe exactly when no obstacle is hit, a hit being squared distance at most 1.1 times the squared radius; with no obstacles every point is safe |
| `Geometry.CollisionCheck` | PathPlanning/InformedRRTStar/informed_rrt_star.py:198-206 | definition, no contract of its own: the in-order scan with its early return; its meaning is stated by CollisionCheckMeaning |
| `Geometry.TruncBounds` | PathPlanning/InformedRRTStar/informed_rrt_star.py:244 | `int()` of a non-negative value is the largest integer not above it, and of a negative value the smallest integer not below it |
| `Geometry.Trunc` | PathPlanning/InformedRRTStar/informed_rrt_star.py:244 | definition, no contract of its own: int() of a float; pinned down by TruncBounds |
| `Geometry.ShortEdgeNoSteps` | PathPlanning/InformedRRTStar/informed_rrt_star.py:244 | an edge shorter than one step gets no point test at all |
| `Settings.ShortExtendFree` | PathPlanning/InformedRRTStar/informed_rrt_star.py:241-250 | the segment test accepts every edge shorter than expandDis, whatever the obstacles |
| `Geometry.StepPointNext` | PathPlanning/InformedRRTStar/informed_rrt_star.py:244-246 | proof step: each stepped point is the previous one moved by one step along theta, as lines 245-246 update the copy |
| `Geometry.Stepped` | PathPlanning/InformedRRTStar/informed_rrt_star.py:245-246 | definition, no contract of its own: a coordinate after k increments added one at a time |
| `Geometry.StepPoint` | PathPlanning/InformedRRTStar/informed_rrt_star.py:242-246 | definition, no contract of its own: the position of the copy after k passes of the loop |
| `Geometry.StepCount` | PathPlanning/InformedRRTStar/informed_rrt_star.py:244 | definition, no contract of its own: the loop count int(d / expandDis) |
| `Geometry.SegmentFree` | PathPlanning/InformedRRTStar/informed_rrt_star.py:244-250 | definition, no contract of its own: every one of the StepCount stepped points passes the point test; CheckCollisionExtend is proved equal to it |
| `Settings.ExtendFree` | PathPlanning/InformedRRTStar/informed_rrt_star.py:241-250 | definition, no contract of its own: SegmentFree with the planner's step and obstacles; ShortExtendFree and CheckCollisionExtend state its properties |
| `Planner.InformedRRTStar.CheckCollisionExtend` | PathPlanning/InformedRRTStar/informed_rrt_star.py:241-250 | the verdict is true exactly when every stepped point passes the point test; when true all int(d / expandDis) points were tested, when false the last tested point is the first that collides |
| `Geometry.PathLenNonNegative` | PathPlanning/InformedRRTStar/informed_rrt_star.py:174-184 | a path's length is never negative when sqrt is |
| `Geometry.PathLen` | PathPlanning/InformedRRTStar/informed_rrt_star.py:174-184 | definition, no contract of its own: the sum of the lengths of consecutive segments; GetPathLen is proved equal to it |
| `Planner.InformedRRTStar.GetPathLen` | PathPlanning/InformedRRTStar/informed_rrt_star.py:174-184 | the loop computes the sum of consecutive segment lengths, and the result is non-negative when sqrt is |
| `Geometry.LineCost` | PathPlanning/InformedRRTStar/informed_rrt_star.py:187-188 | definition, no contract of its own: line_cost, also the distance written out at lines 111, 181-182 and 229-230; LineCostNonNegative states its bound |
| `Geometry.LineCostNonNegative` | PathPlanning/InformedRRTStar/informed_rrt_star.py:187-188 | the edge cost is never negative |
| `Neighbors.Min` | PathPlanning/InformedRRTStar/informed_rrt_star.py:194 | Python's min returns an element of the list that no element undercuts |
| `Neighbors.IndexOf` | PathPlanning/InformedRRTStar/informed_rrt_star.py:194 | list.index returns a position holding the value, and no earlier position holds it |
| `Neighbors.SqDistances` | PathPlanning/InformedRRTStar/informed_rrt_star.py:133-134 | definition: the squared-distance list also built at lines 192-193; its ensures only spell the comprehension out point by point, for the proofs that use it |
| `Neighbors.GetNearestListIndex` | PathPlanning/InformedRRTStar/informed_rrt_star.py:191-195 | the nearest index is a valid index into the node list |
| `Neighbors.NearestIsClosest` | PathPlanning/InformedRRTStar/informed_rrt_star.py:191-195 | the chosen node is at least as close to the sample as every node, and strictly closer than every node before it |
| `Neighbors.NearFilterCount` | PathPlanning/InformedRRTStar/informed_rrt_star.py:135 | the comprehension keeps one entry for every distance within the radius, so duplicates are not collapsed |
| `Neighbors.NearRadius` | PathPlanning/InformedRRTStar/informed_rrt_star.py:132 | definition, no contract of its own: the near radius 50 * sqrt(log n / n) |
| `Neighbors.NearFilter` | PathPlanning/InformedRRTStar/informed_rrt_star.py:135 | definition, no contract of its own: the comprehension, entry by entry; NearFilterSound, NearFilterComplete and NearFilterCount state its properties |
| `Neighbors.FindNearNodes` | PathPlanning/InformedRRTStar/informed_rrt_star.py:130-136 | every reported index is a valid node index; the rest of its meaning is stated by FindNearNodesMeaning |
| `Neighbors.FindNearNodesMeaning` | PathPlanning/InformedRRTStar/informed_rrt_star.py:130-136 | every reported index is a node within the near radius computed from the current size; every node within that radius is represented by an index at or before it with the same distance; there are as many entries as nodes within the radius |
| `Neighbors.NearNodesMayRepeat` | PathPlanning/InformedRRTStar/informed_rrt_star.py:135 | two nodes i < j within the near radius at the same distance from the new node give the same index, at or before i, twice, and j itself is never reported |
| `Neighbors.NearFilterRepeats` | PathPlanning/InformedRRTStar/informed_rrt_star.py:135 | two positions within the radius holding the same distance give two entries of the filter, both the first position holding it |
| `Planner.UniformInRange` | PathPlanning/InformedRRTStar/informed_rrt_star.py:166-167 | random.uniform from a value in [0, 1] lies in the sampling interval |
| `Planner.Uniform` | PathPlanning/InformedRRTStar/informed_rrt_star.py:166-167 | definition, no contract of its own: random.uniform(a, b) from a random.random() value; bounded by UniformInRange |
| `Planner.SampleFreeSpace` | PathPlanning/InformedRRTStar/informed_rrt_star.py:164-171 | a roll not above the goal sample rate yields the goal; a larger roll yields a point of the sampling square |
| `Planner.InformedSample` | PathPlanning/InformedRRTStar/informed_rrt_star.py:138-150 | definition, no contract of its own: the dispatch on cBest; the ellipse point itself is an input |
| `Planner.GetNewNode` | PathPlanning/InformedRRTStar/informed_rrt_star.py:208-216 | the new node hangs under the nearest node and costs strictly more than it when the step is positive |
| `Planner.NewNodeIsFirstStep` | PathPlanning/InformedRRTStar/informed_rrt_star.py:208-216 | the new node stands exactly at the first point the segment test visits on the edge from the nearest node |
| `Selection.Candidate` | PathPlanning/InformedRRTStar/informed_rrt_star.py:109-116 | a finite candidate cost is never below the candidate parent's own cost |
| `Selection.MinCost` | PathPlanning/InformedRRTStar/informed_rrt_star.py:118 | the minimum is an element of dList that no candidate undercuts |
| `Selection.BestParent` | PathPlanning/InformedRRTStar/informed_rrt_star.py:103-128 | parent choice never moves the node |
| `Selection.BestParentMeaning` | PathPlanning/InformedRRTStar/informed_rrt_star.py:103-128 | with no near nodes, or with every candidate infinite, the node comes back unchanged; otherwise its cost and parent come from the first near index whose finite candidate cost no candidate undercuts |
| `Selection.BestParentOrdered` | PathPlanning/InformedRRTStar/informed_rrt_star.py:125-126 | the chosen parent is a valid index that costs no more than the child |
| `Planner.InformedRRTStar.ChooseParent` | PathPlanning/InformedRRTStar/informed_rrt_star.py:103-128 | the loop builds dList and picks exactly the parent BestParent describes |
| `Rewiring.RewiredNode` | PathPlanning/InformedRRTStar/informed_rrt_star.py:227-239 | a near node keeps its position, never gets costlier, and is either untouched or re-pointed at the newest index with the route through the new node as cost, never below the new node's cost |
| `Rewiring.RewiredNodeChanges` | PathPlanning/InformedRRTStar/informed_rrt_star.py:234-239 | a near node changes if and only if the route through the new node is strictly cheaper and the edge towards it passes the segment test |
| `Rewiring.RewiredNodeBranches` | PathPlanning/InformedRRTStar/informed_rrt_star.py:234-239 | proof step: the outcome of each of the three branches of the two tests, used by the loop body |
| `Rewiring.RewiredNodeIdempotent` | PathPlanning/InformedRRTStar/informed_rrt_star.py:234-239 | visiting a near node a second time changes nothing |
| `Rewiring.RewireAllSnoc` | PathPlanning/InformedRRTStar/informed_rrt_star.py:226-239 | proof step: visiting one more near index rewires that node as it stands after the earlier visits |
| `Rewiring.RewireAll` | PathPlanning/InformedRRTStar/informed_rrt_star.py:224-239 | rewire's loop as a fold over nearInds, each node read as it stands; it keeps the length; RewireClosedForm and RewireFrame state what it does |
| `Rewiring.RewireClosedForm` | PathPlanning/InformedRRTStar/informed_rrt_star.py:224-239 | the loop's result does not depend on the order or repetition of near indices: a listed node is rewired from its original value, an unlisted node is untouched |
| `Rewiring.RewireFrame` | PathPlanning/InformedRRTStar/informed_rrt_star.py:224-239 | only listed nodes change; positions never move; no cost increases; a changed node points at the newest index with a strictly lower cost |
| `Rewiring.RewirePreservesTree` | PathPlanning/InformedRRTStar/informed_rrt_star.py:224-239 | rewiring with the new node last keeps the node list a tree rooted at index 0 |
| `Planner.InformedRRTStar.Rewire` | PathPlanning/InformedRRTStar/informed_rrt_star.py:224-239 | the in-place loop leaves the node list equal to the near nodes rewired one after another |
| `Planner.InformedRRTStar.RewireNode` | PathPlanning/InformedRRTStar/informed_rrt_star.py:227-239 | one loop pass replaces exactly node i by its rewired value and changes nothing else |
| `Arena.InitialTree` | PathPlanning/InformedRRTStar/informed_rrt_star.py:40 | the list holding only the start node satisfies the tree invariant |
| `Arena.AppendPreservesTree` | PathPlanning/InformedRRTStar/informed_rrt_star.py:84 | appending a node under an existing parent of no greater cost keeps the tree invariant |
| `Arena.RepointPreservesTree` | PathPlanning/InformedRRTStar/informed_rrt_star.py:238-239 | re-pointing nodes at the last node with a strictly lower cost, not below the last node's, keeps the tree invariant |
| `Arena.MaxStamp` | PathPlanning/InformedRRTStar/informed_rrt_star.py:84 | a stamp at least as large as every existing one; the callers add one to rank an appended or re-pointed node above all others |
| `Arena.RankBound` | PathPlanning/InformedRRTStar/informed_rrt_star.py:254-257 | the walk measure of a node is below the number of nodes |
| `Arena.RankDecreases` | PathPlanning/InformedRRTStar/informed_rrt_star.py:254-257 | following a parent handle strictly decreases the walk measure, so the walk ends |
| `Arena.Tree` | PathPlanning/InformedRRTStar/informed_rrt_star.py:254-257 | definition, no contract of its own: the invariant (root at index 0, in-range parents no costlier than their children, an acyclic ranking) that makes the parent walk end at the root |
| `Arena.Trail` | PathPlanning/InformedRRTStar/informed_rrt_star.py:254-257 | the nodes the walk visits; every entry is a valid index; TrailShape, TrailRanks, TrailDistinct and TrailBound state the rest |
| `Arena.TrailShape` | PathPlanning/InformedRRTStar/informed_rrt_star.py:254-257 | the walk starts at the given node, each entry is the parent of the one before, it holds only non-root nodes, ends under the root, and is empty exactly for the root |
| `Arena.TrailRanks` | PathPlanning/InformedRRTStar/informed_rrt_star.py:254-257 | the walk measure strictly decreases along the walk, which is no longer than the starting node's measure |
| `Arena.TrailDistinct` | PathPlanning/InformedRRTStar/informed_rrt_star.py:254-257 | the walk never visits a node twice |
| `Arena.TrailBound` | PathPlanning/InformedRRTStar/informed_rrt_star.py:254-257 | the walk has fewer hops than there are nodes |
| `Arena.Positions` | PathPlanning/InformedRRTStar/informed_rrt_star.py:256 | the positions appended along the walk, one per walked node, in order |
| `Arena.Course` | PathPlanning/InformedRRTStar/informed_rrt_star.py:252-259 | definition, no contract of its own: goal, walked positions, start; CourseShape states its shape and GetFinalCourse is proved equal to it |
| `Arena.CourseShape` | PathPlanning/InformedRRTStar/informed_rrt_star.py:252-259 | the course starts at the goal, ends at the start, visits the starting node second unless it is the root, and has at most one more point than there are nodes |
| `Planner.InformedRRTStar.GetFinalCourse` | PathPlanning/InformedRRTStar/informed_rrt_star.py:252-259 | the loop returns the goal, the position of every non-root node on the parent walk, then the start |
| `Planner.SteerAngle` | PathPlanning/InformedRRTStar/informed_rrt_star.py:70-73 | definition, no contract of its own: the atan2 angle from the nearest node to the sample |
| `Planner.Steered` | PathPlanning/InformedRRTStar/informed_rrt_star.py:70-74 | definition, no contract of its own: get_new_node applied to the nearest node; NewNodeIsFirstStep places it |
| `Planner.EdgeValid` | PathPlanning/InformedRRTStar/informed_rrt_star.py:75-80 | definition, no contract of its own: both collision tests of the loop; GrowPreservesTree ties it to appending |
| `Planner.Grown` | PathPlanning/InformedRRTStar/informed_rrt_star.py:69-85 | definition, no contract of its own: the node list after one pass; GrowPreservesTree, GrowFrame and GrowAppendsChosen state its properties |
| `Planner.GrowPreservesTree` | PathPlanning/InformedRRTStar/informed_rrt_star.py:69-85 | a pass appends exactly one node when both collision tests pass, none otherwise, and keeps the tree invariant |
| `Planner.GrowFrame` | PathPlanning/InformedRRTStar/informed_rrt_star.py:74-85 | the appended node sits where steering put it under an earlier node; earlier nodes keep their positions, no cost rises, and a changed node now hangs under the new node |
| `Planner.GrowAppendsChosen` | PathPlanning/InformedRRTStar/informed_rrt_star.py:80-85 | the appended node is the steered node with the parent choose_parent picked, unchanged by rewiring |
| `Planner.InformedRRTStar.ExtendTree` | PathPlanning/InformedRRTStar/informed_rrt_star.py:70-85 | the imperative steps leave the node list as Grown describes and report whether a node was appended, keeping the tree invariant |
| `Planner.InformedRRTStar.Steer` | PathPlanning/InformedRRTStar/informed_rrt_star.py:70-80 | the steered node is the nearest node moved one step towards the sample, and the verdict is true exactly when both collision tests pass |
| `Planner.InformedRRTStar.AddNode` | PathPlanning/InformedRRTStar/informed_rrt_star.py:81-85 | after both tests passed, the node list becomes the grown list Grown describes: one more node, still a tree |
| `Settings.IsNearGoal` | PathPlanning/InformedRRTStar/informed_rrt_star.py:218-222 | definition, no contract of its own: the strict test line_cost(node, goal) < expandDis |
| `Planner.Recorded` | PathPlanning/InformedRRTStar/informed_rrt_star.py:87-94 | definition, no contract of its own: path and cBest after one pass; RecordedSound, RecordedUnchanged, RecordedAwayFromGoal and RecordedAlwaysReplaces state its properties |
| `Planner.RecordedSound` | PathPlanning/InformedRRTStar/informed_rrt_star.py:87-94 | a recorded path runs from the goal to the start and cBest is its length, below pathLen |
| `Planner.RecordedUnchanged` | PathPlanning/InformedRRTStar/informed_rrt_star.py:80-94 | a pass that appends nothing leaves path and cBest as they were |
| `Planner.RecordedAfterGoal` | PathPlanning/InformedRRTStar/informed_rrt_star.py:87-94 | proof step: for a goal-reaching insertion whose course and length are given, the record is replaced exactly when that length is below pathLen |
| `Planner.InformedRRTStar.RecordIfNearGoal` | PathPlanning/InformedRRTStar/informed_rrt_star.py:87-94 | the goal test, course extraction, length and comparison update path and cBest exactly as Recorded describes |
| `Planner.RecordedAwayFromGoal` | PathPlanning/InformedRRTStar/informed_rrt_star.py:87 | an insertion away from the goal leaves path and cBest as they were |
| `Planner.RecordedAlwaysReplaces` | PathPlanning/InformedRRTStar/informed_rrt_star.py:43-94 | with pathLen left at infinity, every goal-reaching insertion replaces path and cBest by the new course and its length |
| `Planner.InformedRRTStar.Iterate` | PathPlanning/InformedRRTStar/informed_rrt_star.py:69-94 | one loop pass samples, grows the node list as Grown describes, keeps the tree invariant, grows it by at most one node, and updates path and cBest as Recorded describes |
| `Planner.InformedRRTStar.InformedRrtStarSearch` | PathPlanning/InformedRRTStar/informed_rrt_star.py:38-101 | raises ZeroDivisionError exactly when cMin, the start-to-goal distance, is zero, leaving the node list at the start node; otherwise ends with a valid tree of at most maxIter + 1 nodes, and any path it returns runs from the goal to the start |
| `Planner.InformedRRTStar.constructor` | PathPlanning/InformedRRTStar/informed_rrt_star.py:24-36 | the planner stores its parameters, with the defaults expandDis 0.5, goalSampleRate 10 and maxIter 200, and holds no nodes until the search starts |

## Left out

- Randomness: every random draw of one pass (the goal-bias roll, the two uniform
  values, and the point of the ellipse sampler) is an input, a `Draw` value;
  the search takes one per iteration.
- `informed_sample` beyond its dispatch, and `sample_unit_ball`: the point drawn
  from the ellipse is supplied by the `Draw`, so the transform built from
  `cMin`, `xCenter` and the rotation `C` (lines 48-61) is not modelled.
- The math library: `sqrt`, `cos`, `sin`, `atan2` and `log` are parameters with
  no interpretation; the only fact assumed is that `sqrt` of a non-negative
  value is non-negative.
- Floating point: coordinates and costs are exact reals; rounding is not
  modelled.
- Drawing and output: `draw_graph`, `plot_ellipse`, the `animation` flag, `main`
  and the `print` in `choose_parent` have no counterpart.
- `solutionSet` is only ever added to and never read, so it is not modelled.
- Aliasing: nodes are values. The start node, which the source also stores as
  `node_list[0]`, is modelled by its position; `rewire`'s `nearNode`, an alias
  of `node_list[i]` in the source, is read out, updated and written back.
- A positive `expandDis` is required by every operation that uses the segment
  test; the source divides by it without a check.
- `Planner.InformedRRTStar.Rewire`: requires a non-empty node list; the source
  only calls it right after appending the new node.
- `Planner.InformedRRTStar.InformedRrtStarSearch`: states the shape of the
  result and the tree invariant; what each pass does is stated by `Iterate`,
  and the search is not described by one function of all draws.
- `Neighbors.GetNearestListIndex`: its own contract only bounds the index; the
  nearest-node property is stated by `Neighbors.NearestIsClosest`.
- Plain definitions: the rows marked "definition, no contract of its own" name
  functions and predicates that only compute; their properties are stated by
  the lemmas and methods their rows name. `Settings.IsNearGoal` and
  `Planner.InformedSample` have no separate lemma; they are used by `Recorded`
  and `Iterate`. The ensures of `Neighbors.SqDistances` and
  `Selection.Candidates` only spell their comprehensions out point by point.
- The constructor leaves `node_list` as `None`; the model starts with the empty
  list, since nothing reads the list before the search replaces it.
- The constructor takes the math library as an extra parameter, placed before
  the defaulted ones.
- `Planner.InformedRRTStar.InformedRrtStarSearch`: ZeroDivisionError is the
  `ZeroDivision` result, raised when the computed cMin equals 0.0 (line 52); no
  other exception of the sampling frame (lines 48-61) is modelled.
