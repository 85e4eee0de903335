# Navigation core of the `blac8074` spacesettlers team

This project is a Dafny model of the navigation and decision core of the
`blac8074` team client for the spacesettlers simulator. It proves properties
of that model. The model covers the following parts.

- **The toroidal occupancy grid.**
  - `BeeUtil` and `BeeGraph.findAdjacentIndices` give the eight neighbours of
    a cell on a `width × height` torus.
  - `BeeNode` is a cell: its centre, an obstructed flag, and a
    neighbour → edge-cost map.
  - `BeeGraph` holds the nodes. It obstructs and unobstructs cells by scaling
    the costs of the edges that lead into a cell by `MULT = 1e6`. It folds
    distances across the torus and wraps positions back into the arena. It
    searches the grid with A* and with hill climbing.
- **Pure-pursuit target selection.**
  - `BeePursuit` intersects each path segment with a circle around the ship
    and picks the point to steer towards.
  - `PurePursuit` is its older form.
  - The shared circle–line algebra is in `CircleLine`.
- **The team client's glue** (`TeamClient`). It builds the grid, converts
  positions to cells, scans half of the grid for obstructions on each of two
  ticks, sums path lengths, widens the lookahead radius up to twenty times,
  and aims at the ship's own position when a chased object is close.
- **`BeePlanner`.** It assigns tasks to ships in a fixed priority order and
  keeps the "someone is doing X" flags.
- **`BeeChromosome` and `BeePopulation`.** They handle crossover, bounded
  mutation, descending sort with elitism, tournament selection, and the
  string forms.

**How the model stands for the Java code**

- A class whose fields the Java code updates becomes a Dafny `class` with
  those fields. The operations that change it are methods, each proved
  against a specification function on values.
- The grid itself is also kept as a value, `BeeGraph.Cells` (flags and cost
  maps). The node objects are proved to mirror it.
- The following are parameters of the methods that use them:
  - `Math.sqrt` is a function `sqrt: real -> real`. Lemmas that need a true
    root ask for `IsRoot` or `ExactSqrt`.
  - The simulator's `findShortestDistanceVector`, `findShortestDistance` and
    world objects are the `Space` and `World` values.
  - The random draws.
  - `Double.toString`.
- A Java `null` result is `None`.
- A node reference is modelled as its cell index.

**Helper modules**

- `Geometry`: positions, vectors, distances.
- `JavaNum`: Java's truncating `/`, `%`, `(int)` and floating `%`.
- `ScanFold`: a generic lemma about "last segment that offers something"
  loops.
- `Wrappers`: `Option`.

## Model

| member | source | states |
|---|---|---|
| JavaNum.Div | src/blac8074/BeeUtil.java:7 | Java's `/` on `int` rounds toward zero. It is never negative when both operands have the same sign, and it equals Euclidean division for a non-negative dividend and a positive divisor |
| JavaNum.Rem | src/blac8074/BeeUtil.java:8 | Java's `%` on `int` satisfies `a == (a / b) * b + a % b`, and it equals Euclidean remainder for a non-negative dividend and a positive divisor |
| JavaNum.Half | src/blac8074/BeeChromosome.java:28 | Java's `(a + b) / 2` rounds toward zero on both signs: `2h ≤ a < 2h + 2` for non-negative a, and `2h − 2 < a ≤ 2h` for negative a |
| JavaNum.HalfIsDiv | src/blac8074/BeeChromosome.java:28 | halving is Java's integer division by 2 |
| JavaNum.Trunc | src/blac8074/BeehaviorTeamClient.java:1045-1046 | the `(int)` cast of a double drops the fractional part toward zero |
| JavaNum.FMod | src/blac8074/BeeGraph.java:304-305 | Java's `%` of a non-negative double by a positive one lies in `[0, m)` |
| JavaNum.FModBounds | src/blac8074/BeeGraph.java:304-305 | with `t` the truncated quotient, `m·t ≤ x < m·t + m`: the remainder removes a whole number of periods |
| JavaNum.StepsToNonNegative | src/blac8074/BeeGraph.java:296-302 | the number of additions of the extent that the `while (x < 0)` loops of `toroidalWrap` need is non-negative and makes the coordinate non-negative |
| Geometry.RootOrder | src/blac8074/BeePursuit.java:108 | for non-negative values, comparing a root with the radius is the same as comparing squares |
| BeeUtil.Opposite | src/blac8074/BeeUtil.java:9-108 | each of the eight directions has an opposite direction whose row and column offsets are negated (right/left, up/down, up-right/down-left, up-left/down-right) |
| BeeUtil.FindAdjacentIndices | src/blac8074/BeeUtil.java:5-110 | the neighbour formula yields exactly eight indices |
| BeeUtil.AdjacentIndicesAreTorusNeighbours | src/blac8074/BeeUtil.java:9-108 | for a cell on the grid, entry k is the cell at `((row + dr_k) mod height, (column + dc_k) mod width)`, in the order right, left, up, down, up-right, up-left, down-right, down-left |
| BeeUtil.AdjacentEntry | src/blac8074/BeeUtil.java:9-108 | the same for a single direction k, branch by branch |
| BeeUtil.TorusNeighbourInRange | src/blac8074/BeeUtil.java:5-110 | every torus neighbour is a cell of the grid |
| BeeUtil.AdjacentIndicesInRange | src/blac8074/BeeUtil.java:5-110 | every entry lies in `[0, width·height)` whenever the cell does |
| BeeUtil.TorusNeighbourSymmetric | src/blac8074/BeeUtil.java:5-110 | stepping in direction k and then in its opposite returns to the cell |
| BeeUtil.AdjacentIndicesSymmetric | src/blac8074/BeeUtil.java:5-110 | entry `Opposite(k)` of entry k's neighbours is the original index |
| BeeUtil.NeighboursSymmetric | src/blac8074/BeeUtil.java:5-110 | j is a neighbour of i if and only if i is a neighbour of j |
| BeeUtil.AdjacentIndicesDistinct | src/blac8074/BeeUtil.java:9-108 | on a grid at least 3 × 3 the eight entries are pairwise distinct and none is the cell itself |
| BeeUtil.OffsetMoves | src/blac8074/BeeUtil.java:9-108 | on such a grid no direction leads back to the same cell |
| BeeUtil.OffsetsDiffer | src/blac8074/BeeUtil.java:9-108 | on such a grid two different directions lead to different cells |
| BeeNode.BeeNode.constructor | src/blac8074/BeeNode.java:15-18 | a new node keeps the given position (what `getPosition` returns), has no neighbours and is not obstructed |
| BeeNode.BeeNode.AddAdjacent | src/blac8074/BeeNode.java:20-22 | the adjacency map becomes `Put` of the old one; the flag is unchanged |
| BeeNode.BeeNode.RemoveAdjacent | src/blac8074/BeeNode.java:24-26 | the adjacency map becomes `Remove` of the old one; the flag is unchanged |
| BeeNode.Put | src/blac8074/BeeNode.java:20-22 | the key maps to the new cost, replacing any earlier one, and every other entry is unchanged |
| BeeNode.Remove | src/blac8074/BeeNode.java:24-26 | only the key is removed, the other costs are unchanged, and an absent key leaves the map as it was |
| BeeNode.PutThenRemove | src/blac8074/BeeNode.java:20-26 | adding a fresh key and removing it again restores the map |
| BeeNode.RemoveThenPut | src/blac8074/BeeNode.java:20-26 | removing a key and putting back its cost restores the map |
| BeeGraph.ObstructResult | src/blac8074/BeeGraph.java:53-67 | `obstructNode` reports true exactly when the cell was clear, and afterwards the cell is obstructed |
| BeeGraph.UnobstructResult | src/blac8074/BeeGraph.java:69-82 | `unobstructNode` reports true exactly when the cell was obstructed, and afterwards the cell is clear |
| BeeGraph.ObstructIdempotent | src/blac8074/BeeGraph.java:53-67 | a second `obstructNode` returns false and changes nothing |
| BeeGraph.UnobstructIdempotent | src/blac8074/BeeGraph.java:69-82 | a second `unobstructNode` returns false and changes nothing |
| BeeGraph.ObstructFrame | src/blac8074/BeeGraph.java:53-67 | obstructing cell i changes only i's flag and, for each neighbour v, the cost of the edge v → i, which is multiplied by MULT; no other cost changes |
| BeeGraph.RescaledEdge | src/blac8074/BeeGraph.java:58-61 | after rescaling, each edge keeps its cost except the edges into i, which are multiplied (obstructing) or divided (unobstructing) by MULT |
| BeeGraph.RescaleKeeps | src/blac8074/BeeGraph.java:58-61 | rescaling keeps every cell's set of neighbours |
| BeeGraph.RescaleSymmetric | src/blac8074/BeeGraph.java:58-61 | rescaling keeps the neighbour relation symmetric |
| BeeGraph.ObstructRoundTrip | src/blac8074/BeeGraph.java:53-82 | `unobstructNode(i)` after `obstructNode(i)` on a clear cell returns true and restores every flag and edge cost exactly |
| BeeGraph.UnobstructRoundTrip | src/blac8074/BeeGraph.java:53-82 | `obstructNode(i)` after `unobstructNode(i)` on an obstructed cell returns true and restores the state exactly |
| BeeGraph.ObstructKeepsWellFormed | src/blac8074/BeeGraph.java:53-67 | obstructing keeps the invariant that every edge costs its nominal cost times MULT when it leads into an obstructed cell, and its nominal cost otherwise |
| BeeGraph.UnobstructKeepsWellFormed | src/blac8074/BeeGraph.java:69-82 | unobstructing keeps the same invariant |
| BeeGraph.RescaleKeepsWellFormed | src/blac8074/BeeGraph.java:53-82 | flipping one flag and rescaling the edges into that cell keeps the invariant |
| BeeGraph.RescaledRow | src/blac8074/BeeGraph.java:58-61 | after the flip every cost of one cell's map is its nominal cost scaled by the new flag of its target |
| BeeGraph.RescaledCost | src/blac8074/BeeGraph.java:58-61 | the same for a single edge |
| BeeGraph.ScaledFactor | src/blac8074/BeeGraph.java:60 | multiplying (dividing) a cost with the old scale by MULT gives the nominal cost with the new scale |
| BeeGraph.FlagsDetermineCosts | src/blac8074/BeeGraph.java:53-82 | two well-formed states with the same flags have the same costs: the costs follow from the flags alone |
| BeeGraph.ShortestDistanceVectorFolds | src/blac8074/BeeGraph.java:125-152 | the nine branches fold the x and y differences independently |
| BeeGraph.FoldBounds | src/blac8074/BeeGraph.java:125-152 | a difference within one full extent folds into `[-half, half]` and changes by 0 or ± the extent |
| BeeGraph.ShortestDistanceVectorAntisymmetric | src/blac8074/BeeGraph.java:125-152 | swapping the two positions negates the folded vector |
| BeeGraph.ShortestDistanceSymmetric | src/blac8074/BeeGraph.java:106-110 | `findShortestDistance` is symmetric in its arguments; this includes the `(int)` cast of the grid size in the full extent |
| BeeGraph.BeeGraph.constructor | src/blac8074/BeeGraph.java:22-27 | a new graph has `size` empty slots and the given height, width and grid size |
| BeeGraph.BeeGraph.AddNode | src/blac8074/BeeGraph.java:29-31 | only slot `index` changes, and it now holds `node` |
| BeeGraph.BeeGraph.ObstructNode | src/blac8074/BeeGraph.java:53-67 | the nodes then hold `Obstruct` of the old grid value, the result is its flag, and the graph's invariant is kept |
| BeeGraph.BeeGraph.UnobstructNode | src/blac8074/BeeGraph.java:69-82 | the nodes then hold `Unobstruct` of the old grid value, the result is its flag, and the graph's invariant is kept |
| BeeGraph.BeeGraph.ScaleEdgesInto | src/blac8074/BeeGraph.java:58-61 | after the loop over the cell's neighbours, the node objects hold the rescaled costs |
| BeeGraph.BeeGraph.FindAdjacentIndices | src/blac8074/BeeGraph.java:309-415 | the graph's copy of the neighbour formula, written out branch by branch, equals `BeeUtil.findAdjacentIndices` |
| BeeGraph.BeeGraph.ToroidalWrap | src/blac8074/BeeGraph.java:294-307 | the result lies in `[0, width·gridSize) × [0, height·gridSize)` and differs from the input by whole arena extents; the input is a value and stays unchanged |
| BeeGraph.WrapUp | src/blac8074/BeeGraph.java:296-302 | the `while (x < 0)` loop ends with a non-negative coordinate a whole number of extents from the input |
| BeeGraph.BeeGraph.GetAStarPath | src/blac8074/BeeGraph.java:158-232 | the start cell is clear afterwards, and this is the only change. A non-empty result starts at the start cell and holds at most 1001 entries. Each present entry neighbours the one before it, a missing (null) entry is followed only by missing ones, and the goal cell can only be last. It ends at the goal cell, or it has given up after 1000 entries none of which is the goal |
| BeeGraph.BeeGraph.AStarSearch | src/blac8074/BeeGraph.java:160-232 | the search rooted at the goal cell, then the reconstruction, gives either the empty path of the 1000-iteration cap or a path of the shape just described, ending at the goal cell or cut off after 1000 entries |
| BeeGraph.BeeGraph.Expand | src/blac8074/BeeGraph.java:201-214 | relaxing the edges of the polled cell keeps the search tree: every parent link is an edge of the grid |
| BeeGraph.ParentLinksPut | src/blac8074/BeeGraph.java:183 | recording a neighbour's parent keeps every parent link an edge of the grid |
| BeeGraph.Reconstruct | src/blac8074/BeeGraph.java:219-231 | following parent links from the start cell gives a non-empty path of the shape `getAStarPath` returns: it ends at the root, or holds exactly 1000 entries and no root when the loop cap stops it |
| BeeGraph.CompletePathIsWalk | src/blac8074/BeeGraph.java:219-231 | a traced path that ends at the goal cell has no null entry, so it is a walk along grid edges from the start cell to the goal cell |
| BeeGraph.NoneToTheEnd | src/blac8074/BeeGraph.java:224-228 | once a parent lookup has given null, every later entry of the path, the last included, is null |
| BeeGraph.TracesBackExtend | src/blac8074/BeeGraph.java:226-230 | appending the next parent lookup keeps the walk's shape |
| BeeGraph.BeeGraph.GetHillClimbingPath | src/blac8074/BeeGraph.java:237-287 | the start cell is clear afterwards, and this is the only change. Each entry neighbours the cell before it (the start cell for the first). Each entry other than the goal is a clear neighbour at least as near the goal as every clear neighbour, and then the goal is not a neighbour. The goal can only be last. When the climb ends within its fuel, the goal was appended or every neighbour of the last cell is obstructed. When the fuel runs out, the path holds one cell per round and no goal |
| BeeGraph.BeeGraph.HillClimbSearch | src/blac8074/BeeGraph.java:240-286 | the climbing loop, with the same guarantees |
| BeeGraph.BeeGraph.BestNeighbour | src/blac8074/BeeGraph.java:248-274 | it finds the goal exactly when the goal is a neighbour. Otherwise it returns a clear neighbour with the least distance to the goal, or nothing when every neighbour is obstructed |
| BeeGraph.BeeGraph.ClosestClear | src/blac8074/BeeGraph.java:253-274 | the inner loop over the neighbours, stated over their flags and distances |
| BeeGraph.ClimbsExtend | src/blac8074/BeeGraph.java:281-283 | appending the chosen neighbour (or the goal) keeps the climb's shape |
| BeeGraph.ExtendedStep | src/blac8074/BeeGraph.java:281-283 | each step of the extended path is a step of the climb |
| BeeGraph.LastStep | src/blac8074/BeeGraph.java:255-256 | a greedy neighbour, or the goal, is a legal next step |
| CircleLine.Signum | src/blac8074/BeePursuit.java:186-189 | `signum(n)` is 1 exactly when n ≥ 0 (so `signum(0) = 1`) and −1 exactly when n < 0 |
| CircleLine.AbsReal | src/blac8074/BeePursuit.java:160 | `Math.abs` is non-negative and equals ±v |
| CircleLine.SegmentSquaredLength | src/blac8074/BeePursuit.java:148 | `dx·dx + dy·dy` is non-negative |
| CircleLine.SegmentLengthPositive | src/blac8074/BeePursuit.java:133-148 | a segment with distinct ends has a positive squared length |
| CircleLine.CandidatesOnCircleAndLine | src/blac8074/BeePursuit.java:157-162 | with an exact root of the discriminant, both candidate points lie on the circle of the radius and on the segment's line |
| CircleLine.ClosedFormOnCircle | src/blac8074/BeePursuit.java:158-162 | the closed-form coordinates solve `x² + y² = r²` and `x·dy − y·dx = D` |
| CircleLine.CandidateOnCircle | src/blac8074/BeePursuit.java:158-162 | one candidate (either sign of the root) solves both equations |
| CircleLine.EndsOnLine | src/blac8074/BeePursuit.java:149 | both end points of the segment lie on its line |
| CircleLine.AbsoluteAtRadius | src/blac8074/BeePursuit.java:91 | shifting a point on the circle by the ship's position puts it at distance `radius` from the ship |
| BeePursuit.CircleLineIntersections | src/blac8074/BeePursuit.java:130-177 | the result is null exactly when the segment has zero length or `r²·|d|² − D² ≤ 0` |
| BeePursuit.IntersectionsOnCircle | src/blac8074/BeePursuit.java:130-177 | with an exact `sqrt`, every returned point is on the circle of the radius and inside the segment's open x-range or open y-range |
| BeePursuit.CandidateKept | src/blac8074/BeePursuit.java:165-173 | a candidate on the circle and the line is kept when it is strictly inside the open x-range or y-range |
| BeePursuit.BeePursuit.constructor | src/blac8074/BeePursuit.java:36-38 | a new tracker has an empty path |
| BeePursuit.BeePursuit.SetPath | src/blac8074/BeePursuit.java:45-50 | the path becomes exactly the positions of the new nodes, in order and at the same length |
| BeePursuit.BeePursuit.GetDesiredPosition | src/blac8074/BeePursuit.java:61-119 | the loop computes `DesiredPosition` of the stored path |
| BeePursuit.ScanSegments | src/blac8074/BeePursuit.java:78-103 | the segment loop computes the scan over all segments |
| BeePursuit.SegmentStep | src/blac8074/BeePursuit.java:79-102 | one iteration of the segment loop computes `Step` |
| BeePursuit.EmptyPathTargetsPosition | src/blac8074/BeePursuit.java:66-68 | an empty path yields the ship's own position |
| BeePursuit.LastWaypointWithinRadius | src/blac8074/BeePursuit.java:105-118 | when the last waypoint is within the radius by plain Euclidean distance it is returned, regardless of intersections; otherwise the result is that of the segment scan, wrapped into the arena when present and null otherwise |
| BeePursuit.SingleFarWaypoint | src/blac8074/BeePursuit.java:78 | a one-waypoint path whose point is farther than the radius yields null |
| BeePursuit.FirstIntersectionOverrides | src/blac8074/BeePursuit.java:90-92 | a segment with a valid first intersection decides the result irrespective of earlier choices |
| BeePursuit.SecondIntersectionChoice | src/blac8074/BeePursuit.java:97-101 | the second intersection replaces the choice exactly when there is none or it is strictly closer to `path[i+1]` |
| BeePursuit.StepChoices | src/blac8074/BeePursuit.java:79-102 | a segment either keeps the choice or picks one of its own intersections |
| BeePursuit.StepNone | src/blac8074/BeePursuit.java:79-102 | after a segment there is no choice exactly when there was none before and the segment offers none |
| BeePursuit.ScanNoneIff | src/blac8074/BeePursuit.java:78-103 | the scan has no choice exactly when no segment offers an intersection |
| BeePursuit.StepOnCircle | src/blac8074/BeePursuit.java:79-102 | with an exact `sqrt`, a segment keeps the choice at distance `radius` from the ship |
| BeePursuit.ScanOnCircle | src/blac8074/BeePursuit.java:78-103 | with an exact `sqrt`, any point the scan picks is at distance `radius` from the ship |
| PurePursuit.SegmentOf | src/blac8074/PurePursuit.java:52 | a segment is skipped exactly when its discriminant is negative or its end vectors are equal |
| PurePursuit.PurePursuit.constructor | src/blac8074/PurePursuit.java:15-17 | a new tracker has an empty path |
| PurePursuit.PurePursuit.SetPath | src/blac8074/PurePursuit.java:19-24 | the path becomes the node positions, in order |
| PurePursuit.PurePursuit.GetLookaheadPoint | src/blac8074/PurePursuit.java:26-101 | the method computes `LookaheadPoint` of the stored path |
| PurePursuit.ScanSegments | src/blac8074/PurePursuit.java:32-83 | the segment loop computes the scan over all segments |
| PurePursuit.ProcessSegment | src/blac8074/PurePursuit.java:34-82 | one loop iteration computes `SegmentStep` |
| PurePursuit.EmptyPathNoLookahead | src/blac8074/PurePursuit.java:26-100 | an empty path yields null |
| PurePursuit.LastWaypointWithinRadius | src/blac8074/PurePursuit.java:86-100 | when the last waypoint is within the radius it is returned; otherwise the scan's lookahead is, wrapped into the arena when present |
| PurePursuit.LastPointCheck | src/blac8074/PurePursuit.java:86-96 | the same for an arbitrary lookahead |
| PurePursuit.StepOverrides | src/blac8074/PurePursuit.java:69-82 | a segment with a valid intersection discards the earlier lookahead and sets its own; any other segment keeps it |
| PurePursuit.PickChoice | src/blac8074/PurePursuit.java:72-81 | the second intersection wins when it is valid and either the first is not valid or the first is farther from `p2` in `|x|` or in `|y|`; otherwise a valid first one wins; with neither valid there is no pick |
| PurePursuit.ScanLastValid | src/blac8074/PurePursuit.java:32-83 | the scan is null exactly when no segment has a valid intersection. Otherwise it is the pick of the last such segment |
| PurePursuit.FoundOnCircle | src/blac8074/PurePursuit.java:45-66 | with exact roots, the candidates of a found segment lie on the circle and the line |
| PurePursuit.ClassifyExact | src/blac8074/PurePursuit.java:47-60 | the candidates over `d·d`, with `d` the exact length, lie on the circle and the line |
| PurePursuit.ExactAtSegment | src/blac8074/PurePursuit.java:45-60 | with an exact `sqrt`, the segment length is a true root of `dx² + dy²`, and a non-negative discriminant has a true root |
| PurePursuit.ScanOnCircle | src/blac8074/PurePursuit.java:32-83 | with an exact `sqrt`, any lookahead the scan picks is at distance `radius` from the ship |
| PurePursuit.SegmentStepOnCircle | src/blac8074/PurePursuit.java:34-82 | one segment keeps the lookahead on the circle |
| ScanFold.NoneUntilOffered | src/blac8074/BeePursuit.java:78-103 | a loop that can only gain a choice has none exactly when no step offered one |
| ScanFold.LastValidPick | src/blac8074/PurePursuit.java:32-83 | a loop whose valid steps overwrite the choice ends with the pick of the last valid step, or with nothing exactly when no step was valid |
| ScanFold.LastValidPicked | src/blac8074/PurePursuit.java:69-82 | a choice at the end of such a loop is the pick of a valid step with no valid step after it |
| TeamClient.GridCosts | src/blac8074/BeehaviorTeamClient.java:84-100 | the grid has one cost map per cell |
| TeamClient.GridCentres | src/blac8074/BeehaviorTeamClient.java:74-81 | the grid has one centre per cell |
| TeamClient.EdgeCostsKeys | src/blac8074/BeehaviorTeamClient.java:89-99 | a cell's edges go exactly to the entries of `findAdjacentIndices` |
| TeamClient.EdgeCostsDistinct | src/blac8074/BeehaviorTeamClient.java:89-99 | with distinct neighbours, entry j's edge costs `GRID_SIZE` for j < 4 and `sqrt(2·g·g)` otherwise |
| TeamClient.GridKeys | src/blac8074/BeehaviorTeamClient.java:84-100 | every cell's edges go exactly to its torus neighbours |
| TeamClient.GridSymmetric | src/blac8074/BeehaviorTeamClient.java:84-100 | the grid's edge relation is symmetric |
| TeamClient.NeighbourKeysSymmetric | src/blac8074/BeehaviorTeamClient.java:84-100 | costs keyed by the torus neighbours form a symmetric edge relation |
| TeamClient.GridEdgeLengths | src/blac8074/BeehaviorTeamClient.java:89-99 | on a grid at least 3 × 3, node i's first four neighbour edges cost g and the last four cost `sqrt(2·g·g)` |
| TeamClient.Initialize | src/blac8074/BeehaviorTeamClient.java:67-100 | the graph has `(W / 20)·(H / 20)` clear nodes, one per cell, centred at `((i mod Nx) + 0.5)·g, ((i div Nx) + 0.5)·g`, and connected by the grid costs |
| TeamClient.PlaceNodes | src/blac8074/BeehaviorTeamClient.java:74-81 | every slot gets its own fresh node at the cell centre, with no edges |
| TeamClient.ConnectNodes | src/blac8074/BeehaviorTeamClient.java:84-100 | every node's edges become the grid costs of its cell |
| TeamClient.ConnectNode | src/blac8074/BeehaviorTeamClient.java:89-99 | one node's edges become the eight costed neighbour entries |
| TeamClient.NodeIndexInArena | src/blac8074/BeehaviorTeamClient.java:1044-1048 | a position in the arena maps to a cell in `[0, N)` with column `floor(x / g)` and row `floor(y / g)` |
| TeamClient.CentreMapsBack | src/blac8074/BeehaviorTeamClient.java:77 | the centre of cell i maps back to i |
| TeamClient.CentreCoordinate | src/blac8074/BeehaviorTeamClient.java:1045-1046 | the truncated centre coordinate over g is the cell's column (row) |
| TeamClient.ScanHalvesPartition | src/blac8074/BeehaviorTeamClient.java:143-152 | every cell is in exactly one of the ranges `[0, N/2 − 1]` and `[N/2, N − 1]` |
| TeamClient.ScansBeforeUpdate | src/blac8074/BeehaviorTeamClient.java:143-152 | two ticks before a path update the second half is scanned, one tick before it the first half, and no scan runs at the update tick (`% 10 == 0`, line 243) |
| TeamClient.ObstructionAt | src/blac8074/BeehaviorTeamClient.java:1060-1127 | a cell is reported obstructed exactly when one of the five tests hits. A non-mineable asteroid is tested at its position and, when it moves, at its next-tick position, within `2·radius + its radius`. A base nobody targets, and a living enemy ship nobody targets, is tested within `radius + 2·its radius`; the ship test is skipped when the team name is null. A projectile not fired by our team (compared ignoring case) is tested within `radius + 2·its radius` |
| TeamClient.FindObstructions | src/blac8074/BeehaviorTeamClient.java:1057-1133 | afterwards every cell in `[start, stop]` is obstructed exactly when one of the tests hits, and every other cell keeps its flag; the graph's invariant is kept |
| TeamClient.MarkCell | src/blac8074/BeehaviorTeamClient.java:1066-1130 | obstructing or unobstructing one cell sets its flag and only that flag |
| TeamClient.GetPathLength | src/blac8074/BeehaviorTeamClient.java:1033-1039 | the accumulator loop computes the sum of the distances between consecutive cells, which is 0 for paths of at most one node |
| TeamClient.PathLengthNonNegative | src/blac8074/BeehaviorTeamClient.java:1033-1039 | with non-negative distances a path length is never negative |
| TeamClient.PathLengthFirstLeg | src/blac8074/BeehaviorTeamClient.java:1033-1039 | a path's length is its first leg plus the length of the remaining path |
| TeamClient.RetryRadiusGrows | src/blac8074/BeehaviorTeamClient.java:612-616 | each retry multiplies the radius by 1.25, so the radius is positive and grows |
| TeamClient.PowPositive | src/blac8074/BeehaviorTeamClient.java:614 | powers of a positive factor are positive |
| TeamClient.GetMoveFromBeePursuit | src/blac8074/BeehaviorTeamClient.java:603-621 | at most 21 pursuit calls are made, and every retry before the last found nothing. Retry k uses radius `2g·1.25^k`. With fewer than 20 retries the goal is the pursuit's point at the last radius. With 20 retries the result is DoNothing, even when the twentieth found a point |
| TeamClient.ChaseCell | src/blac8074/BeehaviorTeamClient.java:399-412 | for a chaser and a target inside the arena, the goal node of the chase path is a node of the graph: the chaser's own cell (floors of its coordinates over the cell size) when the target is closer than three ship radii, and the target's cell otherwise. The same rule appears at lines 453-455, and at 568-571 for ship targets only |
| BeePlanner.OurFlagIsFirst | src/blac8074/BeePlanner.java:47-53 | the flag found is the first one of the ship's team; none is found exactly when no flag is the team's |
| BeePlanner.BeePlanner.constructor | src/blac8074/BeePlanner.java:27-40 | a new planner has no assigned tasks, no finished entries and every task flag false |
| BeePlanner.FindOurFlag | src/blac8074/BeePlanner.java:47-53 | the search loop returns that first flag |
| BeePlanner.CarrierReturns | src/blac8074/BeePlanner.java:58-63 | a ship carrying the flag gets RETURN_TO_BASE, which sets "carrying enemy flag" and clears "finding enemy flag" |
| BeePlanner.EnergyRules | src/blac8074/BeePlanner.java:64-82 | GET_ENERGY is chosen exactly when the ship neither carries the flag nor has just gathered, and its energy is below 2000; FIND_ENEMY_FLAG needs energy above 2000 |
| BeePlanner.TakenTasksNotChosen | src/blac8074/BeePlanner.java:76-90 | a task whose flag is already set is never chosen: GUARD not while guarding, FIND_ENEMY_FLAG not while the flag is carried or sought, and PROTECT only while the flag is carried |
| BeePlanner.WanderIsLastResort | src/blac8074/BeePlanner.java:56-90 | WANDER is chosen exactly when every earlier test of the priority order fails |
| BeePlanner.AssignSetsOwnFlag | src/blac8074/BeePlanner.java:95-117 | assigning a flagged task sets exactly that task's flag; the other tasks change no flag |
| BeePlanner.FinishClearsOwnFlag | src/blac8074/BeePlanner.java:127-149 | finishing a flagged task clears exactly that task's flag; RETURN_TO_BASE, GET_ENERGY and WANDER change no flag |
| BeePlanner.FinishUndoesAssign | src/blac8074/BeePlanner.java:95-149 | finishing a task right after assigning it (when its flag was clear) restores the flags |
| BeePlanner.BeePlanner.AssignTask | src/blac8074/BeePlanner.java:45-118 | the ship's task becomes the one chosen in priority order, its finished entry becomes false, and the flags are updated by the assignment rules |
| BeePlanner.BeePlanner.ChooseAssignedTask | src/blac8074/BeePlanner.java:56-90 | the if-chain returns the chosen task and applies the carrier's two flag updates |
| BeePlanner.BeePlanner.SetTaskFlag | src/blac8074/BeePlanner.java:95-117 | the switch sets or clears the one flag tied to the task |
| BeePlanner.BeePlanner.FinishTask | src/blac8074/BeePlanner.java:123-150 | the ship is marked finished and only the flag of its task is cleared |
| BeePlanner.BeePlanner.GetTask | src/blac8074/BeePlanner.java:156-162 | the task is reassigned exactly when the ship has none, is finished, or carries the flag. Otherwise the stored task is returned and nothing changes |
| BeePlanner.BeePlanner.SetCarryingEnemyFlag | src/blac8074/BeePlanner.java:164-166 | only the "carrying enemy flag" flag changes |
| BeePlanner.BeePlanner.ShipCanShoot | src/blac8074/BeePlanner.java:171-177 | a ship may not shoot exactly when its task is FIND_ENEMY_FLAG or GET_RESOURCES, or it carries the flag, or its energy is at most 2000 |
| BeeChromosome.RandomGenesInRange | src/blac8074/BeeChromosome.java:15-20 | with draws in `[0, 1)` every gene lies in `[0, max)`, the threshold truncated to an integer |
| BeeChromosome.ScaledIntDraw | src/blac8074/BeeChromosome.java:18 | `(int)(r·max)` lies in `[0, max)` |
| BeeChromosome.ScaledDraw | src/blac8074/BeeChromosome.java:16 | `r·max` lies in `[0, max)` |
| BeeChromosome.BeeChromosome.Random | src/blac8074/BeeChromosome.java:15-20 | the genes are the scaled draws |
| BeeChromosome.CrossoverBetween | src/blac8074/BeeChromosome.java:25-30 | every gene of the child lies between the parents' genes, and crossover is symmetric in the parents |
| BeeChromosome.CrossoverOfTwins | src/blac8074/BeeChromosome.java:25-30 | two identical parents give a child with the same genes |
| BeeChromosome.MeanBetween | src/blac8074/BeeChromosome.java:28 | `(a + b) / 2` with Java's truncation lies between a and b |
| BeeChromosome.BeeChromosome.Crossover | src/blac8074/BeeChromosome.java:25-30 | the child's genes are the parents' means, with the threshold halved in integers |
| BeeChromosome.BeeChromosome.constructor | src/blac8074/BeeChromosome.java:32-34 | the genes are Java's zero defaults |
| BeeChromosome.BeeChromosome.Mutate | src/blac8074/BeeChromosome.java:39-55 | the genes become `MutateGenes` of the old genes |
| BeeChromosome.MutateWithoutRate | src/blac8074/BeeChromosome.java:39-55 | with a rate of at most 0 nothing changes |
| BeeChromosome.MutateBounded | src/blac8074/BeeChromosome.java:39-55 | non-negative genes stay in `[0, 2·old]`, and a gene changes only when its draw fell below the rate |
| BeeChromosome.GeneBounded | src/blac8074/BeeChromosome.java:40-42 | a non-negative double gene stays within `[0, 2·old]`, and it changes only when its draw fell below the rate |
| BeeChromosome.IntGeneBounded | src/blac8074/BeeChromosome.java:48-50 | a non-negative integer gene stays within `[0, 2·old]` after the truncating cast, and it changes only when its draw fell below the rate |
| BeeChromosome.ScaledTrunc | src/blac8074/BeeChromosome.java:49 | the truncated product of a non-negative gene and twice a draw in `[0, 1)` lies in `[0, 2·gene]` |
| BeeChromosome.NatToStringRoundTrip | src/blac8074/BeeChromosome.java:64 | the decimal form of a natural number parses back to it |
| BeeChromosome.IntToStringRoundTrip | src/blac8074/BeeChromosome.java:64 | `Integer.toString` parses back to the number and holds no comma |
| BeeChromosome.FieldsOfTerminated | src/blac8074/BeeChromosome.java:60-67 | splitting separator-terminated fields at the separator gives the fields back, then an empty tail |
| BeeChromosome.FieldsOfPiece | src/blac8074/BeeChromosome.java:60-67 | splitting a piece without the separator, then the separator, then a tail, gives the piece followed by the tail's fields |
| BeeChromosome.GenesStringFields | src/blac8074/BeeChromosome.java:60-67 | `toString` is the four gene strings in field order, each followed by `,`. Splitting it at the commas recovers them, and the threshold field parses back to the gene |
| BeeChromosome.TerminatedFour | src/blac8074/BeeChromosome.java:61-66 | four appended fields, each followed by the separator |
| BeePopulation.EliteCount | src/blac8074/BeePopulation.java:62 | the number of elites is the tenth of the population rounded down |
| BeePopulation.Bee.constructor | src/blac8074/BeePopulation.java:8-11 | a new bee has no chromosome and score 0 |
| BeePopulation.ScoresAt | src/blac8074/BeePopulation.java:90 | the score sequence holds each bee's score |
| BeePopulation.BeePopulation.Random | src/blac8074/BeePopulation.java:26-37 | the population holds `populationSize` fresh bees with score 0, each with a fresh chromosome built from its draws with maxima (50, 50, 5000, 1000) |
| BeePopulation.BeePopulation.FromArray | src/blac8074/BeePopulation.java:42-50 | a new array holding the same bees, in order |
| BeePopulation.SortByScore | src/blac8074/BeePopulation.java:57 | the bees are sorted in place by descending score, and the array is a permutation of the old one |
| BeePopulation.InsertAt | src/blac8074/BeePopulation.java:57 | one insertion step extends the sorted prefix and keeps the permutation |
| BeePopulation.Swap | src/blac8074/BeePopulation.java:57 | two entries are exchanged |
| BeePopulation.SortedKeepsChromosomes | src/blac8074/BeePopulation.java:57 | a permutation of bees with chromosomes still has chromosomes |
| BeePopulation.BeePopulation.CreateNewGeneration | src/blac8074/BeePopulation.java:55-80 | the old array is sorted by descending score and the size is kept. The new array keeps the first `n/10` sorted bees as the same objects, in order. The rest are fresh bees with score 0, each with a fresh chromosome: the crossover of the two tournament winners, mutated at rate 0.05f |
| BeePopulation.BeePopulation.ReplaceBees | src/blac8074/BeePopulation.java:59-79 | the array is replaced by that new generation |
| BeePopulation.BeePopulation.NextGeneration | src/blac8074/BeePopulation.java:59-77 | the new array: the elites copied, then the children |
| BeePopulation.CopyPrefix | src/blac8074/BeePopulation.java:62-64 | the elite loop copies the first entries and leaves the rest alone |
| BeePopulation.CopyInto | src/blac8074/BeePopulation.java:67-77 | the children fill the slots after the elites |
| BeePopulation.BeePopulation.NewChildren | src/blac8074/BeePopulation.java:67-77 | the children loop makes one fresh child per pair of tournaments |
| BeePopulation.BeePopulation.NewChild | src/blac8074/BeePopulation.java:69-76 | one child: two tournaments, crossover, then mutation |
| BeePopulation.MakeChild | src/blac8074/BeePopulation.java:72-76 | a fresh bee with score 0 whose chromosome is the mutated crossover of the parents' chromosomes |
| BeePopulation.GenesOfHasGenes | src/blac8074/BeePopulation.java:74 | the genes read from the bees are their chromosomes' genes |
| BeePopulation.AsWrittenWinner | src/blac8074/BeePopulation.java:85-95 | the winning draw, if any, is one of the draws |
| BeePopulation.AsWrittenWinnerSpec | src/blac8074/BeePopulation.java:85-95 | as written, there is no winner exactly when no drawn score exceeds `Float.MIN_VALUE`. Otherwise the winner is the first draw of highest score, and that score exceeds `Float.MIN_VALUE` |
| BeePopulation.BeePopulation.TournamentSelect | src/blac8074/BeePopulation.java:85-95 | as written: the bee of the winning draw, or a fresh bee without a chromosome and with score `Float.MIN_VALUE` when there is none |
| BeePopulation.ZeroScoresHaveNoWinner | src/blac8074/BeePopulation.java:87 | with all scores 0 the written tournament has no winner, while the intended one picks the first draw |
| BeePopulation.IntendedWinner | src/blac8074/BeePopulation.java:85-95 | the intended winner is one of the draws |
| BeePopulation.IntendedWinnerIsFirstMaximum | src/blac8074/BeePopulation.java:85-95 | the intended winner is the first draw with the highest score |
| BeePopulation.FirstMaximumUnique | src/blac8074/BeePopulation.java:88-93 | there is only one first draw of highest score |
| BeePopulation.AsWrittenAgreesAboveMinimum | src/blac8074/BeePopulation.java:85-95 | when some drawn score exceeds `Float.MIN_VALUE`, the written and the intended tournaments agree |
| BeePopulation.BeePopulation.TournamentSelectIntended | src/blac8074/BeePopulation.java:85-95 | the bee of the first draw with the highest score; it has a chromosome whenever all bees do |
| BeePopulation.BeePopulation.ToString | src/blac8074/BeePopulation.java:100-106 | one line per bee, in array order: its chromosome string followed by a newline |
| BeePopulation.ChromosomeLinesSnoc | src/blac8074/BeePopulation.java:102-104 | each loop iteration appends the next bee's line |
| BeePopulation.TerminatedSnoc | src/blac8074/BeePopulation.java:102-104 | appending one more line adds it and its newline at the end |
| BeePopulation.PopulationLines | src/blac8074/BeePopulation.java:100-106 | splitting the result at newlines gives back the chromosome strings, in order |
| BeePopulation.LineHasNoBreak | src/blac8074/BeePopulation.java:103 | no chromosome string holds a newline when `Double.toString` produces none |

## Left out

- Floating point: costs, positions, radii and scores are reals, and `Math.sqrt` is a parameter. Rounding, NaN, infinities and the exact `×1e6 / 1e6` round trip in doubles are not modelled. One exception is a zero squared length `d·d` in `PurePursuit`: this is the `Degenerate` segment case, where IEEE division makes both range tests fail.
- The simulator (`Toroidal2DPhysics`): movement actions, PID gains, purchases, power-ups, graphics, `findTarget` and the `pickNearest*` selectors are not modelled. Its distance functions and world objects are parameters.
- The simulator's `toroidalWrap` is a parameter of `Space`, a function from a position to the wrapped position. The simulator moves the position in place, and both pursuits return that same object, so the model returns the wrapped value. The circle and distance lemmas about the segment scan speak of the scan's position before it is wrapped.
- `wanderAction`'s aim ahead of a moving non-ship target (BeehaviorTeamClient.java:573-578), with its `toroidalWrap`, is not modelled; its chase rule for ship targets is `ChaseTarget`.
- BeePlanner.BeePlanner.AssignTask: its precondition demands our flag whenever the flag-moving test (BeePlanner.java:72) is reached. In Java a missing flag there throws a NullPointerException; the model does not model that exception.
- BeePlanner.BeePlanner.ChooseAssignedTask: the same precondition on `ourFlag`, for the same NullPointerException at BeePlanner.java:72.
- BeePlanner.BeePlanner.GetTask: the same precondition on our flag when a new task is chosen, for the same NullPointerException at BeePlanner.java:72.
- BeePlanner.BeePlanner.FinishTask: it requires that the ship has an assigned task. In Java, for a ship without one, `switch` on the null task throws a NullPointerException (BeePlanner.java:124-127); the model does not model that exception.
- PurePursuit.PurePursuit.GetLookaheadPoint: it has no non-empty-path precondition. An empty path (and a null lookahead in general) returns `None`; in Java it would reach `toroidalWrap(null)`.
- BeeGraph.BeeGraph.GetAStarPath: it proves only the structural shape of the path. The frontier is polled in an arbitrary order, so neither optimality nor the priority order is stated. The node priorities (`setPriority`) are not modelled.
- BeeGraph.BeeGraph.GetHillClimbingPath: the Java loop need not terminate, so the model takes a `fuel` bound on its rounds. When it is exhausted, `Stuck` is not promised; the path then holds `fuel` cells and no goal.
- BeeGraph.BeeGraph.GetHillClimbingPath: the order of iteration over the neighbour set is arbitrary. The model keeps the first of several clear neighbours equally near the goal only as "one with the least distance".
- Both stored paths hold positions rather than `BeeNode` references. A* returns cell indices, with `None` standing for the `null` entries that a missing parent link produces.
- The `BeeNode` no-argument constructor is left out: it leaves the position null and no modelled code uses it.
- `BeeNode.java` declares no obstructed flag and no edge-cost accessors, yet `BeeGraph.java` calls `getObstructed`, `setObstructed`, `getAdjacencyMap`, `setEdgeCost` and `getEdgeCost` (lines 55-76, 178-179, 204). The model follows `BeeGraph.java`: the flag is modelled as a field, and `setEdgeCost` and `getEdgeCost` as map update and lookup.
- `Math.random` and `Random.nextInt` are parameters holding the draws.
- `Double.toString` is a parameter, assumed only to produce no comma or newline.
- BeePopulation.EliteCount: it models `(int)(n * 0.1f)` as `n / 10` and ignores the rounding of `0.1f`.
- BeePopulation.BeePopulation.CreateNewGeneration: it uses the intended tournament (see Findings). Given the draws, the children are built into a sequence and then copied into the new array.
- The bees' genes in `CreateNewGeneration`'s postcondition are stated through the ghost out-parameters `parentScores` and `parentGenes`, which record the sorted bees' scores and genes.
- BeePopulation.SortByScore: `Arrays.sort` is stable. The model proves the result is sorted descending and a permutation, but not that the sort is stable.
- The debug branches (`DEBUG_PATH` and `DEBUG_PLANNER`) and the graphics collections of `getMovementStart` are left out.
- The parts of `getMoveFromBeePursuit` after the goal is found are left out: the shooting target, the orientation and the gains.
- `equalsIgnoreCase` is modelled with case mapping of the ASCII letters only.
- `k_means_clustering.py` and `TaskGraphics.java` are not part of this model.

## Findings

| source | as written | input that shows it | evidently intended | confidence | as-written member | corrected member |
|---|---|---|---|---|---|---|
| src/blac8074/BeePopulation.java:87 | the tournament's best score starts at `Float.MIN_VALUE`, the smallest positive float, so a drawn bee wins only with a score above it | every drawn score is 0 (the score every new bee starts with), draws `[0, 1]`: no draw wins. The fresh bee without a chromosome is returned, and `createNewGeneration` then dereferences its null chromosome | the first of the highest-scoring draws wins (a start of `-Float.MAX_VALUE`, or the first draw) | not executed | BeePopulation.BeePopulation.TournamentSelect, BeePopulation.ZeroScoresHaveNoWinner | BeePopulation.BeePopulation.TournamentSelectIntended, BeePopulation.IntendedWinnerIsFirstMaximum |
