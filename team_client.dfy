/**
 * The arithmetic the team client wraps around the navigation graph: building
 * the grid over the arena, mapping a position to its cell, the schedule on
 * which the two halves of the grid are scanned for obstacles, the obstacle
 * scanner itself, the length of a path, and the widening of the pursuit
 * radius until a target point is found.
 */
module TeamClient {
  import opened Geometry
  import opened Wrappers
  import JavaNum
  import BeeUtil
  import BeeNode
  import BeeGraph
  import BeePursuit

  /** `GRID_SIZE`: the side of a grid cell. */
  const GRID_SIZE: real := 20.0
  /** `(int)GRID_SIZE`. */
  const GRID_CELL: int := 20
  /** `PATH_UPDATE_INTERVAL`: paths are recomputed every this many ticks. */
  const PATH_UPDATE_INTERVAL: int := 10
  /** The number of times the pursuit radius is widened before giving up. */
  const MAX_RETRIES: nat := 20

  // ---------------------------------------------------------------------
  // Grid construction (`initialize`)

  /** The centre of cell `i` in a grid `numSquaresX` cells wide. */
  function CellCentre(i: int, numSquaresX: int): Position
    requires 0 < numSquaresX
  {
    Position((i % numSquaresX) as real * GRID_SIZE + GRID_SIZE / 2.0,
             (i / numSquaresX) as real * GRID_SIZE + GRID_SIZE / 2.0)
  }

  /** The cost `initialize` gives the edge to neighbour number `j`: a grid
      step for the four straight neighbours, `diagonal` for the others. */
  function EdgeLength(j: int, diagonal: real): real
  {
    if j < 4 then GRID_SIZE else diagonal
  }

  /** The edge map after `addAdjacent` for the first `k` entries of the
      neighbour list `adjacent`; a later entry overwrites an earlier one. */
  function EdgeCosts(adjacent: seq<int>, k: nat, diagonal: real): map<int, real>
    requires k <= |adjacent|
  {
    if k == 0 then map[]
    else EdgeCosts(adjacent, k - 1, diagonal)[adjacent[k - 1] := EdgeLength(k - 1, diagonal)]
  }

  /** The edge maps of every cell of a `numSquaresX` by `numSquaresY` grid. */
  function GridCosts(numSquaresX: nat, numSquaresY: nat, diagonal: real): (costs: seq<map<int, real>>)
    ensures |costs| == numSquaresX * numSquaresY
  {
    if numSquaresX == 0 then []
    else
      seq(numSquaresX * numSquaresY, i =>
        NodeEdges(BeeUtil.FindAdjacentIndices(i, numSquaresY, numSquaresX), diagonal))
  }

  /** The edge map of a node after `addAdjacent` for its whole neighbour list. */
  function NodeEdges(adjacent: seq<int>, diagonal: real): map<int, real>
  {
    EdgeCosts(adjacent, |adjacent|, diagonal)
  }

  /** The centres of every cell of the grid. */
  function GridCentres(numSquaresX: nat, numSquaresY: nat): (centres: seq<Position>)
    ensures |centres| == numSquaresX * numSquaresY
  {
    if numSquaresX == 0 then [] else seq(numSquaresX * numSquaresY, i => CellCentre(i, numSquaresX))
  }

  /** The edge map holds exactly the entries of the neighbour list. */
  lemma {:induction false} EdgeCostsKeys(adjacent: seq<int>, k: nat, diagonal: real)
    requires k <= |adjacent|
    ensures EdgeCosts(adjacent, k, diagonal).Keys == set j | 0 <= j < k :: adjacent[j]
  {
    if k > 0 {
      EdgeCostsKeys(adjacent, k - 1, diagonal);
      assert (set j | 0 <= j < k :: adjacent[j]) == (set j | 0 <= j < k - 1 :: adjacent[j]) + {adjacent[k - 1]};
    }
  }

  /** With pairwise distinct entries, entry `j` costs `EdgeLength(j)`. */
  lemma {:induction false} EdgeCostsDistinct(adjacent: seq<int>, k: nat, diagonal: real, j: int)
    requires k <= |adjacent| && 0 <= j < k
    requires forall a, b :: 0 <= a < b < |adjacent| ==> adjacent[a] != adjacent[b]
    ensures adjacent[j] in EdgeCosts(adjacent, k, diagonal)
    ensures EdgeCosts(adjacent, k, diagonal)[adjacent[j]] == EdgeLength(j, diagonal)
  {
    if j < k - 1 {
      EdgeCostsDistinct(adjacent, k - 1, diagonal, j);
    }
  }

  /** Every cell's edge map has the cell's neighbours as keys. */
  lemma GridKeys(numSquaresX: nat, numSquaresY: nat, diagonal: real, i: int)
    requires 0 <= i < numSquaresX * numSquaresY
    ensures 0 < numSquaresX && 0 < numSquaresY
    ensures GridCosts(numSquaresX, numSquaresY, diagonal)[i].Keys == BeeUtil.Neighbours(i, numSquaresY, numSquaresX)
  {
    PositiveFactors(numSquaresX, numSquaresY);
    var adjacent := BeeUtil.FindAdjacentIndices(i, numSquaresY, numSquaresX);
    EdgeCostsKeys(adjacent, |adjacent|, diagonal);
  }

  /** In the grid `initialize` builds, edges stay inside the grid and come in
      pairs, so the graph is well formed with every cell clear. */
  lemma GridSymmetric(numSquaresX: nat, numSquaresY: nat, diagonal: real)
    ensures var costs := GridCosts(numSquaresX, numSquaresY, diagonal);
      BeeGraph.Symmetric(BeeGraph.Cells(seq(|costs|, _ => false), costs))
  {
    var costs := GridCosts(numSquaresX, numSquaresY, diagonal);
    forall i | 0 <= i < |costs|
      ensures costs[i].Keys == BeeUtil.Neighbours(i, numSquaresY, numSquaresX)
    {
      GridKeys(numSquaresX, numSquaresY, diagonal, i);
    }
    NeighbourKeysSymmetric(costs, numSquaresX, numSquaresY);
  }

  /** Edge maps keyed by each cell's grid neighbours come in pairs. */
  lemma NeighbourKeysSymmetric(costs: seq<map<int, real>>, numSquaresX: nat, numSquaresY: nat)
    requires |costs| == numSquaresX * numSquaresY
    requires forall i :: 0 <= i < |costs| ==> costs[i].Keys == BeeUtil.Neighbours(i, numSquaresY, numSquaresX)
    ensures BeeGraph.Symmetric(BeeGraph.Cells(seq(|costs|, _ => false), costs))
  {
    forall v, u {:trigger u in costs[v]} | 0 <= v < |costs| && u in costs[v]
      ensures 0 <= u < |costs| && v in costs[u]
    {
      PositiveFactors(numSquaresX, numSquaresY);
      assert u in BeeUtil.Neighbours(v, numSquaresY, numSquaresX);
      BeeUtil.AdjacentIndicesInRange(v, numSquaresY, numSquaresX);
      BeeUtil.NeighboursSymmetric(v, u, numSquaresY, numSquaresX);
    }
    ClearCellsSymmetric(costs);
  }

  /** Edges that come in pairs make the graph with every cell clear symmetric. */
  lemma ClearCellsSymmetric(costs: seq<map<int, real>>)
    requires forall v, u {:trigger u in costs[v]} :: 0 <= v < |costs| && u in costs[v] ==> 0 <= u < |costs| && v in costs[u]
    ensures BeeGraph.Symmetric(BeeGraph.Cells(seq(|costs|, _ => false), costs))
  {
  }

  /** On a grid at least three cells wide and high, the edge to each straight
      neighbour costs a grid step and the edge to each diagonal one `diagonal`. */
  lemma GridEdgeLengths(numSquaresX: nat, numSquaresY: nat, diagonal: real, i: int, k: int)
    requires 3 <= numSquaresX && 3 <= numSquaresY && 0 <= i < numSquaresX * numSquaresY && 0 <= k < 8
    ensures var n := BeeUtil.FindAdjacentIndices(i, numSquaresY, numSquaresX)[k];
      n in GridCosts(numSquaresX, numSquaresY, diagonal)[i] &&
      GridCosts(numSquaresX, numSquaresY, diagonal)[i][n] == if k < 4 then GRID_SIZE else diagonal
  {
    BeeUtil.AdjacentIndicesDistinct(i, numSquaresY, numSquaresX);
    var adjacent := BeeUtil.FindAdjacentIndices(i, numSquaresY, numSquaresX);
    EdgeCostsDistinct(adjacent, |adjacent|, diagonal, k);
  }

  lemma PositiveFactors(a: nat, b: nat)
    requires 0 < a * b
    ensures 0 < a && 0 < b
  {
  }

  /** `initialize`: one node per grid cell at the cell's centre, then for each
      node the eight edges to its neighbours; every cell starts clear. */
  method Initialize(width: int, height: int, sqrt: real -> real) returns (graph: BeeGraph.BeeGraph)
    requires 0 <= width && 0 <= height
    ensures graph.width == width / GRID_CELL && graph.height == height / GRID_CELL && graph.gridSize == GRID_SIZE
    ensures graph.nodes.Length == (width / GRID_CELL) * (height / GRID_CELL)
    ensures graph.Valid()
    ensures graph.cells.obstructed == seq(graph.nodes.Length, _ => false)
    ensures graph.cells.costs == graph.nominal
      == GridCosts(width / GRID_CELL, height / GRID_CELL, sqrt(2.0 * GRID_SIZE * GRID_SIZE))
    ensures graph.centres == GridCentres(width / GRID_CELL, height / GRID_CELL)
  {
    var numSquaresX := JavaNum.Div(width, GRID_CELL);
    var numSquaresY := JavaNum.Div(height, GRID_CELL);
    graph := new BeeGraph.BeeGraph(numSquaresX * numSquaresY, numSquaresY, numSquaresX, GRID_SIZE);
    PlaceNodes(graph);
    ConnectNodes(graph, sqrt);
    ghost var diagonal := sqrt(2.0 * GRID_SIZE * GRID_SIZE);
    GridSymmetric(numSquaresX, numSquaresY, diagonal);
    graph.Seal(GridCosts(numSquaresX, numSquaresY, diagonal), GridCentres(numSquaresX, numSquaresY));
  }

  /** The first loop of `initialize`: a fresh node at the centre of each cell. */
  method PlaceNodes(graph: BeeGraph.BeeGraph)
    requires 0 <= graph.width && 0 <= graph.height && graph.nodes.Length == graph.width * graph.height
    requires forall j :: 0 <= j < graph.nodes.Length ==> graph.nodes[j] == null
    modifies graph.nodes
    ensures forall j :: 0 <= j < graph.nodes.Length ==> graph.nodes[j] != null && fresh(graph.nodes[j])
    ensures forall j, k :: 0 <= j < k < graph.nodes.Length ==> graph.nodes[j] != graph.nodes[k]
    ensures forall j :: 0 <= j < graph.nodes.Length ==>
      graph.nodes[j].position == GridCentres(graph.width, graph.height)[j] &&
      graph.nodes[j].adjacency == map[] && !graph.nodes[j].obstructed
  {
    var numSquaresX := graph.width;
    var size := graph.nodes.Length;
    for i := 0 to size
      invariant forall j :: 0 <= j < i ==> graph.nodes[j] != null && fresh(graph.nodes[j])
      invariant forall j :: i <= j < size ==> graph.nodes[j] == null
      invariant forall j, k :: 0 <= j < k < i ==> graph.nodes[j] != graph.nodes[k]
      invariant forall j :: 0 <= j < i ==>
        (graph.nodes[j].position == GridCentres(graph.width, graph.height)[j] &&
         graph.nodes[j].adjacency == map[] && !graph.nodes[j].obstructed)
    {
      PositiveFactors(graph.width, graph.height);
      var x := i % numSquaresX;
      var y := i / numSquaresX;
      var nodePos := Position(x as real * GRID_SIZE + GRID_SIZE / 2.0, y as real * GRID_SIZE + GRID_SIZE / 2.0);
      var node := new BeeNode.BeeNode(nodePos);
      graph.AddNode(i, node);
    }
  }

  /** The second loop of `initialize`: each node gets an edge to each entry
      of its neighbour list, costing a grid step for the first four and
      `sqrt(2 * GRID_SIZE * GRID_SIZE)` for the diagonals. */
  method ConnectNodes(graph: BeeGraph.BeeGraph, sqrt: real -> real)
    requires 0 <= graph.width && 0 <= graph.height && graph.nodes.Length == graph.width * graph.height
    requires forall j :: 0 <= j < graph.nodes.Length ==> graph.nodes[j] != null
    requires forall j, k :: 0 <= j < k < graph.nodes.Length ==> graph.nodes[j] != graph.nodes[k]
    requires forall j :: 0 <= j < graph.nodes.Length ==> graph.nodes[j].adjacency == map[]
    modifies set j | 0 <= j < graph.nodes.Length :: graph.nodes[j]
    ensures forall j :: 0 <= j < graph.nodes.Length ==> graph.nodes[j].obstructed == old(graph.nodes[j].obstructed)
    ensures forall j :: 0 <= j < graph.nodes.Length ==>
      graph.nodes[j].adjacency == GridCosts(graph.width, graph.height, sqrt(2.0 * GRID_SIZE * GRID_SIZE))[j]
  {
    var size := graph.nodes.Length;
    ghost var costs := GridCosts(graph.width, graph.height, sqrt(2.0 * GRID_SIZE * GRID_SIZE));
    for i := 0 to size
      invariant forall j :: 0 <= j < size ==> graph.nodes[j].obstructed == old(graph.nodes[j].obstructed)
      invariant forall j :: 0 <= j < i ==> graph.nodes[j].adjacency == costs[j]
      invariant forall j :: i <= j < size ==> graph.nodes[j].adjacency == map[]
    {
      PositiveFactors(graph.width, graph.height);
      var adjacent := graph.FindAdjacentIndices(i);
      BeeUtil.AdjacentIndicesInRange(i, graph.height, graph.width);
      var node := graph.nodes[i];
      ConnectNode(node, adjacent, size, sqrt);
      assert costs[i] == NodeEdges(adjacent, sqrt(2.0 * GRID_SIZE * GRID_SIZE));
    }
  }

  /** The inner loop of the second loop of `initialize`, for one node. */
  method ConnectNode(node: BeeNode.BeeNode, adjacent: seq<int>, size: int, sqrt: real -> real)
    requires node.adjacency == map[]
    requires forall k :: 0 <= k < |adjacent| ==> 0 <= adjacent[k] < size
    modifies node
    ensures node.adjacency == NodeEdges(adjacent, sqrt(2.0 * GRID_SIZE * GRID_SIZE))
    ensures node.obstructed == old(node.obstructed)
  {
    for j := 0 to |adjacent|
      invariant node.adjacency == EdgeCosts(adjacent, j, sqrt(2.0 * GRID_SIZE * GRID_SIZE))
      invariant node.obstructed == old(node.obstructed)
    {
      var distance;
      if j < 4 {
        distance := GRID_SIZE;
      } else {
        distance := sqrt(2.0 * GRID_SIZE * GRID_SIZE);
      }
      node.AddAdjacent(adjacent[j], distance);
    }
  }

  // ---------------------------------------------------------------------
  // Position to cell (`positionToNodeIndex`)

  /** `positionToNodeIndex`: column `(int)(x / GRID_SIZE)` plus the row
      `(int)(y / GRID_SIZE)` times the grid width. */
  function PositionToNodeIndex(position: Position, width: int): int
  {
    var x := JavaNum.Trunc(position.x / GRID_SIZE);
    var y := JavaNum.Trunc(position.y / GRID_SIZE);
    x + y * width
  }

  /** A position inside the arena lands in the cell whose column and row are
      the floors of its coordinates over the cell size. */
  lemma NodeIndexInArena(position: Position, width: int, height: int)
    requires 0 < width && 0 < height
    requires 0.0 <= position.x < width as real * GRID_SIZE && 0.0 <= position.y < height as real * GRID_SIZE
    ensures 0 <= PositionToNodeIndex(position, width) < width * height
    ensures PositionToNodeIndex(position, width) % width == (position.x / GRID_SIZE).Floor
    ensures PositionToNodeIndex(position, width) / width == (position.y / GRID_SIZE).Floor
  {
    var column := (position.x / GRID_SIZE).Floor;
    var row := (position.y / GRID_SIZE).Floor;
    assert column < width;
    assert row < height;
    BeeUtil.CellDecomposes(row, column, width);
    BeeUtil.CellInRange(row, column, height, width);
  }

  /** The centre of every cell maps back to that cell. */
  lemma CentreMapsBack(i: int, numSquaresX: nat, numSquaresY: nat)
    requires 0 <= i < numSquaresX * numSquaresY
    ensures 0 < numSquaresX
    ensures PositionToNodeIndex(CellCentre(i, numSquaresX), numSquaresX) == i
  {
    PositiveFactors(numSquaresX, numSquaresY);
    var column, row := i % numSquaresX, i / numSquaresX;
    CentreCoordinate(column);
    CentreCoordinate(row);
    assert i == column + row * numSquaresX;
  }

  /** The centre coordinate of column (or row) `k` truncates back to `k`. */
  lemma CentreCoordinate(k: int)
    requires 0 <= k
    ensures JavaNum.Trunc((k as real * GRID_SIZE + GRID_SIZE / 2.0) / GRID_SIZE) == k
  {
    assert (k as real * GRID_SIZE + GRID_SIZE / 2.0) / GRID_SIZE == k as real + 0.5;
  }

  // ---------------------------------------------------------------------
  // Scan schedule (`getMovementStart`, outside debug mode)

  /** The inclusive index range `getMovementStart` rescans at tick
      `timestep`: the first half of the grid one tick before a path update,
      the second half two ticks before, nothing on other ticks. */
  function ScanRange(timestep: int, size: int): Option<(int, int)>
  {
    var phase := JavaNum.Rem(timestep, PATH_UPDATE_INTERVAL);
    if phase == PATH_UPDATE_INTERVAL - 1 then Some((0, JavaNum.Div(size, 2) - 1))
    else if phase == PATH_UPDATE_INTERVAL - 2 then Some((JavaNum.Div(size, 2), size - 1))
    else None
  }

  /** Paths are recomputed on the ticks that are multiples of the interval. */
  predicate PathUpdateTick(timestep: int)
  {
    JavaNum.Rem(timestep, PATH_UPDATE_INTERVAL) == 0
  }

  predicate InRange(i: int, range: (int, int))
  {
    range.0 <= i <= range.1
  }

  /** The two scanned ranges split the grid: each cell is in exactly one. */
  lemma ScanHalvesPartition(size: nat, i: int)
    requires 0 <= i < size
    ensures InRange(i, (0, size / 2 - 1)) != InRange(i, (size / 2, size - 1))
  {
  }

  /** Before every path update (after the first), the whole grid has just
      been rescanned: the second half two ticks earlier, the first half one
      tick earlier; the update tick itself scans nothing. */
  lemma ScansBeforeUpdate(timestep: int, size: nat)
    requires 2 <= timestep && PathUpdateTick(timestep)
    ensures ScanRange(timestep - 2, size) == Some((size / 2, size - 1))
    ensures ScanRange(timestep - 1, size) == Some((0, size / 2 - 1))
    ensures ScanRange(timestep, size) == None
  {
    assert timestep % PATH_UPDATE_INTERVAL == 0;
    assert (timestep - 1) % PATH_UPDATE_INTERVAL == PATH_UPDATE_INTERVAL - 1;
    assert (timestep - 2) % PATH_UPDATE_INTERVAL == PATH_UPDATE_INTERVAL - 2;
  }

  // ---------------------------------------------------------------------
  // The obstacle scanner (`findObstructions`)

  /** An asteroid as the scanner sees it; `velocity` is its position's velocity. */
  datatype Asteroid = Asteroid(position: Position, velocity: Vector2D, radius: int, mineable: bool, moveable: bool)
  /** A base; `id` identifies it among the chase targets. */
  datatype Base = Base(id: int, position: Position, radius: int)
  datatype Ship = Ship(id: int, position: Position, radius: int, teamName: string, alive: bool)
  /** A projectile and the team of the ship that fired it. */
  datatype Weapon = Weapon(position: Position, radius: int, firingTeam: string)
  /** The objects of the arena the scanner asks the simulator for. */
  datatype World = World(asteroids: seq<Asteroid>, bases: seq<Base>, ships: seq<Ship>, weapons: seq<Weapon>)

  /** The toroidal distance from `from` to `cell` is at most `threshold`. */
  predicate Near(space: Space, from: Position, cell: Position, threshold: real, sqrt: real -> real)
  {
    Magnitude(space.shortestVector(from, cell), sqrt) <= threshold
  }

  /** Where a moving asteroid will be one tick from now. */
  function FuturePosition(a: Asteroid): Position
  {
    Position(a.position.x + a.velocity.x, a.position.y + a.velocity.y)
  }

  /** A non-mineable asteroid blocks a cell within `2·radius + its radius`
      of its position or, when it moves, of its next position. */
  predicate AsteroidBlocks(a: Asteroid, cell: Position, radius: int, space: Space, sqrt: real -> real)
  {
    var threshold := (2 * radius + a.radius) as real;
    !a.mineable &&
    (Near(space, a.position, cell, threshold, sqrt) ||
     (a.moveable && Near(space, FuturePosition(a), cell, threshold, sqrt)))
  }

  /** A base nobody is heading to blocks a cell within `radius + 2·its radius`. */
  predicate BaseBlocks(b: Base, targets: set<int>, cell: Position, radius: int, space: Space, sqrt: real -> real)
  {
    b.id !in targets && Near(space, b.position, cell, (radius + 2 * b.radius) as real, sqrt)
  }

  /** A living enemy ship that nobody is chasing blocks a cell within
      `radius + 2·its radius`. */
  predicate ShipBlocks(s: Ship, teamName: string, targets: set<int>, cell: Position, radius: int, space: Space, sqrt: real -> real)
  {
    s.teamName != teamName && s.alive && s.id !in targets &&
    Near(space, s.position, cell, (radius + 2 * s.radius) as real, sqrt)
  }

  /** A projectile not fired by our team blocks a cell within
      `radius + 2·its radius`; with no team name every projectile counts. */
  predicate WeaponBlocks(w: Weapon, teamName: Option<string>, cell: Position, radius: int, space: Space, sqrt: real -> real)
  {
    !EqualsIgnoreCase(w.firingTeam, teamName) &&
    Near(space, w.position, cell, (radius + 2 * w.radius) as real, sqrt)
  }

  /** The five tests of the scanner, for one cell centre. */
  predicate ObstructionFound(world: World, targets: set<int>, cell: Position, radius: int, teamName: Option<string>,
                             space: Space, sqrt: real -> real)
  {
    (exists i :: 0 <= i < |world.asteroids| && AsteroidBlocks(world.asteroids[i], cell, radius, space, sqrt)) ||
    (exists i :: 0 <= i < |world.bases| && BaseBlocks(world.bases[i], targets, cell, radius, space, sqrt)) ||
    (teamName.Some? &&
     exists i :: 0 <= i < |world.ships| && ShipBlocks(world.ships[i], teamName.value, targets, cell, radius, space, sqrt)) ||
    (exists i :: 0 <= i < |world.weapons| && WeaponBlocks(world.weapons[i], teamName, cell, radius, space, sqrt))
  }

  /** `String.equalsIgnoreCase`; false against null. */
  predicate EqualsIgnoreCase(a: string, b: Option<string>)
  {
    b.Some? && |a| == |b.value| && forall i :: 0 <= i < |a| ==> CharsEqualIgnoreCase(a[i], b.value[i])
  }

  /** Two characters are equal, or equal after upper-casing, or after
      upper- then lower-casing. */
  predicate CharsEqualIgnoreCase(c1: char, c2: char)
  {
    c1 == c2 || Upper(c1) == Upper(c2) || Lower(Upper(c1)) == Lower(Upper(c2))
  }

  /** `Character.toUpperCase` on the ASCII letters. */
  function Upper(c: char): char
  {
    if 'a' <= c <= 'z' then (c as int - 32) as char else c
  }

  /** `Character.toLowerCase` on the ASCII letters. */
  function Lower(c: char): char
  {
    if 'A' <= c <= 'Z' then (c as int + 32) as char else c
  }

  /** The tests of the scanner's loop body for one cell, in the source's
      order, each loop stopping at its first hit; whether some test hit. */
  method ObstructionAt(world: World, targets: set<int>, cell: Position, radius: int, teamName: Option<string>,
                       space: Space, sqrt: real -> real) returns (obstructionFound: bool)
    ensures obstructionFound <==> ObstructionFound(world, targets, cell, radius, teamName, space, sqrt)
  {
    obstructionFound := false;
    for i := 0 to |world.asteroids|
      invariant forall j :: 0 <= j < i ==> !AsteroidBlocks(world.asteroids[j], cell, radius, space, sqrt)
    {
      var asteroid := world.asteroids[i];
      if !asteroid.mineable {
        var threshold := (2 * radius + asteroid.radius) as real;
        if Near(space, asteroid.position, cell, threshold, sqrt) {
          obstructionFound := true;
          break;
        }
        if asteroid.moveable {
          var futurePos := Position(asteroid.position.x + asteroid.velocity.x, asteroid.position.y + asteroid.velocity.y);
          if Near(space, futurePos, cell, threshold, sqrt) {
            obstructionFound := true;
            break;
          }
        }
      }
    }
    if !obstructionFound {
      for i := 0 to |world.bases|
        invariant forall j :: 0 <= j < i ==> !BaseBlocks(world.bases[j], targets, cell, radius, space, sqrt)
      {
        var base := world.bases[i];
        if base.id !in targets {
          if Near(space, base.position, cell, (radius + 2 * base.radius) as real, sqrt) {
            obstructionFound := true;
            break;
          }
        }
      }
    }
    if !obstructionFound && teamName.Some? {
      for i := 0 to |world.ships|
        invariant forall j :: 0 <= j < i ==> !ShipBlocks(world.ships[j], teamName.value, targets, cell, radius, space, sqrt)
      {
        var ship := world.ships[i];
        if ship.teamName != teamName.value && ship.alive {
          if ship.id !in targets {
            if Near(space, ship.position, cell, (radius + 2 * ship.radius) as real, sqrt) {
              obstructionFound := true;
              break;
            }
          }
        }
      }
    }
    if !obstructionFound {
      for i := 0 to |world.weapons|
        invariant forall j :: 0 <= j < i ==> !WeaponBlocks(world.weapons[j], teamName, cell, radius, space, sqrt)
      {
        var weapon := world.weapons[i];
        if !EqualsIgnoreCase(weapon.firingTeam, teamName) {
          if Near(space, weapon.position, cell, (radius + 2 * weapon.radius) as real, sqrt) {
            obstructionFound := true;
            break;
          }
        }
      }
    }
  }

  /** `findObstructions`: every cell from `startIndex` to `stopIndex` is
      obstructed when one of the tests hits its centre and unobstructed
      otherwise; the other cells keep their flags.  The source obstructs the
      cell inside the loop that found the hit; here the hit is found first. */
  method FindObstructions(graph: BeeGraph.BeeGraph, radius: int, world: World, targets: set<int>, teamName: Option<string>,
                          startIndex: int, stopIndex: int, space: Space, sqrt: real -> real)
    requires graph.Valid()
    requires startIndex <= stopIndex ==> 0 <= startIndex && stopIndex < graph.nodes.Length
    modifies graph, graph.Repr
    ensures graph.Valid() && graph.Repr == old(graph.Repr) && graph.nominal == old(graph.nominal)
    ensures graph.centres == old(graph.centres)
    ensures |graph.cells.obstructed| == |old(graph.cells.obstructed)|
    ensures forall j :: 0 <= j < |graph.cells.obstructed| ==>
      graph.cells.obstructed[j] ==
        if startIndex <= j <= stopIndex then ObstructionFound(world, targets, graph.centres[j], radius, teamName, space, sqrt)
        else old(graph.cells.obstructed[j])
  {
    var nodeIndex := startIndex;
    while nodeIndex <= stopIndex
      invariant graph.Valid() && graph.Repr == old(graph.Repr) && graph.nominal == old(graph.nominal)
      invariant graph.centres == old(graph.centres)
      invariant |graph.cells.obstructed| == |old(graph.cells.obstructed)|
      invariant nodeIndex == startIndex || startIndex < nodeIndex <= stopIndex + 1
      invariant forall j :: 0 <= j < |graph.cells.obstructed| ==>
        graph.cells.obstructed[j] ==
          if startIndex <= j < nodeIndex then ObstructionFound(world, targets, graph.centres[j], radius, teamName, space, sqrt)
          else old(graph.cells.obstructed[j])
      decreases stopIndex - nodeIndex
    {
      var cell := graph.nodes[nodeIndex].GetPosition();
      var obstructionFound := ObstructionAt(world, targets, cell, radius, teamName, space, sqrt);
      MarkCell(graph, nodeIndex, obstructionFound);
      nodeIndex := nodeIndex + 1;
    }
  }

  /** The store of the scanner's loop body: the cell is obstructed when a
      test hit and unobstructed otherwise; no other flag changes. */
  method MarkCell(graph: BeeGraph.BeeGraph, index: int, obstructionFound: bool)
    requires graph.Valid() && 0 <= index < graph.nodes.Length
    modifies graph, graph.Repr
    ensures graph.Valid() && graph.Repr == old(graph.Repr) && graph.nominal == old(graph.nominal)
    ensures graph.centres == old(graph.centres)
    ensures graph.cells.obstructed == old(graph.cells.obstructed)[index := obstructionFound]
  {
    ghost var before := graph.cells;
    if obstructionFound {
      var _ := graph.ObstructNode(index);
      BeeGraph.ObstructResult(before, index);
    } else {
      var _ := graph.UnobstructNode(index);
      BeeGraph.UnobstructResult(before, index);
    }
  }

  // ---------------------------------------------------------------------
  // Path length (`getPathLength`)

  /** The sum of the toroidal distances between consecutive waypoints. */
  function PathLength(space: Space, path: seq<Position>): real
  {
    if |path| <= 1 then 0.0
    else PathLength(space, path[..|path| - 1]) + space.shortestDistance(path[|path| - 2], path[|path| - 1])
  }

  /** The positions of the nodes of a path. */
  function Positions(path: seq<BeeNode.BeeNode>): seq<Position>
  {
    seq(|path|, i requires 0 <= i < |path| => path[i].position)
  }

  /** `getPathLength`: accumulates the distance of each consecutive pair. */
  method GetPathLength(space: Space, path: seq<BeeNode.BeeNode>) returns (length: real)
    ensures length == PathLength(space, Positions(path))
  {
    ghost var ps := Positions(path);
    length := 0.0;
    var i := 0;
    while i < |path| - 1
      invariant 0 <= i && (i < |path| || i == 0)
      invariant length == PathLength(space, ps[..if |ps| == 0 then 0 else i + 1])
    {
      assert ps[..i + 2][..i + 1] == ps[..i + 1];
      length := length + space.shortestDistance(path[i].GetPosition(), path[i + 1].GetPosition());
      i := i + 1;
    }
    if |path| > 0 {
      assert ps[..i + 1] == ps;
    }
  }

  /** The simulator's distance is never negative. */
  ghost predicate DistancesNonNegative(space: Space)
  {
    forall a, b :: space.shortestDistance(a, b) >= 0.0
  }

  /** A path's length is never negative. */
  lemma {:induction false} PathLengthNonNegative(space: Space, path: seq<Position>)
    requires DistancesNonNegative(space)
    ensures PathLength(space, path) >= 0.0
  {
    if |path| > 1 {
      PathLengthNonNegative(space, path[..|path| - 1]);
      assert space.shortestDistance(path[|path| - 2], path[|path| - 1]) >= 0.0;
    }
  }

  /** Read from the front: the first leg plus the length of the rest. */
  lemma {:induction false} PathLengthFirstLeg(space: Space, path: seq<Position>)
    requires |path| >= 2
    ensures PathLength(space, path) == space.shortestDistance(path[0], path[1]) + PathLength(space, path[1..])
  {
    if |path| > 2 {
      PathLengthFirstLeg(space, path[..|path| - 1]);
      assert path[..|path| - 1][1..] == path[1..][..|path| - 2];
    }
  }

  // ---------------------------------------------------------------------
  // Lookahead radius (`getMoveFromBeePursuit`)

  /** The radius of the `k`-th retry: two cells, widened by a quarter each time. */
  function RetryRadius(k: nat): real
  {
    2.0 * GRID_SIZE * JavaNum.Pow(1.25, k)
  }

  lemma RetryRadiusGrows(k: nat)
    ensures RetryRadius(k + 1) == RetryRadius(k) * 1.25
    ensures RetryRadius(k) > 0.0 && RetryRadius(k + 1) > RetryRadius(k)
  {
    PowPositive(1.25, k);
  }

  lemma {:induction false} PowPositive(b: real, k: nat)
    requires b > 0.0
    ensures JavaNum.Pow(b, k) > 0.0
  {
    if k > 0 {
      PowPositive(b, k - 1);
      JavaNum.MulMonoStrict(b, 0.0, JavaNum.Pow(b, k - 1));
    }
  }

  /** The pursuit finds no point at any of the first `n` retry radii. */
  ghost predicate NothingFoundBelow(path: seq<Position>, space: Space, pos: Position, sqrt: real -> real, n: nat)
  {
    forall k :: 0 <= k < n ==> BeePursuit.DesiredPosition(path, space, pos, RetryRadius(k), sqrt).None?
  }

  /** The goal of `getMoveFromBeePursuit`: try the pursuit at radius two
      cells, and while it finds nothing widen the radius by a quarter, up to
      twenty times; None stands for the DoNothing action, returned once
      twenty retries were used even when the last one found a point.
      `calls` counts the pursuit calls. */
  method GetMoveFromBeePursuit(path: seq<Position>, space: Space, pos: Position, sqrt: real -> real)
    returns (goal: Option<Position>, retries: nat, ghost calls: nat)
    ensures retries <= MAX_RETRIES && calls == retries + 1
    ensures forall k :: 0 <= k < retries ==> BeePursuit.DesiredPosition(path, space, pos, RetryRadius(k), sqrt).None?
    ensures retries < MAX_RETRIES ==>
      goal.Some? && goal == BeePursuit.DesiredPosition(path, space, pos, RetryRadius(retries), sqrt)
    ensures retries == MAX_RETRIES ==> goal.None?
  {
    var radius := 2.0 * GRID_SIZE;
    var goalPos := BeePursuit.DesiredPosition(path, space, pos, radius, sqrt);
    calls := 1;
    var iters := 0;
    while goalPos.None? && iters < MAX_RETRIES
      invariant 0 <= iters <= MAX_RETRIES && calls == iters + 1
      invariant radius == RetryRadius(iters)
      invariant goalPos == BeePursuit.DesiredPosition(path, space, pos, radius, sqrt)
      invariant NothingFoundBelow(path, space, pos, sqrt, iters)
    {
      RetryRadiusGrows(iters);
      iters := iters + 1;
      radius := radius * 1.25;
      assert radius == RetryRadius(iters);
      goalPos := BeePursuit.DesiredPosition(path, space, pos, radius, sqrt);
      calls := calls + 1;
    }
    retries := iters;
    if iters >= MAX_RETRIES {
      return None, retries, calls;
    }
    return goalPos, retries, calls;
  }

  // ---------------------------------------------------------------------
  // Chase targets

  /** Where a path to a chased object should lead: to the chaser's own
      position when the object is closer than three ship radii, so that the
      chaser does not ram it, and to the object otherwise. */
  function ChaseTarget(space: Space, shipPosition: Position, shipRadius: int, targetPosition: Position): Position
  {
    if space.shortestDistance(shipPosition, targetPosition) < (3 * shipRadius) as real then shipPosition
    else targetPosition
  }

  /** When the chaser and the chased object are both inside the arena, the
      goal node of the chase path is a node of the graph: the chaser's own
      cell when the object is near, and the object's cell otherwise, each
      found from the floors of the coordinates over the cell size. */
  lemma ChaseCell(space: Space, shipPosition: Position, shipRadius: int, targetPosition: Position, width: int, height: int)
    requires 0 < width && 0 < height
    requires 0.0 <= shipPosition.x < width as real * GRID_SIZE && 0.0 <= shipPosition.y < height as real * GRID_SIZE
    requires 0.0 <= targetPosition.x < width as real * GRID_SIZE && 0.0 <= targetPosition.y < height as real * GRID_SIZE
    ensures 0 <= PositionToNodeIndex(ChaseTarget(space, shipPosition, shipRadius, targetPosition), width) < width * height
    ensures space.shortestDistance(shipPosition, targetPosition) < (3 * shipRadius) as real ==>
      PositionToNodeIndex(ChaseTarget(space, shipPosition, shipRadius, targetPosition), width) ==
        (shipPosition.x / GRID_SIZE).Floor + (shipPosition.y / GRID_SIZE).Floor * width
    ensures space.shortestDistance(shipPosition, targetPosition) >= (3 * shipRadius) as real ==>
      PositionToNodeIndex(ChaseTarget(space, shipPosition, shipRadius, targetPosition), width) ==
        (targetPosition.x / GRID_SIZE).Floor + (targetPosition.y / GRID_SIZE).Floor * width
  {
    NodeIndexInArena(shipPosition, width, height);
    NodeIndexInArena(targetPosition, width, height);
  }
}
