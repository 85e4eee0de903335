/**
 * The navigation graph: one node per grid cell of the toroidal arena, each
 * holding the cost of its edges to its eight neighbours.  Obstructing a cell
 * makes every edge leading into it a million times dearer, so the searches
 * steer around it; unobstructing divides the factor back out.
 */
module BeeGraph {
  import opened Geometry
  import opened Wrappers
  import JavaNum
  import BeeUtil
  import BeeNode

  /** `BeeGraph.MULT`. */
  const MULT: real := 1000000.0

  /** The factor an edge into a cell carries: MULT while it is obstructed. */
  function Scale(obstructed: bool): real
  {
    if obstructed then MULT else 1.0
  }

  // ---------------------------------------------------------------------
  // The graph as a value: the flag and the outgoing edge costs of each cell

  datatype Cells = Cells(obstructed: seq<bool>, costs: seq<map<int, real>>)

  /** Every edge of cell `i` leads to a cell of the graph that has an edge
      back to `i`, so `getEdgeCost` never misses. */
  predicate CanRescale(c: Cells, i: int)
  {
    |c.obstructed| == |c.costs| && 0 <= i < |c.costs| &&
    forall v :: v in c.costs[i] ==> 0 <= v < |c.costs| && i in c.costs[v]
  }

  /** Every neighbour `v` of cell `i` has its edge into `i` multiplied by
      MULT (`obstructing`) or divided by it. */
  function RescaleInto(c: Cells, i: int, obstructing: bool): (r: seq<map<int, real>>)
    requires CanRescale(c, i)
    ensures |r| == |c.costs|
  {
    seq(|c.costs|, v requires 0 <= v < |c.costs| =>
      if v in c.costs[i] then
        c.costs[v][i := if obstructing then c.costs[v][i] * MULT else c.costs[v][i] / MULT]
      else c.costs[v])
  }

  /** `obstructNode`: whether the flag changed, and the graph afterwards. */
  function Obstruct(c: Cells, i: int): (bool, Cells)
    requires CanRescale(c, i)
  {
    if !c.obstructed[i] then (true, Cells(c.obstructed[i := true], RescaleInto(c, i, true)))
    else (false, c)
  }

  /** `unobstructNode`: whether the flag changed, and the graph afterwards. */
  function Unobstruct(c: Cells, i: int): (bool, Cells)
    requires CanRescale(c, i)
  {
    if c.obstructed[i] then (true, Cells(c.obstructed[i := false], RescaleInto(c, i, false)))
    else (false, c)
  }

  /** Edges stay inside the graph and come in pairs. */
  predicate Symmetric(c: Cells)
  {
    |c.obstructed| == |c.costs| &&
    forall v, u {:trigger u in c.costs[v]} :: 0 <= v < |c.costs| && u in c.costs[v] ==>
      0 <= u < |c.costs| && v in c.costs[u]
  }

  /** One cell's edges carry its nominal costs, scaled by MULT exactly on
      the edges that lead into an obstructed cell. */
  predicate EdgesScaled(costs: map<int, real>, nominal: map<int, real>, obstructed: seq<bool>)
  {
    costs.Keys == nominal.Keys &&
    forall u :: u in costs && 0 <= u < |obstructed| ==> costs[u] == nominal[u] * Scale(obstructed[u])
  }

  /** The graph invariant: edges come in pairs and every cell's edges are
      scaled as its neighbours' flags say. */
  predicate WellFormed(c: Cells, nominal: seq<map<int, real>>)
  {
    Symmetric(c) && |nominal| == |c.costs| &&
    forall v :: 0 <= v < |c.costs| ==> EdgesScaled(c.costs[v], nominal[v], c.obstructed)
  }

  lemma WellFormedCanRescale(c: Cells, nominal: seq<map<int, real>>, i: int)
    requires WellFormed(c, nominal) && 0 <= i < |c.costs|
    ensures CanRescale(c, i)
  {
  }

  /** Obstructing reports a change exactly when the cell was clear, and leaves
      it obstructed. */
  lemma ObstructResult(c: Cells, i: int)
    requires CanRescale(c, i)
    ensures Obstruct(c, i).0 <==> !c.obstructed[i]
    ensures Obstruct(c, i).1.obstructed == c.obstructed[i := true]
  {
  }

  /** Unobstructing reports a change exactly when the cell was obstructed,
      and leaves it clear. */
  lemma UnobstructResult(c: Cells, i: int)
    requires CanRescale(c, i)
    ensures Unobstruct(c, i).0 <==> c.obstructed[i]
    ensures Unobstruct(c, i).1.obstructed == c.obstructed[i := false]
  {
  }

  /** A second obstruct reports no change and changes nothing. */
  lemma ObstructIdempotent(c: Cells, i: int)
    requires CanRescale(c, i)
    ensures CanRescale(Obstruct(c, i).1, i)
    ensures Obstruct(Obstruct(c, i).1, i) == (false, Obstruct(c, i).1)
  {
    RescaleKeeps(c, i, true);
  }

  /** A second unobstruct reports no change and changes nothing. */
  lemma UnobstructIdempotent(c: Cells, i: int)
    requires CanRescale(c, i)
    ensures CanRescale(Unobstruct(c, i).1, i)
    ensures Unobstruct(Unobstruct(c, i).1, i) == (false, Unobstruct(c, i).1)
  {
    RescaleKeeps(c, i, false);
  }

  /** Rescaling changes costs but no key, so the precondition survives. */
  lemma RescaleKeeps(c: Cells, i: int, obstructing: bool)
    requires CanRescale(c, i)
    ensures forall v :: 0 <= v < |c.costs| ==> RescaleInto(c, i, obstructing)[v].Keys == c.costs[v].Keys
    ensures forall b :: CanRescale(Cells(b, RescaleInto(c, i, obstructing)), i) <==> |b| == |c.costs|
  {
    var r := RescaleInto(c, i, obstructing);
    forall v | 0 <= v < |c.costs|
      ensures r[v].Keys == c.costs[v].Keys
    {
    }
  }

  lemma {:induction false} RescaleSymmetric(c: Cells, i: int, obstructing: bool, flags: seq<bool>)
    requires Symmetric(c) && CanRescale(c, i) && |flags| == |c.costs|
    ensures Symmetric(Cells(flags, RescaleInto(c, i, obstructing)))
  {
    RescaleKeeps(c, i, obstructing);
    var r := RescaleInto(c, i, obstructing);
    forall v, u | 0 <= v < |r| && u in r[v]
      ensures 0 <= u < |r| && v in r[u]
    {
      assert r[v].Keys == c.costs[v].Keys;
      assert u in c.costs[v];
      assert r[u].Keys == c.costs[u].Keys;
    }
  }

  /** The cost of edge v -> u after rescaling the edges into `i`. */
  lemma RescaledEdge(c: Cells, i: int, obstructing: bool, v: int, u: int)
    requires CanRescale(c, i) && Symmetric(c) && 0 <= v < |c.costs| && u in c.costs[v]
    ensures u in RescaleInto(c, i, obstructing)[v]
    ensures RescaleInto(c, i, obstructing)[v][u] ==
      if u != i then c.costs[v][u]
      else if obstructing then c.costs[v][u] * MULT
      else c.costs[v][u] / MULT
  {
  }

  /** Obstructing touches only the flag of `i` and the edges into `i`. */
  lemma ObstructFrame(c: Cells, i: int)
    requires CanRescale(c, i)
    ensures forall j :: 0 <= j < |c.obstructed| && j != i ==> Obstruct(c, i).1.obstructed[j] == c.obstructed[j]
    ensures forall v, u :: 0 <= v < |c.costs| && u in c.costs[v] && u != i ==>
      u in Obstruct(c, i).1.costs[v] && Obstruct(c, i).1.costs[v][u] == c.costs[v][u]
    ensures forall v :: 0 <= v < |c.costs| && v in c.costs[i] ==>
      Obstruct(c, i).1.costs[v][i] == (if c.obstructed[i] then c.costs[v][i] else c.costs[v][i] * MULT)
  {
  }

  /** Unobstructing an obstruction restores the flag and every cost. */
  lemma {:induction false} ObstructRoundTrip(c: Cells, i: int)
    requires CanRescale(c, i) && !c.obstructed[i]
    ensures CanRescale(Obstruct(c, i).1, i)
    ensures Unobstruct(Obstruct(c, i).1, i) == (true, c)
  {
    RescaleKeeps(c, i, true);
    var o := Obstruct(c, i).1;
    var u := Unobstruct(o, i).1;
    assert u.obstructed == c.obstructed;
    forall v | 0 <= v < |c.costs|
      ensures u.costs[v] == c.costs[v]
    {
      if v in c.costs[i] {
        assert o.costs[v][i] / MULT == c.costs[v][i];
        assert u.costs[v] == c.costs[v][i := c.costs[v][i]];
      }
    }
    assert u.costs == c.costs;
  }

  /** Obstructing an unobstructed cell back restores it as well. */
  lemma {:induction false} UnobstructRoundTrip(c: Cells, i: int)
    requires CanRescale(c, i) && c.obstructed[i]
    ensures CanRescale(Unobstruct(c, i).1, i)
    ensures Obstruct(Unobstruct(c, i).1, i) == (true, c)
  {
    RescaleKeeps(c, i, false);
    var o := Unobstruct(c, i).1;
    var u := Obstruct(o, i).1;
    assert u.obstructed == c.obstructed;
    forall v | 0 <= v < |c.costs|
      ensures u.costs[v] == c.costs[v]
    {
      if v in c.costs[i] {
        assert o.costs[v][i] * MULT == c.costs[v][i];
        assert u.costs[v] == c.costs[v][i := c.costs[v][i]];
      }
    }
    assert u.costs == c.costs;
  }

  /** Both operations keep the graph invariant. */
  lemma {:induction false} ObstructKeepsWellFormed(c: Cells, nominal: seq<map<int, real>>, i: int)
    requires WellFormed(c, nominal) && 0 <= i < |c.costs|
    ensures WellFormed(Obstruct(c, i).1, nominal)
  {
    if !c.obstructed[i] {
      RescaleKeepsWellFormed(c, nominal, i, true);
    }
  }

  lemma {:induction false} UnobstructKeepsWellFormed(c: Cells, nominal: seq<map<int, real>>, i: int)
    requires WellFormed(c, nominal) && 0 <= i < |c.costs|
    ensures WellFormed(Unobstruct(c, i).1, nominal)
  {
    if c.obstructed[i] {
      RescaleKeepsWellFormed(c, nominal, i, false);
    }
  }

  /** The flags fix the whole graph: two well-formed graphs over the same
      nominal costs and with the same flags have the same edge costs. */
  lemma FlagsDetermineCosts(c1: Cells, c2: Cells, nominal: seq<map<int, real>>)
    requires WellFormed(c1, nominal) && WellFormed(c2, nominal) && c1.obstructed == c2.obstructed
    ensures c1 == c2
  {
    forall v | 0 <= v < |c1.costs|
      ensures c1.costs[v] == c2.costs[v]
    {
      assert c1.costs[v].Keys == c2.costs[v].Keys;
      forall u | u in c1.costs[v]
        ensures c1.costs[v][u] == c2.costs[v][u]
      {
        assert 0 <= u < |c1.obstructed|;
      }
    }
  }

  lemma {:induction false} RescaleKeepsWellFormed(c: Cells, nominal: seq<map<int, real>>, i: int, obstructing: bool)
    requires WellFormed(c, nominal) && 0 <= i < |c.costs| && c.obstructed[i] != obstructing
    ensures WellFormed(Cells(c.obstructed[i := obstructing], RescaleInto(c, i, obstructing)), nominal)
  {
    var o := Cells(c.obstructed[i := obstructing], RescaleInto(c, i, obstructing));
    RescaleSymmetric(c, i, obstructing, o.obstructed);
    RescaleKeeps(c, i, obstructing);
    forall v | 0 <= v < |o.costs|
      ensures EdgesScaled(o.costs[v], nominal[v], o.obstructed)
    {
      RescaledRow(c, nominal, i, obstructing, v, o.costs[v], o.obstructed);
    }
  }

  /** One cell's edges after the rescale (`costs`, with the flags `flags`):
      only the edge into `i` moves to the new scale. */
  lemma RescaledRow(c: Cells, nominal: seq<map<int, real>>, i: int, obstructing: bool, v: int,
                    costs: map<int, real>, flags: seq<bool>)
    requires WellFormed(c, nominal) && 0 <= i < |c.costs| && c.obstructed[i] != obstructing
    requires 0 <= v < |c.costs|
    requires costs == RescaleInto(c, i, obstructing)[v] && flags == c.obstructed[i := obstructing]
    ensures EdgesScaled(costs, nominal[v], flags)
  {
    RescaleKeeps(c, i, obstructing);
    assert EdgesScaled(c.costs[v], nominal[v], c.obstructed);
    assert costs.Keys == c.costs[v].Keys;
    forall u | u in costs && 0 <= u < |flags|
      ensures costs[u] == nominal[v][u] * Scale(flags[u])
    {
      RescaledCost(c, nominal[v], i, obstructing, v, u, costs, flags);
    }
  }

  lemma RescaledCost(c: Cells, nominal: map<int, real>, i: int, obstructing: bool, v: int, u: int,
                     costs: map<int, real>, flags: seq<bool>)
    requires CanRescale(c, i) && Symmetric(c) && c.obstructed[i] != obstructing
    requires 0 <= v < |c.costs| && EdgesScaled(c.costs[v], nominal, c.obstructed)
    requires u in c.costs[v]
    requires costs == RescaleInto(c, i, obstructing)[v] && flags == c.obstructed[i := obstructing]
    ensures u in costs && 0 <= u < |flags| && costs[u] == nominal[u] * Scale(flags[u])
  {
    RescaledEdge(c, i, obstructing, v, u);
    assert 0 <= u < |c.obstructed|;
    if u == i {
      ScaledFactor(c.costs[v][u], nominal[u], obstructing);
    } else {
      assert flags[u] == c.obstructed[u];
    }
  }

  /** Moving an edge from one scale to the other multiplies or divides by MULT. */
  lemma ScaledFactor(cost: real, nominal: real, obstructing: bool)
    requires cost == nominal * Scale(!obstructing)
    ensures (if obstructing then cost * MULT else cost / MULT) == nominal * Scale(obstructing)
  {
  }

  // ---------------------------------------------------------------------
  // Toroidal distance

  /** `findShortestDistanceVector`: the raw difference `location2 - location1`,
      folded by one width (height) when it exceeds half of it. */
  function ShortestDistanceVector(location1: Position, location2: Position, width: real, height: real,
                                  halfWidth: real, halfHeight: real): Vector2D
  {
    var x := location2.x - location1.x;
    var y := location2.y - location1.y;
    if x > halfWidth then
      if y > halfHeight then Vector2D(x - width, y - height)
      else if y < -halfHeight then Vector2D(x - width, y + height)
      else Vector2D(x - width, y)
    else if x < -halfWidth then
      if y > halfHeight then Vector2D(x + width, y - height)
      else if y < -halfHeight then Vector2D(x + width, y + height)
      else Vector2D(x + width, y)
    else if y > halfHeight then Vector2D(x, y - height)
    else if y < -halfHeight then Vector2D(x, y + height)
    else Vector2D(x, y)
  }

  /** One axis of the fold. */
  function Fold(d: real, extent: real, half: real): real
  {
    if d > half then d - extent else if d < -half then d + extent else d
  }

  /** The vector is the per-axis fold of the raw difference. */
  lemma ShortestDistanceVectorFolds(location1: Position, location2: Position, width: real, height: real,
                                    halfWidth: real, halfHeight: real)
    ensures ShortestDistanceVector(location1, location2, width, height, halfWidth, halfHeight) ==
      Vector2D(Fold(location2.x - location1.x, width, halfWidth), Fold(location2.y - location1.y, height, halfHeight))
  {
  }

  /** When the raw difference is at most one extent, its fold lies in
      `[-half, half]` and differs from it by 0 or one extent. */
  lemma FoldBounds(d: real, extent: real)
    requires 0.0 < extent && -extent <= d <= extent
    ensures -extent / 2.0 <= Fold(d, extent, extent / 2.0) <= extent / 2.0
    ensures Fold(d, extent, extent / 2.0) - d in {0.0, extent, -extent}
  {
  }

  /** Swapping the two locations negates the vector. */
  lemma ShortestDistanceVectorAntisymmetric(location1: Position, location2: Position, width: real, height: real,
                                            halfWidth: real, halfHeight: real)
    requires 0.0 <= halfWidth && 0.0 <= halfHeight
    ensures ShortestDistanceVector(location2, location1, width, height, halfWidth, halfHeight) ==
      Negate(ShortestDistanceVector(location1, location2, width, height, halfWidth, halfHeight))
  {
  }

  function Negate(v: Vector2D): (r: Vector2D)
    ensures SquaredMagnitude(r) == SquaredMagnitude(v)
  {
    Vector2D(-v.x, -v.y)
  }

  /** The arena's extents as `findShortestDistance` passes them: the full
      extent through an `(int)` cast of the grid size, the half without. */
  function ArenaVector(location1: Position, location2: Position, width: int, height: int, gridSize: real): Vector2D
  {
    ShortestDistanceVector(location1, location2,
      (width * JavaNum.Trunc(gridSize)) as real, (height * JavaNum.Trunc(gridSize)) as real,
      (width as real * gridSize) / 2.0, (height as real * gridSize) / 2.0)
  }

  /** `findShortestDistance`: the magnitude of the folded vector. */
  function ShortestDistance(location1: Position, location2: Position, width: int, height: int,
                            gridSize: real, sqrt: real -> real): real
  {
    Magnitude(ArenaVector(location1, location2, width, height, gridSize), sqrt)
  }

  /** The toroidal distance is symmetric. */
  lemma {:induction false} ShortestDistanceSymmetric(location1: Position, location2: Position, width: int,
                                                     height: int, gridSize: real, sqrt: real -> real)
    requires 0.0 <= width as real * gridSize && 0.0 <= height as real * gridSize
    ensures ShortestDistance(location1, location2, width, height, gridSize, sqrt) ==
            ShortestDistance(location2, location1, width, height, gridSize, sqrt)
  {
    var w := (width * JavaNum.Trunc(gridSize)) as real;
    var h := (height * JavaNum.Trunc(gridSize)) as real;
    ShortestDistanceVectorAntisymmetric(location1, location2, w, h,
      (width as real * gridSize) / 2.0, (height as real * gridSize) / 2.0);
  }

  // ---------------------------------------------------------------------
  // The graph object

  class BeeGraph {
    const nodes: array<BeeNode.BeeNode?>
    const height: int
    const width: int
    const gridSize: real
    /** The node objects. */
    ghost var Repr: set<BeeNode.BeeNode>
    /** The graph as a value, kept equal to the node objects. */
    ghost var cells: Cells
    /** The edge costs the graph was built with. */
    ghost var nominal: seq<map<int, real>>
    /** The cell centres, as stored in the nodes. */
    ghost var centres: seq<Position>

    /** Every slot holds its own node, and the nodes are the footprint. */
    ghost predicate Linked()
      reads this, nodes
    {
      (forall j :: 0 <= j < nodes.Length ==> nodes[j] != null && nodes[j] in Repr) &&
      (forall j, k :: 0 <= j < k < nodes.Length ==> nodes[j] != nodes[k])
    }

    /** The node objects hold the flags and edge costs of `c`. */
    ghost predicate Mirrors(c: Cells)
      reads this, nodes, Repr
      requires Linked()
    {
      |c.costs| == nodes.Length && |c.obstructed| == nodes.Length &&
      forall j :: 0 <= j < nodes.Length ==>
        nodes[j].obstructed == c.obstructed[j] && nodes[j].adjacency == c.costs[j]
    }

    ghost predicate Valid()
      reads this, nodes, Repr
    {
      Linked() && Mirrors(cells) && WellFormed(cells, nominal) &&
      |centres| == nodes.Length && (forall j :: 0 <= j < nodes.Length ==> nodes[j].position == centres[j])
    }

    /** `findDistance` as a function of two cell indices. */
    ghost function Heuristic(sqrt: real -> real): (int, int) -> real
      reads this
    {
      var cs := centres;
      (a: int, b: int) =>
        if 0 <= a < |cs| && 0 <= b < |cs| then ShortestDistance(cs[a], cs[b], width, height, gridSize, sqrt) else 0.0
    }

    /** `new BeeGraph(size, height, width, gridSize)`: `size` empty slots. */
    constructor (size: nat, height: int, width: int, gridSize: real)
      ensures fresh(nodes) && nodes.Length == size
      ensures forall j :: 0 <= j < size ==> nodes[j] == null
      ensures this.height == height && this.width == width && this.gridSize == gridSize
    {
      nodes := new BeeNode.BeeNode?[size](_ => null);
      this.height := height;
      this.width := width;
      this.gridSize := gridSize;
    }

    /** `addNode`: stores `node` in slot `index`. */
    method AddNode(index: int, node: BeeNode.BeeNode)
      requires 0 <= index < nodes.Length
      modifies nodes
      ensures nodes[..] == old(nodes[..])[index := node]
    {
      nodes[index] := node;
    }

    /** Records the graph's value once every slot holds a node; `flags` and
        `costs` are the nodes' current flags and edge maps, and `costs`
        becomes the nominal cost of every edge. */
    ghost method Seal(costs: seq<map<int, real>>, positions: seq<Position>)
      requires forall j :: 0 <= j < nodes.Length ==> nodes[j] != null
      requires forall j, k :: 0 <= j < k < nodes.Length ==> nodes[j] != nodes[k]
      requires |costs| == nodes.Length
      requires forall j :: 0 <= j < nodes.Length ==> !nodes[j].obstructed && nodes[j].adjacency == costs[j]
      requires Symmetric(Cells(seq(|costs|, _ => false), costs))
      requires |positions| == nodes.Length && forall j :: 0 <= j < nodes.Length ==> nodes[j].position == positions[j]
      modifies this
      ensures Valid() && cells == Cells(seq(|costs|, _ => false), costs) && nominal == costs && centres == positions
    {
      centres := positions;
      Repr := set j | 0 <= j < nodes.Length :: nodes[j] as BeeNode.BeeNode;
      cells := Cells(seq(|costs|, _ => false), costs);
      nominal := costs;
      forall v | 0 <= v < |costs|
        ensures EdgesScaled(cells.costs[v], nominal[v], cells.obstructed)
      {
      }
    }

    /** `obstructNode`. */
    method ObstructNode(index: int) returns (changed: bool)
      requires Valid() && 0 <= index < nodes.Length
      modifies this, Repr
      ensures Valid() && Repr == old(Repr) && nominal == old(nominal) && centres == old(centres)
      ensures CanRescale(old(cells), index) && (changed, cells) == Obstruct(old(cells), index)
    {
      WellFormedCanRescale(cells, nominal, index);
      ObstructKeepsWellFormed(cells, nominal, index);
      var node := nodes[index];
      if !node.obstructed {
        ghost var next := Obstruct(cells, index).1;
        node.obstructed := true;
        ScaleEdgesInto(index, true, Cells(next.obstructed, cells.costs));
        cells := next;
        changed := true;
      } else {
        changed := false;
      }
    }

    /** `unobstructNode`. */
    method UnobstructNode(index: int) returns (changed: bool)
      requires Valid() && 0 <= index < nodes.Length
      modifies this, Repr
      ensures Valid() && Repr == old(Repr) && nominal == old(nominal) && centres == old(centres)
      ensures CanRescale(old(cells), index) && (changed, cells) == Unobstruct(old(cells), index)
    {
      WellFormedCanRescale(cells, nominal, index);
      UnobstructKeepsWellFormed(cells, nominal, index);
      var node := nodes[index];
      if node.obstructed {
        ghost var next := Unobstruct(cells, index).1;
        node.obstructed := false;
        ScaleEdgesInto(index, false, Cells(next.obstructed, cells.costs));
        cells := next;
        changed := true;
      } else {
        changed := false;
      }
    }

    /** The loop of `obstructNode` / `unobstructNode` over the cell's
        neighbours: each multiplies (divides) its edge into `index` by MULT. */
    method ScaleEdgesInto(index: int, obstructing: bool, ghost c: Cells)
      requires Linked() && Mirrors(c) && CanRescale(c, index)
      modifies Repr
      ensures Mirrors(Cells(c.obstructed, RescaleInto(c, index, obstructing)))
    {
      var todo := nodes[index].adjacency.Keys;
      ghost var target := RescaleInto(c, index, obstructing);
      while todo != {}
        invariant todo <= c.costs[index].Keys
        invariant forall j :: 0 <= j < nodes.Length ==> nodes[j].obstructed == c.obstructed[j]
        invariant forall j :: 0 <= j < nodes.Length ==>
          nodes[j].adjacency == if j in todo then c.costs[j] else target[j]
        decreases |todo|
      {
        EmptyOrMember(todo);
        var v :| v in todo;
        var adjNode := nodes[v];
        if obstructing {
          adjNode.AddAdjacent(index, adjNode.adjacency[index] * MULT);
        } else {
          adjNode.AddAdjacent(index, adjNode.adjacency[index] / MULT);
        }
        todo := todo - {v};
      }
    }

    /** `BeeGraph.findAdjacentIndices`, the graph's own copy of the
        neighbour formula. */
    function FindAdjacentIndices(index: int): (indices: seq<int>)
      requires width != 0
      ensures indices == BeeUtil.FindAdjacentIndices(index, height, width)
    {
      var row := JavaNum.Div(index, width);
      var column := JavaNum.Rem(index, width);
      [ if column != width - 1 then index + 1 else index - width + 1,
        if column != 0 then index - 1 else index + width - 1,
        if row > 0 then index - width else index + width * (height - 1),
        if row < height - 1 then index + width else index - width * (height - 1),
        if column != width - 1 then
          (if row > 0 then index + 1 - width else index + 1 + width * (height - 1))
        else
          (if row > 0 then index - 2 * width + 1 else index - width + 1 + width * (height - 1)),
        if column != 0 then
          (if row > 0 then index - 1 - width else index - 1 + width * (height - 1))
        else
          (if row > 0 then index + width - 1 - width else index + width - 1 + width * (height - 1)),
        if column != width - 1 then
          (if row < height - 1 then index + width + 1 else index - width * (height - 1) + 1)
        else
          (if row < height - 1 then index + width - width + 1 else index - width * (height - 1) - width + 1),
        if column != 0 then
          (if row < height - 1 then index + width - 1 else index - width * (height - 1) - 1)
        else
          (if row < height - 1 then index + width + width - 1 else index - width * (height - 1) + width - 1) ]
    }

    /** `findDistance(node1, node2)`: toroidal distance between cell centres. */
    function FindDistance(index1: int, index2: int, sqrt: real -> real): real
      requires 0 <= index1 < nodes.Length && 0 <= index2 < nodes.Length
      requires nodes[index1] != null && nodes[index2] != null
      reads nodes
    {
      ShortestDistance(nodes[index1].position, nodes[index2].position, width, height, gridSize, sqrt)
    }

    /** `toroidalWrap`: a new position inside the arena, a whole number of
        arena widths (heights) away from `position`, which is not changed. */
    method ToroidalWrap(position: Position) returns (wrapped: Position, ghost kx: int, ghost ky: int)
      requires 0.0 < width as real * gridSize && 0.0 < height as real * gridSize
      ensures 0.0 <= wrapped.x < width as real * gridSize
      ensures 0.0 <= wrapped.y < height as real * gridSize
      ensures wrapped.x == position.x + kx as real * (width as real * gridSize)
      ensures wrapped.y == position.y + ky as real * (height as real * gridSize)
    {
      var w := width as real * gridSize;
      var h := height as real * gridSize;
      var x, nx := WrapUp(position.x, w);
      var y, ny := WrapUp(position.y, h);
      wrapped := Position(JavaNum.FMod(x, w), JavaNum.FMod(y, h));
      kx := nx - JavaNum.Trunc(x / w);
      ky := ny - JavaNum.Trunc(y / h);
      Regroup(position.x, nx, JavaNum.Trunc(x / w), w);
      Regroup(position.y, ny, JavaNum.Trunc(y / h), h);
    }

    // -------------------------------------------------------------------
    // A* search

    /** `getAStarPath`: clears the start cell, then searches. */
    method GetAStarPath(startIndex: int, goalIndex: int) returns (path: seq<Option<int>>)
      requires Valid() && 0 <= startIndex < nodes.Length && 0 <= goalIndex < nodes.Length
      modifies this, Repr
      ensures Valid() && Repr == old(Repr) && nominal == old(nominal)
      ensures CanRescale(old(cells), startIndex) && cells == Unobstruct(old(cells), startIndex).1
      ensures !cells.obstructed[startIndex]
      ensures TracesBack(path, startIndex, goalIndex, cells)
      ensures path != [] ==> Reaches(path, goalIndex)
    {
      var _ := UnobstructNode(startIndex);
      path := AStarSearch(startIndex, goalIndex);
    }

    /** The search and path reconstruction of `getAStarPath`.  The search
        runs from the goal cell towards the start cell, so that following the
        parent links from the start cell yields the path in walking order.
        It gives up with an empty path after 1000 iterations. */
    method AStarSearch(startIndex: int, goalIndex: int) returns (path: seq<Option<int>>)
      requires Valid() && 0 <= startIndex < nodes.Length && 0 <= goalIndex < nodes.Length
      ensures TracesBack(path, startIndex, goalIndex, cells)
      ensures path != [] ==> Reaches(path, goalIndex)
    {
      // The roles are swapped: the tree is rooted at the goal cell.
      var root := goalIndex;
      var target := startIndex;
      var closed: set<int> := {};
      var frontier: multiset<int> := multiset{};
      var costAtNode: map<int, real> := map[root := 0.0];
      var parentMap: map<int, Option<int>> := map[root := None];
      var todo := nodes[root].adjacency.Keys;
      while todo != {}
        invariant todo <= cells.costs[root].Keys
        invariant Tree(parentMap, costAtNode, frontier, root, cells)
        decreases |todo|
      {
        EmptyOrMember(todo);
        var adjNode :| adjNode in todo;
        todo := todo - {adjNode};
        var cost := nodes[root].adjacency[adjNode];
        ParentLinksPut(parentMap, root, cells, adjNode, root);
        costAtNode := costAtNode[adjNode := cost];
        frontier := frontier + multiset{adjNode};
        parentMap := parentMap[adjNode := Some(root)];
      }
      var loopCount := 0;
      while true
        invariant 0 <= loopCount <= MAX_LOOPS
        invariant Tree(parentMap, costAtNode, frontier, root, cells)
        decreases MAX_LOOPS - loopCount
      {
        if frontier == multiset{} {
          break;
        }
        if loopCount == MAX_LOOPS {
          return [];
        }
        EmptyOrMemberMultiset(frontier);
        var nextNode :| nextNode in frontier;
        frontier := frontier - multiset{nextNode};
        if nextNode == target {
          break;
        }
        if nextNode !in closed {
          closed := closed + {nextNode};
          costAtNode, frontier, parentMap := Expand(nextNode, closed, costAtNode, frontier, parentMap, root);
        }
        loopCount := loopCount + 1;
      }
      path := Reconstruct(parentMap, root, target, cells);
    }

    /** Relaxes every edge out of `nextNode` into a cell that is not closed. */
    method Expand(nextNode: int, closed: set<int>, costAtNode: map<int, real>, frontier: multiset<int>,
                  parentMap: map<int, Option<int>>, ghost root: int)
      returns (costAtNode': map<int, real>, frontier': multiset<int>, parentMap': map<int, Option<int>>)
      requires Valid() && Tree(parentMap, costAtNode, frontier, root, cells)
      requires 0 <= nextNode < nodes.Length && nextNode in costAtNode
      ensures Tree(parentMap', costAtNode', frontier', root, cells)
    {
      costAtNode', frontier', parentMap' := costAtNode, frontier, parentMap;
      var todo := nodes[nextNode].adjacency.Keys;
      while todo != {}
        invariant todo <= cells.costs[nextNode].Keys
        invariant Tree(parentMap', costAtNode', frontier', root, cells)
        invariant nextNode in costAtNode'
        decreases |todo|
      {
        EmptyOrMember(todo);
        var adjNode :| adjNode in todo;
        todo := todo - {adjNode};
        var cost := costAtNode'[nextNode] + nodes[nextNode].adjacency[adjNode];
        if adjNode !in costAtNode' || cost < costAtNode'[adjNode] {
          if adjNode !in closed {
            ParentLinksPut(parentMap', root, cells, adjNode, nextNode);
            costAtNode' := costAtNode'[adjNode := cost];
            frontier' := frontier' + multiset{adjNode};
            parentMap' := parentMap'[adjNode := Some(nextNode)];
          }
        }
      }
    }

    // -------------------------------------------------------------------
    // Hill climbing

    /** `getHillClimbingPath`: clears the start cell, then climbs. */
    method GetHillClimbingPath(startIndex: int, goalIndex: int, sqrt: real -> real, fuel: nat)
      returns (path: seq<int>, ghost exhausted: bool)
      requires Valid() && 0 <= startIndex < nodes.Length && 0 <= goalIndex < nodes.Length
      modifies this, Repr
      ensures Valid() && Repr == old(Repr) && nominal == old(nominal)
      ensures CanRescale(old(cells), startIndex) && cells == Unobstruct(old(cells), startIndex).1
      ensures !cells.obstructed[startIndex]
      ensures Climbs(path, startIndex, goalIndex, cells, Heuristic(sqrt))
      ensures !exhausted ==> Stuck(path, startIndex, goalIndex, cells)
      ensures exhausted ==> |path| == fuel && goalIndex !in path
    {
      var _ := UnobstructNode(startIndex);
      path, exhausted := HillClimbSearch(startIndex, goalIndex, sqrt, fuel);
    }

    /** The climbing loop of `getHillClimbingPath`.  Because `lastHeuristic`
        stays at +infinity, the loop goes on while some neighbour is clear;
        `fuel` bounds its rounds, and `exhausted` says the bound was hit. */
    method HillClimbSearch(startIndex: int, goalIndex: int, sqrt: real -> real, fuel: nat)
      returns (path: seq<int>, ghost exhausted: bool)
      requires Valid() && 0 <= startIndex < nodes.Length && 0 <= goalIndex < nodes.Length
      ensures Climbs(path, startIndex, goalIndex, cells, Heuristic(sqrt))
      ensures !exhausted ==> Stuck(path, startIndex, goalIndex, cells)
      ensures exhausted ==> |path| == fuel && goalIndex !in path
    {
      ghost var h := Heuristic(sqrt);
      var currentNode := startIndex;
      path := [];
      var rounds := 0;
      while true
        invariant 0 <= rounds <= fuel && |path| == rounds
        invariant 0 <= currentNode < nodes.Length && currentNode == Before(path, startIndex, |path|)
        invariant Climbs(path, startIndex, goalIndex, cells, h) && goalIndex !in path
        decreases fuel - rounds
      {
        if rounds == fuel {
          return path, true;
        }
        var bestNode, foundGoal := BestNeighbour(currentNode, goalIndex, sqrt);
        if foundGoal {
          ClimbsExtend(path, startIndex, goalIndex, goalIndex, cells, h);
          path := path + [goalIndex];
          return path, false;
        }
        if bestNode.None? {
          return path, false;
        }
        ClimbsExtend(path, startIndex, goalIndex, bestNode.value, cells, h);
        path := path + [bestNode.value];
        currentNode := bestNode.value;
        rounds := rounds + 1;
      }
    }

    /** The inner loop of `getHillClimbingPath` over the neighbours of
        `currentNode`: reports the goal when it is adjacent, and otherwise the
        clear neighbour nearest the goal (none when every one is obstructed). */
    method BestNeighbour(currentNode: int, goalIndex: int, sqrt: real -> real)
      returns (bestNode: Option<int>, foundGoal: bool)
      requires Valid() && 0 <= currentNode < nodes.Length && 0 <= goalIndex < nodes.Length
      ensures foundGoal <==> goalIndex in cells.costs[currentNode]
      ensures !foundGoal && bestNode.Some? ==>
        Greedy(bestNode.value, currentNode, goalIndex, cells, Heuristic(sqrt))
      ensures !foundGoal && bestNode.None? ==>
        forall v :: v in cells.costs[currentNode] ==> cells.obstructed[v]
    {
      ghost var h := Heuristic(sqrt);
      ghost var adj := cells.costs[currentNode];
      forall v | v in adj
        ensures 0 <= v < nodes.Length && nodes[v] != null && v < |cells.obstructed|
        ensures nodes[v].obstructed == cells.obstructed[v] && FindDistance(v, goalIndex, sqrt) == h(v, goalIndex)
      {
        assert nodes[v].position == centres[v] && nodes[goalIndex].position == centres[goalIndex];
      }
      bestNode, foundGoal := ClosestClear(currentNode, goalIndex, sqrt, adj, cells.obstructed, h);
    }

    /** The loop of `getBestNeighbour`: scans the neighbours of `currentNode`,
        stopping at the goal, and keeps the first clear neighbour of least
        heuristic distance; `obstructed` and `h` are the flags and the distance
        the nodes hold. */
    method ClosestClear(currentNode: int, goalIndex: int, sqrt: real -> real,
                        ghost adj: map<int, real>, ghost obstructed: seq<bool>, ghost h: (int, int) -> real)
      returns (bestNode: Option<int>, foundGoal: bool)
      requires 0 <= currentNode < nodes.Length && 0 <= goalIndex < nodes.Length && nodes[goalIndex] != null
      requires nodes[currentNode] != null && nodes[currentNode].adjacency == adj
      requires forall v :: v in adj ==>
        0 <= v < nodes.Length && nodes[v] != null && v < |obstructed| &&
        nodes[v].obstructed == obstructed[v] && FindDistance(v, goalIndex, sqrt) == h(v, goalIndex)
      ensures foundGoal <==> goalIndex in adj
      ensures !foundGoal && bestNode.Some? ==>
        bestNode.value in adj && bestNode.value != goalIndex && !obstructed[bestNode.value] &&
        forall v :: v in adj && !obstructed[v] ==> h(bestNode.value, goalIndex) <= h(v, goalIndex)
      ensures !foundGoal && bestNode.None? ==> forall v :: v in adj ==> obstructed[v]
    {
      var todo := nodes[currentNode].adjacency.Keys;
      var bestHeuristic: Option<real> := None;  // None is +infinity
      bestNode := None;
      foundGoal := false;
      while todo != {} && !foundGoal
        invariant todo <= adj.Keys
        invariant foundGoal ==> goalIndex in adj
        invariant !foundGoal ==> goalIndex !in adj.Keys - todo
        invariant bestNode.Some? <==> bestHeuristic.Some?
        invariant bestNode.Some? ==>
          bestNode.value in adj && bestNode.value != goalIndex &&
          !obstructed[bestNode.value] && bestHeuristic.value == h(bestNode.value, goalIndex)
        invariant forall v :: v in adj.Keys - todo && v != goalIndex && !obstructed[v] ==>
          bestNode.Some? && bestHeuristic.value <= h(v, goalIndex)
        decreases |todo|
      {
        EmptyOrMember(todo);
        var node :| node in todo;
        todo := todo - {node};
        if node == goalIndex {
          foundGoal := true;
        } else if !nodes[node].obstructed {
          var heuristic := FindDistance(node, goalIndex, sqrt);
          if bestHeuristic.None? || heuristic < bestHeuristic.value {
            bestHeuristic := Some(heuristic);
            bestNode := Some(node);
          }
        }
      }
    }
  }

  /** The cell the climber stands on before taking step `k` of `path`. */
  function Before(path: seq<int>, startIndex: int, k: int): int
    requires 0 <= k <= |path|
  {
    if k == 0 then startIndex else path[k - 1]
  }

  /** `next` is a clear, non-goal neighbour of `current` at least as near the
      goal, by `h`, as every other clear neighbour, and the goal is not a
      neighbour of `current`. */
  ghost predicate Greedy(next: int, current: int, goalIndex: int, c: Cells, h: (int, int) -> real)
    requires Symmetric(c) && 0 <= current < |c.costs|
  {
    next in c.costs[current] && next != goalIndex && !c.obstructed[next] &&
    goalIndex !in c.costs[current] &&
    forall v :: v in c.costs[current] && !c.obstructed[v] ==> h(next, goalIndex) <= h(v, goalIndex)
  }

  /** One step of a climb from `current` to `next`: a neighbour, and the
      greedy choice unless it is the goal. */
  ghost predicate Step(current: int, next: int, goalIndex: int, c: Cells, h: (int, int) -> real)
    requires Symmetric(c)
  {
    0 <= current < |c.costs| && next in c.costs[current] && 0 <= next < |c.costs| &&
    (next != goalIndex ==> Greedy(next, current, goalIndex, c, h))
  }

  /** The steps of a hill-climbing path: each is a neighbour of the cell
      before it, the goal can only be the last step, and every other step is
      the greedy choice. */
  ghost predicate Climbs(path: seq<int>, startIndex: int, goalIndex: int, c: Cells, h: (int, int) -> real)
  {
    Symmetric(c) && 0 <= startIndex < |c.costs| &&
    (forall k :: 0 <= k < |path| ==> Step(Before(path, startIndex, k), path[k], goalIndex, c, h)) &&
    (forall k :: 0 <= k < |path| - 1 ==> path[k] != goalIndex)
  }

  /** How an unexhausted climb ends: with the goal as the last step, or on a
      cell whose neighbours are all obstructed and none is the goal. */
  ghost predicate Stuck(path: seq<int>, startIndex: int, goalIndex: int, c: Cells)
    requires Symmetric(c) && 0 <= startIndex < |c.costs|
    requires forall k :: 0 <= k < |path| ==> 0 <= path[k] < |c.costs|
  {
    (path != [] && path[|path| - 1] == goalIndex) ||
    (goalIndex !in c.costs[Before(path, startIndex, |path|)] &&
     forall v :: v in c.costs[Before(path, startIndex, |path|)] ==> c.obstructed[v])
  }

  lemma ClimbsExtend(path: seq<int>, startIndex: int, goalIndex: int, next: int, c: Cells, h: (int, int) -> real)
    requires Climbs(path, startIndex, goalIndex, c, h) && goalIndex !in path
    requires next in c.costs[Before(path, startIndex, |path|)]
    requires next != goalIndex ==> Greedy(next, Before(path, startIndex, |path|), goalIndex, c, h)
    ensures Climbs(path + [next], startIndex, goalIndex, c, h)
    ensures next != goalIndex ==> goalIndex !in path + [next]
  {
    var p := path + [next];
    forall k | 0 <= k < |p|
      ensures Step(Before(p, startIndex, k), p[k], goalIndex, c, h)
    {
      ExtendedStep(path, startIndex, goalIndex, next, c, h, k);
    }
    forall k | 0 <= k < |p| - 1
      ensures p[k] != goalIndex
    {
      assert p[k] == path[k];
    }
  }

  /** Step `k` of `path + [next]`: an old step of `path`, or the new last one. */
  lemma ExtendedStep(path: seq<int>, startIndex: int, goalIndex: int, next: int, c: Cells, h: (int, int) -> real, k: int)
    requires Climbs(path, startIndex, goalIndex, c, h)
    requires next in c.costs[Before(path, startIndex, |path|)]
    requires next != goalIndex ==> Greedy(next, Before(path, startIndex, |path|), goalIndex, c, h)
    requires 0 <= k <= |path|
    ensures Step(Before(path + [next], startIndex, k), (path + [next])[k], goalIndex, c, h)
  {
    var p := path + [next];
    if 0 < k {
      assert p[k - 1] == path[k - 1];
    }
    assert Before(p, startIndex, k) == Before(path, startIndex, k);
    if k < |path| {
      assert p[k] == path[k];
    } else {
      assert p[k] == next;
      LastStep(Before(path, startIndex, k), next, goalIndex, c, h);
    }
  }

  lemma LastStep(current: int, next: int, goalIndex: int, c: Cells, h: (int, int) -> real)
    requires Symmetric(c) && 0 <= current < |c.costs| && next in c.costs[current]
    requires next != goalIndex ==> Greedy(next, current, goalIndex, c, h)
    ensures Step(current, next, goalIndex, c, h)
  {
  }

  /** `MAX_LOOPS` of `getAStarPath`. */
  const MAX_LOOPS: int := 1000

  /** The bookkeeping of the search: cost and parent entries exist for the
      same cells, every frontier entry has one, only the root lacks a parent,
      and every parent link follows an edge of the graph. */
  ghost predicate Tree(parentMap: map<int, Option<int>>, costAtNode: map<int, real>, frontier: multiset<int>,
                       root: int, c: Cells)
  {
    root in parentMap && parentMap.Keys == costAtNode.Keys &&
    (forall x :: x in frontier ==> x in costAtNode) &&
    ParentLinks(parentMap, root, c)
  }

  ghost predicate ParentLinks(parentMap: map<int, Option<int>>, root: int, c: Cells)
  {
    forall x :: x in parentMap ==>
      0 <= x < |c.costs| &&
      (parentMap[x].None? ==> x == root) &&
      (parentMap[x].Some? ==> 0 <= parentMap[x].value < |c.costs| && x in c.costs[parentMap[x].value])
  }

  lemma ParentLinksPut(parentMap: map<int, Option<int>>, root: int, c: Cells, x: int, y: int)
    requires ParentLinks(parentMap, root, c) && Symmetric(c) && 0 <= y < |c.costs| && x in c.costs[y]
    ensures ParentLinks(parentMap[x := Some(y)], root, c)
  {
    assert 0 <= x < |c.costs|;
    var m := parentMap[x := Some(y)];
    forall z | z in m
      ensures 0 <= z < |c.costs| && (m[z].None? ==> z == root) &&
        (m[z].Some? ==> 0 <= m[z].value < |c.costs| && z in c.costs[m[z].value])
    {
      if z != x {
        assert z in parentMap;
      }
    }
  }

  /** What `getAStarPath` returns, read as a walk from `startIndex` towards
      `goalIndex`: empty (the search timed out), or it starts at the start
      cell, holds at most MAX_LOOPS + 1 entries, each present entry is a
      neighbour of the one before it, a missing (null) entry is followed only
      by missing ones, and the goal cell can appear only as the last entry. */
  ghost predicate TracesBack(path: seq<Option<int>>, startIndex: int, goalIndex: int, c: Cells)
  {
    |path| <= MAX_LOOPS + 1 &&
    (path != [] ==> path[0] == Some(startIndex)) &&
    (forall k :: 0 <= k < |path| && path[k].Some? ==> 0 <= path[k].value < |c.costs|) &&
    (forall k :: 0 <= k < |path| - 1 && path[k].Some? && path[k + 1].Some? ==>
      0 <= path[k].value < |c.costs| && path[k + 1].value in c.costs[path[k].value]) &&
    (forall k :: 0 <= k < |path| - 1 && path[k].None? ==> path[k + 1].None?) &&
    (forall k :: 0 <= k < |path| && path[k] == Some(goalIndex) ==> k == |path| - 1)
  }

  /** How the reconstruction of `getAStarPath` ends: at the goal cell, or,
      when it gave up, after MAX_LOOPS entries none of which is the goal. */
  predicate Reaches(path: seq<Option<int>>, goalIndex: int)
  {
    (path != [] && path[|path| - 1] == Some(goalIndex)) || (|path| == MAX_LOOPS && Some(goalIndex) !in path)
  }

  /** A path that reaches the goal has no missing (null) entry: it is a walk
      along edges of the grid from the start cell to the goal cell. */
  lemma CompletePathIsWalk(path: seq<Option<int>>, startIndex: int, goalIndex: int, c: Cells)
    requires TracesBack(path, startIndex, goalIndex, c) && path != [] && path[|path| - 1] == Some(goalIndex)
    ensures path[0] == Some(startIndex)
    ensures forall k :: 0 <= k < |path| ==> path[k].Some? && 0 <= path[k].value < |c.costs|
    ensures forall k :: 0 <= k < |path| - 1 ==> path[k + 1].value in c.costs[path[k].value]
  {
    forall k | 0 <= k < |path|
      ensures path[k].Some?
    {
      if path[k].None? {
        NoneToTheEnd(path, startIndex, goalIndex, c, k);
      }
    }
  }

  /** In a traced path a missing entry is followed only by missing ones,
      up to the last entry. */
  lemma {:induction false} NoneToTheEnd(path: seq<Option<int>>, startIndex: int, goalIndex: int, c: Cells, k: int)
    requires TracesBack(path, startIndex, goalIndex, c) && 0 <= k < |path| && path[k].None?
    ensures path[|path| - 1].None?
    decreases |path| - k
  {
    if k < |path| - 1 {
      NoneToTheEnd(path, startIndex, goalIndex, c, k + 1);
    }
  }

  /** The reconstruction loop of `getAStarPath`: follows parent links from
      `target` until it reaches `root`, giving up after MAX_LOOPS cells.
      A cell without a parent entry reads as null, and so does every lookup
      after it. */
  method Reconstruct(parentMap: map<int, Option<int>>, root: int, target: int, ghost c: Cells)
    returns (path: seq<Option<int>>)
    requires Symmetric(c) && ParentLinks(parentMap, root, c) && 0 <= target < |c.costs|
    ensures path != []
    ensures TracesBack(path, target, root, c)
    ensures Reaches(path, root)
  {
    path := [];
    var parentNode: Option<int> := Some(target);
    var loopCount := 0;
    while parentNode != Some(root)
      invariant TracesBack(path, target, root, c) && Some(root) !in path
      invariant 0 <= loopCount <= MAX_LOOPS && |path| == loopCount
      invariant path == [] ==> parentNode == Some(target)
      invariant parentNode.Some? ==> 0 <= parentNode.value < |c.costs|
      invariant path != [] && path[|path| - 1].None? ==> parentNode.None?
      invariant path != [] && path[|path| - 1].Some? && parentNode.Some? ==>
        parentNode.value in c.costs[path[|path| - 1].value]
      decreases MAX_LOOPS - loopCount
    {
      if loopCount == MAX_LOOPS {
        return;
      }
      TracesBackExtend(path, parentNode, target, root, c);
      path := path + [parentNode];
      parentNode := match parentNode
        case None => None
        case Some(p) => if p in parentMap then parentMap[p] else None;
      loopCount := loopCount + 1;
    }
    TracesBackExtend(path, parentNode, target, root, c);
    path := path + [parentNode];
  }

  lemma TracesBackExtend(path: seq<Option<int>>, e: Option<int>, startIndex: int, goalIndex: int, c: Cells)
    requires TracesBack(path, startIndex, goalIndex, c) && Some(goalIndex) !in path && |path| <= MAX_LOOPS
    requires path == [] ==> e == Some(startIndex)
    requires e.Some? ==> 0 <= e.value < |c.costs|
    requires path != [] && path[|path| - 1].None? ==> e.None?
    requires path != [] && path[|path| - 1].Some? && e.Some? ==> e.value in c.costs[path[|path| - 1].value]
    ensures TracesBack(path + [e], startIndex, goalIndex, c)
  {
    var p := path + [e];
    forall k | 0 <= k < |p| - 1 && p[k].Some? && p[k + 1].Some?
      ensures 0 <= p[k].value < |c.costs| && p[k + 1].value in c.costs[p[k].value]
    {
      if k < |path| - 1 {
        assert p[k] == path[k] && p[k + 1] == path[k + 1];
      }
    }
    forall k | 0 <= k < |p| - 1 && p[k].None?
      ensures p[k + 1].None?
    {
      if k < |path| - 1 {
        assert p[k] == path[k] && p[k + 1] == path[k + 1];
      }
    }
  }

  lemma Regroup(v: real, n: int, t: int, extent: real)
    ensures v + n as real * extent - extent * t as real == v + (n - t) as real * extent
  {
  }

  /** One `while (v < 0) v += extent` loop of `toroidalWrap`. */
  method WrapUp(v: real, extent: real) returns (r: real, ghost n: int)
    requires 0.0 < extent
    ensures 0.0 <= r && r == v + n as real * extent
  {
    r := v;
    n := 0;
    ghost var bound := JavaNum.StepsToNonNegative(v, extent);
    while r < 0.0
      invariant r == v + n as real * extent && 0 <= n <= bound
      decreases bound - n
    {
      JavaNum.StepsBound(v, extent, n, bound);
      r := r + extent;
      n := n + 1;
    }
  }
}
