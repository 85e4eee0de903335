/**
 * The eight neighbours of a cell on a `width` x `height` torus of cells,
 * numbered row by row (`index = row * width + column`).
 */
module BeeUtil {
  import JavaNum

  /** Row offset of direction `k`, in the order right, left, up, down,
      up-right, up-left, down-right, down-left. "Up" is the previous row. */
  function RowOffset(k: int): int
    requires 0 <= k < 8
  {
    [0, 0, -1, 1, -1, -1, 1, 1][k]
  }

  /** Column offset of direction `k`, in the same order. */
  function ColOffset(k: int): int
    requires 0 <= k < 8
  {
    [1, -1, 0, 0, 1, -1, 1, -1][k]
  }

  /** The direction that undoes direction `k`. */
  function Opposite(k: int): (o: int)
    requires 0 <= k < 8
    ensures 0 <= o < 8
    ensures RowOffset(o) == -RowOffset(k) && ColOffset(o) == -ColOffset(k)
  {
    [1, 0, 3, 2, 7, 6, 5, 4][k]
  }

  /** Reference definition: the cell at (row + dr, column + dc), both taken
      modulo the grid's extent. */
  function TorusNeighbour(index: int, height: int, width: int, k: int): int
    requires 0 < width && 0 < height && 0 <= k < 8
  {
    var row := index / width;
    var column := index % width;
    ((row + RowOffset(k)) % height) * width + (column + ColOffset(k)) % width
  }

  /** `BeeUtil.findAdjacentIndices`, branch for branch. */
  function FindAdjacentIndices(index: int, height: int, width: int): (indices: seq<int>)
    requires width != 0
    ensures |indices| == 8
  {
    var row := JavaNum.Div(index, width);
    var column := JavaNum.Rem(index, width);
    var right := if column != width - 1 then index + 1 else index - width + 1;
    var left := if column != 0 then index - 1 else index + width - 1;
    var up := if row > 0 then index - width else index + width * (height - 1);
    var down := if row < height - 1 then index + width else index - width * (height - 1);
    var upRight :=
      if column != width - 1 then
        (if row > 0 then index + 1 - width else index + 1 + width * (height - 1))
      else
        (if row > 0 then index - 2 * width + 1 else index - width + 1 + width * (height - 1));
    var upLeft :=
      if column != 0 then
        (if row > 0 then index - 1 - width else index - 1 + width * (height - 1))
      else
        (if row > 0 then index + width - 1 - width else index + width - 1 + width * (height - 1));
    var downRight :=
      if column != width - 1 then
        (if row < height - 1 then index + width + 1 else index - width * (height - 1) + 1)
      else
        (if row < height - 1 then index + width - width + 1 else index - width * (height - 1) - width + 1);
    var downLeft :=
      if column != 0 then
        (if row < height - 1 then index + width - 1 else index - width * (height - 1) - 1)
      else
        (if row < height - 1 then index + width + width - 1 else index - width * (height - 1) + width - 1);
    [right, left, up, down, upRight, upLeft, downRight, downLeft]
  }

  /** The set of distinct neighbours of a cell. */
  function Neighbours(index: int, height: int, width: int): set<int>
    requires width != 0
  {
    set k | 0 <= k < 8 :: FindAdjacentIndices(index, height, width)[k]
  }

  // ---------------------------------------------------------------------
  // Arithmetic of the row-by-row numbering

  lemma RowColumn(index: int, height: int, width: int)
    requires 0 < width && 0 < height && 0 <= index < width * height
    ensures index == (index / width) * width + index % width
    ensures 0 <= index / width < height && 0 <= index % width < width
  {
  }

  lemma CellDecomposes(row: int, column: int, width: int)
    requires 0 < width && 0 <= row && 0 <= column < width
    ensures (row * width + column) / width == row
    ensures (row * width + column) % width == column
  {
    var n := row * width + column;
    var q, r := n / width, n % width;
    assert (row - q) * width == r - column;
    if row - q >= 1 {
      JavaNum.IntMulMono(width, 1, row - q);
    } else if row - q <= -1 {
      JavaNum.IntMulMono(width, 1, q - row);
    }
  }

  lemma CellInRange(row: int, column: int, height: int, width: int)
    requires 0 < width && 0 <= row < height && 0 <= column < width
    ensures 0 <= row * width + column < width * height
  {
    JavaNum.IntMulMono(width, row, height - 1);
    assert width * (height - 1) == width * height - width;
  }

  lemma ShiftMod(a: int, d: int, m: int)
    requires 0 <= a < m && -1 <= d <= 1
    ensures (a + d) % m == if a + d < 0 then a + d + m else if a + d >= m then a + d - m else a + d
  {
  }

  // ---------------------------------------------------------------------
  // Properties of findAdjacentIndices

  /** Entry k is the torus neighbour in direction k. */
  lemma AdjacentIndicesAreTorusNeighbours(index: int, height: int, width: int)
    requires 0 < width && 0 < height && 0 <= index < width * height
    ensures forall k :: 0 <= k < 8 ==>
      FindAdjacentIndices(index, height, width)[k] == TorusNeighbour(index, height, width, k)
  {
    forall k | 0 <= k < 8
      ensures FindAdjacentIndices(index, height, width)[k] == TorusNeighbour(index, height, width, k)
    {
      AdjacentEntry(index, height, width, k);
    }
  }

  lemma AdjacentEntry(index: int, height: int, width: int, k: int)
    requires 0 < width && 0 < height && 0 <= index < width * height && 0 <= k < 8
    ensures FindAdjacentIndices(index, height, width)[k] == TorusNeighbour(index, height, width, k)
  {
    RowColumn(index, height, width);
    var row := index / width;
    var column := index % width;
    var full := width * height;
    assert index == row * width + column;
    assert width * (height - 1) == full - width;
    assert (row - 1) * width == row * width - width;
    assert (row + 1) * width == row * width + width;
    assert (height - 1) * width == full - width;
    assert (row - 1 + height) * width == row * width - width + full;
    assert (row + 1 - height) * width == row * width + width - full;
    ShiftMod(row, RowOffset(k), height);
    ShiftMod(column, ColOffset(k), width);
  }

  /** Every neighbour of an in-range cell is itself in range. */
  lemma TorusNeighbourInRange(index: int, height: int, width: int, k: int)
    requires 0 < width && 0 < height && 0 <= k < 8
    ensures 0 <= TorusNeighbour(index, height, width, k) < width * height
  {
    var row := index / width;
    var column := index % width;
    CellInRange((row + RowOffset(k)) % height, (column + ColOffset(k)) % width, height, width);
  }

  lemma AdjacentIndicesInRange(index: int, height: int, width: int)
    requires 0 < width && 0 < height && 0 <= index < width * height
    ensures forall k :: 0 <= k < 8 ==> 0 <= FindAdjacentIndices(index, height, width)[k] < width * height
  {
    AdjacentIndicesAreTorusNeighbours(index, height, width);
    forall k | 0 <= k < 8
      ensures 0 <= FindAdjacentIndices(index, height, width)[k] < width * height
    {
      TorusNeighbourInRange(index, height, width, k);
    }
  }

  /** Going one step in direction k and then one step back returns to the cell. */
  lemma TorusNeighbourSymmetric(index: int, height: int, width: int, k: int)
    requires 0 < width && 0 < height && 0 <= index < width * height && 0 <= k < 8
    ensures TorusNeighbour(TorusNeighbour(index, height, width, k), height, width, Opposite(k)) == index
  {
    RowColumn(index, height, width);
    var row := index / width;
    var column := index % width;
    var dr, dc := RowOffset(k), ColOffset(k);
    var row' := (row + dr) % height;
    var column' := (column + dc) % width;
    ShiftBack(row, dr, height);
    ShiftBack(column, dc, width);
    CellDecomposes(row', column', width);
    var n := row' * width + column';
    assert TorusNeighbour(index, height, width, k) == n;
    assert TorusNeighbour(n, height, width, Opposite(k)) == ((row' - dr) % height) * width + (column' - dc) % width;
  }

  /** A step of `d` and a step back, each modulo `m`, return to `a`. */
  lemma ShiftBack(a: int, d: int, m: int)
    requires 0 <= a < m && -1 <= d <= 1
    ensures 0 <= (a + d) % m < m && ((a + d) % m - d) % m == a
  {
    ShiftMod(a, d, m);
    ShiftMod((a + d) % m, -d, m);
  }

  /** The neighbour relation of findAdjacentIndices is symmetric. */
  lemma AdjacentIndicesSymmetric(index: int, height: int, width: int, k: int)
    requires 0 < width && 0 < height && 0 <= index < width * height && 0 <= k < 8
    ensures FindAdjacentIndices(FindAdjacentIndices(index, height, width)[k], height, width)[Opposite(k)] == index
  {
    AdjacentIndicesAreTorusNeighbours(index, height, width);
    var n := FindAdjacentIndices(index, height, width)[k];
    TorusNeighbourInRange(index, height, width, k);
    AdjacentIndicesAreTorusNeighbours(n, height, width);
    TorusNeighbourSymmetric(index, height, width, k);
  }

  /** As sets: `j` is a neighbour of `i` exactly when `i` is a neighbour of `j`. */
  lemma NeighboursSymmetric(i: int, j: int, height: int, width: int)
    requires 0 < width && 0 < height && 0 <= i < width * height && 0 <= j < width * height
    ensures j in Neighbours(i, height, width) <==> i in Neighbours(j, height, width)
  {
    if j in Neighbours(i, height, width) {
      var k :| 0 <= k < 8 && FindAdjacentIndices(i, height, width)[k] == j;
      AdjacentIndicesSymmetric(i, height, width, k);
    }
    if i in Neighbours(j, height, width) {
      var k :| 0 <= k < 8 && FindAdjacentIndices(j, height, width)[k] == i;
      AdjacentIndicesSymmetric(j, height, width, k);
    }
  }

  /** On a grid at least three cells wide and high the eight entries are
      pairwise distinct and none is the cell itself. */
  lemma AdjacentIndicesDistinct(index: int, height: int, width: int)
    requires 3 <= width && 3 <= height && 0 <= index < width * height
    ensures forall k, l :: 0 <= k < l < 8 ==>
      FindAdjacentIndices(index, height, width)[k] != FindAdjacentIndices(index, height, width)[l]
    ensures forall k :: 0 <= k < 8 ==> FindAdjacentIndices(index, height, width)[k] != index
  {
    AdjacentIndicesAreTorusNeighbours(index, height, width);
    RowColumn(index, height, width);
    var row := index / width;
    var column := index % width;
    forall k, l | 0 <= k < l < 8
      ensures TorusNeighbour(index, height, width, k) != TorusNeighbour(index, height, width, l)
    {
      OffsetsDiffer(row, column, height, width, k, l);
    }
    forall k | 0 <= k < 8
      ensures TorusNeighbour(index, height, width, k) != index
    {
      OffsetMoves(row, column, height, width, k);
    }
  }

  lemma OffsetMoves(row: int, column: int, height: int, width: int, k: int)
    requires 3 <= width && 3 <= height && 0 <= row < height && 0 <= column < width && 0 <= k < 8
    ensures ((row + RowOffset(k)) % height) * width + (column + ColOffset(k)) % width != row * width + column
  {
    ShiftMod(row, RowOffset(k), height);
    ShiftMod(column, ColOffset(k), width);
    var r := (row + RowOffset(k)) % height;
    var c := (column + ColOffset(k)) % width;
    CellDecomposes(r, c, width);
    CellDecomposes(row, column, width);
  }

  lemma OffsetsDiffer(row: int, column: int, height: int, width: int, k: int, l: int)
    requires 3 <= width && 3 <= height && 0 <= row < height && 0 <= column < width
    requires 0 <= k < l < 8
    ensures ((row + RowOffset(k)) % height) * width + (column + ColOffset(k)) % width
         != ((row + RowOffset(l)) % height) * width + (column + ColOffset(l)) % width
  {
    ShiftMod(row, RowOffset(k), height);
    ShiftMod(column, ColOffset(k), width);
    ShiftMod(row, RowOffset(l), height);
    ShiftMod(column, ColOffset(l), width);
    var rk := (row + RowOffset(k)) % height;
    var ck := (column + ColOffset(k)) % width;
    var rl := (row + RowOffset(l)) % height;
    var cl := (column + ColOffset(l)) % width;
    CellDecomposes(rk, ck, width);
    CellDecomposes(rl, cl, width);
  }
}
