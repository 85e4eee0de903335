/**
 * The simulator's value types as the navigation code uses them: a point in
 * the arena and a displacement vector, both over reals. `Math.sqrt` is never
 * given a body here; code that needs it receives it as a parameter, and facts
 * that depend on it say where it must behave as a square root.
 */
module Geometry {
  import opened Wrappers

  datatype Position = Position(x: real, y: real)

  datatype Vector2D = Vector2D(x: real, y: real)

  /** `s` is the non-negative square root of `v`. */
  predicate IsRoot(s: real, v: real)
  {
    0.0 <= s && s * s == v
  }

  /** `sqrt` returns the non-negative square root of every non-negative argument. */
  ghost predicate ExactSqrt(sqrt: real -> real)
  {
    forall v :: 0.0 <= v ==> IsRoot(sqrt(v), v)
  }

  /** For non-negative `s` and `r`, `s <= r` exactly when `s² <= r²`. */
  lemma RootOrder(s: real, r: real)
    requires 0.0 <= s && 0.0 <= r
    ensures s <= r <==> s * s <= r * r
  {
    if s <= r {
      MulLe(s, s, r);
      MulLe(r, s, r);
    } else {
      MulLt(s, r, s);
      if r > 0.0 {
        MulLt(r, r, s);
      } else {
        SquarePositive(s);
        assert r * r == 0.0;
      }
    }
  }

  lemma MulLe(m: real, a: real, b: real)
    requires 0.0 <= m && a <= b
    ensures m * a <= m * b
  {
    assert m * b - m * a == m * (b - a);
  }

  lemma MulLt(m: real, a: real, b: real)
    requires 0.0 < m && a < b
    ensures m * a < m * b
  {
    assert m * b - m * a == m * (b - a);
  }

  function Square(x: real): real
  {
    x * x
  }

  function SquaredMagnitude(v: Vector2D): (q: real)
    ensures q >= 0.0
  {
    v.x * v.x + v.y * v.y
  }

  /** `Vector2D.getMagnitude`: the square root of the squared length. */
  function Magnitude(v: Vector2D, sqrt: real -> real): real
  {
    sqrt(SquaredMagnitude(v))
  }

  /** A vector other than the zero vector has a positive squared length. */
  lemma MagnitudePositive(v: Vector2D)
    requires v.x != 0.0 || v.y != 0.0
    ensures SquaredMagnitude(v) > 0.0
  {
    if v.x != 0.0 {
      SumOfSquaresPositive(v.x, v.y, SquaredMagnitude(v));
    } else {
      SumOfSquaresPositive(v.y, v.x, SquaredMagnitude(v));
    }
  }

  lemma SumOfSquaresPositive(a: real, b: real, n: real)
    requires a != 0.0 && n == a * a + b * b
    ensures n > 0.0
  {
    SquarePositive(a);
    SquareNonNegative(b);
  }

  predicate Positive(x: real) { x > 0.0 }

  predicate NonNegative(x: real) { x >= 0.0 }

  lemma SquarePositive(a: real)
    requires a != 0.0
    ensures Positive(a * a)
  {
  }

  lemma SquareNonNegative(a: real)
    ensures NonNegative(a * a)
  {
  }

  /** Plain (non-toroidal) squared Euclidean distance between two positions. */
  function SquaredDistance(a: Position, b: Position): (q: real)
    ensures q >= 0.0
  {
    (b.x - a.x) * (b.x - a.x) + (b.y - a.y) * (b.y - a.y)
  }

  /** Plain Euclidean distance, through the given square root. */
  function Distance(a: Position, b: Position, sqrt: real -> real): real
  {
    sqrt(SquaredDistance(a, b))
  }

  /**
   * The three services of the simulator's `Toroidal2DPhysics` that the
   * navigation code asks for: the shortest (wrap-around) displacement from
   * one position to another, the length of that displacement, and
   * `toroidalWrap`, which moves a position back into the arena (in place in
   * the simulator; here it gives the moved position).
   */
  datatype Space = Space(shortestVector: (Position, Position) -> Vector2D,
                         shortestDistance: (Position, Position) -> real,
                         toroidalWrap: Position -> Position)

  /** `space.toroidalWrap` on a position that may be null: the pursuits only
      wrap a position they have. */
  function WrapIfPresent(space: Space, p: Option<Position>): Option<Position>
  {
    if p.Some? then Some(space.toroidalWrap(p.value)) else None
  }

  /** A position moved by a displacement. */
  function Translate(p: Position, v: Vector2D): Position
  {
    Position(p.x + v.x, p.y + v.y)
  }
}
