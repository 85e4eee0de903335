/**
 * The circle/segment intersection both pure-pursuit trackers use: the circle
 * of radius `r` is centred at the origin (the agent), the segment is given by
 * its two end vectors relative to the agent, and the two candidate points are
 * the classic closed form with the sign convention `signum(0) = 1`.
 */
module CircleLine {
  import opened Geometry

  /** `Math.signum` with zero mapped to 1 instead of 0. */
  function Signum(n: real): (r: real)
    ensures r == 1.0 <==> n >= 0.0
    ensures r == -1.0 <==> n < 0.0
    ensures r * n == AbsReal(n) && r * r == 1.0
  {
    if n == 0.0 then 1.0 else if n > 0.0 then 1.0 else -1.0
  }

  function AbsReal(v: real): (r: real)
    ensures r >= 0.0 && (r == v || r == -v)
  {
    if v < 0.0 then -v else v
  }

  function Min(a: real, b: real): real { if a <= b then a else b }

  function Max(a: real, b: real): real { if a >= b then a else b }

  /** The 2x2 determinant `start.x * end.y - end.x * start.y`. */
  function Determinant(start: Vector2D, end: Vector2D): real
  {
    start.x * end.y - end.x * start.y
  }

  /** Squared length of the segment. */
  function SegmentSquaredLength(start: Vector2D, end: Vector2D): (q: real)
    ensures q >= 0.0
  {
    SquaredMagnitude(Vector2D(end.x - start.x, end.y - start.y))
  }

  /** The two candidate points `(x1, y1)` and `(x2, y2)`. */
  datatype Candidates = Candidates(x1: real, y1: real, x2: real, y2: real)

  /**
   * The closed-form candidates, with `root` standing for the square root of the
   * discriminant and `denom` for the squared segment length as the caller
   * computes it.
   */
  function CandidatePoints(start: Vector2D, end: Vector2D, root: real, denom: real): Candidates
    requires denom != 0.0
  {
    ClosedForm(Determinant(start, end), end.x - start.x, end.y - start.y, root, denom)
  }

  /** The closed form over the determinant and the segment's direction `(dx, dy)`. */
  function ClosedForm(det: real, dx: real, dy: real, root: real, denom: real): Candidates
    requires denom != 0.0
  {
    Candidates(CandidateX(det, dx, dy, Signum(dy), root, denom),
               CandidateY(det, dx, AbsReal(dy), root, denom),
               (det * dy - Signum(dy) * dx * root) / denom,
               (-det * dx - AbsReal(dy) * root) / denom)
  }

  /** The x coordinate of the first candidate, with sign `g`, `|dy|` and root `s`. */
  function CandidateX(det: real, dx: real, dy: real, g: real, s: real, denom: real): real
    requires denom != 0.0
  {
    (det * dy + g * dx * s) / denom
  }

  /** The y coordinate of the first candidate. */
  function CandidateY(det: real, dx: real, a: real, s: real, denom: real): real
    requires denom != 0.0
  {
    (-det * dx + a * s) / denom
  }

  /** A candidate is kept when it lies strictly inside the open x-range or the open y-range of the segment. */
  predicate Within(x: real, y: real, start: Vector2D, end: Vector2D)
  {
    (Min(start.x, end.x) < x && x < Max(start.x, end.x))
    || (Min(start.y, end.y) < y && y < Max(start.y, end.y))
  }

  /** A segment that is not a single point has a positive squared length. */
  lemma SegmentLengthPositive(start: Vector2D, end: Vector2D)
    requires start != end
    ensures SegmentSquaredLength(start, end) > 0.0
  {
    MagnitudePositive(Vector2D(end.x - start.x, end.y - start.y));
  }

  /**
   * When `root` is the square root of the discriminant `r²·|d|² − D²` and the
   * denominator is `|d|²`, both candidates lie on the circle of radius `r`
   * and on the line through the two end points.
   */
  lemma CandidatesOnCircleAndLine(start: Vector2D, end: Vector2D, r: real, root: real)
    requires start != end
    requires IsRoot(root, r * r * SegmentSquaredLength(start, end) - Determinant(start, end) * Determinant(start, end))
    ensures SegmentSquaredLength(start, end) > 0.0
    ensures var c := CandidatePoints(start, end, root, SegmentSquaredLength(start, end));
      OnCircleAndLine(c.x1, c.y1, r, start, end) && OnCircleAndLine(c.x2, c.y2, r, start, end)
  {
    SegmentLengthPositive(start, end);
    var n := SegmentSquaredLength(start, end);
    var det, dx, dy := Determinant(start, end), end.x - start.x, end.y - start.y;
    assert n == dx * dx + dy * dy;
    ClosedFormOnCircle(det, dx, dy, root, n, r);
    var c := CandidatePoints(start, end, root, n);
    assert c == ClosedForm(det, dx, dy, root, n);
    assert OnCircleAndLineEquation(c.x1, c.y1, dx, dy, det, r) && OnCircleAndLineEquation(c.x2, c.y2, dx, dy, det, r);
    LineEquationIsOnLine(c.x1, c.y1, r, start, end);
    LineEquationIsOnLine(c.x2, c.y2, r, start, end);
  }

  /** The point `(x, y)` satisfies `x·dy − y·dx = D`, the equation of the line through the segment. */
  predicate OnLine(x: real, y: real, start: Vector2D, end: Vector2D)
  {
    x * (end.y - start.y) - y * (end.x - start.x) == Determinant(start, end)
  }

  /** `(x, y)` is at distance `r` from the origin. */
  predicate OnCircle(x: real, y: real, r: real)
  {
    x * x + y * y == r * r
  }

  /** `(x, y)` is at distance `r` from the origin and on the line through `start` and `end`. */
  predicate OnCircleAndLine(x: real, y: real, r: real, start: Vector2D, end: Vector2D)
  {
    OnCircle(x, y, r) && OnLine(x, y, start, end)
  }

  lemma LineEquationIsOnLine(x: real, y: real, r: real, start: Vector2D, end: Vector2D)
    requires OnCircleAndLineEquation(x, y, end.x - start.x, end.y - start.y, Determinant(start, end), r)
    ensures OnCircleAndLine(x, y, r, start, end)
  {
  }

  /** Both end points satisfy the line equation, so it is the line through the segment. */
  lemma EndsOnLine(start: Vector2D, end: Vector2D)
    ensures OnLine(start.x, start.y, start, end) && OnLine(end.x, end.y, start, end)
  {
  }

  /** `(x, y)` is on the circle of radius `r` round the origin and on the line `x·dy − y·dx = det`. */
  predicate OnCircleAndLineEquation(x: real, y: real, dx: real, dy: real, det: real, r: real)
  {
    OnCircle(x, y, r) && x * dy - y * dx == det
  }

  /** Both closed-form candidates lie on the circle and on the line `x·dy − y·dx = det`. */
  lemma ClosedFormOnCircle(det: real, dx: real, dy: real, root: real, n: real, r: real)
    requires n == dx * dx + dy * dy && n > 0.0
    requires IsRoot(root, r * r * n - det * det)
    ensures var c := ClosedForm(det, dx, dy, root, n);
      && OnCircleAndLineEquation(c.x1, c.y1, dx, dy, det, r)
      && OnCircleAndLineEquation(c.x2, c.y2, dx, dy, det, r)
  {
    var g := Signum(dy);
    var a := AbsReal(dy);
    assert g * dy == a && g * g == 1.0;
    assert root * root == r * r * n - det * det;
    CandidateOnCircle(det, dx, dy, g, a, root, n, r);
    NegatedRoot(det, dx, dy, g, a, root, n);
    CandidateOnCircle(det, dx, dy, g, a, -root, n, r);
  }

  /** The second candidate is the first one written with the negated root. */
  lemma NegatedRoot(det: real, dx: real, dy: real, g: real, a: real, root: real, n: real)
    requires n > 0.0
    ensures (det * dy - g * dx * root) / n == CandidateX(det, dx, dy, g, -root, n)
    ensures (-det * dx - a * root) / n == CandidateY(det, dx, a, -root, n)
    ensures (-root) * (-root) == root * root
  {
  }

  /** One candidate, written with a signed root: on the circle and on the line. */
  lemma CandidateOnCircle(det: real, dx: real, dy: real, g: real, a: real, s: real, n: real, r: real)
    requires g * dy == a && g * g == 1.0 && n == dx * dx + dy * dy && n > 0.0
    requires s * s == r * r * n - det * det
    ensures OnCircleAndLineEquation(CandidateX(det, dx, dy, g, s, n), CandidateY(det, dx, a, s, n), dx, dy, det, r)
  {
    var X := det * dy + g * dx * s;
    var Y := -det * dx + a * s;
    NumeratorsOnCircle(det, dx, dy, g, a, s, n, r, X, Y);
    NumeratorsOnLine(det, dx, dy, g, a, s, n, X, Y);
    Unscale(X, Y, n, dx, dy, det, r);
  }

  /** The candidate's numerators, before division by `n`, on the circle scaled by `n`. */
  lemma NumeratorsOnCircle(det: real, dx: real, dy: real, g: real, a: real, s: real, n: real, r: real, X: real, Y: real)
    requires g * dy == a && g * g == 1.0 && n == dx * dx + dy * dy
    requires s * s == r * r * n - det * det
    requires X == det * dy + g * dx * s && Y == -det * dx + a * s
    ensures X * X + Y * Y == r * r * n * n
  {
    SumOfSquares(det, dx, dy, g, a, s);
    assert det * det + s * s == r * r * n;
  }

  /** The candidate's numerators on the line scaled by `n`. */
  lemma NumeratorsOnLine(det: real, dx: real, dy: real, g: real, a: real, s: real, n: real, X: real, Y: real)
    requires g * dy == a && g * g == 1.0 && n == dx * dx + dy * dy
    requires X == det * dy + g * dx * s && Y == -det * dx + a * s
    ensures X * dy - Y * dx == det * n
  {
    assert X * dy == det * dy * dy + dx * s * (g * dy);
  }

  /** Dividing numerators on the scaled circle and line by `n` gives a point on the circle and the line. */
  lemma Unscale(X: real, Y: real, n: real, dx: real, dy: real, det: real, r: real)
    requires n != 0.0 && X * X + Y * Y == r * r * n * n && X * dy - Y * dx == det * n
    ensures OnCircleAndLineEquation(X / n, Y / n, dx, dy, det, r)
  {
    var x := X / n;
    var y := Y / n;
    assert x * n == X && y * n == Y;
    ScaledSquares(x, y, n, X, Y, r * r);
    assert (x * dy - y * dx) * n == X * dy - Y * dx;
    Cancel(x * dy - y * dx, det, n);
  }

  lemma SumOfSquares(det: real, dx: real, dy: real, g: real, a: real, s: real)
    requires g * dy == a && g * g == 1.0
    ensures (det * dy + g * dx * s) * (det * dy + g * dx * s) + (-det * dx + a * s) * (-det * dx + a * s)
         == (det * det + s * s) * (dx * dx + dy * dy)
  {
    var X := det * dy + g * dx * s;
    var Y := -det * dx + a * s;
    assert X * X == det * det * dy * dy + 2.0 * det * dx * s * (g * dy) + (g * g) * dx * dx * s * s;
    assert Y * Y == det * det * dx * dx - 2.0 * det * dx * s * a + a * a * s * s;
    assert a * a == (g * g) * (dy * dy);
  }

  lemma Cancel(a: real, b: real, m: real)
    requires m != 0.0 && a * m == b * m
    ensures a == b
  {
    assert (a - b) * m == 0.0;
  }

  /** From `(x·n)² + (y·n)² = q·n²` and `n ≠ 0`, `x² + y² = q`. */
  lemma ScaledSquares(x: real, y: real, n: real, X: real, Y: real, q: real)
    requires n != 0.0 && x * n == X && y * n == Y && X * X + Y * Y == q * n * n
    ensures x * x + y * y == q
  {
    var xn := x * n;
    var yn := y * n;
    assert X * X == (x * xn) * n;
    assert Y * Y == (y * yn) * n;
    assert (x * xn + y * yn) * n == q * n * n;
    Cancel(x * xn + y * yn, q * n, n);
    assert x * xn + y * yn == (x * x + y * y) * n;
    Cancel(x * x + y * y, q, n);
  }

  /** The agent-relative point `p` translated back to the arena: `(p.x + x, p.y + y)`. */
  function Absolute(p: Position, pos: Position): Position
  {
    Position(p.x + pos.x, p.y + pos.y)
  }

  /** `p`, seen from the agent at `pos`, is at distance `radius`. */
  predicate AtRadius(p: Position, pos: Position, radius: real)
  {
    (p.x - pos.x) * (p.x - pos.x) + (p.y - pos.y) * (p.y - pos.y) == radius * radius
  }

  lemma AbsoluteAtRadius(p: Position, pos: Position, radius: real)
    requires OnCircle(p.x, p.y, radius)
    ensures AtRadius(Absolute(p, pos), pos, radius)
  {
    assert Absolute(p, pos).x - pos.x == p.x;
    assert Absolute(p, pos).y - pos.y == p.y;
  }
}
