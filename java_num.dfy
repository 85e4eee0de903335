/**
 * Java's numeric operators, written out where they differ from Dafny's:
 * integer `/` and `%` truncate toward zero, a `(int)` cast of a double
 * truncates toward zero, and `%` on doubles keeps the sign of the dividend.
 */
module JavaNum {

  /** Java's `a / b` on int. */
  function Div(a: int, b: int): (q: int)
    requires b != 0
    ensures (a >= 0) == (b > 0) || a == 0 ==> q >= 0
    ensures 0 <= a && 0 < b ==> q == a / b
  {
    if (a >= 0) == (b > 0) || a == 0 then Abs(a) / Abs(b) else -(Abs(a) / Abs(b))
  }

  /** Java's `a / 2` on int, with the divisor fixed so the arithmetic stays
      linear: `a / 2` rounded toward zero. */
  function Half(a: int): (h: int)
    ensures a >= 0 ==> 0 <= 2 * h <= a < 2 * h + 2
    ensures a < 0 ==> 2 * h - 2 < a <= 2 * h <= 0
  {
    if a >= 0 then a / 2 else -((-a) / 2)
  }

  /** `Half` is Java's division by 2. */
  lemma HalfIsDiv(a: int)
    ensures Half(a) == Div(a, 2)
  {
    assert Abs(2) == 2;
  }

  /** Java's `a % b` on int: the remainder takes the sign of the dividend. */
  function Rem(a: int, b: int): (r: int)
    requires b != 0
    ensures a == Div(a, b) * b + r
    ensures 0 <= a && 0 < b ==> r == a % b
  {
    a - Div(a, b) * b
  }

  function Abs(a: int): (r: nat)
    ensures r == a || r == -a
  {
    if a < 0 then -a else a
  }

  /** A `(int)` cast of a double: truncation toward zero. */
  function Trunc(x: real): (n: int)
    ensures x >= 0.0 ==> n as real <= x < n as real + 1.0
    ensures x < 0.0 ==> n as real - 1.0 < x <= n as real
  {
    if x >= 0.0 then x.Floor else -((-x).Floor)
  }

  /** Java's `%` on doubles (IEEE fmod): `x - m * trunc(x / m)`. */
  function FMod(x: real, m: real): (r: real)
    requires m != 0.0
    ensures x >= 0.0 && m > 0.0 ==> 0.0 <= r < m
  {
    var t := Trunc(x / m) as real;
    FModBounds(x, m, t);
    x - m * t
  }

  lemma FModBounds(x: real, m: real, t: real)
    requires m != 0.0 && t == Trunc(x / m) as real
    ensures x >= 0.0 && m > 0.0 ==> m * t <= x < m * t + m
  {
    if x >= 0.0 && m > 0.0 {
      var q := x / m;
      if q < 0.0 {
        MulMonoStrict(m, q, 0.0);
      }
      ScaledBounds(x, m, t, q);
    }
  }

  lemma ScaledBounds(x: real, m: real, t: real, q: real)
    requires m > 0.0 && q == x / m && t <= q < t + 1.0
    ensures m * t <= x < m * t + m
  {
    assert m * q == x;
    MulMono(m, t, q);
    MulMonoStrict(m, q, t + 1.0);
    assert m * (t + 1.0) == m * t + m;
  }

  lemma MulMono(m: real, a: real, b: real)
    requires m >= 0.0 && a <= b
    ensures m * a <= m * b
  {
    assert m * b - m * a == m * (b - a);
  }

  lemma MulMonoStrict(m: real, a: real, b: real)
    requires m > 0.0 && a < b
    ensures m * a < m * b
  {
    assert m * b - m * a == m * (b - a);
  }

  lemma IntMulMono(m: int, a: int, b: int)
    requires m >= 0 && a <= b
    ensures m * a <= m * b
  {
    assert m * b - m * a == m * (b - a);
  }

  /** A number of whole steps of `extent` that lifts `v` to a non-negative value. */
  function StepsToNonNegative(v: real, extent: real): (n: int)
    requires 0.0 < extent
    ensures 0 <= n && 0.0 <= v + n as real * extent
  {
    if v >= 0.0 then 0
    else
      var q := -v / extent;
      var n := q.Floor + 1;
      assert extent * q == -v;
      MulMono(extent, q, n as real);
      n
  }

  /** While `v` plus `n` steps is still negative, `n` is below any lifting count. */
  lemma StepsBound(v: real, extent: real, n: int, bound: int)
    requires 0.0 < extent && v + n as real * extent < 0.0 && 0.0 <= v + bound as real * extent
    ensures n < bound
  {
    if n >= bound {
      MulMono(extent, bound as real, n as real);
    }
  }

  /** `b` to the power `k`. */
  function Pow(b: real, k: nat): real
  {
    if k == 0 then 1.0 else b * Pow(b, k - 1)
  }
}
