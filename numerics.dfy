/**
 * The transcendental functions the source takes from NumPy (`np.sqrt`, `np.arctan2`,
 * `np.cos`, `np.sin`, `x**(1/3)`, `np.pi`). Dafny's reals have none of them, so the
 * model receives them as a value of type `Math` and every property that depends on
 * them names the law it relies on.
 */
module Numerics {
  import opened Base

  datatype Math = Math(
    sqrt: real -> real,
    cbrt: real -> real,
    atan2: (real, real) -> real,
    cos: real -> real,
    sin: real -> real,
    pi: real)

  /** `sqrt` is the non-negative square root on the non-negative reals. */
  ghost predicate SqrtLaw(m: Math) {
    forall v :: 0.0 <= v ==> 0.0 <= m.sqrt(v) && m.sqrt(v) * m.sqrt(v) == v
  }

  /** `cbrt` is the non-negative cube root on the non-negative reals. */
  ghost predicate CbrtLaw(m: Math) {
    forall v :: 0.0 <= v ==> 0.0 <= m.cbrt(v) && m.cbrt(v) * m.cbrt(v) * m.cbrt(v) == v
  }

  /** `cos` and `sin` give a point of the unit circle, and are even and odd. */
  ghost predicate TrigLaw(m: Math) {
    && (forall t :: m.cos(t) * m.cos(t) + m.sin(t) * m.sin(t) == 1.0)
    && (forall t :: m.cos(-t) == m.cos(t) && m.sin(-t) == -m.sin(t))
  }

  /** `atan2` returns an angle in (-pi, pi], and 0 on the positive real axis. */
  ghost predicate Atan2Law(m: Math) {
    && 0.0 < m.pi
    && (forall iy, ix :: -m.pi < m.atan2(iy, ix) <= m.pi)
    && (forall ix :: 0.0 < ix ==> m.atan2(0.0, ix) == 0.0)
  }

  /** `np.sqrt(x**2 + y**2)`, also `np.abs` of the complex number `x + 1j * y`. */
  function Modulus(m: Math, x: real, y: real): real
  {
    m.sqrt(x * x + y * y)
  }

  /** `np.arctan2(y, x)`, the phase of `x + 1j * y`. */
  function Argument(m: Math, x: real, y: real): real
  {
    m.atan2(y, x)
  }

  /** Modulus and argument are polar coordinates: `cos` and `sin` turn them back into the point. */
  ghost predicate PolarLaw(m: Math) {
    forall x, y ::
      && Modulus(m, x, y) * m.cos(Argument(m, x, y)) == x
      && Modulus(m, x, y) * m.sin(Argument(m, x, y)) == y
  }

  /** Equal factors give equal products (spelled out for the solver). */
  lemma MulCongruence(a: real, b: real, c: real)
    requires a == b
    ensures a * c == b * c
  {
  }

  lemma MulMonotone(c: real, p: real, q: real)
    requires 0.0 <= c && p <= q
    ensures c * p <= c * q
  {
  }

  lemma MulStrictlyMonotone(p: real, q: real, c: real)
    requires 0.0 < c && p < q
    ensures p * c < q * c
  {
  }

  lemma MulMonotoneRight(p: real, q: real, c: real)
    requires 0.0 <= c && p <= q
    ensures p * c <= q * c
  {
  }

  lemma SquarePositive(a: real)
    requires a != 0.0
    ensures 0.0 < a * a
  {
    if a < 0.0 {
      MulStrictlyMonotone(a, 0.0, -a);
    } else {
      MulStrictlyMonotone(0.0, a, a);
    }
  }

  lemma SquareNonneg(a: real)
    ensures 0.0 <= a * a
  {
    if a != 0.0 { SquarePositive(a); }
  }

  /** A sum of two squares is non-negative, and positive unless both bases are zero. */
  lemma SumOfSquares(a: real, b: real)
    ensures 0.0 <= a * a + b * b
    ensures a != 0.0 || b != 0.0 ==> 0.0 < a * a + b * b
  {
    SquareNonneg(a);
    SquareNonneg(b);
    if a != 0.0 {
      SquarePositive(a);
    } else if b != 0.0 {
      SquarePositive(b);
    }
  }

  /** Squaring is strictly increasing on the non-negative reals. */
  lemma SquareStrictlyMonotone(a: real, b: real)
    requires 0.0 <= a < b
    ensures a * a < b * b
  {
    MulStrictlyMonotone(0.0, b - a, b + a);
    assert b * b - a * a == (b - a) * (b + a);
  }

  /** Cubing is strictly increasing on the non-negative reals. */
  lemma CubeStrictlyMonotone(a: real, b: real)
    requires 0.0 <= a < b
    ensures a * a * a < b * b * b
  {
    SquareStrictlyMonotone(a, b);
    MulStrictlyMonotone(0.0, b - a, b * b + a * b + a * a);
    assert b * b * b - a * a * a == (b - a) * (b * b + a * b + a * a);
  }

  /** The square root of a square is the non-negative base. */
  lemma SqrtOfSquare(m: Math, a: real)
    requires SqrtLaw(m) && 0.0 <= a
    ensures m.sqrt(a * a) == a
  {
    var s := m.sqrt(a * a);
    assert 0.0 <= s && s * s == a * a;
    if s > a {
      SquareStrictlyMonotone(a, s);
    } else if s < a {
      SquareStrictlyMonotone(s, a);
    }
  }

  /** The cube root of a cube is the non-negative base. */
  lemma CbrtOfCube(m: Math, a: real)
    requires CbrtLaw(m) && 0.0 <= a
    ensures m.cbrt(a * a * a) == a
  {
    var c := m.cbrt(a * a * a);
    assert 0.0 <= a * a by { MulMonotone(a, 0.0, a); }
    assert 0.0 <= a * a * a by { MulMonotone(a * a, 0.0, a); }
    assert 0.0 <= c && c * c * c == a * a * a;
    if c > a {
      CubeStrictlyMonotone(a, c);
    } else if c < a {
      CubeStrictlyMonotone(c, a);
    }
  }

  /**
   * Comparing a square root with a bound is comparing the square with the bound squared:
   * the source tests `sqrt(d2) < r` and `sqrt(d2) <= r`; the model tests squared distances.
   */
  lemma SqrtComparisons(m: Math, d2: real, r: real)
    requires SqrtLaw(m) && 0.0 <= d2
    ensures (m.sqrt(d2) < r) <==> (0.0 < r && d2 < r * r)
    ensures (m.sqrt(d2) <= r) <==> (0.0 <= r && d2 <= r * r)
  {
    var s := m.sqrt(d2);
    assert 0.0 <= s && s * s == d2;
    if 0.0 <= r {
      if s < r { SquareStrictlyMonotone(s, r); }
      if r < s { SquareStrictlyMonotone(r, s); }
    }
  }

  /** The root of `a**2 + b**2` is at least `|a|`. */
  lemma RootBelow(m: Math, a: real, b: real)
    requires SqrtLaw(m)
    ensures Abs(a) <= m.sqrt(a * a + b * b)
  {
    var c := Abs(a);
    SquareNonneg(b);
    SumOfSquares(a, b);
    assert c * c == a * a;
    SqrtComparisons(m, a * a + b * b, c);
  }

  lemma RootOfSumOfSquares(m: Math, a: real, b: real)
    requires SqrtLaw(m)
    ensures 0.0 <= m.sqrt(a * a + b * b)
    ensures m.sqrt(a * a + b * b) * m.sqrt(a * a + b * b) == a * a + b * b
    ensures m.sqrt(a * a + b * b) == 0.0 <==> a == 0.0 && b == 0.0
  {
    SumOfSquares(a, b);
    if a == 0.0 && b == 0.0 {
      assert a * a + b * b == 0.0 * 0.0;
      SqrtOfSquare(m, 0.0);
    } else if a != 0.0 {
      RootBelow(m, a, b);
    } else {
      RootBelow(m, b, a);
      assert b * b + a * a == a * a + b * b;
    }
  }

  /** The point at distance `r` in direction `t` has modulus `r`. */
  lemma ModulusOfPolar(m: Math, r: real, t: real)
    requires SqrtLaw(m) && TrigLaw(m) && 0.0 <= r
    ensures Modulus(m, r * m.cos(t), r * m.sin(t)) == r
  {
    assert m.cos(t) * m.cos(t) + m.sin(t) * m.sin(t) == 1.0;
    ScaledSquares(r, m.cos(t), m.sin(t));
    ModulusOfNorm(m, r * m.cos(t), r * m.sin(t), r);
  }

  lemma ModulusCongruence(m: Math, x: real, y: real, x2: real, y2: real)
    requires x == x2 && y == y2
    ensures Modulus(m, x, y) == Modulus(m, x2, y2)
  {
  }

  /** A point whose squared norm is `r * r`, `r >= 0`, has modulus `r`. */
  lemma ModulusOfNorm(m: Math, x: real, y: real, r: real)
    requires SqrtLaw(m) && 0.0 <= r && x * x + y * y == r * r
    ensures Modulus(m, x, y) == r
  {
    SqrtComparisons(m, x * x + y * y, r);
  }

  lemma ScaledSquares(r: real, c: real, s: real)
    requires c * c + s * s == 1.0
    ensures (r * c) * (r * c) + (r * s) * (r * s) == r * r
  {
    assert (r * c) * (r * c) + (r * s) * (r * s) == r * r * (c * c + s * s);
  }
}
