/**
 The standard normal CDF by the Abramowitz-Stegun rational approximation
 (formula 7.1.26 of their Handbook): evaluate on |x| / sqrt(2), then reflect
 by the sign of x. The square root of 2 is a positive real given by the
 caller, and the exponential is an arbitrary function real -> real.
 */
module NormalCdf {
  import opened Ar1

  const A1: real := 0.254829592
  const A2: real := -0.284496736
  const A3: real := 1.421413741
  const A4: real := -1.453152027
  const A5: real := 1.061405429
  const P: real := 0.3275911

  /** The saved sign of x: -1 for negative x, +1 otherwise (0 included). */
  function Sign(x: real): (s: int)
    ensures s == 1 || s == -1
    ensures s == -1 <==> x < 0.0
  {
    if x < 0.0 then -1 else 1
  }

  function Abs(x: real): real
  {
    if x < 0.0 then -x else x
  }

  /** The argument the approximation is evaluated on, |x| / sqrt(2); it
      depends on x only through |x|. */
  function Scaled(x: real, sqrt2: PosReal): (u: real)
    ensures u >= 0.0
    ensures u * sqrt2 == Abs(x)
  {
    Abs(x) / sqrt2
  }

  function T(u: real): (t: real)
    requires u >= 0.0
    ensures 0.0 < t <= 1.0
  {
    var den := 1.0 + P * u;
    assert den >= 1.0;
    1.0 / den
  }

  /** The polynomial a1 t + a2 t^2 + a3 t^3 + a4 t^4 + a5 t^5 in Horner form. */
  function Poly(t: real): real
  {
    ((((A5 * t + A4) * t + A3) * t + A2) * t + A1) * t
  }

  /** On [0, 1] the polynomial is non-negative: after the linear term, the
      rest is t^2 times a quadratic bounded below by 0.9. */
  lemma PolyNonNegative(t: real)
    requires 0.0 <= t <= 1.0
    ensures 0.0 <= Poly(t)
  {
    var k := t + A4 / (2.0 * A5);
    var quad := (A5 * t + A4) * t + A3;
    assert quad == A5 * (k * k) + (A3 - A4 * A4 / (4.0 * A5));
    assert quad >= 0.9;
    var r := (quad * t + A2) * t + A1;
    assert r == t * t * quad + A2 * t + A1;
    assert t * t * quad >= 0.9 * (t * t);
    assert 0.9 * (t * t) + A2 * t + A1 == 0.9 * ((t + A2 / 1.8) * (t + A2 / 1.8)) + (A1 - A2 * A2 / 3.6);
    assert Poly(t) == r * t;
  }

  /** (Poly(1) - Poly(t)) / (1 - t), a polynomial whose constant term is
      a1 + ... + a5. */
  function Quotient(t: real): real
  {
    (((A5 * t + (A4 + A5)) * t + (A3 + A4 + A5)) * t + (A2 + A3 + A4 + A5)) * t + (A1 + A2 + A3 + A4 + A5)
  }

  lemma PolyDifference(t: real)
    ensures Poly(1.0) - Poly(t) == (1.0 - t) * Quotient(t)
  {
  }

  lemma QuotientPositive(t: real)
    requires 0.0 <= t <= 1.0
    ensures Quotient(t) > 0.0
  {
    var s := A5 * t + (A4 + A5);
    if s < 0.0 {
      assert s * t >= s;
    }
    assert s * t + (A3 + A4 + A5) >= 0.6;
  }

  /** On [0, 1] the polynomial stays below its value at 1, which is
      a1 + ... + a5 = 0.999999999. */
  lemma PolyAtMostOne(t: real)
    requires 0.0 <= t <= 1.0
    ensures Poly(t) <= 0.999999999 < 1.0
  {
    PolyDifference(t);
    QuotientPositive(t);
    assert (1.0 - t) * Quotient(t) >= 0.0;
  }

  /** (Poly(t) - Poly(s)) / (t - s), the slope of the chord from s to t. */
  function Slope(s: real, t: real): real
  {
    var s2, t2 := s * s, t * t;
    A1 + A2 * (s + t) + A3 * (s2 + s * t + t2) + A4 * (s2 * s + s2 * t + s * t2 + t2 * t)
      + A5 * (s2 * s2 + s2 * s * t + s2 * t2 + s * t2 * t + t2 * t2)
  }

  lemma PolyChord(s: real, t: real)
    ensures Poly(t) - Poly(s) == (t - s) * Slope(s, t)
  {
  }

  /** The slope written in the sum e = s + t and the product p = s t. */
  function SymmetricSlope(e: real, p: real): real
  {
    A1 + A2 * e + A3 * (e * e - p) + A4 * (e * e * e - 2.0 * e * p) + A5 * (e * e * e * e - 3.0 * e * e * p + p * p)
  }

  lemma SlopeBySums(s: real, t: real)
    ensures Slope(s, t) == SymmetricSlope(s + t, s * t)
  {
  }

  /** The symmetric slope at p = e^2 / 4, where s = t, less the term A5 p^2. */
  function Diagonal(e: real): real
  {
    A1 + A2 * e + 0.75 * A3 * (e * e) + 0.5 * A4 * (e * e * e) + 0.25 * A5 * (e * e * e * e)
  }

  lemma DiagonalPositive(e: real)
    ensures Diagonal(e) > 0.0
  {
    var e2 := e * e;
    var quad := 0.75 * A3 + 0.5 * A4 * e + 0.25 * A5 * e2;
    var c := e + A4 / A5;
    assert quad == 0.25 * A5 * (c * c) + (0.75 * A3 - 0.25 * A4 * A4 / A5);
    assert Diagonal(e) == A1 + A2 * e + e2 * quad;
    assert e2 * quad >= 0.5 * e2;
    var c2 := e + A2;
    assert A1 + A2 * e + 0.5 * e2 == 0.5 * (c2 * c2) + (A1 - 0.5 * A2 * A2);
  }

  /** The coefficient of -p in the symmetric slope. */
  function Coefficient(e: real): real
  {
    A3 + 2.0 * A4 * e + 3.0 * A5 * (e * e)
  }

  /** The coefficient with its square completed around c = e + a4 / (3 a5). */
  lemma CoefficientBySquare(e: real, c: real)
    requires c == e + A4 / (3.0 * A5)
    ensures Coefficient(e) == 3.0 * A5 * (c * c) + (A3 - A4 * A4 / (3.0 * A5))
  {
  }

  /** The symmetric slope is the diagonal value, plus the coefficient times
      the distance of p below e^2 / 4, plus A5 p^2. */
  lemma SymmetricSlopeSplit(e: real, p: real)
    ensures SymmetricSlope(e, p) == Diagonal(e) + (e * e / 4.0 - p) * Coefficient(e) + A5 * (p * p)
  {
  }

  /** Lowering p to e^2 / 4 and dropping A5 p^2 only lowers the slope. */
  lemma SymmetricSlopeAtLeastDiagonal(e: real, p: real)
    requires 0.0 <= p && 4.0 * p <= e * e
    ensures SymmetricSlope(e, p) >= Diagonal(e)
  {
    var c := e + A4 / (3.0 * A5);
    CoefficientBySquare(e, c);
    SymmetricSlopeSplit(e, p);
    SplitNonNegative(e * e / 4.0 - p, Coefficient(e), p, c);
  }

  /** w k + a5 p^2 >= 0 when w >= 0 and k is a positive multiple of a square
      plus a positive constant. */
  lemma SplitNonNegative(w: real, k: real, p: real, c: real)
    requires 0.0 <= w && k == 3.0 * A5 * (c * c) + (A3 - A4 * A4 / (3.0 * A5))
    ensures w * k + A5 * (p * p) >= 0.0
  {
    SquareNonNegative(c);
    SquareNonNegative(p);
    ProductMonotone(0.0, w, 0.0, k);
  }

  lemma SquareNonNegative(x: real)
    ensures 0.0 <= x * x
  {
    if x < 0.0 {
      ProductMonotone(0.0, -x, 0.0, -x);
    } else {
      ProductMonotone(0.0, x, 0.0, x);
    }
  }

  /** Every chord of the polynomial between non-negative points rises. */
  lemma SlopePositive(s: real, t: real)
    requires 0.0 <= s && 0.0 <= t
    ensures Slope(s, t) > 0.0
  {
    SlopeBySums(s, t);
    assert 0.0 <= s * t;
    assert (s + t) * (s + t) - 4.0 * (s * t) == (s - t) * (s - t);
    if s < t {
      assert (s - t) * (s - t) == (t - s) * (t - s);
    }
    SymmetricSlopeAtLeastDiagonal(s + t, s * t);
    DiagonalPositive(s + t);
  }

  /** The polynomial is non-decreasing on the non-negative reals. */
  lemma PolyMonotone(s: real, t: real)
    requires 0.0 <= s <= t
    ensures Poly(s) <= Poly(t)
  {
    PolyChord(s, t);
    SlopePositive(s, t);
    assert (t - s) * Slope(s, t) >= 0.0;
  }

  lemma ProductInUnitInterval(a: real, b: real)
    requires 0.0 <= a <= 1.0
    ensures 0.0 <= b <= 1.0 ==> 0.0 <= a * b <= 1.0
  {
    if 0.0 <= b <= 1.0 {
      assert a * b <= 1.0 * b;
    }
  }

  /** The approximation of erf(u) for u >= 0. It is a probability whenever
      exp(-u^2) is, and at 0 it is 1 - 0.999999999 exp(0). */
  function Y(u: real, exp: real -> real): (y: real)
    requires u >= 0.0
    ensures 0.0 <= exp(-u * u) <= 1.0 ==> 0.0 <= y <= 1.0
    ensures u == 0.0 ==> y == 1.0 - 0.999999999 * exp(0.0)
  {
    var t := T(u);
    PolyNonNegative(t);
    PolyAtMostOne(t);
    ProductInUnitInterval(Poly(t), exp(-u * u));
    1.0 - Poly(t) * exp(-u * u)
  }

  /** Phi(x), with the sign of x restored around the approximation of
      erf(|x| / sqrt(2)). It is a probability whenever exp maps the
      non-positive reals into [0, 1], as the exponential does. */
  function Phi(x: real, sqrt2: PosReal, exp: real -> real): (r: real)
    ensures (forall v :: v <= 0.0 ==> 0.0 <= exp(v) <= 1.0) ==> 0.0 <= r <= 1.0
  {
    var u := Scaled(x, sqrt2);
    assert -u * u <= 0.0;
    0.5 * (1.0 + (Sign(x) as real) * Y(u, exp))
  }

  /** t = 1 / (1 + p u) falls as u grows. */
  lemma TDecreasing(u: real, v: real)
    requires 0.0 <= u <= v
    ensures T(v) <= T(u)
  {
    var a, b := 1.0 + P * u, 1.0 + P * v;
    assert 1.0 <= a <= b;
    assert 1.0 / a - 1.0 / b == (b - a) / (a * b);
  }

  /** What the model needs of exp, and what the exponential satisfies on the
      non-positive reals: its values lie in [0, 1] and it is non-decreasing. */
  ghost predicate ExpLike(exp: real -> real)
  {
    && (forall v :: v <= 0.0 ==> 0.0 <= exp(v) <= 1.0)
    && (forall v, w :: v <= w <= 0.0 ==> exp(v) <= exp(w))
  }

  lemma ProductMonotone(a: real, b: real, c: real, d: real)
    requires 0.0 <= a <= b && 0.0 <= c <= d
    ensures a * c <= b * d
  {
  }

  /** exp(-u^2) falls as u >= 0 grows. */
  lemma GaussianDecreasing(u: real, v: real, exp: real -> real)
    requires 0.0 <= u <= v && ExpLike(exp)
    ensures 0.0 <= exp(-v * v) <= exp(-u * u)
  {
  }

  /** Poly(t(u)) falls as u >= 0 grows, since t(u) falls and Poly rises. */
  lemma PolyOfTDecreasing(u: real, v: real)
    requires 0.0 <= u <= v
    ensures 0.0 <= Poly(T(v)) <= Poly(T(u))
  {
    TDecreasing(u, v);
    PolyMonotone(T(v), T(u));
    PolyNonNegative(T(v));
  }

  /** The weighted product falls when its weight falls as well. */
  lemma WeightedDecreasing(u: real, v: real, c: real, d: real)
    requires 0.0 <= u <= v && 0.0 <= c <= d
    ensures Poly(T(v)) * c <= Poly(T(u)) * d
  {
    PolyOfTDecreasing(u, v);
    ProductMonotone(Poly(T(v)), Poly(T(u)), c, d);
  }

  /** The approximation of erf is non-decreasing wherever exp(-u^2) falls as
      u grows: it is 1 less a product of two falling non-negative factors. */
  lemma YMonotone(u: real, v: real, exp: real -> real)
    requires 0.0 <= u <= v && 0.0 <= exp(-v * v) <= exp(-u * u)
    ensures Y(u, exp) <= Y(v, exp)
  {
    WeightedDecreasing(u, v, exp(-v * v), exp(-u * u));
  }

  /** Scaling |x| by 1 / sqrt2 keeps the order of |x|. */
  lemma ScaledMonotone(x: real, y: real, sqrt2: PosReal)
    requires Abs(x) <= Abs(y)
    ensures Scaled(x, sqrt2) <= Scaled(y, sqrt2)
  {
  }

  /** On either side of 0, Phi follows Y: up for x >= 0, and mirrored for x < 0. */
  lemma PhiMonotoneOnSide(x: real, y: real, sqrt2: PosReal, exp: real -> real)
    requires x <= y && (0.0 <= x || y < 0.0)
    requires 0.0 <= x ==> Y(Scaled(x, sqrt2), exp) <= Y(Scaled(y, sqrt2), exp)
    requires y < 0.0 ==> Y(Scaled(y, sqrt2), exp) <= Y(Scaled(x, sqrt2), exp)
    ensures Phi(x, sqrt2, exp) <= Phi(y, sqrt2, exp)
  {
  }

  /** y stays above 1 - 0.999999999 > 0 whenever exp(-u^2) lies in [0, 1]:
      the polynomial never exceeds its value at t = 1. */
  lemma YPositive(u: real, exp: real -> real)
    requires u >= 0.0 && 0.0 <= exp(-u * u) <= 1.0
    ensures 0.0 < Y(u, exp) <= 1.0
  {
    var t := T(u);
    PolyNonNegative(t);
    PolyAtMostOne(t);
    ProductMonotone(Poly(t), Poly(t), exp(-u * u), 1.0);
    assert Y(u, exp) == 1.0 - Poly(t) * exp(-u * u);
  }

  /** Below 0 Phi is less than 0.5, and from 0 on at least 0.5, whenever
      exp(-u^2) lies in [0, 1] for u = |x| / sqrt2. */
  lemma PhiAroundHalf(x: real, u: real, sqrt2: PosReal, exp: real -> real)
    requires u == Scaled(x, sqrt2) && 0.0 <= exp(-u * u) <= 1.0
    ensures x < 0.0 ==> Phi(x, sqrt2, exp) < 0.5
    ensures 0.0 <= x ==> 0.5 <= Phi(x, sqrt2, exp)
  {
    YPositive(u, exp);
  }

  /** Phi is non-decreasing whenever exp is non-decreasing with values in
      [0, 1] on the non-positive reals: on each side of 0 through Y, and
      across 0 because Phi is below 0.5 left of it and at least 0.5 from it on. */
  lemma PhiMonotone(x: real, y: real, sqrt2: PosReal, exp: real -> real)
    requires x <= y && ExpLike(exp)
    ensures Phi(x, sqrt2, exp) <= Phi(y, sqrt2, exp)
  {
    var ux, uy := Scaled(x, sqrt2), Scaled(y, sqrt2);
    if 0.0 <= x {
      ScaledMonotone(x, y, sqrt2);
      GaussianDecreasing(ux, uy, exp);
      YMonotone(ux, uy, exp);
      PhiMonotoneOnSide(x, y, sqrt2, exp);
    } else if y < 0.0 {
      ScaledMonotone(y, x, sqrt2);
      GaussianDecreasing(uy, ux, exp);
      YMonotone(uy, ux, exp);
      PhiMonotoneOnSide(x, y, sqrt2, exp);
    } else {
      GaussianDecreasing(0.0, ux, exp);
      GaussianDecreasing(0.0, uy, exp);
      PhiAroundHalf(x, ux, sqrt2, exp);
      PhiAroundHalf(y, uy, sqrt2, exp);
    }
  }

  /** Phi as a function value, for the matrix fill that takes any CDF. */
  function StdNormalCdf(sqrt2: PosReal, exp: real -> real): real -> real
  {
    x => Phi(x, sqrt2, exp)
  }

  lemma ScaledIsEven(x: real, sqrt2: PosReal)
    ensures Scaled(-x, sqrt2) == Scaled(x, sqrt2)
  {
  }

  /** Reflection: away from 0 only the sign flips, so Phi(-x) = 1 - Phi(x). */
  lemma PhiReflection(x: real, sqrt2: PosReal, exp: real -> real)
    requires x != 0.0
    ensures Phi(-x, sqrt2, exp) == 1.0 - Phi(x, sqrt2, exp)
  {
    ScaledIsEven(x, sqrt2);
  }

  /** At 0 the sign is +1 and t = 1; the five coefficients add up to
      0.999999999, so even with exp(0) = 1 the value is 0.5000000005, not 0.5,
      and the reflection above does not hold at 0. */
  lemma PhiAtZero(sqrt2: PosReal, exp: real -> real)
    ensures Phi(0.0, sqrt2, exp) == 1.0 - 0.4999999995 * exp(0.0)
    ensures exp(0.0) == 1.0 ==> Phi(0.0, sqrt2, exp) == 0.5000000005
    ensures exp(0.0) == 1.0 ==> Phi(-0.0, sqrt2, exp) != 1.0 - Phi(0.0, sqrt2, exp)
  {
    assert Scaled(0.0, sqrt2) == 0.0;
  }
}
