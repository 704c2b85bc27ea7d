/**
 * The floating-point library the source calls (`f64::sin`, `f64::cos`, `f64::atan2`, `f64::sqrt`),
 * as uninterpreted real functions handed in by the caller. The few facts the model relies on are
 * stated as predicates over them and required where they are used; nothing else about them is known.
 */
module Numerics {

  /** The transcendental and root functions of `f64`. `atan2(y, x)` takes the ordinate first. */
  datatype Math = Math(
    sin: real -> real,
    cos: real -> real,
    atan2: (real, real) -> real,
    sqrt: real -> real)

  /** `std::f64::consts::PI`, as the decimal literal that denotes it. */
  const PI: real := 3.141592653589793

  /** Multiplication by a scale factor, named so that a quantifier can be triggered on it. */
  function Times(k: real, a: real): real
  {
    k * a
  }

  /** `sqrt` returns the non-negative square root of a non-negative argument. */
  ghost predicate SqrtLaws(m: Math)
  {
    forall r :: 0.0 <= r ==> 0.0 <= m.sqrt(r) && m.sqrt(r) * m.sqrt(r) == r
  }

  /** sin^2 + cos^2 == 1 at every angle. */
  ghost predicate PythagoreanIdentity(m: Math)
  {
    forall a :: m.sin(a) * m.sin(a) + m.cos(a) * m.cos(a) == 1.0
  }

  /** `atan2(y, x)` depends only on the direction of (x, y): scaling both by k > 0 changes nothing. */
  ghost predicate Atan2ScaleInvariant(m: Math)
  {
    forall k, y, x :: 0.0 < k ==> m.atan2(Times(k, y), Times(k, x)) == m.atan2(y, x)
  }

  /** The product of two positive reals is positive. */
  lemma MulPositive(a: real, b: real)
    requires 0.0 < a && 0.0 < b
    ensures 0.0 < a * b
  {
  }

  /** Multiplying by a non-negative real keeps the order. */
  lemma MulMonotone(a: real, b: real, c: real)
    requires a <= b && 0.0 <= c
    ensures a * c <= b * c
  {
  }

  /** Multiplying by a positive real keeps the strict order. */
  lemma MulStrict(a: real, b: real, c: real)
    requires a < b && 0.0 < c
    ensures a * c < b * c
  {
    MulPositive(b - a, c);
  }

  /** Two non-negative reals with the same square are equal. */
  lemma SquareRootUnique(a: real, b: real)
    requires 0.0 <= a && 0.0 <= b && a * a == b * b
    ensures a == b
  {
    assert (a - b) * (a + b) == 0.0;
    assert a - b == 0.0 || a + b == 0.0;
  }

  /** The square root of a value in [0, 1] lies in [0, 1]. */
  lemma SqrtOfUnitInterval(m: Math, r: real)
    requires SqrtLaws(m) && 0.0 <= r <= 1.0
    ensures 0.0 <= m.sqrt(r) <= 1.0
  {
    var s := m.sqrt(r);
    assert 0.0 <= s && s * s == r;
    assert s <= 1.0 || s * s > s;
  }

  /** sqrt(k*k*s) == k*sqrt(s) for k > 0. */
  lemma SqrtOfScaledSquare(m: Math, k: real, s: real)
    requires SqrtLaws(m) && 0.0 < k && 0.0 <= s
    ensures m.sqrt(k * k * s) == k * m.sqrt(s)
  {
    var a := m.sqrt(k * k * s);
    var b := k * m.sqrt(s);
    assert 0.0 <= k * k * s;
    assert 0.0 <= a && a * a == k * k * s;
    assert 0.0 <= b;
    assert b * b == k * k * (m.sqrt(s) * m.sqrt(s));
    SquareRootUnique(a, b);
  }
}
