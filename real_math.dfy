/**
 * The two library functions of the ray caster, `Math.sqrt` and `Math.pow`, are not
 * defined here: every operation that uses one takes it as a parameter. `IsSqrt` is
 * the one property the model relies on for the square root; the power function is
 * left unconstrained.
 *
 * The helper lemmas below are the facts of real arithmetic the geometric proofs
 * are built from, each stated over plain real numbers so that it is proved in a
 * small context of its own.
 */
module RealMath {

  /** `sqrt` is a square root on the non-negative reals. */
  ghost predicate IsSqrt(sqrt: real -> real) {
    forall d: real :: 0.0 <= d ==> 0.0 <= sqrt(d) && sqrt(d) * sqrt(d) == d
  }

  /** The square root of a positive number is positive. */
  lemma SqrtPositive(sqrt: real -> real, d: real)
    requires IsSqrt(sqrt) && 0.0 < d
    ensures 0.0 < sqrt(d)
  {
    assert 0.0 <= sqrt(d) && sqrt(d) * sqrt(d) == d;
    PositiveRoot(sqrt(d), d);
  }

  /** The square root of `r * r` is `r` itself for non-negative `r`. */
  lemma SqrtOfSquare(sqrt: real -> real, r: real)
    requires IsSqrt(sqrt) && 0.0 <= r
    ensures sqrt(r * r) == r
  {
    assert 0.0 <= sqrt(r * r) && sqrt(r * r) * sqrt(r * r) == r * r;
    SquaresEqual(sqrt(r * r), r);
  }

  /** The square root of a given perfect square `d == r * r`. */
  lemma SqrtOfPerfectSquare(sqrt: real -> real, d: real, r: real)
    requires IsSqrt(sqrt) && 0.0 <= r && d == r * r
    ensures sqrt(d) == r
  {
    SqrtOfSquare(sqrt, r);
  }

  lemma PositiveRoot(s: real, d: real)
    requires 0.0 <= s && s * s == d && 0.0 < d
    ensures 0.0 < s
  {
    assert s == 0.0 ==> s * s == 0.0;
  }

  lemma SquaresEqual(s: real, r: real)
    requires 0.0 <= s && 0.0 <= r && s * s == r * r
    ensures s == r
  {
    assert (s - r) * (s + r) == 0.0;
    assert s != r ==> s + r == 0.0;
  }

  lemma QuotientIsScaling(a: real, m: real)
    requires m != 0.0
    ensures a / m == (1.0 / m) * a
  {
  }

  lemma InverseProduct(m: real)
    requires m != 0.0
    ensures (1.0 / m) * m == 1.0
  {
  }

  lemma ScaleSquares(k: real, x: real, y: real, z: real)
    ensures (k * x) * (k * x) + (k * y) * (k * y) + (k * z) * (k * z) == (k * k) * (x * x + y * y + z * z)
  {
  }

  lemma UnitScale(k: real, m: real, s: real)
    requires k * m == 1.0 && m * m == s
    ensures (k * k) * s == 1.0
  {
    assert (k * k) * (m * m) == (k * m) * (k * m);
  }

  /** Dividing three coordinates by the root of their squared sum leaves a unit squared sum. */
  lemma UnitAfterDivision(a: real, b: real, c: real, m: real)
    requires m != 0.0 && m * m == a * a + b * b + c * c
    ensures (a / m) * (a / m) + (b / m) * (b / m) + (c / m) * (c / m) == 1.0
  {
    QuotientIsScaling(a, m);
    QuotientIsScaling(b, m);
    QuotientIsScaling(c, m);
    InverseProduct(m);
    ScaleSquares(1.0 / m, a, b, c);
    UnitScale(1.0 / m, m, a * a + b * b + c * c);
  }
}
