/**
 * The quadratic `a t^2 + b t + c` that `Sphere.intersect` solves (sketch.js lines
 * 160-168), with its two candidate roots computed as the source does, by the
 * quadratic formula.
 */
module Quadratics {
  import opened RealMath

  datatype Quadratic = Quadratic(a: real, b: real, c: real) {

    function Discriminant(): (d: real) {
      (b * b) - (4.0 * a * c)
    }

    function Eval(t: real): (v: real) {
      a * t * t + b * t + c
    }

    /** The root taken with the negative square root, `t1` in the source. */
    function LowRoot(sqrt: real -> real): (t: real)
      requires a != 0.0
    {
      (-b - sqrt(Discriminant())) / (2.0 * a)
    }

    /** The root taken with the positive square root, `t2` in the source. */
    function HighRoot(sqrt: real -> real): (t: real)
      requires a != 0.0
    {
      (-b + sqrt(Discriminant())) / (2.0 * a)
    }
  }

  /**
   * For a genuine quadratic, `t` is a root exactly when the discriminant is not
   * negative and `t` is one of the two roots the formula gives.
   */
  lemma RootsAreFormula(q: Quadratic, sqrt: real -> real, t: real)
    requires IsSqrt(sqrt) && q.a != 0.0
    ensures q.Eval(t) == 0.0 <==> 0.0 <= q.Discriminant() && (t == q.LowRoot(sqrt) || t == q.HighRoot(sqrt))
  {
    var a, b, c, d := q.a, q.b, q.c, q.Discriminant();
    var u := 2.0 * a * t + b;
    assert q.Eval(t) == 0.0 <==> u * u == d by {
      CompleteSquare(a, b, c, t, u);
      ScaledZero(4.0 * a, q.Eval(t));
    }
    if 0.0 <= d {
      var s := sqrt(d);
      assert u * u == d <==> (u == s || u == -s) by {
        assert s * s == d;
        SquareRootsOfSquare(u, s);
      }
      assert u == -s <==> t == q.LowRoot(sqrt) by {
        FormulaSolves(a, -b - s, t);
      }
      assert u == s <==> t == q.HighRoot(sqrt) by {
        FormulaSolves(a, -b + s, t);
      }
    } else {
      assert u * u != d by {
        SquareNotNegative(u, u);
      }
    }
  }

  /** With a positive leading coefficient the root `t1` does not exceed `t2`. */
  lemma RootsOrdered(q: Quadratic, sqrt: real -> real)
    requires IsSqrt(sqrt) && 0.0 < q.a && 0.0 <= q.Discriminant()
    ensures q.LowRoot(sqrt) <= q.HighRoot(sqrt)
  {
    var s := sqrt(q.Discriminant());
    assert 0.0 <= s;
    QuotientMonotone(-q.b - s, -q.b + s, 2.0 * q.a);
  }

  /** Both roots of the formula solve the equation. */
  lemma FormulaRootsSolve(q: Quadratic, sqrt: real -> real)
    requires IsSqrt(sqrt) && q.a != 0.0 && 0.0 <= q.Discriminant()
    ensures q.Eval(q.LowRoot(sqrt)) == 0.0 && q.Eval(q.HighRoot(sqrt)) == 0.0
  {
    RootsAreFormula(q, sqrt, q.LowRoot(sqrt));
    RootsAreFormula(q, sqrt, q.HighRoot(sqrt));
  }

  /** A negative discriminant leaves no real root. */
  lemma NoRealRoot(q: Quadratic, sqrt: real -> real, t: real)
    requires IsSqrt(sqrt) && q.a != 0.0 && q.Discriminant() < 0.0
    ensures q.Eval(t) != 0.0
  {
    RootsAreFormula(q, sqrt, t);
  }

  lemma CompleteSquare(a: real, b: real, c: real, t: real, u: real)
    requires u == 2.0 * a * t + b
    ensures 4.0 * a * (a * t * t + b * t + c) == u * u - ((b * b) - (4.0 * a * c))
  {
  }

  lemma ScaledZero(k: real, e: real)
    requires k != 0.0
    ensures k * e == 0.0 <==> e == 0.0
  {
    ProductSigns(k, e);
  }

  /** The square roots of `s * s` are `s` and `-s`, and nothing else. */
  lemma SquareRootsOfSquare(u: real, s: real)
    ensures u * u == s * s <==> (u == s || u == -s)
  {
    assert u * u - s * s == (u - s) * (u + s);
    ProductSigns(u - s, u + s);
  }

  /** `t` is `n` over `2 a` exactly when `2 a t` is `n`. */
  lemma FormulaSolves(a: real, n: real, t: real)
    requires a != 0.0
    ensures t == n / (2.0 * a) <==> 2.0 * a * t == n
  {
  }

  lemma SquareNotNegative(u: real, v: real)
    requires u == v
    ensures 0.0 <= u * v
  {
  }

  lemma QuotientMonotone(p: real, q: real, k: real)
    requires 0.0 < k && p <= q
    ensures p / k <= q / k
  {
  }

  /** The product of two non-zero numbers is not zero; its sign is the product of their signs. */
  lemma ProductSigns(p: real, q: real)
    ensures (0.0 < p && 0.0 < q) ==> 0.0 < p * q
    ensures (p < 0.0 && q < 0.0) ==> 0.0 < p * q
    ensures (0.0 < p && q < 0.0) ==> p * q < 0.0
    ensures (p < 0.0 && 0.0 < q) ==> p * q < 0.0
  {
  }
}
