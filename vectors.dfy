/**
 * The `Point` and `Vector` classes (sketch.js lines 25-82). Both are triples of
 * coordinates, so they share the value type `Vec3`; `Point.sub` and `Vector.sub`
 * are the same function `Sub`. The one operation that changes a vector in place,
 * `normalize`, is the method `Normalize` of the class `Vector`; its result is
 * specified by the function `Normalized`.
 */
module Vectors {
  import opened RealMath

  datatype Vec3 = Vec3(x: real, y: real, z: real)

  /** A position in space; positions and displacements share one representation. */
  type Point = Vec3

  const Zero := Vec3(0.0, 0.0, 0.0)

  function Dot(a: Vec3, b: Vec3): (d: real) {
    (a.x * b.x) + (a.y * b.y) + (a.z * b.z)
  }

  function Sub(a: Vec3, b: Vec3): (r: Vec3) {
    Vec3(a.x - b.x, a.y - b.y, a.z - b.z)
  }

  function Add(a: Vec3, b: Vec3): (r: Vec3) {
    Vec3(a.x + b.x, a.y + b.y, a.z + b.z)
  }

  function Mul(v: Vec3, scalar: real): (r: Vec3) {
    Vec3(scalar * v.x, scalar * v.y, scalar * v.z)
  }

  /** The square root of the sum of the squared coordinates, that is, of `Dot(v, v)`. */
  function Magnitude(v: Vec3, sqrt: real -> real): (m: real) {
    sqrt(Dot(v, v))
  }

  /** Mirror `v` about the plane whose unit normal is `normal`. */
  function Reflect(v: Vec3, normal: Vec3): (r: Vec3) {
    Sub(v, Mul(normal, 2.0 * Dot(v, normal)))
  }

  /** The opposite vector: it is `v` scaled by -1, and adding it to `v` gives zero. */
  function Negation(v: Vec3): (r: Vec3)
    ensures r == Mul(v, -1.0)
    ensures Add(v, r) == Zero && Dot(r, r) == Dot(v, v)
  {
    Mul(v, -1.0)
  }

  /** The unit vector with the direction of `v`: what `normalize` leaves in its receiver. */
  function Normalized(v: Vec3, sqrt: real -> real): (r: Vec3)
    requires IsSqrt(sqrt) && 0.0 < Dot(v, v)
  {
    MagnitudePositive(v, sqrt);
    var magnitude := Magnitude(v, sqrt);
    Vec3(v.x / magnitude, v.y / magnitude, v.z / magnitude)
  }

  /**
   * The squared length is positive exactly for the non-zero vectors, so the
   * precondition of `Normalized` excludes precisely the zero vector.
   */
  lemma SquaredLengthPositive(v: Vec3)
    ensures 0.0 < Dot(v, v) <==> v != Zero
  {
    if v.x != 0.0 {
      calc {
        Dot(v, v);
      >= { assert 0.0 <= v.y * v.y; assert 0.0 <= v.z * v.z; }
        v.x * v.x;
      > { assert 0.0 < v.x * v.x; }
        0.0;
      }
    } else if v.y != 0.0 {
      calc {
        Dot(v, v);
      >= { assert 0.0 <= v.x * v.x; assert 0.0 <= v.z * v.z; }
        v.y * v.y;
      > { assert 0.0 < v.y * v.y; }
        0.0;
      }
    } else if v.z != 0.0 {
      calc {
        Dot(v, v);
      >= { assert 0.0 <= v.x * v.x; assert 0.0 <= v.y * v.y; }
        v.z * v.z;
      > { assert 0.0 < v.z * v.z; }
        0.0;
      }
    }
  }

  /** A non-zero vector has a positive magnitude, whose square is its squared length. */
  lemma MagnitudePositive(v: Vec3, sqrt: real -> real)
    requires IsSqrt(sqrt) && 0.0 < Dot(v, v)
    ensures 0.0 < Magnitude(v, sqrt)
    ensures Magnitude(v, sqrt) * Magnitude(v, sqrt) == Dot(v, v)
  {
    SqrtPositive(sqrt, Dot(v, v));
    assert 0.0 <= sqrt(Dot(v, v)) && sqrt(Dot(v, v)) * sqrt(Dot(v, v)) == Dot(v, v);
  }

  /** The dot product is linear in its first argument. */
  lemma DotLinear(a: Vec3, b: Vec3, k: real, c: Vec3)
    ensures Dot(Mul(a, k), c) == k * Dot(a, c)
    ensures Dot(Sub(a, b), c) == Dot(a, c) - Dot(b, c)
    ensures Dot(a, c) == Dot(c, a)
  {
  }

  /** The squared length of `a - k * b`, expanded. */
  lemma DotSubMulSelf(a: Vec3, b: Vec3, k: real)
    ensures Dot(Sub(a, Mul(b, k)), Sub(a, Mul(b, k)))
         == Dot(a, a) - 2.0 * k * Dot(a, b) + (k * k) * Dot(b, b)
  {
  }

  /** After normalisation the squared length is 1, and so is the magnitude. */
  lemma NormalizedIsUnit(v: Vec3, sqrt: real -> real)
    requires IsSqrt(sqrt) && 0.0 < Dot(v, v)
    ensures var u := Normalized(v, sqrt); Dot(u, u) == 1.0 && Magnitude(u, sqrt) == 1.0
  {
    MagnitudePositive(v, sqrt);
    UnitAfterDivision(v.x, v.y, v.z, Magnitude(v, sqrt));
    var u := Normalized(v, sqrt);
    SqrtOfPerfectSquare(sqrt, Dot(u, u), 1.0);
  }

  /**
   * Normalisation keeps the direction: the result is `v` times the inverse of its
   * magnitude, and its component along `v` is that magnitude.
   */
  lemma NormalizedKeepsDirection(v: Vec3, sqrt: real -> real)
    requires IsSqrt(sqrt) && 0.0 < Dot(v, v)
    ensures 0.0 < Magnitude(v, sqrt) && Normalized(v, sqrt) == Mul(v, 1.0 / Magnitude(v, sqrt))
    ensures Dot(Normalized(v, sqrt), v) == Magnitude(v, sqrt)
  {
    MagnitudePositive(v, sqrt);
    var m := Magnitude(v, sqrt);
    QuotientIsScaling(v.x, m);
    QuotientIsScaling(v.y, m);
    QuotientIsScaling(v.z, m);
    assert Normalized(v, sqrt) == Mul(v, 1.0 / m);
    DotLinear(v, v, 1.0 / m, v);
    InverseOfSquare(m, Dot(v, v));
  }

  /** A vector that is already of unit length is left as it is: normalising twice is normalising once. */
  lemma NormalizedIdempotent(v: Vec3, sqrt: real -> real)
    requires IsSqrt(sqrt) && 0.0 < Dot(v, v)
    ensures Dot(v, v) == 1.0 ==> Normalized(v, sqrt) == v
    ensures Normalized(v, sqrt) != Zero
    ensures Normalized(Normalized(v, sqrt), sqrt) == Normalized(v, sqrt)
  {
    NormalizedIsUnit(v, sqrt);
    var u := Normalized(v, sqrt);
    assert u != Zero by {
      assert Dot(u, u) == 1.0 && Dot(Zero, Zero) == 0.0;
    }
    UnitUnchanged(u, sqrt);
    if Dot(v, v) == 1.0 {
      UnitUnchanged(v, sqrt);
    }
  }

  /** Normalising a unit vector gives the same vector. */
  lemma UnitUnchanged(u: Vec3, sqrt: real -> real)
    requires IsSqrt(sqrt) && Dot(u, u) == 1.0
    ensures Normalized(u, sqrt) == u
  {
    SqrtOfPerfectSquare(sqrt, Dot(u, u), 1.0);
    assert Magnitude(u, sqrt) == 1.0;
  }

  /** Reflecting about a unit normal flips the normal component and keeps the length. */
  lemma ReflectFlipsNormal(v: Vec3, normal: Vec3)
    requires Dot(normal, normal) == 1.0
    ensures Dot(Reflect(v, normal), normal) == -Dot(v, normal)
    ensures Dot(Reflect(v, normal), Reflect(v, normal)) == Dot(v, v)
  {
    var d := Dot(v, normal);
    DotLinear(v, Mul(normal, 2.0 * d), 2.0 * d, normal);
    DotLinear(normal, normal, 2.0 * d, normal);
    DotSubMulSelf(v, normal, 2.0 * d);
    ReflectAlgebra(Dot(v, v), d, Dot(normal, normal));
  }

  /** Reflecting twice about the same unit normal gives back the original vector. */
  lemma ReflectInvolutive(v: Vec3, normal: Vec3)
    requires Dot(normal, normal) == 1.0
    ensures Reflect(Reflect(v, normal), normal) == v
  {
    ReflectFlipsNormal(v, normal);
    var d := Dot(v, normal);
    var r := Reflect(v, normal);
    assert Dot(r, normal) == -d;
    CancelScaled(v.x, normal.x, d);
    CancelScaled(v.y, normal.y, d);
    CancelScaled(v.z, normal.z, d);
  }

  lemma InverseOfSquare(m: real, s: real)
    requires m != 0.0 && m * m == s
    ensures (1.0 / m) * s == m
  {
    InverseProduct(m);
    assert (1.0 / m) * (m * m) == ((1.0 / m) * m) * m;
  }

  lemma ReflectAlgebra(vv: real, d: real, nn: real)
    requires nn == 1.0
    ensures d - (2.0 * d) * nn == -d
    ensures vv - 2.0 * (2.0 * d) * d + ((2.0 * d) * (2.0 * d)) * nn == vv
  {
  }

  lemma CancelScaled(a: real, n: real, d: real)
    ensures (a - (2.0 * d) * n) - (2.0 * -d) * n == a
  {
  }

  /**
   * A vector object whose coordinates `normalize` overwrites (sketch.js lines 38-43, 76-81).
   */
  class Vector {
    var x: real
    var y: real
    var z: real

    constructor (x: real, y: real, z: real)
      ensures Value() == Vec3(x, y, z)
    {
      this.x := x;
      this.y := y;
      this.z := z;
    }

    /** The coordinates the object currently holds. */
    function Value(): Vec3
      reads this
    {
      Vec3(x, y, z)
    }

    /** Divide each coordinate by the magnitude, in place. */
    method Normalize(sqrt: real -> real)
      requires IsSqrt(sqrt) && 0.0 < Dot(Value(), Value())
      modifies this
      ensures Value() == Normalized(old(Value()), sqrt)
      ensures Dot(Value(), Value()) == 1.0
    {
      MagnitudePositive(Value(), sqrt);
      NormalizedIsUnit(Value(), sqrt);
      var magnitude := Magnitude(Value(), sqrt);
      x := x / magnitude;
      y := y / magnitude;
      z := z / magnitude;
    }
  }

  /** Scaling by `1 / m` and then by `m` gives back the vector. */
  lemma ScaleBack(v: Vec3, m: real)
    requires m != 0.0
    ensures Mul(Mul(v, 1.0 / m), m) == v
  {
    assert m * (1.0 / m) == 1.0;
  }
}
