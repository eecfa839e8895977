/** The `Ray` class (sketch.js lines 84-93): a half-line from an origin along a direction. */
module Rays {
  import opened Vectors

  datatype Ray = Ray(origin: Point, direction: Vec3) {

    /** The point reached after travelling `t` direction-lengths from the origin. */
    function Position(t: real): (p: Point)
      ensures Sub(p, origin) == Mul(direction, t)
      ensures Dot(Sub(p, origin), direction) == t * Dot(direction, direction)
    {
      DotLinear(direction, direction, t, direction);
      Add(origin, Mul(direction, t))
    }
  }

  /** At parameter zero the ray is at its origin. */
  lemma PositionAtZero(ray: Ray)
    ensures ray.Position(0.0) == ray.origin
  {
  }

  /** Moving `s` further from the point at `t` reaches the point at `t + s`. */
  lemma PositionAdditive(ray: Ray, t: real, s: real)
    ensures ray.Position(t + s) == Add(ray.Position(t), Mul(ray.direction, s))
  {
  }

  /**
   * Positions along a ray are distinct when its direction is not zero: the parameter
   * can be read back from the point.
   */
  lemma PositionInjective(ray: Ray, t: real, s: real)
    requires 0.0 < Dot(ray.direction, ray.direction)
    ensures ray.Position(t) == ray.Position(s) <==> t == s
  {
    var d := ray.direction;
    if ray.Position(t) == ray.Position(s) {
      assert Mul(d, t) == Mul(d, s);
      DotLinear(d, d, t, d);
      DotLinear(d, d, s, d);
      assert t * Dot(d, d) == s * Dot(d, d);
      CancelFactor(t, s, Dot(d, d));
    }
  }

  lemma CancelFactor(t: real, s: real, k: real)
    requires 0.0 < k && t * k == s * k
    ensures t == s
  {
    assert (t - s) * k == 0.0;
  }
}
