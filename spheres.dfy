/**
 * The `Sphere` class (sketch.js lines 149-179). Its fields are never changed after
 * construction, so a sphere is a value. `intersect` solves the ray-sphere quadratic;
 * its constant term subtracts 1, not the square of `radius`, so every sphere is
 * intersected as the unit sphere around its origin and `radius` plays no part.
 */
module Spheres {
  import opened Wrappers
  import opened RealMath
  import opened Vectors
  import opened Rays
  import opened Intersections
  import opened Materials
  import opened Quadratics

  datatype Sphere = Sphere(origin: Point, radius: real, material: Option<Material>) {

    /** The quadratic in `t` whose roots are where `ray` meets the sphere. */
    function Equation(ray: Ray): Quadratic {
      var sphereToRay := Sub(ray.origin, origin);
      Quadratic(Dot(ray.direction, ray.direction),
                2.0 * Dot(ray.direction, sphereToRay),
                Dot(sphereToRay, sphereToRay) - 1.0)
    }

    /**
     * The intersections of `ray` with the sphere: none when the discriminant is
     * negative, and otherwise the two roots, the smaller first, both tagged with
     * this sphere. Every root of the equation is one of them.
     */
    method Intersect(ray: Ray, sqrt: real -> real) returns (xs: Intersections<Sphere>)
      requires IsSqrt(sqrt) && 0.0 < Dot(ray.direction, ray.direction)
      ensures Equation(ray).Discriminant() < 0.0 <==> xs.Length() == 0
      ensures 0.0 <= Equation(ray).Discriminant() ==> xs.Length() == 2
      ensures forall i :: 0 <= i < xs.Length() ==>
                xs.intersections[i].obj == this && Equation(ray).Eval(xs.intersections[i].t) == 0.0
      ensures xs.Length() == 2 ==> xs.intersections[0].t <= xs.intersections[1].t
      ensures forall t :: Equation(ray).Eval(t) == 0.0 ==>
                xs.Length() == 2 && (t == xs.intersections[0].t || t == xs.intersections[1].t)
    {
      var list: seq<Intersection<Sphere>> := [];
      var sphereToRay := Sub(ray.origin, origin);
      var a := Dot(ray.direction, ray.direction);
      var b := 2.0 * Dot(ray.direction, sphereToRay);
      var c := Dot(sphereToRay, sphereToRay) - 1.0;
      var discriminant := (b * b) - (4.0 * a * c);
      ghost var q := Equation(ray);
      assert q == Quadratic(a, b, c) && discriminant == q.Discriminant();
      if discriminant >= 0.0 {
        var t1 := (-b - sqrt(discriminant)) / (2.0 * a);
        list := list + [Intersection(t1, this)];
        var t2 := (-b + sqrt(discriminant)) / (2.0 * a);
        list := list + [Intersection(t2, this)];
        assert t1 == q.LowRoot(sqrt) && t2 == q.HighRoot(sqrt);
        FormulaRootsSolve(q, sqrt);
        RootsOrdered(q, sqrt);
      }
      xs := Intersections(list);
      forall t | q.Eval(t) == 0.0
        ensures xs.Length() == 2 && (t == xs.intersections[0].t || t == xs.intersections[1].t)
      {
        RootsAreFormula(q, sqrt, t);
      }
    }

    /**
     * The outward unit normal at `p`: the offset from the origin, normalised on a
     * fresh vector. On the unit sphere it is the offset itself.
     */
    method NormalAt(p: Point, sqrt: real -> real) returns (n: Vec3)
      requires IsSqrt(sqrt) && 0.0 < Dot(Sub(p, origin), Sub(p, origin))
      ensures n == Normalized(Sub(p, origin), sqrt)
      ensures Dot(n, n) == 1.0 && 0.0 < Dot(n, Sub(p, origin))
      ensures Dot(Sub(p, origin), Sub(p, origin)) == 1.0 ==> n == Sub(p, origin)
    {
      var offset := Sub(p, origin);
      var sub := new Vector(offset.x, offset.y, offset.z);
      sub.Normalize(sqrt);
      n := sub.Value();
      NormalizedKeepsDirection(offset, sqrt);
      if Dot(offset, offset) == 1.0 {
        UnitUnchanged(offset, sqrt);
      }
    }
  }

  /**
   * The roots of the equation are exactly the parameters at which the ray is at
   * distance 1 from the sphere's origin.
   */
  lemma EquationMeansUnitDistance(s: Sphere, ray: Ray, t: real)
    ensures var offset := Sub(ray.Position(t), s.origin);
      s.Equation(ray).Eval(t) == Dot(offset, offset) - 1.0
  {
    var oc := Sub(ray.origin, s.origin);
    var d := ray.direction;
    assert Sub(ray.Position(t), s.origin) == Add(oc, Mul(d, t));
    ExpandOffset(oc, d, t);
  }

  lemma ExpandOffset(oc: Vec3, d: Vec3, t: real)
    ensures Dot(Add(oc, Mul(d, t)), Add(oc, Mul(d, t)))
         == Dot(d, d) * t * t + 2.0 * Dot(d, oc) * t + Dot(oc, oc)
  {
  }

  /** A ray from (0, 0, -5) along +z meets the unit sphere at the origin at t = 4 and t = 6. */
  lemma HeadOnIntersection(sqrt: real -> real, m: Option<Material>)
    requires sqrt(4.0) == 2.0
    ensures var q := Sphere(Zero, 1.0, m).Equation(Ray(Vec3(0.0, 0.0, -5.0), Vec3(0.0, 0.0, 1.0)));
      q == Quadratic(1.0, -10.0, 24.0) && q.LowRoot(sqrt) == 4.0 && q.HighRoot(sqrt) == 6.0
  {
    var o, d := Vec3(0.0, 0.0, -5.0), Vec3(0.0, 0.0, 1.0);
    assert Sub(o, Zero) == o;
    assert Dot(d, d) == 1.0 && Dot(d, o) == -5.0 && Dot(o, o) == 25.0;
    var q := Sphere(Zero, 1.0, m).Equation(Ray(o, d));
    assert q.Discriminant() == 4.0;
  }

  /** A ray from (0, 2, -5) along +z passes above the unit sphere at the origin: no real root. */
  lemma HeadOnMiss(m: Option<Material>)
    ensures Sphere(Zero, 1.0, m).Equation(Ray(Vec3(0.0, 2.0, -5.0), Vec3(0.0, 0.0, 1.0))).Discriminant() < 0.0
  {
    var o, d := Vec3(0.0, 2.0, -5.0), Vec3(0.0, 0.0, 1.0);
    assert Sub(o, Zero) == o;
    assert Dot(d, d) == 1.0 && Dot(d, o) == -5.0 && Dot(o, o) == 29.0;
  }
}
