/**
 * One frame of `draw` (sketch.js lines 222-264): a ray is cast from a fixed eye
 * point through every pixel of a 480 by 480 canvas towards a wall behind a single
 * magenta unit sphere; pixels whose ray meets the sphere are set to the Phong
 * colour of the nearest visible point, the others keep the white background.
 *
 * `PixelColor` is the colour of one pixel as a function, `RenderPixel` computes it
 * as the source does (normalising the ray direction in place, calling `intersect`,
 * `hit`, `normal_at` and `lighting`), and `Draw` fills the whole canvas, one row
 * (`DrawRow`) and one pixel (`PaintPixel`) at a time. The canvas stands for the
 * p5.js pixel buffer that `background` clears and `set` writes.
 */
module Render {
  import opened Wrappers
  import opened RealMath
  import opened Colors
  import opened Vectors
  import opened Rays
  import opened Intersections
  import opened Materials
  import opened Quadratics
  import opened Spheres
  import opened Lights

  const CanvasSize: nat := 480
  const RayOrigin: Point := Vec3(0.0, 0.0, -5.0)
  const WallZ: real := 10.0
  const WallSize: real := 10.0
  const WallHalf: real := WallSize / 2.0
  const PixelSize: real := WallSize / (CanvasSize as real)

  /** The magenta surface (see `SceneMaterialIsTintedDefault`). */
  const SceneMaterial: Material := Material(Color(1.0, 0.2, 1.0), 0.1, 0.9, 0.9, 200.0)

  /** The scene's material is the default one with only its colour replaced. */
  lemma SceneMaterialIsTintedDefault()
    ensures SceneMaterial == GetDefault().(color := Color(1.0, 0.2, 1.0))
  {
  }

  const SceneSphere: Sphere := Sphere(Zero, 1.0, Some(SceneMaterial))
  const SceneLight: Light := Light(Vec3(-10.0, 10.0, -10.0), White)

  /** The colour `background("#fff")` leaves in a pixel, on the 0-255 scale of `color`. */
  const Background: Color := Color(255.0, 255.0, 255.0)

  /**
   * The point on the wall that pixel (`x`, `y`) looks at: the canvas covers the
   * wall's square, `x` growing to the right and `y` growing downwards.
   */
  function WallPosition(x: int, y: int): (p: Point)
    ensures p.z == WallZ
    ensures 0 <= x < CanvasSize ==> -WallHalf <= p.x < WallHalf
    ensures 0 <= y < CanvasSize ==> -WallHalf < p.y <= WallHalf
  {
    Vec3(-WallHalf + PixelSize * (x as real), WallHalf - PixelSize * (y as real), WallZ)
  }

  /** Neighbouring pixels are one pixel size apart on the wall. */
  lemma WallStep(x: int, y: int)
    ensures WallPosition(x + 1, y).x == WallPosition(x, y).x + PixelSize
    ensures WallPosition(x, y + 1).y == WallPosition(x, y).y - PixelSize
    ensures PixelSize * (CanvasSize as real) == WallSize
  {
  }

  /** Distinct pixels look at distinct points of the wall. */
  lemma WallPositionInjective(x: int, y: int, x': int, y': int)
    ensures WallPosition(x, y) == WallPosition(x', y') <==> x == x' && y == y'
  {
  }

  /** The top-left pixel looks at the wall's top-left corner, pixel (240, 240) at its centre. */
  lemma WallLandmarks()
    ensures WallPosition(0, 0) == Vec3(-5.0, 5.0, 10.0)
    ensures WallPosition(240, 240) == Vec3(0.0, 0.0, 10.0)
  {
  }

  /**
   * The ray from the eye through pixel (`x`, `y`): it starts at the eye, its
   * direction is the offset to the wall point scaled to unit length, and it
   * reaches the wall point at `t` equal to that offset's length.
   */
  function PixelRay(x: int, y: int, sqrt: real -> real): (ray: Ray)
    requires IsSqrt(sqrt)
    ensures ray.origin == RayOrigin
    ensures var offset := Sub(WallPosition(x, y), RayOrigin);
      ray.direction == Vectors.Mul(offset, 1.0 / Magnitude(offset, sqrt))
    ensures ray.Position(Magnitude(Sub(WallPosition(x, y), RayOrigin), sqrt)) == WallPosition(x, y)
    ensures Dot(ray.direction, ray.direction) == 1.0
    ensures 0.0 < Dot(ray.direction, Sub(WallPosition(x, y), ray.origin))
  {
    var offset := Sub(WallPosition(x, y), RayOrigin);
    SquaredLengthPositive(offset);
    NormalizedIsUnit(offset, sqrt);
    NormalizedKeepsDirection(offset, sqrt);
    MagnitudePositive(offset, sqrt);
    ScaleBack(offset, Magnitude(offset, sqrt));
    Ray(RayOrigin, Normalized(offset, sqrt))
  }

  /** `t` is a root of `q` in front of the ray's origin that no other such root precedes. */
  ghost predicate IsNearestRoot(q: Quadratic, t: real) {
    && q.Eval(t) == 0.0
    && 0.0 <= t
    && forall s :: q.Eval(s) == 0.0 && 0.0 <= s ==> t <= s
  }

  /** There is at most one nearest root. */
  lemma NearestRootUnique(q: Quadratic, t: real, s: real)
    requires IsNearestRoot(q, t) && IsNearestRoot(q, s)
    ensures t == s
  {
  }

  /** Every point of the sphere's surface is away from the light. */
  lemma LightOffSphere(p: Point)
    requires Dot(Sub(p, SceneSphere.origin), Sub(p, SceneSphere.origin)) == 1.0
    ensures 0.0 < Dot(Sub(SceneLight.position, p), Sub(SceneLight.position, p))
  {
    var l := SceneLight.position;
    assert Sub(p, SceneSphere.origin) == p;
    assert Dot(l, l) == 300.0;
    assert p != l;
    SquaredLengthPositive(Sub(l, p));
  }

  /**
   * A point where a ray meets the sphere is at unit distance from its centre and
   * away from the light, so both `normal_at` and `lighting` may normalise there.
   */
  lemma VisiblePoint(ray: Ray, t: real)
    requires SceneSphere.Equation(ray).Eval(t) == 0.0
    ensures var p := ray.Position(t);
      && Dot(Sub(p, SceneSphere.origin), Sub(p, SceneSphere.origin)) == 1.0
      && 0.0 < Dot(Sub(SceneLight.position, p), Sub(SceneLight.position, p))
  {
    EquationMeansUnitDistance(SceneSphere, ray, t);
    LightOffSphere(ray.Position(t));
  }

  /** Where `ray` first meets the sphere in front of its origin, if it does. */
  ghost function NearestHit(ray: Ray): (r: Option<real>)
    ensures r.Some? ==> IsNearestRoot(SceneSphere.Equation(ray), r.value)
  {
    var q := SceneSphere.Equation(ray);
    if exists t :: IsNearestRoot(q, t) then
      var t :| IsNearestRoot(q, t);
      Some(t)
    else
      None
  }

  /** `NearestHit` finds the nearest root, and nothing exactly when there is none. */
  lemma NearestHitIs(ray: Ray, r: Option<real>)
    requires r.None? <==> !exists t :: IsNearestRoot(SceneSphere.Equation(ray), t)
    requires r.Some? ==> IsNearestRoot(SceneSphere.Equation(ray), r.value)
    ensures NearestHit(ray) == r
  {
    if r.Some? {
      NearestRootUnique(SceneSphere.Equation(ray), NearestHit(ray).value, r.value);
    }
  }

  /**
   * A ray with a non-zero direction meets the sphere in front of its origin exactly
   * when the equation has a non-negative root: the nearest one then exists, since
   * there are at most two roots.
   */
  lemma NearestHitExists(ray: Ray, sqrt: real -> real)
    requires IsSqrt(sqrt) && 0.0 < Dot(ray.direction, ray.direction)
    ensures NearestHit(ray).None? <==> forall t :: SceneSphere.Equation(ray).Eval(t) == 0.0 ==> t < 0.0
  {
    var q := SceneSphere.Equation(ray);
    if t :| q.Eval(t) == 0.0 && 0.0 <= t {
      RootsAreFormula(q, sqrt, t);
      RootsOrdered(q, sqrt);
      FormulaRootsSolve(q, sqrt);
      var nearest := if 0.0 <= q.LowRoot(sqrt) then q.LowRoot(sqrt) else q.HighRoot(sqrt);
      forall s | q.Eval(s) == 0.0 && 0.0 <= s
        ensures nearest <= s
      {
        RootsAreFormula(q, sqrt, s);
      }
      assert IsNearestRoot(q, nearest);
    }
  }

  /**
   * The colour seen along `ray`: nothing where it misses the sphere or meets it only
   * behind its origin, and otherwise the colour at the nearest point met.
   */
  ghost function RayColor(ray: Ray, sqrt: real -> real, pow: (real, real) -> real): (c: Option<Color>)
    requires IsSqrt(sqrt)
  {
    match NearestHit(ray)
    case None => None
    case Some(t) => Some(SurfaceColor(ray, t, sqrt, pow))
  }

  /** The Phong colour at the point where `ray` meets the sphere at `t`, seen back along the ray. */
  ghost function SurfaceColor(ray: Ray, t: real, sqrt: real -> real, pow: (real, real) -> real): (c: Color)
    requires IsSqrt(sqrt) && SceneSphere.Equation(ray).Eval(t) == 0.0
  {
    VisiblePoint(ray, t);
    var point := ray.Position(t);
    Shade(SceneMaterial, SceneLight, Normalized(Sub(SceneLight.position, point), sqrt),
          Negation(ray.direction), Normalized(Sub(point, SceneSphere.origin), sqrt), pow)
  }

  /** The colour computed for pixel (`x`, `y`). */
  ghost function PixelColor(x: int, y: int, sqrt: real -> real, pow: (real, real) -> real): (c: Option<Color>)
    requires IsSqrt(sqrt)
  {
    RayColor(PixelRay(x, y, sqrt), sqrt, pow)
  }

  /** The pixel as `draw` leaves it: the computed colour scaled to 0-255, or the background. */
  ghost function FramePixel(x: int, y: int, sqrt: real -> real, pow: (real, real) -> real): (c: Color)
    requires IsSqrt(sqrt)
  {
    match PixelColor(x, y, sqrt, pow)
    case None => Background
    case Some(c) => Colors.Mul(c, 255.0)
  }

  /**
   * The body of the inner loop of `draw` for pixel (`x`, `y`): the ray through the
   * pixel, its direction normalised in place on a fresh vector, traced into the scene.
   */
  method RenderPixel(x: int, y: int, sqrt: real -> real, pow: (real, real) -> real) returns (r: Option<Color>)
    requires IsSqrt(sqrt)
    ensures r == PixelColor(x, y, sqrt, pow)
  {
    var worldY := WallHalf - PixelSize * (y as real);
    var worldX := -WallHalf + PixelSize * (x as real);
    var wallPosition := Vec3(worldX, worldY, WallZ);
    var rayDirection := new Vector(wallPosition.x - RayOrigin.x, wallPosition.y - RayOrigin.y,
                                   wallPosition.z - RayOrigin.z);
    ghost var offset := Sub(WallPosition(x, y), RayOrigin);
    assert rayDirection.Value() == offset;
    SquaredLengthPositive(offset);
    rayDirection.Normalize(sqrt);
    var ray := Ray(RayOrigin, rayDirection.Value());
    assert ray == PixelRay(x, y, sqrt);
    r := Trace(ray, sqrt, pow);
  }

  /**
   * The rest of the inner loop of `draw`: intersect the ray with the sphere, take
   * the hit, and light the point met there.
   */
  method Trace(ray: Ray, sqrt: real -> real, pow: (real, real) -> real) returns (r: Option<Color>)
    requires IsSqrt(sqrt) && 0.0 < Dot(ray.direction, ray.direction)
    ensures r == RayColor(ray, sqrt, pow)
  {
    var intersections := SceneSphere.Intersect(ray, sqrt);
    var intersection := intersections.Hit();

    HitIsNearestRoot(ray, intersections.intersections, intersection);
    NearestHitIs(ray, if intersection.None? then None else Some(intersection.value.t));
    if intersection.None? {
      r := None;
    } else {
      var point := ray.Position(intersection.value.t);
      VisiblePoint(ray, intersection.value.t);
      var normal := intersection.value.obj.NormalAt(point, sqrt);
      var eyeVector := Negation(ray.direction);
      var computedColor := Lighting(intersection.value.obj.material.value, SceneLight, point, eyeVector, normal, sqrt, pow);
      r := Some(computedColor);
    }
  }

  /**
   * What `intersect` and `hit` together find is the nearest root in front of the
   * ray's origin: nothing exactly when there is none, and otherwise that root on
   * the sphere.
   */
  lemma HitIsNearestRoot(ray: Ray, xs: seq<Intersection<Sphere>>, hit: Option<Intersection<Sphere>>)
    requires |xs| == 0 || |xs| == 2
    requires forall i :: 0 <= i < |xs| ==> xs[i].obj == SceneSphere && SceneSphere.Equation(ray).Eval(xs[i].t) == 0.0
    requires forall t :: SceneSphere.Equation(ray).Eval(t) == 0.0 ==> |xs| == 2 && (t == xs[0].t || t == xs[1].t)
    requires hit.None? <==> (forall i :: 0 <= i < |xs| ==> xs[i].t < 0.0)
    requires hit.Some? ==> exists k :: IsHit(xs, k) && hit.value == xs[k]
    ensures hit.None? <==> !exists t :: IsNearestRoot(SceneSphere.Equation(ray), t)
    ensures hit.Some? ==> hit.value.obj == SceneSphere && IsNearestRoot(SceneSphere.Equation(ray), hit.value.t)
  {
    var q := SceneSphere.Equation(ray);
    if hit.Some? {
      var k :| IsHit(xs, k) && hit.value == xs[k];
      assert IsNearestRoot(q, hit.value.t);
    } else if exists t :: IsNearestRoot(q, t) {
      var t :| IsNearestRoot(q, t);
      assert t == xs[0].t || t == xs[1].t;
    }
  }

  /**
   * One frame: a fresh canvas cleared to the background, then every pixel set, row
   * by row, to the colour computed for it when its ray meets the sphere.
   */
  method Draw(sqrt: real -> real, pow: (real, real) -> real) returns (canvas: array2<Color>)
    requires IsSqrt(sqrt)
    ensures fresh(canvas)
    ensures canvas.Length0 == CanvasSize && canvas.Length1 == CanvasSize
    ensures forall x, y :: 0 <= x < CanvasSize && 0 <= y < CanvasSize ==>
              canvas[x, y] == FramePixel(x, y, sqrt, pow)
  {
    canvas := new Color[CanvasSize, CanvasSize]((x, y) => Background);
    for y := 0 to CanvasSize
      invariant forall x', y' :: 0 <= x' < CanvasSize && 0 <= y' < y ==> canvas[x', y'] == FramePixel(x', y', sqrt, pow)
      invariant forall x', y' :: 0 <= x' < CanvasSize && y <= y' < CanvasSize ==> canvas[x', y'] == Background
    {
      DrawRow(canvas, y, sqrt, pow);
    }
  }

  /** One pass of the outer loop of `draw`: row `y`, pixel by pixel from the left. */
  method DrawRow(canvas: array2<Color>, y: int, sqrt: real -> real, pow: (real, real) -> real)
    requires IsSqrt(sqrt)
    requires canvas.Length0 == CanvasSize && 0 <= y < canvas.Length1
    requires forall x :: 0 <= x < CanvasSize ==> canvas[x, y] == Background
    modifies canvas
    ensures forall x :: 0 <= x < CanvasSize ==> canvas[x, y] == FramePixel(x, y, sqrt, pow)
    ensures forall x, y' :: 0 <= x < CanvasSize && 0 <= y' < canvas.Length1 && y' != y ==> canvas[x, y'] == old(canvas[x, y'])
  {
    for x := 0 to CanvasSize
      invariant RowDrawn(canvas, x, y, sqrt, pow)
      invariant forall x' :: x <= x' < CanvasSize ==> canvas[x', y] == Background
      invariant forall x', y' :: 0 <= x' < CanvasSize && 0 <= y' < canvas.Length1 && y' != y ==> canvas[x', y'] == old(canvas[x', y'])
    {
      PaintPixel(canvas, x, y, sqrt, pow);
    }
  }

  /** The first `x` pixels of row `y` of `canvas` are those of the frame. */
  ghost predicate RowDrawn(canvas: array2<Color>, x: int, y: int, sqrt: real -> real, pow: (real, real) -> real)
    requires IsSqrt(sqrt)
    reads canvas
  {
    && 0 <= x <= canvas.Length0 && 0 <= y < canvas.Length1
    && forall x' {:trigger FramePixel(x', y, sqrt, pow)} :: 0 <= x' < x ==> canvas[x', y] == FramePixel(x', y, sqrt, pow)
  }

  /**
   * One pass of the inner loop of `draw`: pixel (`x`, `y`) is set only when its ray
   * meets the sphere, which extends the drawn part of the row by one pixel.
   */
  method PaintPixel(canvas: array2<Color>, x: int, y: int, sqrt: real -> real, pow: (real, real) -> real)
    requires IsSqrt(sqrt)
    requires x < canvas.Length0 && RowDrawn(canvas, x, y, sqrt, pow) && canvas[x, y] == Background
    modifies canvas
    ensures RowDrawn(canvas, x + 1, y, sqrt, pow)
    ensures forall x', y' :: 0 <= x' < canvas.Length0 && 0 <= y' < canvas.Length1 && (x' != x || y' != y) ==>
              canvas[x', y'] == old(canvas[x', y'])
  {
    var intersectionColor := RenderPixel(x, y, sqrt, pow);
    if intersectionColor.Some? {
      var computedColor := intersectionColor.value;
      SetNextPixel(canvas, x, y, Colors.Mul(computedColor, 255.0), sqrt, pow);
    }
    RowDrawnNext(canvas, x, y, sqrt, pow);
  }

  /** `set` on the pixel just after a drawn row prefix: the prefix stays drawn. */
  method SetNextPixel(canvas: array2<Color>, x: int, y: int, c: Color, sqrt: real -> real, pow: (real, real) -> real)
    requires IsSqrt(sqrt)
    requires x < canvas.Length0 && RowDrawn(canvas, x, y, sqrt, pow)
    modifies canvas
    ensures RowDrawn(canvas, x, y, sqrt, pow) && canvas[x, y] == c
    ensures forall x', y' :: 0 <= x' < canvas.Length0 && 0 <= y' < canvas.Length1 && (x' != x || y' != y) ==>
              canvas[x', y'] == old(canvas[x', y'])
  {
    SetPixel(canvas, x, y, c);
  }

  /** A pixel after a drawn row prefix that already has its frame colour extends the prefix. */
  lemma RowDrawnNext(canvas: array2<Color>, x: int, y: int, sqrt: real -> real, pow: (real, real) -> real)
    requires IsSqrt(sqrt)
    requires x < canvas.Length0 && RowDrawn(canvas, x, y, sqrt, pow) && canvas[x, y] == FramePixel(x, y, sqrt, pow)
    ensures RowDrawn(canvas, x + 1, y, sqrt, pow)
  {
  }

  /** p5's `set`: pixel (`x`, `y`) becomes `c` and no other pixel changes. */
  method SetPixel(canvas: array2<Color>, x: int, y: int, c: Color)
    requires 0 <= x < canvas.Length0 && 0 <= y < canvas.Length1
    modifies canvas
    ensures canvas[x, y] == c
    ensures forall x', y' :: 0 <= x' < canvas.Length0 && 0 <= y' < canvas.Length1 && (x' != x || y' != y) ==>
              canvas[x', y'] == old(canvas[x', y'])
  {
    canvas[x, y] := c;
  }

  /**
   * The scene's colour is magenta under a white light: wherever the sphere is drawn
   * its red and blue channels are equal and its green channel is the weakest.
   */
  lemma MagentaTint(x: int, y: int, sqrt: real -> real, pow: (real, real) -> real)
    requires IsSqrt(sqrt)
    ensures PixelColor(x, y, sqrt, pow).Some? ==>
              var c := PixelColor(x, y, sqrt, pow).value; c.r == c.b && c.g < c.r
  {
    RayTint(PixelRay(x, y, sqrt), sqrt, pow);
  }

  /** Along any ray, the colour met on the sphere keeps the magenta tint. */
  lemma RayTint(ray: Ray, sqrt: real -> real, pow: (real, real) -> real)
    requires IsSqrt(sqrt)
    ensures RayColor(ray, sqrt, pow).Some? ==> var c := RayColor(ray, sqrt, pow).value; c.r == c.b && c.g < c.r
  {
    if NearestHit(ray).Some? {
      SurfaceTint(ray, NearestHit(ray).value, sqrt, pow);
    }
  }

  /** At any point where a ray meets the sphere the Phong colour keeps the magenta tint. */
  lemma SurfaceTint(ray: Ray, t: real, sqrt: real -> real, pow: (real, real) -> real)
    requires IsSqrt(sqrt) && SceneSphere.Equation(ray).Eval(t) == 0.0
    ensures var c := SurfaceColor(ray, t, sqrt, pow); c.r == c.b && c.g < c.r
  {
    VisiblePoint(ray, t);
    var point := ray.Position(t);
    ShadeTint(Normalized(Sub(SceneLight.position, point), sqrt), Negation(ray.direction),
              Normalized(Sub(point, SceneSphere.origin), sqrt), pow);
  }

  /** For any light, eye and normal vectors the scene's shade keeps the magenta tint. */
  lemma ShadeTint(lightv: Vec3, eyev: Vec3, normalv: Vec3, pow: (real, real) -> real)
    ensures var c := Shade(SceneMaterial, SceneLight, lightv, eyev, normalv, pow); c.r == c.b && c.g < c.r
  {
    var lightDotNormal := Dot(lightv, normalv);
    var reflectDotEye := Dot(ReflectedLight(lightv, normalv), eyev);
    var ambient := Ambient(SceneMaterial, SceneLight);
    assert ambient.r == ambient.b == 0.1 && ambient.g == 0.02;
    var diffuse := if lightDotNormal < 0.0 then Black else Diffuse(SceneMaterial, SceneLight, lightDotNormal);
    assert diffuse.r == diffuse.b && diffuse.g <= diffuse.r;
    var specular := if lightDotNormal < 0.0 || reflectDotEye <= 0.0 then Black
                    else Specular(SceneMaterial, SceneLight, pow(reflectDotEye, SceneMaterial.shininess));
    assert specular.r == specular.g == specular.b;
  }
}
