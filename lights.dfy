/**
 * The `Light` class (sketch.js lines 181-214): a point light and its method
 * `lighting`: the Phong reflection model. The
 * colour at a point is the ambient term, plus a diffuse term when the light is on
 * the lit side of the surface, plus a specular term when the mirrored light ray
 * also leans towards the eye.
 *
 * `Shade` is the colour as a function of the already normalised light vector;
 * `Lighting` is the operation itself, which normalises that vector in place on a
 * fresh object first.
 */
module Lights {
  import opened RealMath
  import opened Colors
  import opened Vectors
  import opened Materials

  /** A point light source. */
  datatype Light = Light(position: Point, intensity: Color)

  /** The surface colour filtered by the light, scaled by the ambient share. */
  function Ambient(material: Material, light: Light): (c: Color) {
    Colors.Mul(HadamardProduct(material.color, light.intensity), material.ambient)
  }

  /** The diffuse term for a given cosine between light vector and normal. */
  function Diffuse(material: Material, light: Light, lightDotNormal: real): (c: Color) {
    Colors.Mul(HadamardProduct(material.color, light.intensity), material.diffuse * lightDotNormal)
  }

  /** The specular term for a given highlight factor: the light's own colour, not the surface's. */
  function Specular(material: Material, light: Light, factor: real): (c: Color) {
    Colors.Mul(light.intensity, material.specular * factor)
  }

  /** The mirror image of the incoming light direction about the normal. */
  function ReflectedLight(lightv: Vec3, normalv: Vec3): (r: Vec3) {
    Reflect(Negation(lightv), normalv)
  }

  /**
   * The colour seen along `eyev` at a surface with normal `normalv`, lit along the
   * unit vector `lightv`: ambient plus a diffuse term when the light is on the lit
   * side, plus a specular term when the mirrored light also leans towards the eye.
   */
  function Shade(material: Material, light: Light, lightv: Vec3, eyev: Vec3, normalv: Vec3,
                 pow: (real, real) -> real): (c: Color)
  {
    var lightDotNormal := Dot(lightv, normalv);
    var reflectDotEye := Dot(ReflectedLight(lightv, normalv), eyev);
    var diffuse := if lightDotNormal < 0.0 then Black else Diffuse(material, light, lightDotNormal);
    var specular := if lightDotNormal < 0.0 || reflectDotEye <= 0.0 then Black
                    else Specular(material, light, pow(reflectDotEye, material.shininess));
    Colors.Add(Ambient(material, light), Colors.Add(diffuse, specular))
  }

  /** A light behind the surface contributes only the ambient term. */
  lemma ShadeFacingAway(material: Material, light: Light, lightv: Vec3, eyev: Vec3, normalv: Vec3,
                        pow: (real, real) -> real)
    requires Dot(lightv, normalv) < 0.0
    ensures Shade(material, light, lightv, eyev, normalv, pow) == Ambient(material, light)
  {
    Neutrals(Black);
    Neutrals(Ambient(material, light));
  }

  /** When the mirrored light leans away from the eye there is no highlight: ambient plus diffuse. */
  lemma ShadeWithoutHighlight(material: Material, light: Light, lightv: Vec3, eyev: Vec3, normalv: Vec3,
                              pow: (real, real) -> real)
    requires 0.0 <= Dot(lightv, normalv) && Dot(ReflectedLight(lightv, normalv), eyev) <= 0.0
    ensures Shade(material, light, lightv, eyev, normalv, pow)
         == Colors.Add(Ambient(material, light), Diffuse(material, light, Dot(lightv, normalv)))
  {
    Neutrals(Diffuse(material, light, Dot(lightv, normalv)));
  }

  /**
   * The colour at `point`. The light vector is built on a fresh `Vector` and
   * normalised in place; the light must not sit at the point itself.
   */
  method Lighting(material: Material, light: Light, point: Point, eyev: Vec3, normalv: Vec3,
                  sqrt: real -> real, pow: (real, real) -> real) returns (c: Color)
    requires IsSqrt(sqrt) && 0.0 < Dot(Sub(light.position, point), Sub(light.position, point))
    ensures c == Shade(material, light, Normalized(Sub(light.position, point), sqrt), eyev, normalv, pow)
    ensures Dot(Sub(light.position, point), normalv) < 0.0 ==> c == Ambient(material, light)
  {
    var offset := Sub(light.position, point);
    var lightv := new Vector(offset.x, offset.y, offset.z);
    lightv.Normalize(sqrt);
    var ambient := Ambient(material, light);

    var diffuse, specular;
    var lightDotNormal := Dot(lightv.Value(), normalv);

    if lightDotNormal < 0.0 {
      diffuse := Black;
      specular := Black;
    } else {
      diffuse := Diffuse(material, light, lightDotNormal);

      var reflectv := Reflect(Negation(lightv.Value()), normalv);
      var reflectDotEye := Dot(reflectv, eyev);

      if reflectDotEye <= 0.0 {
        specular := Black;
      } else {
        var factor := pow(reflectDotEye, material.shininess);
        specular := Specular(material, light, factor);
      }
    }

    c := Colors.Add(ambient, Colors.Add(diffuse, specular));
    FacingAgreesWithOffset(offset, normalv, sqrt);
    if lightDotNormal < 0.0 {
      ShadeFacingAway(material, light, lightv.Value(), eyev, normalv, pow);
    }
  }

  /**
   * Normalising the light vector does not change which side of the surface the
   * light is on: the test may be made on the raw offset.
   */
  lemma FacingAgreesWithOffset(v: Vec3, normalv: Vec3, sqrt: real -> real)
    requires IsSqrt(sqrt) && 0.0 < Dot(v, v)
    ensures Dot(Normalized(v, sqrt), normalv) < 0.0 <==> Dot(v, normalv) < 0.0
  {
    NormalizedKeepsDirection(v, sqrt);
    var k := 1.0 / Magnitude(v, sqrt);
    DotLinear(v, v, k, normalv);
    PositiveScaleKeepsSign(k, Dot(v, normalv));
  }

  /**
   * For a unit normal the reflected light makes the same angle with the normal as
   * the light vector does.
   */
  lemma ReflectedLightMirrors(lightv: Vec3, normalv: Vec3)
    requires Dot(normalv, normalv) == 1.0
    ensures Dot(ReflectedLight(lightv, normalv), normalv) == Dot(lightv, normalv)
    ensures Dot(ReflectedLight(lightv, normalv), ReflectedLight(lightv, normalv)) == Dot(lightv, lightv)
  {
    ReflectFlipsNormal(Negation(lightv), normalv);
    DotLinear(lightv, lightv, -1.0, normalv);
  }

  lemma PositiveScaleKeepsSign(k: real, d: real)
    requires 0.0 < k
    ensures k * d < 0.0 <==> d < 0.0
  {
  }

  /**
   * Looking straight along the mirrored light, with unit light vector and normal on
   * the lit side, the specular factor is `pow(1, shininess)`: all three terms are present.
   */
  lemma MirrorHighlight(material: Material, light: Light, lightv: Vec3, normalv: Vec3,
                        pow: (real, real) -> real)
    requires Dot(lightv, lightv) == 1.0 && Dot(normalv, normalv) == 1.0 && 0.0 <= Dot(lightv, normalv)
    ensures Shade(material, light, lightv, ReflectedLight(lightv, normalv), normalv, pow)
         == Colors.Add(Ambient(material, light),
                       Colors.Add(Diffuse(material, light, Dot(lightv, normalv)),
                                  Specular(material, light, pow(1.0, material.shininess))))
  {
    ReflectedLightMirrors(lightv, normalv);
  }

  /** With the light behind the surface only the ambient share of 0.1 is left. */
  lemma LightBehindShade(pow: (real, real) -> real)
    ensures Shade(GetDefault(), Light(Vec3(0.0, 0.0, 10.0), White),
                  Vec3(0.0, 0.0, 1.0), Vec3(0.0, 0.0, -1.0), Vec3(0.0, 0.0, -1.0), pow)
         == Color(0.1, 0.1, 0.1)
  {
    var lightv, normalv := Vec3(0.0, 0.0, 1.0), Vec3(0.0, 0.0, -1.0);
    assert Dot(lightv, normalv) == -1.0;
    ShadeFacingAway(GetDefault(), Light(Vec3(0.0, 0.0, 10.0), White), lightv, normalv, normalv, pow);
  }
}
