/** The `Color` class and its static operations (sketch.js lines 3-23). */
module Colors {

  /** A colour as three unbounded real channels; clamping happens only at display. */
  datatype Color = Color(r: real, g: real, b: real)

  const Black := Color(0.0, 0.0, 0.0)
  const White := Color(1.0, 1.0, 1.0)

  /** Channel-wise product, used to filter a light's intensity through a surface colour. */
  function HadamardProduct(a: Color, b: Color): (c: Color) {
    Color(a.r * b.r, a.g * b.g, a.b * b.b)
  }

  function Mul(v: Color, scalar: real): (c: Color) {
    Color(scalar * v.r, scalar * v.g, scalar * v.b)
  }

  function Add(a: Color, b: Color): (c: Color) {
    Color(a.r + b.r, a.g + b.g, a.b + b.b)
  }

  /** Black is neutral for `Add`, and white is neutral for `HadamardProduct`, on either side. */
  lemma Neutrals(c: Color)
    ensures Add(c, Black) == c && Add(Black, c) == c
    ensures HadamardProduct(c, White) == c && HadamardProduct(White, c) == c
  {
  }

  /**
   * Scaling by 1 changes nothing, scaling twice is scaling by the product, and
   * scaling distributes over `Add`.
   */
  lemma MulScales(a: Color, b: Color, s: real, t: real)
    ensures Mul(a, 1.0) == a
    ensures Mul(Mul(a, s), t) == Mul(a, s * t)
    ensures Mul(Add(a, b), s) == Add(Mul(a, s), Mul(b, s))
  {
  }
}
