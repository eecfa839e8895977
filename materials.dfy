/** The `Material` record and its default (sketch.js lines 135-147). */
module Materials {
  import opened Colors

  /** Surface parameters of the Phong reflection model. */
  datatype Material = Material(color: Color, ambient: real, diffuse: real, specular: real, shininess: real)

  /**
   * The default material: a white surface whose ambient and diffuse shares add up to
   * the full light, with a strong, tight highlight.
   */
  function GetDefault(): (m: Material)
    ensures m.color == White
    ensures 0.0 < m.ambient < m.diffuse && m.ambient + m.diffuse == 1.0
    ensures m.specular == m.diffuse && 1.0 < m.shininess
  {
    Material(Color(1.0, 1.0, 1.0), 0.1, 0.9, 0.9, 200.0)
  }
}
