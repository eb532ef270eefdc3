/** Value types of the Unity engine that the painting components use.
    Unity's single-precision floats become exact reals. */
module Values {

  /** A value that may be missing. */
  datatype Option<T> = None | Some(value: T)

  /** An RGBA colour (UnityEngine.Color). */
  datatype Color = Color(r: real, g: real, b: real, a: real)

  /** `Color.white`, the colour every vertex gets before painting starts. */
  const White := Color(1.0, 1.0, 1.0, 1.0)

  /** `Color.black`, the initial active brush colour. */
  const Black := Color(0.0, 0.0, 0.0, 1.0)

  /** `default(Color)`: the value of every slot of a freshly allocated `Color[]`. */
  const Clear := Color(0.0, 0.0, 0.0, 0.0)

  /** `(c1 + c2) / 2` on colours: component-wise sum, then component-wise halving. */
  function Mean(c1: Color, c2: Color): (m: Color)
    ensures c1 == c2 ==> m == c1
  {
    Color((c1.r + c2.r) / 2.0, (c1.g + c2.g) / 2.0, (c1.b + c2.b) / 2.0, (c1.a + c2.a) / 2.0)
  }

  /** A world- or model-space position (UnityEngine.Vector3). */
  datatype Vec3 = Vec3(x: real, y: real, z: real)

  /** `Vector3.zero`. */
  const Origin3 := Vec3(0.0, 0.0, 0.0)

  /** A texture coordinate (UnityEngine.Vector2). */
  datatype Uv = Uv(x: real, y: real)

  /** `Vector2.zero`, the value of every slot of a freshly allocated `Vector2[]`. */
  const ZeroUv := Uv(0.0, 0.0)

  /** `Vector2.left`, used as "no texture coordinate was hit". */
  const LeftUv := Uv(-1.0, 0.0)

  /** An integer pixel position (UnityEngine.Vector2Int). */
  datatype Point = Point(x: int, y: int)

  /** The pixel position converted to a texture coordinate, before normalisation. */
  function PointUv(p: Point): Uv
  {
    Uv(p.x as real, p.y as real)
  }
}
