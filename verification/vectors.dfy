/** Small real-valued vectors; the `f32` components of the source are modelled
    as exact reals. */
module Vectors {

  datatype Vec2 = Vec2(x: real, y: real)

  datatype Vec3 = Vec3(x: real, y: real, z: real)

  datatype Vec4 = Vec4(x: real, y: real, z: real, w: real)

  /** Four unsigned components (joint indices). */
  datatype UVec4 = UVec4(x: nat, y: nat, z: nat, w: nat)

  /** The largest finite `f32`, which the source uses as "unbounded". */
  const F32_MAX: real := 340282346638528859811704183484516925440.0

  const ZERO2 := Vec2(0.0, 0.0)
  const ZERO3 := Vec3(0.0, 0.0, 0.0)
  const ONE3 := Vec3(1.0, 1.0, 1.0)
  const ZERO4 := Vec4(0.0, 0.0, 0.0, 0.0)
  const ONE4 := Vec4(1.0, 1.0, 1.0, 1.0)

  /** A three-component vector extended by a fourth component `w`. */
  function Pad(v: Vec3, w: real): (r: Vec4)
    ensures Drop(r) == v && r.w == w
  {
    Vec4(v.x, v.y, v.z, w)
  }

  /** The first three components. */
  function Drop(v: Vec4): Vec3 {
    Vec3(v.x, v.y, v.z)
  }

  /** Padding and dropping the fourth component are inverse. */
  lemma PadDrop(v: Vec4)
    ensures Pad(Drop(v), v.w) == v
  {
  }
}
