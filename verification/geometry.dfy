/**
 * Points, homogeneous vectors, opaque 4x4 matrices and axis-aligned boxes.
 * Scalars are `real`: floating-point rounding is not modelled.
 */
module Geometry {

  datatype Vec3 = Vec3(x: real, y: real, z: real)

  /** A homogeneous 4-vector, as Eigen::Vector4f in the skinning loop. */
  datatype Vec4 = Vec4(x: real, y: real, z: real, w: real)

  /**
   * A 4x4 matrix, stored as Blender's float[4][4] (16 reals, column-major).
   * The skinning model never looks inside it: products and inverses are
   * supplied by the caller as function values.
   */
  datatype Mat4 = Mat4(m: seq<real>)

  /** The point (x, y, z, 1). */
  function Point(v: Vec3): Vec4 {
    Vec4(v.x, v.y, v.z, 1.0)
  }

  function Xyz(v: Vec4): Vec3 {
    Vec3(v.x, v.y, v.z)
  }

  function Add4(a: Vec4, b: Vec4): Vec4 {
    Vec4(a.x + b.x, a.y + b.y, a.z + b.z, a.w + b.w)
  }

  function Sub4(a: Vec4, b: Vec4): Vec4 {
    Vec4(a.x - b.x, a.y - b.y, a.z - b.z, a.w - b.w)
  }

  function Scale4(a: Vec4, s: real): Vec4 {
    Vec4(a.x * s, a.y * s, a.z * s, a.w * s)
  }

  function Div4(a: Vec4, s: real): Vec4
    requires s != 0.0
  {
    Vec4(a.x / s, a.y / s, a.z / s, a.w / s)
  }

  const Zero4: Vec4 := Vec4(0.0, 0.0, 0.0, 0.0)

  function Min(a: real, b: real): real {
    if b < a then b else a
  }

  function Max(a: real, b: real): real {
    if a < b then b else a
  }

  function MinV(a: Vec3, b: Vec3): Vec3 {
    Vec3(Min(a.x, b.x), Min(a.y, b.y), Min(a.z, b.z))
  }

  function MaxV(a: Vec3, b: Vec3): Vec3 {
    Vec3(Max(a.x, b.x), Max(a.y, b.y), Max(a.z, b.z))
  }

  /** Componentwise a <= b. */
  predicate LeV(a: Vec3, b: Vec3) {
    a.x <= b.x && a.y <= b.y && a.z <= b.z
  }

  /** An axis-aligned bounding box given by its min and max corners. */
  datatype Box = Box(lo: Vec3, hi: Vec3)

  predicate Contains(b: Box, p: Vec3) {
    LeV(b.lo, p) && LeV(p, b.hi)
  }
}
