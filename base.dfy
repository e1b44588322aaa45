/** Small value types shared by the rest of the model. */
module Base {

  /** Rust's `Option`: `Vec::iter().position` and the resize hand-off return one. */
  datatype Option<T> = None | Some(value: T)

  /** Rust's `u32` (window sizes, VAO names) and `i32` (element counts, `GLsizei`). */
  type U32 = x: int | 0 <= x < 0x1_0000_0000
  type I32 = x: int | -0x8000_0000 <= x < 0x8000_0000

  /** A glm 3-vector. Components are exact reals: `f32` rounding is not modelled. */
  datatype Vec3 = Vec3(x: real, y: real, z: real)

  function Neg(v: Vec3): Vec3 {
    Vec3(-v.x, -v.y, -v.z)
  }

  function Add(u: Vec3, v: Vec3): Vec3 {
    Vec3(u.x + v.x, u.y + v.y, u.z + v.z)
  }

  /** The ratio `width as f32 / height as f32`, kept as the pair that is divided. */
  datatype Ratio = Ratio(width: U32, height: U32)
}
