/**
 * The gl-matrix mat4 values that the road grid hands to the renderer.
 * Their numbers are computed by gl-matrix and are not modelled: a matrix
 * is kept as the chain of gl-matrix calls that built it, so that two
 * matrices are equal when they were built by the same calls.
 */
module Transforms {
  import opened Vectors

  /** An angle, in multiples of pi */
  datatype Angle = PiTimes(factor: real)

  datatype Mat4 =
    | Identity                                       // mat4.create / mat4.identity
    | Rotate(base: Mat4, angle: Angle, axis: Vec3)   // mat4.rotate
    | Translate(base: Mat4, offset: Vec3)            // mat4.translate
    | Scale(base: Mat4, factors: Vec3)               // mat4.scale

  /** The transform of a horizontal road box: rotate a quarter turn about y, lift by 2.5, stretch to 10 x 1 x 0.2. */
  const RoadBox: Mat4 :=
    Scale(Translate(Rotate(Identity, PiTimes(0.5), Vec3(0.0, 1.0, 0.0)), Vec3(0.0, 2.5, 0.0)), Vec3(10.0, 1.0, 0.2))
}
