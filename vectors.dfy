/** An optional argument: a parameter the caller may leave `undefined`. */
module Options {
  datatype Option<T> = None | Some(value: T)
}

/**
 * The gl-matrix vectors the city works with, as values. A vec2 is a
 * two-element Float32Array; its components are modelled as exact reals.
 */
module Vectors {

  datatype Vec2 = Vec2(x: real, y: real)

  datatype Vec3 = Vec3(x: real, y: real, z: real)

  /** vec2.fromValues(0, 0) */
  const Origin: Vec2 := Vec2(0.0, 0.0)

  /** vec2.subtract: componentwise difference a - b */
  function Sub(a: Vec2, b: Vec2): Vec2 {
    Vec2(a.x - b.x, a.y - b.y)
  }

  /** vec2.add: componentwise sum */
  function Add(a: Vec2, b: Vec2): Vec2 {
    Vec2(a.x + b.x, a.y + b.y)
  }

  /** A real that is a whole number */
  predicate IsIntegral(r: real) {
    r == r.Floor as real
  }
}
