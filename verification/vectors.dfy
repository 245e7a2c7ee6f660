/**
 Three-component real vectors: atom positions, amplitudes, frequencies,
 phases and scales are all 3-vectors, combined component by component.
 */
module Vectors {

  datatype Vec3 = Vec3(x: real, y: real, z: real)

  const Zero: Vec3 := Vec3(0.0, 0.0, 0.0)
  const Ones: Vec3 := Vec3(1.0, 1.0, 1.0)

  function Add(u: Vec3, v: Vec3): Vec3 {
    Vec3(u.x + v.x, u.y + v.y, u.z + v.z)
  }

  lemma AddAssoc(u: Vec3, v: Vec3, w: Vec3)
    ensures Add(Add(u, v), w) == Add(u, Add(v, w))
  {
  }

  lemma AddZero(u: Vec3)
    ensures Add(u, Zero) == u && Add(Zero, u) == u
  {
  }

  /** Element-wise (Hadamard) product. */
  function Mul(u: Vec3, v: Vec3): Vec3 {
    Vec3(u.x * v.x, u.y * v.y, u.z * v.z)
  }

  lemma MulZero(u: Vec3, v: Vec3)
    ensures Mul(Mul(u, Zero), v) == Zero
  {
  }
}
