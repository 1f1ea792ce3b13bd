/** Integer 3-vectors (glm::ivec3) used for block anchors, cube offsets and board positions.
    Components are unbounded integers: the 32-bit range of ivec3 is never approached by the
    positions the game produces, and wrap-around is not modelled. */
module Vectors {

  datatype Axis = X | Y | Z

  datatype Vec3 = Vec3(x: int, y: int, z: int) {
    function Plus(v: Vec3): Vec3 { Vec3(x + v.x, y + v.y, z + v.z) }
    function Minus(v: Vec3): Vec3 { Vec3(x - v.x, y - v.y, z - v.z) }

    /** The component along an axis. */
    function Get(a: Axis): int {
      match a
      case X => x
      case Y => y
      case Z => z
    }

    /** This vector with the component along a replaced by n. */
    function With(a: Axis, n: int): (v: Vec3)
      ensures v.Get(a) == n && forall b :: b != a ==> v.Get(b) == Get(b)
    {
      match a
      case X => Vec3(n, y, z)
      case Y => Vec3(x, n, z)
      case Z => Vec3(x, y, n)
    }
  }

  const Zero := Vec3(0, 0, 0)
  const Up := Vec3(0, 1, 0)
  const Down := Vec3(0, -1, 0)
  const PlusX := Vec3(1, 0, 0)
  const MinusX := Vec3(-1, 0, 0)
  const PlusZ := Vec3(0, 0, 1)
  const MinusZ := Vec3(0, 0, -1)

  /** The four unit horizontal directions a rotation kick may use. */
  predicate IsHorizontalUnit(v: Vec3) {
    v == PlusX || v == MinusX || v == PlusZ || v == MinusZ
  }

  /** Position of a horizontal unit in the kick's queueing order +x, -x, +z, -z. */
  function KickRank(v: Vec3): nat
    requires IsHorizontalUnit(v)
  {
    if v == PlusX then 0 else if v == MinusX then 1 else if v == PlusZ then 2 else 3
  }

  function Scale(v: Vec3, k: int): Vec3 { Vec3(k * v.x, k * v.y, k * v.z) }
}
