/**
 * The matrix and vector operations of the rig, kept uninterpreted.
 *
 * A `Mat` is the syntax of the expression that computed it: every `m44_*`
 * operation the rig calls is a constructor and no algebraic law (associativity,
 * identity, inverse) is assumed. Two `Mat` values that are equal are therefore
 * equal under every interpretation of the operations, floating point included.
 * Scalars are `real`: the rig only stores, copies and swaps them.
 */
module Matrix {

  /** `vector3`. */
  datatype Vec3 = Vec3(x: real, y: real, z: real)

  /** `v3_zero()`. */
  const Zero := Vec3(0.0, 0.0, 0.0)

  /** `matrix_4x4`, as the term that produced it. */
  datatype Mat =
    | Identity                                  // m44_id()
    | Translation(offset: Vec3)                 // m44_translation(v)
    | Mul(lhs: Mat, rhs: Mat)                   // m44_mul_m44(lhs, rhs)
    | Inverse(inverted: Mat)                    // m44_inverse(m)
    | Transpose(transposed: Mat)                // m44_transpose(m)
    | EulerRotation(rx: real, ry: real, rz: real) // m44_rotation_euler(rx, ry, rz)
    | Entries(cells: seq<real>)                 // m44(...) written out, row by row

  /** The constant that swaps the y and z axes of a `.skl` rotation. */
  const HandFlip := Entries([1.0, 0.0, 0.0, 0.0,
                             0.0, 0.0, 1.0, 0.0,
                             0.0, 1.0, 0.0, 0.0,
                             0.0, 0.0, 0.0, 1.0])

  /** The axis a row or column of `HandFlip` moves to: y and z exchange places. */
  function SwapYZ(axis: nat): nat
  {
    if axis == 1 then 2 else if axis == 2 then 1 else axis
  }

  /** The entry of `HandFlip` at `row`, `col` (the literal is written row by row). */
  function FlipCell(row: nat, col: nat): real
    requires row < 4 && col < 4
  {
    HandFlip.cells[4 * row + col]
  }

  /** `HandFlip` is the 4x4 permutation matrix that exchanges the y and z axes. */
  lemma HandFlipSwapsYZ()
    ensures forall row: nat, col: nat :: row < 4 && col < 4 ==>
      FlipCell(row, col) == if col == SwapYZ(row) then 1.0 else 0.0
  {
    forall row: nat, col: nat | row < 4 && col < 4
      ensures FlipCell(row, col) == if col == SwapYZ(row) then 1.0 else 0.0
    {
    }
  }

  /** The local rotation a `.skl` skeleton line gives a bone: the Euler rotation
      conjugated by the y/z swap (flip on both sides), then transposed. */
  function PoseRotation(rx: real, ry: real, rz: real): (r: Mat)
    ensures r.Transpose? && r.transposed.Mul? && r.transposed.lhs.Mul?
    ensures r.transposed.lhs.lhs == HandFlip && r.transposed.rhs == HandFlip
    ensures r.transposed.lhs.rhs == EulerRotation(rx, ry, rz)
  {
    Transpose(Mul(Mul(HandFlip, EulerRotation(rx, ry, rz)), HandFlip))
  }
}
