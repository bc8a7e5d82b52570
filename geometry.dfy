/** The pinhole back-projection used to place a depth pixel in the world:
    `p = R * (d * Kinv * [col, row, 1]) + t`, over the reals. */
module Geometry {

  datatype Vec3 = Vec3(x: real, y: real, z: real)

  /** A 3x3 matrix by rows. */
  datatype Mat3 = Mat3(r0: Vec3, r1: Vec3, r2: Vec3)

  /** The camera-to-world pose: the upper-left 3x3 block of the 4x4 pose
      matrix and its first three entries of the last column. */
  datatype Pose = Pose(rotation: Mat3, translation: Vec3)

  function Dot(a: Vec3, b: Vec3): real
  {
    a.x * b.x + a.y * b.y + a.z * b.z
  }

  function Apply(m: Mat3, v: Vec3): Vec3
  {
    Vec3(Dot(m.r0, v), Dot(m.r1, v), Dot(m.r2, v))
  }

  function Scale(d: real, v: Vec3): Vec3
  {
    Vec3(d * v.x, d * v.y, d * v.z)
  }

  function Add(a: Vec3, b: Vec3): Vec3
  {
    Vec3(a.x + b.x, a.y + b.y, a.z + b.z)
  }

  const Identity: Mat3 := Mat3(Vec3(1.0, 0.0, 0.0), Vec3(0.0, 1.0, 0.0), Vec3(0.0, 0.0, 1.0))

  const ZeroVec: Vec3 := Vec3(0.0, 0.0, 0.0)

  /** World point of the pixel in row `row` and column `col` at depth `d`:
      the column is the image x coordinate and the row the image y. */
  function Project(kinv: Mat3, pose: Pose, row: int, col: int, d: real): Vec3
  {
    Add(Apply(pose.rotation, Scale(d, Apply(kinv, Vec3(col as real, row as real, 1.0)))), pose.translation)
  }

  /** With identity intrinsics and the identity pose a pixel lands at
      `d * (col, row, 1)`. */
  lemma ProjectIdentity(row: int, col: int, d: real)
    ensures Project(Identity, Pose(Identity, ZeroVec), row, col, d) == Vec3(d * col as real, d * row as real, d)
  {
  }

  /** A pure translation of the pose moves every projected point by it. */
  lemma ProjectTranslate(kinv: Mat3, rotation: Mat3, t: Vec3, row: int, col: int, d: real)
    ensures Project(kinv, Pose(rotation, t), row, col, d)
         == Add(Project(kinv, Pose(rotation, ZeroVec), row, col, d), t)
  {
  }

  /** A matrix commutes with scaling: `m * (d * v) == d * (m * v)`. */
  lemma ApplyScale(m: Mat3, d: real, v: Vec3)
    ensures Apply(m, Scale(d, v)) == Scale(d, Apply(m, v))
  {
    assert Dot(m.r0, Scale(d, v)) == d * Dot(m.r0, v);
    assert Dot(m.r1, Scale(d, v)) == d * Dot(m.r1, v);
    assert Dot(m.r2, Scale(d, v)) == d * Dot(m.r2, v);
  }

  /** Every pixel lands on its viewing ray: the camera centre `t` plus `d`
      times the direction `R * Kinv * [col, row, 1]`, so the depth only
      moves the point along that ray. */
  lemma ProjectOnRay(kinv: Mat3, pose: Pose, row: int, col: int, d: real)
    ensures Project(kinv, pose, row, col, d)
         == Add(Scale(d, Apply(pose.rotation, Apply(kinv, Vec3(col as real, row as real, 1.0)))), pose.translation)
  {
    ApplyScale(pose.rotation, d, Apply(kinv, Vec3(col as real, row as real, 1.0)));
  }

  function MatMul(a: Mat3, b: Mat3): Mat3
  {
    var c0, c1, c2 := Vec3(b.r0.x, b.r1.x, b.r2.x), Vec3(b.r0.y, b.r1.y, b.r2.y), Vec3(b.r0.z, b.r1.z, b.r2.z);
    Mat3(Vec3(Dot(a.r0, c0), Dot(a.r0, c1), Dot(a.r0, c2)),
         Vec3(Dot(a.r1, c0), Dot(a.r1, c1), Dot(a.r1, c2)),
         Vec3(Dot(a.r2, c0), Dot(a.r2, c1), Dot(a.r2, c2)))
  }

  /** The pinhole camera matrix `[[fx, 0, cx], [0, fy, cy], [0, 0, 1]]`. */
  function Intrinsics(fx: real, fy: real, cx: real, cy: real): Mat3
  {
    Mat3(Vec3(fx, 0.0, cx), Vec3(0.0, fy, cy), Vec3(0.0, 0.0, 1.0))
  }

  /** The camera matrix sends the normalised image point `(x, y, 1)` to the
      pixel `(fx*x + cx, fy*y + cy, 1)`. */
  lemma IntrinsicsMapsToPixel(fx: real, fy: real, cx: real, cy: real, x: real, y: real)
    ensures Apply(Intrinsics(fx, fy, cx, cy), Vec3(x, y, 1.0)) == Vec3(fx * x + cx, fy * y + cy, 1.0)
  {
  }

  const Zero: Mat3 := Mat3(ZeroVec, ZeroVec, ZeroVec)

  /** `K.inv()`: the inverse of the camera matrix, or the zero matrix when a
      focal length is zero and the matrix is singular. */
  function InverseIntrinsics(fx: real, fy: real, cx: real, cy: real): (kinv: Mat3)
    ensures fx != 0.0 && fy != 0.0 ==>
      MatMul(Intrinsics(fx, fy, cx, cy), kinv) == Identity && MatMul(kinv, Intrinsics(fx, fy, cx, cy)) == Identity
    ensures fx == 0.0 || fy == 0.0 ==> kinv == Zero
  {
    if fx == 0.0 || fy == 0.0 then Zero
    else
      var kinv := Mat3(Vec3(1.0 / fx, 0.0, -cx / fx), Vec3(0.0, 1.0 / fy, -cy / fy), Vec3(0.0, 0.0, 1.0));
      FocalInverse(fx, cx);
      FocalInverse(fy, cy);
      assert MatMul(Intrinsics(fx, fy, cx, cy), kinv) == Identity;
      assert MatMul(kinv, Intrinsics(fx, fy, cx, cy)) == Identity;
      kinv
  }

  /** The entries of one axis of the inverse camera matrix undo that axis:
      `f * (1/f) = 1` and `f * (-c/f) + c = 0`, in either order of product. */
  lemma FocalInverse(f: real, c: real)
    requires f != 0.0
    ensures f * (1.0 / f) == 1.0 && (1.0 / f) * f == 1.0
    ensures f * (-c / f) + c == 0.0
    ensures (1.0 / f) * c + (-c / f) == 0.0
  {
    assert f * (-c / f) == -c;
    assert (1.0 / f) * c == c / f;
  }

  /** Through the inverse camera matrix a pixel becomes the ray
      `((col - cx) / fx, (row - cy) / fy, 1)`. */
  lemma PixelRay(fx: real, fy: real, cx: real, cy: real, row: int, col: int)
    requires fx != 0.0 && fy != 0.0
    ensures Apply(InverseIntrinsics(fx, fy, cx, cy), Vec3(col as real, row as real, 1.0))
         == Vec3((col as real - cx) / fx, (row as real - cy) / fy, 1.0)
  {
  }
}
