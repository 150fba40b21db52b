/**
 * 4x4 homogeneous matrix and vector algebra of m3d.c. Doubles are reals; every routine
 * is a closed-form function returning the value the C routine writes into its result.
 * Matrices are row major and vectors are columns: Transform(m, v) is m * v.
 */
module M3D {

  datatype Vec4 = Vec4(x: real, y: real, z: real, w: real)
  {
    function At(i: int): real
      requires 0 <= i < 4
    {
      if i == 0 then x else if i == 1 then y else if i == 2 then z else w
    }
  }

  datatype Mat4 = Mat4(r0: Vec4, r1: Vec4, r2: Vec4, r3: Vec4)
  {
    function Row(i: int): Vec4
      requires 0 <= i < 4
    {
      if i == 0 then r0 else if i == 1 then r1 else if i == 2 then r2 else r3
    }

    /** Cell (i, j), `(*m)[i][j]` in the source. */
    function At(i: int, j: int): real
      requires 0 <= i < 4 && 0 <= j < 4
    {
      Row(i).At(j)
    }

    function Col(j: int): Vec4
      requires 0 <= j < 4
    {
      Vec4(r0.At(j), r1.At(j), r2.At(j), r3.At(j))
    }
  }

  /** The four-term sum over all components. */
  function Dot4(a: Vec4, b: Vec4): real
  {
    a.x * b.x + a.y * b.y + a.z * b.z + a.w * b.w
  }

  /** M3D_Transform: component r of the result is row r of the matrix dotted with the vector. */
  function Transform(m: Mat4, v: Vec4): (r: Vec4)
    ensures forall i :: 0 <= i < 4 ==> r.At(i) == Dot4(m.Row(i), v)
  {
    Vec4(Dot4(m.r0, v), Dot4(m.r1, v), Dot4(m.r2, v), Dot4(m.r3, v))
  }

  /** M3D_Add; the result is a point (w = 1). */
  function Add(a: Vec4, b: Vec4): (r: Vec4)
    ensures r.w == 1.0
  {
    Vec4(a.x + b.x, a.y + b.y, a.z + b.z, 1.0)
  }

  /** M3D_Subtract; the result has w = 1. */
  function Subtract(a: Vec4, b: Vec4): (r: Vec4)
    ensures r.w == 1.0
  {
    Vec4(a.x - b.x, a.y - b.y, a.z - b.z, 1.0)
  }

  /** M3D_Dot: the three-dimensional dot product; w takes no part. */
  function Dot(a: Vec4, b: Vec4): real
  {
    a.x * b.x + a.y * b.y + a.z * b.z
  }

  /** M3D_Cross; the result has w = 1. */
  function Cross(a: Vec4, b: Vec4): (r: Vec4)
    ensures r.w == 1.0
  {
    Vec4(a.y * b.z - a.z * b.y, a.z * b.x - a.x * b.z, a.x * b.y - a.y * b.x, 1.0)
  }

  /** M3D_ScaleVector; the result has w = 1. */
  function ScaleVector(s: real, v: Vec4): (r: Vec4)
    ensures r.w == 1.0
  {
    Vec4(s * v.x, s * v.y, s * v.z, 1.0)
  }

  /** M3D_Normalized: divide out w. The source divides by zero when w = 0. */
  function Normalized(v: Vec4): (r: Vec4)
    requires v.w != 0.0
    ensures r.w == 1.0
  {
    var scale := 1.0 / v.w;
    Vec4(scale * v.x, scale * v.y, scale * v.z, 1.0)
  }

  function Identity(): Mat4
  {
    Mat4(Vec4(1.0, 0.0, 0.0, 0.0), Vec4(0.0, 1.0, 0.0, 0.0), Vec4(0.0, 0.0, 1.0, 0.0), Vec4(0.0, 0.0, 0.0, 1.0))
  }

  function Translate(o: Vec4): Mat4
  {
    Mat4(Vec4(1.0, 0.0, 0.0, o.x), Vec4(0.0, 1.0, 0.0, o.y), Vec4(0.0, 0.0, 1.0, o.z), Vec4(0.0, 0.0, 0.0, 1.0))
  }

  function Scale(s: Vec4): Mat4
  {
    Mat4(Vec4(s.x, 0.0, 0.0, 0.0), Vec4(0.0, s.y, 0.0, 0.0), Vec4(0.0, 0.0, s.z, 0.0), Vec4(0.0, 0.0, 0.0, 1.0))
  }

  /** M3D_World: the axes are the columns of the upper 3x3 block, the origin the last column. */
  function World(ax: Vec4, ay: Vec4, az: Vec4, o: Vec4): Mat4
  {
    Mat4(Vec4(ax.x, ay.x, az.x, o.x), Vec4(ax.y, ay.y, az.y, o.y), Vec4(ax.z, ay.z, az.z, o.z), Vec4(0.0, 0.0, 0.0, 1.0))
  }

  /** M3D_View: the axes are the rows and the last column undoes the origin. */
  function View(ax: Vec4, ay: Vec4, az: Vec4, o: Vec4): Mat4
  {
    Mat4(Vec4(ax.x, ax.y, ax.z, -Dot(o, ax)), Vec4(ay.x, ay.y, ay.z, -Dot(o, ay)),
         Vec4(az.x, az.y, az.z, -Dot(o, az)), Vec4(0.0, 0.0, 0.0, 1.0))
  }

  /** M3D_Determinant: the 24-term Leibniz expansion as written in the source. */
  function Determinant(m: Mat4): real
  {
    var a, b, c, d := m.r0, m.r1, m.r2, m.r3;
    a.x * b.y * c.z * d.w + a.x * b.z * c.w * d.y + a.x * b.w * c.y * d.z
    + a.y * b.x * c.w * d.z + a.y * b.z * c.x * d.w + a.y * b.w * c.z * d.x
    + a.z * b.x * c.y * d.w + a.z * b.y * c.w * d.x + a.z * b.w * c.x * d.y
    + a.w * b.x * c.z * d.y + a.w * b.y * c.x * d.z + a.w * b.z * c.y * d.x
    - a.x * b.y * c.w * d.z - a.x * b.z * c.y * d.w - a.x * b.w * c.z * d.y
    - a.y * b.x * c.z * d.w - a.y * b.z * c.w * d.x - a.y * b.w * c.x * d.z
    - a.z * b.x * c.w * d.y - a.z * b.y * c.x * d.w - a.z * b.w * c.y * d.x
    - a.w * b.x * c.y * d.z - a.w * b.y * c.z * d.x - a.w * b.z * c.x * d.y
  }

  /** The unscaled first row of the adjugate, computed first by M3D_Inverse (m3d.c:251-254). */
  function AdjugateRow0(m: Mat4): Vec4
  {
    var e := (i: int, j: int) requires 0 <= i < 4 && 0 <= j < 4 => m.At(i, j);
    Vec4(
       e(1,1) * e(2,2) * e(3,3) - e(1,1) * e(2,3) * e(3,2) - e(2,1) * e(1,2) * e(3,3) + e(2,1) * e(1,3) * e(3,2) + e(3,1) * e(1,2) * e(2,3) - e(3,1) * e(1,3) * e(2,2),
      -e(0,1) * e(2,2) * e(3,3) + e(0,1) * e(2,3) * e(3,2) + e(2,1) * e(0,2) * e(3,3) - e(2,1) * e(0,3) * e(3,2) - e(3,1) * e(0,2) * e(2,3) + e(3,1) * e(0,3) * e(2,2),
       e(0,1) * e(1,2) * e(3,3) - e(0,1) * e(1,3) * e(3,2) - e(1,1) * e(0,2) * e(3,3) + e(1,1) * e(0,3) * e(3,2) + e(3,1) * e(0,2) * e(1,3) - e(3,1) * e(0,3) * e(1,2),
      -e(0,1) * e(1,2) * e(2,3) + e(0,1) * e(1,3) * e(2,2) + e(1,1) * e(0,2) * e(2,3) - e(1,1) * e(0,3) * e(2,2) - e(2,1) * e(0,2) * e(1,3) + e(2,1) * e(0,3) * e(1,2))
  }

  /** The divisor of M3D_Inverse: column 0 of the operand dotted with the unscaled adjugate row 0. */
  function InverseDivisor(m: Mat4): real
  {
    Dot4(m.Col(0), AdjugateRow0(m))
  }

  /** The divisor M3D_Inverse computes is the determinant, so it is zero exactly for singular matrices. */
  lemma InverseDivisorIsDeterminant(m: Mat4)
    ensures InverseDivisor(m) == Determinant(m)
  {
  }

  /**
   * M3D_Inverse: the adjugate scaled by 1 / InverseDivisor(m). Row 0 is computed and then scaled
   * in place; rows 1-3 are scaled as they are computed. A singular operand divides by zero in the source.
   */
  function Inverse(m: Mat4): Mat4
    requires InverseDivisor(m) != 0.0
  {
    var e := (i: int, j: int) requires 0 <= i < 4 && 0 <= j < 4 => m.At(i, j);
    var row0 := AdjugateRow0(m);
    var scl := 1.0 / InverseDivisor(m);
    Mat4(
      Vec4(row0.x * scl, row0.y * scl, row0.z * scl, row0.w * scl),
      Vec4(
        scl * (-e(1,0) * e(2,2) * e(3,3) + e(1,0) * e(2,3) * e(3,2) + e(2,0) * e(1,2) * e(3,3) - e(2,0) * e(1,3) * e(3,2) - e(3,0) * e(1,2) * e(2,3) + e(3,0) * e(1,3) * e(2,2)),
        scl * ( e(0,0) * e(2,2) * e(3,3) - e(0,0) * e(2,3) * e(3,2) - e(2,0) * e(0,2) * e(3,3) + e(2,0) * e(0,3) * e(3,2) + e(3,0) * e(0,2) * e(2,3) - e(3,0) * e(0,3) * e(2,2)),
        scl * (-e(0,0) * e(1,2) * e(3,3) + e(0,0) * e(1,3) * e(3,2) + e(1,0) * e(0,2) * e(3,3) - e(1,0) * e(0,3) * e(3,2) - e(3,0) * e(0,2) * e(1,3) + e(3,0) * e(0,3) * e(1,2)),
        scl * ( e(0,0) * e(1,2) * e(2,3) - e(0,0) * e(1,3) * e(2,2) - e(1,0) * e(0,2) * e(2,3) + e(1,0) * e(0,3) * e(2,2) + e(2,0) * e(0,2) * e(1,3) - e(2,0) * e(0,3) * e(1,2))),
      Vec4(
        scl * ( e(1,0) * e(2,1) * e(3,3) - e(1,0) * e(2,3) * e(3,1) - e(2,0) * e(1,1) * e(3,3) + e(2,0) * e(1,3) * e(3,1) + e(3,0) * e(1,1) * e(2,3) - e(3,0) * e(1,3) * e(2,1)),
        scl * (-e(0,0) * e(2,1) * e(3,3) + e(0,0) * e(2,3) * e(3,1) + e(2,0) * e(0,1) * e(3,3) - e(2,0) * e(0,3) * e(3,1) - e(3,0) * e(0,1) * e(2,3) + e(3,0) * e(0,3) * e(2,1)),
        scl * ( e(0,0) * e(1,1) * e(3,3) - e(0,0) * e(1,3) * e(3,1) - e(1,0) * e(0,1) * e(3,3) + e(1,0) * e(0,3) * e(3,1) + e(3,0) * e(0,1) * e(1,3) - e(3,0) * e(0,3) * e(1,1)),
        scl * (-e(0,0) * e(1,1) * e(2,3) + e(0,0) * e(1,3) * e(2,1) + e(1,0) * e(0,1) * e(2,3) - e(1,0) * e(0,3) * e(2,1) - e(2,0) * e(0,1) * e(1,3) + e(2,0) * e(0,3) * e(1,1))),
      Vec4(
        scl * (-e(1,0) * e(2,1) * e(3,2) + e(1,0) * e(2,2) * e(3,1) + e(2,0) * e(1,1) * e(3,2) - e(2,0) * e(1,2) * e(3,1) - e(3,0) * e(1,1) * e(2,2) + e(3,0) * e(1,2) * e(2,1)),
        scl * ( e(0,0) * e(2,1) * e(3,2) - e(0,0) * e(2,2) * e(3,1) - e(2,0) * e(0,1) * e(3,2) + e(2,0) * e(0,2) * e(3,1) + e(3,0) * e(0,1) * e(2,2) - e(3,0) * e(0,2) * e(2,1)),
        scl * (-e(0,0) * e(1,1) * e(3,2) + e(0,0) * e(1,2) * e(3,1) + e(1,0) * e(0,1) * e(3,2) - e(1,0) * e(0,2) * e(3,1) - e(3,0) * e(0,1) * e(1,2) + e(3,0) * e(0,2) * e(1,1)),
        scl * ( e(0,0) * e(1,1) * e(2,2) - e(0,0) * e(1,2) * e(2,1) - e(1,0) * e(0,1) * e(2,2) + e(1,0) * e(0,2) * e(2,1) + e(2,0) * e(0,1) * e(1,2) - e(2,0) * e(0,2) * e(1,1))))
  }

  /** M3D_Transpose: cell (i, j) of the result is cell (j, i) of the operand. */
  function Transpose(m: Mat4): (t: Mat4)
    ensures forall i, j :: 0 <= i < 4 && 0 <= j < 4 ==> t.At(i, j) == m.At(j, i)
  {
    Mat4(m.Col(0), m.Col(1), m.Col(2), m.Col(3))
  }

  /** M3D_InverseTranspose: the inverse, transposed; used for normals. */
  function InverseTranspose(m: Mat4): (t: Mat4)
    requires InverseDivisor(m) != 0.0
    ensures forall i, j :: 0 <= i < 4 && 0 <= j < 4 ==> t.At(i, j) == Inverse(m).At(j, i)
  {
    Transpose(Inverse(m))
  }

  /** M3D_Multiply: cell (i, j) of the product is row i of the left operand dotted with column j of the right. */
  function Multiply(a: Mat4, b: Mat4): (p: Mat4)
    ensures forall i, j :: 0 <= i < 4 && 0 <= j < 4 ==> p.At(i, j) == Dot4(a.Row(i), b.Col(j))
  {
    var row := (v: Vec4) => Vec4(Dot4(v, b.Col(0)), Dot4(v, b.Col(1)), Dot4(v, b.Col(2)), Dot4(v, b.Col(3)));
    Mat4(row(a.r0), row(a.r1), row(a.r2), row(a.r3))
  }

  /**
   * M3D_Perspective. The frustum bounds must differ pairwise; the source divides by their differences.
   * The planes are given as the signed z coordinates of the near and far planes (see PerspectiveMapsFrustum).
   */
  function Perspective(top: real, bottom: real, left: real, right: real, near: real, far: real): Mat4
    requires left != right && top != bottom && near != far
  {
    Mat4(Vec4(2.0 * near / (left - right), 0.0, (right + left) / (right - left), 0.0),
         Vec4(0.0, 2.0 * near / (bottom - top), (top + bottom) / (top - bottom), 0.0),
         Vec4(0.0, 0.0, (far + near) / (far - near), 2.0 * far * near / (near - far)),
         Vec4(0.0, 0.0, -1.0, 0.0))
  }

  /** M3D_Orthographic. The bounds must differ pairwise; the source divides by their differences. */
  function Orthographic(top: real, bottom: real, left: real, right: real, near: real, far: real): Mat4
    requires left != right && top != bottom && near != far
  {
    Mat4(Vec4(2.0 / (right - left), 0.0, 0.0, (right + left) / (left - right)),
         Vec4(0.0, 2.0 / (top - bottom), 0.0, (top + bottom) / (bottom - top)),
         Vec4(0.0, 0.0, 2.0 / (near - far), (far + near) / (near - far)),
         Vec4(0.0, 0.0, 0.0, 1.0))
  }

  // ---------------------------------------------------------------------------------------------
  // Properties

  /** Transforming by the identity returns the vector unchanged. */
  lemma TransformIdentity(v: Vec4)
    ensures Transform(Identity(), v) == v
  {
  }

  /** Transforming is linear: a combination a + k b of vectors goes to the same combination of their images. */
  lemma TransformLinear(m: Mat4, a: Vec4, b: Vec4, k: real)
    ensures Transform(m, Vec4(a.x + k * b.x, a.y + k * b.y, a.z + k * b.z, a.w + k * b.w))
         == Vec4(Transform(m, a).x + k * Transform(m, b).x, Transform(m, a).y + k * Transform(m, b).y,
                 Transform(m, a).z + k * Transform(m, b).z, Transform(m, a).w + k * Transform(m, b).w)
  {
    DotLinear(m.r0, a, b, k);
    DotLinear(m.r1, a, b, k);
    DotLinear(m.r2, a, b, k);
    DotLinear(m.r3, a, b, k);
  }

  /** One row of TransformLinear. */
  lemma DotLinear(r: Vec4, a: Vec4, b: Vec4, k: real)
    ensures Dot4(r, Vec4(a.x + k * b.x, a.y + k * b.y, a.z + k * b.z, a.w + k * b.w)) == Dot4(r, a) + k * Dot4(r, b)
  {
  }

  /** The identity is a left and a right unit of the product. */
  lemma MultiplyIdentity(m: Mat4)
    ensures Multiply(Identity(), m) == m
    ensures Multiply(m, Identity()) == m
  {
  }

  /** Transforming by a product is transforming by the right factor, then the left. */
  lemma TransformMultiply(a: Mat4, b: Mat4, v: Vec4)
    ensures Transform(Multiply(a, b), v) == Transform(a, Transform(b, v))
  {
    forall i | 0 <= i < 4
      ensures Dot4(Multiply(a, b).Row(i), v) == Dot4(a.Row(i), Transform(b, v))
    {
      var r := a.Row(i);
      assert Multiply(a, b).Row(i) == Vec4(Dot4(r, b.Col(0)), Dot4(r, b.Col(1)), Dot4(r, b.Col(2)), Dot4(r, b.Col(3)));
      RowTimesColumns(r, b, v);
    }
    assert Transform(Multiply(a, b), v).At(0) == Transform(a, Transform(b, v)).At(0);
    assert Transform(Multiply(a, b), v).At(1) == Transform(a, Transform(b, v)).At(1);
    assert Transform(Multiply(a, b), v).At(2) == Transform(a, Transform(b, v)).At(2);
    assert Transform(Multiply(a, b), v).At(3) == Transform(a, Transform(b, v)).At(3);
  }

  /** Associativity of a row times a matrix times a vector, written out. */
  lemma RowTimesColumns(r: Vec4, b: Mat4, v: Vec4)
    ensures Dot4(Vec4(Dot4(r, b.Col(0)), Dot4(r, b.Col(1)), Dot4(r, b.Col(2)), Dot4(r, b.Col(3))), v)
         == Dot4(r, Transform(b, v))
  {
    var c0, c1, c2, c3 := b.Col(0), b.Col(1), b.Col(2), b.Col(3);
    calc {
      Dot4(Vec4(Dot4(r, c0), Dot4(r, c1), Dot4(r, c2), Dot4(r, c3)), v);
      (r.x * c0.x + r.y * c0.y + r.z * c0.z + r.w * c0.w) * v.x + (r.x * c1.x + r.y * c1.y + r.z * c1.z + r.w * c1.w) * v.y
      + (r.x * c2.x + r.y * c2.y + r.z * c2.z + r.w * c2.w) * v.z + (r.x * c3.x + r.y * c3.y + r.z * c3.z + r.w * c3.w) * v.w;
      r.x * (c0.x * v.x + c1.x * v.y + c2.x * v.z + c3.x * v.w) + r.y * (c0.y * v.x + c1.y * v.y + c2.y * v.z + c3.y * v.w)
      + r.z * (c0.z * v.x + c1.z * v.y + c2.z * v.z + c3.z * v.w) + r.w * (c0.w * v.x + c1.w * v.y + c2.w * v.z + c3.w * v.w);
      Dot4(r, Transform(b, v));
    }
  }

  /** Transposing twice gives back the matrix. */
  lemma TransposeInvolution(m: Mat4)
    ensures Transpose(Transpose(m)) == m
  {
  }

  /** Transposition reverses a product. */
  lemma TransposeMultiply(a: Mat4, b: Mat4)
    ensures Transpose(Multiply(a, b)) == Multiply(Transpose(b), Transpose(a))
  {
  }

  /** Subtracting undoes adding on the spatial components. */
  lemma SubtractUndoesAdd(a: Vec4, b: Vec4)
    ensures Subtract(Add(a, b), b) == Vec4(a.x, a.y, a.z, 1.0)
  {
  }

  /** The dot product ignores w and is symmetric. */
  lemma DotIgnoresW(a: Vec4, b: Vec4, wa: real, wb: real)
    ensures Dot(a, b) == Dot(a.(w := wa), b.(w := wb))
    ensures Dot(a, b) == Dot(b, a)
  {
  }

  /** The cross product is orthogonal to both operands and anticommutes. */
  lemma CrossOrthogonal(a: Vec4, b: Vec4)
    ensures Dot(Cross(a, b), a) == 0.0 && Dot(Cross(a, b), b) == 0.0
    ensures Cross(b, a) == Vec4(-Cross(a, b).x, -Cross(a, b).y, -Cross(a, b).z, 1.0)
  {
  }

  /** Scaling a vector scales its dot products. */
  lemma ScaleVectorDot(s: real, a: Vec4, b: Vec4)
    ensures Dot(ScaleVector(s, a), b) == s * Dot(a, b)
  {
  }

  /** Normalized divides out w: multiplying back by w gives the operand; a point with w = 1 is unchanged. */
  lemma NormalizedRecovers(v: Vec4)
    requires v.w != 0.0
    ensures Normalized(v).x * v.w == v.x && Normalized(v).y * v.w == v.y && Normalized(v).z * v.w == v.z
    ensures v.w == 1.0 ==> Normalized(v) == v
  {
  }

  /** A translation moves a point (w = 1) by the offset and leaves a direction (w = 0) unchanged. */
  lemma TranslateSemantics(o: Vec4, p: Vec4)
    ensures p.w == 1.0 ==> Transform(Translate(o), p) == Vec4(p.x + o.x, p.y + o.y, p.z + o.z, 1.0)
    ensures p.w == 0.0 ==> Transform(Translate(o), p) == p
  {
  }

  /** A scaling matrix scales each spatial component of a point by its own factor. */
  lemma ScaleSemantics(s: Vec4, p: Vec4)
    ensures Transform(Scale(s), p) == Vec4(s.x * p.x, s.y * p.y, s.z * p.z, p.w)
  {
  }

  /** The world matrix combines the axes by the vector's components and adds the origin in proportion to w. */
  lemma WorldSemantics(ax: Vec4, ay: Vec4, az: Vec4, o: Vec4, v: Vec4)
    ensures Transform(World(ax, ay, az, o), v)
         == Vec4(v.x * ax.x + v.y * ay.x + v.z * az.x + v.w * o.x,
                 v.x * ax.y + v.y * ay.y + v.z * az.y + v.w * o.y,
                 v.x * ax.z + v.y * ay.z + v.z * az.z + v.w * o.z,
                 v.w)
  {
  }

  /** Three axes of unit length, pairwise perpendicular. */
  predicate Orthonormal(ax: Vec4, ay: Vec4, az: Vec4)
  {
    && Dot(ax, ax) == 1.0 && Dot(ay, ay) == 1.0 && Dot(az, az) == 1.0
    && Dot(ax, ay) == 0.0 && Dot(ay, az) == 0.0 && Dot(ax, az) == 0.0
  }

  /** Row (a, -(o . a)) of a view matrix times the world matrix of the same axes and origin. */
  lemma ViewWorldRow(a: Vec4, ax: Vec4, ay: Vec4, az: Vec4, o: Vec4)
    ensures var w, v := World(ax, ay, az, o), Vec4(a.x, a.y, a.z, -Dot(o, a));
      Vec4(Dot4(v, w.Col(0)), Dot4(v, w.Col(1)), Dot4(v, w.Col(2)), Dot4(v, w.Col(3)))
        == Vec4(Dot(a, ax), Dot(a, ay), Dot(a, az), 0.0)
  {
    var w, v := World(ax, ay, az, o), Vec4(a.x, a.y, a.z, -Dot(o, a));
    assert Dot4(v, w.Col(0)) == Dot(a, ax);
    assert Dot4(v, w.Col(1)) == Dot(a, ay);
    assert Dot4(v, w.Col(2)) == Dot(a, az);
    assert Dot4(v, w.Col(3)) == a.x * o.x + a.y * o.y + a.z * o.z - Dot(o, a);
  }

  /** The view matrix undoes the world matrix built from the same orthonormal axes and origin. */
  lemma ViewInvertsWorld(ax: Vec4, ay: Vec4, az: Vec4, o: Vec4)
    requires Orthonormal(ax, ay, az)
    ensures Multiply(View(ax, ay, az, o), World(ax, ay, az, o)) == Identity()
  {
    ViewWorldRow(ax, ax, ay, az, o);
    ViewWorldRow(ay, ax, ay, az, o);
    ViewWorldRow(az, ax, ay, az, o);
    assert Dot(ay, ax) == Dot(ax, ay) && Dot(az, ax) == Dot(ax, az) && Dot(az, ay) == Dot(ay, az);
  }

  /** The identity inverts to the identity. */
  lemma InverseIdentity()
    ensures InverseDivisor(Identity()) == 1.0
    ensures Inverse(Identity()) == Identity()
  {
  }

  /** A translation inverts to the opposite translation. */
  lemma InverseTranslate(o: Vec4)
    ensures InverseDivisor(Translate(o)) == 1.0
    ensures Inverse(Translate(o)) == Translate(Vec4(-o.x, -o.y, -o.z, o.w))
  {
  }

  /**
   * Transforming a normal (w = 0) by the inverse transpose of a translation keeps its spatial part
   * but yields w = -(o . n), which is not zero in general.
   */
  lemma InverseTransposeTranslateNormal(o: Vec4, n: Vec4)
    requires n.w == 0.0
    ensures InverseDivisor(Translate(o)) == 1.0
    ensures Transform(InverseTranspose(Translate(o)), n) == Vec4(n.x, n.y, n.z, -Dot(o, n))
  {
    InverseTranslate(o);
  }

  /** Perspective moves -z into w: the last row is (0, 0, -1, 0). */
  lemma PerspectiveW(top: real, bottom: real, left: real, right: real, near: real, far: real, v: Vec4)
    requires left != right && top != bottom && near != far
    ensures Transform(Perspective(top, bottom, left, right, near, far), v).w == -v.z
  {
  }

  /**
   * With `near` and `far` the z coordinates of the two planes, the perspective matrix sends the
   * corners of the near rectangle to the clip-space bounds (x' = +-w', y' = +-w', z' = w') and
   * points on the far plane to z' = -w'.
   */
  lemma PerspectiveMapsFrustum(top: real, bottom: real, left: real, right: real, near: real, far: real, x: real, y: real)
    requires left != right && top != bottom && near != far
    ensures var m := Perspective(top, bottom, left, right, near, far);
            var l := Transform(m, Vec4(left, bottom, near, 1.0));
            var r := Transform(m, Vec4(right, top, near, 1.0));
            var f := Transform(m, Vec4(x, y, far, 1.0));
            && l.x == -l.w && l.y == -l.w && l.z == l.w
            && r.x == r.w && r.y == r.w && r.z == r.w
            && f.z == -f.w
  {
    var m := Perspective(top, bottom, left, right, near, far);
    PerspectiveEdges(left, right, near, m.r0.x, m.r0.z);
    PerspectiveEdges(bottom, top, near, m.r1.y, m.r1.z);
    PerspectiveZ(far, near, m.r2);
  }

  /** The scale a and skew c of one screen axis of the perspective matrix at the two edges of the near rectangle. */
  lemma PerspectiveEdges(lo: real, hi: real, near: real, a: real, c: real)
    requires lo != hi
    requires a == 2.0 * near / (lo - hi) && c == (hi + lo) / (hi - lo)
    ensures a * lo + c * near == near
    ensures a * hi + c * near == -near
  {
    var d := hi - lo;
    assert a == -2.0 * near / d;
    assert a * lo + c * near == (-2.0 * near * lo + near * (hi + lo)) / d;
    assert a * hi + c * near == (-2.0 * near * hi + near * (hi + lo)) / d;
  }

  /** The depth row of the perspective matrix at the near and far planes. */
  lemma PerspectiveZ(far: real, near: real, row: Vec4)
    requires far != near
    requires row.x == 0.0 && row.y == 0.0 && row.z == (far + near) / (far - near) && row.w == 2.0 * far * near / (near - far)
    ensures forall u, v :: Dot4(row, Vec4(u, v, near, 1.0)) == -near
    ensures forall u, v :: Dot4(row, Vec4(u, v, far, 1.0)) == far
  {
    var d := far - near;
    assert row.w == -2.0 * far * near / d;
    assert (far + near) / d * near + -2.0 * far * near / d == ((far + near) * near - 2.0 * far * near) / d;
    assert (far + near) / d * far + -2.0 * far * near / d == ((far + near) * far - 2.0 * far * near) / d;
  }

  /**
   * For points (w = 1) Orthographic sends left/right to x = -1/1, bottom/top to y = -1/1 and
   * z = -near/-far to -1/1, and keeps w = 1.
   */
  lemma OrthographicBounds(top: real, bottom: real, left: real, right: real, near: real, far: real, x: real, y: real, z: real)
    requires left != right && top != bottom && near != far
    ensures var m := Orthographic(top, bottom, left, right, near, far);
            && Transform(m, Vec4(left, y, z, 1.0)).x == -1.0 && Transform(m, Vec4(right, y, z, 1.0)).x == 1.0
            && Transform(m, Vec4(x, bottom, z, 1.0)).y == -1.0 && Transform(m, Vec4(x, top, z, 1.0)).y == 1.0
            && Transform(m, Vec4(x, y, -near, 1.0)).z == -1.0 && Transform(m, Vec4(x, y, -far, 1.0)).z == 1.0
            && Transform(m, Vec4(x, y, z, 1.0)).w == 1.0
  {
    var m := Orthographic(top, bottom, left, right, near, far);
    var dx, dy, dz := right - left, top - bottom, near - far;
    assert m.r0.x == 2.0 / dx && m.r0.w == -(right + left) / dx;
    assert m.r1.y == 2.0 / dy && m.r1.w == -(top + bottom) / dy;
    assert m.r2.z == 2.0 / dz && m.r2.w == (far + near) / dz;
    assert Transform(m, Vec4(left, y, z, 1.0)).x == (2.0 * left - (right + left)) / dx;
    assert Transform(m, Vec4(right, y, z, 1.0)).x == (2.0 * right - (right + left)) / dx;
    assert Transform(m, Vec4(x, bottom, z, 1.0)).y == (2.0 * bottom - (top + bottom)) / dy;
    assert Transform(m, Vec4(x, top, z, 1.0)).y == (2.0 * top - (top + bottom)) / dy;
    assert Transform(m, Vec4(x, y, -near, 1.0)).z == (-2.0 * near + (far + near)) / dz;
    assert Transform(m, Vec4(x, y, -far, 1.0)).z == (-2.0 * far + (far + near)) / dz;
  }
}
