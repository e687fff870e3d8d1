/** 4x4 transforms. The node transforms of the scene graph are kept as an
    abstract monoid: a transform is the sequence of matrices whose product it
    stands for, composition is concatenation and the identity is the empty
    product. Concrete column-major matrices (glam's layout) are only needed where
    the entries are read, for the 3x4 row-major instance matrices. */
module Transforms {
  import opened Vectors

  /** A 4x4 matrix given by its four columns, as glam stores it. */
  datatype Matrix = Matrix(c0: Vec4, c1: Vec4, c2: Vec4, c3: Vec4)

  function Component(v: Vec4, i: nat): real
    requires i < 4
  {
    if i == 0 then v.x else if i == 1 then v.y else if i == 2 then v.z else v.w
  }

  function Column(m: Matrix, c: nat): Vec4
    requires c < 4
  {
    if c == 0 then m.c0 else if c == 1 then m.c1 else if c == 2 then m.c2 else m.c3
  }

  /** The entry in row `r` and column `c`. */
  function Entry(m: Matrix, r: nat, c: nat): real
    requires r < 4 && c < 4
  {
    Component(Column(m, c), r)
  }

  const IDENTITY_MATRIX := Matrix(Vec4(1.0, 0.0, 0.0, 0.0), Vec4(0.0, 1.0, 0.0, 0.0),
                                  Vec4(0.0, 0.0, 1.0, 0.0), Vec4(0.0, 0.0, 0.0, 1.0))

  /** The transform a node or a sub-tree stands for: the product, left to
      right, of `factors`. */
  datatype Mat4 = Mat4(factors: seq<Matrix>)

  const IDENTITY := Mat4([])

  function Of(m: Matrix): Mat4 {
    Mat4([m])
  }

  /** `a * b`: the product of `a`'s factors followed by `b`'s. */
  function Mul(a: Mat4, b: Mat4): (r: Mat4)
    ensures |r.factors| == |a.factors| + |b.factors|
    ensures r.factors[..|a.factors|] == a.factors && r.factors[|a.factors|..] == b.factors
  {
    Mat4(a.factors + b.factors)
  }

  /** The monoid laws: an identity on both sides and associativity. */
  lemma MonoidLaws(a: Mat4, b: Mat4, c: Mat4)
    ensures Mul(IDENTITY, a) == a && Mul(a, IDENTITY) == a
    ensures Mul(Mul(a, b), c) == Mul(a, Mul(b, c))
  {
    assert [] + a.factors == a.factors;
    assert a.factors + [] == a.factors;
    assert (a.factors + b.factors) + c.factors == a.factors + (b.factors + c.factors);
  }

  /** The concrete value of a column vector under `m`. */
  function MatVec(m: Matrix, v: Vec4): Vec4 {
    Vec4(
      m.c0.x * v.x + m.c1.x * v.y + m.c2.x * v.z + m.c3.x * v.w,
      m.c0.y * v.x + m.c1.y * v.y + m.c2.y * v.z + m.c3.y * v.w,
      m.c0.z * v.x + m.c1.z * v.y + m.c2.z * v.z + m.c3.z * v.w,
      m.c0.w * v.x + m.c1.w * v.y + m.c2.w * v.z + m.c3.w * v.w)
  }

  function MatMul(a: Matrix, b: Matrix): Matrix {
    Matrix(MatVec(a, b.c0), MatVec(a, b.c1), MatVec(a, b.c2), MatVec(a, b.c3))
  }

  /** The concrete matrix a transform evaluates to, multiplying left to
      right from the identity. */
  function Eval(t: Mat4): Matrix
    decreases |t.factors|
  {
    if |t.factors| == 0 then IDENTITY_MATRIX
    else MatMul(Eval(Mat4(t.factors[..|t.factors| - 1])), t.factors[|t.factors| - 1])
  }

  /** Evaluation follows the product one factor at a time: appending a factor
      multiplies the value on the right. */
  lemma EvalMulOf(t: Mat4, m: Matrix)
    ensures Eval(Mul(t, Of(m))) == MatMul(Eval(t), m)
  {
    var f := Mul(t, Of(m)).factors;
    assert f[..|f| - 1] == t.factors;
  }

  /** glam's `to_cols_array`: the sixteen entries column after column. */
  function ColsArray(m: Matrix): (r: seq<real>)
    ensures |r| == 16
  {
    [m.c0.x, m.c0.y, m.c0.z, m.c0.w, m.c1.x, m.c1.y, m.c1.z, m.c1.w,
     m.c2.x, m.c2.y, m.c2.z, m.c2.w, m.c3.x, m.c3.y, m.c3.z, m.c3.w]
  }

  function Transpose(m: Matrix): Matrix {
    Matrix(Vec4(m.c0.x, m.c1.x, m.c2.x, m.c3.x), Vec4(m.c0.y, m.c1.y, m.c2.y, m.c3.y),
           Vec4(m.c0.z, m.c1.z, m.c2.z, m.c3.z), Vec4(m.c0.w, m.c1.w, m.c2.w, m.c3.w))
  }

  /** The instance matrix of the top-level structure: the first twelve
      entries of the transposed matrix's column array. */
  function InstanceMatrix(m: Matrix): (r: seq<real>)
    ensures |r| == 12
  {
    ColsArray(Transpose(m))[..12]
  }

  /** Entry `4r + c` of the instance matrix is row `r`, column `c` of the
      transform: it is the top three rows in row-major order, the layout of
      `VkTransformMatrixKHR`. */
  lemma InstanceMatrixIsRowMajor(m: Matrix, r: nat, c: nat)
    requires r < 3 && c < 4
    ensures InstanceMatrix(m)[4 * r + c] == Entry(m, r, c)
  {
  }

  /** Entry `4r + c` of the relayout `[r0[0], r1[0], r2[0], r3[0], r0[1], ...]`
      of a glTF matrix given as four column arrays. */
  function RelayoutColumns(cols: seq<seq<real>>): (r: seq<real>)
    requires |cols| == 4 && forall i :: 0 <= i < 4 ==> |cols[i]| == 4
    ensures |r| == 12
    ensures forall i :: 0 <= i < 12 ==> r[i] == cols[i % 4][i / 4]
  {
    [cols[0][0], cols[1][0], cols[2][0], cols[3][0],
     cols[0][1], cols[1][1], cols[2][1], cols[3][1],
     cols[0][2], cols[1][2], cols[2][2], cols[3][2]]
  }

  /** The column arrays of a matrix. */
  function ColumnArrays(m: Matrix): (r: seq<seq<real>>)
    ensures |r| == 4 && forall i :: 0 <= i < 4 ==> |r[i]| == 4
  {
    [[m.c0.x, m.c0.y, m.c0.z, m.c0.w], [m.c1.x, m.c1.y, m.c1.z, m.c1.w],
     [m.c2.x, m.c2.y, m.c2.z, m.c2.w], [m.c3.x, m.c3.y, m.c3.z, m.c3.w]]
  }

  /** The example applications' hand-written relayout and the asset loader's
      transpose-and-truncate produce the same twelve numbers. */
  lemma RelayoutsAgree(m: Matrix)
    ensures RelayoutColumns(ColumnArrays(m)) == InstanceMatrix(m)
  {
  }

  /** A matrix whose bottom row is (0, 0, 0, 1), as every affine transform's is. */
  predicate IsAffine(m: Matrix) {
    m.c0.w == 0.0 && m.c1.w == 0.0 && m.c2.w == 0.0 && m.c3.w == 1.0
  }

  /** The affine matrix a 3x4 row-major instance matrix stands for. */
  function FromInstanceMatrix(a: seq<real>): (m: Matrix)
    requires |a| == 12
    ensures IsAffine(m)
  {
    Matrix(Vec4(a[0], a[4], a[8], 0.0), Vec4(a[1], a[5], a[9], 0.0),
           Vec4(a[2], a[6], a[10], 0.0), Vec4(a[3], a[7], a[11], 1.0))
  }

  /** The relayout loses exactly the bottom row: it is inverted by
      `FromInstanceMatrix` on affine matrices and on nothing else, and every
      twelve numbers are the instance matrix of some affine transform. */
  lemma InstanceMatrixRoundTrip(m: Matrix, a: seq<real>)
    requires |a| == 12
    ensures FromInstanceMatrix(InstanceMatrix(m)) == m <==> IsAffine(m)
    ensures InstanceMatrix(FromInstanceMatrix(a)) == a
  {
    var b := InstanceMatrix(FromInstanceMatrix(a));
    assert forall i :: 0 <= i < 12 ==> b[i] == a[i];
  }

  /** The identity's instance matrix is the fixed one the Cornell box example
      writes for its single instance. */
  lemma IdentityInstanceMatrix()
    ensures InstanceMatrix(IDENTITY_MATRIX) == [1.0, 0.0, 0.0, 0.0, 0.0, 1.0, 0.0, 0.0, 0.0, 0.0, 1.0, 0.0]
  {
  }
}
