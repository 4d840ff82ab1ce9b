/** Three-component vectors and the arithmetic of k_vector.h, over the reals.
    The C code works on `float`; here every component is a `real`, so rounding,
    NaN and infinities are not part of the model. Length, normalisation and
    division by a scalar (which need `sqrt` or can divide by zero) are not
    defined here: the integrator receives normalisation as a parameter. */
module Vector {

  datatype Vec3f = Vec3f(x: real, y: real, z: real)

  const Zero: Vec3f := Vec3f(0.0, 0.0, 0.0)

  /** True when the squared length is not zero, that is, for every vector
      but the zero vector. */
  predicate NonZero(a: Vec3f) {
    Dot(a, a) != 0.0
  }

  function Add(a: Vec3f, b: Vec3f): Vec3f {
    Vec3f(a.x + b.x, a.y + b.y, a.z + b.z)
  }

  function Sub(a: Vec3f, b: Vec3f): Vec3f {
    Vec3f(a.x - b.x, a.y - b.y, a.z - b.z)
  }

  function AddScalar(a: Vec3f, b: real): Vec3f {
    Vec3f(a.x + b, a.y + b, a.z + b)
  }

  function SubScalar(a: Vec3f, b: real): Vec3f {
    Vec3f(a.x - b, a.y - b, a.z - b)
  }

  function MulScalar(a: Vec3f, b: real): Vec3f {
    Vec3f(a.x * b, a.y * b, a.z * b)
  }

  function Dot(a: Vec3f, b: Vec3f): real {
    a.x * b.x + a.y * b.y + a.z * b.z
  }

  function Cross(a: Vec3f, b: Vec3f): Vec3f {
    Vec3f(a.y * b.z - a.z * b.y,
          a.z * b.x - a.x * b.z,
          a.x * b.y - a.y * b.x)
  }

  // ---- algebraic laws ----------------------------------------------------

  lemma AddCommutative(a: Vec3f, b: Vec3f)
    ensures Add(a, b) == Add(b, a)
  {
  }

  /** Subtracting what was added gives the original vector back. */
  lemma SubUndoesAdd(a: Vec3f, b: Vec3f)
    ensures Sub(Add(a, b), b) == a
  {
  }

  /** Adding and subtracting the same scalar are mutual inverses. */
  lemma ScalarShiftsInverse(a: Vec3f, s: real)
    ensures SubScalar(AddScalar(a, s), s) == a
    ensures AddScalar(SubScalar(a, s), s) == a
  {
  }

  lemma MulScalarOne(a: Vec3f)
    ensures MulScalar(a, 1.0) == a
  {
  }

  /** Scaling by -1 negates every component: the normal flip of the integrator. */
  lemma MulScalarMinusOne(a: Vec3f)
    ensures MulScalar(a, -1.0) == Vec3f(-a.x, -a.y, -a.z)
    ensures Add(a, MulScalar(a, -1.0)) == Zero
    ensures Dot(MulScalar(a, -1.0), MulScalar(a, -1.0)) == Dot(a, a)
  {
  }

  lemma DotCommutative(a: Vec3f, b: Vec3f)
    ensures Dot(a, b) == Dot(b, a)
  {
  }

  /** Scaling one operand scales the dot product. */
  lemma DotMulScalar(a: Vec3f, b: Vec3f, s: real)
    ensures Dot(MulScalar(a, s), b) == s * Dot(a, b)
  {
  }

  /** The squared length is never negative; the sphere test uses it as the
      leading coefficient of its quadratic. */
  lemma DotSelfNonNegative(a: Vec3f)
    ensures Dot(a, a) >= 0.0
  {
    SquareNonNegative(a.x);
    SquareNonNegative(a.y);
    SquareNonNegative(a.z);
  }

  lemma SquareNonNegative(r: real)
    ensures r * r >= 0.0
  {
    if r != 0.0 {
      SquarePositive(r);
    }
  }

  lemma SquarePositive(r: real)
    requires r != 0.0
    ensures r * r > 0.0
  {
    if r < 0.0 {
      assert r * r == (-r) * (-r);
    }
  }

  /** The cross product is orthogonal to both operands. */
  lemma CrossOrthogonal(a: Vec3f, b: Vec3f)
    ensures Dot(Cross(a, b), a) == 0.0
    ensures Dot(Cross(a, b), b) == 0.0
  {
  }

  lemma CrossAntiCommutative(a: Vec3f, b: Vec3f)
    ensures Cross(a, b) == MulScalar(Cross(b, a), -1.0)
  {
  }

  /** The scalar triple product may be read either way round; the
      Moller-Trumbore determinant is the triple product of the ray direction
      with the triangle's two edges. */
  lemma TripleProduct(a: Vec3f, b: Vec3f, c: Vec3f)
    ensures Dot(a, Cross(b, c)) == Dot(Cross(a, b), c)
    ensures Dot(a, Cross(b, c)) == Dot(b, Cross(c, a))
  {
    var t := a.x * b.y * c.z - a.x * b.z * c.y + a.y * b.z * c.x - a.y * b.x * c.z + a.z * b.x * c.y - a.z * b.y * c.x;
    assert Dot(a, Cross(b, c)) == t;
    assert Dot(Cross(a, b), c) == t;
    assert Dot(b, Cross(c, a)) == t;
  }
}
