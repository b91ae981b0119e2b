/** Three-component vectors over exact reals: the part of the tracer's `vec3`
    type that the diamond intersection test uses (sum, difference, negation,
    scaling, dot and cross product, length, normalisation), together with the
    `fabs` and `std::min` helpers it calls.

    Square roots cannot be computed over `real`, so every operation that needs
    one (`length()`, `unit_vector`) takes the square-root function as a
    parameter `sqrt`, constrained by `IsSqrt`.

    A product of a term with itself is written `k * Id(k)` (see `Sq`, `Dot`).
    The value is the same; the solver keeps such a square as a product of two
    factors and reasons about it through the product lemmas below, which are
    stated for independent factors. `SqProduct` turns a square back into a
    plain product where an algebraic identity is needed. */
module Vectors {

  datatype Vec3 = Vec3(x: real, y: real, z: real)

  const Zero: Vec3 := Vec3(0.0, 0.0, 0.0)

  function Id(k: real): real { k }

  /** `k * k`: never negative, and positive unless `k` is zero. */
  function Sq(k: real): (r: real)
    ensures 0.0 <= r
    ensures k != 0.0 ==> 0.0 < r
  {
    SquareSign(k);
    k * Id(k)
  }

  function Add(u: Vec3, v: Vec3): Vec3 { Vec3(u.x + v.x, u.y + v.y, u.z + v.z) }

  function Sub(u: Vec3, v: Vec3): Vec3 { Vec3(u.x - v.x, u.y - v.y, u.z - v.z) }

  function Neg(v: Vec3): Vec3 { Vec3(-v.x, -v.y, -v.z) }

  /** `v * k` */
  function Scale(v: Vec3, k: real): Vec3 { Vec3(v.x * k, v.y * k, v.z * k) }

  /** `dot(u, v)`, `u.x * v.x + u.y * v.y + u.z * v.z`; the `Id` only keeps
      `Dot(v, v)` a product of two separate factors for the solver (see the
      module comment). */
  function Dot(u: Vec3, v: Vec3): real { u.x * Id(v.x) + u.y * Id(v.y) + u.z * Id(v.z) }

  lemma DotZero(u: Vec3)
    ensures Dot(u, Zero) == 0.0
  {}

  /** Only a non-zero vector has a non-zero dot product. */
  lemma DotNonZero(u: Vec3, v: Vec3)
    ensures Dot(u, v) != 0.0 ==> u != Zero && v != Zero
  {
    DotZero(u);
    ZeroDot(v);
  }

  lemma ZeroDot(v: Vec3)
    ensures Dot(Zero, v) == 0.0
  {}

  function Cross(u: Vec3, v: Vec3): Vec3 {
    Vec3(u.y * v.z - u.z * v.y, u.z * v.x - u.x * v.z, u.x * v.y - u.y * v.x)
  }

  /** `fabs` */
  function Abs(k: real): (r: real)
    ensures 0.0 <= r && (r == k || r == -k)
  {
    if k < 0.0 then -k else k
  }

  /** `std::min`, which returns its first argument unless the second is smaller */
  function Min(p: real, q: real): (r: real)
    ensures r <= p && r <= q && (r == p || r == q)
  {
    if q < p then q else p
  }

  /** The squared Euclidean length `dot(v, v)`: never negative, and zero only
      for the zero vector. */
  function SqLength(v: Vec3): (r: real)
    ensures r == Dot(v, v)
    ensures 0.0 <= r
    ensures r == 0.0 <==> v == Zero
  {
    Sq(v.x) + Sq(v.y) + Sq(v.z)
  }

  /** `sqrt` is a square root on the non-negative reals. */
  ghost predicate IsSqrt(sqrt: real -> real) {
    forall k: real :: 0.0 <= k ==> 0.0 <= sqrt(k) && Sq(sqrt(k)) == k
  }

  // ---------------------------------------------------------------------------
  // Products

  lemma MulNonNegative(p: real, q: real)
    requires 0.0 <= p && 0.0 <= q
    ensures 0.0 <= p * q
  {}

  lemma MulPositive(p: real, q: real)
    requires 0.0 < p && 0.0 < q
    ensures 0.0 < p * q
  {}

  lemma MulNegatives(p: real, q: real)
    requires p < 0.0 && q < 0.0
    ensures 0.0 < p * q
  {
    MulPositive(-p, -q);
  }

  lemma MulMonotone(k: real, p: real, q: real)
    requires 0.0 <= k && p <= q
    ensures k * p <= k * q
  {
    MulNonNegative(k, q - p);
  }

  lemma MulStrictMonotone(k: real, p: real, q: real)
    requires 0.0 < k && p < q
    ensures k * p < k * q
  {
    MulPositive(k, q - p);
  }

  lemma MulLess(a: real, b: real, c: real, d: real)
    requires 0.0 <= a < c && 0.0 <= b < d
    ensures a * b < c * d
  {
    MulMonotone(b, a, c);
    MulStrictMonotone(c, b, d);
  }

  /** Dividing by `k` undoes multiplying by it. */
  lemma MulCancel(p: real, k: real)
    requires k != 0.0
    ensures (p * k) / k == p && (p / k) * k == p
  {}

  /** Dividing by a positive number keeps the sign. */
  lemma DivPositive(p: real, a: real)
    requires 0.0 < a
    ensures 0.0 < p / a <==> 0.0 < p
  {
    MulCancel(p, a);
    if 0.0 < p / a {
      MulPositive(p / a, a);
    } else {
      MulNonNegative(-(p / a), a);
    }
  }

  /** Dividing by a positive number keeps the order. */
  lemma DivStrictMonotone(p: real, q: real, a: real)
    requires 0.0 < a && p < q
    ensures p / a < q / a
  {
    MulCancel(p, a);
    MulCancel(q, a);
    if q / a <= p / a {
      MulNonNegative(p / a - q / a, a);
    }
  }

  /** With a positive factor `a`, the sign of `a * c` is the sign of `c`. */
  lemma MulSign(a: real, c: real)
    requires 0.0 < a
    ensures 0.0 < a * c <==> 0.0 < c
  {
    if 0.0 < c {
      MulPositive(a, c);
    } else {
      MulNonNegative(a, -c);
    }
  }

  lemma SquareSign(k: real)
    ensures 0.0 <= k * Id(k)
    ensures k != 0.0 ==> 0.0 < k * Id(k)
  {
    if 0.0 < k {
      MulPositive(k, Id(k));
    } else if k < 0.0 {
      MulNegatives(k, Id(k));
    }
  }

  lemma SqProduct(k: real)
    ensures Sq(k) == k * k
  {}

  lemma SquareStrictMonotone(p: real, q: real)
    requires 0.0 <= p < q
    ensures Sq(p) < Sq(q)
  {
    MulLess(p, Id(p), q, Id(q));
  }

  /** For non-negative reals, comparing values and comparing squares agree. */
  lemma SquareMonotone(p: real, q: real)
    requires 0.0 <= p && 0.0 <= q
    ensures p < q <==> Sq(p) < Sq(q)
  {
    if p < q {
      SquareStrictMonotone(p, q);
    } else if q < p {
      SquareStrictMonotone(q, p);
    }
  }

  lemma NegSquare(k: real)
    ensures Sq(-k) == Sq(k)
  {
    SqProduct(k);
    SqProduct(-k);
  }

  lemma ProductSquare(p: real, q: real)
    ensures Sq(p * q) == Sq(p) * Sq(q)
  {
    SqProduct(p);
    SqProduct(q);
    SqProduct(p * q);
  }

  // ---------------------------------------------------------------------------
  // Lengths

  /** Non-negative square roots are unique. */
  lemma SqrtUnique(sqrt: real -> real, k: real, root: real)
    requires IsSqrt(sqrt)
    requires 0.0 <= root && Sq(root) == k
    ensures sqrt(k) == root
  {
    var q := sqrt(k);
    assert 0.0 <= q && Sq(q) == k;
    SquareMonotone(q, root);
    SquareMonotone(root, q);
  }

  /** `v.length()`: the non-negative number whose square is `dot(v, v)`. */
  function Length(sqrt: real -> real, v: Vec3): (r: real)
    requires IsSqrt(sqrt)
    ensures 0.0 <= r && Sq(r) == SqLength(v)
    ensures r == 0.0 <==> v == Zero
  {
    var sq := SqLength(v);
    var r := sqrt(sq);
    assert 0.0 <= r && Sq(r) == sq;
    r
  }

  /** Comparing lengths is the same as comparing squared lengths, so the
      nearest-point comparisons of the hit test need no square root. */
  lemma LengthLess(sqrt: real -> real, u: Vec3, v: Vec3)
    requires IsSqrt(sqrt)
    ensures Length(sqrt, u) < Length(sqrt, v) <==> SqLength(u) < SqLength(v)
  {
    SquareMonotone(Length(sqrt, u), Length(sqrt, v));
  }

  lemma ScaleSqLength(v: Vec3, k: real)
    ensures SqLength(Scale(v, k)) == Sq(k) * SqLength(v)
  {
    ProductSquare(v.x, k);
    ProductSquare(v.y, k);
    ProductSquare(v.z, k);
  }

  /** Scaling a vector by `k` scales its length by `|k|`. */
  lemma ScaleLength(sqrt: real -> real, v: Vec3, k: real)
    requires IsSqrt(sqrt)
    ensures Length(sqrt, Scale(v, k)) == Abs(k) * Length(sqrt, v)
  {
    var len := Length(sqrt, v);
    ScaledRoot(v, k, len);
    SqrtUnique(sqrt, SqLength(Scale(v, k)), Abs(k) * len);
  }

  lemma ScaledRoot(v: Vec3, k: real, len: real)
    requires 0.0 <= len && Sq(len) == SqLength(v)
    ensures 0.0 <= Abs(k) * len && Sq(Abs(k) * len) == SqLength(Scale(v, k))
  {
    ProductSquare(Abs(k), len);
    AbsSquare(k);
    ScaleSqLength(v, k);
    MulNonNegative(Abs(k), len);
  }

  lemma AbsSquare(k: real)
    ensures Sq(Abs(k)) == Sq(k)
  {
    if k < 0.0 {
      NegSquare(k);
    }
  }

  /** Scaling by a non-zero factor keeps a vector non-zero. */
  lemma ScaleZero(v: Vec3, k: real)
    requires k != 0.0
    ensures Scale(v, k) == Zero <==> v == Zero
  {
    MulCancel(v.x, k);
    MulCancel(v.y, k);
    MulCancel(v.z, k);
  }

  /** `unit_vector(v)`: a vector of length one pointing the same way as `v`. */
  function UnitVector(sqrt: real -> real, v: Vec3): (u: Vec3)
    requires IsSqrt(sqrt)
    requires v != Zero
    ensures SqLength(u) == 1.0
    ensures Cross(u, v) == Zero
    ensures Dot(u, v) > 0.0
  {
    var len := Length(sqrt, v);
    var k := 1.0 / len;
    UnitVectorFacts(v, len, k);
    Scale(v, k)
  }

  lemma UnitVectorFacts(v: Vec3, len: real, k: real)
    requires 0.0 < len && Sq(len) == SqLength(v)
    requires k == 1.0 / len
    ensures SqLength(Scale(v, k)) == 1.0
    ensures Cross(Scale(v, k), v) == Zero
    ensures Dot(Scale(v, k), v) > 0.0
  {
    UnitLength(v, len, k);
    ScaleDot(v, k);
    MulPositive(k, SqLength(v));
  }

  lemma UnitLength(v: Vec3, len: real, k: real)
    requires 0.0 < len && Sq(len) == SqLength(v)
    requires k == 1.0 / len
    ensures SqLength(Scale(v, k)) == 1.0
  {
    MulCancel(1.0, len);
    ScaleSqLength(v, k);
    ProductSquare(k, len);
  }

  lemma ScaleDot(v: Vec3, k: real)
    ensures Dot(Scale(v, k), v) == k * SqLength(v)
  {}

  /** Lagrange's identity for three-component vectors, written out on their
      coordinates. */
  lemma LagrangeIdentity(a: real, b: real, c: real, x: real, y: real, z: real)
    ensures (a*a + b*b + c*c) * (x*x + y*y + z*z) - (a*x + b*y + c*z) * (a*x + b*y + c*z)
         == (b*z - c*y) * (b*z - c*y) + (c*x - a*z) * (c*x - a*z) + (a*y - b*x) * (a*y - b*x)
  {}

  lemma ProductSelfNonNegative(k: real)
    ensures k * k >= 0.0
  {}

  /** The Cauchy-Schwarz inequality on coordinates. */
  lemma CauchySchwarzCoordinates(a: real, b: real, c: real, x: real, y: real, z: real)
    ensures (a*x + b*y + c*z) * (a*x + b*y + c*z) <= (a*a + b*b + c*c) * (x*x + y*y + z*z)
  {
    LagrangeIdentity(a, b, c, x, y, z);
    ProductSelfNonNegative(b*z - c*y);
    ProductSelfNonNegative(c*x - a*z);
    ProductSelfNonNegative(a*y - b*x);
  }

  /** The Cauchy-Schwarz inequality `dot(u, v)^2 <= |u|^2 |v|^2`. */
  lemma CauchySchwarz(u: Vec3, v: Vec3)
    ensures Sq(Dot(u, v)) <= SqLength(u) * SqLength(v)
  {
    var a, b, c, x, y, z := u.x, u.y, u.z, v.x, v.y, v.z;
    CauchySchwarzCoordinates(a, b, c, x, y, z);
    SqProduct(a); SqProduct(b); SqProduct(c);
    SqProduct(x); SqProduct(y); SqProduct(z);
    SqProduct(Dot(u, v));
    assert Dot(u, v) == a*x + b*y + c*z;
  }
}
