/** The geometry of the diamond solid: the ray and diamond values, the vertices
    that `diamond::hit` derives from the centre and the height, the
    sign-of-cross-products triangle test `diamond::point_in_triangle`, and the
    thirteen faces the hit test crosses the ray with, in the order it visits
    them (six bottom triangles, six side quads, the hexagonal top cap). */
module DiamondShape {
  import opened Vectors
  import opened Planes

  /** A ray `origin + t * direction`. */
  datatype Ray = Ray(origin: Vec3, direction: Vec3)

  /** A diamond: its centre, the height from the bottom apex to the centre
      (also the radius of the middle ring), and the material it is made of. The
      material is only handed on to the hit record, so it is any type `M`. */
  datatype Diamond<M> = Diamond(center: Vec3, height: real, mat: M)

  // ---------------------------------------------------------------------------
  // Angles at multiples of 60 degrees

  /** `cos(i * 60°)`, exact. */
  function Cos60(i: int): real
    requires 0 <= i < 6
  {
    if i == 0 then 1.0
    else if i == 1 || i == 5 then 0.5
    else if i == 2 || i == 4 then -0.5
    else -1.0
  }

  /** `sin(60°) = sqrt(3) / 2`, the one irrational value the ring needs. */
  function SinOf60(sqrt: real -> real): (s: real)
    requires IsSqrt(sqrt)
    ensures 0.0 < s && Sq(s) == 0.75
  {
    sqrt(0.75)
  }

  /** `sin(i * 60°)`. */
  function Sin60(sqrt: real -> real, i: int): real
    requires IsSqrt(sqrt)
    requires 0 <= i < 6
  {
    if i == 0 || i == 3 then 0.0
    else if i == 1 || i == 2 then SinOf60(sqrt)
    else -SinOf60(sqrt)
  }

  /** Every table entry is a point of the unit circle. */
  lemma SixthOnUnitCircle(sqrt: real -> real, i: int)
    requires IsSqrt(sqrt)
    requires 0 <= i < 6
    ensures Sq(Cos60(i)) + Sq(Sin60(sqrt, i)) == 1.0
  {
    var s := SinOf60(sqrt);
    assert Sq(-s) == Sq(s) by { NegSquare(s); }
  }

  /** Entry `i + 1` is entry `i` turned by 60 degrees: the table really lists
      cosines and sines of consecutive multiples of 60 degrees. */
  lemma SixthRotation(sqrt: real -> real, i: int)
    requires IsSqrt(sqrt)
    requires 0 <= i < 6
    ensures Cos60((i + 1) % 6) == Cos60(i) * 0.5 - Sin60(sqrt, i) * SinOf60(sqrt)
    ensures Sin60(sqrt, (i + 1) % 6) == Sin60(sqrt, i) * 0.5 + Cos60(i) * SinOf60(sqrt)
  {
    var s := SinOf60(sqrt);
    SqProduct(s);
  }

  // ---------------------------------------------------------------------------
  // Vertices (diamond.h:101-130)

  /** `bottom_pt`: `height` below the centre. */
  function BottomApex<M>(d: Diamond<M>): (p: Vec3)
    ensures p.x == d.center.x && p.z == d.center.z
  {
    Vec3(d.center.x, d.center.y - d.height, d.center.z)
  }

  /** `center_top`: the centre of the top cap, `height / 2` above the centre. */
  function TopCentroid<M>(d: Diamond<M>): (p: Vec3)
    ensures p.x == d.center.x && p.z == d.center.z
  {
    Vec3(d.center.x, d.center.y + d.height / 2.0, d.center.z)
  }

  /** The point at angle (`cos`, `sin`) of the horizontal circle of radius
      `radius` around `center`, lifted by `lift`; angles run counter-clockwise
      seen from above, so the z coordinate is `-radius * sin`. */
  function RingPoint(center: Vec3, radius: real, lift: real, cos: real, sin: real): Vec3 {
    Vec3(center.x + radius * cos, center.y + lift, center.z + radius * -sin)
  }

  /** `middle_pt[i]`: the ring of radius `height` through the centre. */
  function MiddleVertex<M>(sqrt: real -> real, d: Diamond<M>, i: int): (v: Vec3)
    requires IsSqrt(sqrt)
    requires 0 <= i < 6
    ensures v.y == d.center.y
  {
    RingPoint(d.center, d.height, 0.0, Cos60(i), Sin60(sqrt, i))
  }

  /** `top_pt[i]`: the ring of radius `height / 2`, `height / 2` above the centre. */
  function TopVertex<M>(sqrt: real -> real, d: Diamond<M>, i: int): (v: Vec3)
    requires IsSqrt(sqrt)
    requires 0 <= i < 6
    ensures v.y == TopCentroid(d).y
  {
    RingPoint(d.center, d.height / 2.0, d.height / 2.0, Cos60(i), Sin60(sqrt, i))
  }

  /** The top ring as a sequence, in the order of `top_pt`. */
  function TopRing<M>(sqrt: real -> real, d: Diamond<M>): (ring: seq<Vec3>)
    requires IsSqrt(sqrt)
    ensures |ring| == 6
    ensures forall i :: 0 <= i < 6 ==> ring[i] == TopVertex(sqrt, d, i)
  {
    [TopVertex(sqrt, d, 0), TopVertex(sqrt, d, 1), TopVertex(sqrt, d, 2),
     TopVertex(sqrt, d, 3), TopVertex(sqrt, d, 4), TopVertex(sqrt, d, 5)]
  }

  /** A turn by 60 degrees about the vertical axis, counter-clockwise seen
      from above (from `+y`). It keeps the height and the horizontal length,
      and moves the horizontal part by the angle whose cosine is `1/2` and
      whose sine is `sin(60°)`: the horizontal dot product of the vector
      with its image is half the squared horizontal length, and the vertical
      component of their cross product is positive. */
  function TurnAboutY(sqrt: real -> real, v: Vec3): (w: Vec3)
    requires IsSqrt(sqrt)
    ensures w.y == v.y
    ensures w.x * w.x + w.z * w.z == v.x * v.x + v.z * v.z
    ensures v.x * w.x + v.z * w.z == 0.5 * (v.x * v.x + v.z * v.z)
    ensures Cross(v, w).y == SinOf60(sqrt) * (v.x * v.x + v.z * v.z)
  {
    var s := SinOf60(sqrt);
    SqProduct(s);
    TurnCoordinates(v.x, v.z, s, v.x * 0.5 + v.z * s, v.z * 0.5 - v.x * s);
    Vec3(v.x * 0.5 + v.z * s, v.y, v.z * 0.5 - v.x * s)
  }

  lemma TurnCoordinates(x: real, z: real, s: real, x': real, z': real)
    requires s * s == 0.75
    requires x' == x * 0.5 + z * s && z' == z * 0.5 - x * s
    ensures x' * x' + z' * z' == x * x + z * z
    ensures x * x' + z * z' == 0.5 * (x * x + z * z)
    ensures z * x' - x * z' == s * (x * x + z * z)
  {
    assert x' * x' + z' * z' == (x * x + z * z) * (0.25 + s * s);
  }

  /** The six points of each ring run counter-clockwise seen from above:
      from each point to the next, the offset from the centre of its ring
      turns by 60 degrees about the vertical axis. The first point has the
      largest x coordinate of its ring (for a positive height, strictly). */
  lemma RingsCounterClockwise<M>(sqrt: real -> real, d: Diamond<M>, i: int)
    requires IsSqrt(sqrt)
    requires 0 <= i < 6
    ensures Sub(MiddleVertex(sqrt, d, (i + 1) % 6), d.center)
         == TurnAboutY(sqrt, Sub(MiddleVertex(sqrt, d, i), d.center))
    ensures Sub(TopVertex(sqrt, d, (i + 1) % 6), TopCentroid(d))
         == TurnAboutY(sqrt, Sub(TopVertex(sqrt, d, i), TopCentroid(d)))
    ensures 0.0 <= d.height ==>
      MiddleVertex(sqrt, d, i).x <= MiddleVertex(sqrt, d, 0).x && TopVertex(sqrt, d, i).x <= TopVertex(sqrt, d, 0).x
    ensures 0.0 < d.height && i != 0 ==>
      MiddleVertex(sqrt, d, i).x < MiddleVertex(sqrt, d, 0).x && TopVertex(sqrt, d, i).x < TopVertex(sqrt, d, 0).x
  {
    var j := (i + 1) % 6;
    SixthRotation(sqrt, i);
    RingTurn(sqrt, d.center, d.height, 0.0, Cos60(i), Sin60(sqrt, i), Cos60(j), Sin60(sqrt, j));
    RingTurn(sqrt, d.center, d.height / 2.0, d.height / 2.0, Cos60(i), Sin60(sqrt, i), Cos60(j), Sin60(sqrt, j));
    FirstLargestX(d.center.x, d.height, Cos60(i), i != 0);
    FirstLargestX(d.center.x, d.height / 2.0, Cos60(i), i != 0);
  }

  /** `x + r cos` is largest at `cos == 1` when `r` is not negative, and
      strictly so when `r` is positive and the cosine is below 1. */
  lemma FirstLargestX(x: real, r: real, cos: real, other: bool)
    requires cos <= 1.0 && (other ==> cos < 1.0)
    ensures 0.0 <= r ==> x + r * cos <= x + r * 1.0
    ensures 0.0 < r && other ==> x + r * cos < x + r * 1.0
  {
    if 0.0 <= r {
      MulMonotone(r, cos, 1.0);
    }
    if 0.0 < r && other {
      MulStrictMonotone(r, cos, 1.0);
    }
  }

  /** Turning the angle of a ring point by 60 degrees turns its offset from
      the centre of the ring by 60 degrees. */
  lemma RingTurn(sqrt: real -> real, center: Vec3, radius: real, lift: real, cos: real, sin: real, cos': real, sin': real)
    requires IsSqrt(sqrt)
    requires cos' == cos * 0.5 - sin * SinOf60(sqrt) && sin' == sin * 0.5 + cos * SinOf60(sqrt)
    ensures var hub := Vec3(center.x, center.y + lift, center.z);
      Sub(RingPoint(center, radius, lift, cos', sin'), hub) == TurnAboutY(sqrt, Sub(RingPoint(center, radius, lift, cos, sin), hub))
  {
    TurnAngle(radius, cos, sin, cos', sin', SinOf60(sqrt), radius * cos, radius * -sin);
  }

  lemma TurnAngle(r: real, c: real, sn: real, c': real, sn': real, s: real, x: real, z: real)
    requires c' == c * 0.5 - sn * s && sn' == sn * 0.5 + c * s
    requires x == r * c && z == r * -sn
    ensures r * c' == x * 0.5 + z * s
    ensures r * -sn' == z * 0.5 - x * s
  {}

  /** The loop of diamond.h:115-130, filling the two six-element arrays. */
  method RingVertices<M>(sqrt: real -> real, d: Diamond<M>) returns (middle: array<Vec3>, top: array<Vec3>)
    requires IsSqrt(sqrt)
    ensures fresh(middle) && fresh(top)
    ensures middle.Length == 6 && top.Length == 6
    ensures forall i :: 0 <= i < 6 ==> middle[i] == MiddleVertex(sqrt, d, i)
    ensures forall i :: 0 <= i < 6 ==> top[i] == TopVertex(sqrt, d, i)
  {
    middle := new Vec3[6](_ => Zero);
    top := new Vec3[6](_ => Zero);
    for i := 0 to 6
      invariant forall j :: 0 <= j < i ==> middle[j] == MiddleVertex(sqrt, d, j)
      invariant forall j :: 0 <= j < i ==> top[j] == TopVertex(sqrt, d, j)
    {
      var cos := Cos60(i);
      var sin := Sin60(sqrt, i);
      middle[i] := RingPoint(d.center, d.height, 0.0, cos, sin);
      top[i] := RingPoint(d.center, d.height / 2.0, d.height / 2.0, cos, sin);
    }
  }

  /** A ring point is at squared distance `radius^2 + lift^2` from the centre
      of its circle. */
  lemma RingPointDistance(center: Vec3, radius: real, lift: real, cos: real, sin: real)
    requires Sq(cos) + Sq(sin) == 1.0
    ensures SqLength(Sub(RingPoint(center, radius, lift, cos, sin), center)) == Sq(radius) + Sq(lift)
  {
    var v := Sub(RingPoint(center, radius, lift, cos, sin), center);
    assert v == Vec3(radius * cos, lift, -(radius * sin));
    ProductSquare(radius, cos);
    ProductSquare(radius, sin);
    NegSquare(radius * sin);
    assert Sq(radius) * Sq(cos) + Sq(radius) * Sq(sin) == Sq(radius) * (Sq(cos) + Sq(sin));
  }

  /** Every vertex lies in the closed ball of radius `|height|` around the
      centre, the bounding sphere of the pre-filter: the bottom apex and the
      middle ring on its surface, the top ring at squared distance
      `height^2 / 2` and the cap centre at `height^2 / 4`. */
  lemma VerticesInBoundingSphere<M>(sqrt: real -> real, d: Diamond<M>, i: int)
    requires IsSqrt(sqrt)
    requires 0 <= i < 6
    ensures SqLength(Sub(BottomApex(d), d.center)) == Sq(d.height)
    ensures SqLength(Sub(MiddleVertex(sqrt, d, i), d.center)) == Sq(d.height)
    ensures 2.0 * SqLength(Sub(TopVertex(sqrt, d, i), d.center)) == Sq(d.height)
    ensures 4.0 * SqLength(Sub(TopCentroid(d), d.center)) == Sq(d.height)
  {
    var h := d.height;
    SixthOnUnitCircle(sqrt, i);
    assert Sub(BottomApex(d), d.center) == Vec3(0.0, -h, 0.0);
    NegSquare(h);
    RingPointDistance(d.center, h, 0.0, Cos60(i), Sin60(sqrt, i));
    RingPointDistance(d.center, h / 2.0, h / 2.0, Cos60(i), Sin60(sqrt, i));
    HalfSquare(h);
    assert Sub(TopCentroid(d), d.center) == Vec3(0.0, h / 2.0, 0.0);
  }

  lemma HalfSquare(h: real)
    ensures 4.0 * Sq(h / 2.0) == Sq(h)
  {
    assert (h / 2.0) * Id(h / 2.0) == (h * Id(h)) / 4.0;
  }

  // ---------------------------------------------------------------------------
  // The triangle test (diamond.h:321-330)

  /** `point_in_triangle(a, b, c, pt)`: the three cross products of the vectors
      from the vertices to `pt`, taken around the triangle, point pairwise the
      same way. */
  predicate PointInTriangle(a: Vec3, b: Vec3, c: Vec3, pt: Vec3): (inside: bool)
    ensures inside ==> Cross(Sub(b, a), Sub(c, a)) != Zero
  {
    var e := Cross(Sub(pt, a), Sub(pt, b));
    var f := Cross(Sub(pt, b), Sub(pt, c));
    var g := Cross(Sub(pt, c), Sub(pt, a));
    DegenerateTriangleEmpty(a, b, c, pt);
    Dot(e, f) > 0.0 && Dot(f, g) > 0.0 && Dot(g, e) > 0.0
  }

  /** The three cross products of the test add up to the cross product of
      two edges of the triangle. */
  lemma CrossSum(a: Vec3, b: Vec3, c: Vec3, pt: Vec3)
    ensures Add(Add(Cross(Sub(pt, a), Sub(pt, b)), Cross(Sub(pt, b), Sub(pt, c))), Cross(Sub(pt, c), Sub(pt, a)))
         == Cross(Sub(b, a), Sub(c, a))
  {
    var u, v, w := Sub(pt, a), Sub(pt, b), Sub(pt, c);
    assert Sub(b, a) == Sub(u, v) && Sub(c, a) == Sub(u, w);
    CrossSumOf(u, v, w);
  }

  lemma CrossSumOf(u: Vec3, v: Vec3, w: Vec3)
    ensures Add(Add(Cross(u, v), Cross(v, w)), Cross(w, u)) == Cross(Sub(u, v), Sub(u, w))
  {
    CrossSumX(u, v, w);
    CrossSumY(u, v, w);
    CrossSumZ(u, v, w);
  }

  lemma CrossSumX(u: Vec3, v: Vec3, w: Vec3)
    ensures Add(Add(Cross(u, v), Cross(v, w)), Cross(w, u)).x == Cross(Sub(u, v), Sub(u, w)).x
  {
    CrossSumCoordinate(Sub(u, v).y, Sub(u, v).z, Sub(u, w).y, Sub(u, w).z, u.y, u.z, v.y, v.z, w.y, w.z);
  }

  lemma CrossSumY(u: Vec3, v: Vec3, w: Vec3)
    ensures Add(Add(Cross(u, v), Cross(v, w)), Cross(w, u)).y == Cross(Sub(u, v), Sub(u, w)).y
  {
    CrossSumCoordinate(Sub(u, v).z, Sub(u, v).x, Sub(u, w).z, Sub(u, w).x, u.z, u.x, v.z, v.x, w.z, w.x);
  }

  lemma CrossSumZ(u: Vec3, v: Vec3, w: Vec3)
    ensures Add(Add(Cross(u, v), Cross(v, w)), Cross(w, u)).z == Cross(Sub(u, v), Sub(u, w)).z
  {
    CrossSumCoordinate(Sub(u, v).x, Sub(u, v).y, Sub(u, w).x, Sub(u, w).y, u.x, u.y, v.x, v.y, w.x, w.y);
  }

  /** One coordinate of `CrossSumOf`, with `s == u - v` and `t == u - w`. */
  lemma CrossSumCoordinate(s1: real, s2: real, t1: real, t2: real,
                           u1: real, u2: real, v1: real, v2: real, w1: real, w2: real)
    requires s1 == u1 - v1 && s2 == u2 - v2 && t1 == u1 - w1 && t2 == u2 - w2
    ensures (u1 * v2 - u2 * v1) + (v1 * w2 - v2 * w1) + (w1 * u2 - w2 * u1) == s1 * t2 - s2 * t1
  {}

  /** A degenerate triangle, its three vertices on one line, holds no point:
      the three cross products then add up to zero, so they cannot all point
      the same way. */
  lemma DegenerateTriangleEmpty(a: Vec3, b: Vec3, c: Vec3, pt: Vec3)
    ensures Cross(Sub(b, a), Sub(c, a)) == Zero ==>
      !(Dot(Cross(Sub(pt, a), Sub(pt, b)), Cross(Sub(pt, b), Sub(pt, c))) > 0.0
        && Dot(Cross(Sub(pt, b), Sub(pt, c)), Cross(Sub(pt, c), Sub(pt, a))) > 0.0)
  {
    var e := Cross(Sub(pt, a), Sub(pt, b));
    var f := Cross(Sub(pt, b), Sub(pt, c));
    var g := Cross(Sub(pt, c), Sub(pt, a));
    CrossSum(a, b, c, pt);
    SumDot(e, f, g);
    DotZero(f);
    assert SqLength(f) >= 0.0;
  }

  lemma SumDot(e: Vec3, f: Vec3, g: Vec3)
    ensures Dot(f, Add(Add(e, f), g)) == Dot(e, f) + Dot(f, f) + Dot(f, g)
  {}

  /** Starting the triangle at another vertex does not change the answer. */
  lemma PointInTriangleRotate(a: Vec3, b: Vec3, c: Vec3, pt: Vec3)
    ensures PointInTriangle(a, b, c, pt) == PointInTriangle(b, c, a, pt)
  {}

  lemma CrossAntisymmetric(u: Vec3, v: Vec3)
    ensures Cross(v, u) == Neg(Cross(u, v))
  {}

  lemma DotNegNeg(u: Vec3, v: Vec3)
    ensures Dot(Neg(u), Neg(v)) == Dot(v, u)
  {
    assert (-u.x) * Id(-v.x) == v.x * Id(u.x);
    assert (-u.y) * Id(-v.y) == v.y * Id(u.y);
    assert (-u.z) * Id(-v.z) == v.z * Id(u.z);
  }

  /** Walking the triangle the other way round does not change the answer:
      the test does not depend on the orientation of the triangle. */
  lemma PointInTriangleReverse(a: Vec3, b: Vec3, c: Vec3, pt: Vec3)
    ensures PointInTriangle(a, c, b, pt) == PointInTriangle(a, b, c, pt)
  {
    var e := Cross(Sub(pt, a), Sub(pt, b));
    var f := Cross(Sub(pt, b), Sub(pt, c));
    var g := Cross(Sub(pt, c), Sub(pt, a));
    CrossAntisymmetric(Sub(pt, c), Sub(pt, a));
    CrossAntisymmetric(Sub(pt, b), Sub(pt, c));
    CrossAntisymmetric(Sub(pt, a), Sub(pt, b));
    DotNegNeg(g, f);
    DotNegNeg(f, e);
    DotNegNeg(e, g);
  }

  /** A vertex of the triangle is never inside it: one cross product is the
      zero vector and the strict comparisons fail. */
  lemma PointInTriangleExcludesVertices(a: Vec3, b: Vec3, c: Vec3, pt: Vec3)
    requires pt == a || pt == b || pt == c
    ensures !PointInTriangle(a, b, c, pt)
  {}

  /** No point of an edge is inside either: its two cross products with the
      edge's end points are parallel to the edge, so their cross product is
      the zero vector. */
  lemma PointInTriangleExcludesEdges(a: Vec3, b: Vec3, c: Vec3, t: real)
    ensures !PointInTriangle(a, b, c, Add(a, Scale(Sub(b, a), t)))
    ensures !PointInTriangle(a, b, c, Add(b, Scale(Sub(c, b), t)))
    ensures !PointInTriangle(a, b, c, Add(c, Scale(Sub(a, c), t)))
  {
    EdgeExcluded(a, b, c, t);
    EdgeExcluded(b, c, a, t);
    PointInTriangleRotate(a, b, c, Add(b, Scale(Sub(c, b), t)));
    EdgeExcluded(c, a, b, t);
    PointInTriangleRotate(c, a, b, Add(c, Scale(Sub(a, c), t)));
  }

  lemma EdgeExcluded(a: Vec3, b: Vec3, c: Vec3, t: real)
    ensures !PointInTriangle(a, b, c, Add(a, Scale(Sub(b, a), t)))
  {
    var u := Sub(b, a);
    var pt := Add(a, Scale(u, t));
    assert Sub(pt, a) == Scale(u, t);
    assert Sub(pt, b) == Scale(u, t - 1.0);
    CrossParallel(u, t, t - 1.0);
    ZeroDot(Cross(Sub(pt, b), Sub(pt, c)));
  }

  lemma CrossParallel(u: Vec3, p: real, q: real)
    ensures Cross(Scale(u, p), Scale(u, q)) == Zero
  {
    assert (u.y * p) * (u.z * q) == (u.z * p) * (u.y * q);
    assert (u.z * p) * (u.x * q) == (u.x * p) * (u.z * q);
    assert (u.x * p) * (u.y * q) == (u.y * p) * (u.x * q);
  }

  /** The point `a + u (b - a) + v (c - a)` of the plane of the triangle, in
      barycentric coordinates `(1 - u - v, u, v)`. */
  function PlanePoint(a: Vec3, b: Vec3, c: Vec3, u: real, v: real): (p: Vec3)
    ensures Sub(p, a) == Add(Scale(Sub(b, a), u), Scale(Sub(c, a), v))
  {
    Add(a, Add(Scale(Sub(b, a), u), Scale(Sub(c, a), v)))
  }

  /** The test accepts exactly the points strictly inside a non-degenerate
      triangle: the plane points whose three barycentric coordinates are all
      positive. The three cross products of the test are `v N`,
      `(1 - u - v) N` and `u N` for the edge cross product `N`, so their
      pairwise dot products are positive exactly when `N` is not zero and the
      three coordinates have one sign; they add up to 1, so that sign is
      positive. */
  lemma PointInTriangleBarycentric(a: Vec3, b: Vec3, c: Vec3, u: real, v: real)
    ensures PointInTriangle(a, b, c, PlanePoint(a, b, c, u, v))
        <==> Cross(Sub(b, a), Sub(c, a)) != Zero && 0.0 < u && 0.0 < v && u + v < 1.0
  {
    var p := PlanePoint(a, b, c, u, v);
    var n := Cross(Sub(b, a), Sub(c, a));
    var w := 1.0 - u - v;
    BarycentricOffsets(a, b, c, u, v);
    BarycentricCrosses(Sub(b, a), Sub(c, a), u, v);
    DotScaledSign(n, v, w);
    DotScaledSign(n, w, u);
    DotScaledSign(n, u, v);
  }

  /** The vectors from the three vertices to a plane point. */
  lemma BarycentricOffsets(a: Vec3, b: Vec3, c: Vec3, u: real, v: real)
    ensures var p := PlanePoint(a, b, c, u, v);
      && Sub(p, a) == Add(Scale(Sub(b, a), u), Scale(Sub(c, a), v))
      && Sub(p, b) == Add(Scale(Sub(b, a), u - 1.0), Scale(Sub(c, a), v))
      && Sub(p, c) == Add(Scale(Sub(b, a), u), Scale(Sub(c, a), v - 1.0))
  {
    var p := PlanePoint(a, b, c, u, v);
    ShiftCoordinate(a.x, b.x, c.x, p.x, u, v);
    ShiftCoordinate(a.y, b.y, c.y, p.y, u, v);
    ShiftCoordinate(a.z, b.z, c.z, p.z, u, v);
  }

  lemma ShiftCoordinate(a: real, b: real, c: real, p: real, u: real, v: real)
    requires p - a == (b - a) * u + (c - a) * v
    ensures p - b == (b - a) * (u - 1.0) + (c - a) * v
    ensures p - c == (b - a) * u + (c - a) * (v - 1.0)
  {}

  /** The three cross products of the test at a plane point, as multiples of
      the edge cross product. */
  lemma BarycentricCrosses(e: Vec3, f: Vec3, u: real, v: real)
    ensures Cross(Add(Scale(e, u), Scale(f, v)), Add(Scale(e, u - 1.0), Scale(f, v))) == Scale(Cross(e, f), v)
    ensures Cross(Add(Scale(e, u - 1.0), Scale(f, v)), Add(Scale(e, u), Scale(f, v - 1.0))) == Scale(Cross(e, f), 1.0 - u - v)
    ensures Cross(Add(Scale(e, u), Scale(f, v - 1.0)), Add(Scale(e, u), Scale(f, v))) == Scale(Cross(e, f), u)
  {
    var u1, v1 := u - 1.0, v - 1.0;
    CoefficientValues(u, v, u1, v1);
    CrossAt(e, f, u, v, u1, v, v);
    CrossAt(e, f, u1, v, u, v1, 1.0 - u - v);
    CrossAt(e, f, u, v1, u, v, u);
  }

  /** `CrossCombination` with its coefficient already worked out. */
  lemma CrossAt(e: Vec3, f: Vec3, u: real, v: real, u': real, v': real, k: real)
    requires u * v' - v * u' == k
    ensures Cross(Add(Scale(e, u), Scale(f, v)), Add(Scale(e, u'), Scale(f, v'))) == Scale(Cross(e, f), k)
  {
    CrossCombination(e, f, u, v, u', v');
  }

  lemma CoefficientValues(u: real, v: real, u1: real, v1: real)
    requires u1 == u - 1.0 && v1 == v - 1.0
    ensures u * v - v * u1 == v
    ensures u1 * v1 - v * u == 1.0 - u - v
    ensures u * v - v1 * u == u
  {}

  /** Two multiples of one vector have a positive dot product exactly when
      the vector is not zero and the two factors have the same strict sign. */
  lemma DotScaledSign(n: Vec3, p: real, q: real)
    ensures Dot(Scale(n, p), Scale(n, q)) > 0.0 <==> n != Zero && ((0.0 < p && 0.0 < q) || (p < 0.0 && q < 0.0))
  {
    DotScaled(n, p, q);
    ProductSign(p * q, SqLength(n));
    ProductSign(p, q);
  }

  /** A product is positive exactly when both factors are non-zero and have
      the same sign. */
  lemma ProductSign(p: real, q: real)
    ensures p * q > 0.0 <==> ((0.0 < p && 0.0 < q) || (p < 0.0 && q < 0.0))
  {
    if 0.0 < p && 0.0 < q {
      MulPositive(p, q);
    } else if p < 0.0 && q < 0.0 {
      MulPositive(-p, -q);
      assert (-p) * (-q) == p * q;
    } else if p == 0.0 || q == 0.0 {
    } else if p < 0.0 {
      MulPositive(-p, q);
      assert (-p) * q == -(p * q);
    } else {
      MulPositive(p, -q);
      assert p * (-q) == -(p * q);
    }
  }

  /** `(a + b + c) / 3` */
  function Centroid(a: Vec3, b: Vec3, c: Vec3): (g: Vec3)
    ensures g == PlanePoint(a, b, c, 1.0 / 3.0, 1.0 / 3.0)
  {
    Vec3((a.x + b.x + c.x) / 3.0, (a.y + b.y + c.y) / 3.0, (a.z + b.z + c.z) / 3.0)
  }

  /** The centroid of a triangle is inside it exactly when the triangle is not
      degenerate (its edge vectors are not parallel). */
  lemma CentroidInside(a: Vec3, b: Vec3, c: Vec3)
    ensures PointInTriangle(a, b, c, Centroid(a, b, c)) <==> Cross(Sub(b, a), Sub(c, a)) != Zero
  {
    PointInTriangleBarycentric(a, b, c, 1.0 / 3.0, 1.0 / 3.0);
  }

  /** A point the test accepts, on a plane that holds the triangle, is a
      convex combination of the three vertices, so it is no farther from any
      point `o` than the farthest vertex: any ball (here of squared radius
      `bound`) that holds the vertices holds the point. */
  lemma TriangleInBall(a: Vec3, b: Vec3, c: Vec3, p: Vec3, q: Vec3, n: Vec3, o: Vec3, bound: real)
    requires n != Zero
    requires Dot(Sub(a, q), n) == 0.0 && Dot(Sub(b, q), n) == 0.0
    requires Dot(Sub(c, q), n) == 0.0 && Dot(Sub(p, q), n) == 0.0
    requires PointInTriangle(a, b, c, p)
    requires SqLength(Sub(a, o)) <= bound && SqLength(Sub(b, o)) <= bound && SqLength(Sub(c, o)) <= bound
    ensures SqLength(Sub(p, o)) <= bound
  {
    PlaneDifferences(a, b, c, p, q, n);
    CoplanarTriple(Sub(b, a), Sub(c, a), Sub(p, a), n);
    var u, v := PlaneCoordinates(Sub(b, a), Sub(c, a), Sub(p, a));
    assert p == PlanePoint(a, b, c, u, v);
    PointInTriangleBarycentric(a, b, c, u, v);
    var l := 1.0 - u - v;
    ConvexOffset(a, b, c, o, u, v);
    ConvexCombinationBound(Sub(a, o), Sub(b, o), Sub(c, o), l, u, v, bound);
  }

  /** Edge vectors of points of one plane are parallel to it. */
  lemma PlaneDifferences(a: Vec3, b: Vec3, c: Vec3, p: Vec3, q: Vec3, n: Vec3)
    requires Dot(Sub(a, q), n) == 0.0 && Dot(Sub(b, q), n) == 0.0
    requires Dot(Sub(c, q), n) == 0.0 && Dot(Sub(p, q), n) == 0.0
    ensures Dot(Sub(b, a), n) == 0.0 && Dot(Sub(c, a), n) == 0.0 && Dot(Sub(p, a), n) == 0.0
  {
    DotDifference(b, a, q, n);
    DotDifference(c, a, q, n);
    DotDifference(p, a, q, n);
  }

  lemma DotDifference(x: Vec3, y: Vec3, q: Vec3, n: Vec3)
    ensures Dot(Sub(x, y), n) == Dot(Sub(x, q), n) - Dot(Sub(y, q), n)
  {}

  /** A plane point seen from `o` is the same combination of the vertices
      seen from `o`. */
  lemma ConvexOffset(a: Vec3, b: Vec3, c: Vec3, o: Vec3, u: real, v: real)
    ensures Sub(PlanePoint(a, b, c, u, v), o)
         == Add(Add(Scale(Sub(a, o), 1.0 - u - v), Scale(Sub(b, o), u)), Scale(Sub(c, o), v))
  {
    ConvexOffsetX(a, b, c, o, u, v);
    ConvexOffsetY(a, b, c, o, u, v);
    ConvexOffsetZ(a, b, c, o, u, v);
  }

  lemma ConvexOffsetX(a: Vec3, b: Vec3, c: Vec3, o: Vec3, u: real, v: real)
    ensures Sub(PlanePoint(a, b, c, u, v), o).x
         == Add(Add(Scale(Sub(a, o), 1.0 - u - v), Scale(Sub(b, o), u)), Scale(Sub(c, o), v)).x
  {
    OffsetCoordinate(a.x, b.x, c.x, o.x, PlanePoint(a, b, c, u, v).x, u, v,
                     Sub(a, o).x, Sub(b, o).x, Sub(c, o).x, Sub(b, a).x, Sub(c, a).x, 1.0 - u - v);
  }

  lemma ConvexOffsetY(a: Vec3, b: Vec3, c: Vec3, o: Vec3, u: real, v: real)
    ensures Sub(PlanePoint(a, b, c, u, v), o).y
         == Add(Add(Scale(Sub(a, o), 1.0 - u - v), Scale(Sub(b, o), u)), Scale(Sub(c, o), v)).y
  {
    OffsetCoordinate(a.y, b.y, c.y, o.y, PlanePoint(a, b, c, u, v).y, u, v,
                     Sub(a, o).y, Sub(b, o).y, Sub(c, o).y, Sub(b, a).y, Sub(c, a).y, 1.0 - u - v);
  }

  lemma ConvexOffsetZ(a: Vec3, b: Vec3, c: Vec3, o: Vec3, u: real, v: real)
    ensures Sub(PlanePoint(a, b, c, u, v), o).z
         == Add(Add(Scale(Sub(a, o), 1.0 - u - v), Scale(Sub(b, o), u)), Scale(Sub(c, o), v)).z
  {
    OffsetCoordinate(a.z, b.z, c.z, o.z, PlanePoint(a, b, c, u, v).z, u, v,
                     Sub(a, o).z, Sub(b, o).z, Sub(c, o).z, Sub(b, a).z, Sub(c, a).z, 1.0 - u - v);
  }

  lemma OffsetCoordinate(a: real, b: real, c: real, o: real, p: real, u: real, v: real,
                         ao: real, bo: real, co: real, ba: real, ca: real, l: real)
    requires ao == a - o && bo == b - o && co == c - o && ba == b - a && ca == c - a && l == 1.0 - u - v
    requires p == a + (ba * u + ca * v)
    ensures p - o == (ao * l + bo * u) + co * v
  {}

  // ---------------------------------------------------------------------------
  // Faces (diamond.h:136-302)

  /** How a face decides whether the point where the ray meets its plane is on
      the face. */
  datatype Shape =
    | Triangle(a: Vec3, b: Vec3, c: Vec3)
      // a bottom face: the one triangle (a, b, c)
    | Quad(a: Vec3, b: Vec3, c: Vec3, d: Vec3)
      // a side face: either of the triangles (a, b, c) and (c, d, a)
    | Fan(ring: seq<Vec3>, hub: Vec3)
      // the top cap: any of the triangles (ring[i], ring[i + 1], hub)

  /** A face: the reference point `plane_pt` and normal `plane_vec` of its
      plane, and its shape. */
  datatype Face = Face(planePt: Vec3, planeVec: Vec3, shape: Shape)

  /** `p` lies on the plane of `f`: `dot(p - plane_pt, plane_vec) == 0`. */
  predicate OnPlane(f: Face, p: Vec3) {
    Dot(Sub(p, f.planePt), f.planeVec) == 0.0
  }

  predicate Contains(s: Shape, p: Vec3) {
    match s
    case Triangle(a, b, c) => PointInTriangle(a, b, c, p)
    case Quad(a, b, c, d) => PointInTriangle(a, b, c, p) || PointInTriangle(c, d, a, p)
    case Fan(ring, hub) => exists i :: 0 <= i < |ring| && InFanTriangle(ring, hub, i, p)
  }

  /** `p` is in triangle `i` of the fan: `(ring[i], ring[i + 1], hub)`, with the
      ring closing up after its last point. */
  predicate InFanTriangle(ring: seq<Vec3>, hub: Vec3, i: int, p: Vec3)
    requires 0 <= i < |ring|
  {
    PointInTriangle(ring[i], ring[(i + 1) % |ring|], hub, p)
  }

  /** The hub of a fan is a vertex of each of its triangles, so the fan never
      holds it. */
  lemma HubNotInFan(ring: seq<Vec3>, hub: Vec3)
    ensures !Contains(Fan(ring, hub), hub)
  {
    forall i | 0 <= i < |ring|
      ensures !InFanTriangle(ring, hub, i, hub)
    {
      PointInTriangleExcludesVertices(ring[i], ring[(i + 1) % |ring|], hub, hub);
    }
  }

  /** Bottom face `i` (diamond.h:139-147): apex, `middle_pt[i]`,
      `middle_pt[i + 1]`, normal `(c - a) x (b - a)`. */
  function BottomFace<M>(sqrt: real -> real, d: Diamond<M>, i: int): Face
    requires IsSqrt(sqrt)
    requires 0 <= i < 6
  {
    var a := BottomApex(d);
    var b := MiddleVertex(sqrt, d, i);
    var c := MiddleVertex(sqrt, d, (i + 1) % 6);
    Face(a, Cross(Sub(c, a), Sub(b, a)), Triangle(a, b, c))
  }

  /** Side face `i` (diamond.h:199-208): `middle_pt[i]`, `middle_pt[i + 1]`,
      `top_pt[i + 1]`, `top_pt[i]`, normal `(b - a) x (c - a)`. */
  function SideFace<M>(sqrt: real -> real, d: Diamond<M>, i: int): Face
    requires IsSqrt(sqrt)
    requires 0 <= i < 6
  {
    var a := MiddleVertex(sqrt, d, i);
    var b := MiddleVertex(sqrt, d, (i + 1) % 6);
    var c := TopVertex(sqrt, d, (i + 1) % 6);
    var e := TopVertex(sqrt, d, i);
    Face(a, Cross(Sub(b, a), Sub(c, a)), Quad(a, b, c, e))
  }

  /** The top cap (diamond.h:253-254, 275-276): reference point `top_pt[0]`,
      normal `(top_pt[0] - top_pt[1]) x (top_pt[0] - top_pt[2])`, fanned from
      `center_top`. */
  function CapFace<M>(sqrt: real -> real, d: Diamond<M>): Face
    requires IsSqrt(sqrt)
  {
    var ring := TopRing(sqrt, d);
    Face(ring[0], Cross(Sub(ring[0], ring[1]), Sub(ring[0], ring[2])), Fan(ring, TopCentroid(d)))
  }

  /** The first `n` bottom faces, in the order the first pass visits them. */
  function BottomFaces<M>(sqrt: real -> real, d: Diamond<M>, n: nat): (fs: seq<Face>)
    requires IsSqrt(sqrt)
    requires n <= 6
    ensures |fs| == n
    ensures forall i :: 0 <= i < n ==> fs[i] == BottomFace(sqrt, d, i)
  {
    if n == 0 then [] else BottomFaces(sqrt, d, n - 1) + [BottomFace(sqrt, d, n - 1)]
  }

  /** The first `n` side faces, in the order the second pass visits them. */
  function SideFaces<M>(sqrt: real -> real, d: Diamond<M>, n: nat): (fs: seq<Face>)
    requires IsSqrt(sqrt)
    requires n <= 6
    ensures |fs| == n
    ensures forall i :: 0 <= i < n ==> fs[i] == SideFace(sqrt, d, i)
  {
    if n == 0 then [] else SideFaces(sqrt, d, n - 1) + [SideFace(sqrt, d, n - 1)]
  }

  /** All thirteen faces, in the order `diamond::hit` visits them. */
  function Faces<M>(sqrt: real -> real, d: Diamond<M>): (fs: seq<Face>)
    requires IsSqrt(sqrt)
    ensures |fs| == 13
  {
    BottomFaces(sqrt, d, 6) + SideFaces(sqrt, d, 6) + [CapFace(sqrt, d)]
  }

  /** A cross product is orthogonal to both its factors. */
  lemma CrossOrthogonal(u: Vec3, v: Vec3)
    ensures Dot(u, Cross(u, v)) == 0.0 && Dot(v, Cross(u, v)) == 0.0
  {}

  lemma DotSubScale(u: Vec3, v: Vec3, n: Vec3, k: real)
    ensures Dot(Sub(u, Scale(v, k)), n) == Dot(u, n) - k * Dot(v, n)
  {}

  /** The plane of a bottom face holds its three vertices. */
  lemma BottomFaceFlat<M>(sqrt: real -> real, d: Diamond<M>, i: int)
    requires IsSqrt(sqrt)
    requires 0 <= i < 6
    ensures var f := BottomFace(sqrt, d, i);
      f.shape.Triangle? && OnPlane(f, f.shape.a) && OnPlane(f, f.shape.b) && OnPlane(f, f.shape.c)
  {
    var a := BottomApex(d);
    var b := MiddleVertex(sqrt, d, i);
    var c := MiddleVertex(sqrt, d, (i + 1) % 6);
    assert Sub(a, a) == Zero;
    ZeroDot(Cross(Sub(c, a), Sub(b, a)));
    CrossOrthogonal(Sub(c, a), Sub(b, a));
  }

  /** The plane of a side face holds all four of its vertices: the top edge
      `top_pt[i] .. top_pt[i + 1]` is half the bottom edge
      `middle_pt[i] .. middle_pt[i + 1]`, so the quad is a flat trapezoid and
      its two triangles lie in one plane. */
  lemma SideFaceFlat<M>(sqrt: real -> real, d: Diamond<M>, i: int)
    requires IsSqrt(sqrt)
    requires 0 <= i < 6
    ensures var f := SideFace(sqrt, d, i);
      && f.shape.Quad? && OnPlane(f, f.shape.a) && OnPlane(f, f.shape.b)
      && OnPlane(f, f.shape.c) && OnPlane(f, f.shape.d)
  {
    var a := MiddleVertex(sqrt, d, i);
    var b := MiddleVertex(sqrt, d, (i + 1) % 6);
    var c := TopVertex(sqrt, d, (i + 1) % 6);
    var e := TopVertex(sqrt, d, i);
    var n := Cross(Sub(b, a), Sub(c, a));
    assert Sub(a, a) == Zero;
    ZeroDot(n);
    CrossOrthogonal(Sub(b, a), Sub(c, a));
    SideTrapezoid(d.center, d.height, Cos60(i), Sin60(sqrt, i), Cos60((i + 1) % 6), Sin60(sqrt, (i + 1) % 6));
    DotSubScale(Sub(c, a), Sub(b, a), n, 0.5);
  }

  lemma SideTrapezoid(center: Vec3, h: real, cos: real, sin: real, cos': real, sin': real)
    ensures var a := RingPoint(center, h, 0.0, cos, sin);
      var b := RingPoint(center, h, 0.0, cos', sin');
      var c := RingPoint(center, h / 2.0, h / 2.0, cos', sin');
      var e := RingPoint(center, h / 2.0, h / 2.0, cos, sin);
      Sub(e, a) == Sub(Sub(c, a), Scale(Sub(b, a), 0.5))
  {}

  /** The plane of the top cap holds the six top vertices and the cap centre:
      they all lie at height `center.y + height / 2`, and the cap normal is
      vertical. */
  lemma CapFaceFlat<M>(sqrt: real -> real, d: Diamond<M>)
    requires IsSqrt(sqrt)
    ensures var f := CapFace(sqrt, d);
      && f.shape.Fan? && OnPlane(f, f.shape.hub)
      && forall i :: 0 <= i < |f.shape.ring| ==> OnPlane(f, f.shape.ring[i])
  {
    var f := CapFace(sqrt, d);
    CapNormalUp(sqrt, d);
    LevelOnPlane(f, f.shape.hub);
    forall i | 0 <= i < |f.shape.ring|
      ensures OnPlane(f, f.shape.ring[i])
    {
      LevelOnPlane(f, f.shape.ring[i]);
    }
  }

  /** With a vertical normal, a point at the height of the reference point
      is on the plane. */
  lemma LevelOnPlane(f: Face, p: Vec3)
    requires f.planeVec.x == 0.0 && f.planeVec.z == 0.0
    requires p.y == f.planePt.y
    ensures OnPlane(f, p)
  {}

  /** The normal of the top cap is vertical and points up whenever the diamond
      has a height. */
  lemma CapNormalUp<M>(sqrt: real -> real, d: Diamond<M>)
    requires IsSqrt(sqrt)
    ensures CapFace(sqrt, d).planeVec.x == 0.0 && CapFace(sqrt, d).planeVec.z == 0.0
    ensures d.height != 0.0 ==> CapFace(sqrt, d).planeVec.y > 0.0
  {
    var r := d.height / 2.0;
    var s := SinOf60(sqrt);
    var ring := TopRing(sqrt, d);
    assert Sub(ring[0], ring[1]) == Vec3(r * 0.5, 0.0, r * s);
    assert Sub(ring[0], ring[2]) == Vec3(r * 1.5, 0.0, r * s);
    assert CapFace(sqrt, d).planeVec == Vec3(0.0, (r * s) * (r * 1.5) - (r * 0.5) * (r * s), 0.0);
    assert (r * s) * (r * 1.5) - (r * 0.5) * (r * s) == Sq(r) * s;
    if d.height != 0.0 {
      MulStrictMonotone(s, 0.0, Sq(r));
    }
  }

  // ---------------------------------------------------------------------------
  // Every face lies in the bounding ball

  /** A point that a face of the diamond holds, on the plane of that face,
      is in the closed ball of radius `|height|` around the centre: the
      ball that holds all the vertices. */
  lemma FacePointInBall<M>(sqrt: real -> real, d: Diamond<M>, f: Face, p: Vec3)
    requires IsSqrt(sqrt)
    requires f in Faces(sqrt, d)
    requires f.planeVec != Zero
    requires OnPlane(f, p)
    requires Contains(f.shape, p)
    ensures SqLength(Sub(p, d.center)) <= Sq(d.height)
  {
    var j :| 0 <= j < 13 && Faces(sqrt, d)[j] == f;
    FaceAt(sqrt, d, j);
    if j < 6 {
      BottomPointInBall(sqrt, d, j, p);
    } else if j < 12 {
      SidePointInBall(sqrt, d, j - 6, p);
    } else {
      CapPointInBall(sqrt, d, p);
    }
  }

  /** Face `j` of the visiting order. */
  lemma FaceAt<M>(sqrt: real -> real, d: Diamond<M>, j: int)
    requires IsSqrt(sqrt)
    requires 0 <= j < 13
    ensures j < 6 ==> Faces(sqrt, d)[j] == BottomFace(sqrt, d, j)
    ensures 6 <= j < 12 ==> Faces(sqrt, d)[j] == SideFace(sqrt, d, j - 6)
    ensures j == 12 ==> Faces(sqrt, d)[j] == CapFace(sqrt, d)
  {
    var bs, ss := BottomFaces(sqrt, d, 6), SideFaces(sqrt, d, 6);
    assert Faces(sqrt, d) == bs + ss + [CapFace(sqrt, d)];
    if j < 6 {
      assert Faces(sqrt, d)[j] == bs[j];
    } else if j < 12 {
      assert Faces(sqrt, d)[j] == ss[j - 6];
    }
  }

  lemma BottomPointInBall<M>(sqrt: real -> real, d: Diamond<M>, i: int, p: Vec3)
    requires IsSqrt(sqrt)
    requires 0 <= i < 6
    requires BottomFace(sqrt, d, i).planeVec != Zero
    requires OnPlane(BottomFace(sqrt, d, i), p)
    requires Contains(BottomFace(sqrt, d, i).shape, p)
    ensures SqLength(Sub(p, d.center)) <= Sq(d.height)
  {
    var f := BottomFace(sqrt, d, i);
    BottomFaceFlat(sqrt, d, i);
    VerticesInBoundingSphere(sqrt, d, i);
    VerticesInBoundingSphere(sqrt, d, (i + 1) % 6);
    TriangleInBall(f.shape.a, f.shape.b, f.shape.c, p, f.planePt, f.planeVec, d.center, Sq(d.height));
  }

  lemma SidePointInBall<M>(sqrt: real -> real, d: Diamond<M>, i: int, p: Vec3)
    requires IsSqrt(sqrt)
    requires 0 <= i < 6
    requires SideFace(sqrt, d, i).planeVec != Zero
    requires OnPlane(SideFace(sqrt, d, i), p)
    requires Contains(SideFace(sqrt, d, i).shape, p)
    ensures SqLength(Sub(p, d.center)) <= Sq(d.height)
  {
    var f := SideFace(sqrt, d, i);
    var s := f.shape;
    SideFaceFlat(sqrt, d, i);
    VerticesInBoundingSphere(sqrt, d, i);
    VerticesInBoundingSphere(sqrt, d, (i + 1) % 6);
    if PointInTriangle(s.a, s.b, s.c, p) {
      TriangleInBall(s.a, s.b, s.c, p, f.planePt, f.planeVec, d.center, Sq(d.height));
    } else {
      TriangleInBall(s.c, s.d, s.a, p, f.planePt, f.planeVec, d.center, Sq(d.height));
    }
  }

  lemma CapPointInBall<M>(sqrt: real -> real, d: Diamond<M>, p: Vec3)
    requires IsSqrt(sqrt)
    requires CapFace(sqrt, d).planeVec != Zero
    requires OnPlane(CapFace(sqrt, d), p)
    requires Contains(CapFace(sqrt, d).shape, p)
    ensures SqLength(Sub(p, d.center)) <= Sq(d.height)
  {
    var f := CapFace(sqrt, d);
    var ring, hub := f.shape.ring, f.shape.hub;
    var i :| 0 <= i < |ring| && InFanTriangle(ring, hub, i, p);
    var j := (i + 1) % |ring|;
    CapFaceFlat(sqrt, d);
    assert ring[i] == TopVertex(sqrt, d, i) && ring[j] == TopVertex(sqrt, d, j);
    VerticesInBoundingSphere(sqrt, d, i);
    VerticesInBoundingSphere(sqrt, d, j);
    TriangleInBall(ring[i], ring[j], hub, p, f.planePt, f.planeVec, d.center, Sq(d.height));
  }
}
