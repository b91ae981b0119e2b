/** Facts about points of a plane that the intersection test relies on
    without computing them: the cross product of two combinations of a
    triangle's edge vectors, the coordinates of a point of the triangle's
    plane along its two edges, and the convexity of a ball.

    Each identity is proved one coordinate at a time. The vector functions are
    first rewritten into their coordinates by the `...Coordinates` lemmas, and
    the arithmetic is then done by a lemma over plain reals whose `requires`
    name every coordinate it uses; a solver that has to unfold the vector
    functions and do nonlinear arithmetic in the same context is slow. */
module Planes {
  import opened Vectors

  // ---------------------------------------------------------------------------
  // The vector functions on coordinates

  lemma AddScaleCoordinates(b: Vec3, c: Vec3, u: real, v: real)
    ensures Add(Scale(b, u), Scale(c, v)) == Vec3(b.x * u + c.x * v, b.y * u + c.y * v, b.z * u + c.z * v)
  {}

  lemma CrossCoordinates(p: Vec3, q: Vec3)
    ensures Cross(p, q) == Vec3(p.y * q.z - p.z * q.y, p.z * q.x - p.x * q.z, p.x * q.y - p.y * q.x)
  {}

  lemma ScaleCoordinates(n: Vec3, k: real)
    ensures Scale(n, k) == Vec3(n.x * k, n.y * k, n.z * k)
  {}

  lemma DotCoordinates(u: Vec3, v: Vec3)
    ensures Dot(u, v) == u.x * v.x + u.y * v.y + u.z * v.z
  {}

  /** A squared length written as a plain sum of products. */
  lemma SqLengthCoordinates(v: Vec3)
    ensures SqLength(v) == v.x * v.x + v.y * v.y + v.z * v.z
  {
    SqProduct(v.x);
    SqProduct(v.y);
    SqProduct(v.z);
  }

  // ---------------------------------------------------------------------------
  // Cross products of combinations of two edge vectors

  /** The cross product of two combinations of `b` and `c` is a multiple of
      `b x c`, by the determinant of their coefficients. */
  lemma CrossCombination(b: Vec3, c: Vec3, u: real, v: real, u': real, v': real)
    ensures Cross(Add(Scale(b, u), Scale(c, v)), Add(Scale(b, u'), Scale(c, v')))
         == Scale(Cross(b, c), u * v' - v * u')
  {
    var p, q := Add(Scale(b, u), Scale(c, v)), Add(Scale(b, u'), Scale(c, v'));
    CrossCombinationX(b, c, u, v, u', v');
    CrossCombinationY(b, c, u, v, u', v');
    CrossCombinationZ(b, c, u, v, u', v');
    CrossCoordinates(p, q);
    ScaleCoordinates(Cross(b, c), u * v' - v * u');
  }

  lemma CrossCombinationX(b: Vec3, c: Vec3, u: real, v: real, u': real, v': real)
    ensures var p, q := Add(Scale(b, u), Scale(c, v)), Add(Scale(b, u'), Scale(c, v'));
      p.y * q.z - p.z * q.y == Cross(b, c).x * (u * v' - v * u')
  {
    var p, q := Add(Scale(b, u), Scale(c, v)), Add(Scale(b, u'), Scale(c, v'));
    AddScaleCoordinates(b, c, u, v);
    AddScaleCoordinates(b, c, u', v');
    CrossCoordinates(b, c);
    Determinant(p.y, p.z, q.y, q.z, b.y, b.z, c.y, c.z, Cross(b, c).x, u, v, u', v', u * v' - v * u');
  }

  lemma CrossCombinationY(b: Vec3, c: Vec3, u: real, v: real, u': real, v': real)
    ensures var p, q := Add(Scale(b, u), Scale(c, v)), Add(Scale(b, u'), Scale(c, v'));
      p.z * q.x - p.x * q.z == Cross(b, c).y * (u * v' - v * u')
  {
    var p, q := Add(Scale(b, u), Scale(c, v)), Add(Scale(b, u'), Scale(c, v'));
    AddScaleCoordinates(b, c, u, v);
    AddScaleCoordinates(b, c, u', v');
    CrossCoordinates(b, c);
    Determinant(p.z, p.x, q.z, q.x, b.z, b.x, c.z, c.x, Cross(b, c).y, u, v, u', v', u * v' - v * u');
  }

  lemma CrossCombinationZ(b: Vec3, c: Vec3, u: real, v: real, u': real, v': real)
    ensures var p, q := Add(Scale(b, u), Scale(c, v)), Add(Scale(b, u'), Scale(c, v'));
      p.x * q.y - p.y * q.x == Cross(b, c).z * (u * v' - v * u')
  {
    var p, q := Add(Scale(b, u), Scale(c, v)), Add(Scale(b, u'), Scale(c, v'));
    AddScaleCoordinates(b, c, u, v);
    AddScaleCoordinates(b, c, u', v');
    CrossCoordinates(b, c);
    Determinant(p.x, p.y, q.x, q.y, b.x, b.y, c.x, c.y, Cross(b, c).z, u, v, u', v', u * v' - v * u');
  }

  /** One coordinate of `CrossCombination`: the determinant of a product of
      two-by-two matrices is the product of their determinants. */
  lemma Determinant(p1: real, p2: real, q1: real, q2: real, b1: real, b2: real, c1: real, c2: real,
                    n: real, u: real, v: real, u': real, v': real, k: real)
    requires p1 == b1 * u + c1 * v && p2 == b2 * u + c2 * v
    requires q1 == b1 * u' + c1 * v' && q2 == b2 * u' + c2 * v'
    requires n == b1 * c2 - b2 * c1 && k == u * v' - v * u'
    ensures p1 * q2 - p2 * q1 == n * k
  {}

  /** `dot(v * p, v * q) == p q |v|^2` */
  lemma DotScaled(v: Vec3, p: real, q: real)
    ensures Dot(Scale(v, p), Scale(v, q)) == (p * q) * SqLength(v)
  {
    SqLengthCoordinates(v);
    ScaleCoordinates(v, p);
    ScaleCoordinates(v, q);
    DotCoordinates(Scale(v, p), Scale(v, q));
    ScaledProducts(Scale(v, p), Scale(v, q), v.x, v.y, v.z, p, q, SqLength(v));
  }

  lemma ScaledProducts(vp: Vec3, vq: Vec3, a: real, b: real, c: real, p: real, q: real, s: real)
    requires vp == Vec3(a * p, b * p, c * p) && vq == Vec3(a * q, b * q, c * q)
    requires s == a * a + b * b + c * c
    ensures vp.x * vq.x + vp.y * vq.y + vp.z * vq.z == (p * q) * s
  {}

  // ---------------------------------------------------------------------------
  // Coordinates in a plane

  /** Three vectors orthogonal to one non-zero vector `n` lie in one plane:
      their triple product `w . (b x c)` vanishes. This is the identity
      `(w . (b x c)) n == (b . n)(c x w) + (c . n)(w x b) + (w . n)(b x c)`. */
  lemma CoplanarTriple(b: Vec3, c: Vec3, w: Vec3, n: Vec3)
    requires n != Zero
    requires Dot(b, n) == 0.0 && Dot(c, n) == 0.0 && Dot(w, n) == 0.0
    ensures Dot(w, Cross(b, c)) == 0.0
  {
    var t := Dot(w, Cross(b, c));
    TripleX(b, c, w, n);
    TripleY(b, c, w, n);
    TripleZ(b, c, w, n);
    ProductZeroFactor(t, n.x);
    ProductZeroFactor(t, n.y);
    ProductZeroFactor(t, n.z);
  }

  lemma TripleX(b: Vec3, c: Vec3, w: Vec3, n: Vec3)
    ensures Dot(w, Cross(b, c)) * n.x
         == Dot(b, n) * Cross(c, w).x + Dot(c, n) * Cross(w, b).x + Dot(w, n) * Cross(b, c).x
  {
    TripleFacts(b, c, w, n);
    TripleCoordinate(b.x, b.y, b.z, c.x, c.y, c.z, w.x, w.y, w.z, n.x, n.y, n.z,
                     Cross(b, c).x, Cross(b, c).y, Cross(b, c).z, Cross(c, w).x, Cross(w, b).x,
                     Dot(w, Cross(b, c)), Dot(b, n), Dot(c, n), Dot(w, n));
  }

  lemma TripleY(b: Vec3, c: Vec3, w: Vec3, n: Vec3)
    ensures Dot(w, Cross(b, c)) * n.y
         == Dot(b, n) * Cross(c, w).y + Dot(c, n) * Cross(w, b).y + Dot(w, n) * Cross(b, c).y
  {
    TripleFacts(b, c, w, n);
    TripleCoordinate(b.y, b.z, b.x, c.y, c.z, c.x, w.y, w.z, w.x, n.y, n.z, n.x,
                     Cross(b, c).y, Cross(b, c).z, Cross(b, c).x, Cross(c, w).y, Cross(w, b).y,
                     Dot(w, Cross(b, c)), Dot(b, n), Dot(c, n), Dot(w, n));
  }

  lemma TripleZ(b: Vec3, c: Vec3, w: Vec3, n: Vec3)
    ensures Dot(w, Cross(b, c)) * n.z
         == Dot(b, n) * Cross(c, w).z + Dot(c, n) * Cross(w, b).z + Dot(w, n) * Cross(b, c).z
  {
    TripleFacts(b, c, w, n);
    TripleCoordinate(b.z, b.x, b.y, c.z, c.x, c.y, w.z, w.x, w.y, n.z, n.x, n.y,
                     Cross(b, c).z, Cross(b, c).x, Cross(b, c).y, Cross(c, w).z, Cross(w, b).z,
                     Dot(w, Cross(b, c)), Dot(b, n), Dot(c, n), Dot(w, n));
  }

  lemma TripleFacts(b: Vec3, c: Vec3, w: Vec3, n: Vec3)
    ensures Cross(b, c) == Vec3(b.y * c.z - b.z * c.y, b.z * c.x - b.x * c.z, b.x * c.y - b.y * c.x)
    ensures Cross(c, w) == Vec3(c.y * w.z - c.z * w.y, c.z * w.x - c.x * w.z, c.x * w.y - c.y * w.x)
    ensures Cross(w, b) == Vec3(w.y * b.z - w.z * b.y, w.z * b.x - w.x * b.z, w.x * b.y - w.y * b.x)
    ensures Dot(w, Cross(b, c)) == w.x * Cross(b, c).x + w.y * Cross(b, c).y + w.z * Cross(b, c).z
    ensures Dot(b, n) == b.x * n.x + b.y * n.y + b.z * n.z
    ensures Dot(c, n) == c.x * n.x + c.y * n.y + c.z * n.z
    ensures Dot(w, n) == w.x * n.x + w.y * n.y + w.z * n.z
  {
    CrossCoordinates(b, c);
    CrossCoordinates(c, w);
    CrossCoordinates(w, b);
    DotCoordinates(w, Cross(b, c));
    DotCoordinates(b, n);
    DotCoordinates(c, n);
    DotCoordinates(w, n);
  }

  /** The first coordinate of the identity of `CoplanarTriple`. */
  lemma TripleCoordinate(bx: real, b2: real, bz: real, cx: real, cy: real, cz: real,
                         wx: real, wy: real, wz: real, nx: real, ny: real, nz: real,
                         m1: real, m2: real, m3: real, e1: real, g1: real,
                         t: real, db: real, dc: real, dw: real)
    requires m1 == b2 * cz - bz * cy && m2 == bz * cx - bx * cz && m3 == bx * cy - b2 * cx
    requires e1 == cy * wz - cz * wy && g1 == wy * bz - wz * b2
    requires t == wx * m1 + wy * m2 + wz * m3
    requires db == bx * nx + b2 * ny + bz * nz && dc == cx * nx + cy * ny + cz * nz
    requires dw == wx * nx + wy * ny + wz * nz
    ensures t * nx == db * e1 + dc * g1 + dw * m1
  {}

  lemma ProductZeroFactor(t: real, k: real)
    requires t * k == 0.0
    ensures k != 0.0 ==> t == 0.0
  {
    if k != 0.0 {
      MulCancel(t, k);
    }
  }

  /** A vector in the plane of two edge vectors `b` and `c` that are not
      parallel is a combination of them. With `N == b x c` the coefficients
      are `((w x c) . N) / |N|^2` and `((b x w) . N) / |N|^2`, which is the
      identity `|N|^2 w == ((w x c) . N) b + ((b x w) . N) c + (w . N) N`. */
  lemma PlaneCoordinates(b: Vec3, c: Vec3, w: Vec3) returns (u: real, v: real)
    requires Cross(b, c) != Zero
    requires Dot(w, Cross(b, c)) == 0.0
    ensures w == Add(Scale(b, u), Scale(c, v))
  {
    var n := Cross(b, c);
    var s, cu, cv := SqLength(n), Dot(Cross(w, c), n), Dot(Cross(b, w), n);
    DecompositionX(b, c, w);
    DecompositionY(b, c, w);
    DecompositionZ(b, c, w);
    u, v := cu / s, cv / s;
    DivideCombination(w.x, b.x, c.x, cu, cv, s);
    DivideCombination(w.y, b.y, c.y, cu, cv, s);
    DivideCombination(w.z, b.z, c.z, cu, cv, s);
    CombinationCoordinates(b, c, w, u, v);
  }

  lemma CombinationCoordinates(b: Vec3, c: Vec3, w: Vec3, u: real, v: real)
    requires w.x == b.x * u + c.x * v && w.y == b.y * u + c.y * v && w.z == b.z * u + c.z * v
    ensures w == Add(Scale(b, u), Scale(c, v))
  {}

  lemma DecompositionX(b: Vec3, c: Vec3, w: Vec3)
    requires Dot(w, Cross(b, c)) == 0.0
    ensures var n := Cross(b, c);
      SqLength(n) * w.x == Dot(Cross(w, c), n) * b.x + Dot(Cross(b, w), n) * c.x
  {
    var n := Cross(b, c);
    DecompositionFacts(b, c, w);
    DecompositionCoordinate(b.x, b.y, b.z, c.x, c.y, c.z, w.x, w.y, w.z, n.x, n.y, n.z,
                            SqLength(n), Dot(Cross(w, c), n), Dot(Cross(b, w), n));
  }

  lemma DecompositionY(b: Vec3, c: Vec3, w: Vec3)
    requires Dot(w, Cross(b, c)) == 0.0
    ensures var n := Cross(b, c);
      SqLength(n) * w.y == Dot(Cross(w, c), n) * b.y + Dot(Cross(b, w), n) * c.y
  {
    var n := Cross(b, c);
    DecompositionFacts(b, c, w);
    DecompositionCoordinate(b.y, b.z, b.x, c.y, c.z, c.x, w.y, w.z, w.x, n.y, n.z, n.x,
                            SqLength(n), Dot(Cross(w, c), n), Dot(Cross(b, w), n));
  }

  lemma DecompositionZ(b: Vec3, c: Vec3, w: Vec3)
    requires Dot(w, Cross(b, c)) == 0.0
    ensures var n := Cross(b, c);
      SqLength(n) * w.z == Dot(Cross(w, c), n) * b.z + Dot(Cross(b, w), n) * c.z
  {
    var n := Cross(b, c);
    DecompositionFacts(b, c, w);
    DecompositionCoordinate(b.z, b.x, b.y, c.z, c.x, c.y, w.z, w.x, w.y, n.z, n.x, n.y,
                            SqLength(n), Dot(Cross(w, c), n), Dot(Cross(b, w), n));
  }

  /** The coordinates of `b x c`, of `|b x c|^2` and of the dot products of
      `PlaneCoordinates`, in the form `DecompositionCoordinate` asks for. */
  lemma DecompositionFacts(b: Vec3, c: Vec3, w: Vec3)
    ensures var n := Cross(b, c);
      && n.x == b.y * c.z - b.z * c.y && n.y == b.z * c.x - b.x * c.z && n.z == b.x * c.y - b.y * c.x
      && SqLength(n) == n.x * n.x + n.y * n.y + n.z * n.z
      && Dot(Cross(w, c), n) == (w.y * c.z - w.z * c.y) * n.x + (w.z * c.x - w.x * c.z) * n.y + (w.x * c.y - w.y * c.x) * n.z
      && Dot(Cross(b, w), n) == (b.y * w.z - b.z * w.y) * n.x + (b.z * w.x - b.x * w.z) * n.y + (b.x * w.y - b.y * w.x) * n.z
      && Dot(w, n) == w.x * n.x + w.y * n.y + w.z * n.z
  {
    CrossCoordinates(b, c);
    CrossCoordinates(w, c);
    CrossCoordinates(b, w);
    SqLengthCoordinates(Cross(b, c));
    DotCoordinates(Cross(w, c), Cross(b, c));
    DotCoordinates(Cross(b, w), Cross(b, c));
    DotCoordinates(w, Cross(b, c));
  }

  /** The first coordinate of the identity of `PlaneCoordinates`, for a
      vector `w` orthogonal to `n == b x c`. */
  lemma DecompositionCoordinate(bx: real, b2: real, bz: real, cx: real, cy: real, cz: real,
                                wx: real, wy: real, wz: real, n1: real, n2: real, n3: real,
                                s: real, cu: real, cv: real)
    requires n1 == b2 * cz - bz * cy && n2 == bz * cx - bx * cz && n3 == bx * cy - b2 * cx
    requires s == n1 * n1 + n2 * n2 + n3 * n3
    requires cu == (wy * cz - wz * cy) * n1 + (wz * cx - wx * cz) * n2 + (wx * cy - wy * cx) * n3
    requires cv == (b2 * wz - bz * wy) * n1 + (bz * wx - bx * wz) * n2 + (bx * wy - b2 * wx) * n3
    requires wx * n1 + wy * n2 + wz * n3 == 0.0
    ensures s * wx == cu * bx + cv * cx
  {
    var e1, e2, e3 := wy * cz - wz * cy, wz * cx - wx * cz, wx * cy - wy * cx;
    var f1, f2, f3 := b2 * wz - bz * wy, bz * wx - bx * wz, bx * wy - b2 * wx;
    Regroup(cu, cv, e1, e2, e3, f1, f2, f3, n1, n2, n3, bx, cx);
    var g1, g2, g3 := e1 * bx + f1 * cx, e2 * bx + f2 * cx, e3 * bx + f3 * cx;
    assert g1 == -(wy * n2 + wz * n3);
    assert g2 == wx * n2;
    assert g3 == wx * n3;
    Collect(g1, g2, g3, n1, n2, n3, wx, wy, wz, s);
  }

  lemma Regroup(cu: real, cv: real, e1: real, e2: real, e3: real, f1: real, f2: real, f3: real,
                n1: real, n2: real, n3: real, bx: real, cx: real)
    requires cu == e1 * n1 + e2 * n2 + e3 * n3 && cv == f1 * n1 + f2 * n2 + f3 * n3
    ensures cu * bx + cv * cx == (e1 * bx + f1 * cx) * n1 + (e2 * bx + f2 * cx) * n2 + (e3 * bx + f3 * cx) * n3
  {}

  lemma Collect(g1: real, g2: real, g3: real, n1: real, n2: real, n3: real, wx: real, wy: real, wz: real,
                s: real)
    requires g1 == -(wy * n2 + wz * n3) && g2 == wx * n2 && g3 == wx * n3
    requires s == n1 * n1 + n2 * n2 + n3 * n3 && wx * n1 + wy * n2 + wz * n3 == 0.0
    ensures g1 * n1 + g2 * n2 + g3 * n3 == s * wx
  {}

  lemma DivideCombination(w: real, b: real, c: real, p: real, q: real, s: real)
    requires s != 0.0
    requires s * w == p * b + q * c
    ensures w == b * (p / s) + c * (q / s)
  {
    MulCancel(w, s);
    assert (p * b + q * c) / s == b * (p / s) + c * (q / s);
  }

  // ---------------------------------------------------------------------------
  // Balls are convex
  //
  // From here on a lemma called in a context that holds products receives
  // only variables; its `ensures` then mention the products of the caller
  // term for term.

  /** A combination with non-negative weights adding up to one of three
      vectors of squared length at most `bound` has squared length at most
      `bound`. */
  lemma ConvexCombinationBound(x: Vec3, y: Vec3, z: Vec3, l: real, m: real, k: real, bound: real)
    requires 0.0 <= l && 0.0 <= m && 0.0 <= k && l + m + k == 1.0
    requires SqLength(x) <= bound && SqLength(y) <= bound && SqLength(z) <= bound
    ensures SqLength(Add(Add(Scale(x, l), Scale(y, m)), Scale(z, k))) <= bound
  {
    ConvexDefect(x, y, z, l, m, k);
    DefectNonNegative(x, y, z, l, m, k);
    WeightedBound(x, y, z, l, m, k, bound);
  }

  lemma DefectNonNegative(x: Vec3, y: Vec3, z: Vec3, l: real, m: real, k: real)
    requires 0.0 <= l && 0.0 <= m && 0.0 <= k
    ensures 0.0 <= l * m * SqLength(Sub(x, y)) + m * k * SqLength(Sub(y, z)) + k * l * SqLength(Sub(z, x))
  {
    PairDefectNonNegative(x, y, l, m);
    PairDefectNonNegative(y, z, m, k);
    PairDefectNonNegative(z, x, k, l);
  }

  lemma PairDefectNonNegative(x: Vec3, y: Vec3, l: real, m: real)
    requires 0.0 <= l && 0.0 <= m
    ensures 0.0 <= l * m * SqLength(Sub(x, y))
  {
    MulNonNegative(l, m);
    MulNonNegative(l * m, SqLength(Sub(x, y)));
  }

  lemma WeightedBound(x: Vec3, y: Vec3, z: Vec3, l: real, m: real, k: real, bound: real)
    requires 0.0 <= l && 0.0 <= m && 0.0 <= k && l + m + k == 1.0
    requires SqLength(x) <= bound && SqLength(y) <= bound && SqLength(z) <= bound
    ensures l * SqLength(x) + m * SqLength(y) + k * SqLength(z) <= bound
  {
    WeightedBoundScalar(SqLength(x), SqLength(y), SqLength(z), l, m, k, bound);
  }

  lemma WeightedBoundScalar(sx: real, sy: real, sz: real, l: real, m: real, k: real, bound: real)
    requires 0.0 <= l && 0.0 <= m && 0.0 <= k && l + m + k == 1.0
    requires sx <= bound && sy <= bound && sz <= bound
    ensures l * sx + m * sy + k * sz <= bound
  {
    Monotone3(sx, sy, sz, l, m, k, bound);
    WeightsSum(l, m, k, bound);
  }

  lemma Monotone3(sx: real, sy: real, sz: real, l: real, m: real, k: real, bound: real)
    requires 0.0 <= l && 0.0 <= m && 0.0 <= k
    requires sx <= bound && sy <= bound && sz <= bound
    ensures l * sx + m * sy + k * sz <= l * bound + m * bound + k * bound
  {
    MulMonotone(l, sx, bound);
    MulMonotone(m, sy, bound);
    MulMonotone(k, sz, bound);
  }

  lemma WeightsSum(l: real, m: real, k: real, b: real)
    requires l + m + k == 1.0
    ensures l * b + m * b + k * b == b
  {
    assert l * b + m * b + k * b == (l + m + k) * b;
  }

  /** `l |x|^2 + m |y|^2 + k |z|^2 - |l x + m y + k z|^2` is the weighted sum
      of the squared distances between the three points. */
  lemma ConvexDefect(x: Vec3, y: Vec3, z: Vec3, l: real, m: real, k: real)
    requires l + m + k == 1.0
    ensures l * SqLength(x) + m * SqLength(y) + k * SqLength(z)
            - SqLength(Add(Add(Scale(x, l), Scale(y, m)), Scale(z, k)))
         == l * m * SqLength(Sub(x, y)) + m * k * SqLength(Sub(y, z)) + k * l * SqLength(Sub(z, x))
  {
    ConvexDefectSum(x, y, z, l, m, k);
    WeightedSum(x, y, z, l, m, k);
    PairSum(x, y, z, l, m, k);
    CombinationSqLength(x, y, z, l, m, k);
  }

  lemma WeightedSum(x: Vec3, y: Vec3, z: Vec3, l: real, m: real, k: real)
    ensures l * SqLength(x) + m * SqLength(y) + k * SqLength(z)
         == (l * (x.x * x.x) + l * (x.y * x.y) + l * (x.z * x.z))
          + (m * (y.x * y.x) + m * (y.y * y.y) + m * (y.z * y.z))
          + (k * (z.x * z.x) + k * (z.y * z.y) + k * (z.z * z.z))
  {
    WeightedSqLength(x, l);
    WeightedSqLength(y, m);
    WeightedSqLength(z, k);
    AddThree(l * SqLength(x), m * SqLength(y), k * SqLength(z),
             l * (x.x * x.x) + l * (x.y * x.y) + l * (x.z * x.z),
             m * (y.x * y.x) + m * (y.y * y.y) + m * (y.z * y.z),
             k * (z.x * z.x) + k * (z.y * z.y) + k * (z.z * z.z));
  }

  lemma PairSum(x: Vec3, y: Vec3, z: Vec3, l: real, m: real, k: real)
    ensures l * m * SqLength(Sub(x, y)) + m * k * SqLength(Sub(y, z)) + k * l * SqLength(Sub(z, x))
         == (l * m * ((x.x - y.x) * (x.x - y.x)) + l * m * ((x.y - y.y) * (x.y - y.y)) + l * m * ((x.z - y.z) * (x.z - y.z)))
          + (m * k * ((y.x - z.x) * (y.x - z.x)) + m * k * ((y.y - z.y) * (y.y - z.y)) + m * k * ((y.z - z.z) * (y.z - z.z)))
          + (k * l * ((z.x - x.x) * (z.x - x.x)) + k * l * ((z.y - x.y) * (z.y - x.y)) + k * l * ((z.z - x.z) * (z.z - x.z)))
  {
    PairSqLength(x, y, l, m);
    PairSqLength(y, z, m, k);
    PairSqLength(z, x, k, l);
    AddThree(l * m * SqLength(Sub(x, y)), m * k * SqLength(Sub(y, z)), k * l * SqLength(Sub(z, x)),
             l * m * ((x.x - y.x) * (x.x - y.x)) + l * m * ((x.y - y.y) * (x.y - y.y)) + l * m * ((x.z - y.z) * (x.z - y.z)),
             m * k * ((y.x - z.x) * (y.x - z.x)) + m * k * ((y.y - z.y) * (y.y - z.y)) + m * k * ((y.z - z.z) * (y.z - z.z)),
             k * l * ((z.x - x.x) * (z.x - x.x)) + k * l * ((z.y - x.y) * (z.y - x.y)) + k * l * ((z.z - x.z) * (z.z - x.z)));
  }

  lemma AddThree(p: real, q: real, r: real, p': real, q': real, r': real)
    requires p == p' && q == q' && r == r'
    ensures p + q + r == p' + q' + r'
  {}

  lemma ConvexDefectSum(x: Vec3, y: Vec3, z: Vec3, l: real, m: real, k: real)
    requires l + m + k == 1.0
    ensures var p := Add(Add(Scale(x, l), Scale(y, m)), Scale(z, k));
      (l * (x.x * x.x) + l * (x.y * x.y) + l * (x.z * x.z))
      + (m * (y.x * y.x) + m * (y.y * y.y) + m * (y.z * y.z))
      + (k * (z.x * z.x) + k * (z.y * z.y) + k * (z.z * z.z))
      - (p.x * p.x + p.y * p.y + p.z * p.z)
      == (l * m * ((x.x - y.x) * (x.x - y.x)) + l * m * ((x.y - y.y) * (x.y - y.y)) + l * m * ((x.z - y.z) * (x.z - y.z)))
       + (m * k * ((y.x - z.x) * (y.x - z.x)) + m * k * ((y.y - z.y) * (y.y - z.y)) + m * k * ((y.z - z.z) * (y.z - z.z)))
       + (k * l * ((z.x - x.x) * (z.x - x.x)) + k * l * ((z.y - x.y) * (z.y - x.y)) + k * l * ((z.z - x.z) * (z.z - x.z)))
  {
    ConvexDefectX(x, y, z, l, m, k);
    ConvexDefectY(x, y, z, l, m, k);
    ConvexDefectZ(x, y, z, l, m, k);
  }

  lemma WeightedSqLength(x: Vec3, l: real)
    ensures l * SqLength(x) == l * (x.x * x.x) + l * (x.y * x.y) + l * (x.z * x.z)
  {
    SqLengthCoordinates(x);
  }

  lemma PairSqLength(x: Vec3, y: Vec3, l: real, m: real)
    ensures l * m * SqLength(Sub(x, y))
         == l * m * ((x.x - y.x) * (x.x - y.x)) + l * m * ((x.y - y.y) * (x.y - y.y)) + l * m * ((x.z - y.z) * (x.z - y.z))
  {
    SqLengthCoordinates(Sub(x, y));
  }

  lemma CombinationSqLength(x: Vec3, y: Vec3, z: Vec3, l: real, m: real, k: real)
    ensures var p := Add(Add(Scale(x, l), Scale(y, m)), Scale(z, k));
      SqLength(p) == p.x * p.x + p.y * p.y + p.z * p.z
  {
    SqLengthCoordinates(Add(Add(Scale(x, l), Scale(y, m)), Scale(z, k)));
  }

  lemma ConvexDefectX(x: Vec3, y: Vec3, z: Vec3, l: real, m: real, k: real)
    requires l + m + k == 1.0
    ensures var p := Add(Add(Scale(x, l), Scale(y, m)), Scale(z, k));
      l * (x.x * x.x) + m * (y.x * y.x) + k * (z.x * z.x) - p.x * p.x
      == l * m * ((x.x - y.x) * (x.x - y.x)) + m * k * ((y.x - z.x) * (y.x - z.x)) + k * l * ((z.x - x.x) * (z.x - x.x))
  {
    var p := Add(Add(Scale(x, l), Scale(y, m)), Scale(z, k));
    ConvexDefectCoordinate(x.x, y.x, z.x, p.x, l, m, k);
  }

  lemma ConvexDefectY(x: Vec3, y: Vec3, z: Vec3, l: real, m: real, k: real)
    requires l + m + k == 1.0
    ensures var p := Add(Add(Scale(x, l), Scale(y, m)), Scale(z, k));
      l * (x.y * x.y) + m * (y.y * y.y) + k * (z.y * z.y) - p.y * p.y
      == l * m * ((x.y - y.y) * (x.y - y.y)) + m * k * ((y.y - z.y) * (y.y - z.y)) + k * l * ((z.y - x.y) * (z.y - x.y))
  {
    var p := Add(Add(Scale(x, l), Scale(y, m)), Scale(z, k));
    ConvexDefectCoordinate(x.y, y.y, z.y, p.y, l, m, k);
  }

  lemma ConvexDefectZ(x: Vec3, y: Vec3, z: Vec3, l: real, m: real, k: real)
    requires l + m + k == 1.0
    ensures var p := Add(Add(Scale(x, l), Scale(y, m)), Scale(z, k));
      l * (x.z * x.z) + m * (y.z * y.z) + k * (z.z * z.z) - p.z * p.z
      == l * m * ((x.z - y.z) * (x.z - y.z)) + m * k * ((y.z - z.z) * (y.z - z.z)) + k * l * ((z.z - x.z) * (z.z - x.z))
  {
    var p := Add(Add(Scale(x, l), Scale(y, m)), Scale(z, k));
    ConvexDefectCoordinate(x.z, y.z, z.z, p.z, l, m, k);
  }

  /** One coordinate of `ConvexDefect`. */
  lemma ConvexDefectCoordinate(a: real, b: real, c: real, p: real, l: real, m: real, k: real)
    requires l + m + k == 1.0 && p == a * l + b * m + c * k
    ensures l * (a * a) + m * (b * b) + k * (c * c) - p * p
         == l * m * ((a - b) * (a - b)) + m * k * ((b - c) * (b - c)) + k * l * ((c - a) * (c - a))
  {
    assert k == 1.0 - l - m;
  }
}
