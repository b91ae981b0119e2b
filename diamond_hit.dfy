/** `diamond::hit` (diamond.h:46-317): the bounding-sphere pre-filter, the
    three passes over the faces, the nearest-hit selection and the write into
    the hit record. The functions state what the test computes; the methods
    at the end of the module do it step by step, the way the source does, and
    are proved to compute the same thing. */
module DiamondHit {
  import opened Vectors
  import opened Planes
  import opened DiamondShape

  /** The fields of `hit_record` that `diamond::hit` writes: the distance `t`
      of the hit from the ray origin, the point, the unit normal and the
      material. */
  datatype HitRecord<M> = HitRecord(t: real, p: Vec3, normal: Vec3, mat: M)

  // ---------------------------------------------------------------------------
  // The bounding-sphere pre-filter (diamond.h:54-68)

  /** The coefficients of diamond.h:55-57. The ray `origin + t * direction`
      meets the sphere of radius `height` around the centre where
      `a t^2 + 2 b t + c == 0`. */
  datatype Quadratic = Quadratic(a: real, b: real, c: real)

  /** `SqLength(v)` is `dot(v, v)`. The leading coefficient vanishes only for
      a zero direction, and the constant one is not positive exactly when the
      ray starts in the closed ball. */
  function SphereQuadratic<M>(d: Diamond<M>, r: Ray): (q: Quadratic)
    ensures 0.0 <= q.a && (q.a == 0.0 <==> r.direction == Zero)
    ensures q.c <= 0.0 <==> SqLength(Sub(r.origin, d.center)) <= Sq(d.height)
  {
    var oc := Sub(r.origin, d.center);
    Quadratic(SqLength(r.direction), Dot(oc, r.direction), SqLength(oc) - Sq(d.height))
  }

  /** `discriminant` (diamond.h:58): a quarter of the usual one, as `b` is
      half the linear coefficient. */
  function Discriminant(q: Quadratic): (disc: real)
    ensures 0.0 < q.a && q.c < 0.0 ==> 0.0 < disc
  {
    NegativeProduct(q.a, q.c);
    Sq(q.b) - q.a * q.c
  }

  lemma NegativeProduct(a: real, c: real)
    ensures 0.0 < a && c < 0.0 ==> a * c < 0.0
  {
    if 0.0 < a && c < 0.0 {
      MulStrictMonotone(a, c, 0.0);
    }
  }

  /** A positive discriminant needs a non-zero direction, and by the
      Cauchy-Schwarz inequality also a diamond of non-zero height. */
  lemma PositiveDiscriminant<M>(d: Diamond<M>, r: Ray)
    requires Discriminant(SphereQuadratic(d, r)) > 0.0
    ensures SphereQuadratic(d, r).a > 0.0
    ensures d.height != 0.0
  {
    var oc := Sub(r.origin, d.center);
    var a, b, cc := SqLength(r.direction), Dot(oc, r.direction), SqLength(oc);
    assert SphereQuadratic(d, r) == Quadratic(a, b, cc - Sq(d.height));
    DotBounds(oc, r.direction);
    DiscriminantSigns(a, b, cc, d.height);
  }

  lemma DotBounds(u: Vec3, v: Vec3)
    ensures SqLength(v) == 0.0 ==> Dot(u, v) == 0.0
    ensures Sq(Dot(u, v)) <= SqLength(u) * SqLength(v)
  {
    if SqLength(v) == 0.0 {
      assert v == Zero;
      DotZero(u);
    }
    CauchySchwarz(u, v);
  }

  /** The scalar core of `PositiveDiscriminant`, with `a == |dir|^2`,
      `b == oc . dir` and `cc == |oc|^2`. */
  lemma DiscriminantSigns(a: real, b: real, cc: real, h: real)
    requires 0.0 <= a && 0.0 <= cc
    requires Sq(b) <= cc * a
    requires a == 0.0 ==> b == 0.0
    requires Sq(b) - a * (cc - Sq(h)) > 0.0
    ensures a > 0.0 && h != 0.0
  {
    assert h == 0.0 ==> a * (cc - Sq(h)) == cc * a;
    assert a == 0.0 ==> Sq(b) == 0.0 && a * (cc - Sq(h)) == 0.0;
  }

  /** The value `a t^2 + 2 b t + c` of the quadratic at `t`. */
  function Value(q: Quadratic, t: real): real {
    q.a * Sq(t) + 2.0 * q.b * t + q.c
  }

  /** Along the ray, the quadratic measures how far outside the bounding
      sphere the ray point is: at parameter `t` its value is the squared
      distance of `origin + t * direction` from the centre minus the squared
      radius. */
  lemma SphereAlongRay<M>(d: Diamond<M>, r: Ray, t: real)
    ensures SqLength(Sub(RayPoint(r, t), d.center)) - Sq(d.height) == Value(SphereQuadratic(d, r), t)
  {
    RayOffset(d, r, t);
    SphereValue(d, r, t);
    var e := SqLength(r.direction) * Sq(t) + 2.0 * Dot(Sub(r.origin, d.center), r.direction) * t
      + SqLength(Sub(r.origin, d.center));
    Shifted(SqLength(Sub(RayPoint(r, t), d.center)), e, Value(SphereQuadratic(d, r), t), Sq(d.height));
  }

  lemma RayOffset<M>(d: Diamond<M>, r: Ray, t: real)
    ensures SqLength(Sub(RayPoint(r, t), d.center)) == SqLength(r.direction) * Sq(t)
      + 2.0 * Dot(Sub(r.origin, d.center), r.direction) * t + SqLength(Sub(r.origin, d.center))
  {
    assert Sub(RayPoint(r, t), d.center) == Add(Sub(r.origin, d.center), Scale(r.direction, t));
    ExpandAlong(Sub(r.origin, d.center), r.direction, t);
  }

  lemma SphereValue<M>(d: Diamond<M>, r: Ray, t: real)
    ensures Value(SphereQuadratic(d, r), t) == SqLength(r.direction) * Sq(t)
      + 2.0 * Dot(Sub(r.origin, d.center), r.direction) * t + SqLength(Sub(r.origin, d.center)) - Sq(d.height)
  {}

  lemma Shifted(x: real, e: real, v: real, h: real)
    requires x == e && v == e - h
    ensures x - h == v
  {}

  /** `|o + t e|^2 == |e|^2 t^2 + 2 (o . e) t + |o|^2` */
  lemma ExpandAlong(o: Vec3, e: Vec3, t: real)
    ensures SqLength(Add(o, Scale(e, t))) == SqLength(e) * Sq(t) + 2.0 * Dot(o, e) * t + SqLength(o)
  {
    var w := Add(o, Scale(e, t));
    SqLengthCoordinates(w);
    SqLengthCoordinates(o);
    SqLengthCoordinates(e);
    DotCoordinates(o, e);
    SqProduct(t);
    AlongRay(SqLength(w), SqLength(e), Dot(o, e), SqLength(o), t, Sq(t),
             w.x, w.y, w.z, o.x, o.y, o.z, e.x, e.y, e.z);
  }

  /** The scalar core of `ExpandAlong`, with `w == o + t e`. */
  lemma AlongRay(ww: real, ee: real, oe: real, oo: real, t: real, tt: real,
                 w1: real, w2: real, w3: real, o1: real, o2: real, o3: real, e1: real, e2: real, e3: real)
    requires tt == t * t
    requires ww == w1 * w1 + w2 * w2 + w3 * w3 && ee == e1 * e1 + e2 * e2 + e3 * e3
    requires oe == o1 * e1 + o2 * e2 + o3 * e3 && oo == o1 * o1 + o2 * o2 + o3 * o3
    requires w1 == o1 + e1 * t && w2 == o2 + e2 * t && w3 == o3 + e3 * t
    ensures ww == ee * tt + 2.0 * oe * t + oo
  {
    SquareAlong(w1, o1, e1, t, tt);
    SquareAlong(w2, o2, e2, t, tt);
    SquareAlong(w3, o3, e3, t, tt);
    assert ee * tt == (e1 * e1) * tt + (e2 * e2) * tt + (e3 * e3) * tt;
    assert 2.0 * oe * t == 2.0 * (o1 * e1) * t + 2.0 * (o2 * e2) * t + 2.0 * (o3 * e3) * t;
  }

  lemma SquareAlong(w: real, o: real, e: real, t: real, tt: real)
    requires w == o + e * t && tt == t * t
    ensures w * w == (e * e) * tt + 2.0 * (o * e) * t + o * o
  {}

  /** The roots of the quadratic are exactly the parameters at which the ray
      is on the sphere. */
  lemma RootOnSphere<M>(d: Diamond<M>, r: Ray, t: real)
    ensures Value(SphereQuadratic(d, r), t) == 0.0 <==> SqLength(Sub(RayPoint(r, t), d.center)) == Sq(d.height)
  {
    SphereAlongRay(d, r, t);
    ZeroDifference(SqLength(Sub(RayPoint(r, t), d.center)), Sq(d.height), Value(SphereQuadratic(d, r), t));
  }

  lemma ZeroDifference(x: real, y: real, f: real)
    requires x - y == f
    ensures f == 0.0 <==> x == y
  {}

  /** Times `a`, the quadratic is a square minus the discriminant:
      `a (a t^2 + 2 b t + c) == (a t + b)^2 - (b^2 - a c)`. */
  lemma CompletedSquare(q: Quadratic, t: real)
    ensures q.a * Value(q, t) == Sq(q.a * t + q.b) - Discriminant(q)
  {
    SqProduct(t);
    SqProduct(q.b);
    SqProduct(q.a * t + q.b);
    CompletedSquareScalar(q.a, q.b, q.c, t);
  }

  lemma CompletedSquareScalar(a: real, b: real, c: real, t: real)
    ensures a * (a * (t * t) + 2.0 * b * t + c) == (a * t + b) * (a * t + b) - (b * b - a * c)
  {}

  /** With `a > 0`: the quadratic is nowhere negative when the discriminant
      is not positive, and at its vertex, where `a t + b == 0`, it is
      negative exactly when the discriminant is positive. */
  lemma QuadraticValue(q: Quadratic, t: real)
    requires 0.0 < q.a
    ensures Discriminant(q) <= 0.0 ==> 0.0 <= Value(q, t)
    ensures q.a * t + q.b == 0.0 ==> (Value(q, t) < 0.0 <==> 0.0 < Discriminant(q))
  {
    CompletedSquare(q, t);
    QuadraticSign(q.a, Value(q, t), Sq(q.a * t + q.b), Discriminant(q));
  }

  /** With `a > 0`, `a f == s - disc` and `s >= 0`: `f` is not negative when
      `disc` is not positive, and with `s == 0`, `f` is negative exactly when
      `disc` is positive. */
  lemma QuadraticSign(a: real, f: real, s: real, disc: real)
    requires 0.0 < a && 0.0 <= s && a * f == s - disc
    ensures disc <= 0.0 ==> 0.0 <= f
    ensures s == 0.0 ==> (f < 0.0 <==> 0.0 < disc)
  {
    MulSign(a, f);
    MulSign(a, -f);
  }

  /** The discriminant decides whether the ray's line enters the bounding
      ball (diamond.h:49-52, 58-61): when it is not positive, no point of the
      line is inside the open ball, and when it is positive, the point of
      the line at the parameter `-b / a` is strictly inside. */
  lemma DiscriminantDecidesSphere<M>(d: Diamond<M>, r: Ray, t: real)
    requires r.direction != Zero
    ensures var q := SphereQuadratic(d, r);
      Discriminant(q) <= 0.0 ==> SqLength(Sub(RayPoint(r, t), d.center)) >= Sq(d.height)
    ensures var q := SphereQuadratic(d, r);
      Discriminant(q) > 0.0 <==> SqLength(Sub(RayPoint(r, -q.b / q.a), d.center)) < Sq(d.height)
  {
    var q := SphereQuadratic(d, r);
    var m := -q.b / q.a;
    MulCancel(-q.b, q.a);
    assert q.a * m + q.b == 0.0;
    SphereAlongRay(d, r, t);
    SphereAlongRay(d, r, m);
    QuadraticValue(q, t);
    QuadraticValue(q, m);
  }

  /** `distance` (diamond.h:63-65): the nearer of the two roots. The ray is
      on the sphere there. */
  function NearRoot<M>(sqrt: real -> real, d: Diamond<M>, r: Ray): (t: real)
    requires IsSqrt(sqrt)
    requires Discriminant(SphereQuadratic(d, r)) > 0.0
    ensures Value(SphereQuadratic(d, r), t) == 0.0
    ensures var q := SphereQuadratic(d, r); q.a * t + q.b < 0.0
    ensures SqLength(Sub(RayPoint(r, t), d.center)) == Sq(d.height)
  {
    PositiveDiscriminant(d, r);
    var q := SphereQuadratic(d, r);
    var s := sqrt(Discriminant(q));
    SmallerRoot(q, s);
    var t := Min((-q.b - s) / q.a, (-q.b + s) / q.a);
    RootOnSphere(d, r, t);
    t
  }

  /** With `a > 0` and `s` the positive root of the discriminant, the smaller
      of `(-b - s) / a` and `(-b + s) / a` is the first one; it is a root of
      the quadratic and lies left of the vertex `-b / a`. */
  lemma SmallerRoot(q: Quadratic, s: real)
    requires 0.0 < q.a && 0.0 < s && Sq(s) == Discriminant(q)
    ensures var t := Min((-q.b - s) / q.a, (-q.b + s) / q.a);
      t == (-q.b - s) / q.a && Value(q, t) == 0.0 && q.a * t + q.b < 0.0
  {
    DivStrictMonotone(-q.b - s, -q.b + s, q.a);
    var t := (-q.b - s) / q.a;
    MulCancel(-q.b - s, q.a);
    assert t * q.a == -q.b - s;
    QuadraticAtRoot(q, s, t);
  }

  lemma QuadraticAtRoot(q: Quadratic, s: real, t: real)
    requires 0.0 < q.a && Sq(s) == Discriminant(q) && t * q.a == -q.b - s
    ensures Value(q, t) == 0.0 && q.a * t + q.b == -s
  {
    CompletedSquare(q, t);
    assert q.a * t + q.b == -s;
    NegSquare(s);
    MulCancel(Value(q, t), q.a);
  }

  /** The ray gets past the pre-filter: it crosses the bounding sphere
      (diamond.h:60-61) at a positive parameter (diamond.h:67-68). */
  predicate PassesPreFilter<M>(sqrt: real -> real, d: Diamond<M>, r: Ray): (pass: bool)
    requires IsSqrt(sqrt)
    ensures pass ==> r.direction != Zero && d.height != 0.0
  {
    if Discriminant(SphereQuadratic(d, r)) > 0.0 then
      PositiveDiscriminant(d, r);
      NearRoot(sqrt, d, r) > 0.0
    else false
  }

  /** With `a > 0` and a positive discriminant, the nearer root of
      `a t^2 + 2 b t + c` is positive exactly when both roots are: when
      `b < 0` and `c > 0`. */
  lemma NearRootSign(sqrt: real -> real, q: Quadratic)
    requires IsSqrt(sqrt)
    requires q.a > 0.0 && Discriminant(q) > 0.0
    ensures (Min((-q.b - sqrt(Discriminant(q))) / q.a, (-q.b + sqrt(Discriminant(q))) / q.a) > 0.0)
        <==> (q.b < 0.0 && q.c > 0.0)
  {
    var disc := Discriminant(q);
    var s := sqrt(disc);
    assert 0.0 <= s && Sq(s) == disc;
    assert s != 0.0;
    DivStrictMonotone(-q.b - s, -q.b + s, q.a);
    DivPositive(-q.b - s, q.a);
    MulSign(q.a, q.c);
    if q.b < 0.0 {
      NegSquare(q.b);
      SquareMonotone(s, -q.b);
    }
  }

  /** The pre-filter lets the ray through exactly when the ray crosses the
      bounding sphere, heads towards its centre and starts outside it. */
  lemma PreFilterMeaning<M>(sqrt: real -> real, d: Diamond<M>, r: Ray)
    requires IsSqrt(sqrt)
    ensures PassesPreFilter(sqrt, d, r) <==>
      (Discriminant(SphereQuadratic(d, r)) > 0.0
       && Dot(Sub(r.origin, d.center), r.direction) < 0.0
       && SqLength(Sub(r.origin, d.center)) > Sq(d.height))
  {
    var q := SphereQuadratic(d, r);
    if Discriminant(q) > 0.0 {
      PositiveDiscriminant(d, r);
      NearRootSign(sqrt, q);
    }
  }

  /** `epsilon` (diamond.h:132): `min(1e-6, |1e-6 * height|)`, the tolerance
      below which a face counts as parallel to the ray. */
  function Epsilon(h: real): (eps: real)
    ensures 0.0 <= eps <= 0.000001
    ensures eps <= Abs(h) * 0.000001
    ensures eps > 0.0 <==> h != 0.0
  {
    Min(0.000001, Abs(0.000001 * h))
  }

  // ---------------------------------------------------------------------------
  // Crossing one face (diamond.h:144-177, 205-230, 251-280)

  /** `d = numer / denom` (diamond.h:152-159): the parameter at which the ray
      meets the plane of the face. The ray point it picks lies on the plane,
      and `PlaneParameterUnique` shows it is the only one that does. */
  function PlaneParameter(r: Ray, f: Face): (k: real)
    requires Dot(r.direction, f.planeVec) != 0.0
    ensures OnPlane(f, RayPoint(r, k))
  {
    var u := Sub(r.origin, f.planePt);
    var denom := Dot(r.direction, f.planeVec);
    var k := Dot(Neg(u), f.planeVec) / denom;
    assert Sub(RayPoint(r, k), f.planePt) == Add(u, Scale(r.direction, k));
    DotAddScale(u, r.direction, f.planeVec, k);
    assert Dot(Neg(u), f.planeVec) == -Dot(u, f.planeVec);
    MulCancel(Dot(Neg(u), f.planeVec), denom);
    k
  }

  /** `line_pt + line_vec * d` (diamond.h:165): the point `k` direction
      vectors away from the origin. */
  function RayPoint(r: Ray, k: real): (p: Vec3)
    ensures Sub(p, r.origin) == Scale(r.direction, k)
  {
    Add(r.origin, Scale(r.direction, k))
  }

  lemma DotAddScale(u: Vec3, v: Vec3, n: Vec3, k: real)
    ensures Dot(Add(u, Scale(v, k)), n) == Dot(u, n) + k * Dot(v, n)
  {}

  /** A ray that is not parallel to a plane meets it once: the only ray point
      on the plane is the one at `numer / denom`. */
  lemma PlaneParameterUnique(r: Ray, f: Face, k: real)
    requires Dot(r.direction, f.planeVec) != 0.0
    requires OnPlane(f, RayPoint(r, k))
    ensures k == PlaneParameter(r, f)
  {
    var u := Sub(r.origin, f.planePt);
    var denom := Dot(r.direction, f.planeVec);
    assert Sub(RayPoint(r, k), f.planePt) == Add(u, Scale(r.direction, k));
    DotAddScale(u, r.direction, f.planeVec, k);
    assert Dot(Neg(u), f.planeVec) == -Dot(u, f.planeVec);
    assert k * denom == Dot(Neg(u), f.planeVec);
    MulCancel(k, denom);
  }

  /** `(proj - r.origin()).length()`: how far a point is from the ray origin. */
  function Distance(sqrt: real -> real, origin: Vec3, p: Vec3): real
    requires IsSqrt(sqrt)
  {
    Length(sqrt, Sub(p, origin))
  }

  /** The distance of a ray point from the origin is `|k|` times the length
      of the direction, whatever the sign of `k`: the interval check of
      diamond.h:162, 222 and 267 does not look at the sign of the plane
      parameter, and the hit distance `rec.t` is a Euclidean distance, not a
      ray parameter. */
  lemma RayPointDistance(sqrt: real -> real, r: Ray, k: real)
    requires IsSqrt(sqrt)
    ensures Distance(sqrt, r.origin, RayPoint(r, k)) == Length(sqrt, Scale(r.direction, k))
    ensures Length(sqrt, Scale(r.direction, k)) == Abs(k) * Length(sqrt, r.direction)
    ensures Length(sqrt, Scale(r.direction, -k)) == Length(sqrt, Scale(r.direction, k))
  {
    ScaleLength(sqrt, r.direction, k);
    ScaleLength(sqrt, r.direction, -k);
  }

  /** An accepted face crossing: the projected point and the unit normal
      `unit_vector(plane_vec)` that would be registered for it. */
  datatype Candidate = Candidate(point: Vec3, normal: Vec3)

  /** What one face makes of the ray. */
  datatype Crossing =
    | Parallel              // `fabs(denom) < epsilon`: skipped
    | OutOfRange            // the crossing is outside `[t_min, t_max]`
    | Outside               // the crossing misses the face
    | Inside(hit: Candidate)

  /** One face's share of a pass (diamond.h:144-177 for a bottom face,
      205-230 for a side face, 251-280 for the cap). */
  function CrossFace(sqrt: real -> real, r: Ray, tMin: real, tMax: real, eps: real, f: Face): (x: Crossing)
    requires IsSqrt(sqrt)
    requires 0.0 < eps
    ensures x.Parallel? <==> Abs(Dot(r.direction, f.planeVec)) < eps
    ensures x.Inside? ==> Dot(Sub(x.hit.point, f.planePt), f.planeVec) == 0.0
    ensures x.Inside? ==> tMin <= Distance(sqrt, r.origin, x.hit.point) <= tMax
    ensures x.Inside? ==> Contains(f.shape, x.hit.point)
    ensures x.Inside? ==> SqLength(x.hit.normal) == 1.0 && Cross(x.hit.normal, f.planeVec) == Zero
    ensures x.Inside? ==> Dot(x.hit.normal, f.planeVec) > 0.0
    ensures x.Inside? ==> x.hit.point == RayPoint(r, PlaneParameter(r, f))
  {
    var denom := Dot(r.direction, f.planeVec);
    if Abs(denom) < eps then Parallel
    else
      var k := PlaneParameter(r, f);
      var len := Length(sqrt, Scale(r.direction, k));
      if len < tMin || len > tMax then OutOfRange
      else
        var proj := RayPoint(r, k);
        if !Contains(f.shape, proj) then Outside
        else
          RayPointDistance(sqrt, r, k);
          assert f.planeVec != Zero;
          Inside(Candidate(proj, UnitVector(sqrt, f.planeVec)))
  }

  /** `CrossFace` spelt out the way each pass computes it, from the plane
      point and normal of the face and the dot products `numer` and `denom`
      of diamond.h:152-153. */
  lemma CrossFaceSteps(sqrt: real -> real, r: Ray, tMin: real, tMax: real, eps: real, f: Face, numer: real, denom: real)
    requires IsSqrt(sqrt)
    requires 0.0 < eps
    requires numer == Dot(Neg(Sub(r.origin, f.planePt)), f.planeVec)
    requires denom == Dot(r.direction, f.planeVec)
    ensures Abs(denom) < eps ==> CrossFace(sqrt, r, tMin, tMax, eps, f) == Parallel
    ensures eps <= Abs(denom) ==> denom != 0.0 && f.planeVec != Zero
    ensures eps <= Abs(denom) ==>
      var k := numer / denom;
      var len := Length(sqrt, Scale(r.direction, k));
      var proj := Add(r.origin, Scale(r.direction, k));
      && (len < tMin || len > tMax ==> CrossFace(sqrt, r, tMin, tMax, eps, f) == OutOfRange)
      && (tMin <= len <= tMax && !Contains(f.shape, proj) ==> CrossFace(sqrt, r, tMin, tMax, eps, f) == Outside)
      && (tMin <= len <= tMax && Contains(f.shape, proj) ==>
            CrossFace(sqrt, r, tMin, tMax, eps, f) == Inside(Candidate(proj, UnitVector(sqrt, f.planeVec))))
  {
    DotNonZero(r.direction, f.planeVec);
  }

  /** On a face, a crossing that is not parallel is accepted exactly by the
      containment rule of its shape: a quad when either of its triangles
      holds the point, the cap when one of its fan triangles does. */
  lemma CrossFaceAccepts(sqrt: real -> real, r: Ray, tMin: real, tMax: real, eps: real, f: Face)
    requires IsSqrt(sqrt)
    requires 0.0 < eps
    requires eps <= Abs(Dot(r.direction, f.planeVec))
    requires tMin <= Distance(sqrt, r.origin, RayPoint(r, PlaneParameter(r, f))) <= tMax
    ensures CrossFace(sqrt, r, tMin, tMax, eps, f).Inside?
        <==> Contains(f.shape, RayPoint(r, PlaneParameter(r, f)))
    ensures CrossFace(sqrt, r, tMin, tMax, eps, f).Inside? ==>
        CrossFace(sqrt, r, tMin, tMax, eps, f).hit.point == RayPoint(r, PlaneParameter(r, f))
  {
    RayPointDistance(sqrt, r, PlaneParameter(r, f));
  }

  /** The step for one face does not look at the sign of the plane
      parameter: for a face on its own, a crossing behind the ray origin
      (negative parameter) whose distance `|k| * |dir|` is in the interval
      and whose point the face holds is taken, and the accepted point lies
      on the far side of the origin from the direction of travel. In
      `diamond::hit` the pre-filter makes this unreachable for the faces of
      the diamond (`CandidateAhead`, `HitAheadOfOrigin`). */
  lemma CrossingBehindOrigin(sqrt: real -> real, r: Ray, tMin: real, tMax: real, eps: real, f: Face)
    requires IsSqrt(sqrt)
    requires 0.0 < eps
    requires eps <= Abs(Dot(r.direction, f.planeVec))
    requires PlaneParameter(r, f) < 0.0
    requires tMin <= Abs(PlaneParameter(r, f)) * Length(sqrt, r.direction) <= tMax
    requires Contains(f.shape, RayPoint(r, PlaneParameter(r, f)))
    ensures CrossFace(sqrt, r, tMin, tMax, eps, f).Inside?
    ensures Dot(Sub(CrossFace(sqrt, r, tMin, tMax, eps, f).hit.point, r.origin), r.direction) < 0.0
  {
    var k := PlaneParameter(r, f);
    RayPointDistance(sqrt, r, k);
    CrossFaceAccepts(sqrt, r, tMin, tMax, eps, f);
    DotNonZero(r.direction, f.planeVec);
    BehindArithmetic(r, k);
  }

  lemma BehindArithmetic(r: Ray, k: real)
    requires r.direction != Zero && k < 0.0
    ensures Dot(Sub(RayPoint(r, k), r.origin), r.direction) < 0.0
  {
    assert Sub(RayPoint(r, k), r.origin) == Scale(r.direction, k);
    ScaleDot(r.direction, k);
    MulSign(SqLength(r.direction), -k);
  }

  /** Past the pre-filter, every point of the ray at a parameter `t <= 0`,
      the origin included, is strictly outside the bounding sphere: the
      origin is outside it and the ray heads towards the centre. */
  lemma BehindOriginOutside<M>(sqrt: real -> real, d: Diamond<M>, r: Ray, t: real)
    requires IsSqrt(sqrt)
    requires PassesPreFilter(sqrt, d, r)
    requires t <= 0.0
    ensures SqLength(Sub(RayPoint(r, t), d.center)) > Sq(d.height)
  {
    PreFilterMeaning(sqrt, d, r);
    OutsideBehind(d, r, t);
  }

  lemma OutsideBehind<M>(d: Diamond<M>, r: Ray, t: real)
    requires Dot(Sub(r.origin, d.center), r.direction) < 0.0
    requires SqLength(Sub(r.origin, d.center)) > Sq(d.height)
    requires t <= 0.0
    ensures SqLength(Sub(RayPoint(r, t), d.center)) > Sq(d.height)
  {
    RayOffset(d, r, t);
    BehindScalar(SqLength(Sub(RayPoint(r, t), d.center)), SqLength(r.direction), Sq(t),
                 Dot(Sub(r.origin, d.center), r.direction), t, SqLength(Sub(r.origin, d.center)), Sq(d.height));
  }

  /** The scalar core of `BehindOriginOutside`: `x == a tt + 2 b t + oo` with
      `a, tt >= 0`, `b < 0`, `t <= 0` and `oo > h`. */
  lemma BehindScalar(x: real, a: real, tt: real, b: real, t: real, oo: real, h: real)
    requires x == a * tt + 2.0 * b * t + oo
    requires 0.0 <= a && 0.0 <= tt && b < 0.0 && t <= 0.0 && oo > h
    ensures x > h
  {
    MulNonNegative(a, tt);
    MulNonNegative(-b, -t);
    assert 2.0 * b * t == 2.0 * ((-b) * (-t));
  }

  /** Past the pre-filter, a face of the diamond takes a crossing only ahead
      of the origin: the accepted point is on the face, so in the closed
      bounding ball, which the ray does not meet at a parameter `<= 0`. The
      sign of the plane parameter that `CrossingBehindOrigin` leaves open is
      thus settled for the faces `diamond::hit` visits. */
  lemma CandidateAhead<M>(sqrt: real -> real, d: Diamond<M>, r: Ray, tMin: real, tMax: real, f: Face)
    requires IsSqrt(sqrt)
    requires PassesPreFilter(sqrt, d, r)
    requires f in Faces(sqrt, d)
    requires CrossFace(sqrt, r, tMin, tMax, Epsilon(d.height), f).Inside?
    ensures Dot(r.direction, f.planeVec) != 0.0
    ensures PlaneParameter(r, f) > 0.0
    ensures Dot(Sub(CrossFace(sqrt, r, tMin, tMax, Epsilon(d.height), f).hit.point, r.origin), r.direction) > 0.0
  {
    var x := CrossFace(sqrt, r, tMin, tMax, Epsilon(d.height), f);
    DotNonZero(r.direction, f.planeVec);
    var k := PlaneParameter(r, f);
    FacePointInBall(sqrt, d, f, x.hit.point);
    if k <= 0.0 {
      BehindOriginOutside(sqrt, d, r, k);
    }
    AheadArithmetic(r, k);
  }

  lemma AheadArithmetic(r: Ray, k: real)
    requires r.direction != Zero && 0.0 < k
    ensures Dot(Sub(RayPoint(r, k), r.origin), r.direction) > 0.0
  {
    assert Sub(RayPoint(r, k), r.origin) == Scale(r.direction, k);
    ScaleDot(r.direction, k);
    MulSign(SqLength(r.direction), k);
  }

  /** A side face takes the crossing when either of its two triangles does
      (diamond.h:228). */
  lemma SideFaceRule<M>(sqrt: real -> real, d: Diamond<M>, i: int, r: Ray, tMin: real, tMax: real, eps: real)
    requires IsSqrt(sqrt)
    requires 0 <= i < 6
    requires 0.0 < eps
    requires eps <= Abs(Dot(r.direction, SideFace(sqrt, d, i).planeVec))
    requires tMin <= Distance(sqrt, r.origin, RayPoint(r, PlaneParameter(r, SideFace(sqrt, d, i)))) <= tMax
    ensures var p := RayPoint(r, PlaneParameter(r, SideFace(sqrt, d, i)));
      var a, b := MiddleVertex(sqrt, d, i), MiddleVertex(sqrt, d, (i + 1) % 6);
      var c, e := TopVertex(sqrt, d, (i + 1) % 6), TopVertex(sqrt, d, i);
      (CrossFace(sqrt, r, tMin, tMax, eps, SideFace(sqrt, d, i)).Inside?)
        <==> (PointInTriangle(a, b, c, p) || PointInTriangle(c, e, a, p))
  {
    CrossFaceAccepts(sqrt, r, tMin, tMax, eps, SideFace(sqrt, d, i));
  }

  /** `p` is in the fan triangle `(top_pt[i], top_pt[i + 1], center_top)` of
      the top cap (diamond.h:276). */
  predicate InCapTriangle<M>(sqrt: real -> real, d: Diamond<M>, i: int, p: Vec3)
    requires IsSqrt(sqrt)
    requires 0 <= i < 6
  {
    PointInTriangle(TopVertex(sqrt, d, i), TopVertex(sqrt, d, (i + 1) % 6), TopCentroid(d), p)
  }

  /** The top cap takes the crossing when one of its six fan triangles does
      (diamond.h:275-280). */
  lemma CapFaceRule<M>(sqrt: real -> real, d: Diamond<M>, r: Ray, tMin: real, tMax: real, eps: real)
    requires IsSqrt(sqrt)
    requires 0.0 < eps
    requires eps <= Abs(Dot(r.direction, CapFace(sqrt, d).planeVec))
    requires tMin <= Distance(sqrt, r.origin, RayPoint(r, PlaneParameter(r, CapFace(sqrt, d)))) <= tMax
    ensures var p := RayPoint(r, PlaneParameter(r, CapFace(sqrt, d)));
      (CrossFace(sqrt, r, tMin, tMax, eps, CapFace(sqrt, d)).Inside?)
        <==> (exists i :: 0 <= i < 6 && InCapTriangle(sqrt, d, i, p))
  {
    var p := RayPoint(r, PlaneParameter(r, CapFace(sqrt, d)));
    var ring := TopRing(sqrt, d);
    CrossFaceAccepts(sqrt, r, tMin, tMax, eps, CapFace(sqrt, d));
    forall i | 0 <= i < 6
      ensures InFanTriangle(ring, TopCentroid(d), i, p) <==> InCapTriangle(sqrt, d, i, p)
    {
      assert ring[i] == TopVertex(sqrt, d, i);
      assert ring[(i + 1) % 6] == TopVertex(sqrt, d, (i + 1) % 6);
    }
  }

  /** A ray along the vertical axis of the diamond meets the plane of the cap
      at the cap centre `center_top`, the hub of the fan. The hub is a vertex
      of every fan triangle and the triangle test is strict, so the cap never
      takes such a ray, whichever way it points. */
  lemma AxisRayMissesCap<M>(sqrt: real -> real, d: Diamond<M>, r: Ray, tMin: real, tMax: real, eps: real)
    requires IsSqrt(sqrt)
    requires 0.0 < eps
    requires r.origin.x == d.center.x && r.origin.z == d.center.z
    requires r.direction.x == 0.0 && r.direction.z == 0.0
    ensures !CrossFace(sqrt, r, tMin, tMax, eps, CapFace(sqrt, d)).Inside?
  {
    AxisCapCrossing(sqrt, d, r, tMin, tMax, eps);
    HubNotInFan(TopRing(sqrt, d), TopCentroid(d));
  }

  lemma AxisCapCrossing<M>(sqrt: real -> real, d: Diamond<M>, r: Ray, tMin: real, tMax: real, eps: real)
    requires IsSqrt(sqrt)
    requires 0.0 < eps
    requires r.origin.x == d.center.x && r.origin.z == d.center.z
    requires r.direction.x == 0.0 && r.direction.z == 0.0
    ensures var x := CrossFace(sqrt, r, tMin, tMax, eps, CapFace(sqrt, d));
      x.Inside? ==> x.hit.point == TopCentroid(d)
  {
    var f := CapFace(sqrt, d);
    var x := CrossFace(sqrt, r, tMin, tMax, eps, f);
    CapNormalUp(sqrt, d);
    DotNonZero(r.direction, f.planeVec);
    assert f.planePt.y == TopCentroid(d).y;
    var p := if x.Inside? then x.hit.point else TopCentroid(d);
    if x.Inside? {
      AxisRayPoint(r, PlaneParameter(r, f));
    }
    LevelPoint(p, f.planePt, f.planeVec);
  }

  lemma AxisRayPoint(r: Ray, k: real)
    requires r.direction.x == 0.0 && r.direction.z == 0.0
    ensures RayPoint(r, k).x == r.origin.x && RayPoint(r, k).z == r.origin.z
  {}

  /** A point on a plane with a vertical normal is level with the plane's
      reference point. */
  lemma LevelPoint(p: Vec3, q: Vec3, n: Vec3)
    ensures n.x == 0.0 && n.z == 0.0 && n != Zero && Dot(Sub(p, q), n) == 0.0 ==> p.y == q.y
  {
    if n.x == 0.0 && n.z == 0.0 {
      assert Dot(Sub(p, q), n) == (p.y - q.y) * n.y;
      ProductZero(p.y - q.y, n.y);
    }
  }

  lemma ProductZero(a: real, b: real)
    ensures a * b == 0.0 && b != 0.0 ==> a == 0.0
  {
    if b != 0.0 {
      MulCancel(a, b);
    }
  }

  // ---------------------------------------------------------------------------
  // The accepted candidates and the nearest of them (diamond.h:179-192,
  // 232-245, 282-300)

  /** What each face of `fs` makes of the ray, in the order of `fs`. */
  function Crossings(sqrt: real -> real, r: Ray, tMin: real, tMax: real, eps: real, fs: seq<Face>): (xs: seq<Crossing>)
    requires IsSqrt(sqrt)
    requires 0.0 < eps
    ensures |xs| == |fs|
    ensures forall i :: 0 <= i < |fs| ==> xs[i] == CrossFace(sqrt, r, tMin, tMax, eps, fs[i])
  {
    seq(|fs|, i requires 0 <= i < |fs| => CrossFace(sqrt, r, tMin, tMax, eps, fs[i]))
  }

  /** The accepted candidates among the outcomes `xs`, in order. */
  function Insides(xs: seq<Crossing>): (cs: seq<Candidate>)
    ensures |cs| <= |xs|
    ensures forall c :: c in cs ==> Inside(c) in xs
  {
    if xs == [] then []
    else
      var init, last := xs[..|xs| - 1], xs[|xs| - 1];
      assert forall x :: x in init ==> x in xs;
      Insides(init) + (if last.Inside? then [last.hit] else [])
  }

  lemma {:induction false} InsidesAppend(xs: seq<Crossing>, ys: seq<Crossing>)
    ensures Insides(xs + ys) == Insides(xs) + Insides(ys)
    decreases |ys|
  {
    if ys == [] {
      assert xs + ys == xs;
    } else {
      var n := |ys| - 1;
      assert (xs + ys)[..|xs + ys| - 1] == xs + ys[..n];
      assert (xs + ys)[|xs + ys| - 1] == ys[n];
      InsidesAppend(xs, ys[..n]);
    }
  }

  lemma InsidesSingle(x: Crossing)
    ensures Insides([x]) == if x.Inside? then [x.hit] else []
  {
    assert [x][..0] == [];
  }

  /** The candidates that the faces `fs`, visited in order, take. */
  function Candidates(sqrt: real -> real, r: Ray, tMin: real, tMax: real, eps: real, fs: seq<Face>): (cs: seq<Candidate>)
    requires IsSqrt(sqrt)
    requires 0.0 < eps
    ensures |cs| <= |fs|
    ensures forall c :: c in cs ==> exists f :: f in fs && CrossFace(sqrt, r, tMin, tMax, eps, f) == Inside(c)
  {
    var xs := Crossings(sqrt, r, tMin, tMax, eps, fs);
    assert forall c :: Inside(c) in xs ==> exists i :: 0 <= i < |fs| && xs[i] == Inside(c);
    Insides(xs)
  }

  lemma CandidatesAppend(sqrt: real -> real, r: Ray, tMin: real, tMax: real, eps: real, xs: seq<Face>, ys: seq<Face>)
    requires IsSqrt(sqrt)
    requires 0.0 < eps
    ensures Candidates(sqrt, r, tMin, tMax, eps, xs + ys)
         == Candidates(sqrt, r, tMin, tMax, eps, xs) + Candidates(sqrt, r, tMin, tMax, eps, ys)
  {
    var cx := Crossings(sqrt, r, tMin, tMax, eps, xs);
    var cy := Crossings(sqrt, r, tMin, tMax, eps, ys);
    assert Crossings(sqrt, r, tMin, tMax, eps, xs + ys) == cx + cy;
    InsidesAppend(cx, cy);
  }

  /** One face on its own: its candidate, if it takes the crossing. */
  lemma CandidatesSingle(sqrt: real -> real, r: Ray, tMin: real, tMax: real, eps: real, f: Face)
    requires IsSqrt(sqrt)
    requires 0.0 < eps
    ensures Candidates(sqrt, r, tMin, tMax, eps, [f])
         == if CrossFace(sqrt, r, tMin, tMax, eps, f).Inside? then [CrossFace(sqrt, r, tMin, tMax, eps, f).hit] else []
  {
    var x := CrossFace(sqrt, r, tMin, tMax, eps, f);
    assert Crossings(sqrt, r, tMin, tMax, eps, [f]) == [x];
    InsidesSingle(x);
  }

  /** Every crossing a face takes is among the candidates. */
  lemma CandidatesComplete(sqrt: real -> real, r: Ray, tMin: real, tMax: real, eps: real, fs: seq<Face>, i: int)
    requires IsSqrt(sqrt)
    requires 0.0 < eps
    requires 0 <= i < |fs|
    requires CrossFace(sqrt, r, tMin, tMax, eps, fs[i]).Inside?
    ensures CrossFace(sqrt, r, tMin, tMax, eps, fs[i]).hit in Candidates(sqrt, r, tMin, tMax, eps, fs)
  {
    assert fs == fs[..i] + [fs[i]] + fs[i + 1..];
    CandidatesAppend(sqrt, r, tMin, tMax, eps, fs[..i] + [fs[i]], fs[i + 1..]);
    CandidatesAppend(sqrt, r, tMin, tMax, eps, fs[..i], [fs[i]]);
    CandidatesSingle(sqrt, r, tMin, tMax, eps, fs[i]);
  }

  /** A face that does not take the crossing, in particular one nearly
      parallel to the ray, leaves the candidates as they would be without
      it. */
  lemma CandidatesSkip(sqrt: real -> real, r: Ray, tMin: real, tMax: real, eps: real, xs: seq<Face>, f: Face, ys: seq<Face>)
    requires IsSqrt(sqrt)
    requires 0.0 < eps
    requires !CrossFace(sqrt, r, tMin, tMax, eps, f).Inside?
    ensures Candidates(sqrt, r, tMin, tMax, eps, xs + [f] + ys) == Candidates(sqrt, r, tMin, tMax, eps, xs + ys)
  {
    CandidatesAppend(sqrt, r, tMin, tMax, eps, xs + [f], ys);
    CandidatesAppend(sqrt, r, tMin, tMax, eps, xs, [f]);
    CandidatesAppend(sqrt, r, tMin, tMax, eps, xs, ys);
    CandidatesSingle(sqrt, r, tMin, tMax, eps, f);
  }

  /** The state the passes carry: `found`, `nearest_pt` and `normal`
      (diamond.h:110-112). */
  datatype Nearest = Nearest(found: bool, point: Vec3, normal: Vec3)

  /** The state before the first pass. The source leaves `nearest_pt` and
      `normal` uninitialised; which values they start with makes no
      difference (`ScanFirstNearest`). */
  const NoneFound: Nearest := Nearest(false, Zero, Zero)

  /** Registering an accepted candidate (diamond.h:180-192): the first one is
      taken, a later one only when it is strictly nearer to the ray origin. */
  function Register(sqrt: real -> real, origin: Vec3, s: Nearest, c: Candidate): (s': Nearest)
    requires IsSqrt(sqrt)
    ensures s'.found
    ensures s' == s || s' == Nearest(true, c.point, c.normal)
    ensures !s.found ==> s' == Nearest(true, c.point, c.normal)
    ensures s.found ==> Distance(sqrt, origin, s'.point)
                        == Min(Distance(sqrt, origin, s.point), Distance(sqrt, origin, c.point))
    ensures s.found && Distance(sqrt, origin, s.point) <= Distance(sqrt, origin, c.point) ==> s' == s
  {
    if !s.found then Nearest(true, c.point, c.normal)
    else if Distance(sqrt, origin, c.point) < Distance(sqrt, origin, s.point) then Nearest(true, c.point, c.normal)
    else s
  }

  /** Registering the candidates `cs` one after the other. */
  function Scan(sqrt: real -> real, origin: Vec3, s: Nearest, cs: seq<Candidate>): (s': Nearest)
    requires IsSqrt(sqrt)
    ensures s'.found <==> s.found || |cs| > 0
    ensures !s'.found ==> s' == s
    decreases |cs|
  {
    if cs == [] then s
    else Register(sqrt, origin, Scan(sqrt, origin, s, cs[..|cs| - 1]), cs[|cs| - 1])
  }

  lemma {:induction false} ScanAppend(sqrt: real -> real, origin: Vec3, s: Nearest, xs: seq<Candidate>, ys: seq<Candidate>)
    requires IsSqrt(sqrt)
    ensures Scan(sqrt, origin, s, xs + ys) == Scan(sqrt, origin, Scan(sqrt, origin, s, xs), ys)
    decreases |ys|
  {
    if ys == [] {
      assert xs + ys == xs;
    } else {
      var n := |ys| - 1;
      assert (xs + ys)[..|xs + ys| - 1] == xs + ys[..n];
      assert (xs + ys)[|xs + ys| - 1] == ys[n];
      ScanAppend(sqrt, origin, s, xs, ys[..n]);
    }
  }

  /** Candidate `k` is the nearest to the ray origin, and the first of the
      nearest ones. */
  predicate IsFirstNearest(sqrt: real -> real, origin: Vec3, cs: seq<Candidate>, k: int)
    requires IsSqrt(sqrt)
  {
    && 0 <= k < |cs|
    && (forall j :: 0 <= j < |cs| ==> Distance(sqrt, origin, cs[k].point) <= Distance(sqrt, origin, cs[j].point))
    && (forall j :: 0 <= j < k ==> Distance(sqrt, origin, cs[k].point) < Distance(sqrt, origin, cs[j].point))
  }

  /** There is only one first nearest candidate. */
  lemma FirstNearestUnique(sqrt: real -> real, origin: Vec3, cs: seq<Candidate>, k: int, m: int)
    requires IsSqrt(sqrt)
    requires IsFirstNearest(sqrt, origin, cs, k) && IsFirstNearest(sqrt, origin, cs, m)
    ensures k == m
  {
    assert Distance(sqrt, origin, cs[k].point) <= Distance(sqrt, origin, cs[m].point);
    assert Distance(sqrt, origin, cs[m].point) <= Distance(sqrt, origin, cs[k].point);
  }

  /** Adding one candidate at the end: either it is strictly nearer than
      the first nearest so far and takes over, or the first nearest stays. */
  lemma FirstNearestExtend(sqrt: real -> real, origin: Vec3, cs: seq<Candidate>, k: int)
    requires IsSqrt(sqrt)
    requires 0 < |cs|
    requires IsFirstNearest(sqrt, origin, cs[..|cs| - 1], k)
    ensures var n := |cs| - 1;
      Distance(sqrt, origin, cs[n].point) < Distance(sqrt, origin, cs[k].point) ==> IsFirstNearest(sqrt, origin, cs, n)
    ensures var n := |cs| - 1;
      Distance(sqrt, origin, cs[k].point) <= Distance(sqrt, origin, cs[n].point) ==> IsFirstNearest(sqrt, origin, cs, k)
  {
    var n := |cs| - 1;
    assert forall j :: 0 <= j < n ==> cs[..n][j] == cs[j];
  }

  /** Starting from nothing found, registering the candidates ends on the
      first nearest one, whatever point and normal the state started with. */
  lemma {:induction false} ScanFirstNearest(sqrt: real -> real, origin: Vec3, s: Nearest, cs: seq<Candidate>)
    requires IsSqrt(sqrt)
    requires !s.found && |cs| > 0
    ensures exists k :: IsFirstNearest(sqrt, origin, cs, k)
                     && Scan(sqrt, origin, s, cs) == Nearest(true, cs[k].point, cs[k].normal)
    decreases |cs|
  {
    var n := |cs| - 1;
    var init := cs[..n];
    assert Scan(sqrt, origin, s, cs) == Register(sqrt, origin, Scan(sqrt, origin, s, init), cs[n]);
    if n == 0 {
      assert IsFirstNearest(sqrt, origin, cs, 0);
    } else {
      ScanFirstNearest(sqrt, origin, s, init);
      var k :| IsFirstNearest(sqrt, origin, init, k)
            && Scan(sqrt, origin, s, init) == Nearest(true, init[k].point, init[k].normal);
      assert init[k] == cs[k];
      FirstNearestExtend(sqrt, origin, cs, k);
      var dk, dn := Distance(sqrt, origin, cs[k].point), Distance(sqrt, origin, cs[n].point);
      if dn < dk {
        assert Scan(sqrt, origin, s, cs) == Nearest(true, cs[n].point, cs[n].normal);
        assert IsFirstNearest(sqrt, origin, cs, n);
      } else {
        assert Scan(sqrt, origin, s, cs) == Nearest(true, cs[k].point, cs[k].normal);
        assert IsFirstNearest(sqrt, origin, cs, k);
      }
    }
  }

  lemma ScanSingle(sqrt: real -> real, origin: Vec3, s: Nearest, c: Candidate)
    requires IsSqrt(sqrt)
    ensures Scan(sqrt, origin, s, [c]) == Register(sqrt, origin, s, c)
  {
    assert [c][..0] == [];
  }

  /** What visiting one more face does to the pass state. */
  lemma ScanStep(sqrt: real -> real, r: Ray, tMin: real, tMax: real, eps: real, s: Nearest, fs: seq<Face>, f: Face)
    requires IsSqrt(sqrt)
    requires 0.0 < eps
    ensures var before := Scan(sqrt, r.origin, s, Candidates(sqrt, r, tMin, tMax, eps, fs));
      Scan(sqrt, r.origin, s, Candidates(sqrt, r, tMin, tMax, eps, fs + [f]))
      == match CrossFace(sqrt, r, tMin, tMax, eps, f)
         case Inside(c) => Register(sqrt, r.origin, before, c)
         case _ => before
  {
    var cs := Candidates(sqrt, r, tMin, tMax, eps, fs);
    CandidatesAppend(sqrt, r, tMin, tMax, eps, fs, [f]);
    CandidatesSingle(sqrt, r, tMin, tMax, eps, f);
    ScanAppend(sqrt, r.origin, s, cs, Candidates(sqrt, r, tMin, tMax, eps, [f]));
    match CrossFace(sqrt, r, tMin, tMax, eps, f)
    case Inside(c) =>
      ScanSingle(sqrt, r.origin, Scan(sqrt, r.origin, s, cs), c);
    case _ =>
      assert cs + [] == cs;
  }

  /** When no outcome is an accepted crossing, there are no candidates. */
  lemma {:induction false} InsidesNone(xs: seq<Crossing>)
    requires forall i :: 0 <= i < |xs| ==> !xs[i].Inside?
    ensures Insides(xs) == []
    decreases |xs|
  {
    if xs != [] {
      InsidesNone(xs[..|xs| - 1]);
    }
  }

  // ---------------------------------------------------------------------------
  // The whole test (diamond.h:46-317)

  /** The candidates the thirteen faces of `d` take, in the order
      `diamond::hit` visits them. */
  function HitCandidates<M>(sqrt: real -> real, d: Diamond<M>, r: Ray, tMin: real, tMax: real): seq<Candidate>
    requires IsSqrt(sqrt)
    requires d.height != 0.0
  {
    Candidates(sqrt, r, tMin, tMax, Epsilon(d.height), Faces(sqrt, d))
  }

  /** What `d.hit(r, t_min, t_max, rec)` returns, and what it leaves in
      `rec`. */
  function HitResult<M>(sqrt: real -> real, d: Diamond<M>, r: Ray, tMin: real, tMax: real, rec: HitRecord<M>): (res: (bool, HitRecord<M>))
    requires IsSqrt(sqrt)
    ensures !res.0 ==> res.1 == rec
    ensures res.0 ==> PassesPreFilter(sqrt, d, r) && res.1.mat == d.mat
    ensures res.0 ==> res.1.t == Distance(sqrt, r.origin, res.1.p)
  {
    if !PassesPreFilter(sqrt, d, r) then (false, rec)
    else
      PositiveDiscriminant(d, r);
      var s := Scan(sqrt, r.origin, NoneFound, HitCandidates(sqrt, d, r, tMin, tMax));
      if s.found then (true, HitRecord(Distance(sqrt, r.origin, s.point), s.point, s.normal, d.mat))
      else (false, rec)
  }

  /** A ray that misses the bounding sphere (diamond.h:60-61), or meets it
      only behind its origin (diamond.h:67-68), misses the diamond, and `rec`
      is left as it was. Put geometrically: a hit needs a ray that starts
      outside the bounding sphere and heads towards its centre; a ray that
      starts inside the sphere or on it is dropped too. */
  lemma PreFilterRejects<M>(sqrt: real -> real, d: Diamond<M>, r: Ray, tMin: real, tMax: real, rec: HitRecord<M>)
    requires IsSqrt(sqrt)
    ensures Discriminant(SphereQuadratic(d, r)) <= 0.0 ==> HitResult(sqrt, d, r, tMin, tMax, rec) == (false, rec)
    ensures Discriminant(SphereQuadratic(d, r)) > 0.0 && NearRoot(sqrt, d, r) <= 0.0 ==>
      HitResult(sqrt, d, r, tMin, tMax, rec) == (false, rec)
    ensures HitResult(sqrt, d, r, tMin, tMax, rec).0 ==>
      Dot(Sub(r.origin, d.center), r.direction) < 0.0 && SqLength(Sub(r.origin, d.center)) > Sq(d.height)
  {
    PreFilterMeaning(sqrt, d, r);
  }

  /** Past the pre-filter, the test hits exactly when some face takes the
      crossing, and then reports the first nearest candidate with the
      diamond's material (diamond.h:180-192, 233-245, 284-299, 307-312); on a
      miss `rec` is left as it was. */
  lemma HitIsFirstNearest<M>(sqrt: real -> real, d: Diamond<M>, r: Ray, tMin: real, tMax: real, rec: HitRecord<M>)
    requires IsSqrt(sqrt)
    requires PassesPreFilter(sqrt, d, r)
    ensures d.height != 0.0
    ensures HitResult(sqrt, d, r, tMin, tMax, rec).0 <==> |HitCandidates(sqrt, d, r, tMin, tMax)| > 0
    ensures !HitResult(sqrt, d, r, tMin, tMax, rec).0 ==> HitResult(sqrt, d, r, tMin, tMax, rec).1 == rec
    ensures HitResult(sqrt, d, r, tMin, tMax, rec).0 ==>
      var cs := HitCandidates(sqrt, d, r, tMin, tMax);
      exists k :: IsFirstNearest(sqrt, r.origin, cs, k)
               && HitResult(sqrt, d, r, tMin, tMax, rec).1
                  == HitRecord(Distance(sqrt, r.origin, cs[k].point), cs[k].point, cs[k].normal, d.mat)
  {
    PositiveDiscriminant(d, r);
    var cs := HitCandidates(sqrt, d, r, tMin, tMax);
    if |cs| > 0 {
      ScanFirstNearest(sqrt, r.origin, NoneFound, cs);
    }
  }

  /** On a hit, `rec.t` lies in `[t_min, t_max]`: every registered crossing
      passed the interval check (diamond.h:162-163, 222-223, 267-268, 308). */
  lemma HitInInterval<M>(sqrt: real -> real, d: Diamond<M>, r: Ray, tMin: real, tMax: real, rec: HitRecord<M>)
    requires IsSqrt(sqrt)
    ensures HitResult(sqrt, d, r, tMin, tMax, rec).0 ==>
      tMin <= HitResult(sqrt, d, r, tMin, tMax, rec).1.t <= tMax
  {
    if PassesPreFilter(sqrt, d, r) {
      HitOnFace(sqrt, d, r, tMin, tMax, rec);
    }
  }

  /** On a hit, the point lies on the plane of a face that is not nearly
      parallel to the ray, inside that face, at the distance `rec.t` from
      the origin, and the normal is the unit normal of that plane. */
  lemma HitOnFace<M>(sqrt: real -> real, d: Diamond<M>, r: Ray, tMin: real, tMax: real, rec: HitRecord<M>)
    requires IsSqrt(sqrt)
    ensures HitResult(sqrt, d, r, tMin, tMax, rec).0 ==>
      var h := HitResult(sqrt, d, r, tMin, tMax, rec).1;
      && h.t == Distance(sqrt, r.origin, h.p)
      && tMin <= h.t <= tMax
      && exists f :: f in Faces(sqrt, d)
           && Epsilon(d.height) <= Abs(Dot(r.direction, f.planeVec))
           && Dot(Sub(h.p, f.planePt), f.planeVec) == 0.0
           && Contains(f.shape, h.p)
           && SqLength(h.normal) == 1.0 && Cross(h.normal, f.planeVec) == Zero
           && Dot(h.normal, f.planeVec) > 0.0
  {
    if PassesPreFilter(sqrt, d, r) {
      HitIsFirstNearest(sqrt, d, r, tMin, tMax, rec);
      var cs := HitCandidates(sqrt, d, r, tMin, tMax);
      if |cs| > 0 {
        var k :| IsFirstNearest(sqrt, r.origin, cs, k)
              && HitResult(sqrt, d, r, tMin, tMax, rec).1
                 == HitRecord(Distance(sqrt, r.origin, cs[k].point), cs[k].point, cs[k].normal, d.mat);
        assert cs[k] in cs;
        var f :| f in Faces(sqrt, d) && CrossFace(sqrt, r, tMin, tMax, Epsilon(d.height), f) == Inside(cs[k]);
      }
    }
  }

  /** On a hit, the point is ahead of the ray origin: it is the ray point at
      a positive parameter. A crossing behind the origin, which one face on
      its own would take (`CrossingBehindOrigin`), never reaches the hit
      record (`CandidateAhead`). */
  lemma HitAheadOfOrigin<M>(sqrt: real -> real, d: Diamond<M>, r: Ray, tMin: real, tMax: real, rec: HitRecord<M>)
    requires IsSqrt(sqrt)
    ensures HitResult(sqrt, d, r, tMin, tMax, rec).0 ==>
      var h := HitResult(sqrt, d, r, tMin, tMax, rec).1;
      && Dot(Sub(h.p, r.origin), r.direction) > 0.0
      && exists k :: 0.0 < k && h.p == RayPoint(r, k)
  {
    if PassesPreFilter(sqrt, d, r) {
      HitIsFirstNearest(sqrt, d, r, tMin, tMax, rec);
      var cs := HitCandidates(sqrt, d, r, tMin, tMax);
      if |cs| > 0 {
        var k :| IsFirstNearest(sqrt, r.origin, cs, k)
              && HitResult(sqrt, d, r, tMin, tMax, rec).1
                 == HitRecord(Distance(sqrt, r.origin, cs[k].point), cs[k].point, cs[k].normal, d.mat);
        assert cs[k] in cs;
        var f :| f in Faces(sqrt, d) && CrossFace(sqrt, r, tMin, tMax, Epsilon(d.height), f) == Inside(cs[k]);
        CandidateAhead(sqrt, d, r, tMin, tMax, f);
        assert cs[k].point == RayPoint(r, PlaneParameter(r, f));
      }
    }
  }

  /** A ray that starts in the closed bounding ball never hits, even one that
      starts outside the diamond, say just above the top cap, and would cross
      a face: the near root is then not positive (diamond.h:67-68). */
  lemma InsideBallRejected<M>(sqrt: real -> real, d: Diamond<M>, r: Ray, tMin: real, tMax: real, rec: HitRecord<M>)
    requires IsSqrt(sqrt)
    requires SqLength(Sub(r.origin, d.center)) <= Sq(d.height)
    ensures !PassesPreFilter(sqrt, d, r)
    ensures HitResult(sqrt, d, r, tMin, tMax, rec) == (false, rec)
  {
    PreFilterMeaning(sqrt, d, r);
  }

  /** An empty interval `t_max < t_min` lets no crossing through, so the
      test misses and `rec` is left as it was. */
  lemma EmptyIntervalMisses<M>(sqrt: real -> real, d: Diamond<M>, r: Ray, tMin: real, tMax: real, rec: HitRecord<M>)
    requires IsSqrt(sqrt)
    requires tMax < tMin
    ensures HitResult(sqrt, d, r, tMin, tMax, rec) == (false, rec)
  {
    if PassesPreFilter(sqrt, d, r) {
      PositiveDiscriminant(d, r);
      InsidesNone(Crossings(sqrt, r, tMin, tMax, Epsilon(d.height), Faces(sqrt, d)));
    }
  }

  /** A face nearly parallel to the ray is never registered: the candidates
      are those of the other twelve faces (diamond.h:156-157, 216-217, 262). */
  lemma ParallelFaceIgnored<M>(sqrt: real -> real, d: Diamond<M>, r: Ray, tMin: real, tMax: real, i: int)
    requires IsSqrt(sqrt)
    requires d.height != 0.0
    requires 0 <= i < 13
    requires Abs(Dot(r.direction, Faces(sqrt, d)[i].planeVec)) < Epsilon(d.height)
    ensures HitCandidates(sqrt, d, r, tMin, tMax)
         == Candidates(sqrt, r, tMin, tMax, Epsilon(d.height), Faces(sqrt, d)[..i] + Faces(sqrt, d)[i + 1..])
  {
    var fs := Faces(sqrt, d);
    assert fs == fs[..i] + [fs[i]] + fs[i + 1..];
    CandidatesSkip(sqrt, r, tMin, tMax, Epsilon(d.height), fs[..i], fs[i], fs[i + 1..]);
  }

  // ---------------------------------------------------------------------------
  // The passes, step by step (diamond.h:138-302)

  /** The registration step (diamond.h:180-192, 233-245, 284-299). */
  method RegisterCandidate(sqrt: real -> real, origin: Vec3, found: bool, nearestPt: Vec3, normal: Vec3,
                           proj: Vec3, planeVec: Vec3)
    returns (found': bool, nearestPt': Vec3, normal': Vec3)
    requires IsSqrt(sqrt)
    requires planeVec != Zero
    ensures Nearest(found', nearestPt', normal')
         == Register(sqrt, origin, Nearest(found, nearestPt, normal), Candidate(proj, UnitVector(sqrt, planeVec)))
  {
    found', nearestPt', normal' := found, nearestPt, normal;
    if !found {
      nearestPt' := proj;
      normal' := UnitVector(sqrt, planeVec);
      found' := true;
    } else {
      if Length(sqrt, Sub(proj, origin)) < Length(sqrt, Sub(nearestPt, origin)) {
        nearestPt' := proj;
        normal' := UnitVector(sqrt, planeVec);
      }
    }
  }

  lemma BottomFaceOf<M>(sqrt: real -> real, d: Diamond<M>, i: int, a: Vec3, b: Vec3, c: Vec3)
    requires IsSqrt(sqrt)
    requires 0 <= i < 6
    requires a == BottomApex(d) && b == MiddleVertex(sqrt, d, i) && c == MiddleVertex(sqrt, d, (i + 1) % 6)
    ensures BottomFace(sqrt, d, i) == Face(a, Cross(Sub(c, a), Sub(b, a)), Triangle(a, b, c))
    ensures BottomFaces(sqrt, d, i + 1) == BottomFaces(sqrt, d, i) + [BottomFace(sqrt, d, i)]
  {}

  /** The bottom pass (diamond.h:138-193) over the six triangles from the
      apex `bottomPt` to the middle ring. */
  method BottomPass<M>(sqrt: real -> real, d: Diamond<M>, r: Ray, tMin: real, tMax: real, eps: real,
                       bottomPt: Vec3, middlePt: array<Vec3>, found0: bool, nearest0: Vec3, normal0: Vec3)
    returns (found: bool, nearestPt: Vec3, normal: Vec3)
    requires IsSqrt(sqrt)
    requires 0.0 < eps
    requires bottomPt == BottomApex(d)
    requires middlePt.Length == 6
    requires forall i :: 0 <= i < 6 ==> middlePt[i] == MiddleVertex(sqrt, d, i)
    ensures Nearest(found, nearestPt, normal)
         == Scan(sqrt, r.origin, Nearest(found0, nearest0, normal0),
                 Candidates(sqrt, r, tMin, tMax, eps, BottomFaces(sqrt, d, 6)))
  {
    ghost var start := Nearest(found0, nearest0, normal0);
    found, nearestPt, normal := found0, nearest0, normal0;
    for i := 0 to 6
      invariant Nearest(found, nearestPt, normal)
             == Scan(sqrt, r.origin, start, Candidates(sqrt, r, tMin, tMax, eps, BottomFaces(sqrt, d, i)))
    {
      var a := bottomPt;
      var b := middlePt[i];
      var c := middlePt[(i + 1) % 6];
      var linePt := r.origin;
      var lineVec := r.direction;
      var planePt := a;
      var planeVec := Cross(Sub(c, a), Sub(b, a));
      var numer := Dot(Neg(Sub(linePt, planePt)), planeVec);
      var denom := Dot(lineVec, planeVec);
      ghost var face := BottomFace(sqrt, d, i);
      BottomFaceOf(sqrt, d, i, a, b, c);
      ScanStep(sqrt, r, tMin, tMax, eps, start, BottomFaces(sqrt, d, i), face);
      CrossFaceSteps(sqrt, r, tMin, tMax, eps, face, numer, denom);
      if Abs(denom) < eps {
        continue;
      }
      var k := numer / denom;
      if Length(sqrt, Scale(lineVec, k)) < tMin || Length(sqrt, Scale(lineVec, k)) > tMax {
        continue;
      }
      var proj := Add(linePt, Scale(lineVec, k));
      if !PointInTriangle(a, b, c, proj) {
        continue;
      }
      found, nearestPt, normal := RegisterCandidate(sqrt, r.origin, found, nearestPt, normal, proj, planeVec);
    }
  }

  lemma SideFaceOf<M>(sqrt: real -> real, d: Diamond<M>, i: int, a: Vec3, b: Vec3, c: Vec3, e: Vec3)
    requires IsSqrt(sqrt)
    requires 0 <= i < 6
    requires a == MiddleVertex(sqrt, d, i) && b == MiddleVertex(sqrt, d, (i + 1) % 6)
    requires c == TopVertex(sqrt, d, (i + 1) % 6) && e == TopVertex(sqrt, d, i)
    ensures SideFace(sqrt, d, i) == Face(a, Cross(Sub(b, a), Sub(c, a)), Quad(a, b, c, e))
    ensures SideFaces(sqrt, d, i + 1) == SideFaces(sqrt, d, i) + [SideFace(sqrt, d, i)]
  {}

  /** The side pass (diamond.h:198-246) over the six quads between the middle
      ring and the top ring, each split into the triangles `(a, b, c)` and
      `(c, d, a)`; the fourth corner, `d` in the source, is `e` here. */
  method SidePass<M>(sqrt: real -> real, d: Diamond<M>, r: Ray, tMin: real, tMax: real, eps: real,
                     middlePt: array<Vec3>, topPt: array<Vec3>, found0: bool, nearest0: Vec3, normal0: Vec3)
    returns (found: bool, nearestPt: Vec3, normal: Vec3)
    requires IsSqrt(sqrt)
    requires 0.0 < eps
    requires middlePt.Length == 6 && topPt.Length == 6
    requires forall i :: 0 <= i < 6 ==> middlePt[i] == MiddleVertex(sqrt, d, i)
    requires forall i :: 0 <= i < 6 ==> topPt[i] == TopVertex(sqrt, d, i)
    ensures Nearest(found, nearestPt, normal)
         == Scan(sqrt, r.origin, Nearest(found0, nearest0, normal0),
                 Candidates(sqrt, r, tMin, tMax, eps, SideFaces(sqrt, d, 6)))
  {
    ghost var start := Nearest(found0, nearest0, normal0);
    found, nearestPt, normal := found0, nearest0, normal0;
    for i := 0 to 6
      invariant Nearest(found, nearestPt, normal)
             == Scan(sqrt, r.origin, start, Candidates(sqrt, r, tMin, tMax, eps, SideFaces(sqrt, d, i)))
    {
      var a := middlePt[i];
      var b := middlePt[(i + 1) % 6];
      var c := topPt[(i + 1) % 6];
      var e := topPt[i];
      var linePt := r.origin;
      var lineVec := r.direction;
      var planePt := a;
      var planeVec := Cross(Sub(b, a), Sub(c, a));
      var numer := Dot(Neg(Sub(linePt, planePt)), planeVec);
      var denom := Dot(lineVec, planeVec);
      ghost var face := SideFace(sqrt, d, i);
      SideFaceOf(sqrt, d, i, a, b, c, e);
      ScanStep(sqrt, r, tMin, tMax, eps, start, SideFaces(sqrt, d, i), face);
      CrossFaceSteps(sqrt, r, tMin, tMax, eps, face, numer, denom);
      if Abs(denom) < eps {
        continue;
      }
      var k := numer / denom;
      if Length(sqrt, Scale(lineVec, k)) < tMin || Length(sqrt, Scale(lineVec, k)) > tMax {
        continue;
      }
      var proj := Add(linePt, Scale(lineVec, k));
      if !PointInTriangle(a, b, c, proj) && !PointInTriangle(c, e, a, proj) {
        continue;
      }
      found, nearestPt, normal := RegisterCandidate(sqrt, r.origin, found, nearestPt, normal, proj, planeVec);
    }
  }

  lemma CapFaceOf<M>(sqrt: real -> real, d: Diamond<M>, top0: Vec3, top1: Vec3, top2: Vec3, centerTop: Vec3)
    requires IsSqrt(sqrt)
    requires top0 == TopVertex(sqrt, d, 0) && top1 == TopVertex(sqrt, d, 1) && top2 == TopVertex(sqrt, d, 2)
    requires centerTop == TopCentroid(d)
    ensures CapFace(sqrt, d) == Face(top0, Cross(Sub(top0, top1), Sub(top0, top2)), Fan(TopRing(sqrt, d), centerTop))
  {}

  /** The fan test of the top pass (diamond.h:273-280): the first fan
      triangle that holds `proj` ends the search. */
  method CapContains<M>(sqrt: real -> real, d: Diamond<M>, topPt: array<Vec3>, centerTop: Vec3, proj: Vec3)
    returns (inside: bool)
    requires IsSqrt(sqrt)
    requires topPt.Length == 6
    requires forall i :: 0 <= i < 6 ==> topPt[i] == TopVertex(sqrt, d, i)
    ensures inside <==> Contains(Fan(TopRing(sqrt, d), centerTop), proj)
  {
    ghost var ring := TopRing(sqrt, d);
    inside := false;
    for i := 0 to 6
      invariant !inside
      invariant forall m :: 0 <= m < i ==> !InFanTriangle(ring, centerTop, m, proj)
    {
      if PointInTriangle(topPt[i], topPt[(i + 1) % 6], centerTop, proj) {
        assert InFanTriangle(ring, centerTop, i, proj);
        inside := true;
        break;
      }
    }
  }

  /** The top pass (diamond.h:249-302) over the hexagonal cap, taken as the
      fan of six triangles around `center_top`. A crossing outside the
      interval jumps to `UPDATE` (diamond.h:268); the cap is the last face, so
      the jump is a return here. */
  method CapPass<M>(sqrt: real -> real, d: Diamond<M>, r: Ray, tMin: real, tMax: real, eps: real,
                    topPt: array<Vec3>, centerTop: Vec3, found0: bool, nearest0: Vec3, normal0: Vec3)
    returns (found: bool, nearestPt: Vec3, normal: Vec3)
    requires IsSqrt(sqrt)
    requires 0.0 < eps
    requires topPt.Length == 6
    requires forall i :: 0 <= i < 6 ==> topPt[i] == TopVertex(sqrt, d, i)
    requires centerTop == TopCentroid(d)
    ensures Nearest(found, nearestPt, normal)
         == Scan(sqrt, r.origin, Nearest(found0, nearest0, normal0),
                 Candidates(sqrt, r, tMin, tMax, eps, [CapFace(sqrt, d)]))
  {
    ghost var start := Nearest(found0, nearest0, normal0);
    found, nearestPt, normal := found0, nearest0, normal0;
    var linePt := r.origin;
    var lineVec := r.direction;
    var planePt := topPt[0];
    var planeVec := Cross(Sub(topPt[0], topPt[1]), Sub(topPt[0], topPt[2]));
    var numer := Dot(Neg(Sub(linePt, planePt)), planeVec);
    var denom := Dot(lineVec, planeVec);
    ghost var face := CapFace(sqrt, d);
    CapFaceOf(sqrt, d, topPt[0], topPt[1], topPt[2], centerTop);
    ScanStep(sqrt, r, tMin, tMax, eps, start, [], face);
    assert [] + [face] == [face];
    CrossFaceSteps(sqrt, r, tMin, tMax, eps, face, numer, denom);
    if Abs(denom) >= eps {
      var k := numer / denom;
      if Length(sqrt, Scale(lineVec, k)) < tMin || Length(sqrt, Scale(lineVec, k)) > tMax {
        return;
      }
      var proj := Add(linePt, Scale(lineVec, k));
      var inside := CapContains(sqrt, d, topPt, centerTop, proj);
      if inside {
        found, nearestPt, normal := RegisterCandidate(sqrt, r.origin, found, nearestPt, normal, proj, planeVec);
      }
    }
  }

  /** The three passes one after the other visit all thirteen faces. */
  lemma ScanFaces<M>(sqrt: real -> real, d: Diamond<M>, r: Ray, tMin: real, tMax: real, eps: real, s: Nearest)
    requires IsSqrt(sqrt)
    requires 0.0 < eps
    ensures var bottom := Scan(sqrt, r.origin, s, Candidates(sqrt, r, tMin, tMax, eps, BottomFaces(sqrt, d, 6)));
      var side := Scan(sqrt, r.origin, bottom, Candidates(sqrt, r, tMin, tMax, eps, SideFaces(sqrt, d, 6)));
      Scan(sqrt, r.origin, s, Candidates(sqrt, r, tMin, tMax, eps, Faces(sqrt, d)))
      == Scan(sqrt, r.origin, side, Candidates(sqrt, r, tMin, tMax, eps, [CapFace(sqrt, d)]))
  {
    var bs, ss, cs := BottomFaces(sqrt, d, 6), SideFaces(sqrt, d, 6), [CapFace(sqrt, d)];
    CandidatesAppend(sqrt, r, tMin, tMax, eps, bs + ss, cs);
    CandidatesAppend(sqrt, r, tMin, tMax, eps, bs, ss);
    var cb := Candidates(sqrt, r, tMin, tMax, eps, bs);
    var cc := Candidates(sqrt, r, tMin, tMax, eps, ss);
    ScanAppend(sqrt, r.origin, s, cb + cc, Candidates(sqrt, r, tMin, tMax, eps, cs));
    ScanAppend(sqrt, r.origin, s, cb, cc);
  }

  /** The bounding-sphere pre-filter as the source computes it
      (diamond.h:54-68): true when `hit` goes on to the faces. */
  method BoundingSphereCheck<M>(sqrt: real -> real, d: Diamond<M>, r: Ray) returns (pass: bool)
    requires IsSqrt(sqrt)
    ensures pass == PassesPreFilter(sqrt, d, r)
  {
    var oc := Sub(r.origin, d.center);
    var a := Dot(r.direction, r.direction);
    var b := Dot(oc, r.direction);
    var c := Dot(oc, oc) - d.height * d.height;
    var discriminant := b * b - a * c;
    SqProduct(b);
    SqProduct(d.height);
    assert SphereQuadratic(d, r) == Quadratic(a, b, c);
    assert discriminant == Discriminant(Quadratic(a, b, c));
    if discriminant <= 0.0 {
      return false;
    }
    PositiveDiscriminant(d, r);
    var distance := Min((-b - sqrt(discriminant)) / a, (-b + sqrt(discriminant)) / a);
    assert distance == NearRoot(sqrt, d, r);
    if distance <= 0.0 {
      return false;
    }
    return true;
  }

  /** The vertices, the tolerance and the three passes (diamond.h:101-302),
      starting from nothing found. */
  method VisitFaces<M>(sqrt: real -> real, d: Diamond<M>, r: Ray, tMin: real, tMax: real)
    returns (found: bool, nearestPt: Vec3, normal: Vec3)
    requires IsSqrt(sqrt)
    requires d.height != 0.0
    ensures Nearest(found, nearestPt, normal) == Scan(sqrt, r.origin, NoneFound, HitCandidates(sqrt, d, r, tMin, tMax))
  {
    var bottomPt := Vec3(d.center.x, d.center.y - d.height, d.center.z);
    var centerTop := Vec3(d.center.x, d.center.y + d.height / 2.0, d.center.z);
    var middlePt, topPt := RingVertices(sqrt, d);
    found, nearestPt, normal := false, Zero, Zero;
    var epsilon := Min(0.000001, Abs(0.000001 * d.height));
    assert epsilon == Epsilon(d.height);

    found, nearestPt, normal := BottomPass(sqrt, d, r, tMin, tMax, epsilon, bottomPt, middlePt, found, nearestPt, normal);
    found, nearestPt, normal := SidePass(sqrt, d, r, tMin, tMax, epsilon, middlePt, topPt, found, nearestPt, normal);
    found, nearestPt, normal := CapPass(sqrt, d, r, tMin, tMax, epsilon, topPt, centerTop, found, nearestPt, normal);
    ScanFaces(sqrt, d, r, tMin, tMax, epsilon, NoneFound);
  }

  /** `diamond::hit` (diamond.h:46-317). The record `rec` is passed by value
      and the one the source leaves behind is returned. */
  method Hit<M>(sqrt: real -> real, d: Diamond<M>, r: Ray, tMin: real, tMax: real, rec: HitRecord<M>)
    returns (hit: bool, rec': HitRecord<M>)
    requires IsSqrt(sqrt)
    ensures (hit, rec') == HitResult(sqrt, d, r, tMin, tMax, rec)
  {
    var pass := BoundingSphereCheck(sqrt, d, r);
    if !pass {
      return false, rec;
    }
    PositiveDiscriminant(d, r);
    var found, nearestPt, normal := VisitFaces(sqrt, d, r, tMin, tMax);

    // UPDATE:
    if found {
      rec' := HitRecord(Length(sqrt, Sub(nearestPt, r.origin)), nearestPt, normal, d.mat);
      return true, rec';
    }
    return false, rec;
  }
}
