/** The two ray-primitive intersection tests of src/main.c: hit_sphere solves
    the quadratic |O + tD - C|^2 = r^2, hit_triangle is the Moller-Trumbore
    test. Both are total in C and return a flag plus a distance written through
    a pointer; here they return `Some(distance)` or `None`. */
module Intersect {

  import opened Vector
  import opened Types
  import opened Options

  // ---- ray-sphere ----------------------------------------------------------

  /** Coefficients of a t^2 + b t + c = 0. */
  datatype Quadratic = Quadratic(a: real, b: real, c: real)

  /** The quadratic whose roots are the distances along `ray` at which it
      meets the surface of `sphere`. */
  function SphereQuadratic(ray: Ray, sphere: Sphere): Quadratic {
    var oc := Sub(ray.origin, sphere.center);
    Quadratic(Dot(ray.direction, ray.direction),
              2.0 * Dot(oc, ray.direction),
              Dot(oc, oc) - sphere.radius * sphere.radius)
  }

  /** The quadratic's value a t^2 + b t + c at t. */
  function Value(q: Quadratic, t: real): real {
    q.a * t * t + q.b * t + q.c
  }

  function Discriminant(q: Quadratic): real {
    q.b * q.b - 4.0 * q.a * q.c
  }

  /** The roots (-b - sqrt D) / 2a and (-b + sqrt D) / 2a, in that order,
      before they are sorted. */
  function Roots(m: Libm, q: Quadratic): (real, real)
    requires q.a != 0.0
  {
    var s := m.sqrt(Discriminant(q));
    ((-q.b - s) / (2.0 * q.a), (-q.b + s) / (2.0 * q.a))
  }

  /** The swap of hit_sphere: afterwards the first root is the smaller one. */
  function Ordered(t1: real, t2: real): (r: (real, real))
    ensures r.0 <= r.1
    ensures r == (t1, t2) || r == (t2, t1)
  {
    if t1 > t2 then (t2, t1) else (t1, t2)
  }

  /** `t` is one of the two roots, is non-negative, and no non-negative root
      is smaller. */
  predicate SmallestNonNegativeRoot(t: real, t1: real, t2: real) {
    && (t == t1 || t == t2)
    && t >= 0.0
    && (t1 >= 0.0 ==> t <= t1)
    && (t2 >= 0.0 ==> t <= t2)
  }

  /** hit_sphere. A negative discriminant is a miss; two negative roots (the
      sphere lies behind the origin) are a miss; otherwise the distance is the
      smaller root when it is non-negative and the larger one when the origin
      is inside the sphere. The direction must not be the zero vector: the C
      code then divides by zero and reports a NaN distance. */
  function HitSphere(m: Libm, ray: Ray, sphere: Sphere): (r: Option<real>)
    requires NonZero(ray.direction)
    ensures r.Some? ==> r.value >= 0.0
  {
    var q := SphereQuadratic(ray, sphere);
    if Discriminant(q) < 0.0 then None
    else
      var (t1, t2) := Roots(m, q);
      if t1 < 0.0 && t2 < 0.0 then None
      else
        var (near, far) := Ordered(t1, t2);
        if near < 0.0 then Some(far) else Some(near)
  }

  /** What hit_sphere reports, in terms of the roots of the quadratic: a
      miss when the discriminant is negative or both roots are negative,
      otherwise the smallest non-negative root. */
  lemma HitSphereRoots(m: Libm, ray: Ray, sphere: Sphere)
    requires NonZero(ray.direction)
    ensures var r := HitSphere(m, ray, sphere);
      && (Discriminant(SphereQuadratic(ray, sphere)) < 0.0 ==> r == None)
      && (Discriminant(SphereQuadratic(ray, sphere)) >= 0.0 ==>
            var (t1, t2) := Roots(m, SphereQuadratic(ray, sphere));
            && (r == None <==> t1 < 0.0 && t2 < 0.0)
            && (r.Some? ==> SmallestNonNegativeRoot(r.value, t1, t2)))
  {
  }

  /** A reported distance is a root of the sphere's quadratic: the point at
      that distance along the ray lies on the sphere's surface, given a
      square root that is exact at the discriminant. */
  lemma {:induction false} HitSphereOnSurface(m: Libm, ray: Ray, sphere: Sphere)
    requires NonZero(ray.direction)
    requires Discriminant(SphereQuadratic(ray, sphere)) >= 0.0 ==>
      m.sqrt(Discriminant(SphereQuadratic(ray, sphere))) * m.sqrt(Discriminant(SphereQuadratic(ray, sphere)))
        == Discriminant(SphereQuadratic(ray, sphere))
    ensures HitSphere(m, ray, sphere).Some? ==>
      OnSurface(Add(ray.origin, MulScalar(ray.direction, HitSphere(m, ray, sphere).value)), sphere)
  {
    var r := HitSphere(m, ray, sphere);
    if r.Some? {
      HitSphereIsRoot(m, ray, sphere);
      RootOnSurface(m, ray, sphere, r.value);
    }
  }

  /** The point lies on the sphere's surface: its squared distance from the
      centre is radius^2. */
  predicate OnSurface(point: Vec3f, sphere: Sphere) {
    var p := Sub(point, sphere.center);
    Dot(p, p) == sphere.radius * sphere.radius
  }

  /** Either root, with an exact square root, gives a point on the surface. */
  lemma {:induction false} RootOnSurface(m: Libm, ray: Ray, sphere: Sphere, t: real)
    requires NonZero(ray.direction)
    requires Discriminant(SphereQuadratic(ray, sphere)) >= 0.0
    requires m.sqrt(Discriminant(SphereQuadratic(ray, sphere))) * m.sqrt(Discriminant(SphereQuadratic(ray, sphere)))
        == Discriminant(SphereQuadratic(ray, sphere))
    requires t == Roots(m, SphereQuadratic(ray, sphere)).0 || t == Roots(m, SphereQuadratic(ray, sphere)).1
    ensures OnSurface(Add(ray.origin, MulScalar(ray.direction, t)), sphere)
  {
    var q := SphereQuadratic(ray, sphere);
    RootSolves(q, m.sqrt(Discriminant(q)), t);
    SphereQuadraticAt(ray, sphere, t);
  }

  /** A reported distance is one of the two roots. */
  lemma HitSphereIsRoot(m: Libm, ray: Ray, sphere: Sphere)
    requires NonZero(ray.direction)
    ensures var q := SphereQuadratic(ray, sphere);
      HitSphere(m, ray, sphere).Some? ==>
        && Discriminant(q) >= 0.0
        && (HitSphere(m, ray, sphere).value == Roots(m, q).0 || HitSphere(m, ray, sphere).value == Roots(m, q).1)
  {
  }

  /** Either root (-b -+ s) / 2a, with s * s the discriminant, solves the
      quadratic. */
  lemma RootSolves(q: Quadratic, s: real, t: real)
    requires q.a != 0.0 && s * s == Discriminant(q)
    requires t == (-q.b - s) / (2.0 * q.a) || t == (-q.b + s) / (2.0 * q.a)
    ensures Value(q, t) == 0.0
  {
    var k := 2.0 * q.a * t + q.b;
    assert k == -s || k == s;
    assert k * k == s * s;
    assert 4.0 * q.a * (q.a * t * t + q.b * t + q.c) == 0.0;
  }

  /** The squared distance from the centre, less radius^2, at distance t
      along the ray is the quadratic's value at t. */
  lemma {:induction false} SphereQuadraticAt(ray: Ray, sphere: Sphere, t: real)
    ensures var q := SphereQuadratic(ray, sphere);
      var p := Sub(Add(ray.origin, MulScalar(ray.direction, t)), sphere.center);
      Dot(p, p) - sphere.radius * sphere.radius == Value(q, t)
  {
    var oc, d := Sub(ray.origin, sphere.center), ray.direction;
    QuadraticExpansion(oc.x, oc.y, oc.z, d.x, d.y, d.z, t, sphere.radius * sphere.radius);
  }

  /** |o + t d|^2 - rr, expanded in powers of t. */
  lemma QuadraticExpansion(ox: real, oy: real, oz: real, dx: real, dy: real, dz: real, t: real, rr: real)
    ensures (ox + dx * t) * (ox + dx * t) + (oy + dy * t) * (oy + dy * t) + (oz + dz * t) * (oz + dz * t) - rr
      == (dx * dx + dy * dy + dz * dz) * t * t + 2.0 * (ox * dx + oy * dy + oz * dz) * t
           + (ox * ox + oy * oy + oz * oz - rr)
  {
    SquareAt(ox, dx, t);
    SquareAt(oy, dy, t);
    SquareAt(oz, dz, t);
    assert (dx * dx + dy * dy + dz * dz) * t * t == dx * dx * t * t + dy * dy * t * t + dz * dz * t * t;
    assert 2.0 * (ox * dx + oy * dy + oz * dz) * t == 2.0 * (ox * dx) * t + 2.0 * (oy * dy) * t + 2.0 * (oz * dz) * t;
  }

  /** (x + y t)^2 == x^2 + 2 (x y) t + y^2 t^2. */
  lemma SquareAt(x: real, y: real, t: real)
    ensures (x + y * t) * (x + y * t) == x * x + 2.0 * (x * y) * t + y * y * t * t
  {
  }

  /** A ray fired from (0, 0, d) straight at the centre of a sphere of radius
      `radius` at the origin, with d > radius > 0, first meets it at distance
      d - radius (given an exact square root of the discriminant 4 radius^2). */
  lemma {:induction false} SphereHeadOn(m: Libm, d: real, radius: real, material: Material)
    requires 0.0 < radius < d
    requires m.sqrt(4.0 * (radius * radius)) == 2.0 * radius
    ensures HitSphere(m, Ray(Vec3f(0.0, 0.0, d), Vec3f(0.0, 0.0, -1.0)),
                      Sphere(Zero, radius, material)) == Some(d - radius)
  {
    var ray := Ray(Vec3f(0.0, 0.0, d), Vec3f(0.0, 0.0, -1.0));
    var sphere := Sphere(Zero, radius, material);
    var q := SphereQuadratic(ray, sphere);
    assert q == Quadratic(1.0, -2.0 * d, d * d - radius * radius);
    assert Discriminant(q) == 4.0 * (radius * radius);
    assert Roots(m, q) == (d - radius, d + radius);
  }

  // ---- ray-triangle --------------------------------------------------------

  /** The Moller-Trumbore determinant: the triple product of the two edges
      from `a` with the ray direction. */
  function Det(ray: Ray, tri: Triangle): real {
    Dot(Sub(tri.b, tri.a), Cross(Sub(tri.c, tri.a), ray.direction))
  }

  /** Barycentric coordinates (u, v) of the crossing point and its distance t
      along the ray. */
  datatype Barycentric = Barycentric(u: real, v: real, t: real)

  function Coordinates(ray: Ray, tri: Triangle): Barycentric
    requires Det(ray, tri) != 0.0
  {
    var ab := Sub(tri.b, tri.a);
    var ac := Sub(tri.c, tri.a);
    var p := Cross(ac, ray.direction);
    var det := Dot(ab, p);
    var t := Sub(ray.origin, tri.a);
    var q := Cross(ab, t);
    Barycentric(Dot(t, p) / det, Dot(ray.direction, q) / det, Dot(ac, q) / det)
  }

  function Abs(x: real): real {
    if x < 0.0 then -x else x
  }

  /** The coordinates lie on the triangle and in front of the ray origin. */
  predicate Accepted(bc: Barycentric) {
    0.0 <= bc.u <= 1.0 && bc.v >= 0.0 && bc.u + bc.v <= 1.0 && bc.t >= 0.0
  }

  /** hit_triangle, the Moller-Trumbore test with its early exits. */
  function HitTriangle(ray: Ray, tri: Triangle): (r: Option<real>)
    ensures r.Some? ==> r.value >= 0.0 && Abs(Det(ray, tri)) >= Epsilon
  {
    var ab := Sub(tri.b, tri.a);
    var ac := Sub(tri.c, tri.a);
    var p := Cross(ac, ray.direction);
    var det := Dot(ab, p);
    if Abs(det) < Epsilon then None
    else
      var t := Sub(ray.origin, tri.a);
      var u := Dot(t, p) / det;
      if u < 0.0 || u > 1.0 then None
      else
        var q := Cross(ab, t);
        var v := Dot(ray.direction, q) / det;
        if v < 0.0 || u + v > 1.0 then None
        else
          var distance := Dot(ac, q) / det;
          if distance < 0.0 then None else Some(distance)
  }

  /** What hit_triangle reports: a hit exactly when the determinant is at
      least Epsilon in magnitude and the coordinates are accepted; the
      distance is then t, never negative. */
  lemma HitTriangleAccepted(ray: Ray, tri: Triangle)
    ensures var r := HitTriangle(ray, tri);
      && (r.Some? <==> Abs(Det(ray, tri)) >= Epsilon && Accepted(Coordinates(ray, tri)))
      && (r.Some? ==> r.value == Coordinates(ray, tri).t && r.value >= 0.0)
  {
  }

  /** A ray parallel to the triangle's plane (orthogonal to the normal
      ab x ac) has a zero determinant and never hits. */
  lemma ParallelRayMisses(ray: Ray, tri: Triangle)
    requires Dot(Cross(Sub(tri.b, tri.a), Sub(tri.c, tri.a)), ray.direction) == 0.0
    ensures HitTriangle(ray, tri) == None
  {
    var ab, ac, d := Sub(tri.b, tri.a), Sub(tri.c, tri.a), ray.direction;
    TripleProduct(ab, ac, d);
    TripleProduct(ac, d, ab);
    TripleProduct(d, ab, ac);
    DotCommutative(Cross(ab, ac), d);
    assert Det(ray, tri) == 0.0;
  }

  /** Wherever the determinant is non-zero, the point at distance t along
      the ray is the point with barycentric coordinates (u, v):
      origin + t direction == a + u (b - a) + v (c - a). So where the test
      reports a hit, with its bounds on u and v, the hit point lies on the
      triangle. */
  lemma {:induction false} HitPointOnTriangle(ray: Ray, tri: Triangle)
    requires Det(ray, tri) != 0.0
    ensures var bc := Coordinates(ray, tri);
      Add(ray.origin, MulScalar(ray.direction, bc.t))
        == Add(tri.a, Add(MulScalar(Sub(tri.b, tri.a), bc.u), MulScalar(Sub(tri.c, tri.a), bc.v)))
  {
    var ab, ac, d, tv := Sub(tri.b, tri.a), Sub(tri.c, tri.a), ray.direction, Sub(ray.origin, tri.a);
    var bc := Coordinates(ray, tri);
    SolveX(ab, ac, d, tv, bc);
    SolveY(ab, ac, d, tv, bc);
    SolveZ(ab, ac, d, tv, bc);
    Recombine(ray.origin, tri.a, MulScalar(ab, bc.u), MulScalar(ac, bc.v), MulScalar(d, bc.t));
  }

  /** The converse of HitPointOnTriangle: a ray that crosses the triangle at
      coordinates u, v >= 0 with u + v <= 1, at a distance t >= 0 in front of
      its origin, is reported as a hit at distance t, unless the determinant
      is below Epsilon in magnitude. */
  lemma {:induction false} HitTriangleComplete(ray: Ray, tri: Triangle, bc: Barycentric)
    requires Abs(Det(ray, tri)) >= Epsilon && Accepted(bc)
    requires Add(ray.origin, MulScalar(ray.direction, bc.t))
          == Add(tri.a, Add(MulScalar(Sub(tri.b, tri.a), bc.u), MulScalar(Sub(tri.c, tri.a), bc.v)))
    ensures HitTriangle(ray, tri) == Some(bc.t)
  {
    CoordinatesUnique(ray, tri, bc);
    HitTriangleAccepted(ray, tri);
  }

  /** Where the determinant is non-zero, the coordinates of a point of the
      ray on the triangle's plane are unique: they are what Coordinates
      computes. */
  lemma {:induction false} CoordinatesUnique(ray: Ray, tri: Triangle, bc: Barycentric)
    requires Det(ray, tri) != 0.0
    requires Add(ray.origin, MulScalar(ray.direction, bc.t))
          == Add(tri.a, Add(MulScalar(Sub(tri.b, tri.a), bc.u), MulScalar(Sub(tri.c, tri.a), bc.v)))
    ensures Coordinates(ray, tri) == bc
  {
    var ab, ac, d := Sub(tri.b, tri.a), Sub(tri.c, tri.a), ray.direction;
    var det := Det(ray, tri);
    PointOffset(ray.origin, tri.a, ab, ac, d, bc);
    Project(ab, ac, d, bc);
    Cancel(bc.u, det);
    Cancel(bc.v, det);
    Cancel(bc.t, det);
  }

  /** From o + t d == a + (u ab + v ac): o - a == u ab + v ac - t d. */
  lemma PointOffset(o: Vec3f, a: Vec3f, ab: Vec3f, ac: Vec3f, d: Vec3f, bc: Barycentric)
    requires Add(o, MulScalar(d, bc.t)) == Add(a, Add(MulScalar(ab, bc.u), MulScalar(ac, bc.v)))
    ensures Sub(o, a) == Combine(ab, ac, d, bc)
  {
  }

  lemma Cancel(x: real, det: real)
    requires det != 0.0
    ensures x * det / det == x
  {
  }

  /** u ab + v ac - t d, componentwise. */
  function Combine(ab: Vec3f, ac: Vec3f, d: Vec3f, bc: Barycentric): Vec3f {
    Vec3f(ab.x * bc.u + ac.x * bc.v - d.x * bc.t,
          ab.y * bc.u + ac.y * bc.v - d.y * bc.t,
          ab.z * bc.u + ac.z * bc.v - d.z * bc.t)
  }

  /** Dotting u ab + v ac - t d with the three cross products isolates u, v
      and t, each times the determinant. */
  lemma Project(ab: Vec3f, ac: Vec3f, d: Vec3f, bc: Barycentric)
    ensures Dot(Combine(ab, ac, d, bc), Cross(ac, d)) == bc.u * Dot(ab, Cross(ac, d))
    ensures Dot(d, Cross(ab, Combine(ab, ac, d, bc))) == bc.v * Dot(ab, Cross(ac, d))
    ensures Dot(ac, Cross(ab, Combine(ab, ac, d, bc))) == bc.t * Dot(ab, Cross(ac, d))
  {
    ProjectU(ab, ac, d, bc);
    ProjectV(ab, ac, d, bc);
    ProjectT(ab, ac, d, bc);
  }

  lemma {:induction false} ProjectU(ab: Vec3f, ac: Vec3f, d: Vec3f, bc: Barycentric)
    ensures Dot(Combine(ab, ac, d, bc), Cross(ac, d)) == bc.u * Dot(ab, Cross(ac, d))
  {
    var w := Cross(ac, d);
    DotCombine(ab, ac, d, bc, w);
    CrossOrthogonal(ac, d);
    DotCommutative(w, ac);
    DotCommutative(w, d);
  }

  lemma {:induction false} ProjectV(ab: Vec3f, ac: Vec3f, d: Vec3f, bc: Barycentric)
    ensures Dot(d, Cross(ab, Combine(ab, ac, d, bc))) == bc.v * Dot(ab, Cross(ac, d))
  {
    var tv, w := Combine(ab, ac, d, bc), Cross(d, ab);
    TripleProduct(d, ab, tv);
    TripleProduct(ab, tv, d);
    DotCombine(ab, ac, d, bc, w);
    CrossOrthogonal(d, ab);
    DotCommutative(w, ab);
    DotCommutative(w, d);
    TripleProduct(ac, d, ab);
    TripleProduct(d, ab, ac);
  }

  lemma {:induction false} ProjectT(ab: Vec3f, ac: Vec3f, d: Vec3f, bc: Barycentric)
    ensures Dot(ac, Cross(ab, Combine(ab, ac, d, bc))) == bc.t * Dot(ab, Cross(ac, d))
  {
    var tv, w := Combine(ab, ac, d, bc), Cross(ac, ab);
    TripleProduct(ac, ab, tv);
    TripleProduct(ab, tv, ac);
    DotCombine(ab, ac, d, bc, w);
    CrossOrthogonal(ac, ab);
    DotCommutative(w, ab);
    DotCommutative(w, ac);
    TripleProduct(d, ac, ab);
    TripleProduct(ac, ab, d);
    CrossAntiCommutative(d, ac);
    DotMulScalar(Cross(ac, d), ab, -1.0);
    DotCommutative(MulScalar(Cross(ac, d), -1.0), ab);
    DotCommutative(Cross(ac, d), ab);
  }

  /** The dot product distributes over u ab + v ac - t d. */
  lemma DotCombine(ab: Vec3f, ac: Vec3f, d: Vec3f, bc: Barycentric, w: Vec3f)
    ensures Dot(Combine(ab, ac, d, bc), w) == bc.u * Dot(ab, w) + bc.v * Dot(ac, w) - bc.t * Dot(d, w)
  {
    Distribute(ab.x, ac.x, d.x, bc, w.x);
    Distribute(ab.y, ac.y, d.y, bc, w.y);
    Distribute(ab.z, ac.z, d.z, bc, w.z);
  }

  lemma Distribute(a: real, b: real, c: real, bc: Barycentric, w: real)
    ensures (a * bc.u + b * bc.v - c * bc.t) * w == bc.u * (a * w) + bc.v * (b * w) - bc.t * (c * w)
  {
  }

  /** The coordinates solve u ab + v ac - t d == tv (Cramer's rule), one
      component at a time. */
  lemma SolveX(ab: Vec3f, ac: Vec3f, d: Vec3f, tv: Vec3f, bc: Barycentric)
    requires Dot(ab, Cross(ac, d)) != 0.0
    requires bc.u == Dot(tv, Cross(ac, d)) / Dot(ab, Cross(ac, d))
    requires bc.v == Dot(d, Cross(ab, tv)) / Dot(ab, Cross(ac, d))
    requires bc.t == Dot(ac, Cross(ab, tv)) / Dot(ab, Cross(ac, d))
    ensures tv.x == ab.x * bc.u + ac.x * bc.v - d.x * bc.t
  {
    CramerX(ab, ac, d, tv);
    Unscale(Dot(ab, Cross(ac, d)), tv.x, Dot(tv, Cross(ac, d)), ab.x, Dot(d, Cross(ab, tv)), ac.x,
            Dot(ac, Cross(ab, tv)), d.x);
  }

  lemma SolveY(ab: Vec3f, ac: Vec3f, d: Vec3f, tv: Vec3f, bc: Barycentric)
    requires Dot(ab, Cross(ac, d)) != 0.0
    requires bc.u == Dot(tv, Cross(ac, d)) / Dot(ab, Cross(ac, d))
    requires bc.v == Dot(d, Cross(ab, tv)) / Dot(ab, Cross(ac, d))
    requires bc.t == Dot(ac, Cross(ab, tv)) / Dot(ab, Cross(ac, d))
    ensures tv.y == ab.y * bc.u + ac.y * bc.v - d.y * bc.t
  {
    CramerY(ab, ac, d, tv);
    Unscale(Dot(ab, Cross(ac, d)), tv.y, Dot(tv, Cross(ac, d)), ab.y, Dot(d, Cross(ab, tv)), ac.y,
            Dot(ac, Cross(ab, tv)), d.y);
  }

  lemma SolveZ(ab: Vec3f, ac: Vec3f, d: Vec3f, tv: Vec3f, bc: Barycentric)
    requires Dot(ab, Cross(ac, d)) != 0.0
    requires bc.u == Dot(tv, Cross(ac, d)) / Dot(ab, Cross(ac, d))
    requires bc.v == Dot(d, Cross(ab, tv)) / Dot(ab, Cross(ac, d))
    requires bc.t == Dot(ac, Cross(ab, tv)) / Dot(ab, Cross(ac, d))
    ensures tv.z == ab.z * bc.u + ac.z * bc.v - d.z * bc.t
  {
    CramerZ(ab, ac, d, tv);
    Unscale(Dot(ab, Cross(ac, d)), tv.z, Dot(tv, Cross(ac, d)), ab.z, Dot(d, Cross(ab, tv)), ac.z,
            Dot(ac, Cross(ab, tv)), d.z);
  }

  /** If o - a == su + sv - st componentwise, then o + st == a + (su + sv). */
  lemma Recombine(o: Vec3f, a: Vec3f, su: Vec3f, sv: Vec3f, st: Vec3f)
    requires o.x - a.x == su.x + sv.x - st.x
    requires o.y - a.y == su.y + sv.y - st.y
    requires o.z - a.z == su.z + sv.z - st.z
    ensures Add(o, st) == Add(a, Add(su, sv))
  {
  }

  /** Cramer's rule for the system u ab + v ac - t d == tv, multiplied
      through by the determinant, one component at a time. */
  lemma CramerX(ab: Vec3f, ac: Vec3f, d: Vec3f, tv: Vec3f)
    ensures Dot(ab, Cross(ac, d)) * tv.x
      == Dot(tv, Cross(ac, d)) * ab.x + Dot(d, Cross(ab, tv)) * ac.x - Dot(ac, Cross(ab, tv)) * d.x
  {
  }

  lemma CramerY(ab: Vec3f, ac: Vec3f, d: Vec3f, tv: Vec3f)
    ensures Dot(ab, Cross(ac, d)) * tv.y
      == Dot(tv, Cross(ac, d)) * ab.y + Dot(d, Cross(ab, tv)) * ac.y - Dot(ac, Cross(ab, tv)) * d.y
  {
  }

  lemma CramerZ(ab: Vec3f, ac: Vec3f, d: Vec3f, tv: Vec3f)
    ensures Dot(ab, Cross(ac, d)) * tv.z
      == Dot(tv, Cross(ac, d)) * ab.z + Dot(d, Cross(ab, tv)) * ac.z - Dot(ac, Cross(ab, tv)) * d.z
  {
  }

  lemma Unscale(det: real, lhs: real, p1: real, a1: real, p2: real, a2: real, p3: real, a3: real)
    requires det != 0.0
    requires det * lhs == p1 * a1 + p2 * a2 - p3 * a3
    ensures lhs == a1 * (p1 / det) + a2 * (p2 / det) - a3 * (p3 / det)
  {
  }
}
