/** cast_ray of src/main.c: the recursive Whitted integrator. It finds the
    nearest sphere or triangle the ray hits, shades the hit point with every
    light that is not in shadow, and adds the colour seen along the mirror
    reflection, recursing until MAX_DEPTH.

    The loops of cast_ray are methods here (FindNearest, ShadowBlocked,
    AccumulateLights, CastRay), each proved equal to a specification function
    (NearestHit, Occluded, LightSums, Trace); what the source promises is
    stated on those functions and in the lemmas about them. */
module Integrator {

  import opened Vector
  import opened Types
  import opened Options
  import opened Intersect
  import opened SceneStore

  // ---- nearest hit -----------------------------------------------------------

  /** The nearest hit of a ray. cast_ray keeps an integer flag (-1 none,
      1 sphere, 2 triangle), a distance and a pointer per kind; here the three
      are one value that names the primitive by its index. */
  datatype Hit = NoHit | SphereHit(index: nat, distance: real) | TriangleHit(index: nat, distance: real)

  /** The test reported no hit, or one strictly farther than d. */
  predicate Farther(o: Option<real>, d: real) {
    o.None? || o.value > d
  }

  /** The test reported no hit, or one no nearer than d. */
  predicate NotNearer(o: Option<real>, d: real) {
    o.None? || o.value >= d
  }

  /** What hit_sphere reports for each sphere, in scene order. */
  function SphereResults(m: Libm, ray: Ray, spheres: seq<Sphere>): (ds: seq<Option<real>>)
    requires NonZero(ray.direction)
    ensures |ds| == |spheres|
    ensures forall i | 0 <= i < |spheres| :: ds[i] == HitSphere(m, ray, spheres[i])
  {
    seq(|spheres|, i requires 0 <= i < |spheres| => HitSphere(m, ray, spheres[i]))
  }

  /** What hit_triangle reports for each triangle, in scene order. */
  function TriangleResults(ray: Ray, triangles: seq<Triangle>): (es: seq<Option<real>>)
    ensures |es| == |triangles|
    ensures forall j | 0 <= j < |triangles| :: es[j] == HitTriangle(ray, triangles[j])
  {
    seq(|triangles|, j requires 0 <= j < |triangles| => HitTriangle(ray, triangles[j]))
  }

  /** `h` is the nearest hit as cast_ray chooses it, given what the sphere
      tests (ds) and the triangle tests (es) report: no test reports a smaller
      distance; among equal distances the earliest sphere wins, then the
      earliest triangle, and a triangle wins over a sphere only when it is
      strictly nearer. NoHit exactly when no test reports a hit. */
  ghost predicate IsNearest(ds: seq<Option<real>>, es: seq<Option<real>>, h: Hit) {
    match h
    case NoHit =>
      && (forall i | 0 <= i < |ds| :: ds[i].None?)
      && (forall j | 0 <= j < |es| :: es[j].None?)
    case SphereHit(i, d) =>
      && i < |ds|
      && ds[i] == Some(d)
      && (forall k | 0 <= k < i :: Farther(ds[k], d))
      && (forall k | i < k < |ds| :: NotNearer(ds[k], d))
      && (forall k | 0 <= k < |es| :: NotNearer(es[k], d))
    case TriangleHit(j, d) =>
      && j < |es|
      && es[j] == Some(d)
      && (forall k | 0 <= k < |ds| :: Farther(ds[k], d))
      && (forall k | 0 <= k < j :: Farther(es[k], d))
      && (forall k | j < k < |es| :: NotNearer(es[k], d))
  }

  /** One iteration of the sphere scan: sphere i becomes the nearest hit when
      it is hit and nothing was hit before or it is strictly nearer. */
  function SphereStep(h: Hit, i: nat, o: Option<real>): Hit {
    if o.Some? && (h.NoHit? || o.value < h.distance) then SphereHit(i, o.value) else h
  }

  /** One iteration of the triangle scan, with the same rule. */
  function TriangleStep(h: Hit, j: nat, o: Option<real>): Hit {
    if o.Some? && (h.NoHit? || o.value < h.distance) then TriangleHit(j, o.value) else h
  }

  /** The outcome of scanning all sphere results and then all triangle
      results, in order. */
  function Nearest(ds: seq<Option<real>>, es: seq<Option<real>>): (h: Hit)
    ensures h.SphereHit? ==> h.index < |ds|
    ensures h.TriangleHit? ==> h.index < |es|
    decreases |ds| + |es|
  {
    if es != [] then
      var n := |es| - 1;
      TriangleStep(Nearest(ds, es[..n]), n, es[n])
    else if ds != [] then
      var n := |ds| - 1;
      SphereStep(Nearest(ds[..n], []), n, ds[n])
    else
      NoHit
  }

  /** The scan finds the nearest hit. */
  lemma {:induction false} NearestIsNearest(ds: seq<Option<real>>, es: seq<Option<real>>)
    ensures IsNearest(ds, es, Nearest(ds, es))
    decreases |ds| + |es|
  {
    if es != [] {
      var n := |es| - 1;
      NearestIsNearest(ds, es[..n]);
      NextTriangle(ds, es, Nearest(ds, es[..n]));
    } else if ds != [] {
      var n := |ds| - 1;
      NearestIsNearest(ds[..n], []);
      NextSphere(ds, Nearest(ds[..n], []));
    }
  }

  lemma NextSphere(ds: seq<Option<real>>, h: Hit)
    requires ds != []
    requires IsNearest(ds[..|ds| - 1], [], h)
    ensures IsNearest(ds, [], SphereStep(h, |ds| - 1, ds[|ds| - 1]))
  {
    var n := |ds| - 1;
    assert forall k | 0 <= k < n :: ds[..n][k] == ds[k];
  }

  lemma NextTriangle(ds: seq<Option<real>>, es: seq<Option<real>>, h: Hit)
    requires es != []
    requires IsNearest(ds, es[..|es| - 1], h)
    ensures IsNearest(ds, es, TriangleStep(h, |es| - 1, es[|es| - 1]))
  {
    var n := |es| - 1;
    assert forall k | 0 <= k < n :: es[..n][k] == es[k];
  }

  /** The nearest distance is no larger than any distance a test reports,
      and there is a hit whenever some test reports one. */
  lemma NearestIsMinimal(ds: seq<Option<real>>, es: seq<Option<real>>)
    ensures var h := Nearest(ds, es);
      && (forall i | 0 <= i < |ds| && ds[i].Some? :: !h.NoHit? && h.distance <= ds[i].value)
      && (forall j | 0 <= j < |es| && es[j].Some? :: !h.NoHit? && h.distance <= es[j].value)
  {
    NearestIsNearest(ds, es);
  }

  /** Only the reported distances decide the nearest hit: two scenes whose
      primitives report the same distances have the same nearest hit, and
      the hit is unique. */
  lemma NearestUnique(ds: seq<Option<real>>, es: seq<Option<real>>, h: Hit)
    requires IsNearest(ds, es, h)
    ensures h == Nearest(ds, es)
  {
    NearestIsNearest(ds, es);
  }

  /** The nearest hit of a ray over a scene's spheres and triangles. */
  function NearestHit(m: Libm, ray: Ray, spheres: seq<Sphere>, triangles: seq<Triangle>): (h: Hit)
    requires NonZero(ray.direction)
    ensures h.SphereHit? ==> h.index < |spheres|
    ensures h.TriangleHit? ==> h.index < |triangles|
  {
    Nearest(SphereResults(m, ray, spheres), TriangleResults(ray, triangles))
  }

  /** The two scans of cast_ray. The flag test `flag == -1` is `hit.NoHit?`. */
  method FindNearest(m: Libm, scene: Scene, ray: Ray) returns (hit: Hit)
    requires scene.Valid() && NonZero(ray.direction)
    ensures hit == NearestHit(m, ray, scene.spheres, scene.triangles)
  {
    ghost var ds := SphereResults(m, ray, scene.spheres);
    ghost var es := TriangleResults(ray, scene.triangles);
    hit := NoHit;
    for i := 0 to scene.sphereCount
      invariant hit == Nearest(ds[..i], [])
    {
      var current := HitSphere(m, ray, scene.spheres[i]);
      SphereScanStep(ds, i);
      if current.Some? && (hit.NoHit? || current.value < hit.distance) {
        hit := SphereHit(i, current.value);
      }
    }
    assert ds[..scene.sphereCount] == ds;
    for i := 0 to scene.triangleCount
      invariant hit == Nearest(ds, es[..i])
    {
      var current := HitTriangle(ray, scene.triangles[i]);
      TriangleScanStep(ds, es, i);
      if current.Some? && (hit.NoHit? || current.value < hit.distance) {
        hit := TriangleHit(i, current.value);
      }
    }
    assert es[..scene.triangleCount] == es;
  }

  /** One more sphere extends the scan by one SphereStep. */
  lemma SphereScanStep(ds: seq<Option<real>>, i: nat)
    requires i < |ds|
    ensures Nearest(ds[..i + 1], []) == SphereStep(Nearest(ds[..i], []), i, ds[i])
  {
    assert ds[..i + 1][..i] == ds[..i];
  }

  /** One more triangle extends the scan by one TriangleStep. */
  lemma TriangleScanStep(ds: seq<Option<real>>, es: seq<Option<real>>, i: nat)
    requires i < |es|
    ensures Nearest(ds, es[..i + 1]) == TriangleStep(Nearest(ds, es[..i]), i, es[i])
  {
    assert es[..i + 1][..i] == es[..i];
  }

  // ---- shadows -------------------------------------------------------------

  /** A primitive blocks a shadow ray when it reports a strictly positive
      distance. */
  predicate SphereBlocks(m: Libm, ray: Ray, sphere: Sphere)
    requires NonZero(ray.direction)
  {
    var o := HitSphere(m, ray, sphere); o.Some? && o.value > 0.0
  }

  predicate TriangleBlocks(ray: Ray, tri: Triangle) {
    var o := HitTriangle(ray, tri); o.Some? && o.value > 0.0
  }

  /** Some sphere or some triangle blocks the ray. */
  predicate Occluded(m: Libm, spheres: seq<Sphere>, triangles: seq<Triangle>, ray: Ray)
    requires NonZero(ray.direction)
  {
    || (exists k | 0 <= k < |spheres| :: SphereBlocks(m, ray, spheres[k]))
    || (exists k | 0 <= k < |triangles| :: TriangleBlocks(ray, triangles[k]))
  }

  /** The shadow test of cast_ray: scan the spheres, then (unless one already
      blocked) the triangles, stopping at the first blocker. */
  method ShadowBlocked(m: Libm, scene: Scene, lightRay: Ray) returns (intersect: bool)
    requires scene.Valid() && NonZero(lightRay.direction)
    ensures intersect == Occluded(m, scene.spheres, scene.triangles, lightRay)
  {
    intersect := false;
    var k := 0;
    while k < scene.sphereCount
      invariant 0 <= k <= scene.sphereCount
      invariant forall i | 0 <= i < k :: !SphereBlocks(m, lightRay, scene.spheres[i])
    {
      var d := HitSphere(m, lightRay, scene.spheres[k]);
      if d.Some? && d.value > 0.0 {
        intersect := true;
        break;
      }
      k := k + 1;
    }
    if !intersect {
      k := 0;
      while k < scene.triangleCount
        invariant 0 <= k <= scene.triangleCount
        invariant forall i | 0 <= i < k :: !TriangleBlocks(lightRay, scene.triangles[i])
      {
        var d := HitTriangle(lightRay, scene.triangles[k]);
        if d.Some? && d.value > 0.0 {
          intersect := true;
          break;
        }
        k := k + 1;
      }
    }
  }

  // ---- local shading ---------------------------------------------------------

  /** Where and how a hit point is shaded. */
  datatype Surface = Surface(point: Vec3f, normal: Vec3f, material: Material)

  /** The triangle normal flip: a normal pointing along the ray is negated,
      so the result never points along the ray. */
  function FaceForward(normal: Vec3f, dir: Vec3f): (r: Vec3f)
    ensures Dot(r, dir) <= 0.0
    ensures r == normal || r == MulScalar(normal, -1.0)
    ensures Dot(normal, dir) <= 0.0 ==> r == normal
  {
    if Dot(normal, dir) > 0.0 then
      DotMulScalar(normal, dir, -1.0);
      MulScalar(normal, -1.0)
    else
      normal
  }

  /** The hit point and its normal and material, as cast_ray computes them
      for a sphere hit and for a triangle hit. */
  function SurfaceAt(m: Libm, w: World, ray: Ray, hit: Hit): (s: Surface)
    requires !hit.NoHit?
    requires hit.SphereHit? ==> hit.index < |w.spheres|
    requires hit.TriangleHit? ==> hit.index < |w.triangles|
    ensures hit.TriangleHit? ==> Dot(s.normal, ray.direction) <= 0.0
    ensures s.material == if hit.SphereHit? then w.spheres[hit.index].material
                          else w.triangles[hit.index].material
  {
    var point := Add(ray.origin, MulScalar(ray.direction, hit.distance));
    if hit.SphereHit? then
      var sphere := w.spheres[hit.index];
      Surface(point, m.normalise(Sub(point, sphere.center)), sphere.material)
    else
      var tri := w.triangles[hit.index];
      var normal := m.normalise(Cross(Sub(tri.b, tri.a), Sub(tri.c, tri.a)));
      Surface(point, FaceForward(normal, ray.direction), tri.material)
  }

  /** reflection_dir: the mirror image of `dir` about `normal`, normalised
      and negated. Its value depends on normalisation; what is proved is that
      it is never the zero vector, so the reflected ray is a valid ray. */
  function ReflectionDir(m: Libm, dir: Vec3f, normal: Vec3f): (r: Vec3f)
    requires Sound(m)
    ensures NonZero(r)
  {
    var n := m.normalise(Sub(MulScalar(normal, 2.0 * Dot(dir, normal)), dir));
    NegateNonZero(n);
    MulScalar(n, -1.0)
  }

  lemma NegateNonZero(a: Vec3f)
    requires NonZero(a)
    ensures NonZero(MulScalar(a, -1.0))
  {
    MulScalarMinusOne(a);
  }

  /** The reflected ray leaves from the hit point biased Epsilon along the
      normal. */
  function ReflectionRay(m: Libm, ray: Ray, s: Surface): (r: Ray)
    requires Sound(m)
    ensures NonZero(r.direction)
  {
    Ray(Add(s.point, MulScalar(s.normal, Epsilon)), ReflectionDir(m, ray.direction, s.normal))
  }

  /** The direction from the hit point towards a light. */
  function LightDir(m: Libm, s: Surface, light: Light): Vec3f {
    m.normalise(Sub(light.pos, s.point))
  }

  /** The shadow ray: from the biased hit point towards the light. */
  function ShadowRay(m: Libm, s: Surface, light: Light): (r: Ray)
    requires Sound(m)
    ensures NonZero(r.direction)
  {
    Ray(Add(s.point, MulScalar(s.normal, Epsilon)), LightDir(m, s, light))
  }

  /** A light shades the point when nothing blocks its shadow ray and it lies
      in front of the surface (diffuseDot > 0). */
  ghost predicate Lit(m: Libm, w: World, s: Surface, light: Light)
    requires Sound(m)
  {
    && !Occluded(m, w.spheres, w.triangles, ShadowRay(m, s, light))
    && Dot(s.normal, LightDir(m, s, light)) > 0.0
  }

  /** Diffuse and specular light strengths. */
  datatype Contribution = Contribution(diffuse: real, specular: real)

  const NoLight: Contribution := Contribution(0.0, 0.0)

  /** What one light adds to the two sums: nothing unless it is lit; then its
      strength times diffuseDot to the diffuse sum, and its strength times the
      Phong term to the specular sum. */
  function LightTerm(m: Libm, w: World, s: Surface, rayDir: Vec3f, light: Light): Contribution
    requires Sound(m)
  {
    if Occluded(m, w.spheres, w.triangles, ShadowRay(m, s, light)) then NoLight
    else
      var lightDirection := LightDir(m, s, light);
      var diffuseDot := Dot(s.normal, lightDirection);
      if diffuseDot > 0.0 then
        var specularDot := Dot(ReflectionDir(m, lightDirection, s.normal), rayDir);
        Contribution(light.strength * diffuseDot,
                     light.strength * m.powf(specularDot, s.material.specularExp))
      else NoLight
  }

  /** A light that is shadowed or behind the surface adds nothing; a lit one
      adds strength times diffuseDot to the diffuse sum, which is positive for
      a positive strength; a non-negative strength never lowers the sum. */
  lemma LightTermDiffuse(m: Libm, w: World, s: Surface, rayDir: Vec3f, light: Light)
    requires Sound(m)
    ensures var c := LightTerm(m, w, s, rayDir, light);
      && (!Lit(m, w, s, light) ==> c == NoLight)
      && (Lit(m, w, s, light) ==> c.diffuse == light.strength * Dot(s.normal, LightDir(m, s, light)))
      && (light.strength >= 0.0 ==> c.diffuse >= 0.0)
      && (light.strength > 0.0 && Lit(m, w, s, light) ==> c.diffuse > 0.0)
  {
    LightTermCases(m, w, s, rayDir, light, Occluded(m, w.spheres, w.triangles, ShadowRay(m, s, light)));
    ProductSign(light.strength, Dot(s.normal, LightDir(m, s, light)));
  }

  lemma ProductSign(a: real, b: real)
    ensures b > 0.0 && a >= 0.0 ==> a * b >= 0.0
    ensures b > 0.0 && a > 0.0 ==> a * b > 0.0
  {
  }

  /** The diffuse and specular sums over the first n lights, accumulated in
      order. */
  function LightSums(m: Libm, w: World, s: Surface, rayDir: Vec3f, n: nat): Contribution
    requires Sound(m) && n <= |w.lights|
  {
    if n == 0 then NoLight
    else
      var before := LightSums(m, w, s, rayDir, n - 1);
      var c := LightTerm(m, w, s, rayDir, w.lights[n - 1]);
      Contribution(before.diffuse + c.diffuse, before.specular + c.specular)
  }

  /** With non-negative strengths the diffuse sum is never negative. */
  lemma {:induction false} DiffuseSumNonNegative(m: Libm, w: World, s: Surface, rayDir: Vec3f, n: nat)
    requires Sound(m) && n <= |w.lights|
    requires forall k | 0 <= k < n :: w.lights[k].strength >= 0.0
    ensures LightSums(m, w, s, rayDir, n).diffuse >= 0.0
  {
    if n > 0 {
      DiffuseSumNonNegative(m, w, s, rayDir, n - 1);
      LightTermDiffuse(m, w, s, rayDir, w.lights[n - 1]);
    }
  }

  /** Lights that are shadowed or behind the surface add nothing: if no light
      is lit, both sums are zero. */
  lemma {:induction false} UnlitSumsZero(m: Libm, w: World, s: Surface, rayDir: Vec3f, n: nat)
    requires Sound(m) && n <= |w.lights|
    requires forall k | 0 <= k < n :: !Lit(m, w, s, w.lights[k])
    ensures LightSums(m, w, s, rayDir, n) == NoLight
  {
    if n > 0 {
      UnlitSumsZero(m, w, s, rayDir, n - 1);
      LightTermDiffuse(m, w, s, rayDir, w.lights[n - 1]);
    }
  }

  /** LightTerm unfolded, given the outcome of the shadow test. */
  lemma LightTermCases(m: Libm, w: World, s: Surface, rayDir: Vec3f, light: Light, blocked: bool)
    requires Sound(m)
    requires blocked == Occluded(m, w.spheres, w.triangles, ShadowRay(m, s, light))
    ensures blocked ==> LightTerm(m, w, s, rayDir, light) == NoLight
    ensures !blocked && Dot(s.normal, LightDir(m, s, light)) <= 0.0 ==> LightTerm(m, w, s, rayDir, light) == NoLight
    ensures !blocked && Dot(s.normal, LightDir(m, s, light)) > 0.0 ==>
      LightTerm(m, w, s, rayDir, light)
        == Contribution(light.strength * Dot(s.normal, LightDir(m, s, light)),
                        light.strength * m.powf(Dot(ReflectionDir(m, LightDir(m, s, light), s.normal), rayDir),
                                                s.material.specularExp))
  {
  }

  /** The body of the light loop of cast_ray for one light: what it adds to
      the diffuse and to the specular sum. */
  method LightContributionOf(m: Libm, scene: Scene, s: Surface, rayDir: Vec3f, light: Light)
    returns (diffuseTerm: real, specularTerm: real)
    requires Sound(m) && scene.Valid()
    ensures Contribution(diffuseTerm, specularTerm) == LightTerm(m, scene.View(), s, rayDir, light)
  {
    diffuseTerm, specularTerm := 0.0, 0.0;
    var intersect := ShadowBlocked(m, scene, ShadowRay(m, s, light));
    if !intersect {
      var lightDirection := LightDir(m, s, light);
      var diffuseDot := Dot(s.normal, lightDirection);
      if diffuseDot > 0.0 {
        diffuseTerm := light.strength * diffuseDot;
        var lightReflectionDir := ReflectionDir(m, lightDirection, s.normal);
        var specularDot := Dot(lightReflectionDir, rayDir);
        specularTerm := light.strength * m.powf(specularDot, s.material.specularExp);
      }
    }
    LightTermCases(m, scene.View(), s, rayDir, light, intersect);
  }

  /** The light loop of cast_ray. */
  method AccumulateLights(m: Libm, scene: Scene, s: Surface, rayDir: Vec3f)
    returns (diffuse: real, specular: real)
    requires Sound(m) && scene.Valid()
    ensures Contribution(diffuse, specular) == LightSums(m, scene.View(), s, rayDir, |scene.lights|)
  {
    diffuse, specular := 0.0, 0.0;
    for j := 0 to scene.lightCount
      invariant Contribution(diffuse, specular) == LightSums(m, scene.View(), s, rayDir, j)
    {
      var diffuseTerm, specularTerm := LightContributionOf(m, scene, s, rayDir, scene.lights[j]);
      diffuse := diffuse + diffuseTerm;
      specular := specular + specularTerm;
    }
  }

  // ---- the recursive integrator ------------------------------------------------

  /** The final colour: diffuse colour scaled by (1 - ambient) and the diffuse
      sum, plus the specular term on every channel, plus the reflected colour
      scaled by the reflectivity. Not clamped. */
  function Shade(material: Material, sums: Contribution, reflectionColor: Color): Color {
    ColorAdd(
      ColorAddScalar(
        ColorMulScalar(ColorMulScalar(material.diffuse, 1.0 - material.ambient), sums.diffuse),
        material.specular * sums.specular),
      ColorMulScalar(reflectionColor, material.reflective))
  }

  /** The colour cast_ray returns for `ray` at recursion depth `depth`. At or
      beyond MAX_DEPTH, and when nothing is hit, it is the background. */
  function Trace(m: Libm, w: World, ray: Ray, depth: int): Color
    requires Sound(m) && NonZero(ray.direction)
    decreases MaxDepth - depth, 1
  {
    if depth >= MaxDepth then w.bgColor else TraceBelow(m, w, ray, depth)
  }

  /** cast_ray below MAX_DEPTH: the background when nothing is hit,
      otherwise the shaded colour, with the reflection traced one level
      deeper. */
  function TraceBelow(m: Libm, w: World, ray: Ray, depth: int): Color
    requires Sound(m) && NonZero(ray.direction) && depth < MaxDepth
    decreases MaxDepth - depth, 0
  {
    var hit := NearestHit(m, ray, w.spheres, w.triangles);
    if hit.NoHit? then w.bgColor
    else
      var s := SurfaceAt(m, w, ray, hit);
      Shade(s.material,
            LightSums(m, w, s, ray.direction, |w.lights|),
            Trace(m, w, ReflectionRay(m, ray, s), depth + 1))
  }

  /** At or beyond MAX_DEPTH, and when nothing is hit, the colour is the
      background. */
  lemma TraceBackground(m: Libm, w: World, ray: Ray, depth: int)
    requires Sound(m) && NonZero(ray.direction)
    ensures depth >= MaxDepth ==> Trace(m, w, ray, depth) == w.bgColor
    ensures NearestHit(m, ray, w.spheres, w.triangles).NoHit? ==> Trace(m, w, ray, depth) == w.bgColor
  {
  }

  /** The number of cast_ray calls nested beneath one call at `depth`: one
      per reflection bounce that hits something, none at or beyond MAX_DEPTH.
      Because every recursive call passes depth + 1, there are at most
      MAX_DEPTH - depth of them, whatever the geometry. This count follows
      Trace's recursion and is not connected to CastRay by a lemma; for
      CastRay itself the same bound is its `decreases MaxDepth - depth`,
      which the verifier checks at the recursive call. */
  function NestedCalls(m: Libm, w: World, ray: Ray, depth: int): (n: nat)
    requires Sound(m) && NonZero(ray.direction)
    ensures depth >= MaxDepth ==> n == 0
    ensures depth < MaxDepth ==> n <= MaxDepth - depth
    decreases MaxDepth - depth
  {
    if depth >= MaxDepth then 0
    else
      var hit := NearestHit(m, ray, w.spheres, w.triangles);
      if hit.NoHit? then 0
      else 1 + NestedCalls(m, w, ReflectionRay(m, ray, SurfaceAt(m, w, ray, hit)), depth + 1)
  }

  /** Below MAX_DEPTH, a ray that hits something gets the shaded colour of
      its hit point: the light sums and the colour seen along the
      reflection. */
  lemma TraceShaded(m: Libm, w: World, ray: Ray, depth: int, hit: Hit, s: Surface,
                    reflectionColor: Color, sums: Contribution)
    requires Sound(m) && NonZero(ray.direction) && depth < MaxDepth
    requires hit == NearestHit(m, ray, w.spheres, w.triangles) && !hit.NoHit?
    requires s == SurfaceAt(m, w, ray, hit)
    requires reflectionColor == Trace(m, w, ReflectionRay(m, ray, s), depth + 1)
    requires sums == LightSums(m, w, s, ray.direction, |w.lights|)
    ensures Trace(m, w, ray, depth) == Shade(s.material, sums, reflectionColor)
  {
  }

  /** A matte material (reflectivity 0) ignores the colour seen along the
      reflection. */
  lemma ShadeMatte(material: Material, sums: Contribution, c1: Color, c2: Color)
    requires material.reflective == 0.0
    ensures Shade(material, sums, c1) == Shade(material, sums, c2)
  {
  }

  /** When the nearest hit is on a matte surface, the colour is the same at
      every depth below MAX_DEPTH: the reflection, and with it the recursion
      and its cut-off, has no effect on the result. */
  lemma {:induction false} TraceMatte(m: Libm, w: World, ray: Ray, d1: int, d2: int)
    requires Sound(m) && NonZero(ray.direction) && d1 < MaxDepth && d2 < MaxDepth
    requires !NearestHit(m, ray, w.spheres, w.triangles).NoHit?
    requires SurfaceAt(m, w, ray, NearestHit(m, ray, w.spheres, w.triangles)).material.reflective == 0.0
    ensures Trace(m, w, ray, d1) == Trace(m, w, ray, d2)
  {
    var s := SurfaceAt(m, w, ray, NearestHit(m, ray, w.spheres, w.triangles));
    ShadeMatte(s.material, LightSums(m, w, s, ray.direction, |w.lights|),
               Trace(m, w, ReflectionRay(m, ray, s), d1 + 1), Trace(m, w, ReflectionRay(m, ray, s), d2 + 1));
  }

  /** cast_ray. */
  method CastRay(m: Libm, scene: Scene, ray: Ray, depth: int) returns (color: Color)
    requires Sound(m) && scene.Valid() && NonZero(ray.direction)
    ensures color == Trace(m, scene.View(), ray, depth)
    decreases MaxDepth - depth
  {
    var w := scene.View();
    TraceBackground(m, w, ray, depth);
    color := scene.bgColor;
    if depth < MaxDepth {
      var hit := FindNearest(m, scene, ray);
      if !hit.NoHit? {
        var s := SurfaceAt(m, w, ray, hit);
        var reflectionColor := CastRay(m, scene, ReflectionRay(m, ray, s), depth + 1);
        var diffuse, specular := AccumulateLights(m, scene, s, ray.direction);
        color := Shade(s.material, Contribution(diffuse, specular), reflectionColor);
        TraceShaded(m, w, ray, depth, hit, s, reflectionColor, Contribution(diffuse, specular));
      }
    }
  }
}
