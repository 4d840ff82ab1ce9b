# A verified model of the renderer's scene store, intersection tests and integrator

The renderer is a small Whitted-style ray tracer in C. A scene holds a
background colour and growable arrays of lights, spheres and triangles.
Squares are stored as two triangles. `cast_ray` finds the nearest primitive a
ray hits (`hit_sphere`, `hit_triangle`), shades the hit point with every light
that is not in shadow, and adds the colour seen along the mirror reflection.
It recurses until `MAX_DEPTH`. `render_routine` fills one row of the image,
one pixel per column. `render` starts one thread per row.

This project models that core in Dafny over the reals (`real` in place of
C `float`):

- `vector.dfy` (module `Vector`): the vector arithmetic of
  `include/k_vector.h` and its algebraic laws.
- `types.dfy` (modules `Options`, `Types`): the records, the constants
  `MAX_DEPTH`, `EPSILON` and `FOV`, and the colour operations. It also holds
  `Libm`, the math-library routines (`sqrt`, `powf`, `tan`,
  `vec3f_normalise`), which are parameters of the model. `Sound(m)` is the
  one assumption about them: normalisation never yields the zero vector.
- `scene.dfy` (module `SceneStore`): the scene as a class. The C arrays and
  counters are `seq` fields and `int` counters that the add methods update.
  `Scene.View()` is the scene's contents as a value (`World`).
- `intersect.dfy` (module `Intersect`): `hit_sphere` and `hit_triangle` as
  functions returning `Option<real>`, with lemmas that say when each reports
  a hit and what distance it reports.
- `integrator.dfy` (module `Integrator`): the loops of `cast_ray` as
  methods. These are the two nearest-hit scans, the shadow scans with their
  `break`, the light loop and the recursion. Each method is proved equal to
  a specification function (`NearestHit`, `Occluded`, `LightSums`, `Trace`),
  and the properties the code relies on are proved about those functions.
- `render.dfy` (module `Render`): `render_routine` as methods on an
  `array<Color>`, and `render` as a sequential loop over the rows. The lemmas
  show that row `r` writes exactly the indices `r*width .. r*width+width-1`,
  so the rows are disjoint.

## Model

| member | source | states |
|---|---|---|
| `SceneStore.Scene.constructor` | src/main.c:86-96 | init_scene: the background is the given colour, all three collections are empty and all three counts are zero |
| `SceneStore.Scene.AddLight` | src/main.c:102-107 | add_light: the light count grows by one, the new light is at index count-1, the earlier lights are unchanged, and spheres, triangles and background are untouched |
| `SceneStore.Scene.AddSphere` | src/main.c:109-117 | add_sphere: the sphere count grows by one, the new sphere is at index count-1, the earlier spheres are unchanged, and lights, triangles and background are untouched |
| `SceneStore.Scene.AddTriangle` | src/main.c:119-127 | add_triangle: the triangle count grows by one, the new triangle is at index count-1, the earlier triangles are unchanged, and lights, spheres and background are untouched |
| `SceneStore.Scene.AddSquare` | src/main.c:129-132 | add_square: appends exactly two triangles, (a,b,c) then (a,c,d), both with the square's material; lights and spheres are untouched |
| `Vector.AddCommutative` | include/k_vector.h:47-49 | vec3f_add is commutative |
| `Vector.SubUndoesAdd` | include/k_vector.h:47-53 | vec3f_sub(vec3f_add(a, b), b) == a |
| `Vector.ScalarShiftsInverse` | include/k_vector.h:55-61 | vec3f_add_scalar and vec3f_sub_scalar with the same scalar undo each other, in both orders |
| `Vector.MulScalarOne` | include/k_vector.h:63-65 | scaling by 1 is the identity |
| `Vector.MulScalarMinusOne` | include/k_vector.h:63-65 | scaling by -1 negates each component, adds to the original to give zero, and keeps the squared length |
| `Vector.DotCommutative` | include/k_vector.h:77-79 | vec3f_dot is commutative |
| `Vector.DotMulScalar` | include/k_vector.h:77-79 | scaling one operand of a dot product by s scales the product by s |
| `Vector.DotSelfNonNegative` | include/k_vector.h:77-79 | dot(a, a) >= 0, the leading coefficient of hit_sphere's quadratic |
| `Vector.CrossOrthogonal` | include/k_vector.h:81-87 | cross(a, b) is orthogonal to a and to b |
| `Vector.CrossAntiCommutative` | include/k_vector.h:81-87 | cross(a, b) == mul_scalar(cross(b, a), -1) |
| `Vector.TripleProduct` | include/k_vector.h:77-87 | the scalar triple product is invariant under cyclic shifts and under swapping dot and cross |
| `Intersect.Ordered` | src/main.c:152-156 | after the swap, t1 <= t2, and the pair is the original one or its swap |
| `Intersect.HitSphereRoots` | src/main.c:134-164 | hit_sphere misses on a negative discriminant; otherwise it misses exactly when both roots are negative, and on a hit it reports the smallest non-negative root |
| `Intersect.HitSphere` | src/main.c:134-164 | hit_sphere: a distance it reports is never negative (the miss cases and the choice of root are stated by HitSphereRoots) |
| `Intersect.HitSphereOnSurface` | src/main.c:134-164 | a reported distance t solves the sphere's quadratic: the point origin + t·dir lies on the surface (its squared distance from the centre is radius²), given a square root that is exact at the discriminant |
| `Intersect.RootOnSurface` | src/main.c:134-147 | either root (-b ± sqrt D) / 2a of the quadratic gives a point on the sphere's surface |
| `Intersect.SphereHeadOn` | src/main.c:134-164 | a ray from (0,0,d) towards a sphere of radius r at the origin, with d > r > 0, reports distance d - r |
| `Intersect.HitTriangle` | src/main.c:166-194 | hit_triangle: a reported distance is never negative, and a hit is only reported when abs(det) >= EPSILON |
| `Intersect.HitTriangleAccepted` | src/main.c:166-194 | hit_triangle reports a hit exactly when abs(det) >= EPSILON, 0 <= u <= 1, v >= 0, u+v <= 1 and t >= 0; the distance is then t |
| `Intersect.ParallelRayMisses` | src/main.c:170-174 | a ray orthogonal to the triangle's normal has a zero determinant and is reported as a miss |
| `Intersect.HitPointOnTriangle` | src/main.c:166-194 | where det != 0, origin + t·dir == a + u·(b-a) + v·(c-a), so an accepted hit point lies on the triangle |
| `Intersect.CoordinatesUnique` | src/main.c:166-194 | where det != 0, any (u, v, t) with origin + t·dir == a + u·(b-a) + v·(c-a) is exactly the (u, v, t) the test computes |
| `Intersect.HitTriangleComplete` | src/main.c:166-194 | the converse of HitPointOnTriangle: a ray that crosses the triangle at u, v >= 0, u + v <= 1 and t >= 0, with abs(det) >= EPSILON, is reported as a hit at distance t |
| `Integrator.Nearest` | src/main.c:230-250 | the outcome of the two scans names a sphere or triangle index within range |
| `Integrator.NearestIsNearest` | src/main.c:230-250 | the scans find the nearest hit: no test reports a smaller distance; ties go to the earliest sphere, then the earliest triangle; a triangle displaces a sphere only when strictly nearer; no hit exactly when no test hits |
| `Integrator.NearestIsMinimal` | src/main.c:230-250 | the chosen distance is at most every reported distance, and there is a hit whenever some test reports one |
| `Integrator.NearestUnique` | src/main.c:230-250 | any hit meeting the nearest-hit conditions is the one the scans choose, so the choice depends only on the reported distances |
| `Integrator.NearestHit` | src/main.c:230-250 | the nearest hit over a scene names a sphere or triangle index within range |
| `Integrator.FindNearest` | src/main.c:224-250 | the two loops with flag, distance and pointers compute NearestHit |
| `Integrator.ShadowBlocked` | src/main.c:303-325 | the shadow scans with break report a blocker exactly when some sphere or triangle reports a distance > 0 on the shadow ray |
| `Integrator.FaceForward` | src/main.c:280-281 | the flipped normal never points along the ray (dot <= 0); it is the normal or its negation, and a normal already facing the ray is kept |
| `Integrator.SurfaceAt` | src/main.c:252-284 | for a triangle hit the shading normal satisfies dot(normal, ray.direction) <= 0; the material is that of the primitive hit |
| `Integrator.ReflectionDir` | src/main.c:196-206 | the reflection direction is never the zero vector |
| `Integrator.ReflectionRay` | src/main.c:286-289 | the reflected ray has a non-zero direction, so it is a valid argument to the recursive call |
| `Integrator.ShadowRay` | src/main.c:298-301 | the shadow ray has a non-zero direction |
| `Integrator.LightTermDiffuse` | src/main.c:303-348 | a light that is blocked or has diffuseDot <= 0 adds nothing; a lit one adds strength·diffuseDot to the diffuse sum, which is > 0 for a positive strength and >= 0 for a non-negative one |
| `Integrator.DiffuseSumNonNegative` | src/main.c:293-350 | with non-negative light strengths the diffuse sum stays non-negative |
| `Integrator.UnlitSumsZero` | src/main.c:293-350 | when no light is lit, both sums stay zero |
| `Integrator.LightContributionOf` | src/main.c:297-349 | one iteration of the light loop adds exactly that light's term |
| `Integrator.AccumulateLights` | src/main.c:293-350 | the light loop computes the diffuse and specular sums over all lights in order |
| `Integrator.TraceBackground` | src/main.c:220-369 | cast_ray, as the function Trace, returns bgColor whenever depth >= MAX_DEPTH, and whenever nothing is hit |
| `Integrator.NestedCalls` | src/main.c:221-291 | every recursive call passes depth + 1, so below one call at depth there are at most MAX_DEPTH - depth nested calls, and none at or beyond MAX_DEPTH |
| `Integrator.ShadeMatte` | src/main.c:352-364 | the final colour of a material with reflective == 0 does not depend on the reflected colour |
| `Integrator.TraceMatte` | src/main.c:220-369 | when the nearest hit is on a matte surface, cast_ray returns the same colour at every depth below MAX_DEPTH: the recursion has no effect on it |
| `Integrator.CastRay` | src/main.c:220-369 | cast_ray returns the colour Trace specifies for the scene's contents |
| `Render.PixelIndex` | src/main.c:385 | index column + row*width lies in row's slice [row*width, row*width+width) and inside the width*height image |
| `Render.RowSlice` | src/main.c:381-387 | an index is in row's slice exactly when it is the index of some column of that row |
| `Render.RowsDisjoint` | src/main.c:381-387 | pixels of two different rows never share an index, and no pixel of one row lies in another row's slice |
| `Render.PixelIndexInjective` | src/main.c:381-387 | distinct pixels have distinct indices |
| `Render.NextRowStart` | src/main.c:385 | a later row starts at or after the end of an earlier row |
| `Render.PixelCentre` | src/main.c:379-382 | the centre of row or column i of n, 2·(i + 0.5)/n - 1, lies strictly inside (-1, 1) |
| `Render.PixelCentreMirror` | src/main.c:379-382 | rows or columns mirrored about the middle (i and n-1-i) have opposite centres, so the image is centred on the camera axis |
| `Render.AspectRatio` | src/main.c:394 | for a non-zero height, the aspect ratio times the height is the width |
| `Render.CameraRay` | src/main.c:379-386 | the primary ray starts at the origin and has a non-zero direction |
| `Render.RenderRow` | src/main.c:371-391 | render_routine for a row sets every pixel of that row to its traced colour and changes no other cell |
| `Render.RenderSlice` | src/main.c:381-387 | the column loop writes the colour of column c of the row at index start + c, for every column, and leaves every cell outside [start, start + width) unchanged |
| `Render.RenderPixel` | src/main.c:382-386 | one column: the ray through the pixel centre, computed from y (evaluated once per row), is traced at depth 0 |
| `Render.RenderImage` | src/main.c:393-414 | after all rows are rendered, every pixel holds the colour traced for it, with aspect ratio width/height and tan(FOV/2) |

## Left out

- Floating point: every `float` is a `real`, so rounding, NaN and infinities are not modelled. The
  hit tests and the nearest-hit comparisons are exact comparisons of reals.
- `sqrt`, `powf`, `tan` and `vec3f_normalise` (include/k_vector.h:72-75) are parameters of the
  model. Only `Sound` is assumed: normalisation never yields the zero vector. For the zero vector
  C gives NaN components, which are not zero either. `vec3f_size`, `vec3f_div_scalar` and the
  rotations are not used by the modelled code.
- Intersect.HitSphereOnSurface: assumes the square root is exact at the discriminant. The C `sqrt`
  rounds, so the point is on the surface only up to rounding.
- Intersect.HitSphere: requires a non-zero ray direction. With a zero direction the C code divides
  by zero, and no such ray reaches it, because every ray the renderer builds is normalised.
- The colour operations `color_add`, `color_add_scalar` and `color_mul_scalar` live in
  `k_image.h`, which is not part of this model. They are taken to act componentwise, and the
  exact colour values (src/main.c:352-364, including the `powf` specular term) are computed but
  not reasoned about.
- Render.CameraRay: the direction's value depends on `tan` and normalisation; only its origin and
  non-zero direction are stated.
- `render`'s threads (src/main.c:393-414) are replaced by a sequential loop over the rows. What
  makes the threads safe is proved instead: each row writes a disjoint slice and the scene is
  only read. For a zero height C divides by zero to get the aspect ratio, but no row is rendered
  then. `Render.AspectRatio` returns 0 in that case.
- `main` (src/main.c:416-461): the hard-coded scene, timing, `printf` and `write_image` are
  I/O and configuration.
- `randomise_dir` (src/main.c:208-218) is unused and calls `rand()`.
- Memory management: `malloc`, `realloc`, `free` and `destroy_scene` are left out. `init_scene`
  never initialises the three array pointers before the first `realloc`. The model starts from
  empty sequences, which is evidently what is intended.
- Integer widths: counters and the pixel index `column + row * width` are unbounded; the C `int`
  and `unsigned int` can overflow only for images and scenes far beyond memory.
- The integrator reads the scene through `Scene.View()`, a value of its contents. Nothing in
  `cast_ray` changes the scene, so the C pointers into the arrays (`sphere`, `triangle`) are
  indices into those sequences here.
