/** Optional results: the hit tests of src/main.c return a hit flag and write
    the distance through a pointer; here the pair becomes one value. */
module Options {

  datatype Option<T> = None | Some(value: T)
}

/** The records of src/main.c (Material, Sphere, Triangle, Square, Ray,
    Light), the colour type and the three colour operations the integrator
    uses, the compile-time constants, and the floating-point library routines
    the core calls but whose numerics are not modelled. */
module Types {

  import opened Vector

  /** Largest recursion depth of the integrator (MAX_DEPTH). */
  const MaxDepth: int := 10

  /** Intersection tolerance and shadow/reflection bias (EPSILON). */
  const Epsilon: real := 0.001

  /** Field of view (FOV = PI / 3), with PI as written in src/main.c. */
  const Fov: real := 3.14159265358979323846 / 3.0

  /** An RGB triple; additive and never clamped. */
  datatype Color = Color(r: real, g: real, b: real)

  function ColorAdd(a: Color, b: Color): Color {
    Color(a.r + b.r, a.g + b.g, a.b + b.b)
  }

  function ColorAddScalar(a: Color, s: real): Color {
    Color(a.r + s, a.g + s, a.b + s)
  }

  function ColorMulScalar(a: Color, s: real): Color {
    Color(a.r * s, a.g * s, a.b * s)
  }

  datatype Material = Material(
    diffuse: Color,
    ambient: real,
    specular: real,
    specularExp: real,
    reflective: real)

  datatype Sphere = Sphere(center: Vec3f, radius: real, material: Material)

  datatype Triangle = Triangle(a: Vec3f, b: Vec3f, c: Vec3f, material: Material)

  /** A quad given by its corners in order; stored as two triangles. */
  datatype Square = Square(a: Vec3f, b: Vec3f, c: Vec3f, d: Vec3f, material: Material)

  datatype Ray = Ray(origin: Vec3f, direction: Vec3f)

  datatype Light = Light(pos: Vec3f, strength: real)

  /** The math-library routines the core calls: `sqrt` and `powf` from
      <math.h>, `tan` for the field of view, and vec3f_normalise (which
      multiplies by the reciprocal of a square root). They are parameters of
      the model; nothing is assumed about their values except, where a member
      says so, `Sound`. */
  datatype Libm = Libm(
    sqrt: real -> real,
    normalise: Vec3f -> Vec3f,
    powf: (real, real) -> real,
    tan: real -> real)

  /** Normalisation never yields the zero vector. (In `float`, normalising the
      zero vector yields NaN components, which are not zero either.) Rays built
      from normalised directions therefore always have a non-zero direction. */
  ghost predicate Sound(m: Libm) {
    forall v :: NonZero(m.normalise(v))
  }
}
