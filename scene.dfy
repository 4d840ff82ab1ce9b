/** The scene store of src/main.c: a background colour and three append-only
    growable arrays (lights, spheres, triangles), each with its element count.
    The C arrays are reallocated one slot larger on every insertion; here each
    array is a sequence that the add methods reassign. */
module SceneStore {

  import opened Types

  /** The contents of a scene as a value: what the integrator reads. */
  datatype World = World(bgColor: Color, lights: seq<Light>, spheres: seq<Sphere>, triangles: seq<Triangle>)

  class Scene {
    var bgColor: Color

    var lights: seq<Light>
    var lightCount: int

    var spheres: seq<Sphere>
    var sphereCount: int

    var triangles: seq<Triangle>
    var triangleCount: int

    /** Every counter equals the length of the sequence it counts. */
    ghost predicate Valid()
      reads this
    {
      && lightCount == |lights|
      && sphereCount == |spheres|
      && triangleCount == |triangles|
    }

    /** The current contents of the scene. */
    function View(): World
      reads this
    {
      World(bgColor, lights, spheres, triangles)
    }

    /** init_scene: an empty scene with the given background. */
    constructor (bgColor: Color)
      ensures Valid()
      ensures this.bgColor == bgColor
      ensures lights == [] && spheres == [] && triangles == []
      ensures lightCount == 0 && sphereCount == 0 && triangleCount == 0
    {
      this.bgColor := bgColor;
      lights, spheres, triangles := [], [], [];
      lightCount := 0;
      sphereCount := 0;
      triangleCount := 0;
    }

    method AddLight(light: Light)
      requires Valid()
      modifies this
      ensures Valid()
      ensures lightCount == old(lightCount) + 1
      ensures lights[lightCount - 1] == light
      ensures lights[..lightCount - 1] == old(lights)
      ensures spheres == old(spheres) && triangles == old(triangles) && bgColor == old(bgColor)
    {
      lightCount := lightCount + 1;
      lights := lights + [light];
    }

    method AddSphere(sphere: Sphere)
      requires Valid()
      modifies this
      ensures Valid()
      ensures sphereCount == old(sphereCount) + 1
      ensures spheres[sphereCount - 1] == sphere
      ensures spheres[..sphereCount - 1] == old(spheres)
      ensures lights == old(lights) && triangles == old(triangles) && bgColor == old(bgColor)
    {
      sphereCount := sphereCount + 1;
      spheres := spheres + [sphere];
    }

    method AddTriangle(triangle: Triangle)
      requires Valid()
      modifies this
      ensures Valid()
      ensures triangleCount == old(triangleCount) + 1
      ensures triangles[triangleCount - 1] == triangle
      ensures triangles[..triangleCount - 1] == old(triangles)
      ensures lights == old(lights) && spheres == old(spheres) && bgColor == old(bgColor)
    {
      triangleCount := triangleCount + 1;
      triangles := triangles + [triangle];
    }

    /** add_square: the quad (a, b, c, d) becomes the triangles (a, b, c) and
        (a, c, d), both with the square's material, appended in that order. */
    method AddSquare(square: Square)
      requires Valid()
      modifies this
      ensures Valid()
      ensures triangleCount == old(triangleCount) + 2
      ensures triangles == old(triangles) + [Triangle(square.a, square.b, square.c, square.material),
                                             Triangle(square.a, square.c, square.d, square.material)]
      ensures lights == old(lights) && spheres == old(spheres) && bgColor == old(bgColor)
    {
      AddTriangle(Triangle(square.a, square.b, square.c, square.material));
      AddTriangle(Triangle(square.a, square.c, square.d, square.material));
    }
  }
}
