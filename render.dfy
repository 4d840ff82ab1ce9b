/** render_routine and render of src/main.c: the camera at the origin looks
    down -z; pixel (row, column) of a width x height image is the colour
    cast_ray returns for the ray through the centre of that pixel, stored at
    index column + row * width of the image's pixel array. In the C code each
    row is rendered by its own thread; here the rows are rendered one after
    the other, and what makes the threads independent is proved instead:
    each row writes exactly its own slice of the array. */
module Render {

  import opened Vector
  import opened Types
  import opened SceneStore
  import opened Integrator

  /** Where pixel (row, column) is stored. It lies in its row's slice
      [row * width, row * width + width) and inside the image. */
  function PixelIndex(width: nat, height: nat, row: nat, column: nat): (i: nat)
    requires row < height && column < width
    ensures row * width <= i < row * width + width
    ensures i < width * height
  {
    NextRowStart(row, height, width);
    column + row * width
  }

  /** A later row starts at or after the end of an earlier one. */
  lemma NextRowStart(a: nat, b: nat, c: nat)
    requires a < b
    ensures a * c + c <= b * c
  {
    var k := b - a;
    assert b * c == (a + k) * c;
    assert (a + k) * c == a * c + k * c;
    assert k * c >= c;
  }

  /** Index i belongs to the slice of `row`. */
  predicate InRow(width: nat, row: nat, i: int) {
    row * width <= i < row * width + width
  }

  /** The slice of a row is exactly the set of its pixels' indices: every
      column's index is in the slice, and every index in the slice is the
      index of exactly one column. */
  lemma RowSlice(width: nat, height: nat, row: nat, i: int)
    requires row < height
    ensures InRow(width, row, i) <==>
      exists column | 0 <= column < width :: i == PixelIndex(width, height, row, column)
    ensures InRow(width, row, i) ==> i - row * width < width && i == PixelIndex(width, height, row, i - row * width)
  {
    if InRow(width, row, i) {
      assert i == PixelIndex(width, height, row, i - row * width);
    }
  }

  /** Two different rows never share an index, so the rows may be rendered
      in any order, or at the same time. */
  lemma {:induction false} RowsDisjoint(width: nat, height: nat, r1: nat, r2: nat, c1: nat, c2: nat)
    requires r1 < height && r2 < height && c1 < width && c2 < width
    requires r1 != r2
    ensures PixelIndex(width, height, r1, c1) != PixelIndex(width, height, r2, c2)
    ensures !InRow(width, r2, PixelIndex(width, height, r1, c1))
  {
    if r1 < r2 {
      NextRowStart(r1, r2, width);
    } else {
      NextRowStart(r2, r1, width);
    }
  }

  /** Distinct pixels have distinct indices. */
  lemma PixelIndexInjective(width: nat, height: nat, r1: nat, c1: nat, r2: nat, c2: nat)
    requires r1 < height && r2 < height && c1 < width && c2 < width
    requires PixelIndex(width, height, r1, c1) == PixelIndex(width, height, r2, c2)
    ensures r1 == r2 && c1 == c2
  {
    if r1 != r2 {
      RowsDisjoint(width, height, r1, r2, c1, c2);
    }
  }

  /** The primary ray through the centre of pixel (row, column): the pixel
      centre mapped to [-1, 1], scaled by tan(FOV / 2) and, horizontally, by
      the aspect ratio, on the plane z = -1, then normalised. */
  function CameraRay(m: Libm, width: nat, height: nat, row: nat, column: nat,
                     aspectRatio: real, tanFOV: real): (r: Ray)
    requires Sound(m) && row < height && column < width
    ensures r.origin == Zero && NonZero(r.direction)
  {
    Ray(Zero, m.normalise(Vec3f(ScreenX(width, column, aspectRatio, tanFOV), ScreenY(height, row, tanFOV), -1.0)))
  }

  /** The centre of cell i of n, mapped from [0, n] to [-1, 1]; it lies
      strictly inside that interval. */
  function PixelCentre(n: nat, i: nat): (r: real)
    requires i < n
    ensures -1.0 < r < 1.0
  {
    FractionInside(i as real + 0.5, n as real);
    2.0 * (i as real + 0.5) / n as real - 1.0
  }

  lemma FractionInside(x: real, d: real)
    requires 0.0 < x < d
    ensures 0.0 < 2.0 * x / d < 2.0
  {
    var q := x / d;
    assert q * d == x;
    assert (q - 1.0) * d == x - d;
    NegativeFactor(q - 1.0, d);
    PositiveFactor(q, d);
    assert 2.0 * x / d == 2.0 * q;
  }

  /** Cells mirrored about the middle have opposite centres, so the image is
      centred on the camera axis. */
  lemma PixelCentreMirror(n: nat, i: nat)
    requires i < n
    ensures PixelCentre(n, n - 1 - i) == -PixelCentre(n, i)
  {
    assert (n - 1 - i) as real + 0.5 == n as real - (i as real + 0.5);
    Complement(i as real + 0.5, n as real);
  }

  lemma Complement(x: real, d: real)
    requires d != 0.0
    ensures 2.0 * (d - x) / d - 1.0 == -(2.0 * x / d - 1.0)
  {
    var q, y := 2.0 * x / d, 2.0 * (d - x) / d;
    assert q * d == 2.0 * x;
    assert y * d == 2.0 * d - 2.0 * x;
    assert (y + q) * d == y * d + q * d;
    MulCancel(y + q, 2.0, d);
  }

  lemma NegativeFactor(a: real, d: real)
    requires d > 0.0 && a * d < 0.0
    ensures a < 0.0
  {
  }

  lemma PositiveFactor(a: real, d: real)
    requires d > 0.0 && a * d > 0.0
    ensures a > 0.0
  {
  }

  lemma MulCancel(a: real, b: real, d: real)
    requires d != 0.0 && a * d == b * d
    ensures a == b
  {
  }

  /** The vertical screen coordinate of a row's centre (rows run downwards). */
  function ScreenY(height: nat, row: nat, tanFOV: real): real
    requires row < height
  {
    -PixelCentre(height, row) * tanFOV
  }

  /** The horizontal screen coordinate of a column's centre. */
  function ScreenX(width: nat, column: nat, aspectRatio: real, tanFOV: real): real
    requires column < width
  {
    PixelCentre(width, column) * tanFOV * aspectRatio
  }

  /** The colour of pixel (row, column). */
  function Pixel(m: Libm, w: World, width: nat, height: nat, row: nat, column: nat,
                 aspectRatio: real, tanFOV: real): Color
    requires Sound(m) && row < height && column < width
  {
    Trace(m, w, CameraRay(m, width, height, row, column, aspectRatio, tanFOV), 0)
  }

  /** render_routine for one row: every pixel of the row gets its colour and
      no other cell of the array changes. */
  method RenderRow(m: Libm, scene: Scene, data: array<Color>, width: nat, height: nat, row: nat,
                   aspectRatio: real, tanFOV: real)
    requires Sound(m) && scene.Valid()
    requires data.Length == width * height && row < height
    modifies data
    ensures forall column | 0 <= column < width ::
      data[PixelIndex(width, height, row, column)]
        == Pixel(m, scene.View(), width, height, row, column, aspectRatio, tanFOV)
    ensures forall i | 0 <= i < data.Length && !InRow(width, row, i) :: data[i] == old(data[i])
  {
    ghost var w := scene.View();
    ghost var colors := seq(width, c requires 0 <= c < width =>
      Pixel(m, w, width, height, row, c, aspectRatio, tanFOV));
    NextRowStart(row, height, width);
    RenderSlice(m, scene, data, width, height, row, row * width, aspectRatio, tanFOV, colors);
  }

  /** The column loop of render_routine, writing the row's pixels from
      index `start` (which is row * width) on; `colors` are the colours the
      pixels of the row are to get. */
  method RenderSlice(m: Libm, scene: Scene, data: array<Color>, width: nat, height: nat, row: nat,
                     start: nat, aspectRatio: real, tanFOV: real, ghost colors: seq<Color>)
    requires Sound(m) && scene.Valid()
    requires row < height && start + width <= data.Length && |colors| == width
    requires forall c {:trigger Pixel(m, scene.View(), width, height, row, c, aspectRatio, tanFOV)} | 0 <= c < width ::
      Pixel(m, scene.View(), width, height, row, c, aspectRatio, tanFOV) == colors[c]
    modifies data
    ensures forall column | 0 <= column < width :: data[start + column] == colors[column]
    ensures forall i | 0 <= i < data.Length && !(start <= i < start + width) :: data[i] == old(data[i])
  {
    var y := ScreenY(height, row, tanFOV);
    for column := 0 to width
      invariant forall c | 0 <= c < column :: data[start + c] == colors[c]
      invariant forall i | 0 <= i < data.Length && !(start <= i < start + column) ::
        data[i] == old(data[i])
    {
      var color := RenderPixel(m, scene, width, height, row, column, aspectRatio, tanFOV, y);
      data[start + column] := color;
    }
  }

  /** The body of render_routine's column loop: the ray through the pixel,
      given the row's coordinate y computed once before the loop, and the
      colour cast_ray returns for it. */
  method RenderPixel(m: Libm, scene: Scene, width: nat, height: nat, row: nat, column: nat,
                     aspectRatio: real, tanFOV: real, y: real) returns (color: Color)
    requires Sound(m) && scene.Valid()
    requires row < height && column < width && y == ScreenY(height, row, tanFOV)
    ensures color == Pixel(m, scene.View(), width, height, row, column, aspectRatio, tanFOV)
  {
    var x := ScreenX(width, column, aspectRatio, tanFOV);
    var dir := m.normalise(Vec3f(x, y, -1.0));
    color := CastRay(m, scene, Ray(Zero, dir), 0);
  }

  /** The aspect ratio width / height (the image has no rows when the height
      is zero, and then the ratio is never used). */
  function AspectRatio(width: nat, height: nat): (r: real)
    ensures height > 0 ==> r * height as real == width as real
  {
    if height == 0 then 0.0 else width as real / height as real
  }

  /** render, with the rows rendered one after the other instead of by one
      thread each: afterwards every pixel holds its colour. */
  method RenderImage(m: Libm, scene: Scene, data: array<Color>, width: nat, height: nat)
    requires Sound(m) && scene.Valid()
    requires data.Length == width * height
    modifies data
    ensures forall row, column | 0 <= row < height && 0 <= column < width ::
      data[PixelIndex(width, height, row, column)]
        == Pixel(m, scene.View(), width, height, row, column, AspectRatio(width, height), m.tan(Fov / 2.0))
  {
    var aspectRatio := AspectRatio(width, height);
    var tanFOV := m.tan(Fov / 2.0);
    for row := 0 to height
      invariant forall r, c | 0 <= r < row && 0 <= c < width ::
        data[PixelIndex(width, height, r, c)]
          == Pixel(m, scene.View(), width, height, r, c, aspectRatio, tanFOV)
    {
      RenderRow(m, scene, data, width, height, row, aspectRatio, tanFOV);
      forall r, c | 0 <= r < row && 0 <= c < width
        ensures !InRow(width, row, PixelIndex(width, height, r, c))
      {
        RowsDisjoint(width, height, r, row, c, 0);
      }
    }
  }
}
