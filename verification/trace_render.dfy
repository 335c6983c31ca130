/** The first renderer of the older package (pkg/trace/trace.go): one
    sphere in front of a fixed camera, shaded by its normal over a
    white-to-blue sky, written to an RGBA buffer with progress after each
    row. */
module TraceRender {
  import opened Libm
  import opened Vectors
  import TraceVectors
  import Images
  import Rendering

  const White: Vec3 := Vec3(1.0, 1.0, 1.0)
  const LightBlue: Vec3 := Vec3(0.5, 0.7, 1.0)
  const SphereCenter: Vec3 := Vec3(0.0, 0.0, -1.0)
  const SphereRadius: real := 0.5

  // ----- the sphere test -----

  /** The coefficients of `hitSphere`: for the ray `orig + t dir`, the
      squared distance to `center` minus `radius²` is `a t² + 2 halfB t + c`. */
  function A(r: TraceVectors.Ray): real {
    LengthSquared(r.dir)
  }

  function HalfB(center: Vec3, r: TraceVectors.Ray): real {
    Dot(Sub(r.orig, center), r.dir)
  }

  function C(center: Vec3, radius: real, r: TraceVectors.Ray): real {
    LengthSquared(Sub(r.orig, center)) - radius * radius
  }

  function Discriminant(center: Vec3, radius: real, r: TraceVectors.Ray): real {
    Disc(A(r), HalfB(center, r), C(center, radius, r))
  }

  /** How far the point `t` along the ray is from the sphere's surface, in
      squared distance: zero exactly on the sphere. */
  function Gap(center: Vec3, radius: real, r: TraceVectors.Ray, t: real): real {
    LengthSquared(Sub(TraceVectors.At(r, t), center)) - radius * radius
  }

  /** The quadratic `a t² + 2 h t + c` and its reduced discriminant. */
  function Poly(a: real, h: real, c: real, t: real): real {
    a * (t * t) + 2.0 * h * t + c
  }

  function Disc(a: real, h: real, c: real): real {
    h * h - a * c
  }

  /** The value `hitSphere` returns for the coefficients `a`, `halfB` and
      `c`: -1 for a negative discriminant, else the smaller root. */
  function Root(m: Libm, a: real, halfB: real, c: real): real
    requires a != 0.0
  {
    var discriminant := Disc(a, halfB, c);
    if discriminant < 0.0 then -1.0 else (-halfB - m.sqrt(discriminant)) / a
  }

  /** `hitSphere` (pkg/trace/trace.go:15-28) with the geometric dot product:
      -1 when the ray's line misses the sphere, otherwise a point of the
      line on the sphere (the first, by `HitSphereFirst`).  The direction
      is never zero for the rays this file makes. */
  function HitSphere(m: Libm, center: Vec3, radius: real, r: TraceVectors.Ray): (t: real)
    requires r.dir != ZeroVector
    ensures Discriminant(center, radius, r) < 0.0 ==> t == -1.0
    ensures Sound(m) && Discriminant(center, radius, r) >= 0.0 ==> Gap(center, radius, r, t) == 0.0
  {
    HitSphereRoot(m, center, radius, r);
    Root(m, A(r), HalfB(center, r), C(center, radius, r))
  }

  /** The squared distance along the ray is the quadratic of the
      coefficients. */
  lemma GapIsQuadratic(center: Vec3, radius: real, r: TraceVectors.Ray, t: real)
    ensures Gap(center, radius, r, t) == Poly(A(r), HalfB(center, r), C(center, radius, r), t)
  {
    var p := Sub(TraceVectors.At(r, t), center);
    var oc := Sub(r.orig, center);
    AxisSquare(p.x, oc.x, r.dir.x, t);
    AxisSquare(p.y, oc.y, r.dir.y, t);
    AxisSquare(p.z, oc.z, r.dir.z, t);
  }

  lemma AxisSquare(p: real, o: real, d: real, t: real)
    requires p == o + d * t
    ensures p * p == o * o + 2.0 * (o * d) * t + (d * d) * (t * t)
  {}

  /** A sound square root of a non-negative value: non-negative, and squaring
      back to the value. */
  lemma SqrtFacts(m: Libm, x: real)
    requires Sound(m) && 0.0 <= x
    ensures 0.0 <= m.sqrt(x) && m.sqrt(x) * m.sqrt(x) == x
  {}

  /** Under a sound square root the value returned for a non-negative
      discriminant lies on the sphere. */
  lemma HitSphereRoot(m: Libm, center: Vec3, radius: real, r: TraceVectors.Ray)
    requires r.dir != ZeroVector
    ensures Sound(m) && Discriminant(center, radius, r) >= 0.0 ==>
              Gap(center, radius, r, Root(m, A(r), HalfB(center, r), C(center, radius, r))) == 0.0
  {
    if Sound(m) && Discriminant(center, radius, r) >= 0.0 {
      var a, h, c := A(r), HalfB(center, r), C(center, radius, r);
      SqrtFacts(m, Disc(a, h, c));
      var sq := m.sqrt(Disc(a, h, c));
      QuadraticRoot(a, h, c, sq);
      GapIsQuadratic(center, radius, r, (-h - sq) / a);
    }
  }

  /** No point of the ray's line before the returned one is on the sphere,
      and for a negative discriminant no point is. */
  lemma HitSphereFirst(m: Libm, center: Vec3, radius: real, r: TraceVectors.Ray, s: real)
    requires Sound(m) && r.dir != ZeroVector
    requires Gap(center, radius, r, s) == 0.0
    ensures Discriminant(center, radius, r) >= 0.0
    ensures HitSphere(m, center, radius, r) <= s
  {
    var a, h, c := A(r), HalfB(center, r), C(center, radius, r);
    GapIsQuadratic(center, radius, r, s);
    if Disc(a, h, c) < 0.0 {
      QuadraticNoRoot(a, h, c, s);
    } else {
      SqrtFacts(m, Disc(a, h, c));
      QuadraticSmallest(a, h, c, m.sqrt(Disc(a, h, c)), s);
    }
  }

  // ----- the quadratic -----

  /** `a · (a x² + 2 h x + c) = (a x + h)² - (h² - a c)`. */
  lemma CompletedSquare(a: real, h: real, c: real, x: real)
    ensures a * Poly(a, h, c, x) == (a * x + h) * (a * x + h) - Disc(a, h, c)
  {}

  lemma ZeroFactor(a: real, p: real)
    requires a != 0.0 && a * p == 0.0
    ensures p == 0.0
  {}

  lemma QuadraticRoot(a: real, h: real, c: real, sq: real)
    requires a > 0.0 && sq >= 0.0 && sq * sq == Disc(a, h, c)
    ensures Poly(a, h, c, (-h - sq) / a) == 0.0
  {
    var t := (-h - sq) / a;
    assert a * t + h == -sq;
    CompletedSquare(a, h, c, t);
    SquareOfNeg(a * t + h, sq);
    ZeroFactor(a, Poly(a, h, c, t));
  }

  lemma SquareOfNeg(p: real, q: real)
    requires p == -q
    ensures p * p == q * q
  {}

  lemma QuadraticSmallest(a: real, h: real, c: real, sq: real, s: real)
    requires a > 0.0 && sq >= 0.0 && sq * sq == Disc(a, h, c)
    requires Poly(a, h, c, s) == 0.0
    ensures (-h - sq) / a <= s
  {
    CompletedSquare(a, h, c, s);
    var p := a * s + h;
    assert p * p == sq * sq;
    SameSquare(p, sq);
    assert a * ((-h - sq) / a) == -h - sq;
    assert a * ((-h - sq) / a) <= a * s;
  }

  lemma SameSquare(p: real, q: real)
    requires q >= 0.0 && p * p == q * q
    ensures p == q || p == -q
  {
    assert (p - q) * (p + q) == 0.0;
  }

  lemma QuadraticNoRoot(a: real, h: real, c: real, s: real)
    requires a > 0.0 && Disc(a, h, c) < 0.0
    ensures Poly(a, h, c, s) > 0.0
  {
    CompletedSquare(a, h, c, s);
    var p := a * s + h;
    assert p * p >= 0.0;
  }

  // ----- the written dot product -----

  /** `hitSphere` exactly as written: `halfB` comes from the package's own
      dot product, which adds the z components instead of multiplying them.
      It agrees with `HitSphere` only on rays where the two products agree. */
  function HitSphereAsWritten(m: Libm, center: Vec3, radius: real, r: TraceVectors.Ray): (t: real)
    requires r.dir != ZeroVector
    ensures TraceVectors.DotAsWritten(Sub(r.orig, center), r.dir) == HalfB(center, r) ==> t == HitSphere(m, center, radius, r)
  {
    Root(m, A(r), TraceVectors.DotAsWritten(Sub(r.orig, center), r.dir), C(center, radius, r))
  }

  const CentreRay: TraceVectors.Ray := TraceVectors.Ray(ZeroVector, Vec3(0.0, 0.0, -1.0))

  /** The coefficients of the ray straight down the axis, from the camera
      through the middle of the image, against the scene's sphere: the
      written dot product gives 0 where the geometric one gives -1. */
  lemma CentreRayCoefficients()
    ensures A(CentreRay) == 1.0 && C(SphereCenter, SphereRadius, CentreRay) == 0.75
    ensures HalfB(SphereCenter, CentreRay) == -1.0
    ensures TraceVectors.DotAsWritten(Sub(CentreRay.orig, SphereCenter), CentreRay.dir) == 0.0
  {
    assert Sub(CentreRay.orig, SphereCenter) == Vec3(0.0, 0.0, 1.0);
  }

  /** The written test reports a miss for that ray. */
  lemma CentreRayMissesAsWritten(m: Libm)
    ensures HitSphereAsWritten(m, SphereCenter, SphereRadius, CentreRay) == -1.0
  {
    CentreRayCoefficients();
    assert Disc(1.0, 0.0, 0.75) < 0.0;
  }

  /** The corrected test finds the sphere half a unit along it. */
  lemma CentreRayHits(m: Libm)
    requires Sound(m)
    ensures HitSphere(m, SphereCenter, SphereRadius, CentreRay) == 0.5
  {
    CentreRayCoefficients();
    HalfRoot(m);
  }

  lemma HalfRoot(m: Libm)
    requires Sound(m)
    ensures Root(m, 1.0, -1.0, 0.75) == 0.5
  {
    assert Disc(1.0, -1.0, 0.75) == 0.5 * 0.5;
    SqrtOfSquare(m, 0.5);
  }

  // ----- colour -----

  /** A unit vector's coordinates lie in `[-1, 1]`. */
  lemma UnitCoordinates(n: Vec3)
    requires LengthSquared(n) == 1.0
    ensures -1.0 <= n.x <= 1.0 && -1.0 <= n.y <= 1.0 && -1.0 <= n.z <= 1.0
  {
    SquareNonNegative(n.x);
    SquareNonNegative(n.y);
    SquareNonNegative(n.z);
    AtMostOne(n.x);
    AtMostOne(n.y);
    AtMostOne(n.z);
  }

  lemma AtMostOne(x: real)
    requires x * x <= 1.0
    ensures -1.0 <= x <= 1.0
  {
  }

  /** The sky: `(1 - t)` white plus `t` light blue, for the height `t` of
      the direction mapped to `[0, 1]`. */
  function Sky(m: Libm, dir: Vec3): (c: Vec3)
    requires Sound(m) && dir != ZeroVector
    ensures TraceVectors.UnitColor(c)
  {
    LengthPositive(m, dir);
    var u := Unit(m, dir);
    UnitCoordinates(u);
    var t := 0.5 * (u.y + 1.0);
    Add(MulS(White, 1.0 - t), MulS(LightBlue, t))
  }

  /** `rayColor` (pkg/trace/trace.go:30-43): a ray that meets the sphere in
      front of its origin is coloured by the surface normal mapped to
      `[0, 1]`; any other by the sky.  Every channel lies in `[0, 1]`. */
  function RayColor(m: Libm, r: TraceVectors.Ray): (c: Vec3)
    requires Sound(m) && r.dir != ZeroVector
    ensures TraceVectors.UnitColor(c)
  {
    var t := HitSphere(m, SphereCenter, SphereRadius, r);
    if t > 0.0 then
      var p := Sub(TraceVectors.At(r, t), SphereCenter);
      assert LengthSquared(p) == 0.25;
      LengthPositive(m, p);
      var n := Unit(m, p);
      UnitCoordinates(n);
      MulS(Vec3(n.x + 1.0, n.y + 1.0, n.z + 1.0), 0.5)
    else
      Sky(m, r.dir)
  }

  // ----- the image -----

  /** The ray of pixel `(x, y)`: from the origin through the viewport two
      units high, as wide as the image's aspect ratio, one unit away, at the
      fractions `x / (width - 1)` across and `y / (height - 1)` up. */
  function PixelRay(imageWidth: int, imageHeight: int, x: int, y: int): (r: TraceVectors.Ray)
    requires 2 <= imageWidth && 2 <= imageHeight
    ensures r.orig == ZeroVector && r.dir.z == -1.0
  {
    var aspectRatio := imageWidth as real / imageHeight as real;
    var u := x as real / (imageWidth - 1) as real;
    var v := y as real / (imageHeight - 1) as real;
    ViewportRay(aspectRatio * 2.0, u, v)
  }

  /** The ray through the point `(u, v)` of the viewport, in fractions of
      its width and height from the lower left corner. */
  function ViewportRay(viewPortWidth: real, u: real, v: real): (r: TraceVectors.Ray)
    ensures r.orig == ZeroVector && r.dir.z == -1.0
  {
    var viewPortHeight := 2.0;
    var focalLength := 1.0;
    var origin := ZeroVector;
    var horizontal := Vec3(viewPortWidth, 0.0, 0.0);
    var vertical := Vec3(0.0, viewPortHeight, 0.0);
    var lowerLeftCorner := Sub(Sub(Sub(origin, DivS(horizontal, 2.0)), DivS(vertical, 2.0)), Vec3(0.0, 0.0, focalLength));
    TraceVectors.Ray(origin, Sub(Add(Add(lowerLeftCorner, MulS(horizontal, u)), MulS(vertical, v)), origin))
  }

  /** The bytes of pixel `(x, y)`. */
  function PixelColor(m: Libm, imageWidth: int, imageHeight: int, x: int, y: int): (p: Images.Rgba)
    requires Sound(m) && 2 <= imageWidth && 2 <= imageHeight
    ensures p.a == 255
  {
    var c := RayColor(m, PixelRay(imageWidth, imageHeight, x, y));
    TraceVectors.ToRgba(c).value
  }

  /** The slot of pixel `(x, y)` in the buffer: rows from the top. */
  function Slot(imageWidth: int, imageHeight: int, x: int, y: int): (i: int)
    requires 0 <= x < imageWidth && 0 <= y < imageHeight
    ensures 0 <= i < imageWidth * imageHeight
    ensures i == ((imageHeight - 1) - y) * imageWidth + x
  {
    Rendering.PixelIndexInRange(imageWidth, imageHeight, x, y);
    Rendering.PixelIndex(imageWidth, imageHeight, x, y)
  }

  /** The byte offsets `4 i + k` of pixel slot `i` cover the buffer of
      `4 n` bytes without overlap: each offset lies inside it and names one
      slot and one channel. */
  lemma ByteOffsets(n: int, i: int, k: int, j: int, l: int)
    requires 0 <= i < n && 0 <= j < n && 0 <= k < 4 && 0 <= l < 4
    ensures 0 <= i * 4 + k < n * 4
    ensures i * 4 + k == j * 4 + l ==> i == j && k == l
  {}

  /** The four bytes of every pixel, slot after slot: the buffer `RayTrace`
      fills, where pixel `(x, y)` occupies offsets `4 Slot(x, y)` to
      `4 Slot(x, y) + 3`. */
  function Bytes(pixels: seq<Images.Rgba>): (b: seq<Images.Byte>)
    ensures |b| == |pixels| * 4
    ensures forall i :: 0 <= i < |pixels| ==>
              b[i * 4] == pixels[i].r && b[i * 4 + 1] == pixels[i].g && b[i * 4 + 2] == pixels[i].b && b[i * 4 + 3] == pixels[i].a
  {
    if |pixels| == 0 then []
    else
      var p := pixels[0];
      var rest := Bytes(pixels[1..]);
      var b := [p.r, p.g, p.b, p.a] + rest;
      assert forall i :: 1 <= i < |pixels| ==> pixels[i] == pixels[1..][i - 1] && i * 4 == (i - 1) * 4 + 4;
      b
  }

  /** One row of the loop of `RayTrace`: every pixel of row `y` gets its
      colour and every other slot keeps its value. */
  method FillRow(imageWidth: int, imageHeight: int, y: int, color: (int, int) -> Images.Rgba, pixels: seq<Images.Rgba>)
    returns (out: seq<Images.Rgba>)
    requires 1 <= imageWidth && 0 <= y < imageHeight
    requires |pixels| == imageWidth * imageHeight
    ensures |out| == imageWidth * imageHeight
    ensures forall x :: 0 <= x < imageWidth ==> out[Slot(imageWidth, imageHeight, x, y)] == color(x, y)
    ensures forall x', y' :: 0 <= x' < imageWidth && 0 <= y' < imageHeight && y' != y ==>
              out[Slot(imageWidth, imageHeight, x', y')] == pixels[Slot(imageWidth, imageHeight, x', y')]
  {
    out := pixels;
    var x := 0;
    while x < imageWidth
      invariant 0 <= x <= imageWidth
      invariant |out| == imageWidth * imageHeight
      invariant forall x' :: 0 <= x' < x ==> out[Slot(imageWidth, imageHeight, x', y)] == color(x', y)
      invariant forall x', y' :: 0 <= x' < imageWidth && 0 <= y' < imageHeight && y' != y ==>
                  out[Slot(imageWidth, imageHeight, x', y')] == pixels[Slot(imageWidth, imageHeight, x', y')]
    {
      var i := Slot(imageWidth, imageHeight, x, y);
      forall x', y' | 0 <= x' < imageWidth && 0 <= y' < imageHeight && (x' != x || y' != y)
        ensures Slot(imageWidth, imageHeight, x', y') != i
      {
        if Slot(imageWidth, imageHeight, x', y') == i {
          Rendering.PixelIndexInjective(imageWidth, imageHeight, x', y', x, y);
        }
      }
      out := out[i := color(x, y)];
      x := x + 1;
    }
  }

  /** The loops of `RayTrace`: rows from the bottom, each pixel of a row
      into its slot, and after each row the share of rows finished before
      it as progress, which therefore never reaches 1. */
  method FillRows(imageWidth: int, imageHeight: int, color: (int, int) -> Images.Rgba)
    returns (pixels: seq<Images.Rgba>, progress: seq<real>)
    requires 1 <= imageWidth && 1 <= imageHeight
    ensures |pixels| == imageWidth * imageHeight
    ensures forall x, y :: 0 <= x < imageWidth && 0 <= y < imageHeight ==>
              pixels[Slot(imageWidth, imageHeight, x, y)] == color(x, y)
    ensures |progress| == imageHeight
    ensures forall y :: 0 <= y < imageHeight ==> progress[y] == y as real / imageHeight as real && 0.0 <= progress[y] < 1.0
  {
    pixels := seq(imageWidth * imageHeight, _ => Images.Rgba(0, 0, 0, 0));
    progress := [];
    var y := 0;
    while y < imageHeight
      invariant 0 <= y <= imageHeight
      invariant |pixels| == imageWidth * imageHeight && |progress| == y
      invariant forall x', y' :: 0 <= x' < imageWidth && 0 <= y' < y ==>
                  pixels[Slot(imageWidth, imageHeight, x', y')] == color(x', y')
      invariant forall y' :: 0 <= y' < y ==> progress[y'] == y' as real / imageHeight as real && 0.0 <= progress[y'] < 1.0
    {
      pixels := FillRow(imageWidth, imageHeight, y, color, pixels);
      assert 0.0 <= y as real / imageHeight as real < 1.0;
      progress := progress + [y as real / imageHeight as real];
      y := y + 1;
    }
  }

  /** `RayTrace` (pkg/trace/trace.go:45-85): the buffer holds, in the slot
      of every pixel, the four bytes of its traced colour. */
  method RayTrace(m: Libm, imageWidth: int, imageHeight: int) returns (bytes: seq<Images.Byte>, progress: seq<real>)
    requires Sound(m) && 2 <= imageWidth && 2 <= imageHeight
    ensures |bytes| == imageWidth * imageHeight * 4
    ensures forall x, y :: 0 <= x < imageWidth && 0 <= y < imageHeight ==>
              var i := Slot(imageWidth, imageHeight, x, y);
              var p := PixelColor(m, imageWidth, imageHeight, x, y);
              bytes[i * 4] == p.r && bytes[i * 4 + 1] == p.g && bytes[i * 4 + 2] == p.b && bytes[i * 4 + 3] == p.a
    ensures |progress| == imageHeight
    ensures forall y :: 0 <= y < imageHeight ==> progress[y] == y as real / imageHeight as real && 0.0 <= progress[y] < 1.0
  {
    var color := (x, y) => PixelColor(m, imageWidth, imageHeight, x, y);
    var pixels;
    pixels, progress := FillRows(imageWidth, imageHeight, color);
    bytes := Bytes(pixels);
    SlotBytes(imageWidth, imageHeight, color, pixels);
  }

  /** Flattening a buffer whose slots hold `color` puts the four bytes of
      `color(x, y)` at the offsets of pixel `(x, y)`. */
  lemma SlotBytes(imageWidth: int, imageHeight: int, color: (int, int) -> Images.Rgba, pixels: seq<Images.Rgba>)
    requires 1 <= imageWidth && 1 <= imageHeight && |pixels| == imageWidth * imageHeight
    requires forall x, y :: 0 <= x < imageWidth && 0 <= y < imageHeight ==>
               pixels[Slot(imageWidth, imageHeight, x, y)] == color(x, y)
    ensures forall x, y :: 0 <= x < imageWidth && 0 <= y < imageHeight ==>
              var i := Slot(imageWidth, imageHeight, x, y);
              var b := Bytes(pixels);
              b[i * 4] == color(x, y).r && b[i * 4 + 1] == color(x, y).g &&
              b[i * 4 + 2] == color(x, y).b && b[i * 4 + 3] == color(x, y).a
  {}
}
