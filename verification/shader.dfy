/** Shading (renderer/shader.go, renderer/renderer.go:50-70 and the older
    internal/renderer/renderer.go:17-72): the colour a camera ray brings back.
    The path-tracing shader recurses through `rayColor` one bounce deeper per
    scatter and stops at a maximum depth.

    Everything the shader asks of the scene is an oracle in `World`: the
    nearest hit over `[0.001, +Inf]`, the material's emitted colour and
    scatter record, the light/material mixture's sampled direction and
    density, and the material's scattering density.  Colours that pass through
    a division by a sampled density are IEEE values (`F64`), so the NaN and
    infinity cases the filters exist for are part of the model. */
module Shading {
  import opened Libm
  import opened Vectors
  import opened Wrappers
  import opened ExtReal
  import Materials
  import Rays

  /** The part of a scatter record the shaders read. */
  datatype ScatterRecord = ScatterRecord(attenuation: Vec3, skipPdf: bool, skipPdfRay: Rays.Ray)

  /** What a material answers at a hit: `Emitted` and `Scatter`. */
  datatype Surface = Surface(emitted: Vec3, scatter: Option<ScatterRecord>)

  datatype World = World(
    hit: Rays.Ray -> Option<Materials.HitRecord>,
    surface: (Rays.Ray, Materials.HitRecord) -> Surface,
    generate: Materials.HitRecord -> Vec3,
    pdfValue: (Materials.HitRecord, Vec3) -> F64,
    scatteringPdf: (Rays.Ray, Materials.HitRecord, Rays.Ray) -> F64,
    background: Vec3
  )

  /** The shaders a render configuration can name. */
  datatype Shader = PathTracingShader(maxDepth: int) | AlbedoShader | NormalShader | SimpleShader

  // ----- IEEE colour arithmetic -----

  function Lift(v: Vec3): (c: Rays.FVec3)
    ensures c.x == FromReal(v.x) && c.y == FromReal(v.y) && c.z == FromReal(v.z)
  {
    Rays.FVec3(FromReal(v.x), FromReal(v.y), FromReal(v.z))
  }

  const Black: Rays.FVec3 := Lift(ZeroVector)

  function FAdd(a: Rays.FVec3, b: Rays.FVec3): Rays.FVec3 {
    Rays.FVec3(ExtReal.Add(a.x, b.x), ExtReal.Add(a.y, b.y), ExtReal.Add(a.z, b.z))
  }

  function FMul(a: Rays.FVec3, b: Rays.FVec3): Rays.FVec3 {
    Rays.FVec3(ExtReal.Mul(a.x, b.x), ExtReal.Mul(a.y, b.y), ExtReal.Mul(a.z, b.z))
  }

  function FMulS(a: Rays.FVec3, t: F64): Rays.FVec3 {
    Rays.FVec3(ExtReal.Mul(a.x, t), ExtReal.Mul(a.y, t), ExtReal.Mul(a.z, t))
  }

  function FDivS(a: Rays.FVec3, t: F64): Rays.FVec3 {
    Rays.FVec3(Div(a.x, t), Div(a.y, t), Div(a.z, t))
  }

  // ----- renderer/shader.go:56-74 -----

  /** The channel cap, "a trade off between color acne and suppressing
      intensity". */
  const ColorCap: real := 3.0

  /** `filterColorValue`: NaN becomes 0, anything above the cap becomes the
      cap, and everything else is kept. */
  function FilterColorValue(v: F64): (f: F64)
    ensures f.Num? && FLe(f, FromReal(ColorCap))
    ensures v.NaN? ==> f == FromReal(0.0)
    ensures FLt(FromReal(ColorCap), v) ==> f == FromReal(ColorCap)
  {
    if v.NaN? then FromReal(0.0)
    else if FLt(FromReal(ColorCap), v) then FromReal(ColorCap)
    else v
  }

  /** The filter keeps a value exactly when it is a number no larger than
      the cap, so filtering twice is filtering once. */
  lemma FilterColorValueFixedPoints(v: F64)
    ensures FilterColorValue(v) == v <==> FLe(v, FromReal(ColorCap))
    ensures FilterColorValue(FilterColorValue(v)) == FilterColorValue(v)
  {
    if v.Num? {
      FLeNotFLt(v, FromReal(ColorCap));
    }
  }

  /** `filterInvalidColorValues`: the filter on each channel on its own. */
  function FilterInvalidColorValues(c: Rays.FVec3): (f: Rays.FVec3)
    ensures f.x == FilterColorValue(c.x) && f.y == FilterColorValue(c.y) && f.z == FilterColorValue(c.z)
  {
    Rays.FVec3(FilterColorValue(c.x), FilterColorValue(c.y), FilterColorValue(c.z))
  }

  /** Every channel is a number no larger than the cap. */
  predicate Capped(c: Rays.FVec3) {
    FLe(c.x, FromReal(ColorCap)) && FLe(c.y, FromReal(ColorCap)) && FLe(c.z, FromReal(ColorCap))
  }

  lemma FilteredIsCapped(c: Rays.FVec3)
    ensures Capped(FilterInvalidColorValues(c))
    ensures Capped(c) <==> FilterInvalidColorValues(c) == c
  {
    FilterColorValueFixedPoints(c.x);
    FilterColorValueFixedPoints(c.y);
    FilterColorValueFixedPoints(c.z);
  }

  // ----- the path-tracing shader and rayColor -----

  /** No channel is NaN. */
  predicate NoNaN(c: Rays.FVec3) {
    c.x.Num? && c.y.Num? && c.z.Num?
  }

  /** Every channel a number in [0, 1]. */
  predicate InUnit(c: Rays.FVec3) {
    && FLe(FromReal(0.0), c.x) && FLe(c.x, FromReal(1.0))
    && FLe(FromReal(0.0), c.y) && FLe(c.y, FromReal(1.0))
    && FLe(FromReal(0.0), c.z) && FLe(c.z, FromReal(1.0))
  }

  /** A world in which no material takes the skip-pdf branch. */
  ghost predicate SkipFree(w: World) {
    forall r: Rays.Ray, rec: Materials.HitRecord ::
      w.surface(r, rec).scatter.Some? ==> !w.surface(r, rec).scatter.value.skipPdf
  }

  /** A world whose background, emitted colours and attenuations all lie in
      [0, 1]. */
  ghost predicate Dim(w: World) {
    && InUnit(Lift(w.background))
    && forall r: Rays.Ray, rec: Materials.HitRecord ::
         && InUnit(Lift(w.surface(r, rec).emitted))
         && (w.surface(r, rec).scatter.Some? ==> InUnit(Lift(w.surface(r, rec).scatter.value.attenuation)))
  }

  /** The product of two colours in [0, 1] is in [0, 1]. */
  lemma UnitColourProduct(a: Rays.FVec3, b: Rays.FVec3)
    ensures InUnit(a) && InUnit(b) ==> InUnit(FMul(a, b))
  {
    if InUnit(a) && InUnit(b) {
      UnitChannelProduct(a.x, b.x);
      UnitChannelProduct(a.y, b.y);
      UnitChannelProduct(a.z, b.z);
    }
  }

  lemma UnitChannelProduct(a: F64, b: F64)
    requires FLe(FromReal(0.0), a) && FLe(a, FromReal(1.0))
    requires FLe(FromReal(0.0), b) && FLe(b, FromReal(1.0))
    ensures FLe(FromReal(0.0), ExtReal.Mul(a, b)) && FLe(ExtReal.Mul(a, b), FromReal(1.0))
  {
    assert a.x.Fin? && b.x.Fin?;
    var p, q := a.x.r, b.x.r;
    Materials.UnitProduct(p, q);
  }

  /** The scattered ray of the pdf branch: from the hit point along the
      mixture's sample, normalised by `NewRay`, at the incoming ray's time.
      A zero sample is kept as the direction where Go's `NewRay` would
      divide zero by zero into a NaN direction. */
  function ScatteredRay(m: Libm, w: World, rec: Materials.HitRecord, ray: Rays.Ray): (s: Rays.Ray)
    ensures s.origin == rec.hitPoint && s.time == ray.time
    ensures Length(m, w.generate(rec)) != 0.0 ==> s.direction == Unit(m, w.generate(rec))
    ensures Sound(m) && Length(m, w.generate(rec)) != 0.0 ==> LengthSquared(s.direction) == 1.0
    ensures Length(m, w.generate(rec)) == 0.0 ==> s.direction == w.generate(rec)
  {
    var d := w.generate(rec);
    if Length(m, d) != 0.0 then Rays.NewRay(m, rec.hitPoint, d, ray.time)
    else Rays.Ray(rec.hitPoint, d, Materials.ZeroInverted, ray.time)
  }

  /** The three colours `rayColor` returns for one ray. */
  datatype Colors = Colors(pixel: Rays.FVec3, albedo: Rays.FVec3, normal: Rays.FVec3)

  /** `PathTracingShader.Shade`: nothing past the maximum depth; the emitted
      colour alone for a surface that does not scatter; the attenuated colour
      of the skip-pdf ray, unfiltered; otherwise the emitted colour plus the
      attenuated, density-weighted colour of the sampled ray, filtered. */
  function PathTracingShade(m: Libm, w: World, maxDepth: int, hasPost: bool, rec: Materials.HitRecord,
                            ray: Rays.Ray, depth: int): (c: Rays.FVec3)
    ensures depth >= maxDepth ==> c == Black
    ensures depth < maxDepth && w.surface(ray, rec).scatter.None? ==> c == Lift(w.surface(ray, rec).emitted)
    ensures depth < maxDepth && w.surface(ray, rec).scatter.Some? && !w.surface(ray, rec).scatter.value.skipPdf ==> Capped(c)
    ensures SkipFree(w) ==> NoNaN(c)
    ensures SkipFree(w) && Dim(w) ==> Capped(c)
    decreases maxDepth - depth, 0
  {
    if depth >= maxDepth then Black
    else
      var s := w.surface(ray, rec);
      if s.scatter.None? then Lift(s.emitted)
      else if s.scatter.value.skipPdf then
        FMul(Lift(s.scatter.value.attenuation),
             RayColor(m, w, PathTracingShader(maxDepth), hasPost, s.scatter.value.skipPdfRay, depth + 1).pixel)
      else
        var scattered := ScatteredRay(m, w, rec, ray);
        var pdfVal := w.pdfValue(rec, scattered.direction);
        var scatteringPdf := w.scatteringPdf(ray, rec, scattered);
        var incoming := RayColor(m, w, PathTracingShader(maxDepth), hasPost, scattered, depth + 1).pixel;
        var scatterColor := FDivS(FMul(FMulS(Lift(s.scatter.value.attenuation), scatteringPdf), incoming), pdfVal);
        FilteredIsCapped(FAdd(Lift(s.emitted), scatterColor));
        FilterInvalidColorValues(FAdd(Lift(s.emitted), scatterColor))
  }

  /** `AlbedoShader.Shade`: the attenuation, or the emitted colour when the
      surface does not scatter. */
  function AlbedoShade(w: World, rec: Materials.HitRecord, ray: Rays.Ray): (c: Vec3)
    ensures var s := w.surface(ray, rec);
            c == if s.scatter.Some? then s.scatter.value.attenuation else s.emitted
  {
    var s := w.surface(ray, rec);
    if s.scatter.None? then s.emitted else s.scatter.value.attenuation
  }

  /** `NormalShader.Shade`: the unit normal; a zero normal gives NaN, as
      Go's `0 * (1 / 0)` does. */
  function NormalShade(m: Libm, rec: Materials.HitRecord): (c: Rays.FVec3)
    ensures Length(m, rec.normal) == 0.0 ==> c == Rays.FVec3(NaN, NaN, NaN)
    ensures Length(m, rec.normal) != 0.0 ==> NoNaN(c)
  {
    if Length(m, rec.normal) == 0.0 then Rays.FVec3(NaN, NaN, NaN) else Lift(Unit(m, rec.normal))
  }

  /** With a sound square root, a non-zero normal shades as a unit vector. */
  lemma NormalShadeIsUnit(m: Libm, rec: Materials.HitRecord)
    requires Sound(m)
    requires rec.normal != ZeroVector
    ensures exists n: Vec3 :: NormalShade(m, rec) == Lift(n) && LengthSquared(n) == 1.0
  {
    LengthPositive(m, rec.normal);
    var n := Unit(m, rec.normal);
    assert NormalShade(m, rec) == Lift(n);
  }

  /** The light direction `SimpleShader` shades against. */
  const SimpleLight: Vec3 := Vec3(1.0, 1.0, -1.0)

  /** `SimpleShader`'s factor as written: the unit normal dotted with
      `(1, 1, -1)`, halved and raised by 0.75.  The comment beside it promises
      a factor between 0.25 and 1.25, which would need a unit light vector. */
  function SimpleFactorAsWritten(m: Libm, normal: Vec3): (f: real)
    requires Length(m, normal) != 0.0
    ensures f == Dot(MulS(normal, 1.0 / Length(m, normal)), SimpleLight) * 0.5 + 0.75
  {
    Dot(Unit(m, normal), SimpleLight) * 0.5 + 0.75
  }

  /** The normal (0.6, 0.8, 0), already of unit length, gets the factor 1.45,
      above the promised 1.25. */
  lemma SimpleFactorExceedsComment(m: Libm)
    requires Sound(m)
    ensures Length(m, Vec3(0.6, 0.8, 0.0)) == 1.0
    ensures SimpleFactorAsWritten(m, Vec3(0.6, 0.8, 0.0)) == 1.45
  {
    var n := Vec3(0.6, 0.8, 0.0);
    assert LengthSquared(n) == 1.0;
    SqrtOfSquare(m, 1.0);
    assert 1.0 * 1.0 == 1.0;
    assert MulS(n, 1.0 / 1.0) == n;
  }

  /** The factor with the light direction normalised, as the comment
      intends: always between 0.25 and 1.25. */
  function SimpleFactor(m: Libm, normal: Vec3): (f: real)
    requires Length(m, normal) != 0.0
    requires Length(m, SimpleLight) != 0.0
    ensures Sound(m) ==> 0.25 <= f <= 1.25
  {
    UnitsDotWithinOne(m, normal, SimpleLight);
    Dot(Unit(m, normal), Unit(m, SimpleLight)) * 0.5 + 0.75
  }

  /** Two unit vectors have a dot product in [-1, 1]. */
  lemma UnitsDotWithinOne(m: Libm, a: Vec3, b: Vec3)
    requires Length(m, a) != 0.0 && Length(m, b) != 0.0
    ensures Sound(m) ==> -1.0 <= Dot(Unit(m, a), Unit(m, b)) <= 1.0
  {
    if Sound(m) {
      var u, v := Unit(m, a), Unit(m, b);
      assert LengthSquared(u) == 1.0 && LengthSquared(v) == 1.0;
      DotOfUnits(u, v);
    }
  }

  lemma DotOfUnits(u: Vec3, v: Vec3)
    requires LengthSquared(u) == 1.0 && LengthSquared(v) == 1.0
    ensures -1.0 <= Dot(u, v) <= 1.0
  {
    LengthSquaredIsSelfDot(u);
    LengthSquaredIsSelfDot(v);
    CauchySchwarzUnit(u, v);
  }

  /** With a sound square root the light direction has a length, so the
      corrected factor is defined for every non-zero normal. */
  lemma SimpleLightHasLength(m: Libm)
    ensures Sound(m) ==> Length(m, SimpleLight) != 0.0
  {
    if Sound(m) {
      LengthPositive(m, SimpleLight);
    }
  }

  /** `SimpleShader.Shade`, with the corrected factor: the emitted colour
      when the surface does not scatter, else the attenuation scaled into
      [0.25, 1.25] times itself.  A zero normal yields NaN as in Go. */
  function SimpleShade(m: Libm, w: World, rec: Materials.HitRecord, ray: Rays.Ray): (c: Rays.FVec3)
    ensures w.surface(ray, rec).scatter.None? ==> c == Lift(w.surface(ray, rec).emitted)
    ensures Sound(m) && Length(m, rec.normal) != 0.0 ==> NoNaN(c)
    ensures w.surface(ray, rec).scatter.Some? && Length(m, rec.normal) == 0.0 ==> c == Rays.FVec3(NaN, NaN, NaN)
    ensures Sound(m) && w.surface(ray, rec).scatter.Some? && rec.normal != ZeroVector ==>
              exists f: real :: 0.25 <= f <= 1.25 && c == Lift(MulS(w.surface(ray, rec).scatter.value.attenuation, f))
  {
    var s := w.surface(ray, rec);
    SimpleLightHasLength(m);
    if s.scatter.None? then Lift(s.emitted)
    else if Length(m, rec.normal) == 0.0 || Length(m, SimpleLight) == 0.0 then Rays.FVec3(NaN, NaN, NaN)
    else
      var f := SimpleFactor(m, rec.normal);
      assert Sound(m) ==> 0.25 <= f <= 1.25;
      Lift(MulS(s.scatter.value.attenuation, f))
  }

  /** Whichever shader the configuration names. */
  function Shade(m: Libm, w: World, shader: Shader, hasPost: bool, rec: Materials.HitRecord,
                 ray: Rays.Ray, depth: int): (c: Rays.FVec3)
    ensures shader.PathTracingShader? && SkipFree(w) ==> NoNaN(c)
    ensures shader.AlbedoShader? ==> NoNaN(c)
    ensures Sound(m) && Length(m, rec.normal) != 0.0 && !shader.PathTracingShader? ==> NoNaN(c)
    ensures ((shader.NormalShader? || (shader.SimpleShader? && w.surface(ray, rec).scatter.Some?))
             && Length(m, rec.normal) == 0.0) ==> c == Rays.FVec3(NaN, NaN, NaN)
    decreases if shader.PathTracingShader? then shader.maxDepth - depth else 0, 1
  {
    match shader
    case PathTracingShader(maxDepth) => PathTracingShade(m, w, maxDepth, hasPost, rec, ray, depth)
    case AlbedoShader => Lift(AlbedoShade(w, rec, ray))
    case NormalShader => NormalShade(m, rec)
    case SimpleShader => SimpleShade(m, w, rec, ray)
  }

  /** `rayColor` of renderer/renderer.go: a miss brings back the background
      as colour and albedo and a zero normal; a hit is shaded, and the albedo
      and normal images are computed only for the camera ray of a render
      with a post-processor. */
  function RayColor(m: Libm, w: World, shader: Shader, hasPost: bool, ray: Rays.Ray, depth: int): (c: Colors)
    ensures w.hit(ray).None? ==> c == Colors(Lift(w.background), Lift(w.background), Black)
    ensures w.hit(ray).Some? && !(hasPost && depth == 0) ==> c.albedo == Black && c.normal == Black
    ensures shader.PathTracingShader? && SkipFree(w) ==> NoNaN(c.pixel)
    ensures shader.PathTracingShader? && SkipFree(w) && Dim(w) ==> Capped(c.pixel)
    decreases if shader.PathTracingShader? then shader.maxDepth - depth else 0, 2
  {
    var rec := w.hit(ray);
    if rec.None? then Colors(Lift(w.background), Lift(w.background), Black)
    else
      var pixel := Shade(m, w, shader, hasPost, rec.value, ray, depth);
      if hasPost && depth == 0 then
        Colors(pixel, Lift(AlbedoShade(w, rec.value, ray)), NormalShade(m, rec.value))
      else Colors(pixel, Black, Black)
  }

  // ----- properties of the recursion -----

  /** A miss gives the background, whatever the depth. */
  lemma MissGivesBackground(m: Libm, w: World, shader: Shader, hasPost: bool, ray: Rays.Ray, depth: int)
    requires w.hit(ray).None?
    ensures RayColor(m, w, shader, hasPost, ray, depth) == Colors(Lift(w.background), Lift(w.background), Black)
  {}

  /** Past the maximum depth a path contributes nothing where it hits:
      every hit at that depth is black, so a path never bounces more than
      `maxDepth` times.  The auxiliary images are empty below the camera
      ray. */
  lemma HitPastCutoffIsBlack(m: Libm, w: World, maxDepth: int, hasPost: bool, ray: Rays.Ray, depth: int)
    requires depth >= maxDepth && depth > 0
    requires w.hit(ray).Some?
    ensures RayColor(m, w, PathTracingShader(maxDepth), hasPost, ray, depth) == Colors(Black, Black, Black)
  {
    assert PathTracingShade(m, w, maxDepth, hasPost, w.hit(ray).value, ray, depth) == Black;
  }

  /** In a world of surfaces that never scatter, the colour of a camera ray
      is the emitted colour of the surface it hits, at any depth below the
      cutoff: nothing is traced further. */
  lemma NonScatteringWorld(m: Libm, w: World, maxDepth: int, hasPost: bool, ray: Rays.Ray, depth: int)
    requires forall r: Rays.Ray, rec: Materials.HitRecord :: w.surface(r, rec).scatter.None?
    requires depth < maxDepth
    requires w.hit(ray).Some?
    ensures RayColor(m, w, PathTracingShader(maxDepth), hasPost, ray, depth).pixel
            == Lift(w.surface(ray, w.hit(ray).value).emitted)
  {
    var rec := w.hit(ray).value;
    assert w.surface(ray, rec).scatter.None?;
    assert PathTracingShade(m, w, maxDepth, hasPost, rec, ray, depth) == Lift(w.surface(ray, rec).emitted);
  }

  /** The sampled-ray branch is always filtered: every channel is a number
      no larger than the cap, whatever the densities (zero, infinite or NaN)
      and whatever the deeper rays bring back. */
  lemma PdfBranchIsCapped(m: Libm, w: World, maxDepth: int, hasPost: bool, rec: Materials.HitRecord,
                          ray: Rays.Ray, depth: int)
    requires depth < maxDepth
    requires w.surface(ray, rec).scatter.Some? && !w.surface(ray, rec).scatter.value.skipPdf
    ensures Capped(PathTracingShade(m, w, maxDepth, hasPost, rec, ray, depth))
  {
    var s := w.surface(ray, rec);
    var scattered := ScatteredRay(m, w, rec, ray);
    var incoming := RayColor(m, w, PathTracingShader(maxDepth), hasPost, scattered, depth + 1).pixel;
    var scatterColor := FDivS(FMul(FMulS(Lift(s.scatter.value.attenuation), w.scatteringPdf(ray, rec, scattered)), incoming),
                              w.pdfValue(rec, scattered.direction));
    FilteredIsCapped(FAdd(Lift(s.emitted), scatterColor));
  }

  /** A one-surface world: every ray hits a white surface that passes
      everything along its skip-pdf ray, which misses into a bright
      background. */
  function SkipWorld(probe: Rays.Ray, hitRecord: Materials.HitRecord, background: Vec3): World {
    World(
      (r: Rays.Ray) => if r == probe then Some(hitRecord) else None,
      (r: Rays.Ray, rec: Materials.HitRecord) =>
        Surface(ZeroVector, Some(ScatterRecord(Vec3(1.0, 1.0, 1.0), true, Rays.Ray(ZeroVector, Vec3(0.0, 0.0, 1.0), Materials.ZeroInverted, 1.0)))),
      (rec: Materials.HitRecord) => ZeroVector,
      (rec: Materials.HitRecord, d: Vec3) => FromReal(1.0),
      (r: Rays.Ray, rec: Materials.HitRecord, s: Rays.Ray) => FromReal(1.0),
      background)
  }

  /** The skip-pdf branch is not filtered: a background brighter than the
      cap comes back through it unchanged. */
  lemma SkipPdfBranchIsUncapped(m: Libm, rec: Materials.HitRecord)
    ensures var probe := Rays.Ray(ZeroVector, Vec3(1.0, 0.0, 0.0), Materials.ZeroInverted, 0.0);
            var w := SkipWorld(probe, rec, Vec3(5.0, 5.0, 5.0));
            RayColor(m, w, PathTracingShader(2), false, probe, 0).pixel == Lift(Vec3(5.0, 5.0, 5.0))
            && !Capped(RayColor(m, w, PathTracingShader(2), false, probe, 0).pixel)
  {
    var probe := Rays.Ray(ZeroVector, Vec3(1.0, 0.0, 0.0), Materials.ZeroInverted, 0.0);
    var w := SkipWorld(probe, rec, Vec3(5.0, 5.0, 5.0));
    var skipRay := Rays.Ray(ZeroVector, Vec3(0.0, 0.0, 1.0), Materials.ZeroInverted, 1.0);
    assert skipRay != probe;
    assert w.hit(skipRay).None?;
    assert RayColor(m, w, PathTracingShader(2), false, skipRay, 1).pixel == Lift(Vec3(5.0, 5.0, 5.0));
    assert FMul(Lift(Vec3(1.0, 1.0, 1.0)), Lift(Vec3(5.0, 5.0, 5.0))) == Lift(Vec3(5.0, 5.0, 5.0));
  }

  // ----- internal/renderer/renderer.go:17-72 -----

  /** The older `filterColorValue`: NaN becomes 0 and every other value is
      clamped into [0, 1]. */
  function ClampColorValue(v: F64): (f: F64)
    ensures FLe(FromReal(0.0), f) && FLe(f, FromReal(1.0))
  {
    if v.NaN? then FromReal(0.0)
    else if FLt(FromReal(1.0), v) then FromReal(1.0)
    else if FLt(v, FromReal(0.0)) then FromReal(0.0)
    else v
  }

  /** The clamp keeps exactly the numbers in [0, 1], so it is idempotent;
      and capping at 3 first changes nothing once the value is clamped. */
  lemma ClampColorValueFixedPoints(v: F64)
    ensures ClampColorValue(v) == v <==> FLe(FromReal(0.0), v) && FLe(v, FromReal(1.0))
    ensures ClampColorValue(ClampColorValue(v)) == ClampColorValue(v)
    ensures ClampColorValue(FilterColorValue(v)) == ClampColorValue(v)
  {
    if v.Num? {
      FLeNotFLt(v, FromReal(1.0));
      FLeNotFLt(FromReal(0.0), v);
    }
  }

  function ClampInvalidColorValues(c: Rays.FVec3): (f: Rays.FVec3)
    ensures f.x == ClampColorValue(c.x) && f.y == ClampColorValue(c.y) && f.z == ClampColorValue(c.z)
  {
    Rays.FVec3(ClampColorValue(c.x), ClampColorValue(c.y), ClampColorValue(c.z))
  }

  /** The scattered ray of the older renderer: a struct literal, the sample
      is not normalised. */
  function RawScatteredRay(w: World, rec: Materials.HitRecord, ray: Rays.Ray): (s: Rays.Ray)
    ensures s.origin == rec.hitPoint && s.direction == w.generate(rec) && s.time == ray.time
  {
    Rays.Ray(rec.hitPoint, w.generate(rec), Materials.ZeroInverted, ray.time)
  }

  /** `rayColor` of internal/renderer/renderer.go: the depth is checked
      before the scene is intersected, the shading is the path tracer's with
      the clamp in place of the cap. */
  function InternalRayColor(w: World, maxDepth: int, ray: Rays.Ray, depth: int): (c: Rays.FVec3)
    ensures depth >= maxDepth ==> c == Black
    ensures depth < maxDepth && w.hit(ray).None? ==> c == Lift(w.background)
    ensures Dim(w) ==> InUnit(c)
    decreases maxDepth - depth
  {
    if depth >= maxDepth then Black
    else
      var rec := w.hit(ray);
      if rec.None? then Lift(w.background)
      else
        var s := w.surface(ray, rec.value);
        if s.scatter.None? then Lift(s.emitted)
        else if s.scatter.value.skipPdf then
          var incoming := InternalRayColor(w, maxDepth, s.scatter.value.skipPdfRay, depth + 1);
          UnitColourProduct(Lift(s.scatter.value.attenuation), incoming);
          FMul(Lift(s.scatter.value.attenuation), incoming)
        else
          var scattered := RawScatteredRay(w, rec.value, ray);
          var pdfVal := w.pdfValue(rec.value, scattered.direction);
          var scatteringPdf := w.scatteringPdf(ray, rec.value, scattered);
          var incoming := InternalRayColor(w, maxDepth, scattered, depth + 1);
          var scatterColor := FDivS(FMul(FMulS(Lift(s.scatter.value.attenuation), scatteringPdf), incoming), pdfVal);
          ClampInvalidColorValues(FAdd(Lift(s.emitted), scatterColor))
  }

  /** The two renderers disagree at the cutoff: a ray that misses at the
      maximum depth is black in the older renderer, which checks the depth
      first, but brings back the background in the newer one, whose depth
      check sits in the shader and runs only on a hit. */
  lemma CutoffOrderDiffers(m: Libm, w: World, maxDepth: int, hasPost: bool, ray: Rays.Ray)
    requires w.hit(ray).None?
    ensures InternalRayColor(w, maxDepth, ray, maxDepth) == Black
    ensures RayColor(m, w, PathTracingShader(maxDepth), hasPost, ray, maxDepth).pixel == Lift(w.background)
  {}

  /** Below the cutoff the older renderer's sampled branch lies in [0, 1]
      on every channel. */
  lemma InternalPdfBranchIsClamped(w: World, maxDepth: int, ray: Rays.Ray, depth: int)
    requires depth < maxDepth
    requires w.hit(ray).Some?
    requires var s := w.surface(ray, w.hit(ray).value); s.scatter.Some? && !s.scatter.value.skipPdf
    ensures var c := InternalRayColor(w, maxDepth, ray, depth);
            && FLe(FromReal(0.0), c.x) && FLe(c.x, FromReal(1.0))
            && FLe(FromReal(0.0), c.y) && FLe(c.y, FromReal(1.0))
            && FLe(FromReal(0.0), c.z) && FLe(c.z, FromReal(1.0))
  {}
}
