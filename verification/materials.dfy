/** Materials (material/material.go, material/hitrecord.go): how a surface
    scatters an incoming ray and what light it emits.  Each `Scatter` takes
    the random draws it consumes as a `ScatterDraws` value. */
module Materials {
  import opened Libm
  import opened Vectors
  import opened Textures
  import ExtReal
  import Rays

  datatype Material =
    | Lambertian(tex: Texture)
    | Metal(tex: Texture, fuzz: real)
    | Dielectric(tex: Texture, indexOfRefraction: real)
    | DiffuseLight(emit: Texture)
    | Isotropic(albedo: Texture)

  /** `HitRecord`: everything known about the point where a ray met a surface. */
  datatype HitRecord = HitRecord(
    hitPoint: Vec3,
    normal: Vec3,
    material: Material,
    rayLength: real,
    u: real,
    v: real,
    frontFace: bool
  )

  /** The random draws of one `Scatter`: a `RandomUnitVector`, a
      `RandomInUnitSphere` point and a `RandomNormalFloat`. */
  datatype ScatterDraws = ScatterDraws(unitVector: Vec3, inSphere: Vec3, normalFloat: real)

  /** The three results of `Scatter`. */
  datatype Scattered = Scattered(scatter: bool, attenuation: Vec3, ray: Rays.Ray)

  /** A ray built as a Go struct literal leaves `DirectionInverted` zero. */
  const ZeroInverted: Rays.FVec3 := Rays.FVec3(ExtReal.FromReal(0.0), ExtReal.FromReal(0.0), ExtReal.FromReal(0.0))

  /** `geo.Ray{}`. */
  const ZeroRay: Rays.Ray := Rays.Ray(ZeroVector, ZeroVector, ZeroInverted, 0.0)

  /** The scattered ray: from the hit point, at the incoming ray's time. */
  function ScatterRay(rec: HitRecord, direction: Vec3, rayIn: Rays.Ray): (r: Rays.Ray)
    ensures r.origin == rec.hitPoint && r.direction == direction && r.time == rayIn.time
  {
    Rays.Ray(rec.hitPoint, direction, ZeroInverted, rayIn.time)
  }

  /** Only a diffuse light is a light. */
  predicate IsLight(mat: Material) {
    mat.DiffuseLight?
  }

  // ----- Lambertian -----

  /** `Lambertian.Scatter`: the normal plus a random unit vector, falling back
      to the normal itself when the sum nearly cancels. */
  function LambertianScatter(tex: Texture, rayIn: Rays.Ray, rec: HitRecord, unitVector: Vec3): (s: Scattered)
    ensures s.scatter && s.attenuation == Color(tex, rec.u, rec.v)
    ensures s.ray.origin == rec.hitPoint && s.ray.time == rayIn.time
    ensures s.ray.direction == rec.normal || s.ray.direction == Add(rec.normal, unitVector)
    ensures NearZero(Add(rec.normal, unitVector)) ==> s.ray.direction == rec.normal
    ensures !NearZero(Add(rec.normal, unitVector)) ==> s.ray.direction == Add(rec.normal, unitVector)
  {
    var direction := Add(rec.normal, unitVector);
    var direction := if NearZero(direction) then rec.normal else direction;
    Scattered(true, Color(tex, rec.u, rec.v), ScatterRay(rec, direction, rayIn))
  }

  /** A near-zero vector has squared length far below one. */
  lemma NearZeroIsShort(v: Vec3)
    requires NearZero(v)
    ensures LengthSquared(v) < 1.0
  {
    ShortSum(v.x, v.y, v.z);
  }

  lemma ShortSum(x: real, y: real, z: real)
    requires Abs(x) < 0.00000001 && Abs(y) < 0.00000001 && Abs(z) < 0.00000001
    ensures x * x + y * y + z * z < 1.0
  {
    SquareBelow(x);
    SquareBelow(y);
    SquareBelow(z);
  }

  lemma SquareBelow(a: real)
    requires Abs(a) < 0.00000001
    ensures a * a < 0.0000000000000001
  {
    MulStrict(Abs(a), 0.00000001);
    assert a * a == Abs(a) * Abs(a);
  }

  /** With a unit normal the Lambertian direction is never near zero, so the
      scattered ray always has a usable direction. */
  lemma LambertianDirectionUsable(tex: Texture, rayIn: Rays.Ray, rec: HitRecord, unitVector: Vec3)
    requires LengthSquared(rec.normal) == 1.0
    ensures !NearZero(LambertianScatter(tex, rayIn, rec, unitVector).ray.direction)
  {
    if NearZero(rec.normal) {
      NearZeroIsShort(rec.normal);
    }
  }

  // ----- Metal -----

  /** `Metal.Scatter`: the mirror direction of the unit incoming direction,
      perturbed by `Fuzz` times a point of the unit ball; the ray scatters
      exactly when the result leaves on the normal's side. */
  function MetalScatter(m: Libm, tex: Texture, fuzz: real, rayIn: Rays.Ray, rec: HitRecord, inSphere: Vec3): (s: Scattered)
    requires Length(m, rayIn.direction) != 0.0
    ensures s.scatter <==> Dot(s.ray.direction, rec.normal) > 0.0
    ensures s.attenuation == Color(tex, rec.u, rec.v)
    ensures s.ray.origin == rec.hitPoint && s.ray.time == rayIn.time
    ensures fuzz == 0.0 ==> s.ray.direction == Reflect(Unit(m, rayIn.direction), rec.normal)
  {
    var reflected := Reflect(Unit(m, rayIn.direction), rec.normal);
    var ray := ScatterRay(rec, Add(reflected, MulS(inSphere, fuzz)), rayIn);
    Scattered(Dot(ray.direction, rec.normal) > 0.0, Color(tex, rec.u, rec.v), ray)
  }

  /** A perfect mirror (no fuzz) with a unit normal scatters exactly the rays
      that arrive against the normal. */
  lemma MetalMirrorScatters(m: Libm, tex: Texture, rayIn: Rays.Ray, rec: HitRecord, inSphere: Vec3)
    requires Sound(m)
    requires rayIn.direction != ZeroVector
    requires Dot(rec.normal, rec.normal) == 1.0
    ensures MetalScatter(m, tex, 0.0, rayIn, rec, inSphere).scatter <==> Dot(rayIn.direction, rec.normal) < 0.0
  {
    LengthPositive(m, rayIn.direction);
    var l := Length(m, rayIn.direction);
    var u := Unit(m, rayIn.direction);
    ReflectInvolution(u, rec.normal);
    DotMulSLeft(rayIn.direction, 1.0 / l, rec.normal);
    PositiveScale(1.0 / l, Dot(rayIn.direction, rec.normal));
  }

  lemma PositiveScale(k: real, a: real)
    requires 0.0 < k
    ensures k * a < 0.0 <==> a < 0.0
  {
    if a < 0.0 {
      assert k * (-a) > 0.0;
    } else {
      assert k * a >= 0.0;
    }
  }

  // ----- Dielectric -----

  /** The ratio of refractive indices: entering the front face divides by the
      material's index, leaving multiplies by it. */
  function RefractionRatio(frontFace: bool, indexOfRefraction: real): (r: real)
    requires frontFace ==> indexOfRefraction != 0.0
    ensures frontFace ==> r * indexOfRefraction == 1.0
    ensures !frontFace ==> r == indexOfRefraction
  {
    if frontFace then 1.0 / indexOfRefraction else indexOfRefraction
  }

  /** The two directions through a surface use reciprocal ratios. */
  lemma RefractionRatiosReciprocal(indexOfRefraction: real)
    requires indexOfRefraction != 0.0
    ensures RefractionRatio(true, indexOfRefraction) * RefractionRatio(false, indexOfRefraction) == 1.0
  {}

  /** `math.Pow(x, 5)`. */
  function Pow5(x: real): (p: real)
    ensures 0.0 <= x <= 1.0 ==> 0.0 <= p <= 1.0
    ensures x == 0.0 ==> p == 0.0
    ensures x == 1.0 ==> p == 1.0
  {
    Pow5Bounded(x);
    x * x * x * x * x
  }

  lemma Pow5Bounded(x: real)
    ensures 0.0 <= x <= 1.0 ==> 0.0 <= x * x * x * x * x <= 1.0
  {
    if 0.0 <= x <= 1.0 {
      UnitProduct(x, x);
      UnitProduct(x * x, x);
      UnitProduct(x * x * x, x);
      UnitProduct(x * x * x * x, x);
    }
  }

  lemma UnitProduct(a: real, b: real)
    requires 0.0 <= a <= 1.0 && 0.0 <= b <= 1.0
    ensures 0.0 <= a * b <= 1.0 && a * b <= b
  {
    assert b - a * b == (1.0 - a) * b;
  }

  /** `reflectance`: Schlick's approximation.  `1 + index == 0` (an IEEE
      division by zero) is excluded. */
  function Reflectance(cosine: real, indexOfRefraction: real): (r: real)
    requires indexOfRefraction != -1.0
  {
    var r0 := (1.0 - indexOfRefraction) / (1.0 + indexOfRefraction);
    var r0 := r0 * r0;
    r0 + (1.0 - r0) * Pow5(1.0 - cosine)
  }

  /** At normal incidence the reflectance is the base term
      `((1 - n) / (1 + n))^2`; at grazing incidence everything is reflected. */
  lemma ReflectanceEnds(indexOfRefraction: real)
    requires indexOfRefraction != -1.0
    ensures Reflectance(1.0, indexOfRefraction) == ((1.0 - indexOfRefraction) / (1.0 + indexOfRefraction)) * ((1.0 - indexOfRefraction) / (1.0 + indexOfRefraction))
    ensures Reflectance(0.0, indexOfRefraction) == 1.0
  {}

  /** For a non-negative index and a cosine of `[0, 1]` the reflectance lies
      between its normal-incidence value and one. */
  lemma ReflectanceBounds(cosine: real, indexOfRefraction: real)
    requires 0.0 <= indexOfRefraction
    requires 0.0 <= cosine <= 1.0
    ensures 0.0 <= Reflectance(1.0, indexOfRefraction) <= Reflectance(cosine, indexOfRefraction) <= 1.0
  {
    var n := indexOfRefraction;
    var q := (1.0 - n) / (1.0 + n);
    BaseTermInUnit(n, q);
    var r0 := q * q;
    var p := Pow5(1.0 - cosine);
    SchlickBetween(r0, p);
    assert Reflectance(1.0, n) == r0;
    assert Reflectance(cosine, n) == r0 + (1.0 - r0) * p;
  }

  /** The base term `((1 - n) / (1 + n))^2` of a non-negative index lies in
      [0, 1]. */
  lemma BaseTermInUnit(n: real, q: real)
    requires 0.0 <= n && q == (1.0 - n) / (1.0 + n)
    ensures 0.0 <= q * q <= 1.0
  {
    assert -1.0 <= q <= 1.0 by {
      assert q * (1.0 + n) == 1.0 - n;
    }
    UnitProduct(Abs(q), Abs(q));
    assert q * q == Abs(q) * Abs(q);
  }

  /** Blending from `r0` towards one by a weight in [0, 1] stays between. */
  lemma SchlickBetween(r0: real, p: real)
    requires 0.0 <= r0 <= 1.0 && 0.0 <= p <= 1.0
    ensures r0 <= r0 + (1.0 - r0) * p <= 1.0
  {
    UnitProduct(p, 1.0 - r0);
    assert (1.0 - r0) * p == p * (1.0 - r0);
  }

  /** Glass (index 1.5) reflects 4% of the light at normal incidence. */
  lemma ReflectanceOfGlass()
    ensures Reflectance(1.0, 1.5) == 0.04
  {}

  /** `math.Min(x, 1)` for a non-NaN `x`. */
  function MinOne(x: real): (r: real)
    ensures r <= 1.0 && r <= x && (r == x || r == 1.0)
  {
    if x < 1.0 then x else 1.0
  }

  /** The cosine of the angle between the reversed unit direction and the
      normal, capped at one. */
  function CosTheta(m: Libm, rayIn: Rays.Ray, rec: HitRecord): real
    requires Length(m, rayIn.direction) != 0.0
  {
    MinOne(Dot(Neg(Unit(m, rayIn.direction)), rec.normal))
  }

  /** The sine of the same angle, `sqrt(1 - cos^2)`. */
  function SinTheta(m: Libm, rayIn: Rays.Ray, rec: HitRecord): real
    requires Length(m, rayIn.direction) != 0.0
  {
    var cosTheta := CosTheta(m, rayIn, rec);
    m.sqrt(1.0 - cosTheta * cosTheta)
  }

  /** Snell's law has no solution: total internal reflection. */
  predicate CannotRefract(m: Libm, ratio: real, rayIn: Rays.Ray, rec: HitRecord)
    requires Length(m, rayIn.direction) != 0.0
  {
    ratio * SinTheta(m, rayIn, rec) > 1.0
  }

  /** `reflectance(cosTheta, ratio) > draw`.  For a ratio of `-1` Go's
      Schlick term is `+Inf + (-Inf) * p` with `p >= 0`, which is NaN, and a
      comparison with NaN is false: such a ray never reflects by chance. */
  predicate ReflectsByChance(cosine: real, ratio: real, normalFloat: real) {
    if ratio == -1.0 then false else Reflectance(cosine, ratio) > normalFloat
  }

  /** `Dielectric.Scatter`: always scatters; reflects when refraction is
      impossible or when the draw falls below the Schlick reflectance, and
      refracts otherwise.  An index of zero seen from the front gives Go the
      ratio `+Inf`, which makes every ray with a non-zero sine totally
      reflected; the body takes that branch directly, since reals hold no
      infinite ratio. */
  function DielectricScatter(m: Libm, tex: Texture, indexOfRefraction: real, rayIn: Rays.Ray, rec: HitRecord, normalFloat: real): (s: Scattered)
    requires Length(m, rayIn.direction) != 0.0
    requires rec.frontFace && indexOfRefraction == 0.0 ==> SinTheta(m, rayIn, rec) > 0.0
    ensures s.scatter && s.attenuation == Color(tex, rec.u, rec.v)
    ensures s.ray.origin == rec.hitPoint && s.ray.time == rayIn.time
    ensures var unitDirection := Unit(m, rayIn.direction);
      s.ray.direction == Reflect(unitDirection, rec.normal)
      || (!(rec.frontFace && indexOfRefraction == 0.0)
          && s.ray.direction == Refract(m, unitDirection, rec.normal, RefractionRatio(rec.frontFace, indexOfRefraction)))
    ensures rec.frontFace && indexOfRefraction == 0.0 ==> s.ray.direction == Reflect(Unit(m, rayIn.direction), rec.normal)
    ensures indexOfRefraction == -1.0 && !CannotRefract(m, -1.0, rayIn, rec) ==>
      s.ray.direction == Refract(m, Unit(m, rayIn.direction), rec.normal, -1.0)
  {
    var unitDirection := Unit(m, rayIn.direction);
    var direction :=
      if rec.frontFace && indexOfRefraction == 0.0 then
        Reflect(unitDirection, rec.normal)
      else
        var ratio := RefractionRatio(rec.frontFace, indexOfRefraction);
        if CannotRefract(m, ratio, rayIn, rec) || ReflectsByChance(CosTheta(m, rayIn, rec), ratio, normalFloat) then
          Reflect(unitDirection, rec.normal)
        else
          Refract(m, unitDirection, rec.normal, ratio);
    Scattered(true, Color(tex, rec.u, rec.v), ScatterRay(rec, direction, rayIn))
  }

  /** Under total internal reflection the draw is irrelevant: the ray is
      mirrored. */
  lemma DielectricTotalInternalReflection(m: Libm, tex: Texture, indexOfRefraction: real, rayIn: Rays.Ray, rec: HitRecord, normalFloat: real)
    requires Length(m, rayIn.direction) != 0.0
    requires rec.frontFace ==> indexOfRefraction != 0.0
    requires CannotRefract(m, RefractionRatio(rec.frontFace, indexOfRefraction), rayIn, rec)
    ensures DielectricScatter(m, tex, indexOfRefraction, rayIn, rec, normalFloat).ray.direction
      == Reflect(Unit(m, rayIn.direction), rec.normal)
  {}

  /** When refraction is possible, a ray meeting the surface from the front
      (cosine in `[0, 1]`) with a positive ratio refracts for the largest draw,
      because the reflectance never exceeds one. */
  lemma DielectricRefractsOnLargestDraw(m: Libm, tex: Texture, indexOfRefraction: real, rayIn: Rays.Ray, rec: HitRecord)
    requires Length(m, rayIn.direction) != 0.0
    requires 0.0 < indexOfRefraction
    requires !CannotRefract(m, RefractionRatio(rec.frontFace, indexOfRefraction), rayIn, rec)
    requires 0.0 <= CosTheta(m, rayIn, rec) <= 1.0
    ensures DielectricScatter(m, tex, indexOfRefraction, rayIn, rec, 1.0).ray.direction
      == Refract(m, Unit(m, rayIn.direction), rec.normal, RefractionRatio(rec.frontFace, indexOfRefraction))
  {
    var ratio := RefractionRatio(rec.frontFace, indexOfRefraction);
    assert 0.0 <= ratio by {
      if rec.frontFace {
        assert ratio * indexOfRefraction == 1.0;
      }
    }
    ReflectanceBounds(CosTheta(m, rayIn, rec), ratio);
  }

  // ----- DiffuseLight and Isotropic -----

  /** `Isotropic.Scatter`: a uniformly random direction from the hit point. */
  function IsotropicScatter(albedo: Texture, rayIn: Rays.Ray, rec: HitRecord, unitVector: Vec3): (s: Scattered)
    ensures s.scatter && s.attenuation == Color(albedo, rec.u, rec.v)
    ensures s.ray == ScatterRay(rec, unitVector, rayIn)
  {
    Scattered(true, Color(albedo, rec.u, rec.v), ScatterRay(rec, unitVector, rayIn))
  }

  // ----- dispatch -----

  /** Which materials need a non-zero incoming direction, and when a
      zero-index dielectric needs a non-zero sine. */
  predicate ScatterDefined(m: Libm, mat: Material, rayIn: Rays.Ray, rec: HitRecord) {
    && ((mat.Metal? || mat.Dielectric?) ==> Length(m, rayIn.direction) != 0.0)
    && (mat.Dielectric? && rec.frontFace && mat.indexOfRefraction == 0.0 ==> SinTheta(m, rayIn, rec) > 0.0)
  }

  /** `Material.Scatter`. */
  function Scatter(m: Libm, mat: Material, rayIn: Rays.Ray, rec: HitRecord, d: ScatterDraws): (s: Scattered)
    requires ScatterDefined(m, mat, rayIn, rec)
    ensures IsLight(mat) ==> s == Scattered(false, ZeroVector, ZeroRay)
    ensures s.scatter ==> s.ray.origin == rec.hitPoint && s.ray.time == rayIn.time
    ensures (mat.Lambertian? || mat.Dielectric? || mat.Isotropic?) ==> s.scatter
  {
    match mat
    case Lambertian(tex) => LambertianScatter(tex, rayIn, rec, d.unitVector)
    case Metal(tex, fuzz) => MetalScatter(m, tex, fuzz, rayIn, rec, d.inSphere)
    case Dielectric(tex, ior) => DielectricScatter(m, tex, ior, rayIn, rec, d.normalFloat)
    case DiffuseLight(_) => Scattered(false, ZeroVector, ZeroRay)
    case Isotropic(albedo) => IsotropicScatter(albedo, rayIn, rec, d.unitVector)
  }

  /** `Material.Emitted`: a light's texture colour, black for everything else. */
  function Emitted(mat: Material, rec: HitRecord): (e: Vec3)
    ensures !IsLight(mat) ==> e == ZeroVector
    ensures IsLight(mat) ==> e == Color(mat.emit, rec.u, rec.v)
  {
    match mat
    case DiffuseLight(emit) => Color(emit, rec.u, rec.v)
    case _ => ZeroVector
  }

  /** A material either emits or scatters, never both. */
  lemma EmitOrScatter(m: Libm, mat: Material, rayIn: Rays.Ray, rec: HitRecord, d: ScatterDraws)
    requires ScatterDefined(m, mat, rayIn, rec)
    ensures Emitted(mat, rec) != ZeroVector ==> !Scatter(m, mat, rayIn, rec, d).scatter
    ensures Scatter(m, mat, rayIn, rec, d).scatter ==> Emitted(mat, rec) == ZeroVector
  {}
}
