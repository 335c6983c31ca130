/** Probability density functions over directions (pdf/pdf.go): a cosine
    lobe around a normal, the uniform sphere, and an even mixture of two.
    `Generate` takes its random draws as parameters. */
module Pdfs {
  import opened Libm
  import opened Vectors
  import opened Onbs

  datatype Pdf =
    | CosinePdf(uvw: Onb)
    | SpherePdf
    | MixturePdf(p0: Pdf, p1: Pdf)

  /** `NewCosinePdf`: a basis whose `W` is the normalised `w`. */
  function NewCosinePdf(m: Libm, w: Vec3): (p: Pdf)
    requires Sound(m)
    requires w != ZeroVector
    ensures p.CosinePdf? && Orthonormal(p.uvw)
    ensures p.uvw.w == MulS(w, 1.0 / Length(m, w))
  {
    CosinePdf(BuildOnbFromVec3(m, w))
  }

  /** `math.Max(0, x)` for a non-NaN `x`. */
  function MaxZero(x: real): (r: real)
    ensures 0.0 <= r && x <= r && (r == x || r == 0.0)
  {
    if x < 0.0 then 0.0 else x
  }

  /** The directions every density of `p` can be evaluated at: a cosine lobe
      normalises the direction, which must therefore be non-zero. */
  predicate Evaluable(m: Libm, p: Pdf, direction: Vec3) {
    match p
    case CosinePdf(_) => Length(m, direction) != 0.0
    case SpherePdf => true
    case MixturePdf(p0, p1) => Evaluable(m, p0, direction) && Evaluable(m, p1, direction)
  }

  /** The cosine lobe: `max(0, cos(theta) / pi)`. */
  function CosineValue(m: Libm, uvw: Onb, direction: Vec3): (v: real)
    requires Length(m, direction) != 0.0
    requires m.pi != 0.0
    ensures 0.0 <= v
    ensures 0.0 < m.pi && Dot(Unit(m, direction), uvw.w) <= 0.0 ==> v == 0.0
    ensures 0.0 < m.pi && Dot(Unit(m, direction), uvw.w) > 0.0 ==> v > 0.0
  {
    var cosineTheta := Dot(Unit(m, direction), uvw.w);
    SignOfQuotient(cosineTheta, m.pi);
    MaxZero(cosineTheta / m.pi)
  }

  lemma SignOfQuotient(a: real, b: real)
    requires b != 0.0
    ensures 0.0 < b && a <= 0.0 ==> a / b <= 0.0
    ensures 0.0 < b && a > 0.0 ==> a / b > 0.0
  {}

  /** `Value`: the density at `direction`.  Every density is non-negative. */
  function Value(m: Libm, p: Pdf, direction: Vec3): (v: real)
    requires Sound(m)
    requires Evaluable(m, p, direction)
    ensures 0.0 <= v
    ensures p.SpherePdf? ==> 1.0 / 16.0 < v < 1.0 / 12.0
    ensures p.MixturePdf? ==>
      ((Value(m, p.p0, direction) <= v <= Value(m, p.p1, direction))
       || (Value(m, p.p1, direction) <= v <= Value(m, p.p0, direction)))
  {
    match p
    case CosinePdf(uvw) => CosineValue(m, uvw, direction)
    case SpherePdf => SphereValue(m)
    case MixturePdf(p0, p1) => 0.5 * Value(m, p0, direction) + 0.5 * Value(m, p1, direction)
  }

  /** `SpherePdf.Value`: `1 / (4 pi)`, between 1/16 and 1/12 since pi lies
      strictly between 3 and 4. */
  function SphereValue(m: Libm): (v: real)
    requires Sound(m)
    ensures 1.0 / 16.0 < v < 1.0 / 12.0
    ensures v * 4.0 * m.pi == 1.0
  {
    1.0 / (4.0 * m.pi)
  }

  /** The uniform density does not depend on the direction. */
  lemma SphereValueConstant(m: Libm, a: Vec3, b: Vec3)
    requires Sound(m)
    ensures Value(m, SpherePdf, a) == Value(m, SpherePdf, b)
  {}

  /** A mixture of two copies of one density is that density. */
  lemma MixtureOfSame(m: Libm, p: Pdf, direction: Vec3)
    requires Sound(m)
    requires Evaluable(m, p, direction)
    ensures Value(m, MixturePdf(p, p), direction) == Value(m, p, direction)
  {}

  /** The cosine lobe vanishes on the far side of the normal. */
  lemma CosineValueBehind(m: Libm, uvw: Onb, direction: Vec3)
    requires Sound(m)
    requires Length(m, direction) != 0.0
    requires Dot(Unit(m, direction), uvw.w) <= 0.0
    ensures Value(m, CosinePdf(uvw), direction) == 0.0
  {}

  /** `CosinePdf.Generate`: a draw of `RandomCosineDirection` (local
      coordinates around `z`) expressed in the basis. */
  function CosineGenerate(uvw: Onb, cosineDirection: Vec3): (d: Vec3)
    ensures Orthonormal(uvw) ==> Dot(d, uvw.w) == cosineDirection.z
  {
    HeightAlongW(uvw, cosineDirection);
    Local(uvw, cosineDirection)
  }

  lemma HeightAlongW(uvw: Onb, a: Vec3)
    ensures Orthonormal(uvw) ==> Dot(Local(uvw, a), uvw.w) == a.z
  {
    if Orthonormal(uvw) {
      LocalCoordinates(uvw, a);
    }
  }

  /** `SpherePdf.Generate`: `RandomUnitVector` from an in-sphere draw. */
  function SphereGenerate(m: Libm, inSphere: Vec3): (d: Vec3)
    requires Length(m, inSphere) != 0.0
    ensures Sound(m) ==> LengthSquared(d) == 1.0
  {
    RandomUnitVector(m, inSphere)
  }

  /** `MixturePdf.Generate`: the first density's direction when the draw is
      below one half, the second's otherwise. */
  function MixtureGenerate(normalFloat: real, fromP0: Vec3, fromP1: Vec3): (d: Vec3)
    ensures normalFloat < 0.5 ==> d == fromP0
    ensures 0.5 <= normalFloat ==> d == fromP1
  {
    if normalFloat < 0.5 then fromP0 else fromP1
  }

  /** Each child is picked for exactly half of the unit draw range: the two
      sets of draws that pick it are `[0, 0.5)` and `[0.5, 1]`. */
  lemma MixtureGenerateHalves(a: real, b: real, fromP0: Vec3, fromP1: Vec3)
    requires 0.0 <= a < 0.5 <= b <= 1.0
    ensures MixtureGenerate(a, fromP0, fromP1) == fromP0
    ensures MixtureGenerate(b, fromP0, fromP1) == fromP1
  {}
}
