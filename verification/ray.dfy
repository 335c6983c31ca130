/** Rays (geo/ray.go): an origin, a unit direction, the direction's
    componentwise reciprocal (used by the bounding-box slab test) and a time. */
module Rays {
  import ExtReal
  import opened Libm
  import opened Vectors

  /** A vector of float64 values, for reciprocals that may be infinite. */
  datatype FVec3 = FVec3(x: ExtReal.F64, y: ExtReal.F64, z: ExtReal.F64)

  datatype Ray = Ray(origin: Vec3, direction: Vec3, directionInverted: FVec3, time: real)

  /** `1 / a` in float64: an infinity for a zero component. */
  function Reciprocal(a: real): (r: ExtReal.F64)
    ensures a != 0.0 ==> r == ExtReal.FromReal(1.0 / a) && a * (1.0 / a) == 1.0
    ensures a == 0.0 ==> r == ExtReal.Num(ExtReal.PosInf)
  {
    ExtReal.Div(ExtReal.FromReal(1.0), ExtReal.FromReal(a))
  }

  function ReciprocalVec(v: Vec3): FVec3 {
    FVec3(Reciprocal(v.x), Reciprocal(v.y), Reciprocal(v.z))
  }

  /** `NewRay`: the direction is normalised and its reciprocal precomputed. */
  function NewRay(m: Libm, origin: Vec3, direction: Vec3, time: real): (r: Ray)
    requires Length(m, direction) != 0.0
    ensures r.origin == origin && r.time == time
    ensures Sound(m) ==> LengthSquared(r.direction) == 1.0
    ensures r.direction == MulS(direction, 1.0 / Length(m, direction))
    ensures r.directionInverted == ReciprocalVec(r.direction)
  {
    var dir := Unit(m, direction);
    Ray(origin, dir, ReciprocalVec(dir), time)
  }

  /** `At`: the point `distance` along the ray. */
  function At(r: Ray, distance: real): Vec3 {
    Add(r.origin, MulS(r.direction, distance))
  }

  /** `At` is affine in the distance: it starts at the origin and moves by
      the direction per unit of distance. */
  lemma AtAffine(r: Ray, a: real, b: real)
    ensures At(r, 0.0) == r.origin
    ensures At(r, a + b) == Add(At(r, a), MulS(r.direction, b))
    ensures Sub(At(r, a), r.origin) == MulS(r.direction, a)
  {}

  lemma AtSamples(time: real)
    ensures At(Ray(Vec3(1.0, 2.0, 3.0), Vec3(4.0, 5.0, 6.0), FVec3(ExtReal.NaN, ExtReal.NaN, ExtReal.NaN), time), 1.0) == Vec3(5.0, 7.0, 9.0)
    ensures At(Ray(Vec3(1.0, 2.0, 3.0), Vec3(4.0, 5.0, 6.0), FVec3(ExtReal.NaN, ExtReal.NaN, ExtReal.NaN), time), -1.0) == Vec3(-3.0, -3.0, -3.0)
    ensures At(Ray(Vec3(1.0, 2.0, 3.0), Vec3(4.0, 5.0, 6.0), FVec3(ExtReal.NaN, ExtReal.NaN, ExtReal.NaN), time), 3.0) == Vec3(13.0, 17.0, 21.0)
  {}
}
