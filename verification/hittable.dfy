/** What every hittable promises of the record it returns (hittable/hittable.go
    declares only the interface).  The wrappers are stated against these
    predicates: a wrapper whose child keeps them keeps them too. */
module Hittables {
  import opened Vectors
  import opened Wrappers
  import opened Materials
  import Intervals
  import Rays

  /** A record of a hit at a distance inside `rayLength`, at the point of
      `r` that far along. */
  predicate OnRay(rec: Option<HitRecord>, r: Rays.Ray, rayLength: Intervals.Interval) {
    rec.Some? ==>
      && Intervals.Contains(rayLength, rec.value.rayLength)
      && rec.value.hitPoint == Rays.At(r, rec.value.rayLength)
  }

  /** A record whose normal does not point along the ray. */
  predicate FacesRay(rec: Option<HitRecord>, r: Rays.Ray) {
    rec.Some? ==> Dot(r.direction, rec.value.normal) <= 0.0
  }
}
