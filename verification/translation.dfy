/** Translation (hittable/translation.go): a hittable moved by a fixed offset.
    The wrapped object is generic; the caller supplies its box and `hit`,
    the child's answer to a ray and an interval. */
module Translations {
  import opened Vectors
  import opened Wrappers
  import opened Materials
  import opened Hittables
  import Aabbs
  import Intervals
  import Rays

  datatype Translation<T> = Translation(child: T, offset: Vec3, bBox: Aabbs.Aabb)

  /** `NewTranslation`: the child's box moved by the offset.  A point lies
      in the new box exactly when the point it was moved from lies in the
      child's box, and every axis keeps its size. */
  function NewTranslation<T>(child: T, objectBox: Aabbs.Aabb, offset: Vec3): (t: Translation<T>)
    ensures t.child == child && t.offset == offset
    ensures forall p: Vec3 :: Aabbs.ContainsPoint(objectBox, p) <==> Aabbs.ContainsPoint(t.bBox, Add(p, offset))
    ensures Intervals.Size(t.bBox.x) == Intervals.Size(objectBox.x)
    ensures Intervals.Size(t.bBox.y) == Intervals.Size(objectBox.y)
    ensures Intervals.Size(t.bBox.z) == Intervals.Size(objectBox.z)
  {
    Translation(child, offset, Aabbs.AddOffset(objectBox, offset))
  }

  /** The ray the child sees: moved back by `offset`, same direction and
      time.  The Go struct literal leaves `DirectionInverted` zero.  Every
      point of the ray it sees, moved forward again, is the point of `r` at
      the same distance. */
  function ShiftRay(r: Rays.Ray, offset: Vec3): (s: Rays.Ray)
    ensures Add(s.origin, offset) == r.origin
    ensures s.direction == r.direction && s.time == r.time
    ensures forall t: real :: Add(Rays.At(s, t), offset) == Rays.At(r, t)
  {
    Rays.Ray(Sub(r.origin, offset), r.direction, ZeroInverted, r.time)
  }

  /** The child's record moved forward by `offset`: only the hit point
      changes, and moving it back gives the child's hit point. */
  function ShiftRecord(rec: Option<HitRecord>, offset: Vec3): (s: Option<HitRecord>)
    ensures s.Some? <==> rec.Some?
    ensures s.Some? ==> Sub(s.value.hitPoint, offset) == rec.value.hitPoint
    ensures s.Some? ==> && s.value.normal == rec.value.normal && s.value.material == rec.value.material
                        && s.value.rayLength == rec.value.rayLength && s.value.u == rec.value.u
                        && s.value.v == rec.value.v && s.value.frontFace == rec.value.frontFace
  {
    if rec.Some? then Some(rec.value.(hitPoint := Add(rec.value.hitPoint, offset))) else None
  }

  /** `Hit`: the child's answer for the moved-back ray, its hit point moved
      forward again.  A miss stays a miss. */
  function Hit<T>(t: Translation<T>, hit: (T, Rays.Ray, Intervals.Interval) -> Option<HitRecord>,
                  r: Rays.Ray, rayLength: Intervals.Interval): (rec: Option<HitRecord>)
    ensures rec.None? <==> hit(t.child, ShiftRay(r, t.offset), rayLength).None?
    ensures rec.Some? ==> rec.value.rayLength == hit(t.child, ShiftRay(r, t.offset), rayLength).value.rayLength
  {
    ShiftRecord(hit(t.child, ShiftRay(r, t.offset), rayLength), t.offset)
  }

  /** A record on the moved-back ray becomes a record on the caller's ray,
      and a normal facing the moved-back ray faces the caller's ray: the
      translation keeps what its child promises. */
  lemma ShiftKeepsRecordOnRay(rec: Option<HitRecord>, r: Rays.Ray, offset: Vec3, rayLength: Intervals.Interval)
    requires OnRay(rec, ShiftRay(r, offset), rayLength)
    ensures OnRay(ShiftRecord(rec, offset), r, rayLength)
  {
    if rec.Some? {
      var s := ShiftRay(r, offset);
      assert Add(Rays.At(s, rec.value.rayLength), offset) == Rays.At(r, rec.value.rayLength);
    }
  }

  lemma ShiftKeepsFacing(rec: Option<HitRecord>, r: Rays.Ray, offset: Vec3)
    requires FacesRay(rec, ShiftRay(r, offset))
    ensures FacesRay(ShiftRecord(rec, offset), r)
  {}

  /** `Hit` keeps the child's promises: if the child answers the ray it
      sees with a record on that ray, facing it, so does the translation for
      the caller's ray. */
  lemma HitKeepsPromises<T>(t: Translation<T>, hit: (T, Rays.Ray, Intervals.Interval) -> Option<HitRecord>,
                            r: Rays.Ray, rayLength: Intervals.Interval)
    requires OnRay(hit(t.child, ShiftRay(r, t.offset), rayLength), ShiftRay(r, t.offset), rayLength)
    requires FacesRay(hit(t.child, ShiftRay(r, t.offset), rayLength), ShiftRay(r, t.offset))
    ensures OnRay(Hit(t, hit, r, rayLength), r, rayLength)
    ensures FacesRay(Hit(t, hit, r, rayLength), r)
  {
    ShiftKeepsRecordOnRay(hit(t.child, ShiftRay(r, t.offset), rayLength), r, t.offset, rayLength);
  }

  /** A hit point inside the child's box ends up inside the translation's
      box. */
  lemma HitInsideBox<T>(t: Translation<T>, objectBox: Aabbs.Aabb, hit: (T, Rays.Ray, Intervals.Interval) -> Option<HitRecord>,
                        r: Rays.Ray, rayLength: Intervals.Interval)
    requires t == NewTranslation(t.child, objectBox, t.offset)
    requires var inner := hit(t.child, ShiftRay(r, t.offset), rayLength);
             inner.Some? ==> Aabbs.ContainsPoint(objectBox, inner.value.hitPoint)
    ensures var rec := Hit(t, hit, r, rayLength);
            rec.Some? ==> Aabbs.ContainsPoint(t.bBox, rec.value.hitPoint)
  {
    var inner := hit(t.child, ShiftRay(r, t.offset), rayLength);
    if inner.Some? {
      assert Aabbs.ContainsPoint(objectBox, inner.value.hitPoint);
      assert Aabbs.ContainsPoint(t.bBox, Add(inner.value.hitPoint, t.offset));
    }
  }

  /** With a zero offset the child sees the caller's ray (up to the unused
      reciprocal direction), keeps its box and its records. */
  lemma ZeroOffsetIsIdentity<T>(child: T, objectBox: Aabbs.Aabb, r: Rays.Ray, rec: Option<HitRecord>)
    ensures var s := ShiftRay(r, ZeroVector);
            s.origin == r.origin && s.direction == r.direction && s.time == r.time
    ensures NewTranslation(child, objectBox, ZeroVector).bBox == objectBox
    ensures ShiftRecord(rec, ZeroVector) == rec
  {
    Intervals.AddZero(objectBox.x);
    Intervals.AddZero(objectBox.y);
    Intervals.AddZero(objectBox.z);
  }

  /** Translating by `a` and then by `b` moves rays, records and boxes as
      translating by `a + b` does. */
  lemma TranslationsCompose(r: Rays.Ray, rec: Option<HitRecord>, box: Aabbs.Aabb, a: Vec3, b: Vec3)
    ensures ShiftRay(ShiftRay(r, b), a) == ShiftRay(r, Add(a, b))
    ensures ShiftRecord(ShiftRecord(rec, a), b) == ShiftRecord(rec, Add(a, b))
    ensures Aabbs.AddOffset(Aabbs.AddOffset(box, a), b) == Aabbs.AddOffset(box, Add(a, b))
  {
    Intervals.AddTwice(box.x, a.x, b.x);
    Intervals.AddTwice(box.y, a.y, b.y);
    Intervals.AddTwice(box.z, a.z, b.z);
  }
}
