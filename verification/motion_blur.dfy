/** Motion blur (hittable/motionBlur.go): a hittable that moves along
    `blurDirection` during the shutter interval, by `blurDirection * time` at
    ray time `time`.  The ray and record shifts are a translation's. */
module MotionBlurs {
  import opened Vectors
  import opened Wrappers
  import ExtReal
  import opened Materials
  import opened Hittables
  import Aabbs
  import Intervals
  import Rays
  import Translations

  datatype MotionBlur<T> = MotionBlur(child: T, blurDirection: Vec3, bBox: Aabbs.Aabb)

  /** `NewMotionBlur`: the union of the child's box where it starts and
      where it ends, moved by the whole blur direction. */
  function NewMotionBlur<T>(child: T, childBox: Aabbs.Aabb, blurDirection: Vec3): (m: MotionBlur<T>)
    ensures m.child == child && m.blurDirection == blurDirection
    ensures Aabbs.AabbEncloses(m.bBox, childBox)
    ensures Aabbs.AabbEncloses(m.bBox, Aabbs.AddOffset(childBox, blurDirection))
  {
    MotionBlur(child, blurDirection, Aabbs.CombineAabbs(childBox, Aabbs.AddOffset(childBox, blurDirection)))
  }

  /** How far the child has moved at ray time `time`. */
  function Offset(blurDirection: Vec3, time: real): Vec3 {
    MulS(blurDirection, time)
  }

  /** `Hit`: the child's answer for the ray moved back by the offset at the
      ray's time, its hit point moved forward again. */
  function Hit<T>(m: MotionBlur<T>, hit: (T, Rays.Ray, Intervals.Interval) -> Option<HitRecord>,
                  r: Rays.Ray, rayLength: Intervals.Interval): (rec: Option<HitRecord>)
    ensures rec.None? <==> hit(m.child, Translations.ShiftRay(r, Offset(m.blurDirection, r.time)), rayLength).None?
  {
    var offset := Offset(m.blurDirection, r.time);
    Translations.ShiftRecord(hit(m.child, Translations.ShiftRay(r, offset), rayLength), offset)
  }

  /** The wrapper keeps the child's promises: a record on the ray the child
      sees, facing it, becomes one on the caller's ray, facing it. */
  lemma HitKeepsPromises<T>(m: MotionBlur<T>, hit: (T, Rays.Ray, Intervals.Interval) -> Option<HitRecord>,
                            r: Rays.Ray, rayLength: Intervals.Interval)
    requires var s := Translations.ShiftRay(r, Offset(m.blurDirection, r.time));
             OnRay(hit(m.child, s, rayLength), s, rayLength) && FacesRay(hit(m.child, s, rayLength), s)
    ensures OnRay(Hit(m, hit, r, rayLength), r, rayLength)
    ensures FacesRay(Hit(m, hit, r, rayLength), r)
  {
    var offset := Offset(m.blurDirection, r.time);
    Translations.ShiftKeepsRecordOnRay(hit(m.child, Translations.ShiftRay(r, offset), rayLength), r, offset, rayLength);
  }

  /** At time 0 the child has not moved: it sees the caller's ray (up to the
      unused reciprocal direction) and its record comes back unchanged. */
  lemma TimeZeroIsIdentity<T>(m: MotionBlur<T>, hit: (T, Rays.Ray, Intervals.Interval) -> Option<HitRecord>,
                              r: Rays.Ray, rayLength: Intervals.Interval)
    requires r.time == 0.0
    ensures var s := Translations.ShiftRay(r, Offset(m.blurDirection, r.time));
            s.origin == r.origin && s.direction == r.direction && s.time == r.time
    ensures Hit(m, hit, r, rayLength) == hit(m.child, Translations.ShiftRay(r, Offset(m.blurDirection, r.time)), rayLength)
  {
    assert Offset(m.blurDirection, r.time) == ZeroVector;
  }

  /** One axis of the box: a coordinate in `[lo, hi]` moved by a part
      `shift` of `d` (between 0 and `d`) stays between the lower and upper
      of the two ends. */
  lemma AxisSweep(i: Intervals.Interval, d: real, shift: real, c: real)
    requires WithinZeroTo(shift, d)
    requires Intervals.Contains(i, c)
    ensures Intervals.Contains(Intervals.CombineIntervals(i, Intervals.Add(i, d)), c + shift)
  {
    var moved := Intervals.Add(i, d);
    var lo := Intervals.CombineIntervals(i, moved).min;
    var hi := Intervals.CombineIntervals(i, moved).max;
    assert ExtReal.Le(lo, i.min) && ExtReal.Le(lo, moved.min);
    assert ExtReal.Le(i.max, hi) && ExtReal.Le(moved.max, hi);
    assert moved.min == ExtReal.Plus(i.min, d) && moved.max == ExtReal.Plus(i.max, d);
    if d >= 0.0 {
      SweepBounds(i.min, i.max, i.min, moved.max, c, shift);
      ExtReal.LeTransitive(lo, i.min, ExtReal.Fin(c + shift));
      ExtReal.LeTransitive(ExtReal.Fin(c + shift), moved.max, hi);
    } else {
      SweepBounds(i.min, i.max, moved.min, i.max, c, shift);
      ExtReal.LeTransitive(lo, moved.min, ExtReal.Fin(c + shift));
      ExtReal.LeTransitive(ExtReal.Fin(c + shift), i.max, hi);
    }
  }

  /** `c + s` lies between `low` and `high` when `c` lies in `[min, max]`
      and the shift keeps it above `low` and below `high` at the ends. */
  lemma SweepBounds(min: ExtReal.XReal, max: ExtReal.XReal, low: ExtReal.XReal, high: ExtReal.XReal, c: real, s: real)
    requires ExtReal.Le(min, ExtReal.Fin(c)) && ExtReal.Le(ExtReal.Fin(c), max)
    requires min.Fin? ==> low.Fin? && low.r <= min.r + s
    requires !min.Fin? ==> low == min
    requires max.Fin? ==> high.Fin? && max.r + s <= high.r
    requires !max.Fin? ==> high == max
    ensures ExtReal.Le(low, ExtReal.Fin(c + s)) && ExtReal.Le(ExtReal.Fin(c + s), high)
  {}

  /** The box of `NewMotionBlur`, axis by axis. */
  lemma SweptBox<T>(child: T, childBox: Aabbs.Aabb, blurDirection: Vec3)
    ensures NewMotionBlur(child, childBox, blurDirection).bBox
            == Aabbs.Aabb(Intervals.CombineIntervals(childBox.x, Intervals.Add(childBox.x, blurDirection.x)),
                          Intervals.CombineIntervals(childBox.y, Intervals.Add(childBox.y, blurDirection.y)),
                          Intervals.CombineIntervals(childBox.z, Intervals.Add(childBox.z, blurDirection.z)))
  {}

  /** The box covers the child wherever it is during the shutter interval:
      a point of the child's box, moved by the offset at any time in
      `[0, 1]`, lies in the motion blur's box. */
  lemma BoxCoversSweep<T>(child: T, childBox: Aabbs.Aabb, blurDirection: Vec3, time: real, p: Vec3)
    requires 0.0 <= time <= 1.0
    requires Aabbs.ContainsPoint(childBox, p)
    ensures Aabbs.ContainsPoint(NewMotionBlur(child, childBox, blurDirection).bBox, Add(p, Offset(blurDirection, time)))
  {
    var d := blurDirection;
    var q := Add(p, Offset(d, time));
    var sx, sy, sz := OffsetWithin(p, d, time);
    SweptPoint(childBox, d, p, q, sx, sy, sz);
    SweptBox(child, childBox, d);
  }

  /** The moved point, coordinate by coordinate: each coordinate moves by a
      part of the blur direction's. */
  lemma OffsetWithin(p: Vec3, d: Vec3, time: real) returns (sx: real, sy: real, sz: real)
    requires 0.0 <= time <= 1.0
    ensures WithinZeroTo(sx, d.x)
    ensures WithinZeroTo(sy, d.y)
    ensures WithinZeroTo(sz, d.z)
    ensures Add(p, Offset(d, time)) == Vec3(p.x + sx, p.y + sy, p.z + sz)
  {
    var o := Offset(d, time);
    sx, sy, sz := o.x, o.y, o.z;
    MulSWithin(d, time);
    SameComponents(Add(p, o), Vec3(p.x + sx, p.y + sy, p.z + sz));
  }

  /** A point of the box moved by a part of `d` on every axis. */
  lemma SweptPoint(childBox: Aabbs.Aabb, d: Vec3, p: Vec3, q: Vec3, sx: real, sy: real, sz: real)
    requires WithinZeroTo(sx, d.x)
    requires WithinZeroTo(sy, d.y)
    requires WithinZeroTo(sz, d.z)
    requires Aabbs.ContainsPoint(childBox, p)
    requires q.x == p.x + sx && q.y == p.y + sy && q.z == p.z + sz
    ensures Aabbs.ContainsPoint(Aabbs.Aabb(Intervals.CombineIntervals(childBox.x, Intervals.Add(childBox.x, d.x)),
                                           Intervals.CombineIntervals(childBox.y, Intervals.Add(childBox.y, d.y)),
                                           Intervals.CombineIntervals(childBox.z, Intervals.Add(childBox.z, d.z))),
                                q)
  {
    SweptAxes(childBox.x, childBox.y, childBox.z, d.x, d.y, d.z, p.x, p.y, p.z, sx, sy, sz);
  }

  /** The three axes of `SweptPoint`, one coordinate each. */
  lemma SweptAxes(ix: Intervals.Interval, iy: Intervals.Interval, iz: Intervals.Interval,
                  dx: real, dy: real, dz: real, px: real, py: real, pz: real, sx: real, sy: real, sz: real)
    requires WithinZeroTo(sx, dx)
    requires WithinZeroTo(sy, dy)
    requires WithinZeroTo(sz, dz)
    requires Intervals.Contains(ix, px) && Intervals.Contains(iy, py) && Intervals.Contains(iz, pz)
    ensures Intervals.Contains(Intervals.CombineIntervals(ix, Intervals.Add(ix, dx)), px + sx)
    ensures Intervals.Contains(Intervals.CombineIntervals(iy, Intervals.Add(iy, dy)), py + sy)
    ensures Intervals.Contains(Intervals.CombineIntervals(iz, Intervals.Add(iz, dz)), pz + sz)
  {
    AxisSweep(ix, dx, sx, px);
    AxisSweep(iy, dy, sy, py);
    AxisSweep(iz, dz, sz, pz);
  }
}
