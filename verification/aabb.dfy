/** Axis-aligned bounding boxes (hittable/aabb.go): one interval per axis,
    with the slab test the bounding volume hierarchy uses to prune. */
module Aabbs {
  import opened ExtReal
  import opened Intervals
  import Vectors
  import Rays

  datatype Aabb = Aabb(x: Interval, y: Interval, z: Interval)

  /** The box of an empty list: empty on every axis. */
  const EmptyAabb: Aabb := Aabb(EmptyInterval, EmptyInterval, EmptyInterval)

  predicate ContainsPoint(box: Aabb, p: Vectors.Vec3) {
    Contains(box.x, p.x) && Contains(box.y, p.y) && Contains(box.z, p.z)
  }

  /** Strictly between the bounds on every axis. */
  predicate StrictlyContainsPoint(box: Aabb, p: Vectors.Vec3) {
    && Lt(box.x.min, Fin(p.x)) && Lt(Fin(p.x), box.x.max)
    && Lt(box.y.min, Fin(p.y)) && Lt(Fin(p.y), box.y.max)
    && Lt(box.z.min, Fin(p.z)) && Lt(Fin(p.z), box.z.max)
  }

  predicate AabbEncloses(outer: Aabb, inner: Aabb) {
    Encloses(outer.x, inner.x) && Encloses(outer.y, inner.y) && Encloses(outer.z, inner.z)
  }

  predicate NonInverted(box: Aabb) {
    Le(box.x.min, box.x.max) && Le(box.y.min, box.y.max) && Le(box.z.min, box.z.max)
  }

  /** The file's own `min`: `v0` if `v0 < v1`, otherwise `v1`, so a NaN first
      argument yields the second. */
  function GoMin(v0: F64, v1: F64): (m: F64)
    ensures m == v0 || m == v1
    ensures v0.Num? && v1.Num? ==> m.Num? && m.x == ExtReal.Min(v0.x, v1.x)
    ensures v0.NaN? ==> m == v1
  {
    if FLt(v0, v1) then v0 else v1
  }

  /** The file's own `max`: `v0` if `v0 > v1`, otherwise `v1`. */
  function GoMax(v0: F64, v1: F64): (m: F64)
    ensures m == v0 || m == v1
    ensures v0.Num? && v1.Num? ==> m.Num? && m.x == ExtReal.Max(v0.x, v1.x)
    ensures v0.NaN? ==> m == v1
  {
    if FLt(v1, v0) then v0 else v1
  }

  /** The interval spanned by two coordinates, in either order. */
  function Span(a: real, b: real): (i: Interval)
    ensures Le(i.min, i.max) && Contains(i, a) && Contains(i, b)
    ensures (i.min == Fin(a) || i.min == Fin(b)) && (i.max == Fin(a) || i.max == Fin(b))
  {
    Interval(GoMin(FromReal(a), FromReal(b)).x, GoMax(FromReal(a), FromReal(b)).x)
  }

  /** `createAabbFromPoints`: the box spanned by two opposite corners. */
  function CreateAabbFromPoints(a: Vectors.Vec3, b: Vectors.Vec3): (box: Aabb)
    ensures NonInverted(box)
    ensures ContainsPoint(box, a) && ContainsPoint(box, b)
  {
    Aabb(Span(a.x, b.x), Span(a.y, b.y), Span(a.z, b.z))
  }

  /** The order of the two corners does not matter. */
  lemma CreateAabbFromPointsSymmetric(a: Vectors.Vec3, b: Vectors.Vec3)
    ensures CreateAabbFromPoints(a, b) == CreateAabbFromPoints(b, a)
  {}

  /** The spanned box is the smallest box holding both corners. */
  lemma CreateAabbFromPointsSmallest(a: Vectors.Vec3, b: Vectors.Vec3, other: Aabb)
    requires ContainsPoint(other, a) && ContainsPoint(other, b)
    ensures AabbEncloses(other, CreateAabbFromPoints(a, b))
  {}

  /** `combineAabbs`: the axis-wise combination of two boxes. */
  function CombineAabbs(a: Aabb, b: Aabb): (c: Aabb)
    ensures AabbEncloses(c, a) && AabbEncloses(c, b)
    ensures forall p: Vectors.Vec3 :: ContainsPoint(a, p) || ContainsPoint(b, p) ==> ContainsPoint(c, p)
  {
    var c := Aabb(CombineIntervals(a.x, b.x), CombineIntervals(a.y, b.y), CombineIntervals(a.z, b.z));
    forall p: Vectors.Vec3 | ContainsPoint(a, p) || ContainsPoint(b, p)
      ensures ContainsPoint(c, p)
    {
      EnclosesContains(c, a, p);
      EnclosesContains(c, b, p);
    }
    c
  }

  lemma EnclosesContains(outer: Aabb, inner: Aabb, p: Vectors.Vec3)
    requires AabbEncloses(outer, inner)
    ensures ContainsPoint(inner, p) ==> ContainsPoint(outer, p)
  {}

  /** Any box enclosing both arguments encloses their combination; the
      empty box is the identity. */
  lemma CombineAabbsSmallest(a: Aabb, b: Aabb, other: Aabb)
    requires AabbEncloses(other, a) && AabbEncloses(other, b)
    ensures AabbEncloses(other, CombineAabbs(a, b))
    ensures CombineAabbs(EmptyAabb, a) == a && CombineAabbs(a, EmptyAabb) == a
  {
    CombineWithEmpty(a.x);
    CombineWithEmpty(a.y);
    CombineWithEmpty(a.z);
  }

  lemma AabbEnclosesTransitive(a: Aabb, b: Aabb, c: Aabb)
    requires AabbEncloses(a, b) && AabbEncloses(b, c)
    ensures AabbEncloses(a, c)
  {}

  /** A point strictly inside a box is strictly inside every box enclosing it. */
  lemma StrictlyInsideEnclosing(outer: Aabb, inner: Aabb, p: Vectors.Vec3)
    requires AabbEncloses(outer, inner)
    ensures StrictlyContainsPoint(inner, p) ==> StrictlyContainsPoint(outer, p)
  {}

  /** Combining a box with itself gives the box back. */
  lemma CombineAabbsSelf(a: Aabb)
    ensures CombineAabbs(a, a) == a
  {}

  /** `add`: every axis shifted by the matching offset component. */
  function AddOffset(box: Aabb, offset: Vectors.Vec3): (s: Aabb)
    ensures forall p: Vectors.Vec3 :: ContainsPoint(box, p) <==> ContainsPoint(s, Vectors.Add(p, offset))
    ensures Size(s.x) == Size(box.x) && Size(s.y) == Size(box.y) && Size(s.z) == Size(box.z)
  {
    var s := Aabb(Intervals.Add(box.x, offset.x), Intervals.Add(box.y, offset.y), Intervals.Add(box.z, offset.z));
    forall p: Vectors.Vec3
      ensures ContainsPoint(box, p) <==> ContainsPoint(s, Vectors.Add(p, offset))
    {
      AddShifts(box.x, offset.x, p.x);
      AddShifts(box.y, offset.y, p.y);
      AddShifts(box.z, offset.z, p.z);
    }
    s
  }

  /** The thickness `padIfNeeded` guarantees on every axis. */
  const PadDelta: real := 0.0001

  /** A finite axis at least `PadDelta` thick. */
  predicate Wide(i: Interval) {
    i.min.Fin? && i.max.Fin? && PadDelta <= i.max.r - i.min.r
  }

  /** One axis of `padIfNeeded`: kept when its size is at least the delta,
      otherwise expanded by the delta (a NaN size also expands). */
  function PadAxis(i: Interval): (r: Interval)
    ensures FLe(FromReal(PadDelta), Size(i)) ==> r == i
    ensures Wide(i) ==> r == i
    ensures i.min.Fin? && i.max.Fin? && Le(i.min, i.max) ==> Wide(r) && Encloses(r, i)
  {
    if FLe(FromReal(PadDelta), Size(i)) then i else Expand(i, PadDelta)
  }

  /** `padIfNeeded`: every finite non-inverted axis ends up at least
      `PadDelta` thick, enclosing the original; thick axes are unchanged. */
  function PadIfNeeded(box: Aabb): (r: Aabb)
    ensures box.x.min.Fin? && box.x.max.Fin? && Le(box.x.min, box.x.max) ==> Wide(r.x) && Encloses(r.x, box.x)
    ensures box.y.min.Fin? && box.y.max.Fin? && Le(box.y.min, box.y.max) ==> Wide(r.y) && Encloses(r.y, box.y)
    ensures box.z.min.Fin? && box.z.max.Fin? && Le(box.z.min, box.z.max) ==> Wide(r.z) && Encloses(r.z, box.z)
    ensures Wide(box.x) ==> r.x == box.x
    ensures Wide(box.y) ==> r.y == box.y
    ensures Wide(box.z) ==> r.z == box.z
  {
    Aabb(PadAxis(box.x), PadAxis(box.y), PadAxis(box.z))
  }

  /** Padding a finite non-inverted box twice is padding it once. */
  lemma PadIfNeededIdempotent(box: Aabb)
    requires box.x.min.Fin? && box.x.max.Fin? && box.y.min.Fin? && box.y.max.Fin? && box.z.min.Fin? && box.z.max.Fin?
    requires NonInverted(box)
    ensures PadIfNeeded(PadIfNeeded(box)) == PadIfNeeded(box)
  {}

  /** Every bound is a finite number. */
  predicate Bounded(box: Aabb) {
    box.x.min.Fin? && box.x.max.Fin? && box.y.min.Fin? && box.y.max.Fin? && box.z.min.Fin? && box.z.max.Fin?
  }

  /** Padding a bounded, non-inverted box keeps every point it contained. */
  lemma PadIfNeededKeepsPoint(box: Aabb, p: Vectors.Vec3)
    requires Bounded(box) && NonInverted(box)
    ensures ContainsPoint(box, p) ==> ContainsPoint(PadIfNeeded(box), p)
  {}

  // ----- the slab test -----

  /** The ray parameter at which the coordinate `o + d t` reaches `bound`,
      as Go computes it: `(bound - o) / d`, infinite or NaN when `d` is 0. */
  function Crossing(bound: XReal, o: real, d: real): F64 {
    Div(Num(Plus(bound, -o)), FromReal(d))
  }

  /** A range of ray parameters `[lo, hi]`. */
  datatype Window = Window(lo: F64, hi: F64)

  predicate IsOpen(w: Window) {
    FLt(w.lo, w.hi)
  }

  /** One axis of `hit`: the slab's entry and exit parameters, intersected
      with the window `w`. */
  function Narrow(i: Interval, o: real, d: real, w: Window): (n: Window)
    ensures w.lo.Num? ==> n.lo.Num? && Le(w.lo.x, n.lo.x)
    ensures w.hi.Num? ==> n.hi.Num? && Le(n.hi.x, w.hi.x)
  {
    var tMin := Crossing(i.min, o, d);
    var tMax := Crossing(i.max, o, d);
    var t0 := GoMin(tMin, tMax);
    var t1 := GoMax(tMin, tMax);
    Window(GoMax(t0, w.lo), GoMin(t1, w.hi))
  }

  function FromInterval(rayLength: Interval): Window {
    Window(Num(rayLength.min), Num(rayLength.max))
  }

  /** `hit`: every axis is narrowed against the caller's interval on its
      own, never against the windows of the other axes. */
  function Hit(box: Aabb, r: Rays.Ray, rayLength: Interval): (b: bool)
    ensures b <==> && IsOpen(Narrow(box.x, r.origin.x, r.direction.x, FromInterval(rayLength)))
                   && IsOpen(Narrow(box.y, r.origin.y, r.direction.y, FromInterval(rayLength)))
                   && IsOpen(Narrow(box.z, r.origin.z, r.direction.z, FromInterval(rayLength)))
  {
    var wx := Narrow(box.x, r.origin.x, r.direction.x, FromInterval(rayLength));
    FLeNotFLt(wx.hi, wx.lo);
    if FLe(wx.hi, wx.lo) then false
    else
      var wy := Narrow(box.y, r.origin.y, r.direction.y, FromInterval(rayLength));
      FLeNotFLt(wy.hi, wy.lo);
      if FLe(wy.hi, wy.lo) then false
      else
        var wz := Narrow(box.z, r.origin.z, r.direction.z, FromInterval(rayLength));
        FLt(wz.lo, wz.hi)
  }

  /** Real-number facts behind the crossing comparisons. */
  lemma DivCompare(x: real, d: real, t: real)
    requires d != 0.0
    ensures d > 0.0 ==> (x / d <= t <==> x <= d * t) && (x / d < t <==> x < d * t)
    ensures d < 0.0 ==> (x / d <= t <==> d * t <= x) && (x / d < t <==> d * t < x)
  {
    var q := x / d;
    assert q * d == x;
    assert (t - q) * d == d * t - x;
    if d > 0.0 {
      SignOfProduct(t - q, d);
    } else {
      SignOfProduct(t - q, -d);
      assert (t - q) * (-d) == x - d * t;
    }
  }

  lemma SignOfProduct(a: real, d: real)
    requires d > 0.0
    ensures a * d >= 0.0 <==> a >= 0.0
    ensures a * d > 0.0 <==> a > 0.0
  {
    if a > 0.0 {
      assert a * d > 0.0;
    } else if a < 0.0 {
      assert (-a) * d > 0.0;
    }
  }

  /** Comparing a crossing with `t` is comparing the bound with the
      coordinate `o + d t`; the direction's sign decides which way round. */
  lemma CrossingCompare(bound: XReal, o: real, d: real, t: real)
    requires d != 0.0
    ensures Crossing(bound, o, d).Num?
    ensures d > 0.0 ==> (Le(Crossing(bound, o, d).x, Fin(t)) <==> Le(bound, Fin(o + d * t)))
    ensures d > 0.0 ==> (Lt(Crossing(bound, o, d).x, Fin(t)) <==> Lt(bound, Fin(o + d * t)))
    ensures d < 0.0 ==> (Le(Crossing(bound, o, d).x, Fin(t)) <==> Le(Fin(o + d * t), bound))
    ensures d < 0.0 ==> (Lt(Crossing(bound, o, d).x, Fin(t)) <==> Lt(Fin(o + d * t), bound))
  {
    if bound.Fin? {
      DivCompare(bound.r - o, d, t);
      assert Crossing(bound, o, d) == FromReal((bound.r - o) / d);
    }
  }

  /** Conservative step: a parameter strictly inside the slab that lies in a
      non-degenerate window still lies in a non-degenerate window after
      narrowing, whatever the direction's sign, zero included. */
  lemma NarrowKeeps(i: Interval, o: real, d: real, w: Window, t: real)
    requires Lt(i.min, Fin(o + d * t)) && Lt(Fin(o + d * t), i.max)
    requires w.lo.Num? && w.hi.Num? && Le(w.lo.x, Fin(t)) && Le(Fin(t), w.hi.x) && Lt(w.lo.x, w.hi.x)
    ensures Narrow(i, o, d, w).lo.Num? && Narrow(i, o, d, w).hi.Num?
    ensures Le(Narrow(i, o, d, w).lo.x, Fin(t)) && Le(Fin(t), Narrow(i, o, d, w).hi.x)
    ensures Lt(Narrow(i, o, d, w).lo.x, Narrow(i, o, d, w).hi.x)
  {
    if d == 0.0 {
      NarrowParallel(i, o, w);
      return;
    }
    var c0, c1 := Crossing(i.min, o, d), Crossing(i.max, o, d);
    CrossingCompare(i.min, o, d, t);
    CrossingCompare(i.max, o, d, t);
    LeTotal(c0.x, Fin(t));
    LeTotal(c1.x, Fin(t));
    var t0, t1 := GoMin(c0, c1), GoMax(c0, c1);
    assert Lt(t0.x, Fin(t)) && Lt(Fin(t), t1.x);
    var n := Narrow(i, o, d, w);
    assert n.lo.x == ExtReal.Max(t0.x, w.lo.x);
    assert n.hi.x == ExtReal.Min(t1.x, w.hi.x);
    WindowAroundPoint(t0.x, w.lo.x, t1.x, w.hi.x, Fin(t));
  }

  /** A ray parallel to the slab with its origin strictly inside crosses the
      lower bound at `-Inf` and the upper at `+Inf` (the division by a zero
      component), so narrowing leaves the window as it was. */
  lemma NarrowParallel(i: Interval, o: real, w: Window)
    requires Lt(i.min, Fin(o)) && Lt(Fin(o), i.max)
    requires w.lo.Num? && w.hi.Num?
    ensures Crossing(i.min, o, 0.0) == Num(NegInf) && Crossing(i.max, o, 0.0) == Num(PosInf)
    ensures Narrow(i, o, 0.0, w) == w
  {
    assert Sign(Plus(i.min, -o)) == -1;
    assert Sign(Plus(i.max, -o)) == 1;
  }

  /** Each lower end lies below `p` and each upper end above it, one side
      strictly: the larger lower end is below the smaller upper end. */
  lemma WindowAroundPoint(a0: XReal, a1: XReal, b0: XReal, b1: XReal, p: XReal)
    requires Lt(a0, p) && Le(a1, p) && Lt(p, b0) && Le(p, b1) && Lt(a1, b1)
    ensures Le(ExtReal.Max(a0, a1), p) && Le(p, ExtReal.Min(b0, b1))
    ensures Lt(ExtReal.Max(a0, a1), ExtReal.Min(b0, b1))
  {}

  /** Conservativeness of `hit`: a parameter in a non-degenerate
      `rayLength` that puts the ray strictly inside the box makes `hit` true,
      for every direction, axis-parallel ones included. */
  lemma HitConservative(box: Aabb, r: Rays.Ray, rayLength: Interval, t: real)
    requires Contains(rayLength, t) && Lt(rayLength.min, rayLength.max)
    requires StrictlyContainsPoint(box, Rays.At(r, t))
    ensures Hit(box, r, rayLength)
  {
    AxisKeepsX(box, r, rayLength, t);
    AxisKeepsY(box, r, rayLength, t);
    AxisKeepsZ(box, r, rayLength, t);
  }

  lemma AxisKeepsX(box: Aabb, r: Rays.Ray, rayLength: Interval, t: real)
    requires Contains(rayLength, t) && Lt(rayLength.min, rayLength.max)
    requires Lt(box.x.min, Fin(Rays.At(r, t).x)) && Lt(Fin(Rays.At(r, t).x), box.x.max)
    ensures IsOpen(Narrow(box.x, r.origin.x, r.direction.x, FromInterval(rayLength)))
  {
    AtComponents(r, t);
    AxisKeeps(box.x, r.origin.x, r.direction.x, rayLength, t, Rays.At(r, t).x);
  }

  lemma AxisKeepsY(box: Aabb, r: Rays.Ray, rayLength: Interval, t: real)
    requires Contains(rayLength, t) && Lt(rayLength.min, rayLength.max)
    requires Lt(box.y.min, Fin(Rays.At(r, t).y)) && Lt(Fin(Rays.At(r, t).y), box.y.max)
    ensures IsOpen(Narrow(box.y, r.origin.y, r.direction.y, FromInterval(rayLength)))
  {
    AtComponents(r, t);
    AxisKeeps(box.y, r.origin.y, r.direction.y, rayLength, t, Rays.At(r, t).y);
  }

  lemma AxisKeepsZ(box: Aabb, r: Rays.Ray, rayLength: Interval, t: real)
    requires Contains(rayLength, t) && Lt(rayLength.min, rayLength.max)
    requires Lt(box.z.min, Fin(Rays.At(r, t).z)) && Lt(Fin(Rays.At(r, t).z), box.z.max)
    ensures IsOpen(Narrow(box.z, r.origin.z, r.direction.z, FromInterval(rayLength)))
  {
    AtComponents(r, t);
    AxisKeeps(box.z, r.origin.z, r.direction.z, rayLength, t, Rays.At(r, t).z);
  }

  lemma AxisKeeps(i: Interval, o: real, d: real, rayLength: Interval, t: real, c: real)
    requires c == o + d * t
    requires Contains(rayLength, t) && Lt(rayLength.min, rayLength.max)
    requires Lt(i.min, Fin(c)) && Lt(Fin(c), i.max)
    ensures IsOpen(Narrow(i, o, d, FromInterval(rayLength)))
  {
    NarrowKeeps(i, o, d, FromInterval(rayLength), t);
  }

  /** A parameter strictly inside an open range of the extended line. */
  function Inside(a: XReal, b: XReal): (t: real)
    requires Lt(a, b)
    ensures Lt(a, Fin(t)) && Lt(Fin(t), b)
  {
    match (a, b)
    case (Fin(x), Fin(y)) => (x + y) / 2.0
    case (Fin(x), _) => x + 1.0
    case (_, Fin(y)) => y - 1.0
    case _ => 0.0
  }

  /** Sound step: a parameter in the narrowed window was in the old window
      and puts the coordinate inside the slab, whatever the direction's
      sign, zero included. */
  lemma NarrowSound(i: Interval, o: real, d: real, w: Window, t: real)
    requires Le(i.min, i.max)
    requires w.lo.Num? && w.hi.Num?
    requires Le(Narrow(i, o, d, w).lo.x, Fin(t)) && Le(Fin(t), Narrow(i, o, d, w).hi.x)
    ensures Contains(i, o + d * t)
    ensures Le(w.lo.x, Fin(t)) && Le(Fin(t), w.hi.x)
  {
    var n := Narrow(i, o, d, w);
    LeTransitive(w.lo.x, n.lo.x, Fin(t));
    LeTransitive(Fin(t), n.hi.x, w.hi.x);
    var c0, c1 := Crossing(i.min, o, d), Crossing(i.max, o, d);
    if d != 0.0 {
      CrossingCompare(i.min, o, d, t);
      CrossingCompare(i.max, o, d, t);
      var t0, t1 := GoMin(c0, c1), GoMax(c0, c1);
      assert Le(t0.x, n.lo.x) && Le(n.hi.x, t1.x);
      LeTransitive(t0.x, n.lo.x, Fin(t));
      LeTransitive(Fin(t), n.hi.x, t1.x);
      LeTotal(c0.x, Fin(t));
      LeTotal(c1.x, Fin(t));
      LeTotal(i.min, Fin(o + d * t));
      LeTotal(i.max, Fin(o + d * t));
    }
  }

  /** One open axis window holds a parameter strictly inside `rayLength`
      whose coordinate lies in the slab. */
  lemma AxisSound(i: Interval, o: real, d: real, rayLength: Interval) returns (t: real)
    requires Le(i.min, i.max)
    requires IsOpen(Narrow(i, o, d, FromInterval(rayLength)))
    ensures Lt(rayLength.min, Fin(t)) && Lt(Fin(t), rayLength.max) && Contains(i, o + d * t)
  {
    var w := FromInterval(rayLength);
    var n := Narrow(i, o, d, w);
    t := Inside(n.lo.x, n.hi.x);
    NarrowStrict(n, w, t);
    NarrowSound(i, o, d, w, t);
  }

  /** What a true `hit` guarantees, axis by axis: for each axis separately
      some parameter strictly inside `rayLength` puts that coordinate inside
      the box's slab. */
  lemma HitAxisSound(box: Aabb, r: Rays.Ray, rayLength: Interval)
    requires NonInverted(box)
    requires Hit(box, r, rayLength)
    ensures exists t :: Lt(rayLength.min, Fin(t)) && Lt(Fin(t), rayLength.max) && Contains(box.x, Rays.At(r, t).x)
    ensures exists t :: Lt(rayLength.min, Fin(t)) && Lt(Fin(t), rayLength.max) && Contains(box.y, Rays.At(r, t).y)
    ensures exists t :: Lt(rayLength.min, Fin(t)) && Lt(Fin(t), rayLength.max) && Contains(box.z, Rays.At(r, t).z)
  {
    OpenAxisSoundX(box, r, rayLength);
    OpenAxisSoundY(box, r, rayLength);
    OpenAxisSoundZ(box, r, rayLength);
  }

  lemma OpenAxisSoundX(box: Aabb, r: Rays.Ray, rayLength: Interval)
    requires Le(box.x.min, box.x.max)
    requires IsOpen(Narrow(box.x, r.origin.x, r.direction.x, FromInterval(rayLength)))
    ensures exists t :: Lt(rayLength.min, Fin(t)) && Lt(Fin(t), rayLength.max) && Contains(box.x, Rays.At(r, t).x)
  {
    var t := AxisSound(box.x, r.origin.x, r.direction.x, rayLength);
    AtComponents(r, t);
  }

  lemma OpenAxisSoundY(box: Aabb, r: Rays.Ray, rayLength: Interval)
    requires Le(box.y.min, box.y.max)
    requires IsOpen(Narrow(box.y, r.origin.y, r.direction.y, FromInterval(rayLength)))
    ensures exists t :: Lt(rayLength.min, Fin(t)) && Lt(Fin(t), rayLength.max) && Contains(box.y, Rays.At(r, t).y)
  {
    var t := AxisSound(box.y, r.origin.y, r.direction.y, rayLength);
    AtComponents(r, t);
  }

  lemma OpenAxisSoundZ(box: Aabb, r: Rays.Ray, rayLength: Interval)
    requires Le(box.z.min, box.z.max)
    requires IsOpen(Narrow(box.z, r.origin.z, r.direction.z, FromInterval(rayLength)))
    ensures exists t :: Lt(rayLength.min, Fin(t)) && Lt(Fin(t), rayLength.max) && Contains(box.z, Rays.At(r, t).z)
  {
    var t := AxisSound(box.z, r.origin.z, r.direction.z, rayLength);
    AtComponents(r, t);
  }

  lemma AtComponents(r: Rays.Ray, t: real)
    ensures Rays.At(r, t).x == r.origin.x + r.direction.x * t
    ensures Rays.At(r, t).y == r.origin.y + r.direction.y * t
    ensures Rays.At(r, t).z == r.origin.z + r.direction.z * t
  {}

  lemma NarrowStrict(n: Window, w: Window, t: real)
    requires n.lo.Num? && n.hi.Num? && w.lo.Num? && w.hi.Num?
    requires Le(w.lo.x, n.lo.x) && Le(n.hi.x, w.hi.x)
    requires Lt(n.lo.x, Fin(t)) && Lt(Fin(t), n.hi.x)
    ensures Lt(w.lo.x, Fin(t)) && Lt(Fin(t), w.hi.x)
    ensures Le(n.lo.x, Fin(t)) && Le(Fin(t), n.hi.x)
  {}

  /** A point on a face of the box is not enough: the ray from `(-1, -5, 0)`
      along `(0, 1, 0)` touches the face `x = -1` of `[-1, 1]³` at `t = 5`,
      but its x crossings are `0/0`, which is NaN, and `2/0`, which is `+Inf`,
      so the window collapses to `[+Inf, +Inf]` and `hit` is false. This is
      why the hierarchy lemmas ask for hits strictly inside the boxes. */
  lemma FaceHitRejected()
    ensures ContainsPoint(Aabb(Between(-1.0, 1.0), Between(-1.0, 1.0), Between(-1.0, 1.0)),
      Rays.At(Rays.Ray(Vectors.Vec3(-1.0, -5.0, 0.0), Vectors.Vec3(0.0, 1.0, 0.0), Rays.ReciprocalVec(Vectors.Vec3(0.0, 1.0, 0.0)), 0.0), 5.0))
    ensures !Hit(Aabb(Between(-1.0, 1.0), Between(-1.0, 1.0), Between(-1.0, 1.0)),
      Rays.Ray(Vectors.Vec3(-1.0, -5.0, 0.0), Vectors.Vec3(0.0, 1.0, 0.0), Rays.ReciprocalVec(Vectors.Vec3(0.0, 1.0, 0.0)), 0.0),
      Interval(Fin(0.001), PosInf))
  {
    var w := FromInterval(Interval(Fin(0.001), PosInf));
    assert Crossing(Fin(-1.0), -1.0, 0.0) == NaN;
    assert Crossing(Fin(1.0), -1.0, 0.0) == Num(PosInf);
    assert Narrow(Between(-1.0, 1.0), -1.0, 0.0, w) == Window(Num(PosInf), Num(PosInf));
  }

  /** The slabs are not intersected with each other: this ray passes the x
      slab for t in [5/3, 10/3] and the y slab for t in [3.75, 5], never
      both at once, so it misses the box, yet `hit` is true. */
  lemma HitIsPerAxis()
    ensures Hit(
      Aabb(Between(1.0, 2.0), Between(3.0, 4.0), Between(-1.0, 1.0)),
      Rays.Ray(Vectors.ZeroVector, Vectors.Vec3(0.6, 0.8, 0.0), Rays.ReciprocalVec(Vectors.Vec3(0.6, 0.8, 0.0)), 0.0),
      Interval(Fin(0.001), PosInf))
    ensures forall t: real :: !ContainsPoint(
      Aabb(Between(1.0, 2.0), Between(3.0, 4.0), Between(-1.0, 1.0)),
      Rays.At(Rays.Ray(Vectors.ZeroVector, Vectors.Vec3(0.6, 0.8, 0.0), Rays.ReciprocalVec(Vectors.Vec3(0.6, 0.8, 0.0)), 0.0), t))
  {
    var box := Aabb(Between(1.0, 2.0), Between(3.0, 4.0), Between(-1.0, 1.0));
    var r := Rays.Ray(Vectors.ZeroVector, Vectors.Vec3(0.6, 0.8, 0.0), Rays.ReciprocalVec(Vectors.Vec3(0.6, 0.8, 0.0)), 0.0);
    var w := FromInterval(Interval(Fin(0.001), PosInf));
    assert Crossing(Fin(1.0), 0.0, 0.6) == FromReal(1.0 / 0.6);
    assert Crossing(Fin(2.0), 0.0, 0.6) == FromReal(2.0 / 0.6);
    assert Narrow(box.x, 0.0, 0.6, w) == Window(FromReal(1.0 / 0.6), FromReal(2.0 / 0.6));
    assert Crossing(Fin(3.0), 0.0, 0.8) == FromReal(3.0 / 0.8);
    assert Crossing(Fin(4.0), 0.0, 0.8) == FromReal(4.0 / 0.8);
    assert Narrow(box.y, 0.0, 0.8, w) == Window(FromReal(3.0 / 0.8), FromReal(4.0 / 0.8));
    assert Crossing(Fin(-1.0), 0.0, 0.0) == Num(NegInf);
    assert Crossing(Fin(1.0), 0.0, 0.0) == Num(PosInf);
    assert Narrow(box.z, 0.0, 0.0, w) == w;
    forall t: real
      ensures !ContainsPoint(box, Rays.At(r, t))
    {
      var p := Rays.At(r, t);
      assert p.x == 0.6 * t && p.y == 0.8 * t;
    }
  }
}
