/** Rotation about the Y axis (hittable/rotationY.go): the child is turned by
    an angle; rays are turned back into the child's frame, and the child's hit
    point and normal are turned forward again.  The wrapped object is generic;
    the caller supplies its box and its `hit`. */
module RotationsY {
  import opened Libm
  import opened Vectors
  import opened Wrappers
  import opened Materials
  import opened Hittables
  import ExtReal
  import Aabbs
  import Intervals
  import Rays
  import Util

  datatype RotationY<T> = RotationY(child: T, sinTheta: real, cosTheta: real, bBox: Aabbs.Aabb)

  /** The sine and cosine of one angle. */
  predicate UnitPair(s: real, c: real) {
    s * s + c * c == 1.0
  }

  // ----- The two rotations -----

  /** World to object: the ray's origin and direction as `Hit` turns them. */
  function ToObject(s: real, c: real, v: Vec3): Vec3 {
    Vec3(c * v.x - s * v.z, v.y, s * v.x + c * v.z)
  }

  /** Object to world: the hit point, the normal and the box corners. */
  function ToWorld(s: real, c: real, v: Vec3): Vec3 {
    Vec3(c * v.x + s * v.z, v.y, -s * v.x + c * v.z)
  }

  /** For the sine and cosine of one angle the two turns undo each other. */
  lemma RotationsInverse(s: real, c: real, v: Vec3)
    requires UnitPair(s, c)
    ensures ToWorld(s, c, ToObject(s, c, v)) == v
    ensures ToObject(s, c, ToWorld(s, c, v)) == v
  {
    UndoRows(s, c, v.x, v.z);
    SameComponents(ToWorld(s, c, ToObject(s, c, v)), v);
    SameComponents(ToObject(s, c, ToWorld(s, c, v)), v);
  }

  lemma UndoRows(s: real, c: real, x: real, z: real)
    requires UnitPair(s, c)
    ensures c * (c * x - s * z) + s * (s * x + c * z) == x
    ensures -s * (c * x - s * z) + c * (s * x + c * z) == z
    ensures c * (c * x + s * z) - s * (-s * x + c * z) == x
    ensures s * (c * x + s * z) + c * (-s * x + c * z) == z
  {
    assert c * (c * x - s * z) + s * (s * x + c * z) == (s * s + c * c) * x;
    assert -s * (c * x - s * z) + c * (s * x + c * z) == (s * s + c * c) * z;
    assert c * (c * x + s * z) - s * (-s * x + c * z) == (s * s + c * c) * x;
    assert s * (c * x + s * z) + c * (-s * x + c * z) == (s * s + c * c) * z;
  }

  /** The turn to world is the adjoint of the turn to object for any `s`
      and `c`: a dot product can move it from one side to the other. */
  lemma DotAdjoint(s: real, c: real, a: Vec3, b: Vec3)
    ensures Dot(a, ToWorld(s, c, b)) == Dot(ToObject(s, c, a), b)
  {
    AdjointSum(s, c, a.x, a.y, a.z, b.x, b.y, b.z);
  }

  lemma AdjointSum(s: real, c: real, a1: real, a2: real, a3: real, b1: real, b2: real, b3: real)
    ensures a1 * (c * b1 + s * b3) + a2 * b2 + a3 * (-s * b1 + c * b3)
         == (c * a1 - s * a3) * b1 + a2 * b2 + (s * a1 + c * a3) * b3
  {}

  /** A turn is linear, so it maps the points of a ray to the points of the
      turned ray at the same distance. */
  lemma ToObjectAlongRay(s: real, c: real, o: Vec3, d: Vec3, t: real)
    ensures ToObject(s, c, Add(o, MulS(d, t))) == Add(ToObject(s, c, o), MulS(ToObject(s, c, d), t))
  {
    AlongRayX(s, c, o, d, t);
    AlongRayZ(s, c, o, d, t);
    SameComponents(ToObject(s, c, Add(o, MulS(d, t))), Add(ToObject(s, c, o), MulS(ToObject(s, c, d), t)));
  }

  lemma AlongRayX(s: real, c: real, o: Vec3, d: Vec3, t: real)
    ensures ToObject(s, c, Add(o, MulS(d, t))).x == Add(ToObject(s, c, o), MulS(ToObject(s, c, d), t)).x
  {
    DifferenceRow(c, s, o.x, o.z, d.x, d.z, t);
  }

  lemma AlongRayZ(s: real, c: real, o: Vec3, d: Vec3, t: real)
    ensures ToObject(s, c, Add(o, MulS(d, t))).z == Add(ToObject(s, c, o), MulS(ToObject(s, c, d), t)).z
  {
    LinearRow(s, c, o.x, o.z, d.x, d.z, t);
  }

  lemma LinearRow(a: real, b: real, ox: real, oz: real, dx: real, dz: real, t: real)
    ensures a * (ox + dx * t) + b * (oz + dz * t) == (a * ox + b * oz) + (a * dx + b * dz) * t
  {}

  lemma DifferenceRow(a: real, b: real, ox: real, oz: real, dx: real, dz: real, t: real)
    ensures a * (ox + dx * t) - b * (oz + dz * t) == (a * ox - b * oz) + (a * dx - b * dz) * t
  {}

  // ----- Hit -----

  /** The ray the child sees: origin and direction turned into the child's
      frame, time kept.  The Go struct literal leaves `DirectionInverted`
      zero. */
  function RotateRay(s: real, c: real, r: Rays.Ray): (rr: Rays.Ray)
    ensures rr.origin.y == r.origin.y && rr.direction.y == r.direction.y && rr.time == r.time
  {
    Rays.Ray(ToObject(s, c, r.origin), ToObject(s, c, r.direction), ZeroInverted, r.time)
  }

  /** The child's record turned back to world: hit point and normal only. */
  function RotateRecord(s: real, c: real, rec: Option<HitRecord>): (w: Option<HitRecord>)
    ensures w.Some? <==> rec.Some?
    ensures w.Some? ==> && w.value.hitPoint.y == rec.value.hitPoint.y && w.value.normal.y == rec.value.normal.y
                        && w.value.material == rec.value.material && w.value.rayLength == rec.value.rayLength
                        && w.value.u == rec.value.u && w.value.v == rec.value.v
                        && w.value.frontFace == rec.value.frontFace
  {
    if rec.None? then None
    else Some(rec.value.(hitPoint := ToWorld(s, c, rec.value.hitPoint), normal := ToWorld(s, c, rec.value.normal)))
  }

  /** `Hit`: the child's answer for the turned ray, turned back.  A miss is
      returned as the child gave it. */
  function Hit<T>(ry: RotationY<T>, hit: (T, Rays.Ray, Intervals.Interval) -> Option<HitRecord>,
                  r: Rays.Ray, rayLength: Intervals.Interval): (rec: Option<HitRecord>)
    ensures rec.None? <==> hit(ry.child, RotateRay(ry.sinTheta, ry.cosTheta, r), rayLength).None?
  {
    RotateRecord(ry.sinTheta, ry.cosTheta, hit(ry.child, RotateRay(ry.sinTheta, ry.cosTheta, r), rayLength))
  }

  /** Turning the returned hit point and normal into the child's frame gives
      back exactly what the child reported. */
  lemma HitUndoesRotation<T>(ry: RotationY<T>, hit: (T, Rays.Ray, Intervals.Interval) -> Option<HitRecord>,
                             r: Rays.Ray, rayLength: Intervals.Interval)
    requires UnitPair(ry.sinTheta, ry.cosTheta)
    ensures var inner := hit(ry.child, RotateRay(ry.sinTheta, ry.cosTheta, r), rayLength);
            var rec := Hit(ry, hit, r, rayLength);
            rec.Some? ==> && ToObject(ry.sinTheta, ry.cosTheta, rec.value.hitPoint) == inner.value.hitPoint
                          && ToObject(ry.sinTheta, ry.cosTheta, rec.value.normal) == inner.value.normal
  {
    var inner := hit(ry.child, RotateRay(ry.sinTheta, ry.cosTheta, r), rayLength);
    if inner.Some? {
      RotationsInverse(ry.sinTheta, ry.cosTheta, inner.value.hitPoint);
      RotationsInverse(ry.sinTheta, ry.cosTheta, inner.value.normal);
    }
  }

  /** A record on the turned ray, turned back, lies on the caller's ray at the
      same distance; a normal facing the turned ray faces the caller's ray. */
  lemma RotateKeepsRecordOnRay(s: real, c: real, rec: Option<HitRecord>, r: Rays.Ray, rayLength: Intervals.Interval)
    requires UnitPair(s, c)
    requires OnRay(rec, RotateRay(s, c, r), rayLength)
    ensures OnRay(RotateRecord(s, c, rec), r, rayLength)
  {
    if rec.Some? {
      var t := rec.value.rayLength;
      ToObjectAlongRay(s, c, r.origin, r.direction, t);
      assert rec.value.hitPoint == ToObject(s, c, Rays.At(r, t));
      RotationsInverse(s, c, Rays.At(r, t));
    }
  }

  lemma RotateKeepsFacing(s: real, c: real, rec: Option<HitRecord>, r: Rays.Ray)
    requires FacesRay(rec, RotateRay(s, c, r))
    ensures FacesRay(RotateRecord(s, c, rec), r)
  {
    if rec.Some? {
      DotAdjoint(s, c, r.direction, rec.value.normal);
    }
  }

  /** `Hit` keeps the child's promises: a record on the ray the child sees,
      facing it, becomes one on the caller's ray, facing it. */
  lemma HitKeepsPromises<T>(ry: RotationY<T>, hit: (T, Rays.Ray, Intervals.Interval) -> Option<HitRecord>,
                            r: Rays.Ray, rayLength: Intervals.Interval)
    requires UnitPair(ry.sinTheta, ry.cosTheta)
    requires var s := RotateRay(ry.sinTheta, ry.cosTheta, r);
             OnRay(hit(ry.child, s, rayLength), s, rayLength) && FacesRay(hit(ry.child, s, rayLength), s)
    ensures OnRay(Hit(ry, hit, r, rayLength), r, rayLength)
    ensures FacesRay(Hit(ry, hit, r, rayLength), r)
  {
    var inner := hit(ry.child, RotateRay(ry.sinTheta, ry.cosTheta, r), rayLength);
    RotateKeepsRecordOnRay(ry.sinTheta, ry.cosTheta, inner, r, rayLength);
    RotateKeepsFacing(ry.sinTheta, ry.cosTheta, inner, r);
  }

  /** A zero angle (sine 0, cosine 1) turns nothing. */
  lemma ZeroAngleIsIdentity(r: Rays.Ray, rec: Option<HitRecord>, v: Vec3)
    ensures ToObject(0.0, 1.0, v) == v && ToWorld(0.0, 1.0, v) == v
    ensures var rr := RotateRay(0.0, 1.0, r);
            rr.origin == r.origin && rr.direction == r.direction && rr.time == r.time
    ensures RotateRecord(0.0, 1.0, rec) == rec
  {
    SameComponents(ToObject(0.0, 1.0, r.origin), r.origin);
    SameComponents(ToObject(0.0, 1.0, r.direction), r.direction);
    if rec.Some? {
      SameComponents(ToWorld(0.0, 1.0, rec.value.hitPoint), rec.value.hitPoint);
      SameComponents(ToWorld(0.0, 1.0, rec.value.normal), rec.value.normal);
    }
  }

  // ----- The box -----

  /** Every bound of the child's box is finite: the corner formula
      `i*Max + (1-i)*Min` needs it. */
  predicate FiniteBox(box: Aabbs.Aabb) {
    && box.x.min.Fin? && box.x.max.Fin?
    && box.y.min.Fin? && box.y.max.Fin?
    && box.z.min.Fin? && box.z.max.Fin?
  }

  /** The end of `[lo, hi]` that the loop counter `i` (0 or 1) picks. */
  function Pick(i: nat, lo: real, hi: real): real
    requires i < 2
  {
    if i == 0 then lo else hi
  }

  /** The loops compute the end as `i*hi + (1-i)*lo`; for a counter of 0 or
      1 that is the end `Pick` names. */
  lemma PickIsLoopBlend(i: nat, lo: real, hi: real)
    requires i < 2
    ensures Pick(i, lo, hi) == (i as real) * hi + (1.0 - i as real) * lo
    ensures Pick(i, lo, hi) == lo || Pick(i, lo, hi) == hi
  {
    if i == 0 {
      assert (i as real) * hi == 0.0;
    } else {
      assert i as real == 1.0;
      assert (1.0 - i as real) * lo == 0.0 * lo;
    }
  }

  /** The corner picked by `i`, `j`, `k` of the child's box. */
  function Corner(box: Aabbs.Aabb, i: nat, j: nat, k: nat): Vec3
    requires FiniteBox(box)
    requires i < 2 && j < 2 && k < 2
  {
    Vec3(Pick(i, box.x.min.r, box.x.max.r), Pick(j, box.y.min.r, box.y.max.r), Pick(k, box.z.min.r, box.z.max.r))
  }

  /** The eight corners in the order of the three nested loops (`i`
      outermost, `k` innermost). */
  function Corners(box: Aabbs.Aabb): (cs: seq<Vec3>)
    requires FiniteBox(box)
    ensures |cs| == 8
  {
    [Corner(box, 0, 0, 0), Corner(box, 0, 0, 1), Corner(box, 0, 1, 0), Corner(box, 0, 1, 1),
     Corner(box, 1, 0, 0), Corner(box, 1, 0, 1), Corner(box, 1, 1, 0), Corner(box, 1, 1, 1)]
  }

  /** Points turned back to world, one by one. */
  function TurnAll(s: real, c: real, ps: seq<Vec3>): (ts: seq<Vec3>)
    ensures |ts| == |ps|
  {
    if |ps| == 0 then [] else TurnAll(s, c, ps[..|ps| - 1]) + [ToWorld(s, c, ps[|ps| - 1])]
  }

  lemma {:induction false} TurnAllAt(s: real, c: real, ps: seq<Vec3>, n: nat)
    requires n < |ps|
    ensures TurnAll(s, c, ps)[n] == ToWorld(s, c, ps[n])
  {
    if n < |ps| - 1 {
      TurnAllAt(s, c, ps[..|ps| - 1], n);
    }
  }

  /** The corners turned to world: the `tester` points of the loops. */
  function Testers(s: real, c: real, box: Aabbs.Aabb): (ts: seq<Vec3>)
    requires FiniteBox(box)
    ensures |ts| == 8
  {
    TurnAll(s, c, Corners(box))
  }

  /** The tester of the loop iteration `i`, `j`, `k`. */
  lemma TesterAt(s: real, c: real, box: Aabbs.Aabb, i: nat, j: nat, k: nat)
    requires FiniteBox(box)
    requires i < 2 && j < 2 && k < 2
    ensures Testers(s, c, box)[4 * i + 2 * j + k] == ToWorld(s, c, Corner(box, i, j, k))
  {
    TurnAllAt(s, c, Corners(box), 4 * i + 2 * j + k);
    assert Corners(box)[4 * i + 2 * j + k] == Corner(box, i, j, k);
  }

  /** The coordinates of a sequence of points along one axis. */
  function Coordinates(ps: seq<Vec3>, axis: nat): (xs: seq<real>)
    requires axis < 3
    ensures |xs| == |ps|
  {
    seq(|ps|, n requires 0 <= n < |ps| => if axis == 0 then ps[n].x else if axis == 1 then ps[n].y else ps[n].z)
  }

  /** The fold `lowest = math.Min(lowest, x)` from `+Inf`: `+Inf` for no
      values, finite otherwise. */
  function Lowest(xs: seq<real>): (m: ExtReal.XReal)
    ensures |xs| == 0 <==> m == ExtReal.PosInf
    ensures |xs| > 0 ==> m.Fin?
  {
    if |xs| == 0 then ExtReal.PosInf
    else ExtReal.Min(Lowest(xs[..|xs| - 1]), ExtReal.Fin(xs[|xs| - 1]))
  }

  /** The fold `highest = math.Max(highest, x)` from `-Inf`. */
  function Highest(xs: seq<real>): (m: ExtReal.XReal)
    ensures |xs| == 0 <==> m == ExtReal.NegInf
    ensures |xs| > 0 ==> m.Fin?
  {
    if |xs| == 0 then ExtReal.NegInf
    else ExtReal.Max(Highest(xs[..|xs| - 1]), ExtReal.Fin(xs[|xs| - 1]))
  }

  /** The lowest value is a lower bound of every value, and the highest an
      upper bound. */
  lemma {:induction false} FoldsBound(xs: seq<real>, n: nat)
    requires n < |xs|
    ensures Lowest(xs).r <= xs[n] <= Highest(xs).r
  {
    var init := xs[..|xs| - 1];
    if n < |xs| - 1 {
      FoldsBound(init, n);
      assert init[n] == xs[n];
    }
  }

  /** The folds end on one of the values: the bounds are attained. */
  lemma {:induction false} LowestAttained(xs: seq<real>) returns (n: nat)
    requires |xs| > 0
    ensures n < |xs| && xs[n] == Lowest(xs).r
  {
    if |xs| == 1 || ExtReal.Le(ExtReal.Fin(xs[|xs| - 1]), Lowest(xs[..|xs| - 1])) {
      n := |xs| - 1;
    } else {
      n := LowestAttained(xs[..|xs| - 1]);
    }
  }

  lemma {:induction false} HighestAttained(xs: seq<real>) returns (n: nat)
    requires |xs| > 0
    ensures n < |xs| && xs[n] == Highest(xs).r
  {
    if |xs| == 1 || ExtReal.Le(Highest(xs[..|xs| - 1]), ExtReal.Fin(xs[|xs| - 1])) {
      n := |xs| - 1;
    } else {
      n := HighestAttained(xs[..|xs| - 1]);
    }
  }

  /** The box `createAabbFromPoints(min, max)` of the folded coordinates of
      some points. */
  function BoxOfPoints(ps: seq<Vec3>): Aabbs.Aabb
    requires |ps| > 0
  {
    Aabbs.CreateAabbFromPoints(
      Vec3(Lowest(Coordinates(ps, 0)).r, Lowest(Coordinates(ps, 1)).r, Lowest(Coordinates(ps, 2)).r),
      Vec3(Highest(Coordinates(ps, 0)).r, Highest(Coordinates(ps, 1)).r, Highest(Coordinates(ps, 2)).r))
  }

  /** The box of `NewRotationY`: the folded box of the eight turned corners. */
  function RotatedBox(s: real, c: real, box: Aabbs.Aabb): Aabbs.Aabb
    requires FiniteBox(box)
  {
    BoxOfPoints(Testers(s, c, box))
  }

  /** `NewRotationY`: sine and cosine of the angle in radians, and the box of
      the turned corners. */
  function NewRotationY<T>(m: Libm, child: T, childBox: Aabbs.Aabb, angle: real): (ry: RotationY<T>)
    requires FiniteBox(childBox)
    ensures ry.child == child && ry.bBox == RotatedBox(ry.sinTheta, ry.cosTheta, childBox)
    ensures Sound(m) ==> UnitPair(ry.sinTheta, ry.cosTheta)
  {
    var radians := Util.DegreesToRadians(m, angle);
    var s := m.sin(radians);
    var c := m.cos(radians);
    RotationY(child, s, c, RotatedBox(s, c, childBox))
  }

  /** One axis of the box: the closed interval from the lowest to the
      highest coordinate. */
  lemma FoldedAxis(xs: seq<real>, i: Intervals.Interval)
    requires |xs| > 0
    requires i == Aabbs.Span(Lowest(xs).r, Highest(xs).r)
    ensures i == Intervals.Between(Lowest(xs).r, Highest(xs).r)
  {
    FoldsBound(xs, 0);
  }

  /** A point lies in the folded box exactly when each coordinate lies
      between the lowest and highest of that axis. */
  lemma BoxOfPointsContains(ps: seq<Vec3>, p: Vec3)
    requires |ps| > 0
    ensures Aabbs.ContainsPoint(BoxOfPoints(ps), p) <==>
              && Lowest(Coordinates(ps, 0)).r <= p.x <= Highest(Coordinates(ps, 0)).r
              && Lowest(Coordinates(ps, 1)).r <= p.y <= Highest(Coordinates(ps, 1)).r
              && Lowest(Coordinates(ps, 2)).r <= p.z <= Highest(Coordinates(ps, 2)).r
  {
    var b := BoxOfPoints(ps);
    FoldedAxis(Coordinates(ps, 0), b.x);
    FoldedAxis(Coordinates(ps, 1), b.y);
    FoldedAxis(Coordinates(ps, 2), b.z);
  }

  /** Every point lies in the folded box. */
  lemma PointsInside(ps: seq<Vec3>, n: nat)
    requires n < |ps|
    ensures Aabbs.ContainsPoint(BoxOfPoints(ps), ps[n])
  {
    BoxOfPointsContains(ps, ps[n]);
    FoldsBound(Coordinates(ps, 0), n);
    FoldsBound(Coordinates(ps, 1), n);
    FoldsBound(Coordinates(ps, 2), n);
  }

  /** The folded box is the smallest holding all the points. */
  lemma BoxOfPointsTight(ps: seq<Vec3>, other: Aabbs.Aabb)
    requires |ps| > 0
    requires forall n :: 0 <= n < |ps| ==> Aabbs.ContainsPoint(other, ps[n])
    ensures Aabbs.AabbEncloses(other, BoxOfPoints(ps))
  {
    var b := BoxOfPoints(ps);
    FoldedAxis(Coordinates(ps, 0), b.x);
    FoldedAxis(Coordinates(ps, 1), b.y);
    FoldedAxis(Coordinates(ps, 2), b.z);
    AxisTight(Coordinates(ps, 0), other.x);
    AxisTight(Coordinates(ps, 1), other.y);
    AxisTight(Coordinates(ps, 2), other.z);
  }

  lemma AxisTight(xs: seq<real>, i: Intervals.Interval)
    requires |xs| > 0
    requires forall n :: 0 <= n < |xs| ==> Intervals.Contains(i, xs[n])
    ensures Intervals.Encloses(i, Intervals.Between(Lowest(xs).r, Highest(xs).r))
  {
    var lo := LowestAttained(xs);
    var hi := HighestAttained(xs);
    assert Intervals.Contains(i, xs[lo]) && Intervals.Contains(i, xs[hi]);
  }

  /** All eight turned corners lie in the rotation's box, and it is the
      smallest box that holds them. */
  lemma CornersInside(s: real, c: real, box: Aabbs.Aabb, n: nat, other: Aabbs.Aabb)
    requires FiniteBox(box)
    requires n < 8
    ensures Aabbs.ContainsPoint(RotatedBox(s, c, box), Testers(s, c, box)[n])
    ensures (forall k :: 0 <= k < 8 ==> Aabbs.ContainsPoint(other, Testers(s, c, box)[k]))
            ==> Aabbs.AabbEncloses(other, RotatedBox(s, c, box))
  {
    PointsInside(Testers(s, c, box), n);
    if forall k :: 0 <= k < 8 ==> Aabbs.ContainsPoint(other, Testers(s, c, box)[k]) {
      BoxOfPointsTight(Testers(s, c, box), other);
    }
  }

  /** A point of the child's box, turned to world, lies in the turned box:
      the box covers the whole turned child, not only its corners. */
  lemma RotatedPointInside(s: real, c: real, box: Aabbs.Aabb, p: Vec3)
    requires FiniteBox(box)
    requires Aabbs.ContainsPoint(box, p)
    ensures Aabbs.ContainsPoint(RotatedBox(s, c, box), ToWorld(s, c, p))
  {
    TestersX(s, c, box);
    TestersZ(s, c, box);
    TestersY(s, c, box);
    CoveredByForms(Testers(s, c, box), s, c, box, p);
  }

  /** The coverage argument for any eight points whose bottom-face values
      are those of the testers. */
  lemma CoveredByForms(ps: seq<Vec3>, s: real, c: real, box: Aabbs.Aabb, p: Vec3)
    requires FiniteBox(box)
    requires Aabbs.ContainsPoint(box, p)
    requires FormAtCorners(Coordinates(ps, 0), c, s, box.x.min.r, box.x.max.r, box.z.min.r, box.z.max.r)
    requires FormAtCorners(Coordinates(ps, 2), -s, c, box.x.min.r, box.x.max.r, box.z.min.r, box.z.max.r)
    requires ps[0].y == box.y.min.r && ps[2].y == box.y.max.r
    ensures Aabbs.ContainsPoint(BoxOfPoints(ps), ToWorld(s, c, p))
  {
    var lx, hx := XBound(ps, s, c, box, p);
    var lz, hz := ZBound(ps, s, c, box, p);
    FoldedContains(ps, ToWorld(s, c, p), lx, hx, 0, 2, lz, hz);
  }

  /** Two of the points whose x coordinates bound the turned point's. */
  lemma XBound(ps: seq<Vec3>, s: real, c: real, box: Aabbs.Aabb, p: Vec3) returns (l: nat, h: nat)
    requires FiniteBox(box)
    requires Aabbs.ContainsPoint(box, p)
    requires FormAtCorners(Coordinates(ps, 0), c, s, box.x.min.r, box.x.max.r, box.z.min.r, box.z.max.r)
    ensures l < |ps| && h < |ps|
    ensures ps[l].x <= ToWorld(s, c, p).x <= ps[h].x
  {
    l, h := LinearBetween(Coordinates(ps, 0), c, s, box.x.min.r, box.x.max.r, box.z.min.r, box.z.max.r, p.x, p.z);
    assert Coordinates(ps, 0)[l] == ps[l].x && Coordinates(ps, 0)[h] == ps[h].x;
  }

  /** Two of the points whose z coordinates bound the turned point's. */
  lemma ZBound(ps: seq<Vec3>, s: real, c: real, box: Aabbs.Aabb, p: Vec3) returns (l: nat, h: nat)
    requires FiniteBox(box)
    requires Aabbs.ContainsPoint(box, p)
    requires FormAtCorners(Coordinates(ps, 2), -s, c, box.x.min.r, box.x.max.r, box.z.min.r, box.z.max.r)
    ensures l < |ps| && h < |ps|
    ensures ps[l].z <= ToWorld(s, c, p).z <= ps[h].z
  {
    l, h := LinearBetween(Coordinates(ps, 2), -s, c, box.x.min.r, box.x.max.r, box.z.min.r, box.z.max.r, p.x, p.z);
    assert Coordinates(ps, 2)[l] == ps[l].z && Coordinates(ps, 2)[h] == ps[h].z;
  }

  /** The values a linear form `a*x + b*z` takes at the corners of a
      rectangle, at places 0, 1, 4 and 5 (the testers of the bottom face,
      `k` counting along z and `i` along x). */
  predicate FormAtCorners(xs: seq<real>, a: real, b: real, x0: real, x1: real, z0: real, z1: real) {
    && |xs| == 8
    && xs[0] == a * x0 + b * z0 && xs[1] == a * x0 + b * z1
    && xs[4] == a * x1 + b * z0 && xs[5] == a * x1 + b * z1
  }

  /** The x coordinates of the bottom testers. */
  lemma TestersX(s: real, c: real, box: Aabbs.Aabb)
    requires FiniteBox(box)
    ensures FormAtCorners(Coordinates(Testers(s, c, box), 0), c, s, box.x.min.r, box.x.max.r, box.z.min.r, box.z.max.r)
  {
    TesterAt(s, c, box, 0, 0, 0);
    TesterAt(s, c, box, 0, 0, 1);
    TesterAt(s, c, box, 1, 0, 0);
    TesterAt(s, c, box, 1, 0, 1);
  }

  /** The z coordinates of the bottom testers. */
  lemma TestersZ(s: real, c: real, box: Aabbs.Aabb)
    requires FiniteBox(box)
    ensures FormAtCorners(Coordinates(Testers(s, c, box), 2), -s, c, box.x.min.r, box.x.max.r, box.z.min.r, box.z.max.r)
  {
    TesterAt(s, c, box, 0, 0, 0);
    TesterAt(s, c, box, 0, 0, 1);
    TesterAt(s, c, box, 1, 0, 0);
    TesterAt(s, c, box, 1, 0, 1);
  }

  /** The y coordinates of the first tester and the one above it. */
  lemma TestersY(s: real, c: real, box: Aabbs.Aabb)
    requires FiniteBox(box)
    ensures Testers(s, c, box)[0].y == box.y.min.r && Testers(s, c, box)[2].y == box.y.max.r
  {
    TesterAt(s, c, box, 0, 0, 0);
    TesterAt(s, c, box, 0, 1, 0);
  }

  /** Which corner values bound the form at a point of the rectangle. */
  lemma LinearBetween(xs: seq<real>, a: real, b: real, x0: real, x1: real, z0: real, z1: real, x: real, z: real)
    returns (l: nat, h: nat)
    requires FormAtCorners(xs, a, b, x0, x1, z0, z1)
    requires x0 <= x <= x1 && z0 <= z <= z1
    ensures l < 8 && h < 8
    ensures xs[l] <= a * x + b * z <= xs[h]
  {
    LinearLow(a, b, x, x0, x1, z, z0, z1);
    LinearHigh(a, b, x, x0, x1, z, z0, z1);
    if a >= 0.0 {
      if b >= 0.0 { l, h := 0, 5; } else { l, h := 1, 4; }
    } else {
      if b >= 0.0 { l, h := 4, 1; } else { l, h := 5, 0; }
    }
  }

  /** A point whose every coordinate lies between those of two of the
      points lies in their folded box. */
  lemma FoldedContains(ps: seq<Vec3>, q: Vec3, lx: nat, hx: nat, ly: nat, hy: nat, lz: nat, hz: nat)
    requires lx < |ps| && hx < |ps| && ly < |ps| && hy < |ps| && lz < |ps| && hz < |ps|
    requires ps[lx].x <= q.x <= ps[hx].x
    requires ps[ly].y <= q.y <= ps[hy].y
    requires ps[lz].z <= q.z <= ps[hz].z
    ensures Aabbs.ContainsPoint(BoxOfPoints(ps), q)
  {
    FoldBetween(Coordinates(ps, 0), lx, hx, q.x);
    FoldBetween(Coordinates(ps, 1), ly, hy, q.y);
    FoldBetween(Coordinates(ps, 2), lz, hz, q.z);
    BoxOfPointsContains(ps, q);
  }

  /** A value between two of the values lies between the folds. */
  lemma FoldBetween(xs: seq<real>, lo: nat, hi: nat, v: real)
    requires lo < |xs| && hi < |xs|
    requires xs[lo] <= v <= xs[hi]
    ensures Lowest(xs).r <= v <= Highest(xs).r
  {
    FoldsBound(xs, lo);
    FoldsBound(xs, hi);
  }

  /** A hit point the child reports inside its box, turned back to world,
      lies in the rotation's box. */
  lemma HitInsideBox<T>(ry: RotationY<T>, childBox: Aabbs.Aabb, hit: (T, Rays.Ray, Intervals.Interval) -> Option<HitRecord>,
                        r: Rays.Ray, rayLength: Intervals.Interval)
    requires FiniteBox(childBox)
    requires ry.bBox == RotatedBox(ry.sinTheta, ry.cosTheta, childBox)
    requires var inner := hit(ry.child, RotateRay(ry.sinTheta, ry.cosTheta, r), rayLength);
             inner.Some? ==> Aabbs.ContainsPoint(childBox, inner.value.hitPoint)
    ensures var rec := Hit(ry, hit, r, rayLength);
            rec.Some? ==> Aabbs.ContainsPoint(ry.bBox, rec.value.hitPoint)
  {
    var inner := hit(ry.child, RotateRay(ry.sinTheta, ry.cosTheta, r), rayLength);
    if inner.Some? {
      RotatedPointInside(ry.sinTheta, ry.cosTheta, childBox, inner.value.hitPoint);
    }
  }

  /** A linear form `a*x + b*z` over a rectangle is least at the corner that
      takes the low end of each range whose coefficient is non-negative, and
      greatest at the opposite corner. */
  lemma LinearLow(a: real, b: real, x: real, x0: real, x1: real, z: real, z0: real, z1: real)
    requires x0 <= x <= x1 && z0 <= z <= z1
    ensures a * Pick(if a >= 0.0 then 0 else 1, x0, x1) + b * Pick(if b >= 0.0 then 0 else 1, z0, z1) <= a * x + b * z
  {
    ScaledLow(a, x, x0, x1);
    ScaledLow(b, z, z0, z1);
  }

  lemma LinearHigh(a: real, b: real, x: real, x0: real, x1: real, z: real, z0: real, z1: real)
    requires x0 <= x <= x1 && z0 <= z <= z1
    ensures a * x + b * z <= a * Pick(if a >= 0.0 then 1 else 0, x0, x1) + b * Pick(if b >= 0.0 then 1 else 0, z0, z1)
  {
    ScaledHigh(a, x, x0, x1);
    ScaledHigh(b, z, z0, z1);
  }

  lemma ScaledLow(a: real, x: real, x0: real, x1: real)
    requires x0 <= x <= x1
    ensures a * Pick(if a >= 0.0 then 0 else 1, x0, x1) <= a * x
  {
    if a >= 0.0 {
      assert a * (x - x0) >= 0.0;
    } else {
      assert (-a) * (x1 - x) >= 0.0;
    }
  }

  lemma ScaledHigh(a: real, x: real, x0: real, x1: real)
    requires x0 <= x <= x1
    ensures a * x <= a * Pick(if a >= 0.0 then 1 else 0, x0, x1)
  {
    if a >= 0.0 {
      assert a * (x1 - x) >= 0.0;
    } else {
      assert (-a) * (x - x0) >= 0.0;
    }
  }
}
