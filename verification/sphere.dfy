/** Spheres (hittable/sphere.go): the ray-sphere intersection as the smaller
    in-range root of a quadratic, the sphere's bounding box and its texture
    coordinates. */
module Spheres {
  import opened Libm
  import opened Vectors
  import Intervals
  import opened Wrappers
  import ExtReal
  import Aabbs
  import Materials
  import Rays
  import HittableLists

  datatype Sphere = Sphere(center: Vec3, radius: real, mat: Materials.Material, bBox: Aabbs.Aabb)

  /** `NewSphere`: the box spans `center - radius` to `center + radius` on
      every axis. */
  function NewSphere(center: Vec3, radius: real, mat: Materials.Material): (s: Sphere)
    ensures s.center == center && s.radius == radius && s.mat == mat
    ensures Aabbs.NonInverted(s.bBox)
  {
    var rVec := Vec3(radius, radius, radius);
    Sphere(center, radius, mat, Aabbs.CreateAabbFromPoints(Sub(center, rVec), Add(center, rVec)))
  }

  /** `p` lies on the sphere's surface. */
  predicate OnSphere(s: Sphere, p: Vec3) {
    LengthSquared(Sub(p, s.center)) == s.radius * s.radius
  }

  /** A coordinate whose offset from `c` squares to at most `r * r` lies
      between `c - r` and `c + r`. */
  lemma AxisWithinRadius(c: real, r: real, p: real)
    requires (p - c) * (p - c) <= r * r
    ensures Intervals.Contains(Aabbs.Span(c - r, c + r), p)
  {
    var a := if r < 0.0 then -r else r;
    assert r * r == a * a;
    if p - c > a {
      MulStrict(a, p - c);
    } else if c - p > a {
      MulStrict(a, c - p);
      assert (c - p) * (c - p) == (p - c) * (p - c);
    }
  }

  /** Each of three squares is at most their sum. */
  lemma SquaresBelowSum(a: real, b: real, c: real, bound: real)
    requires a * a + b * b + c * c <= bound
    ensures a * a <= bound && b * b <= bound && c * c <= bound
  {
    SquareNonNegative(a);
    SquareNonNegative(b);
    SquareNonNegative(c);
  }

  /** Inside the sphere, each coordinate's offset from the centre squares to
      at most the squared radius. */
  lemma OffsetsWithinRadius(center: Vec3, radius: real, p: Vec3)
    requires LengthSquared(Sub(p, center)) <= radius * radius
    ensures (p.x - center.x) * (p.x - center.x) <= radius * radius
    ensures (p.y - center.y) * (p.y - center.y) <= radius * radius
    ensures (p.z - center.z) * (p.z - center.z) <= radius * radius
  {
    var dx, dy, dz := p.x - center.x, p.y - center.y, p.z - center.z;
    assert Sub(p, center) == Vec3(dx, dy, dz);
    SquaresBelowSum(dx, dy, dz, radius * radius);
  }

  /** The sphere's box spans `center - radius` to `center + radius` on each
      axis. */
  lemma BoxAxes(center: Vec3, radius: real, mat: Materials.Material)
    ensures var box := NewSphere(center, radius, mat).bBox;
            && box.x == Aabbs.Span(center.x - radius, center.x + radius)
            && box.y == Aabbs.Span(center.y - radius, center.y + radius)
            && box.z == Aabbs.Span(center.z - radius, center.z + radius)
  {
    var rVec := Vec3(radius, radius, radius);
    assert Sub(center, rVec) == Vec3(center.x - radius, center.y - radius, center.z - radius);
    assert Add(center, rVec) == Vec3(center.x + radius, center.y + radius, center.z + radius);
  }

  /** The bounding box encloses every point inside or on the sphere. */
  lemma BoxEnclosesSphere(center: Vec3, radius: real, mat: Materials.Material, p: Vec3)
    requires LengthSquared(Sub(p, center)) <= radius * radius
    ensures Aabbs.ContainsPoint(NewSphere(center, radius, mat).bBox, p)
  {
    OffsetsWithinRadius(center, radius, p);
    BoxEnclosesX(center, radius, mat, p);
    BoxEnclosesY(center, radius, mat, p);
    BoxEnclosesZ(center, radius, mat, p);
  }

  lemma BoxEnclosesX(center: Vec3, radius: real, mat: Materials.Material, p: Vec3)
    requires (p.x - center.x) * (p.x - center.x) <= radius * radius
    ensures Intervals.Contains(NewSphere(center, radius, mat).bBox.x, p.x)
  {
    BoxAxes(center, radius, mat);
    AxisContained(NewSphere(center, radius, mat).bBox.x, center.x, radius, p.x);
  }

  lemma BoxEnclosesY(center: Vec3, radius: real, mat: Materials.Material, p: Vec3)
    requires (p.y - center.y) * (p.y - center.y) <= radius * radius
    ensures Intervals.Contains(NewSphere(center, radius, mat).bBox.y, p.y)
  {
    BoxAxes(center, radius, mat);
    AxisContained(NewSphere(center, radius, mat).bBox.y, center.y, radius, p.y);
  }

  lemma BoxEnclosesZ(center: Vec3, radius: real, mat: Materials.Material, p: Vec3)
    requires (p.z - center.z) * (p.z - center.z) <= radius * radius
    ensures Intervals.Contains(NewSphere(center, radius, mat).bBox.z, p.z)
  {
    BoxAxes(center, radius, mat);
    AxisContained(NewSphere(center, radius, mat).bBox.z, center.z, radius, p.z);
  }

  lemma AxisContained(i: Intervals.Interval, c: real, r: real, p: real)
    requires i == Aabbs.Span(c - r, c + r)
    requires (p - c) * (p - c) <= r * r
    ensures Intervals.Contains(i, p)
  {
    AxisWithinRadius(c, r, p);
  }

  // ----- the quadratic -----

  /** `a t^2 + 2 halfB t + c`: the squared distance from the centre of the
      point at `t`, minus the squared radius. */
  datatype Quadratic = Quadratic(a: real, halfB: real, c: real)

  function Coefficients(s: Sphere, r: Rays.Ray): Quadratic {
    var oc := Sub(r.origin, s.center);
    Quadratic(LengthSquared(r.direction), Dot(oc, r.direction), LengthSquared(oc) - s.radius * s.radius)
  }

  function Discriminant(q: Quadratic): real {
    q.halfB * q.halfB - q.a * q.c
  }

  function Eval(q: Quadratic, t: real): real {
    q.a * t * t + 2.0 * q.halfB * t + q.c
  }

  /** The two roots `(-halfB -+ sqrt(discriminant)) / a`, nearer first. */
  function NearRoot(m: Libm, q: Quadratic): real
    requires q.a != 0.0
  {
    (-q.halfB - m.sqrt(Discriminant(q))) / q.a
  }

  function FarRoot(m: Libm, q: Quadratic): real
    requires q.a != 0.0
  {
    (-q.halfB + m.sqrt(Discriminant(q))) / q.a
  }

  /** The squared length of `w = o + t d`, as a polynomial in `t` whose
      coefficients are `|d|^2`, `o . d` and `|o|^2`. */
  lemma ShiftedSquare(wx: real, wy: real, wz: real, ox: real, oy: real, oz: real, dx: real, dy: real, dz: real,
                      t: real, dd: real, od: real, oo: real)
    requires wx == ox + t * dx && wy == oy + t * dy && wz == oz + t * dz
    requires dd == dx * dx + dy * dy + dz * dz
    requires od == ox * dx + oy * dy + oz * dz
    requires oo == ox * ox + oy * oy + oz * oz
    ensures wx * wx + wy * wy + wz * wz == dd * t * t + 2.0 * od * t + oo
  {}

  /** The squared distance from the centre along the ray, less the squared
      radius, is the quadratic in `t`. */
  lemma DistanceAlongRay(s: Sphere, r: Rays.Ray, t: real)
    ensures LengthSquared(Sub(Rays.At(r, t), s.center)) - s.radius * s.radius == Eval(Coefficients(s, r), t)
  {
    var oc := Sub(r.origin, s.center);
    var d := r.direction;
    var w := Sub(Rays.At(r, t), s.center);
    var q := Coefficients(s, r);
    var rr := s.radius * s.radius;
    assert LengthSquared(w) == q.a * t * t + 2.0 * q.halfB * t + (q.c + rr) by {
      assert w.x == oc.x + t * d.x && w.y == oc.y + t * d.y && w.z == oc.z + t * d.z;
      ShiftedSquare(w.x, w.y, w.z, oc.x, oc.y, oc.z, d.x, d.y, d.z, t, q.a, q.halfB, q.c + rr);
    }
    EvalShift(q, t, LengthSquared(w), rr);
  }

  /** A value that is the quadratic raised by `rr`, lowered by `rr`. */
  lemma EvalShift(q: Quadratic, t: real, l: real, rr: real)
    requires l == q.a * t * t + 2.0 * q.halfB * t + (q.c + rr)
    ensures l - rr == Eval(q, t)
  {}

  /** The point at `t` is on the sphere exactly when `t` solves the
      quadratic. */
  lemma OnSphereIffRoot(s: Sphere, r: Rays.Ray, t: real)
    ensures OnSphere(s, Rays.At(r, t)) <==> Eval(Coefficients(s, r), t) == 0.0
  {
    DistanceAlongRay(s, r, t);
  }

  /** `a * Eval(t)` is the square of `a t + halfB` less the discriminant. */
  lemma CompletedSquare(q: Quadratic, t: real)
    ensures q.a * Eval(q, t) == (q.a * t + q.halfB) * (q.a * t + q.halfB) - Discriminant(q)
  {}

  /** Both roots solve the quadratic. */
  lemma RootsSolve(m: Libm, q: Quadratic)
    requires Sound(m)
    requires q.a > 0.0 && Discriminant(q) >= 0.0
    ensures Eval(q, NearRoot(m, q)) == 0.0 && Eval(q, FarRoot(m, q)) == 0.0
  {
    var sd := m.sqrt(Discriminant(q));
    assert sd * sd == Discriminant(q);
    var n := NearRoot(m, q);
    assert q.a * n + q.halfB == -sd;
    CompletedSquare(q, n);
    assert q.a * Eval(q, n) == 0.0;
    var f := FarRoot(m, q);
    assert q.a * f + q.halfB == sd;
    CompletedSquare(q, f);
    assert q.a * Eval(q, f) == 0.0;
  }

  /** With `a > 0` and a non-negative discriminant, the solutions are exactly
      the two roots, the near one not beyond the far one. */
  lemma Roots(m: Libm, q: Quadratic, t: real)
    requires Sound(m)
    requires q.a > 0.0 && Discriminant(q) >= 0.0
    ensures NearRoot(m, q) <= FarRoot(m, q)
    ensures Eval(q, t) == 0.0 <==> t == NearRoot(m, q) || t == FarRoot(m, q)
  {
    var sd := m.sqrt(Discriminant(q));
    assert 0.0 <= sd && sd * sd == Discriminant(q);
    assert -q.halfB - sd <= -q.halfB + sd;
    RootsSolve(m, q);
    if Eval(q, t) == 0.0 {
      var x := q.a * t + q.halfB;
      CompletedSquare(q, t);
      assert (x - sd) * (x + sd) == 0.0;
      if x - sd != 0.0 {
        ZeroProduct(x + sd, x - sd);
        assert t == (-q.halfB - sd) / q.a;
      } else {
        assert t == (-q.halfB + sd) / q.a;
      }
    }
  }

  /** A negative discriminant leaves no solution. */
  lemma NoRoots(q: Quadratic, t: real)
    requires q.a > 0.0 && Discriminant(q) < 0.0
    ensures Eval(q, t) != 0.0
  {
    var x := q.a * t + q.halfB;
    CompletedSquare(q, t);
    SquareNonNegative(x);
  }

  // ----- texture coordinates and the record -----

  /** `calculateSphereUv`: spherical angles of a point on the unit sphere,
      scaled to `[0, 1]`. */
  function SphereUv(m: Libm, p: Vec3): (uv: (real, real))
    requires m.pi != 0.0
    ensures Sound(m) && -1.0 <= p.y <= 1.0 ==> 0.0 <= uv.0 <= 1.0 && 0.0 <= uv.1 <= 1.0
  {
    var theta := m.acos(-p.y);
    var phi := m.atan2(-p.z, p.x) + m.pi;
    AnglesInUnit(m, p);
    (phi / (2.0 * m.pi), theta / m.pi)
  }

  /** Under a sound library both scaled angles of a point with `y` in
      `[-1, 1]` lie in `[0, 1]`. */
  lemma AnglesInUnit(m: Libm, p: Vec3)
    requires m.pi != 0.0
    ensures Sound(m) && -1.0 <= p.y <= 1.0 ==>
              && 0.0 <= (m.atan2(-p.z, p.x) + m.pi) / (2.0 * m.pi) <= 1.0
              && 0.0 <= m.acos(-p.y) / m.pi <= 1.0
  {
    if Sound(m) && -1.0 <= p.y <= 1.0 {
      var theta := m.acos(-p.y);
      var phi := m.atan2(-p.z, p.x) + m.pi;
      assert 0.0 <= theta <= m.pi;
      assert 0.0 <= phi <= 2.0 * m.pi;
      RatioInUnit(phi, 2.0 * m.pi);
      RatioInUnit(theta, m.pi);
    }
  }

  lemma RatioInUnit(a: real, b: real)
    requires 0.0 < b && 0.0 <= a <= b
    ensures 0.0 <= a / b <= 1.0
  {}

  /** The outward normal at `p`: the offset from the centre divided by the
      radius (pointing inward for a negative radius). */
  function Outward(s: Sphere, p: Vec3): Vec3
    requires s.radius != 0.0
  {
    DivS(Sub(p, s.center), s.radius)
  }

  /** The record for a hit at `root`: the normal is flipped to face against
      the ray, and `FrontFace` says whether it already did. */
  function Record(m: Libm, s: Sphere, r: Rays.Ray, root: real): (rec: Materials.HitRecord)
    requires s.radius != 0.0 && m.pi != 0.0
    ensures rec.hitPoint == Rays.At(r, root) && rec.rayLength == root && rec.material == s.mat
    ensures Dot(r.direction, rec.normal) <= 0.0
    ensures rec.frontFace <==> Dot(r.direction, Outward(s, rec.hitPoint)) < 0.0
    ensures rec.normal == Outward(s, rec.hitPoint) || rec.normal == Neg(Outward(s, rec.hitPoint))
  {
    var hitPoint := Rays.At(r, root);
    var normal := Outward(s, hitPoint);
    var uv := SphereUv(m, normal);
    var frontFace := Dot(r.direction, normal) < 0.0;
    Materials.HitRecord(hitPoint, if frontFace then normal else Neg(normal), s.mat, root, uv.0, uv.1, frontFace)
  }

  /** `Hit`: the near root when it is in `rayLength`, else the far root when
      that is, else a miss.  A zero direction makes both roots `0 / 0`, a NaN
      that no interval contains. */
  function Hit(m: Libm, s: Sphere, r: Rays.Ray, rayLength: Intervals.Interval): (rec: Option<Materials.HitRecord>)
    requires s.radius != 0.0 && m.pi != 0.0
    ensures rec.Some? ==> Intervals.Contains(rayLength, rec.value.rayLength)
    ensures rec.Some? ==> rec.value.hitPoint == Rays.At(r, rec.value.rayLength) && rec.value.material == s.mat
    ensures rec.Some? ==> Dot(r.direction, rec.value.normal) <= 0.0
  {
    var q := Coefficients(s, r);
    if Discriminant(q) < 0.0 || q.a == 0.0 then None
    else PickRoot(m, s, r, rayLength, NearRoot(m, q), FarRoot(m, q))
  }

  /** The first of the two candidate roots that `rayLength` contains. */
  function PickRoot(m: Libm, s: Sphere, r: Rays.Ray, rayLength: Intervals.Interval, near: real, far: real): (rec: Option<Materials.HitRecord>)
    requires s.radius != 0.0 && m.pi != 0.0
    ensures rec.Some? ==> rec.value == Record(m, s, r, rec.value.rayLength)
    ensures rec.Some? ==> Intervals.Contains(rayLength, rec.value.rayLength)
    ensures rec.Some? ==> rec.value.rayLength == near || rec.value.rayLength == far
  {
    if Intervals.Contains(rayLength, near) then Some(Record(m, s, r, near))
    else if Intervals.Contains(rayLength, far) then Some(Record(m, s, r, far))
    else None
  }

  /** Every hit is on the sphere's surface. */
  lemma HitOnSurface(m: Libm, s: Sphere, r: Rays.Ray, rayLength: Intervals.Interval)
    requires Sound(m) && s.radius != 0.0
    ensures var rec := Hit(m, s, r, rayLength);
      rec.Some? ==> OnSphere(s, rec.value.hitPoint)
  {
    var q := Coefficients(s, r);
    var rec := Hit(m, s, r, rayLength);
    if rec.Some? {
      Roots(m, q, rec.value.rayLength);
      OnSphereIffRoot(s, r, rec.value.rayLength);
    }
  }

  /** Every point of the surface within `rayLength` is found: the hit exists
      and is no farther along the ray.  (A ray with a zero direction that
      starts on the surface meets it at every distance, yet misses.) */
  lemma HitIsNearest(m: Libm, s: Sphere, r: Rays.Ray, rayLength: Intervals.Interval, t: real)
    requires Sound(m) && s.radius != 0.0
    requires r.direction != ZeroVector
    requires Intervals.Contains(rayLength, t) && OnSphere(s, Rays.At(r, t))
    ensures var rec := Hit(m, s, r, rayLength);
      rec.Some? && rec.value.rayLength <= t
  {
    var q := Coefficients(s, r);
    OnSphereIffRoot(s, r, t);
    if Discriminant(q) < 0.0 {
      NoRoots(q, t);
    } else {
      Roots(m, q, t);
    }
  }

  /** A ray whose direction is zero misses: both roots are `0 / 0`. */
  lemma ZeroDirectionMisses(m: Libm, s: Sphere, r: Rays.Ray, rayLength: Intervals.Interval)
    requires s.radius != 0.0 && m.pi != 0.0
    requires r.direction == ZeroVector
    ensures Hit(m, s, r, rayLength).None?
  {
    assert Coefficients(s, r).a == 0.0;
  }

  /** Below 1 in square means within `[-1, 1]`. */
  lemma UnitRange(y: real)
    requires y * y <= 1.0
    ensures -1.0 <= y <= 1.0
  {
    if y > 1.0 {
      MulStrict(1.0, y);
    } else if y < -1.0 {
      MulStrict(1.0, -y);
    }
  }

  /** The outward normal at a surface point has length one. */
  lemma OutwardIsUnit(s: Sphere, p: Vec3)
    requires s.radius != 0.0 && OnSphere(s, p)
    ensures LengthSquared(Outward(s, p)) == 1.0
  {
    UnitHasLengthOne(Sub(p, s.center), s.radius);
  }

  /** A record at a surface point carries a unit normal and texture
      coordinates in the unit square. */
  lemma RecordNormalAndUv(m: Libm, s: Sphere, r: Rays.Ray, root: real)
    requires Sound(m) && s.radius != 0.0
    requires OnSphere(s, Rays.At(r, root))
    ensures var rec := Record(m, s, r, root);
      LengthSquared(rec.normal) == 1.0 && 0.0 <= rec.u <= 1.0 && 0.0 <= rec.v <= 1.0
  {
    var n := Outward(s, Rays.At(r, root));
    var rec := Record(m, s, r, root);
    OutwardIsUnit(s, Rays.At(r, root));
    NegKeepsLength(n);
    assert LengthSquared(rec.normal) == 1.0;
    OutwardHeight(n);
    assert (rec.u, rec.v) == SphereUv(m, n);
  }

  lemma NegKeepsLength(n: Vec3)
    ensures LengthSquared(Neg(n)) == LengthSquared(n)
  {
    assert (-n.x) * (-n.x) == n.x * n.x;
    assert (-n.y) * (-n.y) == n.y * n.y;
    assert (-n.z) * (-n.z) == n.z * n.z;
  }

  /** A unit vector's height is in [-1, 1]. */
  lemma OutwardHeight(n: Vec3)
    requires LengthSquared(n) == 1.0
    ensures -1.0 <= n.y <= 1.0
  {
    SquaresBelowSum(n.y, n.x, n.z, 1.0);
    UnitRange(n.y);
  }

  /** Every hit carries a unit normal and texture coordinates in the unit
      square. */
  lemma HitNormalAndUv(m: Libm, s: Sphere, r: Rays.Ray, rayLength: Intervals.Interval)
    requires Sound(m) && s.radius != 0.0
    ensures var rec := Hit(m, s, r, rayLength);
      rec.Some? ==> LengthSquared(rec.value.normal) == 1.0
                    && 0.0 <= rec.value.u <= 1.0 && 0.0 <= rec.value.v <= 1.0
  {
    var rec := Hit(m, s, r, rayLength);
    if rec.Some? {
      HitOnSurface(m, s, r, rayLength);
      RecordNormalAndUv(m, s, r, rec.value.rayLength);
    }
  }

  // ----- the sphere as a member of a list or a tree -----

  /** The sphere's nearest hit at or beyond `lo`, with no upper bound. */
  function First(m: Libm, s: Sphere, r: Rays.Ray, lo: ExtReal.XReal): (rec: Option<Materials.HitRecord>)
    requires s.radius != 0.0 && m.pi != 0.0
  {
    var q := Coefficients(s, r);
    if Discriminant(q) < 0.0 || q.a == 0.0 then None
    else PickRoot(m, s, r, Intervals.Interval(lo, ExtReal.PosInf), NearRoot(m, q), FarRoot(m, q))
  }

  /** A query `[lo, hi]` returns the nearest hit beyond `lo` when it is not
      beyond `hi`: the far root is only tried when the near one is out of
      range, and it is never nearer. */
  lemma AnswersQuery(m: Libm, s: Sphere, r: Rays.Ray, lo: ExtReal.XReal, hi: ExtReal.XReal)
    requires Sound(m) && s.radius != 0.0
    ensures Hit(m, s, r, Intervals.Interval(lo, hi)) == HittableLists.Clip(First(m, s, r, lo), hi)
  {
    var q := Coefficients(s, r);
    if Discriminant(q) >= 0.0 && q.a != 0.0 {
      Roots(m, q, 0.0);
    }
  }

  /** The element answer used by lists and trees of spheres: degenerate
      spheres of radius zero are kept out of the model. */
  function HitFn(m: Libm, r: Rays.Ray): (f: (Sphere, Intervals.Interval) -> Option<Materials.HitRecord>)
    ensures forall s: Sphere, i: Intervals.Interval :: s.radius != 0.0 && m.pi != 0.0 ==> f(s, i) == Hit(m, s, r, i)
  {
    (s: Sphere, i: Intervals.Interval) => if s.radius != 0.0 && m.pi != 0.0 then Hit(m, s, r, i) else None
  }

  function FirstFn(m: Libm, r: Rays.Ray, lo: ExtReal.XReal): (f: Sphere -> Option<Materials.HitRecord>)
    ensures forall s: Sphere :: s.radius != 0.0 && m.pi != 0.0 ==> f(s) == First(m, s, r, lo)
  {
    (s: Sphere) => if s.radius != 0.0 && m.pi != 0.0 then First(m, s, r, lo) else None
  }

  /** Spheres answer nearest-hit queries the way the list scan and the tree
      walk expect, so both return the nearest sphere hit. */
  lemma SpheresAnswerNearest(m: Libm, r: Rays.Ray, spheres: seq<Sphere>, lo: ExtReal.XReal)
    requires Sound(m)
    requires forall i :: 0 <= i < |spheres| ==> spheres[i].radius != 0.0
    ensures HittableLists.AnswersNearest(spheres, HitFn(m, r), lo, FirstFn(m, r, lo))
  {
    forall x, hi | x in spheres
      ensures HitFn(m, r)(x, Intervals.Interval(lo, hi)) == HittableLists.Clip(FirstFn(m, r, lo)(x), hi)
    {
      AnswersQuery(m, x, r, lo, hi);
    }
  }

  /** A list of spheres returns the nearest sphere hit within the interval. */
  lemma SphereListNearest(m: Libm, r: Rays.Ray, hl: HittableLists.HittableList<Sphere>, rayLength: Intervals.Interval)
    requires Sound(m)
    requires forall i :: 0 <= i < |hl.list| ==> hl.list[i].radius != 0.0
    ensures HittableLists.NearestIn(HittableLists.Hit(hl, HitFn(m, r), rayLength), hl.list,
                                    FirstFn(m, r, rayLength.min), rayLength.max)
  {
    SpheresAnswerNearest(m, r, hl.list, rayLength.min);
    HittableLists.ListHitNearest(hl, HitFn(m, r), FirstFn(m, r, rayLength.min), rayLength);
  }
}
