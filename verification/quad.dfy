/** Quads (hittable/quad.go): a parallelogram `q + a u + b v` with `a` and
    `b` in [0, 1], and the six-sided box built from them. */
module Quads {
  import opened Libm
  import opened Vectors
  import opened Wrappers
  import ExtReal
  import Intervals
  import Aabbs
  import Materials
  import Rays
  import Util
  import HittableLists

  /** `quad`: the corner `q`, the edges `u` and `v`, the unit normal, the
      plane offset `d = normal . q`, the dual vector `w = n / (n . n)` with
      `n = u × v`, the material and the box. */
  datatype Quad = Quad(q: Vec3, u: Vec3, v: Vec3, normal: Vec3, d: real, w: Vec3,
                       mat: Materials.Material, bBox: Aabbs.Aabb)

  /** The point with plane coordinates `a` along `u` and `b` along `v`. */
  function QuadPoint(qd: Quad, a: real, b: real): Vec3 {
    Add(Add(qd.q, MulS(qd.u, a)), MulS(qd.v, b))
  }

  /** Both plane coordinates in [0, 1]: a point of the parallelogram. */
  predicate Inside(a: real, b: real) {
    0.0 <= a <= 1.0 && 0.0 <= b <= 1.0
  }

  /** Edges that span a plane. Parallel edges give Go a NaN normal; the
      model gives them a zero normal instead, and such a quad is never hit
      (`DegenerateQuadNeverHit`). */
  predicate Spans(m: Libm, u: Vec3, v: Vec3) {
    Cross(u, v) != ZeroVector && Length(m, Cross(u, v)) != 0.0
  }

  // ----- bounding boxes -----

  /** The box `NewQuad` computes: the two points `q` and `q + u + v`. */
  function BoxAsWritten(q: Vec3, u: Vec3, v: Vec3): (box: Aabbs.Aabb)
    ensures Aabbs.ContainsPoint(box, q) && Aabbs.ContainsPoint(box, Add(Add(q, u), v))
  {
    var box := Aabbs.CreateAabbFromPoints(q, Add(Add(q, u), v));
    Aabbs.PadIfNeededKeepsPoint(box, q);
    Aabbs.PadIfNeededKeepsPoint(box, Add(Add(q, u), v));
    Aabbs.PadIfNeeded(box)
  }

  /** The corner `q + u` can lie outside that box: with `q` at the origin,
      `u = (1, 0, 0)` and `v = (-1, 0, 1)` the box is a thin slab around
      `x = 0` while `q + u` has `x = 1`. */
  lemma BoxAsWrittenMissesCorner()
    ensures !Aabbs.ContainsPoint(BoxAsWritten(ZeroVector, Vec3(1.0, 0.0, 0.0), Vec3(-1.0, 0.0, 1.0)),
                                 Add(ZeroVector, Vec3(1.0, 0.0, 0.0)))
  {
    var box := Aabbs.CreateAabbFromPoints(ZeroVector, Vec3(0.0, 0.0, 1.0));
    assert box.x == Intervals.Interval(ExtReal.Fin(0.0), ExtReal.Fin(0.0));
    assert Intervals.Size(box.x) == ExtReal.FromReal(0.0);
    var padded := Aabbs.PadIfNeeded(box);
    assert padded.x == Intervals.Expand(box.x, Aabbs.PadDelta);
    assert padded.x.max == ExtReal.Fin(0.00005);
  }

  /** The box of the four corners, before padding. */
  function CornerHull(q: Vec3, u: Vec3, v: Vec3): (box: Aabbs.Aabb)
    ensures Aabbs.Bounded(box) && Aabbs.NonInverted(box)
    ensures Aabbs.ContainsPoint(box, q) && Aabbs.ContainsPoint(box, Add(q, u))
    ensures Aabbs.ContainsPoint(box, Add(q, v)) && Aabbs.ContainsPoint(box, Add(Add(q, u), v))
  {
    Aabbs.CombineAabbs(Aabbs.CreateAabbFromPoints(q, Add(Add(q, u), v)),
                       Aabbs.CreateAabbFromPoints(Add(q, u), Add(q, v)))
  }

  /** The box of all four corners, padded where thin. */
  function CornerBox(q: Vec3, u: Vec3, v: Vec3): (box: Aabbs.Aabb)
    ensures forall a: real, b: real {:trigger Add(Add(q, MulS(u, a)), MulS(v, b))} ::
      Inside(a, b) ==> Aabbs.ContainsPoint(box, Add(Add(q, MulS(u, a)), MulS(v, b)))
  {
    forall a: real, b: real | Inside(a, b)
      ensures Aabbs.ContainsPoint(Aabbs.PadIfNeeded(CornerHull(q, u, v)), Add(Add(q, MulS(u, a)), MulS(v, b)))
    {
      HullContains(q, u, v, a, b);
    }
    Aabbs.PadIfNeeded(CornerHull(q, u, v))
  }

  /** Every point of the parallelogram is in the padded hull of its corners. */
  lemma HullContains(q: Vec3, u: Vec3, v: Vec3, a: real, b: real)
    requires Inside(a, b)
    ensures Aabbs.ContainsPoint(Aabbs.PadIfNeeded(CornerHull(q, u, v)), Add(Add(q, MulS(u, a)), MulS(v, b)))
  {
    var inner := CornerHull(q, u, v);
    var p := Add(Add(q, MulS(u, a)), MulS(v, b));
    BoxConvex(inner, q, u, v, a, b);
    Aabbs.PadIfNeededKeepsPoint(inner, p);
  }

  /** A bounded box holding the four corners holds the parallelogram. */
  lemma BoxConvex(box: Aabbs.Aabb, q: Vec3, u: Vec3, v: Vec3, a: real, b: real)
    requires Aabbs.Bounded(box) && Inside(a, b)
    requires Aabbs.ContainsPoint(box, q) && Aabbs.ContainsPoint(box, Add(q, u))
    requires Aabbs.ContainsPoint(box, Add(q, v)) && Aabbs.ContainsPoint(box, Add(Add(q, u), v))
    ensures Aabbs.ContainsPoint(box, Add(Add(q, MulS(u, a)), MulS(v, b)))
  {
    var p := Add(Add(q, MulS(u, a)), MulS(v, b));
    AxisConvex(box.x, p.x, q.x, u.x, v.x, a, b);
    AxisConvex(box.y, p.y, q.y, u.y, v.y, a, b);
    AxisConvex(box.z, p.z, q.z, u.z, v.z, a, b);
  }

  /** On one axis: an interval with finite ends holding the four corner
      coordinates holds every point of the parallelogram. */
  lemma AxisConvex(i: Intervals.Interval, x: real, q: real, u: real, v: real, a: real, b: real)
    requires i.min.Fin? && i.max.Fin?
    requires Intervals.Contains(i, q) && Intervals.Contains(i, q + u)
    requires Intervals.Contains(i, q + v) && Intervals.Contains(i, (q + u) + v)
    requires Inside(a, b) && x == (q + u * a) + v * b
    ensures Intervals.Contains(i, x)
  {
    Bilinear(i.min.r, q, u, v, a, b);
    Bilinear(-i.max.r, -q, -u, -v, a, b);
  }

  /** `q + a u + b v` is the weighted mean of the four corners with weights
      `(1-a)(1-b)`, `a(1-b)`, `(1-a)b` and `ab`, so it is above any lower
      bound of the corners. */
  lemma Bilinear(lo: real, q: real, u: real, v: real, a: real, b: real)
    requires lo <= q && lo <= q + u && lo <= q + v && lo <= (q + u) + v
    requires Inside(a, b)
    ensures lo <= (q + u * a) + v * b
  {
    var w00, w10, w01, w11 := (1.0 - a) * (1.0 - b), a * (1.0 - b), (1.0 - a) * b, a * b;
    assert (q + u * a) + v * b - lo
        == w00 * (q - lo) + w10 * ((q + u) - lo) + w01 * ((q + v) - lo) + w11 * (((q + u) + v) - lo);
    NonNegativeProduct(1.0 - a, 1.0 - b);
    NonNegativeProduct(a, 1.0 - b);
    NonNegativeProduct(1.0 - a, b);
    NonNegativeProduct(a, b);
    NonNegativeProduct(w00, q - lo);
    NonNegativeProduct(w10, (q + u) - lo);
    NonNegativeProduct(w01, (q + v) - lo);
    NonNegativeProduct(w11, ((q + u) + v) - lo);
  }

  lemma NonNegativeProduct(a: real, b: real)
    requires 0.0 <= a && 0.0 <= b
    ensures 0.0 <= a * b
  {}

  // ----- construction -----

  /** `NewQuad`, with the box of all four corners.  Parallel edges give Go
      the zero cross product and so a NaN normal, offset and dual vector;
      every comparison with NaN is false, so such a quad is never hit.  The
      model gives it the zero normal, offset and dual vector instead, which
      `Hit` rejects as parallel to every ray. */
  function NewQuad(m: Libm, q: Vec3, u: Vec3, v: Vec3, mat: Materials.Material): (qd: Quad)
    ensures qd.q == q && qd.u == u && qd.v == v && qd.mat == mat
    ensures forall a: real, b: real {:trigger QuadPoint(qd, a, b)} ::
      Inside(a, b) ==> Aabbs.ContainsPoint(qd.bBox, QuadPoint(qd, a, b))
    ensures Spans(m, u, v) ==>
      && Dot(qd.normal, u) == 0.0 && Dot(qd.normal, v) == 0.0
      && (Sound(m) ==> LengthSquared(qd.normal) == 1.0)
      && Dot(qd.normal, q) == qd.d
      && Dot(qd.w, Cross(u, v)) == 1.0
    ensures !Spans(m, u, v) ==> qd.normal == ZeroVector
  {
    var n := Cross(u, v);
    if Spans(m, u, v) then
      var normal := Unit(m, n);
      NormalInPlane(u, v, 1.0 / Length(m, n));
      DualVector(n);
      Quad(q, u, v, normal, Dot(normal, q), DivS(n, Dot(n, n)), mat, CornerBox(q, u, v))
    else
      Quad(q, u, v, ZeroVector, 0.0, ZeroVector, mat, CornerBox(q, u, v))
  }

  /** A quad whose edges do not span a plane is hit by no ray. */
  lemma DegenerateQuadNeverHit(m: Libm, q: Vec3, u: Vec3, v: Vec3, mat: Materials.Material, r: Rays.Ray, rayLength: Intervals.Interval)
    requires !Spans(m, u, v)
    ensures Hit(NewQuad(m, q, u, v, mat), r, rayLength).None?
  {
    ZeroNormalNeverHit(NewQuad(m, q, u, v, mat), r, rayLength);
  }

  lemma ZeroNormalNeverHit(qd: Quad, r: Rays.Ray, rayLength: Intervals.Interval)
    requires qd.normal == ZeroVector
    ensures Hit(qd, r, rayLength).None?
  {
    assert Dot(ZeroVector, r.direction) == 0.0;
  }

  /** A multiple of `u × v` is perpendicular to both edges. */
  lemma NormalInPlane(u: Vec3, v: Vec3, k: real)
    ensures Dot(MulS(Cross(u, v), k), u) == 0.0 && Dot(MulS(Cross(u, v), k), v) == 0.0
  {
    CrossOrthogonal(u, v);
    DotMulSLeft(Cross(u, v), k, u);
    DotMulSLeft(Cross(u, v), k, v);
  }

  /** `n / (n . n)` has dot product one with `n`. */
  lemma DualVector(n: Vec3)
    requires n != ZeroVector
    ensures Dot(n, n) != 0.0
    ensures Dot(DivS(n, Dot(n, n)), n) == 1.0
  {
    LengthSquaredIsSelfDot(n);
    DualDot(n, Dot(n, n));
  }

  lemma DualDot(n: Vec3, k: real)
    requires k != 0.0 && k == Dot(n, n)
    ensures Dot(DivS(n, k), n) == 1.0
  {
    DotDivSLeft(n, k, n);
    SelfRatio(Dot(DivS(n, k), n), k);
  }

  lemma SelfRatio(r: real, k: real)
    requires k != 0.0 && r == k / k
    ensures r == 1.0
  {}

  /** Multiplying by `k` and then dividing by it gives the number back. */
  lemma Cancel(a: real, k: real)
    requires k != 0.0
    ensures (a * k) / k == a
  {}

  /** A quad as `NewQuad` builds it. */
  ghost predicate Built(m: Libm, qd: Quad) {
    Spans(m, qd.u, qd.v) && qd == NewQuad(m, qd.q, qd.u, qd.v, qd.mat)
  }

  // ----- hits -----

  /** The record of a hit at distance `t` with plane coordinates `alpha` and
      `beta`. */
  function Record(qd: Quad, r: Rays.Ray, t: real, alpha: real, beta: real): (rec: Materials.HitRecord)
    ensures rec.hitPoint == Rays.At(r, t) && rec.rayLength == t && rec.material == qd.mat
    ensures rec.u == alpha && rec.v == beta
    ensures rec.frontFace <==> Dot(r.direction, qd.normal) < 0.0
    ensures rec.normal == (if rec.frontFace then qd.normal else Neg(qd.normal))
    ensures Dot(r.direction, rec.normal) <= 0.0
  {
    var frontFace := Dot(r.direction, qd.normal) < 0.0;
    var normal := if frontFace then qd.normal else Neg(qd.normal);
    assert Dot(r.direction, Neg(qd.normal)) == -Dot(r.direction, qd.normal);
    Materials.HitRecord(Rays.At(r, t), normal, qd.mat, t, alpha, beta, frontFace)
  }

  /** The plane coordinate along `u` of the in-plane vector `p`. */
  function Alpha(qd: Quad, p: Vec3): real {
    Dot(qd.w, Cross(p, qd.v))
  }

  /** The plane coordinate along `v` of the in-plane vector `p`. */
  function Beta(qd: Quad, p: Vec3): real {
    Dot(qd.w, Cross(qd.u, p))
  }

  /** Where the ray meets the quad's plane. */
  function PlaneDistance(qd: Quad, r: Rays.Ray): real
    requires Dot(qd.normal, r.direction) != 0.0
  {
    (qd.d - Dot(qd.normal, r.origin)) / Dot(qd.normal, r.direction)
  }

  /** `Hit`: a near-parallel ray misses; otherwise the plane crossing must lie
      in the interval and inside the parallelogram. */
  function Hit(qd: Quad, r: Rays.Ray, rayLength: Intervals.Interval): (rec: Option<Materials.HitRecord>)
    ensures Abs(Dot(qd.normal, r.direction)) < Util.AlmostZero ==> rec.None?
    ensures rec.Some? ==> Intervals.Contains(rayLength, rec.value.rayLength)
    ensures rec.Some? ==> Dot(qd.normal, rec.value.hitPoint) == qd.d
    ensures rec.Some? ==> Inside(rec.value.u, rec.value.v)
    ensures rec.Some? ==>
      && rec.value.rayLength == PlaneDistance(qd, r)
      && rec.value == Record(qd, r, PlaneDistance(qd, r), Alpha(qd, Sub(Rays.At(r, PlaneDistance(qd, r)), qd.q)),
                             Beta(qd, Sub(Rays.At(r, PlaneDistance(qd, r)), qd.q)))
  {
    var denom := Dot(qd.normal, r.direction);
    if Abs(denom) < Util.AlmostZero then None
    else
      var t := PlaneDistance(qd, r);
      if !Intervals.Contains(rayLength, t) then None
      else
        var intersection := Rays.At(r, t);
        var planar := Sub(intersection, qd.q);
        var alpha := Alpha(qd, planar);
        var beta := Beta(qd, planar);
        if alpha < 0.0 || 1.0 < alpha || beta < 0.0 || 1.0 < beta then None
        else
          OnPlane(qd, r, t);
          Some(Record(qd, r, t, alpha, beta))
  }

  /** `normal . At(r, t)` grows by `normal . dir` per unit of distance. */
  lemma DotAlongRay(n: Vec3, r: Rays.Ray, t: real)
    ensures Dot(n, Rays.At(r, t)) == Dot(n, r.origin) + t * Dot(n, r.direction)
  {
    DotSymmetric(n, Rays.At(r, t));
    DotSymmetric(n, r.origin);
    DotSymmetric(n, r.direction);
    DotMulSLeft(r.direction, t, n);
  }

  /** The point at `PlaneDistance` lies on the plane. */
  lemma OnPlane(qd: Quad, r: Rays.Ray, t: real)
    requires Dot(qd.normal, r.direction) != 0.0 && t == PlaneDistance(qd, r)
    ensures Dot(qd.normal, Rays.At(r, t)) == qd.d
  {
    DotAlongRay(qd.normal, r, t);
    var denom := Dot(qd.normal, r.direction);
    assert t * denom == qd.d - Dot(qd.normal, r.origin);
  }

  /** In a built quad, an in-plane vector is recovered from its coordinates:
      `p = Alpha(p) u + Beta(p) v` whenever `normal . p = 0`. */
  lemma PlaneCoordinates(m: Libm, qd: Quad, p: Vec3)
    requires Built(m, qd)
    requires Dot(qd.normal, p) == 0.0
    ensures p == Add(MulS(qd.u, Alpha(qd, p)), MulS(qd.v, Beta(qd, p)))
  {
    var n := Cross(qd.u, qd.v);
    DualVector(n);
    assert HasDual(qd);
    var l := Length(m, n);
    assert qd.normal == MulS(n, 1.0 / l);
    DotMulSLeft(n, 1.0 / l, p);
    assert Dot(n, p) == 0.0;
    DualCoordinates(qd, p);
  }

  /** The same, for any quad whose `w` is the dual vector and any `p`
      perpendicular to `u × v`. */
  lemma DualCoordinates(qd: Quad, p: Vec3)
    requires HasDual(qd)
    requires Dot(Cross(qd.u, qd.v), p) == 0.0
    ensures p == Add(MulS(qd.u, Alpha(qd, p)), MulS(qd.v, Beta(qd, p)))
  {
    var u, v := qd.u, qd.v;
    var n := Cross(u, v);
    var nn := Dot(n, n);
    ReciprocalBasis(u, v, n, p);
    TripleCyclic(u, v, n);
    DotSymmetric(p, n);
    AlphaIs(qd, p);
    BetaIs(qd, p);
    DivideBasis(p, u, v, n, Dot(p, Cross(v, n)), Dot(p, Cross(n, u)), nn);
  }

  lemma AlphaIs(qd: Quad, p: Vec3)
    requires HasDual(qd)
    ensures var n := Cross(qd.u, qd.v); Alpha(qd, p) == Dot(p, Cross(qd.v, n)) / Dot(n, n)
  {
    var n := Cross(qd.u, qd.v);
    TripleCyclic(n, p, qd.v);
    DotDivSLeft(n, Dot(n, n), Cross(p, qd.v));
  }

  lemma BetaIs(qd: Quad, p: Vec3)
    requires HasDual(qd)
    ensures var n := Cross(qd.u, qd.v); Beta(qd, p) == Dot(p, Cross(n, qd.u)) / Dot(n, n)
  {
    var n := Cross(qd.u, qd.v);
    TripleCyclic(n, qd.u, p);
    TripleCyclic(p, n, qd.u);
    DotDivSLeft(n, Dot(n, n), Cross(qd.u, p));
  }

  lemma DotDivSLeft(n: Vec3, k: real, c: Vec3)
    requires k != 0.0
    ensures Dot(DivS(n, k), c) == Dot(n, c) / k
  {
    assert (n.x / k) * c.x == (n.x * c.x) / k;
    assert (n.y / k) * c.y == (n.y * c.y) / k;
    assert (n.z / k) * c.z == (n.z * c.z) / k;
  }

  /** Dividing `p nn = u aa + v bb + n 0` by `nn`. */
  lemma DivideBasis(p: Vec3, u: Vec3, v: Vec3, n: Vec3, aa: real, bb: real, nn: real)
    requires nn != 0.0
    requires MulS(p, nn) == Add(Add(MulS(u, aa), MulS(v, bb)), MulS(n, 0.0))
    ensures p == Add(MulS(u, aa / nn), MulS(v, bb / nn))
  {
    var q := Add(MulS(u, aa / nn), MulS(v, bb / nn));
    BasisComponents(p, u, v, n, aa, bb, nn);
    DivideAxes(p, u, v, n, aa, bb, nn);
    SameComponents(p, q);
  }

  /** `DivideBasis` one axis at a time. */
  lemma DivideAxes(p: Vec3, u: Vec3, v: Vec3, n: Vec3, aa: real, bb: real, nn: real)
    requires nn != 0.0
    requires p.x * nn == (u.x * aa + v.x * bb) + n.x * 0.0
    requires p.y * nn == (u.y * aa + v.y * bb) + n.y * 0.0
    requires p.z * nn == (u.z * aa + v.z * bb) + n.z * 0.0
    ensures p.x == u.x * (aa / nn) + v.x * (bb / nn)
    ensures p.y == u.y * (aa / nn) + v.y * (bb / nn)
    ensures p.z == u.z * (aa / nn) + v.z * (bb / nn)
  {
    DivideComponent(p.x, u.x, v.x, n.x, aa, bb, nn);
    DivideComponent(p.y, u.y, v.y, n.y, aa, bb, nn);
    DivideComponent(p.z, u.z, v.z, n.z, aa, bb, nn);
  }

  /** The vector equation of `DivideBasis`, one axis at a time. */
  lemma BasisComponents(p: Vec3, u: Vec3, v: Vec3, n: Vec3, aa: real, bb: real, nn: real)
    requires MulS(p, nn) == Add(Add(MulS(u, aa), MulS(v, bb)), MulS(n, 0.0))
    ensures p.x * nn == (u.x * aa + v.x * bb) + n.x * 0.0
    ensures p.y * nn == (u.y * aa + v.y * bb) + n.y * 0.0
    ensures p.z * nn == (u.z * aa + v.z * bb) + n.z * 0.0
  {}

  lemma DivideComponent(p: real, u: real, v: real, n: real, aa: real, bb: real, nn: real)
    requires nn != 0.0
    requires p * nn == (u * aa + v * bb) + n * 0.0
    ensures p == u * (aa / nn) + v * (bb / nn)
  {
    Cancel(p, nn);
    assert p * nn == u * aa + v * bb;
    SplitRatio(u * aa, v * bb, nn);
    assert (u * aa) / nn == u * (aa / nn);
    assert (v * bb) / nn == v * (bb / nn);
  }

  lemma SplitRatio(x: real, y: real, k: real)
    requires k != 0.0
    ensures (x + y) / k == x / k + y / k
  {
    assert (x / k + y / k) * k == x + y;
  }

  /** A hit of a built quad is the point of the parallelogram with the
      record's texture coordinates as its plane coordinates. */
  lemma HitInQuad(m: Libm, qd: Quad, r: Rays.Ray, rayLength: Intervals.Interval)
    requires Built(m, qd)
    requires Hit(qd, r, rayLength).Some?
    ensures var rec := Hit(qd, r, rayLength).value;
      Inside(rec.u, rec.v) && rec.hitPoint == QuadPoint(qd, rec.u, rec.v)
  {
    var rec := Hit(qd, r, rayLength).value;
    var planar := Sub(rec.hitPoint, qd.q);
    assert Dot(qd.normal, planar) == 0.0 by {
      DotSubLeft(rec.hitPoint, qd.q, qd.normal);
      DotSymmetric(rec.hitPoint, qd.normal);
      DotSymmetric(qd.q, qd.normal);
    }
    PlaneCoordinates(m, qd, planar);
  }

  /** Every point of the parallelogram met within the interval by a ray that
      is not near-parallel is found, at that distance and with those plane
      coordinates. */
  lemma HitFindsQuad(m: Libm, qd: Quad, r: Rays.Ray, rayLength: Intervals.Interval, a: real, b: real, t: real)
    requires Built(m, qd)
    requires Abs(Dot(qd.normal, r.direction)) >= Util.AlmostZero
    requires Inside(a, b) && Intervals.Contains(rayLength, t)
    requires Rays.At(r, t) == QuadPoint(qd, a, b)
    ensures Hit(qd, r, rayLength).Some?
    ensures Hit(qd, r, rayLength).value.rayLength == t
    ensures Hit(qd, r, rayLength).value.u == a && Hit(qd, r, rayLength).value.v == b
  {
    DistanceRecovered(qd, r, a, b, t);
    DualVector(Cross(qd.u, qd.v));
    assert HasDual(qd);
    AlphaRecovered(qd, a, b);
    BetaRecovered(qd, a, b);
  }

  /** The ray meets the plane of a point of the parallelogram at
      `PlaneDistance`. */
  lemma DistanceRecovered(qd: Quad, r: Rays.Ray, a: real, b: real, t: real)
    requires Dot(qd.normal, qd.u) == 0.0 && Dot(qd.normal, qd.v) == 0.0 && Dot(qd.normal, qd.q) == qd.d
    requires Dot(qd.normal, r.direction) != 0.0
    requires Rays.At(r, t) == QuadPoint(qd, a, b)
    ensures t == PlaneDistance(qd, r)
  {
    var denom := Dot(qd.normal, r.direction);
    DotAlongRay(qd.normal, r, t);
    PlaneOffset(qd, a, b);
    assert t * denom == qd.d - Dot(qd.normal, r.origin);
    Cancel(t, denom);
  }

  /** The in-plane vector from `q` to the point with coordinates `(a, b)`. */
  lemma PlanarOffset(qd: Quad, a: real, b: real)
    ensures Sub(QuadPoint(qd, a, b), qd.q) == Add(Add(MulS(qd.u, a), MulS(qd.v, b)), MulS(Cross(qd.u, qd.v), 0.0))
  {}

  /** `w` is the dual vector of the edges, as `NewQuad` sets it. */
  predicate HasDual(qd: Quad) {
    var n := Cross(qd.u, qd.v);
    Dot(n, n) != 0.0 && qd.w == DivS(n, Dot(n, n))
  }

  /** `Alpha` recovers the coordinate along `u`. */
  lemma AlphaRecovered(qd: Quad, a: real, b: real)
    requires HasDual(qd)
    ensures Alpha(qd, Sub(QuadPoint(qd, a, b), qd.q)) == a
  {
    var u, v := qd.u, qd.v;
    var n := Cross(u, v);
    var planar := Sub(QuadPoint(qd, a, b), qd.q);
    var nn := Dot(n, n);
    PlanarOffset(qd, a, b);
    AlphaOfCombination(u, v, planar, a, b);
    assert Dot(n, Cross(planar, v)) == a * nn;
    DotDivSLeft(n, nn, Cross(planar, v));
    Cancel(a, nn);
  }

  /** With `n = u × v`, `n . (p × v)` reads `a (n . n)` off `p = a u + b v`. */
  lemma AlphaOfCombination(u: Vec3, v: Vec3, p: Vec3, a: real, b: real)
    requires p == Add(Add(MulS(u, a), MulS(v, b)), MulS(Cross(u, v), 0.0))
    ensures Dot(Cross(u, v), Cross(p, v)) == a * Dot(Cross(u, v), Cross(u, v))
  {
    var n := Cross(u, v);
    TripleCyclic(n, p, v);
    Coefficient(u, v, n, a, b, 0.0);
    TripleCyclic(u, v, n);
  }

  /** With `n = u × v`, `n . (u × p)` reads `b (n . n)` off `p = a u + b v`. */
  lemma BetaOfCombination(u: Vec3, v: Vec3, p: Vec3, a: real, b: real)
    requires p == Add(Add(MulS(u, a), MulS(v, b)), MulS(Cross(u, v), 0.0))
    ensures Dot(Cross(u, v), Cross(u, p)) == b * Dot(Cross(u, v), Cross(u, v))
  {
    var n := Cross(u, v);
    assert p == Add(Add(MulS(v, b), MulS(n, 0.0)), MulS(u, a));
    TripleCyclic(n, u, p);
    Coefficient(v, n, u, b, 0.0, a);
    TripleCyclic(u, v, n);
  }

  /** `Beta` recovers the coordinate along `v`. */
  lemma BetaRecovered(qd: Quad, a: real, b: real)
    requires HasDual(qd)
    ensures Beta(qd, Sub(QuadPoint(qd, a, b), qd.q)) == b
  {
    var u, v := qd.u, qd.v;
    var n := Cross(u, v);
    var planar := Sub(QuadPoint(qd, a, b), qd.q);
    var nn := Dot(n, n);
    PlanarOffset(qd, a, b);
    BetaOfCombination(u, v, planar, a, b);
    assert Dot(n, Cross(u, planar)) == b * nn;
    DotDivSLeft(n, nn, Cross(u, planar));
    assert Dot(n, Cross(u, planar)) == b * nn;
    Cancel(b, nn);
  }

  /** Every point of the parallelogram lies on the plane `normal . x = d`. */
  lemma PlaneOffset(qd: Quad, a: real, b: real)
    requires Dot(qd.normal, qd.u) == 0.0 && Dot(qd.normal, qd.v) == 0.0 && Dot(qd.normal, qd.q) == qd.d
    ensures Dot(qd.normal, QuadPoint(qd, a, b)) == qd.d
  {
    DotSymmetric(qd.normal, QuadPoint(qd, a, b));
    DotCombination(qd.u, qd.v, a, b, qd.normal);
    DotSymmetric(qd.u, qd.normal);
    DotSymmetric(qd.v, qd.normal);
    DotSymmetric(qd.q, qd.normal);
  }

  /** Both directions together: a built quad is hit exactly when the ray is
      not near-parallel and meets a point of the parallelogram within the
      interval. */
  lemma HitIffMeetsQuad(m: Libm, qd: Quad, r: Rays.Ray, rayLength: Intervals.Interval)
    requires Built(m, qd)
    ensures Hit(qd, r, rayLength).Some? <==>
      Abs(Dot(qd.normal, r.direction)) >= Util.AlmostZero &&
      exists a: real, b: real, t: real :: Inside(a, b) && Intervals.Contains(rayLength, t) && Rays.At(r, t) == QuadPoint(qd, a, b)
  {
    if Hit(qd, r, rayLength).Some? {
      HitInQuad(m, qd, r, rayLength);
      var rec := Hit(qd, r, rayLength).value;
      assert Inside(rec.u, rec.v) && Intervals.Contains(rayLength, rec.rayLength) && Rays.At(r, rec.rayLength) == QuadPoint(qd, rec.u, rec.v);
    } else if Abs(Dot(qd.normal, r.direction)) >= Util.AlmostZero {
      if exists a: real, b: real, t: real :: Inside(a, b) && Intervals.Contains(rayLength, t) && Rays.At(r, t) == QuadPoint(qd, a, b) {
        var a: real, b: real, t: real :| Inside(a, b) && Intervals.Contains(rayLength, t) && Rays.At(r, t) == QuadPoint(qd, a, b);
        HitFindsQuad(m, qd, r, rayLength, a, b, t);
      }
    }
  }

  // ----- nearest hits -----

  /** The quad's only candidate hit at or beyond `lo`. */
  function First(qd: Quad, r: Rays.Ray, lo: ExtReal.XReal): Option<Materials.HitRecord> {
    Hit(qd, r, Intervals.Interval(lo, ExtReal.PosInf))
  }

  /** A query `[lo, hi]` returns the candidate when it is not beyond `hi`. */
  lemma AnswersQuery(qd: Quad, r: Rays.Ray, lo: ExtReal.XReal, hi: ExtReal.XReal)
    ensures Hit(qd, r, Intervals.Interval(lo, hi)) == HittableLists.Clip(First(qd, r, lo), hi)
    ensures First(qd, r, lo).Some? ==> ExtReal.Le(lo, ExtReal.Fin(First(qd, r, lo).value.rayLength))
  {}

  function HitFn(r: Rays.Ray): (f: (Quad, Intervals.Interval) -> Option<Materials.HitRecord>)
    ensures forall qd: Quad, i: Intervals.Interval :: f(qd, i) == Hit(qd, r, i)
  {
    (qd: Quad, i: Intervals.Interval) => Hit(qd, r, i)
  }

  function FirstFn(r: Rays.Ray, lo: ExtReal.XReal): (f: Quad -> Option<Materials.HitRecord>)
    ensures forall qd: Quad :: f(qd) == First(qd, r, lo)
  {
    (qd: Quad) => First(qd, r, lo)
  }

  /** Quads answer nearest-hit queries the way the list scan and the tree
      walk expect, so a box (a list of six quads) returns its nearest side. */
  lemma QuadsAnswerNearest(r: Rays.Ray, quads: seq<Quad>, lo: ExtReal.XReal)
    ensures HittableLists.AnswersNearest(quads, HitFn(r), lo, FirstFn(r, lo))
  {
    forall x, hi | x in quads
      ensures HitFn(r)(x, Intervals.Interval(lo, hi)) == HittableLists.Clip(FirstFn(r, lo)(x), hi)
    {
      AnswersQuery(x, r, lo, hi);
    }
    forall x | x in quads && FirstFn(r, lo)(x).Some?
      ensures ExtReal.Le(lo, ExtReal.Fin(FirstFn(r, lo)(x).value.rayLength))
    {
      AnswersQuery(x, r, lo, ExtReal.PosInf);
    }
  }

  // ----- boxes -----

  function Min(a: real, b: real): real {
    if a < b then a else b
  }

  function Max(a: real, b: real): real {
    if a < b then b else a
  }

  /** The corner and edges of one side of a box, before `NewQuad` turns them
      into a quad. */
  datatype Frame = Frame(q: Vec3, u: Vec3, v: Vec3)

  /** The point with plane coordinates `a` and `b` of a frame. */
  function FramePoint(f: Frame, a: real, b: real): Vec3 {
    Add(Add(f.q, MulS(f.u, a)), MulS(f.v, b))
  }

  /** The edges of the box between `lo` and `hi`. */
  function EdgeX(lo: Vec3, hi: Vec3): Vec3 { Vec3(hi.x - lo.x, 0.0, 0.0) }
  function EdgeY(lo: Vec3, hi: Vec3): Vec3 { Vec3(0.0, hi.y - lo.y, 0.0) }
  function EdgeZ(lo: Vec3, hi: Vec3): Vec3 { Vec3(0.0, 0.0, hi.z - lo.z) }

  /** The frames of the six sides of the box between `lo` and `hi`, in the
      order `NewBox` adds them: front, right, back, left, top, bottom. */
  function Frames(lo: Vec3, hi: Vec3): (fs: seq<Frame>)
    ensures |fs| == 6
  {
    var dx, dy, dz := EdgeX(lo, hi), EdgeY(lo, hi), EdgeZ(lo, hi);
    [ Frame(Vec3(lo.x, lo.y, hi.z), dx, dy),
      Frame(Vec3(hi.x, lo.y, hi.z), Neg(dz), dy),
      Frame(Vec3(hi.x, lo.y, lo.z), Neg(dx), dy),
      Frame(Vec3(lo.x, lo.y, lo.z), dz, dy),
      Frame(Vec3(lo.x, hi.y, hi.z), dx, Neg(dz)),
      Frame(Vec3(lo.x, lo.y, lo.z), dx, dz) ]
  }

  /** The six sides: `NewQuad` of each frame. */
  function Sides(m: Libm, lo: Vec3, hi: Vec3, mat: Materials.Material): (sides: seq<Quad>)
    ensures |sides| == 6
    ensures forall i :: 0 <= i < 6 ==> sides[i].mat == mat
    ensures forall i :: 0 <= i < 6 ==> sides[i] == NewQuad(m, Frames(lo, hi)[i].q, Frames(lo, hi)[i].u, Frames(lo, hi)[i].v, mat)
    ensures forall i, a, b :: 0 <= i < 6 ==> QuadPoint(sides[i], a, b) == FramePoint(Frames(lo, hi)[i], a, b)
  {
    var fs := Frames(lo, hi);
    seq(6, i requires 0 <= i < 6 => NewQuad(m, fs[i].q, fs[i].u, fs[i].v, mat))
  }

  /** The edges of every frame span a plane. */
  lemma FramesSpan(m: Libm, lo: Vec3, hi: Vec3)
    ensures Sound(m) && lo.x < hi.x && lo.y < hi.y && lo.z < hi.z ==>
      forall i :: 0 <= i < 6 ==> Spans(m, Frames(lo, hi)[i].u, Frames(lo, hi)[i].v)
  {
    if Sound(m) && lo.x < hi.x && lo.y < hi.y && lo.z < hi.z {
      SpansAxes(m, EdgeX(lo, hi), EdgeY(lo, hi), EdgeZ(lo, hi));
    }
  }

  /** The edge pairs of the six sides span planes. */
  lemma SpansAxes(m: Libm, dx: Vec3, dy: Vec3, dz: Vec3)
    requires Sound(m)
    requires dx.x > 0.0 && dx.y == 0.0 && dx.z == 0.0
    requires dy.x == 0.0 && dy.y > 0.0 && dy.z == 0.0
    requires dz.x == 0.0 && dz.y == 0.0 && dz.z > 0.0
    ensures Spans(m, dx, dy) && Spans(m, Neg(dz), dy) && Spans(m, Neg(dx), dy)
    ensures Spans(m, dz, dy) && Spans(m, dx, Neg(dz)) && Spans(m, dx, dz)
  {
    SpansIfNonZero(m, dx, dy);
    SpansIfNonZero(m, Neg(dz), dy);
    SpansIfNonZero(m, Neg(dx), dy);
    SpansIfNonZero(m, dz, dy);
    SpansIfNonZero(m, dx, Neg(dz));
    SpansIfNonZero(m, dx, dz);
  }

  /** The edge pairs of the two sides in an `x` plane span it. */
  lemma SpansYZ(m: Libm, dy: Vec3, dz: Vec3)
    requires Sound(m)
    requires dy.x == 0.0 && dy.y > 0.0 && dy.z == 0.0
    requires dz.x == 0.0 && dz.y == 0.0 && dz.z > 0.0
    ensures Spans(m, Neg(dz), dy) && Spans(m, dz, dy)
  {
    SpansIfNonZero(m, Neg(dz), dy);
    SpansIfNonZero(m, dz, dy);
  }

  lemma SpansIfNonZero(m: Libm, u: Vec3, v: Vec3)
    requires Sound(m) && Cross(u, v) != ZeroVector
    ensures Spans(m, u, v)
  {
    LengthPositive(m, Cross(u, v));
  }

  /** The lower and upper corners of the box spanned by `a` and `b`. */
  function LowCorner(a: Vec3, b: Vec3): Vec3 {
    Vec3(Min(a.x, b.x), Min(a.y, b.y), Min(a.z, b.z))
  }

  function HighCorner(a: Vec3, b: Vec3): Vec3 {
    Vec3(Max(a.x, b.x), Max(a.y, b.y), Max(a.z, b.z))
  }

  /** `NewBox`: a list of the six sides.  Every side of a box with volume
      spans a plane. */
  function NewBox(m: Libm, a: Vec3, b: Vec3, mat: Materials.Material): (box: HittableLists.HittableList<Quad>)
    ensures box.list == Sides(m, LowCorner(a, b), HighCorner(a, b), mat)
    ensures HittableLists.BoxCovers(box, (qd: Quad) => qd.bBox)
    ensures Sound(m) && a.x != b.x && a.y != b.y && a.z != b.z ==>
      forall i :: 0 <= i < |box.list| ==> Spans(m, box.list[i].u, box.list[i].v)
  {
    var sides := Sides(m, LowCorner(a, b), HighCorner(a, b), mat);
    FramesSpan(m, LowCorner(a, b), HighCorner(a, b));
    HittableLists.FromSeqCovers(sides, (qd: Quad) => qd.bBox);
    HittableLists.FromSeq(sides, (qd: Quad) => qd.bBox)
  }

  /** A box flat across `x` keeps only its two sides in the `x` plane (the
      right and left sides, coinciding); the other four have parallel edges
      and are never hit. */
  lemma FlatBoxKeepsTwoSides(m: Libm, a: Vec3, b: Vec3, mat: Materials.Material, r: Rays.Ray, rayLength: Intervals.Interval)
    requires Sound(m)
    requires a.x == b.x && a.y != b.y && a.z != b.z
    ensures var sides := NewBox(m, a, b, mat).list;
      && Spans(m, sides[1].u, sides[1].v) && Spans(m, sides[3].u, sides[3].v)
      && Hit(sides[0], r, rayLength).None? && Hit(sides[2], r, rayLength).None?
      && Hit(sides[4], r, rayLength).None? && Hit(sides[5], r, rayLength).None?
  {
    var lo, hi := LowCorner(a, b), HighCorner(a, b);
    var fs := Frames(lo, hi);
    SpansYZ(m, EdgeY(lo, hi), EdgeZ(lo, hi));
    var sides := Sides(m, lo, hi, mat);
    FlatSideHasNoNormal(m, lo, hi, mat, 0);
    FlatSideHasNoNormal(m, lo, hi, mat, 2);
    FlatSideHasNoNormal(m, lo, hi, mat, 4);
    FlatSideHasNoNormal(m, lo, hi, mat, 5);
    ZeroNormalNeverHit(sides[0], r, rayLength);
    ZeroNormalNeverHit(sides[2], r, rayLength);
    ZeroNormalNeverHit(sides[4], r, rayLength);
    ZeroNormalNeverHit(sides[5], r, rayLength);
  }

  /** A side with an edge along `x` of a box flat across `x` has no plane. */
  lemma FlatSideHasNoNormal(m: Libm, lo: Vec3, hi: Vec3, mat: Materials.Material, i: int)
    requires lo.x == hi.x && (i == 0 || i == 2 || i == 4 || i == 5)
    ensures Sides(m, lo, hi, mat)[i].normal == ZeroVector
  {
    FlatFrameDegenerate(lo, hi, i);
  }

  lemma FlatFrameDegenerate(lo: Vec3, hi: Vec3, i: int)
    requires lo.x == hi.x && (i == 0 || i == 2 || i == 4 || i == 5)
    ensures Cross(Frames(lo, hi)[i].u, Frames(lo, hi)[i].v) == ZeroVector
  {
    assert EdgeX(lo, hi) == ZeroVector;
    assert Neg(ZeroVector) == ZeroVector;
  }

  /** The box does not depend on the order of its two corners. */
  lemma NewBoxSymmetric(m: Libm, a: Vec3, b: Vec3, mat: Materials.Material)
    ensures NewBox(m, a, b, mat) == NewBox(m, b, a, mat)
  {
    assert LowCorner(a, b) == LowCorner(b, a);
    assert HighCorner(a, b) == HighCorner(b, a);
  }

  /** The point a fraction `s` of the way from `lo` to `hi`. */
  function Lerp(lo: real, hi: real, s: real): real {
    lo + (hi - lo) * s
  }

  lemma LerpBetween(lo: real, hi: real, s: real)
    requires lo < hi && 0.0 <= s <= 1.0
    ensures lo <= Lerp(lo, hi, s) <= hi
  {
    NonNegativeProduct(hi - lo, s);
    NonNegativeProduct(hi - lo, 1.0 - s);
  }

  /** The fraction of the way from `lo` to `hi` at which `x` lies. */
  function Fraction(lo: real, hi: real, x: real): (f: real)
    requires lo < hi && lo <= x <= hi
    ensures 0.0 <= f <= 1.0
    ensures Lerp(lo, hi, f) == x
  {
    var f := (x - lo) / (hi - lo);
    RatioBetween(x - lo, hi - lo, f);
    f
  }

  /** `a / k` undone by multiplying by `k`, and in [0, 1] when `a` is. */
  lemma RatioBetween(a: real, k: real, f: real)
    requires 0.0 <= a <= k && k != 0.0 && f == a / k
    ensures k * f == a && 0.0 <= f <= 1.0
  {}

  /** The points of each side, coordinate by coordinate. */
  lemma FramePoints(lo: Vec3, hi: Vec3, a: real, b: real)
    ensures FramePoint(Frames(lo, hi)[0], a, b) == Vec3(Lerp(lo.x, hi.x, a), Lerp(lo.y, hi.y, b), hi.z)
    ensures FramePoint(Frames(lo, hi)[1], a, b) == Vec3(hi.x, Lerp(lo.y, hi.y, b), Lerp(lo.z, hi.z, 1.0 - a))
    ensures FramePoint(Frames(lo, hi)[2], a, b) == Vec3(Lerp(lo.x, hi.x, 1.0 - a), Lerp(lo.y, hi.y, b), lo.z)
    ensures FramePoint(Frames(lo, hi)[3], a, b) == Vec3(lo.x, Lerp(lo.y, hi.y, b), Lerp(lo.z, hi.z, a))
    ensures FramePoint(Frames(lo, hi)[4], a, b) == Vec3(Lerp(lo.x, hi.x, a), hi.y, Lerp(lo.z, hi.z, 1.0 - b))
    ensures FramePoint(Frames(lo, hi)[5], a, b) == Vec3(Lerp(lo.x, hi.x, a), lo.y, Lerp(lo.z, hi.z, b))
  {}

  /** On the surface of the box between `lo` and `hi`: inside it, with one
      coordinate at a bound. */
  predicate OnSurface(lo: Vec3, hi: Vec3, p: Vec3) {
    && lo.x <= p.x <= hi.x && lo.y <= p.y <= hi.y && lo.z <= p.z <= hi.z
    && (p.x == lo.x || p.x == hi.x || p.y == lo.y || p.y == hi.y || p.z == lo.z || p.z == hi.z)
  }

  /** Every point of every side lies on the surface of the box. */
  lemma FramesOnSurface(lo: Vec3, hi: Vec3, i: int, a: real, b: real)
    requires lo.x < hi.x && lo.y < hi.y && lo.z < hi.z
    requires 0 <= i < 6 && Inside(a, b)
    ensures OnSurface(lo, hi, FramePoint(Frames(lo, hi)[i], a, b))
  {
    FramePoints(lo, hi, a, b);
    LerpBetween(lo.x, hi.x, a);
    LerpBetween(lo.y, hi.y, a);
    LerpBetween(lo.z, hi.z, a);
    LerpBetween(lo.x, hi.x, b);
    LerpBetween(lo.y, hi.y, b);
    LerpBetween(lo.z, hi.z, b);
    LerpBetween(lo.x, hi.x, 1.0 - a);
    LerpBetween(lo.z, hi.z, 1.0 - a);
    LerpBetween(lo.z, hi.z, 1.0 - b);
  }

  /** Conversely every point of the box's surface lies on one of the sides. */
  lemma SurfaceOnFrames(lo: Vec3, hi: Vec3, p: Vec3)
    requires lo.x < hi.x && lo.y < hi.y && lo.z < hi.z
    requires OnSurface(lo, hi, p)
    ensures exists i, a, b :: 0 <= i < 6 && Inside(a, b) && FramePoint(Frames(lo, hi)[i], a, b) == p
  {
    var fx := Fraction(lo.x, hi.x, p.x);
    var fy := Fraction(lo.y, hi.y, p.y);
    var fz := Fraction(lo.z, hi.z, p.z);
    if p.z == hi.z {
      FramePoints(lo, hi, fx, fy);
      assert Inside(fx, fy) && FramePoint(Frames(lo, hi)[0], fx, fy) == p;
    } else if p.x == hi.x {
      FramePoints(lo, hi, 1.0 - fz, fy);
      assert Inside(1.0 - fz, fy) && FramePoint(Frames(lo, hi)[1], 1.0 - fz, fy) == p;
    } else if p.z == lo.z {
      FramePoints(lo, hi, 1.0 - fx, fy);
      assert Inside(1.0 - fx, fy) && FramePoint(Frames(lo, hi)[2], 1.0 - fx, fy) == p;
    } else if p.x == lo.x {
      FramePoints(lo, hi, fz, fy);
      assert Inside(fz, fy) && FramePoint(Frames(lo, hi)[3], fz, fy) == p;
    } else if p.y == hi.y {
      FramePoints(lo, hi, fx, 1.0 - fz);
      assert Inside(fx, 1.0 - fz) && FramePoint(Frames(lo, hi)[4], fx, 1.0 - fz) == p;
    } else {
      FramePoints(lo, hi, fx, fz);
      assert Inside(fx, fz) && FramePoint(Frames(lo, hi)[5], fx, fz) == p;
    }
  }

  /** The sides of `NewBox` cover exactly the surface of the box between its
      two corners. */
  lemma NewBoxSurface(m: Libm, a: Vec3, b: Vec3, mat: Materials.Material, p: Vec3)
    requires Sound(m)
    requires a.x != b.x && a.y != b.y && a.z != b.z
    ensures (exists i, s, t :: 0 <= i < |NewBox(m, a, b, mat).list| && Inside(s, t) && QuadPoint(NewBox(m, a, b, mat).list[i], s, t) == p)
        <==> OnSurface(LowCorner(a, b), HighCorner(a, b), p)
  {
    var lo, hi := LowCorner(a, b), HighCorner(a, b);
    assert NewBox(m, a, b, mat).list == Sides(m, lo, hi, mat);
    SidesOnSurface(m, lo, hi, mat, p);
    if OnSurface(lo, hi, p) {
      SurfaceOnSides(m, lo, hi, mat, p);
    }
  }

  lemma SidesOnSurface(m: Libm, lo: Vec3, hi: Vec3, mat: Materials.Material, p: Vec3)
    requires Sound(m)
    requires lo.x < hi.x && lo.y < hi.y && lo.z < hi.z
    ensures (exists i, s, t :: 0 <= i < 6 && Inside(s, t) && QuadPoint(Sides(m, lo, hi, mat)[i], s, t) == p)
        ==> OnSurface(lo, hi, p)
  {
    var sides := Sides(m, lo, hi, mat);
    if exists i, s, t :: 0 <= i < 6 && Inside(s, t) && QuadPoint(sides[i], s, t) == p {
      var i, s, t :| 0 <= i < 6 && Inside(s, t) && QuadPoint(sides[i], s, t) == p;
      assert p == FramePoint(Frames(lo, hi)[i], s, t);
      FramesOnSurface(lo, hi, i, s, t);
    }
  }

  lemma SurfaceOnSides(m: Libm, lo: Vec3, hi: Vec3, mat: Materials.Material, p: Vec3)
    requires Sound(m)
    requires lo.x < hi.x && lo.y < hi.y && lo.z < hi.z
    requires OnSurface(lo, hi, p)
    ensures exists i, s, t :: 0 <= i < 6 && Inside(s, t) && QuadPoint(Sides(m, lo, hi, mat)[i], s, t) == p
  {
    SurfaceOnFrames(lo, hi, p);
    var i, s, t :| 0 <= i < 6 && Inside(s, t) && FramePoint(Frames(lo, hi)[i], s, t) == p;
    assert QuadPoint(Sides(m, lo, hi, mat)[i], s, t) == p;
  }
}
