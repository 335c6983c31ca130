/** Triangles (hittable/triangle.go): a flat triangle hit with the
    Möller–Trumbore test, carrying texture coordinates at its corners. */
module Triangles {
  import opened Libm
  import opened Vectors
  import opened Wrappers
  import ExtReal
  import Intervals
  import Aabbs
  import Materials
  import Rays
  import Util
  import HittableLists

  /** `Triangle`: the first corner, the two edges leaving it, the texture
      coordinates of the three corners and the precomputed normal, box, area
      and centre. */
  datatype Triangle = Triangle(
    v0: Vec3, v0v1: Vec3, v0v2: Vec3,
    tu0: real, tv0: real, tu1: real, tv1: real, tu2: real, tv2: real,
    normal: Vec3, mat: Materials.Material, bBox: Aabbs.Aabb, area: real, center: Vec3)

  /** The box of three points, as the union of two two-point boxes (the
      helper the constructor calls is not part of this model). */
  function CreateAabbFrom3Points(a: Vec3, b: Vec3, c: Vec3): (box: Aabbs.Aabb)
    ensures Aabbs.Bounded(box) && Aabbs.NonInverted(box)
    ensures Aabbs.ContainsPoint(box, a) && Aabbs.ContainsPoint(box, b) && Aabbs.ContainsPoint(box, c)
  {
    Aabbs.CombineAabbs(Aabbs.CreateAabbFromPoints(a, b), Aabbs.CreateAabbFromPoints(a, c))
  }

  /** The unnormalised normal: the cross product of the two edges. */
  function EdgeCross(v0: Vec3, v1: Vec3, v2: Vec3): Vec3 {
    Cross(Sub(v1, v0), Sub(v2, v0))
  }

  /** The constructor's box: the three corners' box, padded where thin. */
  function PaddedBox(v0: Vec3, v1: Vec3, v2: Vec3): (box: Aabbs.Aabb)
    ensures Aabbs.ContainsPoint(box, v0) && Aabbs.ContainsPoint(box, v1) && Aabbs.ContainsPoint(box, v2)
  {
    var box := CreateAabbFrom3Points(v0, v1, v2);
    Aabbs.PadIfNeededKeepsPoint(box, v0);
    Aabbs.PadIfNeededKeepsPoint(box, v1);
    Aabbs.PadIfNeededKeepsPoint(box, v2);
    Aabbs.PadIfNeeded(box)
  }

  /** The unit normal of the plane spanned by the two edges. */
  function PlaneNormal(m: Libm, e1: Vec3, e2: Vec3): (n: Vec3)
    requires Length(m, Cross(e1, e2)) != 0.0
    ensures Dot(n, e1) == 0.0 && Dot(n, e2) == 0.0
    ensures Sound(m) ==> LengthSquared(n) == 1.0
  {
    NormalInPlane(e1, e2, 1.0 / Length(m, Cross(e1, e2)));
    Unit(m, Cross(e1, e2))
  }

  /** Half the length of the edges' cross product. */
  function HalfLength(m: Libm, n: Vec3): (area: real)
    requires Length(m, n) != 0.0
    ensures Sound(m) ==> area > 0.0 && 4.0 * area * area == LengthSquared(n)
  {
    var l := Length(m, n);
    assert Sound(m) ==> l * l == LengthSquared(n) && l >= 0.0;
    l / 2.0
  }

  /** `NewTriangleWithTexCoords`.  A degenerate triangle (collinear corners)
      would get a NaN normal and is kept out of the model. */
  function NewTriangleWithTexCoords(m: Libm, v0: Vec3, v1: Vec3, v2: Vec3,
                                    tu0: real, tv0: real, tu1: real, tv1: real, tu2: real, tv2: real,
                                    mat: Materials.Material): (tri: Triangle)
    requires Length(m, EdgeCross(v0, v1, v2)) != 0.0
    ensures tri.v0 == v0 && tri.v0v1 == Sub(v1, v0) && tri.v0v2 == Sub(v2, v0)
    ensures tri.tu0 == tu0 && tri.tv0 == tv0 && tri.tu1 == tu1 && tri.tv1 == tv1 && tri.tu2 == tu2 && tri.tv2 == tv2
    ensures tri.mat == mat
    ensures Aabbs.ContainsPoint(tri.bBox, v0) && Aabbs.ContainsPoint(tri.bBox, v1) && Aabbs.ContainsPoint(tri.bBox, v2)
    ensures Dot(tri.normal, tri.v0v1) == 0.0 && Dot(tri.normal, tri.v0v2) == 0.0
    ensures Sound(m) ==> LengthSquared(tri.normal) == 1.0
    ensures Sound(m) ==> tri.area > 0.0 && 4.0 * tri.area * tri.area == LengthSquared(EdgeCross(v0, v1, v2))
  {
    var e1 := Sub(v1, v0);
    var e2 := Sub(v2, v0);
    Triangle(v0, e1, e2, tu0, tv0, tu1, tv1, tu2, tv2, PlaneNormal(m, e1, e2), mat,
             PaddedBox(v0, v1, v2), HalfLength(m, Cross(e1, e2)), MulS(Add(Add(v0, v1), v2), 0.33333))
  }

  /** A multiple of the edges' cross product is perpendicular to both edges. */
  lemma NormalInPlane(e1: Vec3, e2: Vec3, k: real)
    ensures Dot(MulS(Cross(e1, e2), k), e1) == 0.0 && Dot(MulS(Cross(e1, e2), k), e2) == 0.0
  {
    CrossOrthogonal(e1, e2);
    DotMulSLeft(Cross(e1, e2), k, e1);
    DotMulSLeft(Cross(e1, e2), k, e2);
  }

  /** `NewTriangle`: every corner gets texture coordinate (0, 0). */
  function NewTriangle(m: Libm, v0: Vec3, v1: Vec3, v2: Vec3, mat: Materials.Material): (tri: Triangle)
    requires Length(m, EdgeCross(v0, v1, v2)) != 0.0
    ensures tri.v0 == v0 && tri.v0v1 == Sub(v1, v0) && tri.v0v2 == Sub(v2, v0) && tri.mat == mat
    ensures tri.tu0 == 0.0 && tri.tv0 == 0.0 && tri.tu1 == 0.0 && tri.tv1 == 0.0 && tri.tu2 == 0.0 && tri.tv2 == 0.0
  {
    NewTriangleWithTexCoords(m, v0, v1, v2, 0.0, 0.0, 0.0, 0.0, 0.0, 0.0, mat)
  }

  // ----- barycentric coordinates -----

  /** The point with barycentric weights `a` on the first edge and `b` on the
      second. */
  function PointAt(tri: Triangle, a: real, b: real): Vec3 {
    Add(Add(tri.v0, MulS(tri.v0v1, a)), MulS(tri.v0v2, b))
  }

  /** Weights of a point of the closed triangle. */
  predicate Inside(a: real, b: real) {
    0.0 <= a <= 1.0 && 0.0 <= b && a + b <= 1.0
  }

  /** The determinant of the linear system the hit solves. */
  function Det(tri: Triangle, r: Rays.Ray): real {
    Dot(tri.v0v1, Cross(r.direction, tri.v0v2))
  }

  /** The solution `(u, v, t)` of `origin + t dir = v0 + u e1 + v e2`. */
  datatype Solution = Solution(u: real, v: real, t: real)

  /** Cramer's rule as the hit computes it. */
  function Solve(tri: Triangle, r: Rays.Ray): (s: Solution)
    requires Det(tri, r) != 0.0
  {
    var invDet := 1.0 / Det(tri, r);
    var tVec := Sub(r.origin, tri.v0);
    var pVec := Cross(r.direction, tri.v0v2);
    var qVec := Cross(tVec, tri.v0v1);
    Solution(Dot(tVec, pVec) * invDet, Dot(r.direction, qVec) * invDet, Dot(tri.v0v2, qVec) * invDet)
  }

  /** The texture coordinate interpolated from the corners' values. */
  function Interpolate(u: real, v: real, c0: real, c1: real, c2: real): real {
    (1.0 - u - v) * c0 + u * c1 + v * c2
  }

  /** The record of a hit at solution `s`. */
  function Record(tri: Triangle, r: Rays.Ray, s: Solution): (rec: Materials.HitRecord)
    ensures rec.hitPoint == Rays.At(r, s.t) && rec.rayLength == s.t && rec.material == tri.mat
    ensures rec.frontFace <==> Dot(r.direction, tri.normal) < 0.0
    ensures rec.normal == (if rec.frontFace then tri.normal else Neg(tri.normal))
    ensures Dot(r.direction, rec.normal) <= 0.0
    ensures rec.u == Interpolate(s.u, s.v, tri.tu0, tri.tu1, tri.tu2)
    ensures rec.v == Interpolate(s.u, s.v, tri.tv0, tri.tv1, tri.tv2)
  {
    var frontFace := Dot(r.direction, tri.normal) < 0.0;
    var normal := if frontFace then tri.normal else Neg(tri.normal);
    assert Dot(r.direction, Neg(tri.normal)) == -Dot(r.direction, tri.normal);
    Materials.HitRecord(Rays.At(r, s.t), normal, tri.mat, s.t,
                        Interpolate(s.u, s.v, tri.tu0, tri.tu1, tri.tu2),
                        Interpolate(s.u, s.v, tri.tv0, tri.tv1, tri.tv2), frontFace)
  }

  /** `Hit`: a near-parallel ray misses; otherwise the weights must lie in the
      triangle and the distance in the interval. */
  function Hit(tri: Triangle, r: Rays.Ray, rayLength: Intervals.Interval): (rec: Option<Materials.HitRecord>)
    ensures Abs(Det(tri, r)) < Util.AlmostZero ==> rec.None?
    ensures rec.Some? ==> Intervals.Contains(rayLength, rec.value.rayLength)
    ensures rec.Some? ==> rec.value == Record(tri, r, Solve(tri, r)) && Inside(Solve(tri, r).u, Solve(tri, r).v)
  {
    if Abs(Det(tri, r)) < Util.AlmostZero then None
    else
      var s := Solve(tri, r);
      if s.u < 0.0 || s.u > 1.0 then None
      else if s.v < 0.0 || s.u + s.v > 1.0 then None
      else if !Intervals.Contains(rayLength, s.t) then None
      else Some(Record(tri, r, s))
  }

  // ----- the solution is the intersection -----

  /** One coordinate of the back substitution: from
      `T det = e1 U + d W + e2 V` and `det inv = 1` follows
      `o + d (-W inv) = v0 + e1 (U inv) + e2 (V inv)` where `T = o - v0`. */
  lemma BackSubstitute(o: real, v0: real, e1: real, d: real, e2: real,
                       uu: real, ww: real, vv: real, det: real, inv: real)
    requires (o - v0) * det == (e1 * uu + d * ww) + e2 * vv
    requires det * inv == 1.0
    ensures o + d * ((-ww) * inv) == (v0 + e1 * (uu * inv)) + e2 * (vv * inv)
  {
    calc {
      o - v0;
      ((o - v0) * det) * inv;
      ((e1 * uu + d * ww) + e2 * vv) * inv;
      e1 * (uu * inv) + d * (ww * inv) + e2 * (vv * inv);
    }
  }

  /** The solution satisfies the system: the point at distance `t` along the
      ray is the point with weights `(u, v)`. */
  lemma SolveIsIntersection(tri: Triangle, r: Rays.Ray)
    requires Det(tri, r) != 0.0
    ensures Rays.At(r, Solve(tri, r).t) == PointAt(tri, Solve(tri, r).u, Solve(tri, r).v)
  {
    var e1, e2, d := tri.v0v1, tri.v0v2, r.direction;
    var tVec := Sub(r.origin, tri.v0);
    var det := Det(tri, r);
    var inv := 1.0 / det;
    var uu, ww, vv := Dot(tVec, Cross(d, e2)), Dot(tVec, Cross(e2, e1)), Dot(tVec, Cross(e1, d));
    var sol := Solve(tri, r);
    SolveInBasis(tri, r);
    assert sol.u == uu * inv && sol.v == vv * inv && sol.t == (-ww) * inv;
    ReciprocalBasis(e1, d, e2, tVec);
    BackSubstituteVec(r.origin, tri.v0, e1, d, e2, uu, ww, vv, det, inv);
    assert Rays.At(r, sol.t) == Add(r.origin, MulS(d, (-ww) * inv));
    assert PointAt(tri, sol.u, sol.v) == Add(Add(tri.v0, MulS(e1, uu * inv)), MulS(e2, vv * inv));
  }

  /** The solution's three numerators are the coordinates of `origin - v0`
      in the basis dual to (e1, dir, e2). */
  lemma SolveInBasis(tri: Triangle, r: Rays.Ray)
    requires Det(tri, r) != 0.0
    ensures var tVec := Sub(r.origin, tri.v0);
      && Solve(tri, r).u == Dot(tVec, Cross(r.direction, tri.v0v2)) * (1.0 / Det(tri, r))
      && Solve(tri, r).v == Dot(tVec, Cross(tri.v0v1, r.direction)) * (1.0 / Det(tri, r))
      && Solve(tri, r).t == (-Dot(tVec, Cross(tri.v0v2, tri.v0v1))) * (1.0 / Det(tri, r))
      && Det(tri, r) * (1.0 / Det(tri, r)) == 1.0
  {
    var e1, e2, d := tri.v0v1, tri.v0v2, r.direction;
    var tVec := Sub(r.origin, tri.v0);
    TripleCyclic(d, tVec, e1);
    assert Dot(e2, Cross(tVec, e1)) == -Dot(tVec, Cross(e2, e1)) by {
      TripleCyclic(e2, tVec, e1);
      CrossOrthogonal(e2, e1);
      DotNegRight(tVec, Cross(e2, e1));
    }
  }

  lemma DotNegRight(v: Vec3, w: Vec3)
    ensures Dot(v, Neg(w)) == -Dot(v, w)
  {}

  /** All three coordinates of the back substitution. */
  lemma BackSubstituteVec(o: Vec3, v0: Vec3, e1: Vec3, d: Vec3, e2: Vec3,
                          uu: real, ww: real, vv: real, det: real, inv: real)
    requires MulS(Sub(o, v0), det) == Add(Add(MulS(e1, uu), MulS(d, ww)), MulS(e2, vv))
    requires det * inv == 1.0
    ensures Add(o, MulS(d, (-ww) * inv)) == Add(Add(v0, MulS(e1, uu * inv)), MulS(e2, vv * inv))
  {
    BackSubstituteX(o, v0, e1, d, e2, uu, ww, vv, det, inv);
    BackSubstituteY(o, v0, e1, d, e2, uu, ww, vv, det, inv);
    BackSubstituteZ(o, v0, e1, d, e2, uu, ww, vv, det, inv);
    SameComponents(Add(o, MulS(d, (-ww) * inv)), Add(Add(v0, MulS(e1, uu * inv)), MulS(e2, vv * inv)));
  }

  lemma BackSubstituteX(o: Vec3, v0: Vec3, e1: Vec3, d: Vec3, e2: Vec3,
                        uu: real, ww: real, vv: real, det: real, inv: real)
    requires MulS(Sub(o, v0), det) == Add(Add(MulS(e1, uu), MulS(d, ww)), MulS(e2, vv))
    requires det * inv == 1.0
    ensures Add(o, MulS(d, (-ww) * inv)).x == Add(Add(v0, MulS(e1, uu * inv)), MulS(e2, vv * inv)).x
  {
    BackSubstitute(o.x, v0.x, e1.x, d.x, e2.x, uu, ww, vv, det, inv);
  }

  lemma BackSubstituteY(o: Vec3, v0: Vec3, e1: Vec3, d: Vec3, e2: Vec3,
                        uu: real, ww: real, vv: real, det: real, inv: real)
    requires MulS(Sub(o, v0), det) == Add(Add(MulS(e1, uu), MulS(d, ww)), MulS(e2, vv))
    requires det * inv == 1.0
    ensures Add(o, MulS(d, (-ww) * inv)).y == Add(Add(v0, MulS(e1, uu * inv)), MulS(e2, vv * inv)).y
  {
    BackSubstitute(o.y, v0.y, e1.y, d.y, e2.y, uu, ww, vv, det, inv);
  }

  lemma BackSubstituteZ(o: Vec3, v0: Vec3, e1: Vec3, d: Vec3, e2: Vec3,
                        uu: real, ww: real, vv: real, det: real, inv: real)
    requires MulS(Sub(o, v0), det) == Add(Add(MulS(e1, uu), MulS(d, ww)), MulS(e2, vv))
    requires det * inv == 1.0
    ensures Add(o, MulS(d, (-ww) * inv)).z == Add(Add(v0, MulS(e1, uu * inv)), MulS(e2, vv * inv)).z
  {
    BackSubstitute(o.z, v0.z, e1.z, d.z, e2.z, uu, ww, vv, det, inv);
  }

  /** A point of the triangle's plane reached at distance `t` has its weights
      and distance recovered by `Solve`. */
  lemma SolveRecovers(tri: Triangle, r: Rays.Ray, a: real, b: real, t: real)
    requires Det(tri, r) != 0.0
    requires Rays.At(r, t) == PointAt(tri, a, b)
    ensures Solve(tri, r) == Solution(a, b, t)
  {
    var e1, e2, d := tri.v0v1, tri.v0v2, r.direction;
    var tVec := Sub(r.origin, tri.v0);
    var det := Det(tri, r);
    var inv := 1.0 / det;
    assert det * inv == 1.0;
    assert tVec == Add(Add(MulS(e1, a), MulS(d, -t)), MulS(e2, b));
    RecoverU(e1, d, e2, tVec, a, b, t);
    RecoverV(e1, d, e2, tVec, a, b, t);
    RecoverT(e1, d, e2, tVec, a, b, t);
    ScaleBack(a, det, inv);
    ScaleBack(b, det, inv);
    ScaleBack(t, det, inv);
  }

  /** The three numerators of `Solve` read `a`, `b` and `t` off
      `tVec = a e1 - t d + b e2`, each scaled by `det = e1 . (d × e2)`. */
  lemma RecoverU(e1: Vec3, d: Vec3, e2: Vec3, tVec: Vec3, a: real, b: real, t: real)
    requires tVec == Add(Add(MulS(e1, a), MulS(d, -t)), MulS(e2, b))
    ensures Dot(tVec, Cross(d, e2)) == a * Dot(e1, Cross(d, e2))
  {
    Coefficient(e1, d, e2, a, -t, b);
  }

  lemma RecoverV(e1: Vec3, d: Vec3, e2: Vec3, tVec: Vec3, a: real, b: real, t: real)
    requires tVec == Add(Add(MulS(e1, a), MulS(d, -t)), MulS(e2, b))
    ensures Dot(d, Cross(tVec, e1)) == b * Dot(e1, Cross(d, e2))
  {
    assert tVec == Add(Add(MulS(e2, b), MulS(e1, a)), MulS(d, -t));
    Coefficient(e2, e1, d, b, a, -t);
    TripleCyclic(e1, d, e2);
    TripleCyclic(d, tVec, e1);
  }

  lemma RecoverT(e1: Vec3, d: Vec3, e2: Vec3, tVec: Vec3, a: real, b: real, t: real)
    requires tVec == Add(Add(MulS(e1, a), MulS(d, -t)), MulS(e2, b))
    ensures Dot(e2, Cross(tVec, e1)) == t * Dot(e1, Cross(d, e2))
  {
    var det := Dot(e1, Cross(d, e2));
    assert tVec == Add(Add(MulS(d, -t), MulS(e1, a)), MulS(e2, b));
    Coefficient(d, e1, e2, -t, a, b);
    TripleCyclic(e2, tVec, e1);
    TripleCyclic(d, e1, e2);
    CrossOrthogonal(d, e2);
    NegDot(Cross(d, e2), e1);
    DotSymmetric(e1, Cross(d, e2));
    DotSymmetric(e1, Cross(e2, d));
    assert Dot(d, Cross(e1, e2)) == -det;
  }

  lemma ScaleBack(x: real, det: real, inv: real)
    requires det * inv == 1.0
    ensures (x * det) * inv == x
  {
    assert (x * det) * inv == x * (det * inv);
  }

  /** A hit lies in the triangle: its point has weights inside the triangle,
      found by a ray that is not near-parallel. */
  lemma HitInTriangle(tri: Triangle, r: Rays.Ray, rayLength: Intervals.Interval)
    requires Hit(tri, r, rayLength).Some?
    ensures Abs(Det(tri, r)) >= Util.AlmostZero
    ensures var s := Solve(tri, r);
      Inside(s.u, s.v) && Hit(tri, r, rayLength).value.hitPoint == PointAt(tri, s.u, s.v)
  {
    SolveIsIntersection(tri, r);
  }

  /** Every point of the triangle met within the interval by a ray that is
      not near-parallel is found, at that distance. */
  lemma HitFindsTriangle(tri: Triangle, r: Rays.Ray, rayLength: Intervals.Interval, a: real, b: real, t: real)
    requires Abs(Det(tri, r)) >= Util.AlmostZero
    requires Inside(a, b) && Intervals.Contains(rayLength, t)
    requires Rays.At(r, t) == PointAt(tri, a, b)
    ensures Hit(tri, r, rayLength).Some?
    ensures Hit(tri, r, rayLength).value.rayLength == t
    ensures Hit(tri, r, rayLength).value.hitPoint == PointAt(tri, a, b)
  {
    SolveRecovers(tri, r, a, b, t);
  }

  /** Both directions together: the hit succeeds exactly when the ray is not
      near-parallel and meets a point of the triangle within the interval. */
  lemma HitIffMeetsTriangle(tri: Triangle, r: Rays.Ray, rayLength: Intervals.Interval)
    ensures Hit(tri, r, rayLength).Some? <==>
      Abs(Det(tri, r)) >= Util.AlmostZero &&
      exists a: real, b: real, t: real :: Inside(a, b) && Intervals.Contains(rayLength, t) && Rays.At(r, t) == PointAt(tri, a, b)
  {
    if Hit(tri, r, rayLength).Some? {
      HitInTriangle(tri, r, rayLength);
      var s := Solve(tri, r);
      SolveIsIntersection(tri, r);
      assert Inside(s.u, s.v) && Intervals.Contains(rayLength, s.t) && Rays.At(r, s.t) == PointAt(tri, s.u, s.v);
    } else if Abs(Det(tri, r)) >= Util.AlmostZero {
      if exists a: real, b: real, t: real :: Inside(a, b) && Intervals.Contains(rayLength, t) && Rays.At(r, t) == PointAt(tri, a, b) {
        var a: real, b: real, t: real :| Inside(a, b) && Intervals.Contains(rayLength, t) && Rays.At(r, t) == PointAt(tri, a, b);
        HitFindsTriangle(tri, r, rayLength, a, b, t);
      }
    }
  }

  // ----- texture coordinates -----

  /** Interpolated coordinates stay between the corners' extremes, and equal
      corner values are reproduced exactly. */
  lemma InterpolateConvex(u: real, v: real, c0: real, c1: real, c2: real, lo: real, hi: real)
    requires Inside(u, v)
    requires lo <= c0 <= hi && lo <= c1 <= hi && lo <= c2 <= hi
    ensures lo <= Interpolate(u, v, c0, c1, c2) <= hi
    ensures c0 == c1 == c2 ==> Interpolate(u, v, c0, c1, c2) == c0
  {
    var w := 1.0 - u - v;
    assert Interpolate(u, v, c0, c1, c2) - lo == w * (c0 - lo) + u * (c1 - lo) + v * (c2 - lo);
    assert hi - Interpolate(u, v, c0, c1, c2) == w * (hi - c0) + u * (hi - c1) + v * (hi - c2);
    NonNegativeProduct(w, c0 - lo);
    NonNegativeProduct(u, c1 - lo);
    NonNegativeProduct(v, c2 - lo);
    NonNegativeProduct(w, hi - c0);
    NonNegativeProduct(u, hi - c1);
    NonNegativeProduct(v, hi - c2);
  }

  lemma NonNegativeProduct(a: real, b: real)
    requires 0.0 <= a && 0.0 <= b
    ensures 0.0 <= a * b
  {}

  /** The corners get their own texture coordinates. */
  lemma InterpolateCorners(c0: real, c1: real, c2: real)
    ensures Interpolate(0.0, 0.0, c0, c1, c2) == c0
    ensures Interpolate(1.0, 0.0, c0, c1, c2) == c1
    ensures Interpolate(0.0, 1.0, c0, c1, c2) == c2
  {}

  /** A hit's texture coordinates lie within the corners' ranges. */
  lemma HitUvInCornerRange(tri: Triangle, r: Rays.Ray, rayLength: Intervals.Interval, lo: real, hi: real)
    requires Hit(tri, r, rayLength).Some?
    requires lo <= tri.tu0 <= hi && lo <= tri.tu1 <= hi && lo <= tri.tu2 <= hi
    requires lo <= tri.tv0 <= hi && lo <= tri.tv1 <= hi && lo <= tri.tv2 <= hi
    ensures lo <= Hit(tri, r, rayLength).value.u <= hi && lo <= Hit(tri, r, rayLength).value.v <= hi
  {
    var s := Solve(tri, r);
    InterpolateConvex(s.u, s.v, tri.tu0, tri.tu1, tri.tu2, lo, hi);
    InterpolateConvex(s.u, s.v, tri.tv0, tri.tv1, tri.tv2, lo, hi);
  }

  // ----- nearest hits -----

  /** The triangle's only candidate hit at or beyond `lo`. */
  function First(tri: Triangle, r: Rays.Ray, lo: ExtReal.XReal): Option<Materials.HitRecord> {
    Hit(tri, r, Intervals.Interval(lo, ExtReal.PosInf))
  }

  /** A query `[lo, hi]` returns the candidate when it is not beyond `hi`. */
  lemma AnswersQuery(tri: Triangle, r: Rays.Ray, lo: ExtReal.XReal, hi: ExtReal.XReal)
    ensures Hit(tri, r, Intervals.Interval(lo, hi)) == HittableLists.Clip(First(tri, r, lo), hi)
    ensures First(tri, r, lo).Some? ==> ExtReal.Le(lo, ExtReal.Fin(First(tri, r, lo).value.rayLength))
  {}

  function HitFn(r: Rays.Ray): (f: (Triangle, Intervals.Interval) -> Option<Materials.HitRecord>)
    ensures forall tri: Triangle, i: Intervals.Interval :: f(tri, i) == Hit(tri, r, i)
  {
    (tri: Triangle, i: Intervals.Interval) => Hit(tri, r, i)
  }

  function FirstFn(r: Rays.Ray, lo: ExtReal.XReal): (f: Triangle -> Option<Materials.HitRecord>)
    ensures forall tri: Triangle :: f(tri) == First(tri, r, lo)
  {
    (tri: Triangle) => First(tri, r, lo)
  }

  /** Triangles answer nearest-hit queries the way the list scan and the tree
      walk expect. */
  lemma TrianglesAnswerNearest(r: Rays.Ray, tris: seq<Triangle>, lo: ExtReal.XReal)
    ensures HittableLists.AnswersNearest(tris, HitFn(r), lo, FirstFn(r, lo))
  {
    forall x, hi | x in tris
      ensures HitFn(r)(x, Intervals.Interval(lo, hi)) == HittableLists.Clip(FirstFn(r, lo)(x), hi)
    {
      AnswersQuery(x, r, lo, hi);
    }
    forall x | x in tris && FirstFn(r, lo)(x).Some?
      ensures ExtReal.Le(lo, ExtReal.Fin(FirstFn(r, lo)(x).value.rayLength))
    {
      AnswersQuery(x, r, lo, ExtReal.PosInf);
    }
  }

  // ----- light sampling -----

  /** The interval of the light-sampling rays: `[0.001, +Inf]`. */
  const SampleInterval: Intervals.Interval := Intervals.Interval(ExtReal.Fin(0.001), ExtReal.PosInf)

  /** `PdfValue`: the solid-angle density of sampling `direction` from
      `origin` towards the triangle, zero on a miss. */
  function PdfValue(m: Libm, tri: Triangle, origin: Vec3, direction: Vec3): (p: ExtReal.F64)
    requires Length(m, direction) != 0.0
    ensures Hit(tri, Rays.NewRay(m, origin, direction, 0.0), SampleInterval).None? ==> p == ExtReal.FromReal(0.0)
  {
    var ray := Rays.NewRay(m, origin, direction, 0.0);
    match Hit(tri, ray, SampleInterval)
    case None => ExtReal.FromReal(0.0)
    case Some(rec) =>
      var distanceSquared := rec.rayLength * rec.rayLength * LengthSquared(direction);
      var cosine := Abs(Dot(direction, rec.normal) / Length(m, direction));
      ExtReal.Div(ExtReal.FromReal(distanceSquared), ExtReal.FromReal(cosine * tri.area))
  }

  /** The density is never NaN or negative: a hit has a positive numerator
      and a non-negative denominator, and a grazing hit gives +Inf. */
  lemma PdfValueNonNegative(m: Libm, tri: Triangle, origin: Vec3, direction: Vec3)
    requires Sound(m) && Length(m, direction) != 0.0 && tri.area >= 0.0
    ensures PdfValue(m, tri, origin, direction).Num?
    ensures ExtReal.Le(ExtReal.Fin(0.0), PdfValue(m, tri, origin, direction).x)
  {
    var ray := Rays.NewRay(m, origin, direction, 0.0);
    var h := Hit(tri, ray, SampleInterval);
    if h.Some? {
      var rec := h.value;
      PositiveDensity(m, rec.rayLength, direction);
      var cosine := Abs(Dot(direction, rec.normal) / Length(m, direction));
      assert cosine * tri.area >= 0.0;
    }
  }

  /** The density's numerator is positive and its denominator not negative. */
  lemma PositiveDensity(m: Libm, t: real, direction: Vec3)
    requires Sound(m) && Length(m, direction) != 0.0
    requires t >= 0.001
    ensures t * t * LengthSquared(direction) > 0.0
  {
    var l := Length(m, direction);
    assert l * l == LengthSquared(direction);
    SquareNonNegative(l);
    PositiveProduct(t * t, l * l);
  }

  lemma PositiveProduct(a: real, b: real)
    requires a > 0.0 && b > 0.0
    ensures a * b > 0.0
  {}

  /** For a unit direction the numerator is the squared distance from the
      origin to the hit point. */
  lemma PdfNumeratorIsDistance(m: Libm, tri: Triangle, origin: Vec3, direction: Vec3)
    requires Sound(m) && LengthSquared(direction) == 1.0 && Length(m, direction) != 0.0
    requires Hit(tri, Rays.NewRay(m, origin, direction, 0.0), SampleInterval).Some?
    ensures var rec := Hit(tri, Rays.NewRay(m, origin, direction, 0.0), SampleInterval).value;
      rec.rayLength * rec.rayLength * LengthSquared(direction) == LengthSquared(Sub(rec.hitPoint, origin))
  {
    var ray := Rays.NewRay(m, origin, direction, 0.0);
    var rec := Hit(tri, ray, SampleInterval).value;
    var t := rec.rayLength;
    Rays.AtAffine(ray, t, 0.0);
    assert Sub(rec.hitPoint, origin) == MulS(ray.direction, t);
    ScaledLength(ray.direction, t);
  }

  lemma ScaledLength(v: Vec3, t: real)
    requires LengthSquared(v) == 1.0
    ensures LengthSquared(MulS(v, t)) == t * t
  {
    assert LengthSquared(MulS(v, t)) == t * t * LengthSquared(v);
  }

  /** `IsLight`: a triangle is a light when its material is. */
  predicate IsLight(tri: Triangle) {
    Materials.IsLight(tri.mat)
  }

  /** `RandomDirection` as written: the two draws weight the two edges
      independently, which covers the whole parallelogram spanned by the
      edges, not only the triangle. */
  function RandomDirectionAsWritten(tri: Triangle, origin: Vec3, f1: real, f2: real): (d: Vec3)
    ensures Add(origin, d) == PointAt(tri, f1, f2)
  {
    Sub(PointAt(tri, f1, f2), origin)
  }

  /** With both draws at 0.9 the sampled point of the unit right triangle at
      the origin has weights summing to 1.8 and lies outside it. */
  lemma RandomDirectionLeavesTriangle(tri: Triangle, a: real, b: real)
    requires tri.v0 == ZeroVector && tri.v0v1 == Vec3(1.0, 0.0, 0.0) && tri.v0v2 == Vec3(0.0, 1.0, 0.0)
    requires PointAt(tri, a, b) == RandomDirectionAsWritten(tri, ZeroVector, 0.9, 0.9)
    ensures a == 0.9 && b == 0.9
    ensures !Inside(a, b)
  {
    UnitRightTriangle(tri, a, b);
    UnitRightTriangle(tri, 0.9, 0.9);
    var p := PointAt(tri, 0.9, 0.9);
    assert RandomDirectionAsWritten(tri, ZeroVector, 0.9, 0.9) == Vec3(p.x - 0.0, p.y - 0.0, p.z - 0.0);
    assert Vec3(a, b, 0.0) == Vec3(0.9, 0.9, 0.0);
    assert a == 0.9 && b == 0.9;
    assert a + b > 1.0;
  }

  /** In the unit right triangle at the origin the weights are the first two
      coordinates. */
  lemma UnitRightTriangle(tri: Triangle, a: real, b: real)
    requires tri.v0 == ZeroVector && tri.v0v1 == Vec3(1.0, 0.0, 0.0) && tri.v0v2 == Vec3(0.0, 1.0, 0.0)
    ensures PointAt(tri, a, b) == Vec3(a, b, 0.0)
  {
    assert MulS(tri.v0v1, a) == Vec3(a, 0.0, 0.0);
    assert MulS(tri.v0v2, b) == Vec3(0.0, b, 0.0);
  }

  /** Draws whose sum exceeds one are reflected into the triangle. */
  function Fold(f1: real, f2: real): (w: (real, real))
    requires 0.0 <= f1 <= 1.0 && 0.0 <= f2 <= 1.0
    ensures Inside(w.0, w.1)
    ensures f1 + f2 <= 1.0 ==> w == (f1, f2)
  {
    if f1 + f2 > 1.0 then (1.0 - f1, 1.0 - f2) else (f1, f2)
  }

  /** `RandomDirection`, sampling the triangle itself: the direction from
      `origin` to a point of the triangle. */
  function RandomDirection(tri: Triangle, origin: Vec3, f1: real, f2: real): (d: Vec3)
    requires 0.0 <= f1 <= 1.0 && 0.0 <= f2 <= 1.0
    ensures Inside(Fold(f1, f2).0, Fold(f1, f2).1)
    ensures Add(origin, d) == PointAt(tri, Fold(f1, f2).0, Fold(f1, f2).1)
  {
    var w := Fold(f1, f2);
    Sub(PointAt(tri, w.0, w.1), origin)
  }
}
