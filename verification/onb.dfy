/** Orthonormal bases (geo/onb.go), used to turn a direction sampled around
    the z axis into one around a surface normal. */
module Onbs {
  import opened Libm
  import opened Vectors

  datatype Onb = Onb(u: Vec3, v: Vec3, w: Vec3)

  /** Three unit vectors, pairwise orthogonal. */
  predicate Orthonormal(o: Onb) {
    && Dot(o.u, o.u) == 1.0 && Dot(o.v, o.v) == 1.0 && Dot(o.w, o.w) == 1.0
    && Dot(o.u, o.v) == 0.0 && Dot(o.v, o.w) == 0.0 && Dot(o.u, o.w) == 0.0
  }

  /** The helper axis: y when the normal is close to the x axis, else x. */
  function HelperAxis(unitW: Vec3): Vec3 {
    if Abs(unitW.x) > 0.9 then Vec3(0.0, 1.0, 0.0) else Vec3(1.0, 0.0, 0.0)
  }

  /** `BuildOnbFromVec3`: `w` is the normalised input, `v` the normalised
      cross product with the helper axis and `u = w x v`. */
  function BuildOnbFromVec3(m: Libm, w: Vec3): (o: Onb)
    requires Sound(m)
    requires w != ZeroVector
    ensures Orthonormal(o)
    ensures o.w == MulS(w, 1.0 / Length(m, w))
  {
    LengthPositive(m, w);
    var unitW := Unit(m, w);
    var c := Cross(unitW, HelperAxis(unitW));
    HelperAxisNotParallel(unitW);
    LengthPositive(m, c);
    var v := Unit(m, c);
    BuildOnbOrthonormal(m, unitW, c, v);
    Onb(Cross(unitW, v), v, unitW)
  }

  lemma BuildOnbOrthonormal(m: Libm, unitW: Vec3, c: Vec3, v: Vec3)
    requires Sound(m)
    requires LengthSquared(unitW) == 1.0
    requires c == Cross(unitW, HelperAxis(unitW))
    requires Length(m, c) != 0.0 && v == Unit(m, c)
    ensures Orthonormal(Onb(Cross(unitW, v), v, unitW))
  {
    assert Dot(unitW, unitW) == 1.0 by {
      LengthSquaredIsSelfDot(unitW);
    }
    assert Dot(v, v) == 1.0 by {
      LengthSquaredIsSelfDot(v);
    }
    assert Dot(c, unitW) == 0.0 by {
      CrossOrthogonal(unitW, HelperAxis(unitW));
    }
    assert v == MulS(c, 1.0 / Length(m, c));
    OnbOrthonormal(unitW, c, v, Cross(unitW, v), Length(m, c));
  }

  /** A unit vector is never parallel to the chosen helper axis. */
  lemma HelperAxisNotParallel(unitW: Vec3)
    requires LengthSquared(unitW) == 1.0
    ensures Cross(unitW, HelperAxis(unitW)) != ZeroVector
  {
    if Abs(unitW.x) <= 0.9 && Cross(unitW, HelperAxis(unitW)) == ZeroVector {
      assert unitW.y == 0.0 && unitW.z == 0.0;
      assert unitW.x * unitW.x == 1.0;
      if unitW.x >= 0.0 {
        MulStrict(unitW.x, 1.0);
      } else {
        MulStrict(-unitW.x, 1.0);
      }
    }
  }

  lemma OnbOrthonormal(w: Vec3, c: Vec3, v: Vec3, u: Vec3, l: real)
    requires Dot(w, w) == 1.0 && Dot(c, w) == 0.0
    requires l != 0.0 && v == MulS(c, 1.0 / l) && Dot(v, v) == 1.0
    requires u == Cross(w, v)
    ensures Orthonormal(Onb(u, v, w))
  {
    assert Dot(v, w) == 0.0 by {
      DotMulSLeft(c, 1.0 / l, w);
    }
    CrossOrthogonal(w, v);
    DotSymmetric(u, w);
    assert Dot(u, u) == 1.0 by {
      Lagrange(w, v);
    }
  }

  /** Lagrange's identity: |a x b|^2 = |a|^2 |b|^2 - (a . b)^2. */
  lemma Lagrange(a: Vec3, b: Vec3)
    ensures Dot(Cross(a, b), Cross(a, b)) == Dot(a, a) * Dot(b, b) - Dot(a, b) * Dot(a, b)
  {}

  /** `Local`: the combination `a.x u + a.y v + a.z w`. */
  function Local(o: Onb, a: Vec3): Vec3 {
    Add(Add(MulS(o.u, a.x), MulS(o.v, a.y)), MulS(o.w, a.z))
  }

  /** In an orthonormal basis, the dot products with the basis vectors give
      back the local coordinates, so `Local` is invertible. */
  lemma LocalCoordinates(o: Onb, a: Vec3)
    requires Orthonormal(o)
    ensures Dot(Local(o, a), o.u) == a.x
    ensures Dot(Local(o, a), o.v) == a.y
    ensures Dot(Local(o, a), o.w) == a.z
  {
    LocalAlong(o, a, o.u);
    LocalAlong(o, a, o.v);
    LocalAlong(o, a, o.w);
    DotSymmetric(o.u, o.v);
    DotSymmetric(o.u, o.w);
    DotSymmetric(o.v, o.w);
  }

  lemma LocalAlong(o: Onb, a: Vec3, e: Vec3)
    ensures Dot(Local(o, a), e) == a.x * Dot(o.u, e) + a.y * Dot(o.v, e) + a.z * Dot(o.w, e)
  {
    var p, q, r := MulS(o.u, a.x), MulS(o.v, a.y), MulS(o.w, a.z);
    DotSymmetricLinear(Add(p, q), r, e, 0.0);
    DotSymmetricLinear(p, q, e, 0.0);
    DotMulSLeft(o.u, a.x, e);
    DotMulSLeft(o.v, a.y, e);
    DotMulSLeft(o.w, a.z, e);
  }

  /** The basis vectors are the images of the unit axes. */
  lemma LocalAxes(o: Onb)
    ensures Local(o, Vec3(1.0, 0.0, 0.0)) == o.u
    ensures Local(o, Vec3(0.0, 1.0, 0.0)) == o.v
    ensures Local(o, Vec3(0.0, 0.0, 1.0)) == o.w
  {
    assert MulS(o.u, 0.0) == ZeroVector && MulS(o.v, 0.0) == ZeroVector && MulS(o.w, 0.0) == ZeroVector;
    assert MulS(o.u, 1.0) == o.u && MulS(o.v, 1.0) == o.v && MulS(o.w, 1.0) == o.w;
  }
}
