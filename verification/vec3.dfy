/** Three-component vectors (geo/vec3.go), used for points, directions and
    colours.  The random helpers take their draws as parameters; their
    rejection loops are modelled over a finite sequence of candidate draws. */
module Vectors {
  import opened Libm
  import opened Wrappers
  import Random
  import Util

  datatype Vec3 = Vec3(x: real, y: real, z: real)

  const ZeroVector: Vec3 := Vec3(0.0, 0.0, 0.0)

  function Neg(v: Vec3): Vec3 {
    Vec3(-v.x, -v.y, -v.z)
  }

  function Add(v: Vec3, w: Vec3): Vec3 {
    Vec3(v.x + w.x, v.y + w.y, v.z + w.z)
  }

  function Sub(v: Vec3, w: Vec3): Vec3 {
    Vec3(v.x - w.x, v.y - w.y, v.z - w.z)
  }

  function Mul(v: Vec3, w: Vec3): Vec3 {
    Vec3(v.x * w.x, v.y * w.y, v.z * w.z)
  }

  function MulS(v: Vec3, t: real): Vec3 {
    Vec3(v.x * t, v.y * t, v.z * t)
  }

  /** Division by zero (an IEEE infinity or NaN in Go) is excluded. */
  function DivS(v: Vec3, t: real): Vec3
    requires t != 0.0
  {
    Vec3(v.x / t, v.y / t, v.z / t)
  }

  function Dot(v: Vec3, w: Vec3): real {
    v.x * w.x + v.y * w.y + v.z * w.z
  }

  function Cross(v: Vec3, w: Vec3): Vec3 {
    Vec3(
      v.y * w.z - v.z * w.y,
      v.z * w.x - v.x * w.z,
      v.x * w.y - v.y * w.x
    )
  }

  /** The squared length: never negative, zero only for the zero vector. */
  function LengthSquared(v: Vec3): (r: real)
    ensures 0.0 <= r
    ensures r == 0.0 <==> v == ZeroVector
  {
    SquareNonNegative(v.x);
    SquareNonNegative(v.y);
    SquareNonNegative(v.z);
    v.x * v.x + v.y * v.y + v.z * v.z
  }

  lemma SquareNonNegative(a: real)
    ensures 0.0 <= a * a
    ensures a * a == 0.0 <==> a == 0.0
  {
    if a < 0.0 {
      MulStrict(0.0, -a);
      assert a * a == (-a) * (-a);
    } else if a > 0.0 {
      MulStrict(0.0, a);
    }
  }

  function Length(m: Libm, v: Vec3): real {
    m.sqrt(LengthSquared(v))
  }

  /** With a sound square root, only the zero vector has length zero. */
  lemma LengthPositive(m: Libm, v: Vec3)
    requires Sound(m)
    requires v != ZeroVector
    ensures Length(m, v) > 0.0
  {
    var l := Length(m, v);
    assert l * l == LengthSquared(v) > 0.0;
  }

  /** `Unit`: the vector scaled to length one. */
  function Unit(m: Libm, v: Vec3): (u: Vec3)
    requires Length(m, v) != 0.0
    ensures Sound(m) ==> LengthSquared(u) == 1.0
    ensures u == MulS(v, 1.0 / Length(m, v))
  {
    var l := Length(m, v);
    UnitHasLengthOne(v, l);
    DivS(v, l)
  }

  lemma UnitHasLengthOne(v: Vec3, l: real)
    requires l != 0.0
    ensures l * l == LengthSquared(v) ==> LengthSquared(DivS(v, l)) == 1.0
    ensures DivS(v, l) == MulS(v, 1.0 / l)
  {
    var il := 1.0 / l;
    RatioAsProduct(v.x, l);
    RatioAsProduct(v.y, l);
    RatioAsProduct(v.z, l);
    assert DivS(v, l) == MulS(v, il);
    ScaledSquares(v.x, v.y, v.z, il);
    assert LengthSquared(MulS(v, il)) == LengthSquared(v) * (il * il);
    if l * l == LengthSquared(v) {
      InverseSquare(l, il);
    }
  }

  lemma ScaledSquares(x: real, y: real, z: real, s: real)
    ensures (x * s) * (x * s) + (y * s) * (y * s) + (z * s) * (z * s) == (x * x + y * y + z * z) * (s * s)
  {}

  lemma InverseSquare(l: real, il: real)
    requires l != 0.0 && il == 1.0 / l
    ensures (l * l) * (il * il) == 1.0
  {
    assert l * il == 1.0;
    assert (l * l) * (il * il) == (l * il) * (l * il);
  }

  lemma RatioAsProduct(x: real, l: real)
    requires l != 0.0
    ensures x / l == x * (1.0 / l)
  {}

  /** `NearZero`: every component's magnitude is below `AlmostZero`. */
  predicate NearZero(v: Vec3) {
    Abs(v.x) < Util.AlmostZero && Abs(v.y) < Util.AlmostZero && Abs(v.z) < Util.AlmostZero
  }

  function Abs(a: real): real {
    if a < 0.0 then -a else a
  }

  /** `Reflect`: mirror `v` in the plane with normal `n`. */
  function Reflect(v: Vec3, n: Vec3): Vec3 {
    Sub(v, MulS(n, Dot(v, n) * 2.0))
  }

  /** `Refract`: Snell's law split into the perpendicular and parallel parts. */
  function Refract(m: Libm, v: Vec3, n: Vec3, indexOfRefraction: real): Vec3 {
    var cosTheta := if Dot(Neg(v), n) < 1.0 then Dot(Neg(v), n) else 1.0;
    var rOutPerp := MulS(Add(MulS(n, cosTheta), v), indexOfRefraction);
    var rOutParallel := MulS(n, -m.sqrt(Abs(1.0 - LengthSquared(rOutPerp))));
    Add(rOutPerp, rOutParallel)
  }

  // ----- random helpers -----

  /** `RandomVec3`: each component a `RandomFloat(min, max)` draw. */
  function RandomVec3(a: Random.Uint32, b: Random.Uint32, c: Random.Uint32, min: real, max: real): (v: Vec3)
    ensures min <= max ==> min <= v.x <= max && min <= v.y <= max && min <= v.z <= max
  {
    Vec3(Random.RandomFloat(a, min, max), Random.RandomFloat(b, min, max), Random.RandomFloat(c, min, max))
  }

  /** Three words of the generator: one candidate point of the cube [-1,1]^3. */
  datatype Draw3 = Draw3(a: Random.Uint32, b: Random.Uint32, c: Random.Uint32)

  function Candidate(d: Draw3): Vec3 {
    RandomVec3(d.a, d.b, d.c, -1.0, 1.0)
  }

  /** `RandomInUnitSphere`: the first candidate strictly inside the unit
      sphere.  `None` stands for a loop that has not yet accepted within the
      given draws. */
  function RandomInUnitSphere(draws: seq<Draw3>): (p: Option<Vec3>)
    ensures p.Some? ==> LengthSquared(p.value) < 1.0
    ensures p.Some? <==> exists i :: 0 <= i < |draws| && LengthSquared(Candidate(draws[i])) < 1.0
    ensures p.Some? ==> exists i :: (0 <= i < |draws| && p.value == Candidate(draws[i])
      && forall j :: 0 <= j < i ==> LengthSquared(Candidate(draws[j])) >= 1.0)
  {
    if |draws| == 0 then None
    else if LengthSquared(Candidate(draws[0])) < 1.0 then Some(Candidate(draws[0]))
    else
      var rest := RandomInUnitSphere(draws[1..]);
      assert forall i :: 1 <= i < |draws| ==> draws[i] == draws[1..][i - 1];
      if rest.Some? then
        var k :| 0 <= k < |draws[1..]| && rest.value == Candidate(draws[1..][k])
          && forall j :: 0 <= j < k ==> LengthSquared(Candidate(draws[1..][j])) >= 1.0;
        assert rest.value == Candidate(draws[k + 1]);
        rest
      else rest
  }

  /** `RandomUnitVector`: an accepted in-sphere point scaled to unit length. */
  function RandomUnitVector(m: Libm, inSphere: Vec3): (u: Vec3)
    requires Length(m, inSphere) != 0.0
    ensures Sound(m) ==> LengthSquared(u) == 1.0
  {
    Unit(m, inSphere)
  }

  /** `RandomInHemisphere`: the in-sphere point, negated unless it already
      points strictly to the normal's side. */
  function RandomInHemisphere(normal: Vec3, inSphere: Vec3): (v: Vec3)
    ensures Dot(v, normal) >= 0.0
    ensures LengthSquared(v) == LengthSquared(inSphere)
    ensures v == inSphere || v == Neg(inSphere)
  {
    if Dot(inSphere, normal) > 0.0 then inSphere else Neg(inSphere)
  }

  /** Two words of the generator: one candidate point of the square [-1,1]^2. */
  datatype Draw2 = Draw2(a: Random.Uint32, b: Random.Uint32)

  function DiscCandidate(d: Draw2): Vec3 {
    Vec3(Random.RandomFloat(d.a, -1.0, 1.0), Random.RandomFloat(d.b, -1.0, 1.0), 0.0)
  }

  /** `RandomInUnitDisc`: the first candidate strictly inside the unit disc of
      the z = 0 plane. */
  function RandomInUnitDisc(draws: seq<Draw2>): (p: Option<Vec3>)
    ensures p.Some? ==> p.value.z == 0.0 && LengthSquared(p.value) < 1.0
    ensures p.Some? ==> exists i :: 0 <= i < |draws| && p.value == DiscCandidate(draws[i])
    ensures p.None? ==> forall i :: 0 <= i < |draws| ==> LengthSquared(DiscCandidate(draws[i])) >= 1.0
  {
    if |draws| == 0 then None
    else if LengthSquared(DiscCandidate(draws[0])) < 1.0 then Some(DiscCandidate(draws[0]))
    else
      var rest := RandomInUnitDisc(draws[1..]);
      assert forall i :: 1 <= i < |draws| ==> draws[i] == draws[1..][i - 1];
      rest
  }

  // ----- algebraic properties -----

  lemma AddSubInverse(v: Vec3, w: Vec3)
    ensures Sub(Add(v, w), w) == v
    ensures Add(Sub(v, w), w) == v
    ensures Sub(v, w) == Add(v, Neg(w))
    ensures Neg(Neg(v)) == v
  {}

  lemma MulSDivSInverse(v: Vec3, t: real)
    requires t != 0.0
    ensures DivS(MulS(v, t), t) == v
    ensures MulS(DivS(v, t), t) == v
  {}

  /** `Dot` is symmetric and linear in its first argument. */
  lemma DotSymmetricLinear(u: Vec3, v: Vec3, w: Vec3, t: real)
    ensures Dot(v, w) == Dot(w, v)
    ensures Dot(Add(u, v), w) == Dot(u, w) + Dot(v, w)
    ensures Dot(MulS(v, t), w) == t * Dot(v, w)
  {
    assert Dot(MulS(v, t), w) == (v.x * t) * w.x + (v.y * t) * w.y + (v.z * t) * w.z;
    assert (v.x * t) * w.x == t * (v.x * w.x);
    assert (v.y * t) * w.y == t * (v.y * w.y);
    assert (v.z * t) * w.z == t * (v.z * w.z);
  }

  lemma DotSamples()
    ensures Dot(Vec3(1.0, 1.0, 1.0), Vec3(1.0, 1.0, 1.0)) == 3.0
    ensures Dot(Vec3(0.0, 0.0, 1.0), ZeroVector) == 0.0
    ensures Dot(Vec3(1.0, 2.0, 3.0), Vec3(-2.0, -3.0, -4.0)) == -20.0
  {
    assert Dot(Vec3(1.0, 2.0, 3.0), Vec3(-2.0, -3.0, -4.0)) == 1.0 * -2.0 + 2.0 * -3.0 + 3.0 * -4.0;
  }

  /** The cross product is orthogonal to both operands and anti-commutes. */
  lemma CrossOrthogonal(v: Vec3, w: Vec3)
    ensures Dot(Cross(v, w), v) == 0.0
    ensures Dot(Cross(v, w), w) == 0.0
    ensures Cross(w, v) == Neg(Cross(v, w))
  {
    assert Dot(Cross(v, w), v) == (v.y * w.z - v.z * w.y) * v.x + (v.z * w.x - v.x * w.z) * v.y + (v.x * w.y - v.y * w.x) * v.z;
    assert Dot(Cross(v, w), w) == (v.y * w.z - v.z * w.y) * w.x + (v.z * w.x - v.x * w.z) * w.y + (v.x * w.y - v.y * w.x) * w.z;
  }

  lemma CrossSample()
    ensures Cross(Vec3(2.0, 3.0, 4.0), Vec3(5.0, 6.0, 7.0)) == Vec3(-3.0, 6.0, -3.0)
  {}

  /** Vectors with equal components are equal. */
  lemma SameComponents(p: Vec3, q: Vec3)
    requires p.x == q.x && p.y == q.y && p.z == q.z
    ensures p == q
  {}

  lemma LengthSquaredIsSelfDot(v: Vec3)
    ensures LengthSquared(v) == Dot(v, v)
    ensures LengthSquared(ZeroVector) == 0.0
  {}

  lemma NearZeroBounds(v: Vec3)
    ensures NearZero(ZeroVector)
    ensures Abs(v.x) >= Util.AlmostZero || Abs(v.y) >= Util.AlmostZero || Abs(v.z) >= Util.AlmostZero ==> !NearZero(v)
  {}

  lemma ReflectSamples()
    ensures Reflect(Vec3(3.0, -4.0, 0.0), Vec3(0.0, 1.0, 0.0)) == Vec3(3.0, 4.0, 0.0)
  {
    var v := Vec3(3.0, -4.0, 0.0);
    assert Dot(v, Vec3(0.0, 1.0, 0.0)) == -4.0;
    assert MulS(Vec3(0.0, 1.0, 0.0), -8.0) == Vec3(0.0, -8.0, 0.0);
  }

  lemma ReflectSamplesAcross()
    ensures Reflect(Vec3(3.0, -4.0, 0.0), Vec3(1.0, 0.0, 0.0)) == Vec3(-3.0, -4.0, 0.0)
  {
    var v := Vec3(3.0, -4.0, 0.0);
    assert Dot(v, Vec3(1.0, 0.0, 0.0)) == 3.0;
    assert MulS(Vec3(1.0, 0.0, 0.0), 6.0) == Vec3(6.0, 0.0, 0.0);
  }

  lemma DotSubLeft(a: Vec3, b: Vec3, c: Vec3)
    ensures Dot(Sub(a, b), c) == Dot(a, c) - Dot(b, c)
  {
    assert (a.x - b.x) * c.x == a.x * c.x - b.x * c.x;
    assert (a.y - b.y) * c.y == a.y * c.y - b.y * c.y;
    assert (a.z - b.z) * c.z == a.z * c.z - b.z * c.z;
  }

  lemma DotMulSLeft(a: Vec3, t: real, c: Vec3)
    ensures Dot(MulS(a, t), c) == t * Dot(a, c)
  {
    assert (a.x * t) * c.x == t * (a.x * c.x);
    assert (a.y * t) * c.y == t * (a.y * c.y);
    assert (a.z * t) * c.z == t * (a.z * c.z);
  }

  lemma DotSymmetric(a: Vec3, b: Vec3)
    ensures Dot(a, b) == Dot(b, a)
  {}

  /** |v - k n|^2 expanded by bilinearity. */
  lemma DotSubScaled(v: Vec3, n: Vec3, k: real)
    ensures Dot(Sub(v, MulS(n, k)), Sub(v, MulS(n, k))) == Dot(v, v) - 2.0 * k * Dot(v, n) + k * k * Dot(n, n)
  {
    var w := Sub(v, MulS(n, k));
    DotSubScaledRow(v, n, k, v);
    DotSubScaledRow(v, n, k, n);
    DotSubScaledRow(v, n, k, w);
    DotSymmetric(v, w);
    DotSymmetric(n, w);
    DotSymmetric(n, v);
    ExpandSquare(Dot(w, w), Dot(v, w), Dot(n, w), Dot(v, v), Dot(v, n), Dot(n, n), k);
  }

  /** (v - k n) . c = v . c - k (n . c) */
  lemma DotSubScaledRow(v: Vec3, n: Vec3, k: real, c: Vec3)
    ensures Dot(Sub(v, MulS(n, k)), c) == Dot(v, c) - k * Dot(n, c)
  {
    DotSubLeft(v, MulS(n, k), c);
    DotMulSLeft(n, k, c);
  }

  lemma ExpandSquare(ww: real, vw: real, nw: real, vv: real, vn: real, nn: real, k: real)
    requires ww == vw - k * nw && vw == vv - k * vn && nw == vn - k * nn
    ensures ww == vv - 2.0 * k * vn + k * k * nn
  {}

  /** Removing `k` times `n` removes `k` from the component along a unit `n`. */
  lemma DotAlongUnit(v: Vec3, n: Vec3, k: real)
    requires Dot(n, n) == 1.0
    ensures Dot(Sub(v, MulS(n, k)), n) == Dot(v, n) - k
  {
    DotSubLeft(v, MulS(n, k), n);
    DotMulSLeft(n, k, n);
  }

  /** For a unit normal, reflecting flips the normal component: reflecting
      twice gives the vector back and the length is kept. */
  lemma ReflectInvolution(v: Vec3, n: Vec3)
    requires Dot(n, n) == 1.0
    ensures Dot(Reflect(v, n), n) == -Dot(v, n)
    ensures Reflect(Reflect(v, n), n) == v
    ensures LengthSquared(Reflect(v, n)) == LengthSquared(v)
  {
    var d := Dot(v, n);
    var k := d * 2.0;
    var r := Reflect(v, n);
    DotAlongUnit(v, n, k);
    assert Dot(r, n) == -d;
    var rr := Reflect(r, n);
    assert rr == Sub(r, MulS(n, -k));
    assert rr.x == v.x - n.x * k + n.x * k;
    assert rr.y == v.y - n.y * k + n.y * k;
    assert rr.z == v.z - n.z * k + n.z * k;
    DotSubScaled(v, n, k);
    assert Dot(r, r) == Dot(v, v) - 2.0 * k * d + k * k;
    assert k * k == 2.0 * k * d;
  }

  /** |v . n| <= 1 for unit vectors: |v - (v . n) n|^2 = 1 - (v . n)^2 is not
      negative. */
  lemma CauchySchwarzUnit(v: Vec3, n: Vec3)
    requires Dot(n, n) == 1.0 && Dot(v, v) == 1.0
    ensures -1.0 <= Dot(v, n) <= 1.0
    ensures LengthSquared(Sub(v, MulS(n, Dot(v, n)))) == 1.0 - Dot(v, n) * Dot(v, n)
  {
    ProjectionResidual(v, n);
    SquareAtMostOne(Dot(v, n), LengthSquared(Sub(v, MulS(n, Dot(v, n)))), Dot(v, v), Dot(v, n), Dot(n, n));
  }

  /** The part of `v` left after removing its component along `n`. */
  lemma ProjectionResidual(v: Vec3, n: Vec3)
    ensures LengthSquared(Sub(v, MulS(n, Dot(v, n)))) == Dot(v, v) - 2.0 * Dot(v, n) * Dot(v, n) + Dot(v, n) * Dot(v, n) * Dot(n, n)
  {
    var w := Sub(v, MulS(n, Dot(v, n)));
    assert Dot(w, w) == Dot(v, v) - 2.0 * Dot(v, n) * Dot(v, n) + Dot(v, n) * Dot(v, n) * Dot(n, n) by {
      DotSubScaled(v, n, Dot(v, n));
    }
    assert LengthSquared(w) == Dot(w, w) by {
      LengthSquaredIsSelfDot(w);
    }
  }

  lemma SquareAtMostOne(d: real, rest: real, vv: real, vn: real, nn: real)
    requires vv == 1.0 && nn == 1.0 && vn == d
    requires 0.0 <= rest && rest == vv - 2.0 * d * vn + d * d * nn
    ensures -1.0 <= d <= 1.0
    ensures rest == 1.0 - d * d
  {
    if d > 1.0 {
      MulStrict(1.0, d);
    }
    if d < -1.0 {
      MulStrict(1.0, -d);
    }
  }

  /** With ratio 1, a unit direction meeting a unit normal from the front is
      not bent: the perpendicular part is recombined with its exact parallel
      part because sqrt(x^2) = |x|. */
  lemma RefractUnitRatioIsIdentity(m: Libm, v: Vec3, n: Vec3)
    requires Sound(m)
    requires Dot(n, n) == 1.0 && Dot(v, v) == 1.0 && Dot(v, n) <= 0.0
    ensures Refract(m, v, n, 1.0) == v
  {
    var d := Dot(v, n);
    CauchySchwarzUnit(v, n);
    NegDot(v, n);
    var perp := MulS(Add(MulS(n, -d), v), 1.0);
    PerpendicularPart(v, n, d);
    assert perp == Sub(v, MulS(n, d));
    var l := LengthSquared(perp);
    assert l == 1.0 - d * d;
    assert Abs(1.0 - l) == d * d;
    SqrtOfSquare(m, d);
    var par := MulS(n, -m.sqrt(Abs(1.0 - l)));
    assert par == MulS(n, d);
    RecombineParts(v, n, d);
  }

  lemma NegDot(v: Vec3, n: Vec3)
    ensures Dot(Neg(v), n) == -Dot(v, n)
  {}

  lemma PerpendicularPart(v: Vec3, n: Vec3, d: real)
    ensures MulS(Add(MulS(n, -d), v), 1.0) == Sub(v, MulS(n, d))
  {}

  lemma RecombineParts(v: Vec3, n: Vec3, d: real)
    ensures Add(Sub(v, MulS(n, d)), MulS(n, d)) == v
  {}

  /** The unit-test's strict `> 0` for the hemisphere draw fails for a draw
      orthogonal to the normal. */
  lemma HemisphereOrthogonalDraw()
    ensures Dot(RandomInHemisphere(Vec3(0.0, 1.0, 0.0), Vec3(0.5, 0.0, 0.0)), Vec3(0.0, 1.0, 0.0)) == 0.0
  {}

  // ----- triple products -----

  /** One coordinate of the reciprocal-basis identity, over scalars: with
      `d = a . (b x c)` and `q1, q2, q3` the products of `p` with
      `b x c`, `c x a` and `a x b`, `p1 d = a1 q1 + b1 q2 + c1 q3`. */
  lemma TripleExpansion(a1: real, a2: real, a3: real, b1: real, b2: real, b3: real,
                        c1: real, c2: real, c3: real, p1: real, p2: real, p3: real,
                        d: real, q1: real, q2: real, q3: real)
    requires d == a1 * (b2 * c3 - b3 * c2) + a2 * (b3 * c1 - b1 * c3) + a3 * (b1 * c2 - b2 * c1)
    requires q1 == p1 * (b2 * c3 - b3 * c2) + p2 * (b3 * c1 - b1 * c3) + p3 * (b1 * c2 - b2 * c1)
    requires q2 == p1 * (c2 * a3 - c3 * a2) + p2 * (c3 * a1 - c1 * a3) + p3 * (c1 * a2 - c2 * a1)
    requires q3 == p1 * (a2 * b3 - a3 * b2) + p2 * (a3 * b1 - a1 * b3) + p3 * (a1 * b2 - a2 * b1)
    ensures p1 * d == (a1 * q1 + b1 * q2) + c1 * q3
  {}

  lemma ReciprocalX(a: Vec3, b: Vec3, c: Vec3, p: Vec3)
    ensures p.x * Dot(a, Cross(b, c)) == (a.x * Dot(p, Cross(b, c)) + b.x * Dot(p, Cross(c, a))) + c.x * Dot(p, Cross(a, b))
  {
    TripleExpansion(a.x, a.y, a.z, b.x, b.y, b.z, c.x, c.y, c.z, p.x, p.y, p.z,
                    Dot(a, Cross(b, c)), Dot(p, Cross(b, c)), Dot(p, Cross(c, a)), Dot(p, Cross(a, b)));
  }

  lemma ReciprocalY(a: Vec3, b: Vec3, c: Vec3, p: Vec3)
    ensures p.y * Dot(a, Cross(b, c)) == (a.y * Dot(p, Cross(b, c)) + b.y * Dot(p, Cross(c, a))) + c.y * Dot(p, Cross(a, b))
  {
    TripleExpansion(a.y, a.z, a.x, b.y, b.z, b.x, c.y, c.z, c.x, p.y, p.z, p.x,
                    Dot(a, Cross(b, c)), Dot(p, Cross(b, c)), Dot(p, Cross(c, a)), Dot(p, Cross(a, b)));
  }

  lemma ReciprocalZ(a: Vec3, b: Vec3, c: Vec3, p: Vec3)
    ensures p.z * Dot(a, Cross(b, c)) == (a.z * Dot(p, Cross(b, c)) + b.z * Dot(p, Cross(c, a))) + c.z * Dot(p, Cross(a, b))
  {
    TripleExpansion(a.z, a.x, a.y, b.z, b.x, b.y, c.z, c.x, c.y, p.z, p.x, p.y,
                    Dot(a, Cross(b, c)), Dot(p, Cross(b, c)), Dot(p, Cross(c, a)), Dot(p, Cross(a, b)));
  }

  /** Any vector in the coordinates of a basis `a, b, c`, scaled by the
      basis volume `a . (b x c)`; the solution the ray-triangle and
      ray-quad tests compute. */
  lemma ReciprocalBasis(a: Vec3, b: Vec3, c: Vec3, p: Vec3)
    ensures MulS(p, Dot(a, Cross(b, c)))
         == Add(Add(MulS(a, Dot(p, Cross(b, c))), MulS(b, Dot(p, Cross(c, a)))), MulS(c, Dot(p, Cross(a, b))))
  {
    ReciprocalX(a, b, c, p);
    ReciprocalY(a, b, c, p);
    ReciprocalZ(a, b, c, p);
  }

  /** The scalar triple product is invariant under cyclic rotation. */
  lemma TripleCyclic(a: Vec3, b: Vec3, c: Vec3)
    ensures Dot(a, Cross(b, c)) == Dot(b, Cross(c, a))
    ensures Dot(a, Cross(b, c)) == Dot(c, Cross(a, b))
  {
    TripleRotate(a, b, c);
    TripleRotate(b, c, a);
  }

  lemma TripleRotate(a: Vec3, b: Vec3, c: Vec3)
    ensures Dot(a, Cross(b, c)) == Dot(b, Cross(c, a))
  {
    ScalarTripleRotate(a.x, a.y, a.z, b.x, b.y, b.z, c.x, c.y, c.z, Dot(a, Cross(b, c)), Dot(b, Cross(c, a)));
  }

  lemma ScalarTripleRotate(a1: real, a2: real, a3: real, b1: real, b2: real, b3: real,
                           c1: real, c2: real, c3: real, abc: real, bca: real)
    requires abc == a1 * (b2 * c3 - b3 * c2) + a2 * (b3 * c1 - b1 * c3) + a3 * (b1 * c2 - b2 * c1)
    requires bca == b1 * (c2 * a3 - c3 * a2) + b2 * (c3 * a1 - c1 * a3) + b3 * (c1 * a2 - c2 * a1)
    ensures abc == bca
  {}

  /** `Dot` is linear in its first argument over a two-term combination. */
  lemma DotCombination(u: Vec3, v: Vec3, a: real, b: real, c: Vec3)
    ensures Dot(Add(MulS(u, a), MulS(v, b)), c) == a * Dot(u, c) + b * Dot(v, c)
  {
    DotMulSLeft(u, a, c);
    DotMulSLeft(v, b, c);
    DotSymmetricLinear(MulS(u, a), MulS(v, b), c, 0.0);
  }

  /** The coefficient of `p` in a combination of `p`, `q` and `s` is read off
      by the dot product with `q × s`. */
  lemma Coefficient(p: Vec3, q: Vec3, s: Vec3, x: real, y: real, z: real)
    ensures Dot(Add(Add(MulS(p, x), MulS(q, y)), MulS(s, z)), Cross(q, s)) == x * Dot(p, Cross(q, s))
  {
    var c := Cross(q, s);
    DotCombination(p, q, x, y, c);
    DotMulSLeft(s, z, c);
    CrossOrthogonal(q, s);
    DotSymmetric(q, c);
    DotSymmetric(s, c);
  }

  /** `s` lies between 0 and `d`, whatever the sign of `d`. */
  predicate WithinZeroTo(s: real, d: real) {
    0.0 <= s <= d || d <= s <= 0.0
  }

  /** A fraction `t` in `[0, 1]` of `d` lies between 0 and `d`. */
  lemma ScaledWithin(d: real, t: real)
    requires 0.0 <= t <= 1.0
    ensures WithinZeroTo(d * t, d)
  {
    if d >= 0.0 {
      ScaledBetween(d, t);
    } else {
      ScaledBetween(-d, t);
      assert (-d) * t == -(d * t);
    }
  }

  lemma ScaledBetween(d: real, t: real)
    requires 0.0 <= d && 0.0 <= t <= 1.0
    ensures 0.0 <= d * t <= d
  {}

  /** Every coordinate of `v` scaled by a fraction lies between 0 and the
      coordinate of `v`. */
  lemma MulSWithin(v: Vec3, t: real)
    requires 0.0 <= t <= 1.0
    ensures WithinZeroTo(MulS(v, t).x, v.x)
    ensures WithinZeroTo(MulS(v, t).y, v.y)
    ensures WithinZeroTo(MulS(v, t).z, v.z)
  {
    ScaledWithin(v.x, t);
    ScaledWithin(v.y, t);
    ScaledWithin(v.z, t);
  }
}
