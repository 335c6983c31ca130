/** The transcendental part of Go's `math` package, as uninterpreted function
    values.  A renderer operation that needs a square root, a trigonometric
    function, a logarithm or pi takes a `Libm` and, where a proof needs it,
    requires `Sound`, which states only the facts the proofs use. */
module Libm {

  datatype Libm = Libm(
    sqrt: real -> real,
    sin: real -> real,
    cos: real -> real,
    tan: real -> real,
    log: real -> real,
    acos: real -> real,
    atan2: (real, real) -> real,
    pi: real
  )

  /** The minimal facts assumed of `math.Sqrt`, `math.Sin`, `math.Cos`,
      `math.Log`, the ranges of `math.Acos` and `math.Atan2`, and `math.Pi`.
      Go's `math.Sqrt` of a negative number is NaN; here it is some
      unspecified real. */
  ghost predicate Sound(m: Libm) {
    && 3.0 < m.pi < 4.0
    && (forall x: real {:trigger m.sqrt(x)} :: 0.0 <= x ==> 0.0 <= m.sqrt(x) && m.sqrt(x) * m.sqrt(x) == x)
    && (forall a: real {:trigger m.sin(a)} {:trigger m.cos(a)} :: m.sin(a) * m.sin(a) + m.cos(a) * m.cos(a) == 1.0)
    && (forall u: real {:trigger m.log(u)} :: 0.0 < u <= 1.0 ==> m.log(u) <= 0.0)
    && m.log(1.0) == 0.0
    && (forall x: real {:trigger m.acos(x)} :: -1.0 <= x <= 1.0 ==> 0.0 <= m.acos(x) <= m.pi)
    && (forall y: real, x: real {:trigger m.atan2(y, x)} :: -m.pi <= m.atan2(y, x) <= m.pi)
  }

  /** `math.Sqrt(x * x) == |x|`, the fact the refraction test depends on. */
  lemma SqrtOfSquare(m: Libm, x: real)
    requires Sound(m)
    ensures m.sqrt(x * x) == if x < 0.0 then -x else x
  {
    var s := m.sqrt(x * x);
    var a := if x < 0.0 then -x else x;
    assert 0.0 <= s && s * s == a * a;
    assert (s - a) * (s + a) == 0.0;
    if s + a != 0.0 {
      ZeroProduct(s - a, s + a);
    }
  }

  lemma ZeroProduct(p: real, q: real)
    requires p * q == 0.0 && q != 0.0
    ensures p == 0.0
  {
    assert p == (p * q) / q;
  }

  lemma MulStrict(p: real, q: real)
    requires 0.0 <= p < q
    ensures p * p < q * q
  {
    assert (q - p) * p >= 0.0;
    assert (q - p) * q > 0.0;
  }

  /** Square root is monotone on the non-negative reals. */
  lemma SqrtMonotone(m: Libm, x: real, y: real)
    requires Sound(m)
    requires 0.0 <= x <= y
    ensures m.sqrt(x) <= m.sqrt(y)
  {
    var a, b := m.sqrt(x), m.sqrt(y);
    assert 0.0 <= a && a * a == x;
    assert 0.0 <= b && b * b == y;
    if a > b {
      MulStrict(b, a);
    }
  }

  /** `sqrt(x) < 1` exactly when `x < 1`, for `x >= 0`. */
  lemma SqrtBelowOne(m: Libm, x: real)
    requires Sound(m)
    requires 0.0 <= x
    ensures m.sqrt(x) < 1.0 <==> x < 1.0
  {
    var a := m.sqrt(x);
    assert 0.0 <= a && a * a == x;
    if a < 1.0 {
      MulStrict(a, 1.0);
    } else {
      assert 1.0 * 1.0 <= a * a by { if a > 1.0 { MulStrict(1.0, a); } }
    }
  }
}
