/** Extended reals for the places where the renderer relies on IEEE-754
    infinities and NaN.

    `XReal` is the real line closed with the two infinities; interval bounds
    (`EmptyInterval`, `UniverseInterval`, the open-ended ray interval
    `[0.001, +Inf]`) live here.  `F64` adds NaN on top of it and is used only
    where the renderer divides by a sampled density and filters the result.
    Rounding and signed zero are not modelled: every finite float is a real. */
module ExtReal {

  datatype XReal = NegInf | Fin(r: real) | PosInf

  /** `a <= b` on the extended line. */
  predicate Le(a: XReal, b: XReal) {
    match a
    case NegInf => true
    case Fin(x) => (b.Fin? && x <= b.r) || b.PosInf?
    case PosInf => b.PosInf?
  }

  /** `a < b` on the extended line. */
  predicate Lt(a: XReal, b: XReal) {
    Le(a, b) && a != b
  }

  /** math.Min without NaN operands. */
  function Min(a: XReal, b: XReal): (m: XReal)
    ensures Le(m, a) && Le(m, b)
    ensures m == a || m == b
  {
    if Le(a, b) then a else b
  }

  /** math.Max without NaN operands. */
  function Max(a: XReal, b: XReal): (m: XReal)
    ensures Le(a, m) && Le(b, m)
    ensures m == a || m == b
  {
    if Le(a, b) then b else a
  }

  /** `a + d` for a finite `d`: infinities absorb the shift. */
  function Plus(a: XReal, d: real): (s: XReal)
    ensures s.Fin? <==> a.Fin?
    ensures a.Fin? ==> s.r == a.r + d
    ensures !a.Fin? ==> s == a
  {
    match a
    case Fin(x) => Fin(x + d)
    case _ => a
  }

  lemma LeTransitive(a: XReal, b: XReal, c: XReal)
    requires Le(a, b) && Le(b, c)
    ensures Le(a, c)
  {}

  lemma LeTotal(a: XReal, b: XReal)
    ensures Le(a, b) || Le(b, a)
  {}

  lemma LeAntisymmetric(a: XReal, b: XReal)
    requires Le(a, b) && Le(b, a)
    ensures a == b
  {}

  /** A float64 value: NaN or an extended real. */
  datatype F64 = NaN | Num(x: XReal)

  function FromReal(r: real): F64 {
    Num(Fin(r))
  }

  /** Neither NaN nor infinite. */
  predicate IsFinite(a: F64) {
    a.Num? && a.x.Fin?
  }

  /** IEEE `a + b`: NaN is absorbing and `+Inf + -Inf` is NaN. */
  function Add(a: F64, b: F64): (s: F64)
    ensures (a.NaN? || b.NaN?) ==> s.NaN?
    ensures IsFinite(a) && IsFinite(b) ==> s == FromReal(a.x.r + b.x.r)
  {
    if a.NaN? || b.NaN? then NaN
    else match (a.x, b.x)
      case (Fin(p), Fin(q)) => FromReal(p + q)
      case (PosInf, NegInf) => NaN
      case (NegInf, PosInf) => NaN
      case (Fin(_), inf) => Num(inf)
      case (inf, _) => Num(inf)
  }

  /** IEEE `-a`. */
  function Neg(a: F64): (n: F64)
    ensures a.NaN? <==> n.NaN?
    ensures IsFinite(a) ==> n == FromReal(-a.x.r)
  {
    match a
    case NaN => NaN
    case Num(NegInf) => Num(PosInf)
    case Num(PosInf) => Num(NegInf)
    case Num(Fin(r)) => FromReal(-r)
  }

  /** IEEE `a - b`: NaN when both are the same infinity. */
  function Sub(a: F64, b: F64): (d: F64)
    ensures (a.NaN? || b.NaN?) ==> d.NaN?
    ensures IsFinite(a) && IsFinite(b) ==> d == FromReal(a.x.r - b.x.r)
    ensures a.Num? && b.Num? ==> (d.NaN? <==> a == b && !a.x.Fin?)
    ensures a.Num? && b.Num? && Le(b.x, a.x) && d.Num? ==> Le(Fin(0.0), d.x)
  {
    Add(a, Neg(b))
  }

  /** Sign of a non-NaN value: -1, 0 or 1. */
  function Sign(x: XReal): int {
    match x
    case NegInf => -1
    case PosInf => 1
    case Fin(r) => if r < 0.0 then -1 else if r > 0.0 then 1 else 0
  }

  /** The infinity carrying sign `s` (`s` is -1 or 1). */
  function Inf(s: int): XReal {
    if s < 0 then NegInf else PosInf
  }

  /** IEEE `a * b`: an infinity times zero is NaN. */
  function Mul(a: F64, b: F64): (p: F64)
    ensures (a.NaN? || b.NaN?) ==> p.NaN?
    ensures IsFinite(a) && IsFinite(b) ==> p == FromReal(a.x.r * b.x.r)
  {
    if a.NaN? || b.NaN? then NaN
    else if a.x.Fin? && b.x.Fin? then FromReal(a.x.r * b.x.r)
    else if Sign(a.x) == 0 || Sign(b.x) == 0 then NaN
    else Num(Inf(Sign(a.x) * Sign(b.x)))
  }

  /** IEEE `a / b` (signed zero not modelled: a zero divisor counts as +0). */
  function Div(a: F64, b: F64): (q: F64)
    ensures (a.NaN? || b.NaN?) ==> q.NaN?
    ensures a.Num? && b == FromReal(0.0) ==> (q.NaN? <==> Sign(a.x) == 0)
    ensures IsFinite(a) && IsFinite(b) && b.x.r != 0.0 ==> q == FromReal(a.x.r / b.x.r)
  {
    if a.NaN? || b.NaN? then NaN
    else if !a.x.Fin? && !b.x.Fin? then NaN
    else if !b.x.Fin? then FromReal(0.0)
    else if b.x.r == 0.0 then
      (if Sign(a.x) == 0 then NaN else Num(Inf(Sign(a.x))))
    else if !a.x.Fin? then Num(Inf(Sign(a.x) * Sign(b.x)))
    else FromReal(a.x.r / b.x.r)
  }

  /** Go's `a < b` on float64: false whenever either side is NaN. */
  predicate FLt(a: F64, b: F64) {
    a.Num? && b.Num? && Lt(a.x, b.x)
  }

  /** Go's `a <= b` on float64: false whenever either side is NaN. */
  predicate FLe(a: F64, b: F64) {
    a.Num? && b.Num? && Le(a.x, b.x)
  }

  /** Without NaN, `<=` is the negation of the reversed `<`. */
  lemma FLeNotFLt(a: F64, b: F64)
    requires a.Num? && b.Num?
    ensures FLe(a, b) <==> !FLt(b, a)
  {}
}
