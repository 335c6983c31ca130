/** Closed intervals of the extended real line (internal/util/interval.go).
    The same type bounds ray parameters and the three axes of a bounding box. */
module Intervals {
  import opened ExtReal

  /** The closed range from `min` to `max`, both ends included. */
  datatype Interval = Interval(min: XReal, max: XReal)

  /** `[+Inf, -Inf]`: contains nothing. */
  const EmptyInterval: Interval := Interval(PosInf, NegInf)

  /** `[-Inf, +Inf]`: contains every value. */
  const UniverseInterval: Interval := Interval(NegInf, PosInf)

  /** A finite interval `[lo, hi]`. */
  function Between(lo: real, hi: real): Interval {
    Interval(Fin(lo), Fin(hi))
  }

  /** `Contains`: inclusive at both ends. */
  predicate Contains(i: Interval, x: real) {
    Le(i.min, Fin(x)) && Le(Fin(x), i.max)
  }

  /** `outer`'s bounds enclose `inner`'s bounds. */
  predicate Encloses(outer: Interval, inner: Interval) {
    Le(outer.min, inner.min) && Le(inner.max, outer.max)
  }

  /** `CombineIntervals`: the smallest interval whose bounds enclose both
      arguments; any gap between them is included. */
  function CombineIntervals(a: Interval, b: Interval): (c: Interval)
    ensures Encloses(c, a) && Encloses(c, b)
    ensures c.min == a.min || c.min == b.min
    ensures c.max == a.max || c.max == b.max
  {
    Interval(ExtReal.Min(a.min, b.min), ExtReal.Max(a.max, b.max))
  }

  /** `Clamp`: the end the value overshoots, otherwise the value itself. */
  function Clamp(i: Interval, x: real): (r: XReal)
    ensures Contains(i, x) ==> r == Fin(x)
    ensures Le(i.min, i.max) ==> Le(i.min, r) && Le(r, i.max)
    ensures Lt(Fin(x), i.min) ==> r == i.min
  {
    if Lt(Fin(x), i.min) then i.min
    else if Lt(i.max, Fin(x)) then i.max
    else Fin(x)
  }

  /** `Size`: `Max - Min`, negative for an inverted interval and NaN when both
      ends are the same infinity. */
  function Size(i: Interval): (s: F64)
    ensures i.min.Fin? && i.max.Fin? ==> s == FromReal(i.max.r - i.min.r)
    ensures i.min.Fin? && i.max.Fin? ==> (0.0 <= s.x.r <==> Le(i.min, i.max))
    ensures i == EmptyInterval ==> s == Num(NegInf)
    ensures i == UniverseInterval ==> s == Num(PosInf)
  {
    match (i.min, i.max)
    case (Fin(lo), Fin(hi)) => FromReal(hi - lo)
    case (PosInf, PosInf) => NaN
    case (NegInf, NegInf) => NaN
    case (_, PosInf) => Num(PosInf)
    case (PosInf, _) => Num(NegInf)
    case (NegInf, _) => Num(PosInf)
    case (Fin(_), NegInf) => Num(NegInf)
  }

  /** `Expand`: half of `delta` is added on each side. */
  function Expand(i: Interval, delta: real): Interval {
    var padding := delta / 2.0;
    Interval(Plus(i.min, -padding), Plus(i.max, padding))
  }

  /** `Add`: both ends shifted by `displacement`. */
  function Add(i: Interval, displacement: real): (s: Interval)
    ensures Size(s) == Size(i)
  {
    Interval(Plus(i.min, displacement), Plus(i.max, displacement))
  }

  /** The midpoint of a finite interval. */
  function Mid(i: Interval): real
    requires i.min.Fin? && i.max.Fin?
  {
    (i.min.r + i.max.r) / 2.0
  }

  // ----- properties -----

  lemma EmptyContainsNothing(x: real)
    ensures !Contains(EmptyInterval, x)
  {}

  lemma UniverseContainsEverything(x: real)
    ensures Contains(UniverseInterval, x)
  {}

  /** Combining with the empty interval, on either side, changes nothing. */
  lemma CombineWithEmpty(a: Interval)
    ensures CombineIntervals(EmptyInterval, a) == a
    ensures CombineIntervals(a, EmptyInterval) == a
  {}

  /** Every value of either interval, and of any gap between them, is in
      the combination. */
  lemma CombineContainsGap(a: Interval, b: Interval, x: real)
    requires Le(a.min, a.max) && Le(b.min, b.max)
    requires Contains(a, x) || Contains(b, x)
      || (Le(a.max, Fin(x)) && Le(Fin(x), b.min))
      || (Le(b.max, Fin(x)) && Le(Fin(x), a.min))
    ensures Contains(CombineIntervals(a, b), x)
  {}

  /** Nothing outside both bounds is in the combination. */
  lemma CombineIsTight(a: Interval, b: Interval, x: real)
    requires Contains(CombineIntervals(a, b), x)
    ensures (Le(a.min, Fin(x)) || Le(b.min, Fin(x))) && (Le(Fin(x), a.max) || Le(Fin(x), b.max))
  {}

  /** Contains is inclusive at both ends of a finite non-inverted interval. */
  lemma ContainsEnds(lo: real, hi: real)
    requires lo <= hi
    ensures Contains(Between(lo, hi), lo) && Contains(Between(lo, hi), hi)
    ensures forall x: real :: Contains(Between(lo, hi), x) <==> lo <= x <= hi
  {}

  /** Clamping twice is clamping once. */
  lemma ClampIdempotent(i: Interval, x: real)
    requires Le(i.min, i.max)
    requires Clamp(i, x).Fin?
    ensures Clamp(i, Clamp(i, x).r) == Clamp(i, x)
  {}

  /** On a finite interval the clamped value is in the interval, and it is
      the value itself exactly when the value was already inside. */
  lemma ClampFinite(lo: real, hi: real, x: real)
    requires lo <= hi
    ensures Clamp(Between(lo, hi), x).Fin?
    ensures lo <= Clamp(Between(lo, hi), x).r <= hi
    ensures Clamp(Between(lo, hi), x).r == x <==> lo <= x <= hi
  {}

  /** `Expand(d)` grows the size by exactly `d` and keeps the midpoint. */
  lemma ExpandGrowsSize(i: Interval, delta: real)
    requires i.min.Fin? && i.max.Fin?
    ensures Size(Expand(i, delta)) == FromReal(Size(i).x.r + delta)
    ensures Mid(Expand(i, delta)) == Mid(i)
  {}

  /** `Add(d)` keeps the size and moves the midpoint by `d`. */
  lemma AddKeepsSize(i: Interval, d: real)
    requires i.min.Fin? && i.max.Fin?
    ensures Size(Add(i, d)) == Size(i)
    ensures Add(i, d).min == Fin(i.min.r + d) && Add(i, d).max == Fin(i.max.r + d)
  {}

  /** A value lies in the shifted interval exactly when the value it was
      shifted from lies in the original. */
  lemma AddShifts(i: Interval, d: real, x: real)
    ensures Contains(i, x) <==> Contains(Add(i, d), x + d)
  {}

  /** Shifting by zero changes nothing; two shifts add up. */
  lemma AddZero(i: Interval)
    ensures Add(i, 0.0) == i
  {}

  lemma AddTwice(i: Interval, a: real, b: real)
    ensures Add(Add(i, a), b) == Add(i, a + b)
  {}
}
