/** Constant-density medium (hittable/constantMedium.go): fog filling a
    boundary object.  A ray that crosses the boundary scatters at a random
    distance inside it, drawn from an exponential distribution.  The
    boundary is generic (the caller supplies its `hit`); the uniform draw and
    the random unit normal are parameters. */
module ConstantMedia {
  import opened Libm
  import opened Vectors
  import opened Wrappers
  import opened ExtReal
  import opened Textures
  import opened Materials
  import opened Hittables
  import Intervals
  import Rays

  /** `negativeInverseDensity` is `-1 / density`: finite for a non-zero
      density and `-Inf` for a zero one, as Go's float division gives. */
  datatype ConstantMedium<T> = ConstantMedium(boundary: T, negativeInverseDensity: XReal, phaseFunction: Material)

  /** How far past the entry hit the search for the exit hit starts. */
  const ExitSearchOffset: real := 0.0001

  /** `NewConstantMedium`: `-1 / density` and an isotropic phase function of
      the given colour.  The boundary's own material is never used.  A zero
      density gives the factor `-Inf` (signed zero is not modelled, so `-0`
      counts as `+0`). */
  function NewConstantMedium<T>(boundary: T, density: real, color: Vec3): (cm: ConstantMedium<T>)
    ensures cm.boundary == boundary
    ensures cm.negativeInverseDensity == NegInf <==> density == 0.0
    ensures density != 0.0 ==> cm.negativeInverseDensity.Fin? && cm.negativeInverseDensity.r * density == -1.0
    ensures Lt(cm.negativeInverseDensity, Fin(0.0)) <==> density >= 0.0
    ensures !cm.negativeInverseDensity.PosInf?
    ensures cm.phaseFunction == Isotropic(SolidColor(color))
  {
    var factor := if density == 0.0 then NegInf else Fin(-1.0 / density);
    ConstantMedium(boundary, factor, Isotropic(SolidColor(color)))
  }

  /** The larger of two reals (`math.Max` on finite values). */
  function RealMax(a: real, b: real): (m: real)
    ensures a <= m && b <= m && (m == a || m == b)
  {
    if a <= b then b else a
  }

  /** The boundary's chord from `enter` to `exit`, clipped to `rayLength`:
      `None` when the clipped chord is empty; otherwise its two ends, finite,
      the entry moved up to 0 when it lies behind the ray's origin. */
  function Clip(enter: real, exit: real, rayLength: Intervals.Interval): (seg: Option<(real, real)>)
    ensures seg.Some? <==> Lt(Max(Fin(enter), rayLength.min), Min(Fin(exit), rayLength.max))
    ensures seg.Some? ==> && 0.0 <= seg.value.0 && enter <= seg.value.0 && Le(rayLength.min, Fin(seg.value.0))
                          && seg.value.1 <= exit && Le(Fin(seg.value.1), rayLength.max)
    ensures seg.Some? ==> seg.value.0 == 0.0 || seg.value.0 == enter || Fin(seg.value.0) == rayLength.min
  {
    var lo, hi := Max(Fin(enter), rayLength.min), Min(Fin(exit), rayLength.max);
    if Le(hi, lo) then None
    else
      LeTotal(lo, hi);
      Some((RealMax(lo.r, 0.0), hi.r))
  }

  /** The free flight inside the clipped chord `seg`: a distance drawn as
      `-log(u) / density` along the ray; `None` when it reaches beyond the
      chord, otherwise the ray parameter where it ends.  A zero draw makes
      `math.Log` return -Inf and the drawn distance +Inf for a positive
      density. */
  function FreeFlight(m: Libm, negativeInverseDensity: real, seg: (real, real), rLength: real, u: real): (t: Option<real>)
    requires 0.0 <= u <= 1.0
    requires u == 0.0 ==> negativeInverseDensity < 0.0
    requires rLength != 0.0
    ensures t.Some? ==> u > 0.0
    ensures t.Some? <==> u > 0.0 && negativeInverseDensity * m.log(u) <= (seg.1 - seg.0) * rLength
  {
    if u == 0.0 then None
    else
      var distanceInsideBoundary := (seg.1 - seg.0) * rLength;
      var hitDistance := negativeInverseDensity * m.log(u);
      if hitDistance > distanceInsideBoundary then None
      else Some(seg.0 + hitDistance / rLength)
  }

  /** The flight for the medium's factor: `FreeFlight` for a finite one.
      For `-Inf` (zero density) the drawn distance `-Inf * log(u)` is `+Inf`
      for every draw below 1, longer than any chord. */
  function Flight(m: Libm, factor: XReal, seg: (real, real), rLength: real, u: real): (t: Option<real>)
    requires 0.0 <= u <= 1.0
    requires !factor.PosInf? && (factor.NegInf? ==> u < 1.0)
    requires u == 0.0 ==> Lt(factor, Fin(0.0))
    requires rLength != 0.0
    ensures factor.NegInf? ==> t.None?
    ensures factor.Fin? ==> t == FreeFlight(m, factor.r, seg, rLength, u)
  {
    match factor
    case Fin(k) => FreeFlight(m, k, seg, rLength, u)
    case _ => None
  }

  /** `Hit`: the boundary's first hit anywhere on the ray, then its next hit
      a little further on; the chord between them clipped to `rayLength`;
      then the free flight.  A flight that ends inside the chord scatters
      there, with a random normal and the phase function. */
  function Hit<T>(m: Libm, cm: ConstantMedium<T>, hit: (T, Rays.Ray, Intervals.Interval) -> Option<HitRecord>,
                  r: Rays.Ray, rayLength: Intervals.Interval, u: real, normal: Vec3): (rec: Option<HitRecord>)
    requires 0.0 <= u <= 1.0
    requires !cm.negativeInverseDensity.PosInf? && (cm.negativeInverseDensity.NegInf? ==> u < 1.0)
    requires u == 0.0 ==> Lt(cm.negativeInverseDensity, Fin(0.0))
    requires Length(m, r.direction) != 0.0
    ensures rec.Some? ==> && rec.value.hitPoint == Rays.At(r, rec.value.rayLength)
                          && rec.value.normal == normal && rec.value.material == cm.phaseFunction
  {
    var first := hit(cm.boundary, r, Intervals.UniverseInterval);
    if first.None? then None
    else
      var second := hit(cm.boundary, r, Intervals.Interval(Fin(first.value.rayLength + ExitSearchOffset), PosInf));
      if second.None? then None
      else
        var seg := Clip(first.value.rayLength, second.value.rayLength, rayLength);
        if seg.None? then None
        else
          var t := Flight(m, cm.negativeInverseDensity, seg.value, Length(m, r.direction), u);
          if t.None? then None
          else Some(HitRecord(Rays.At(r, t.value), normal, cm.phaseFunction, t.value, 0.0, 0.0, false))
  }

  /** The entry and exit hits `Hit` uses. */
  function Entry<T>(cm: ConstantMedium<T>, hit: (T, Rays.Ray, Intervals.Interval) -> Option<HitRecord>,
                    r: Rays.Ray): Option<HitRecord> {
    hit(cm.boundary, r, Intervals.UniverseInterval)
  }

  function Exit<T>(cm: ConstantMedium<T>, hit: (T, Rays.Ray, Intervals.Interval) -> Option<HitRecord>,
                   r: Rays.Ray): Option<HitRecord>
    requires Entry(cm, hit, r).Some?
  {
    hit(cm.boundary, r, Intervals.Interval(Fin(Entry(cm, hit, r).value.rayLength + ExitSearchOffset), PosInf))
  }

  /** The clipped chord, when the boundary is hit twice. */
  function Chord<T>(cm: ConstantMedium<T>, hit: (T, Rays.Ray, Intervals.Interval) -> Option<HitRecord>,
                    r: Rays.Ray, rayLength: Intervals.Interval): Option<(real, real)> {
    if Entry(cm, hit, r).None? || Exit(cm, hit, r).None? then None
    else Clip(Entry(cm, hit, r).value.rayLength, Exit(cm, hit, r).value.rayLength, rayLength)
  }

  /** `Hit` scatters exactly when the boundary is hit twice, the clipped
      chord is not empty and the free flight ends inside it, and then at the
      end of the flight.  Each miss of the Go code is one way to fail. */
  lemma HitIsFlightInChord<T>(m: Libm, cm: ConstantMedium<T>, hit: (T, Rays.Ray, Intervals.Interval) -> Option<HitRecord>,
                              r: Rays.Ray, rayLength: Intervals.Interval, u: real, normal: Vec3)
    requires 0.0 <= u <= 1.0
    requires !cm.negativeInverseDensity.PosInf? && (cm.negativeInverseDensity.NegInf? ==> u < 1.0)
    requires u == 0.0 ==> Lt(cm.negativeInverseDensity, Fin(0.0))
    requires Length(m, r.direction) != 0.0
    ensures var rec, seg := Hit(m, cm, hit, r, rayLength, u, normal), Chord(cm, hit, r, rayLength);
            rec.Some? <==> seg.Some? && Flight(m, cm.negativeInverseDensity, seg.value, Length(m, r.direction), u).Some?
    ensures var rec, seg := Hit(m, cm, hit, r, rayLength, u, normal), Chord(cm, hit, r, rayLength);
            rec.Some? ==> rec.value.rayLength == Flight(m, cm.negativeInverseDensity, seg.value, Length(m, r.direction), u).value
    ensures Entry(cm, hit, r).None? ==> Hit(m, cm, hit, r, rayLength, u, normal).None?
    ensures cm.negativeInverseDensity.NegInf? ==> Hit(m, cm, hit, r, rayLength, u, normal).None?
  {}

  /** A fog of zero density never scatters a ray (for a draw below 1). */
  lemma ZeroDensityNeverScatters<T>(m: Libm, boundary: T, color: Vec3, hit: (T, Rays.Ray, Intervals.Interval) -> Option<HitRecord>,
                                    r: Rays.Ray, rayLength: Intervals.Interval, u: real, normal: Vec3)
    requires 0.0 <= u < 1.0
    requires Length(m, r.direction) != 0.0
    ensures Hit(m, NewConstantMedium(boundary, 0.0, color), hit, r, rayLength, u, normal).None?
  {
    HitIsFlightInChord(m, NewConstantMedium(boundary, 0.0, color), hit, r, rayLength, u, normal);
  }

  /** For a positive density and a sound logarithm, the flight ends inside
      the chord: the drawn distance is never negative and never past the
      chord's end. */
  lemma FlightWithinChord(m: Libm, negativeInverseDensity: real, seg: (real, real), rLength: real, u: real)
    requires Sound(m)
    requires negativeInverseDensity < 0.0
    requires 0.0 <= u <= 1.0
    requires rLength > 0.0
    ensures var t := FreeFlight(m, negativeInverseDensity, seg, rLength, u);
            t.Some? ==> seg.0 <= t.value <= seg.1
  {
    if FreeFlight(m, negativeInverseDensity, seg, rLength, u).Some? {
      assert m.log(u) <= 0.0;
      NonPositiveProduct(negativeInverseDensity, m.log(u));
      StepWithinChord(seg.0, seg.1, negativeInverseDensity * m.log(u), rLength);
    }
  }

  /** For a fog of positive density and a sound logarithm, a scattering
      point lies on the chord between the two boundary hits, inside
      `rayLength`, and never behind the ray's origin.  So the medium keeps
      the promise every hittable makes: the record is on the ray, inside the
      interval asked for. */
  lemma ScattersInsideChord<T>(m: Libm, cm: ConstantMedium<T>, hit: (T, Rays.Ray, Intervals.Interval) -> Option<HitRecord>,
                               r: Rays.Ray, rayLength: Intervals.Interval, u: real, normal: Vec3)
    requires Sound(m)
    requires Lt(cm.negativeInverseDensity, Fin(0.0)) && (cm.negativeInverseDensity.NegInf? ==> u < 1.0)
    requires 0.0 <= u <= 1.0
    requires Length(m, r.direction) > 0.0
    ensures var rec := Hit(m, cm, hit, r, rayLength, u, normal);
            rec.Some? ==> && Entry(cm, hit, r).Some? && Exit(cm, hit, r).Some?
                          && Entry(cm, hit, r).value.rayLength <= rec.value.rayLength <= Exit(cm, hit, r).value.rayLength
                          && 0.0 <= rec.value.rayLength
                          && Intervals.Contains(rayLength, rec.value.rayLength)
    ensures OnRay(Hit(m, cm, hit, r, rayLength, u, normal), r, rayLength)
  {
    HitIsFlightInChord(m, cm, hit, r, rayLength, u, normal);
    var rec := Hit(m, cm, hit, r, rayLength, u, normal);
    if rec.Some? {
      var seg := Chord(cm, hit, r, rayLength).value;
      FlightWithinChord(m, cm.negativeInverseDensity.r, seg, Length(m, r.direction), u);
      ExtendedBetween(rayLength, seg.0, seg.1, rec.value.rayLength);
    }
  }

  /** The product of two non-positive reals is non-negative. */
  lemma NonPositiveProduct(a: real, b: real)
    requires a <= 0.0 && b <= 0.0
    ensures a * b >= 0.0
  {
    assert a * b == (-a) * (-b);
  }

  /** A step of `d / l` from `lo` with `0 <= d <= (hi - lo) * l` and `l > 0`
      stays in `[lo, hi]`. */
  lemma StepWithinChord(lo: real, hi: real, d: real, l: real)
    requires l > 0.0 && 0.0 <= d <= (hi - lo) * l
    ensures lo <= lo + d / l <= hi
  {
    assert d / l <= (hi - lo) * l / l;
  }

  lemma ExtendedBetween(i: Intervals.Interval, lo: real, hi: real, t: real)
    requires Le(i.min, Fin(lo)) && Le(Fin(hi), i.max)
    requires lo <= t <= hi
    ensures Intervals.Contains(i, t)
  {
    LeTransitive(i.min, Fin(lo), Fin(t));
    LeTransitive(Fin(t), Fin(hi), i.max);
  }

  /** The largest draw, `u = 1`, has `log(1) = 0`: the flight ends where the
      ray enters the clipped chord, whatever the density, whenever the chord
      is not reversed. */
  lemma LargestDrawStopsAtEntry(m: Libm, negativeInverseDensity: real, seg: (real, real), rLength: real)
    requires Sound(m)
    requires seg.0 <= seg.1 && rLength > 0.0
    ensures FreeFlight(m, negativeInverseDensity, seg, rLength, 1.0) == Some(seg.0)
  {
    assert negativeInverseDensity * m.log(1.0) == 0.0;
    assert (seg.1 - seg.0) * rLength >= 0.0;
  }

  /** A denser fog stops a ray at least as often and never further along:
      with the same chord and draw, whenever the thinner medium's flight
      ends inside the chord, the denser one's does too, no further on. */
  lemma DenserFlightIsShorter(m: Libm, thin: real, dense: real, seg: (real, real), rLength: real, u: real)
    requires Sound(m)
    requires thin <= dense < 0.0
    requires 0.0 <= u <= 1.0 && rLength > 0.0
    ensures var a, b := FreeFlight(m, thin, seg, rLength, u), FreeFlight(m, dense, seg, rLength, u);
            a.Some? ==> b.Some? && b.value <= a.value
  {
    if FreeFlight(m, thin, seg, rLength, u).Some? {
      assert m.log(u) <= 0.0;
      DenserStep(thin, dense, m.log(u), rLength, seg.0, seg.1);
    }
  }

  /** The scalar core of `DenserFlightIsShorter`. */
  lemma DenserStep(thin: real, dense: real, lg: real, l: real, lo: real, hi: real)
    requires thin <= dense < 0.0 && lg <= 0.0 && l > 0.0
    requires thin * lg <= (hi - lo) * l
    ensures dense * lg <= (hi - lo) * l
    ensures lo + dense * lg / l <= lo + thin * lg / l
  {
    ScaledByNonPositive(thin, dense, lg);
    DividedByPositive(dense * lg, thin * lg, l);
  }

  /** Multiplying by a non-positive value reverses the order. */
  lemma ScaledByNonPositive(a: real, b: real, k: real)
    requires a <= b && k <= 0.0
    ensures b * k <= a * k
  {
    assert a * k - b * k == (b - a) * (-k);
  }

  lemma DividedByPositive(x: real, y: real, l: real)
    requires x <= y && l > 0.0
    ensures x / l <= y / l
  {}
}
