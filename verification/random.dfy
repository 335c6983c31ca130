/** The renderer's random number source (random/random.go).  The generator is
    an abstract source of 32-bit words: each draw is an explicit parameter. */
module Random {

  const MaxUint32: int := 0xFFFF_FFFF

  /** One 32-bit word produced by the generator. */
  type Uint32 = x: int | 0 <= x <= MaxUint32

  /** `RandomNormalFloat`, as written: the word divided by `MaxUint32`.  The
      documented range is `[0, 1)`, but the largest word gives exactly 1. */
  function RandomNormalFloat(u: Uint32): (f: real)
    ensures 0.0 <= f <= 1.0
    ensures f == 1.0 <==> u == MaxUint32
    ensures f == 0.0 <==> u == 0
  {
    u as real / MaxUint32 as real
  }

  /** `RandomFloat`: the normal float scaled affinely onto `[min, max]`. */
  function RandomFloat(u: Uint32, min: real, max: real): (f: real)
    ensures min <= max ==> min <= f <= max
    ensures u == 0 ==> f == min
    ensures u == MaxUint32 ==> f == max
  {
    var f, w := RandomNormalFloat(u), max - min;
    ScaleWithin(f, w);
    f * w + min
  }

  /** The documented half-open range `[0, 1)` is broken by one word. */
  lemma RandomNormalFloatReachesOne()
    ensures RandomNormalFloat(MaxUint32) == 1.0
    ensures RandomFloat(MaxUint32, -2.0, 2.0) == 2.0
  {}

  /** The intended `[0, 1)` draw: divide by 2^32 instead of 2^32 - 1. */
  function RandomNormalFloatHalfOpen(u: Uint32): (f: real)
    ensures 0.0 <= f < 1.0
    ensures f == 0.0 <==> u == 0
  {
    u as real / (MaxUint32 + 1) as real
  }

  /** `RandomFloat` built on the half-open draw never reaches `max`. */
  function RandomFloatHalfOpen(u: Uint32, min: real, max: real): (f: real)
    ensures min < max ==> min <= f < max
    ensures u == 0 ==> f == min
  {
    var f, w := RandomNormalFloatHalfOpen(u), max - min;
    ScaleWithin(f, w);
    f * w + min
  }

  lemma ScaleWithin(f: real, w: real)
    requires 0.0 <= f <= 1.0
    ensures 0.0 <= w ==> 0.0 <= f * w <= w
    ensures 0.0 < w && f < 1.0 ==> f * w < w
  {
    assert (1.0 - f) * w == w - f * w;
    if 0.0 <= w {
      assert (1.0 - f) * w >= 0.0;
    }
    if 0.0 < w && f < 1.0 {
      assert (1.0 - f) * w > 0.0;
    }
  }
}
