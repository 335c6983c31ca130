/** Colour quantisation and the render image (internal/image): accumulated
    sample sums become gamma-corrected bytes, 16-bit texture channels become
    unit-range colours, and pixels are stored row by row. */
module Images {
  import opened Libm
  import opened Intervals
  import opened Vectors
  import opened Wrappers
  import Random

  /** A `byte`: the type bounds are the claim that every conversion fits. */
  type Byte = x: int | 0 <= x < 256

  /** `color.RGBA`. */
  datatype Rgba = Rgba(r: Byte, g: Byte, b: Byte, a: Byte)

  /** Go's float-to-integer conversion: truncation toward zero. */
  function Truncate(a: real): (n: int)
    ensures 0.0 <= a ==> n == a.Floor
    ensures a < 0.0 ==> n == -((-a).Floor)
    ensures Abs(n as real) <= Abs(a) < Abs(n as real) + 1.0
  {
    if 0.0 <= a then a.Floor else -((-a).Floor)
  }

  // ----- ToFloat / ToRgba -----

  /** The clamp interval `[0, 0.999]` of `ToFloat`. */
  const Intensity: Interval := Between(0.0, 0.999)

  /** `Intensity.Clamp` on a finite value: a real of `[0, 0.999]`, and the value
      itself exactly when it already lies there. */
  function ClampIntensity(x: real): (c: real)
    ensures 0.0 <= c <= 0.999
    ensures c == x <==> 0.0 <= x <= 0.999
    ensures x < 0.0 ==> c == 0.0
    ensures 0.999 < x ==> c == 0.999
  {
    ClampFinite(0.0, 0.999, x);
    Clamp(Intensity, x).r
  }

  /** One channel of `ToFloat`: averaged over the samples, square-rooted
      (gamma 2) and clamped.  A zero sample count (an IEEE division by zero) is
      excluded; Go's NaN for the root of a negative value is not modelled, the
      clamp then sees an unspecified real. */
  function GammaChannel(m: Libm, c: real, samplesPerPixel: int): (g: real)
    requires samplesPerPixel != 0
    ensures 0.0 <= g <= 0.999
  {
    ClampIntensity(m.sqrt(c / samplesPerPixel as real))
  }

  /** `ToFloat`: every channel ends up in `[0, 0.999]`, whatever the input. */
  function ToFloat(m: Libm, col: Vec3, samplesPerPixel: int): (f: Vec3)
    requires samplesPerPixel != 0
    ensures 0.0 <= f.x <= 0.999 && 0.0 <= f.y <= 0.999 && 0.0 <= f.z <= 0.999
  {
    Vec3(GammaChannel(m, col.x, samplesPerPixel), GammaChannel(m, col.y, samplesPerPixel), GammaChannel(m, col.z, samplesPerPixel))
  }

  /** `byte(256 * c)` for a clamped channel: `256 * 0.999 < 256`, so the value
      always fits in a byte. */
  function ChannelByte(c: real): (b: Byte)
    requires 0.0 <= c <= 0.999
    ensures b as real <= 256.0 * c < b as real + 1.0
  {
    Truncate(256.0 * c)
  }

  /** `ToRgba`: gamma-corrected bytes, alpha always opaque. */
  function ToRgba(m: Libm, col: Vec3, samplesPerPixel: int): (p: Rgba)
    requires samplesPerPixel != 0
    ensures p.a == 255
    ensures p.r as real <= 256.0 * ToFloat(m, col, samplesPerPixel).x < p.r as real + 1.0
    ensures p.g as real <= 256.0 * ToFloat(m, col, samplesPerPixel).y < p.g as real + 1.0
    ensures p.b as real <= 256.0 * ToFloat(m, col, samplesPerPixel).z < p.b as real + 1.0
  {
    var c := ToFloat(m, col, samplesPerPixel);
    Rgba(ChannelByte(c.x), ChannelByte(c.y), ChannelByte(c.z), 255)
  }

  /** The accumulated black stays black. */
  lemma ToRgbaZero(m: Libm, samplesPerPixel: int)
    requires Sound(m)
    requires samplesPerPixel != 0
    ensures ToFloat(m, ZeroVector, samplesPerPixel) == ZeroVector
    ensures ToRgba(m, ZeroVector, samplesPerPixel) == Rgba(0, 0, 0, 255)
  {
    var scale := 1.0 / samplesPerPixel as real;
    assert scale * 0.0 == 0.0;
    SqrtOfSquare(m, 0.0);
  }

  /** A channel below the clamp is exactly the gamma-corrected average. */
  lemma GammaChannelExact(m: Libm, c: real, samplesPerPixel: int)
    requires Sound(m)
    requires samplesPerPixel > 0 && 0.0 <= c
    requires m.sqrt(c / samplesPerPixel as real) <= 0.999
    ensures GammaChannel(m, c, samplesPerPixel) == m.sqrt(c / samplesPerPixel as real)
  {
    var q := c / samplesPerPixel as real;
    assert 0.0 <= q;
    assert 0.0 <= m.sqrt(q);
  }

  /** More light never gives a darker channel byte. */
  lemma ChannelMonotone(m: Libm, a: real, b: real, samplesPerPixel: int)
    requires Sound(m)
    requires samplesPerPixel > 0 && 0.0 <= a <= b
    ensures GammaChannel(m, a, samplesPerPixel) <= GammaChannel(m, b, samplesPerPixel)
    ensures ChannelByte(GammaChannel(m, a, samplesPerPixel)) <= ChannelByte(GammaChannel(m, b, samplesPerPixel))
  {
    var n := samplesPerPixel as real;
    var p, q := a / n, b / n;
    ScaleMonotone(1.0 / n, a, b);
    assert p == (1.0 / n) * a && q == (1.0 / n) * b;
    SqrtMonotone(m, p, q);
    ClampMonotone(m.sqrt(p), m.sqrt(q));
    ChannelByteMonotone(GammaChannel(m, a, samplesPerPixel), GammaChannel(m, b, samplesPerPixel));
  }

  lemma ScaleMonotone(k: real, a: real, b: real)
    requires 0.0 <= k && 0.0 <= a <= b
    ensures 0.0 <= k * a <= k * b
  {
    assert k * b - k * a == k * (b - a);
  }

  lemma ChannelByteMonotone(x: real, y: real)
    requires 0.0 <= x <= y <= 0.999
    ensures ChannelByte(x) <= ChannelByte(y)
  {}

  lemma ClampMonotone(x: real, y: real)
    requires x <= y
    ensures ClampIntensity(x) <= ClampIntensity(y)
  {}

  /** `ToRgba` is monotone in each accumulated channel. */
  lemma ToRgbaMonotone(m: Libm, a: Vec3, b: Vec3, samplesPerPixel: int)
    requires Sound(m)
    requires samplesPerPixel > 0
    requires 0.0 <= a.x <= b.x && 0.0 <= a.y <= b.y && 0.0 <= a.z <= b.z
    ensures ToRgba(m, a, samplesPerPixel).r <= ToRgba(m, b, samplesPerPixel).r
    ensures ToRgba(m, a, samplesPerPixel).g <= ToRgba(m, b, samplesPerPixel).g
    ensures ToRgba(m, a, samplesPerPixel).b <= ToRgba(m, b, samplesPerPixel).b
  {
    ChannelMonotone(m, a.x, b.x, samplesPerPixel);
    ChannelMonotone(m, a.y, b.y, samplesPerPixel);
    ChannelMonotone(m, a.z, b.z, samplesPerPixel);
  }

  /** Locating a square root between two bounds by squaring them. */
  lemma SqrtBracket(m: Libm, x: real, lo: real, hi: real)
    requires Sound(m)
    requires 0.0 <= lo && 0.0 < hi && lo * lo <= x < hi * hi
    ensures lo <= m.sqrt(x) < hi
  {
    var s := m.sqrt(x);
    assert 0.0 <= s && s * s == x;
    RootBracket(s, lo, hi);
  }

  /** A non-negative number whose square lies in `[lo², hi²)` lies in `[lo, hi)`. */
  lemma RootBracket(s: real, lo: real, hi: real)
    requires 0.0 <= s && 0.0 <= lo && 0.0 < hi && lo * lo <= s * s < hi * hi
    ensures lo <= s < hi
  {
    if s < lo {
      MulStrict(s, lo);
    }
    if hi <= s {
      SquareMonotone(hi, s);
    }
  }

  lemma SquareMonotone(p: real, q: real)
    requires 0.0 <= p <= q
    ensures p * p <= q * q
  {
    assert (q - p) * p >= 0.0;
    assert (q - p) * q >= 0.0;
  }

  /** The documented conversions of `(0, 0.3, 1)`: bytes `(0, 0x8c, 0xff)` for
      one sample and `(0, 0x63, 0xb5)` for two. */
  lemma ToRgbaSamples(m: Libm)
    requires Sound(m)
    ensures ToRgba(m, Vec3(0.0, 0.3, 1.0), 1) == Rgba(0x00, 0x8c, 0xff, 0xff)
    ensures ToRgba(m, Vec3(0.0, 0.3, 1.0), 2) == Rgba(0x00, 0x63, 0xb5, 0xff)
  {
    OneSample(m);
    TwoSamples(m);
  }

  lemma OneSample(m: Libm)
    requires Sound(m)
    ensures ToRgba(m, Vec3(0.0, 0.3, 1.0), 1) == Rgba(0x00, 0x8c, 0xff, 0xff)
  {
    SqrtOfSquare(m, 0.0);
    SqrtOfSquare(m, 1.0);
    assert 0.3 / 1 as real == 0.3;
    SqrtBracket(m, 0.3, 140.0 / 256.0, 141.0 / 256.0);
  }

  lemma TwoSamples(m: Libm)
    requires Sound(m)
    ensures ToRgba(m, Vec3(0.0, 0.3, 1.0), 2) == Rgba(0x00, 0x63, 0xb5, 0xff)
  {
    SqrtOfSquare(m, 0.0);
    assert 0.3 / 2 as real == 0.15;
    SqrtBracket(m, 0.15, 99.0 / 256.0, 100.0 / 256.0);
    assert 1.0 / 2 as real == 0.5;
    SqrtBracket(m, 0.5, 181.0 / 256.0, 182.0 / 256.0);
  }

  // ----- RgbToVec3 -----

  const ColorScale: real := 1.0 / 255.0

  /** The top byte of a channel, `c >> 8`, scaled to `[0, 1]`. */
  function Channel(c: Random.Uint32): real {
    (c / 256) as real * ColorScale
  }

  /** `RgbToVec3`: 16-bit channels (as `color.Color.RGBA` returns them) keep
      only their top byte, so each lands in `[0, 1]`. */
  function RgbToVec3(r: Random.Uint32, g: Random.Uint32, b: Random.Uint32): (v: Vec3)
    ensures r <= 0xFFFF ==> 0.0 <= v.x <= 1.0
    ensures g <= 0xFFFF ==> 0.0 <= v.y <= 1.0
    ensures b <= 0xFFFF ==> 0.0 <= v.z <= 1.0
  {
    Vec3(Channel(r), Channel(g), Channel(b))
  }

  /** `color.RGBA` widens a byte `b` to the 16-bit `b * 0x101`; `RgbToVec3`
      recovers exactly `b / 255` from it. */
  lemma RgbToVec3OfWidenedBytes(r: Byte, g: Byte, b: Byte)
    ensures RgbToVec3(r * 0x101, g * 0x101, b * 0x101) == Vec3(r as real / 255.0, g as real / 255.0, b as real / 255.0)
  {
    assert (r * 0x101) / 256 == r;
    assert (g * 0x101) / 256 == g;
    assert (b * 0x101) / 256 == b;
  }

  /** The 16-bit sample `(0, 25600, 65535)` maps to `(0, 100/255, 1)`; the
      8-bit reading of the same colour, `(0, 100, 255)`, maps to black. */
  lemma RgbToVec3Samples()
    ensures RgbToVec3(0, 25600, 65535) == Vec3(0.0, 100.0 / 255.0, 1.0)
    ensures RgbToVec3(0, 100, 255) == ZeroVector
  {}

  // ----- RenderImage -----

  /** `RenderImage`: the image dimensions from the trace specification and
      the pixels, row by row. */
  datatype RenderImage = RenderImage(width: int, height: int, data: seq<Rgba>)

  datatype Rectangle = Rectangle(minX: int, minY: int, maxX: int, maxY: int)

  /** `image.Rect`: the corners are swapped where needed so the rectangle is
      well formed. */
  function Rect(x0: int, y0: int, x1: int, y1: int): (r: Rectangle)
    ensures r.minX <= r.maxX && r.minY <= r.maxY
    ensures {r.minX, r.maxX} == {x0, x1} && {r.minY, r.maxY} == {y0, y1}
  {
    Rectangle(if x0 <= x1 then x0 else x1, if y0 <= y1 then y0 else y1,
              if x0 <= x1 then x1 else x0, if y0 <= y1 then y1 else y0)
  }

  /** `Bounds`: the rectangle from the origin to `(width, height)`. */
  function Bounds(ri: RenderImage): (r: Rectangle)
    ensures 0 <= ri.width && 0 <= ri.height ==> r == Rectangle(0, 0, ri.width, ri.height)
    ensures r.maxX - r.minX == (if ri.width < 0 then -ri.width else ri.width)
  {
    Rect(0, 0, ri.width, ri.height)
  }

  /** The row-major slot of pixel `(x, y)`. */
  function RowMajor(width: int, x: int, y: int): int {
    y * width + x
  }

  /** `At`: the pixel at row-major slot `y * width + x`; `None` where Go's
      slice index panics. */
  function At(ri: RenderImage, x: int, y: int): (c: Option<Rgba>)
    ensures c.Some? <==> 0 <= RowMajor(ri.width, x, y) < |ri.data|
    ensures c.Some? ==> c.value in ri.data
  {
    var i := RowMajor(ri.width, x, y);
    if 0 <= i < |ri.data| then Some(ri.data[i]) else None
  }

  /** Inside the bounds of a full image the slot is in range. */
  lemma RowMajorInRange(width: int, height: int, x: int, y: int)
    requires 0 <= x < width && 0 <= y < height
    ensures 0 <= RowMajor(width, x, y) < width * height
  {
    StepBelow(y, height, width);
  }

  /** Distinct in-bounds pixels have distinct slots. */
  lemma RowMajorInjective(width: int, x1: int, y1: int, x2: int, y2: int)
    requires 0 <= x1 < width && 0 <= x2 < width
    requires RowMajor(width, x1, y1) == RowMajor(width, x2, y2)
    ensures x1 == x2 && y1 == y2
  {
    if y1 < y2 {
      StepBelow(y1, y2, width);
    } else if y2 < y1 {
      StepBelow(y2, y1, width);
    }
  }

  /** One more row starts at least a full row further on. */
  lemma StepBelow(a: int, b: int, w: int)
    requires a < b && 0 < w
    ensures a * w + w <= b * w
  {
    var k := b - a - 1;
    assert 0 <= k * w;
    assert b * w == a * w + w + k * w;
  }

  /** Every slot of a full image belongs to some in-bounds pixel. */
  lemma RowMajorOnto(width: int, height: int, i: int) returns (x: int, y: int)
    requires 0 < width && 0 <= i < width * height
    ensures 0 <= x < width && 0 <= y < height
    ensures RowMajor(width, x, y) == i
  {
    x, y := i % width, i / width;
  }

  /** An image whose data holds `width * height` pixels answers every
      in-bounds lookup, with the pixel stored at that slot. */
  lemma AtInBounds(ri: RenderImage, x: int, y: int)
    requires |ri.data| == ri.width * ri.height
    requires 0 <= x < ri.width && 0 <= y < ri.height
    ensures 0 <= RowMajor(ri.width, x, y) < |ri.data|
      && At(ri, x, y) == Some(ri.data[RowMajor(ri.width, x, y)])
  {
    var i := RowMajor(ri.width, x, y);
    RowMajorInRange(ri.width, ri.height, x, y);
    assert 0 <= i < |ri.data|;
  }

  /** The documented lookups: a 1x2 image has bounds `(0,0)-(1,2)`, and on a
      2x1 image `At(1, 0)` is the second pixel while `At(0, 1)` panics. */
  lemma RenderImageSamples(p: Rgba, q: Rgba)
    ensures Bounds(RenderImage(1, 2, [])) == Rectangle(0, 0, 1, 2)
    ensures At(RenderImage(2, 1, [p, q]), 0, 0) == Some(p)
    ensures At(RenderImage(2, 1, [p, q]), 1, 0) == Some(q)
    ensures At(RenderImage(2, 1, [p, q]), 0, 1) == None
  {}
}
