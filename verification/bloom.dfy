/** The bloom post-processor (post/bloom.go): the bright parts of the
    rendered image are blurred with a 3 by 3 stencil, scaled, and added back
    before the image is quantised.

    Images are row-major sequences of `width * height` colours, the slot of
    pixel `(x, y)` being `Images.RowMajor(width, x, y)` (`imageIndex`). */
module Bloom {
  import opened Libm
  import opened Vectors
  import Images

  /** `bloomPostProcessor`; `NewBloom` is its constructor. */
  datatype BloomPostProcessor = BloomPostProcessor(blurRadius: real, bloomMultiplier: real)

  /** The outcome of `PostProcess`: the image, or the error for a blur
      radius outside `[0, 1]`, which carries the offending radius. */
  datatype PostResult = Processed(image: Images.RenderImage) | InvalidBlurRadius(blurRadius: real)

  // ----- the kernel -----

  /** `BLUR_KERNEL`, row by row. */
  const BlurKernel: seq<seq<real>> := [[0.05, 0.15, 0.05], [0.15, 0.20, 0.15], [0.05, 0.15, 0.05]]

  /** `len(BLUR_KERNEL)`. */
  const BlurSize: int := 3

  /** The kernel is square, of side `BlurSize`, with non-negative weights. */
  lemma KernelShape()
    ensures |BlurKernel| == BlurSize
    ensures forall ky :: 0 <= ky < BlurSize ==> |BlurKernel[ky]| == BlurSize
    ensures forall ky, kx :: 0 <= ky < BlurSize && 0 <= kx < BlurSize ==> 0.0 <= BlurKernel[ky][kx]
  {
    forall ky | 0 <= ky < BlurSize
      ensures |BlurKernel[ky]| == BlurSize
    {
      assert ky == 0 || ky == 1 || ky == 2;
    }
  }

  /** The sum of the first `n` entries of `row`. */
  function RowSum(row: seq<real>, n: nat): real
    requires n <= |row|
  {
    if n == 0 then 0.0 else RowSum(row, n - 1) + row[n - 1]
  }

  /** The sum of the weights of the first `n` kernel rows. */
  function KernelSum(n: nat): real
    requires n <= BlurSize
  {
    KernelShape();
    if n == 0 then 0.0 else KernelSum(n - 1) + RowSum(BlurKernel[n - 1], BlurSize)
  }

  /** The weights sum to one: blurring redistributes light without adding
      or removing any. */
  lemma KernelSumsToOne()
    ensures KernelSum(BlurSize) == 1.0
  {
    assert RowSum(BlurKernel[0], 3) == 0.25;
    assert RowSum(BlurKernel[1], 3) == 0.5;
    assert RowSum(BlurKernel[2], 3) == 0.25;
  }

  // ----- pixel positions -----

  /** A pixel the blur writes: not on the image's outer border. */
  predicate Interior(width: int, height: int, x: int, y: int) {
    1 <= x < width - 1 && 1 <= y < height - 1
  }

  /** Every slot of a `width` by `height` image has a column and a row in
      range. */
  lemma CellInRange(width: int, height: int, i: int)
    requires 0 <= width && 0 <= height && 0 <= i < width * height
    ensures 0 < width && 0 <= i % width < width && 0 <= i / width < height
  {
    if i / width >= height {
      assert (i / width) * width >= height * width by {
        MulMonotone(height, i / width, width);
      }
    }
  }

  lemma MulMonotone(a: int, b: int, w: int)
    requires a <= b && 0 <= w
    ensures a * w <= b * w
  {
    assert b * w - a * w == (b - a) * w;
  }

  /** The slot of `(x, y)` has column `x` and row `y`. */
  lemma CellOfRowMajor(width: int, x: int, y: int)
    requires 0 <= x < width
    ensures Images.RowMajor(width, x, y) % width == x && Images.RowMajor(width, x, y) / width == y
  {
    var i := Images.RowMajor(width, x, y);
    assert i == Images.RowMajor(width, i % width, i / width);
    Images.RowMajorInjective(width, i % width, i / width, x, y);
  }

  /** `imageIndex` of every stencil tap around an interior pixel lies inside
      the image. */
  lemma StencilReadInRange(width: int, height: int, x: int, y: int, kx: int, ky: int)
    requires Interior(width, height, x, y) && 0 <= kx < BlurSize && 0 <= ky < BlurSize
    ensures 0 <= Images.RowMajor(width, x + kx - 1, y + ky - 1) < width * height
  {
    Images.RowMajorInRange(width, height, x + kx - 1, y + ky - 1);
  }

  // ----- the bright pass -----

  /** The bright pass: a pixel whose accumulated colour is longer than the
      sample count (a mean brighter than length one) is kept, any other is
      black. */
  function BrightPass(m: Libm, pixels: seq<Vec3>, numSamples: int): (r: seq<Vec3>)
    ensures |r| == |pixels|
    ensures forall i :: 0 <= i < |r| ==> r[i] == pixels[i] || r[i] == ZeroVector
    ensures forall i :: 0 <= i < |r| ==> (Length(m, pixels[i]) > numSamples as real ==> r[i] == pixels[i])
    ensures forall i :: 0 <= i < |r| && r[i] != ZeroVector ==> Length(m, r[i]) > numSamples as real
  {
    seq(|pixels|, i requires 0 <= i < |pixels| =>
      if Length(m, pixels[i]) > numSamples as real then pixels[i] else ZeroVector)
  }

  /** The bright pass keeps a pixel exactly when it is brighter than the
      threshold, given a sound square root and a threshold of at least zero
      (the length of black is zero, so black is never "kept"). */
  lemma BrightPassKeeps(m: Libm, pixels: seq<Vec3>, numSamples: int, i: int)
    requires Sound(m) && 0 <= numSamples && 0 <= i < |pixels|
    ensures BrightPass(m, pixels, numSamples)[i] != ZeroVector <==> Length(m, pixels[i]) > numSamples as real
  {
    var r := BrightPass(m, pixels, numSamples);
    if pixels[i] == ZeroVector {
      BlackHasNoLength(m);
      assert r[i] == ZeroVector;
    } else if Length(m, pixels[i]) > numSamples as real {
      assert r[i] == pixels[i];
    } else {
      assert r[i] == ZeroVector;
    }
  }

  lemma BlackHasNoLength(m: Libm)
    requires Sound(m)
    ensures Length(m, ZeroVector) == 0.0
  {
    SqrtOfSquare(m, 0.0);
    assert LengthSquared(ZeroVector) == 0.0 * 0.0;
  }

  /** Bright-passing twice changes nothing. */
  lemma BrightPassIdempotent(m: Libm, pixels: seq<Vec3>, numSamples: int)
    ensures BrightPass(m, BrightPass(m, pixels, numSamples), numSamples) == BrightPass(m, pixels, numSamples)
  {
    var once := BrightPass(m, pixels, numSamples);
    var twice := BrightPass(m, once, numSamples);
    forall i | 0 <= i < |once|
      ensures twice[i] == once[i]
    {
      if once[i] != ZeroVector {
        assert Length(m, once[i]) > numSamples as real;
      }
    }
  }

  // ----- the blur stencil -----

  /** The pixel at offset `(kx - 1, ky - 1)` from the interior pixel
      `(x, y)`. */
  function Neighbour(work: seq<Vec3>, width: int, height: int, x: int, y: int, kx: int, ky: int): Vec3
    requires |work| == width * height && Interior(width, height, x, y)
    requires 0 <= kx < BlurSize && 0 <= ky < BlurSize
  {
    StencilReadInRange(width, height, x, y, kx, ky);
    work[Images.RowMajor(width, x + kx - 1, y + ky - 1)]
  }

  /** One tap of the stencil around `(x, y)`: the neighbour at offset
      `(kx - 1, ky - 1)` weighted by `BLUR_KERNEL[ky][kx]`. */
  function Tap(work: seq<Vec3>, width: int, height: int, x: int, y: int, kx: int, ky: int): Vec3
    requires |work| == width * height && Interior(width, height, x, y)
    requires 0 <= kx < BlurSize && 0 <= ky < BlurSize
  {
    KernelShape();
    MulS(Neighbour(work, width, height, x, y, kx, ky), BlurKernel[ky][kx])
  }

  /** The 3 by 3 neighbourhood of `(x, y)` is uniformly `c`. */
  predicate UniformAround(work: seq<Vec3>, width: int, height: int, x: int, y: int, c: Vec3)
    requires |work| == width * height && Interior(width, height, x, y)
  {
    forall kx, ky :: 0 <= kx < BlurSize && 0 <= ky < BlurSize ==> Neighbour(work, width, height, x, y, kx, ky) == c
  }

  /** The sum of the taps that come before `(kx, ky)` in the stencil's scan
      order (rows `ky`, then columns `kx`); `TapsBefore(.., 0, BlurSize)` is
      the whole stencil. */
  function TapsBefore(work: seq<Vec3>, width: int, height: int, x: int, y: int, kx: int, ky: int): Vec3
    requires |work| == width * height && Interior(width, height, x, y)
    requires 0 <= kx < BlurSize && 0 <= ky <= BlurSize && (ky == BlurSize ==> kx == 0)
    decreases ky * BlurSize + kx
  {
    if kx > 0 then Add(TapsBefore(work, width, height, x, y, kx - 1, ky), Tap(work, width, height, x, y, kx - 1, ky))
    else if ky > 0 then Add(TapsBefore(work, width, height, x, y, BlurSize - 1, ky - 1), Tap(work, width, height, x, y, BlurSize - 1, ky - 1))
    else ZeroVector
  }

  /** The blurred value of an interior pixel. */
  function Stencil(work: seq<Vec3>, width: int, height: int, x: int, y: int): Vec3
    requires |work| == width * height && Interior(width, height, x, y)
  {
    TapsBefore(work, width, height, x, y, 0, BlurSize)
  }

  /** The part of the kernel's weight that comes before `(kx, ky)` in scan
      order. */
  function WeightBefore(kx: int, ky: int): real
    requires 0 <= kx < BlurSize && 0 <= ky <= BlurSize && (ky == BlurSize ==> kx == 0)
    decreases ky * BlurSize + kx
  {
    KernelShape();
    if kx > 0 then WeightBefore(kx - 1, ky) + BlurKernel[ky][kx - 1]
    else if ky > 0 then WeightBefore(BlurSize - 1, ky - 1) + BlurKernel[ky - 1][BlurSize - 1]
    else 0.0
  }

  /** Around a pixel whose neighbourhood is uniformly `c`, the taps so far
      add up to `c` times the weight so far. */
  lemma {:induction false} TapsOfUniform(work: seq<Vec3>, width: int, height: int, x: int, y: int, kx: int, ky: int, c: Vec3)
    requires |work| == width * height && Interior(width, height, x, y)
    requires 0 <= kx < BlurSize && 0 <= ky <= BlurSize && (ky == BlurSize ==> kx == 0)
    requires UniformAround(work, width, height, x, y, c)
    ensures TapsBefore(work, width, height, x, y, kx, ky) == MulS(c, WeightBefore(kx, ky))
    decreases ky * BlurSize + kx
  {
    KernelShape();
    if kx > 0 {
      TapsOfUniform(work, width, height, x, y, kx - 1, ky, c);
      assert Neighbour(work, width, height, x, y, kx - 1, ky) == c;
      AddScaled(c, WeightBefore(kx - 1, ky), BlurKernel[ky][kx - 1]);
    } else if ky > 0 {
      TapsOfUniform(work, width, height, x, y, BlurSize - 1, ky - 1, c);
      assert Neighbour(work, width, height, x, y, BlurSize - 1, ky - 1) == c;
      AddScaled(c, WeightBefore(BlurSize - 1, ky - 1), BlurKernel[ky - 1][BlurSize - 1]);
    } else {
      SameComponents(MulS(c, 0.0), ZeroVector);
    }
  }

  lemma AddScaled(c: Vec3, a: real, b: real)
    ensures Add(MulS(c, a), MulS(c, b)) == MulS(c, a + b)
  {
    SameComponents(Add(MulS(c, a), MulS(c, b)), MulS(c, a + b));
  }

  /** The scan-order weights add up to the kernel's row sums. */
  lemma WeightBeforeIsKernelSum()
    ensures WeightBefore(0, BlurSize) == KernelSum(BlurSize)
  {
    KernelSumsToOne();
    assert WeightBefore(0, 1) == 0.25;
    assert WeightBefore(0, 2) == 0.75;
  }

  /** A uniform neighbourhood blurs to itself: the stencil is a weighted mean. */
  lemma StencilOfUniform(work: seq<Vec3>, width: int, height: int, x: int, y: int, c: Vec3)
    requires |work| == width * height && Interior(width, height, x, y)
    requires UniformAround(work, width, height, x, y, c)
    ensures Stencil(work, width, height, x, y) == c
  {
    TapsOfUniform(work, width, height, x, y, 0, BlurSize, c);
    WeightBeforeIsKernelSum();
    KernelSumsToOne();
    SameComponents(MulS(c, 1.0), c);
  }

  /** Non-negative colours: what a renderer accumulates. */
  predicate NonNegative(v: Vec3) {
    0.0 <= v.x && 0.0 <= v.y && 0.0 <= v.z
  }

  predicate AllNonNegative(img: seq<Vec3>) {
    forall i :: 0 <= i < |img| ==> NonNegative(img[i])
  }

  /** The taps of a non-negative image sum to a non-negative colour. */
  lemma {:induction false} TapsNonNegative(work: seq<Vec3>, width: int, height: int, x: int, y: int, kx: int, ky: int)
    requires |work| == width * height && Interior(width, height, x, y)
    requires 0 <= kx < BlurSize && 0 <= ky <= BlurSize && (ky == BlurSize ==> kx == 0)
    requires AllNonNegative(work)
    ensures NonNegative(TapsBefore(work, width, height, x, y, kx, ky))
    decreases ky * BlurSize + kx
  {
    KernelShape();
    if kx > 0 {
      TapsNonNegative(work, width, height, x, y, kx - 1, ky);
      NeighbourNonNegative(work, width, height, x, y, kx - 1, ky);
    } else if ky > 0 {
      TapsNonNegative(work, width, height, x, y, BlurSize - 1, ky - 1);
      NeighbourNonNegative(work, width, height, x, y, BlurSize - 1, ky - 1);
    }
  }

  lemma NeighbourNonNegative(work: seq<Vec3>, width: int, height: int, x: int, y: int, kx: int, ky: int)
    requires |work| == width * height && Interior(width, height, x, y)
    requires 0 <= kx < BlurSize && 0 <= ky < BlurSize
    requires AllNonNegative(work)
    ensures NonNegative(Tap(work, width, height, x, y, kx, ky))
  {
    KernelShape();
    StencilReadInRange(width, height, x, y, kx, ky);
  }

  // ----- one blur pass -----

  /** The blurred value of slot `i` after one pass: the stencil for an
      interior pixel, and black on the border, which the pass never writes. */
  function BlurredAt(work: seq<Vec3>, width: int, height: int, i: int): Vec3
    requires 0 <= width && 0 <= height && |work| == width * height && 0 <= i < width * height
  {
    CellInRange(width, height, i);
    var x, y := i % width, i / width;
    if Interior(width, height, x, y) then Stencil(work, width, height, x, y) else ZeroVector
  }

  /** One blur pass over the whole image. */
  function BlurPass(work: seq<Vec3>, width: int, height: int): (r: seq<Vec3>)
    requires 0 <= width && 0 <= height && |work| == width * height
    ensures |r| == width * height
  {
    seq(width * height, i requires 0 <= i < width * height => BlurredAt(work, width, height, i))
  }

  /** A pass leaves every border pixel black and gives every interior pixel
      its stencil. */
  lemma BlurPassAt(work: seq<Vec3>, width: int, height: int, x: int, y: int)
    requires 0 <= width && 0 <= height && |work| == width * height
    requires 0 <= x < width && 0 <= y < height
    ensures 0 <= Images.RowMajor(width, x, y) < width * height
    ensures !Interior(width, height, x, y) ==> BlurPass(work, width, height)[Images.RowMajor(width, x, y)] == ZeroVector
    ensures Interior(width, height, x, y) ==>
              BlurPass(work, width, height)[Images.RowMajor(width, x, y)] == Stencil(work, width, height, x, y)
  {
    Images.RowMajorInRange(width, height, x, y);
    CellOfRowMajor(width, x, y);
  }

  /** A pass keeps colours non-negative. */
  lemma BlurPassNonNegative(work: seq<Vec3>, width: int, height: int)
    requires 0 <= width && 0 <= height && |work| == width * height
    requires AllNonNegative(work)
    ensures AllNonNegative(BlurPass(work, width, height))
  {
    var r := BlurPass(work, width, height);
    forall i | 0 <= i < |r|
      ensures NonNegative(r[i])
    {
      CellInRange(width, height, i);
      var x, y := i % width, i / width;
      if Interior(width, height, x, y) {
        TapsNonNegative(work, width, height, x, y, 0, BlurSize);
      }
    }
  }

  /** The tap loops of one interior pixel, in Go's order. */
  method StencilLoop(work: seq<Vec3>, width: int, height: int, x: int, y: int) returns (val: Vec3)
    requires |work| == width * height && Interior(width, height, x, y)
    ensures val == Stencil(work, width, height, x, y)
  {
    val := ZeroVector;
    var ky := 0;
    while ky < BlurSize
      invariant 0 <= ky <= BlurSize
      invariant val == TapsBefore(work, width, height, x, y, 0, ky)
    {
      var kx := 0;
      while kx < BlurSize
        invariant 0 <= kx <= BlurSize
        invariant kx < BlurSize ==> val == TapsBefore(work, width, height, x, y, kx, ky)
        invariant kx == BlurSize ==> val == TapsBefore(work, width, height, x, y, 0, ky + 1)
      {
        StencilReadInRange(width, height, x, y, kx, ky);
        KernelShape();
        var tmpVal := MulS(work[Images.RowMajor(width, x + kx - 1, y + ky - 1)], BlurKernel[ky][kx]);
        val := Add(val, tmpVal);
        kx := kx + 1;
      }
      ky := ky + 1;
    }
  }

  /** Slots below `cursor` hold their blurred value, the rest are still
      black. */
  ghost predicate FilledBelow(tmp: seq<Vec3>, work: seq<Vec3>, width: int, height: int, cursor: int)
    requires 0 <= width && 0 <= height && |work| == width * height && |tmp| == width * height
  {
    forall i :: 0 <= i < width * height ==>
      tmp[i] == if i < cursor then BlurredAt(work, width, height, i) else ZeroVector
  }

  /** The slots from `Images.RowMajor(width, x, y)` up to the start of row
      `y + 1`'s second pixel are border pixels when `x` is past the last
      interior column. */
  lemma RowTailIsBorder(work: seq<Vec3>, width: int, height: int, x: int, y: int, i: int)
    requires 0 <= width && 0 <= height && |work| == width * height
    requires 1 <= x && width - 1 <= x && 0 <= y
    requires Images.RowMajor(width, x, y) <= i < Images.RowMajor(width, 1, y + 1) && 0 <= i < width * height
    ensures BlurredAt(work, width, height, i) == ZeroVector
  {
    CellInRange(width, height, i);
    if i < Images.RowMajor(width, 0, y + 1) {
      CellOfRowMajor(width, i - y * width, y);
    } else {
      CellOfRowMajor(width, 0, y + 1);
    }
  }

  /** Nothing from the start of row `y`'s second pixel on is interior once
      `y` is past the last interior row. */
  lemma LastRowsAreBorder(work: seq<Vec3>, width: int, height: int, y: int, i: int)
    requires 0 <= width && 0 <= height && |work| == width * height
    requires 1 <= y && height - 1 <= y
    requires Images.RowMajor(width, 1, y) <= i < width * height
    ensures BlurredAt(work, width, height, i) == ZeroVector
  {
    CellInRange(width, height, i);
    RowAtLeast(width, i, y);
  }

  /** A slot past the first pixel of row `y` lies in row `y` or later. */
  lemma RowAtLeast(width: int, i: int, y: int)
    requires 0 < width && y * width + 1 <= i
    ensures y <= i / width
  {
    var q, r := i / width, i % width;
    assert i == q * width + r && r < width;
    if q < y {
      MulMonotone(q + 1, y, width);
    }
  }

  /** Below the first interior pixel every slot is a border pixel. */
  lemma FirstRowsAreBorder(work: seq<Vec3>, width: int, height: int, i: int)
    requires 0 <= width && 0 <= height && |work| == width * height
    requires 0 <= i < Images.RowMajor(width, 1, 1) && i < width * height
    ensures BlurredAt(work, width, height, i) == ZeroVector
  {
    CellInRange(width, height, i);
    if i / width >= 1 {
      assert (i / width) * width + i % width == i;
      MulMonotone(1, i / width, width);
    }
  }

  /** The interior pixels of row `y` (post/bloom.go:68-77): written left to
      right, after which every pixel before the next row's first interior
      one holds its blurred value. */
  method BlurRow(work: seq<Vec3>, width: int, height: int, y: int, before: seq<Vec3>) returns (tmp: seq<Vec3>)
    requires 0 <= width && 0 <= height && |work| == width * height && |before| == width * height
    requires 1 <= y < height - 1
    requires FilledBelow(before, work, width, height, Images.RowMajor(width, 1, y))
    ensures |tmp| == width * height
    ensures FilledBelow(tmp, work, width, height, Images.RowMajor(width, 1, y + 1))
  {
    tmp := before;
    var x := 1;
    while x < width - 1
      invariant 1 <= x && (2 <= width ==> x <= width - 1)
      invariant |tmp| == width * height
      invariant FilledBelow(tmp, work, width, height, Images.RowMajor(width, x, y))
    {
      var val := StencilLoop(work, width, height, x, y);
      var c := Images.RowMajor(width, x, y);
      Images.RowMajorInRange(width, height, x, y);
      CellOfRowMajor(width, x, y);
      assert BlurredAt(work, width, height, c) == val;
      tmp := tmp[c := val];
      x := x + 1;
    }
    forall i | 0 <= i < width * height && Images.RowMajor(width, x, y) <= i < Images.RowMajor(width, 1, y + 1)
      ensures BlurredAt(work, width, height, i) == ZeroVector
    {
      RowTailIsBorder(work, width, height, x, y, i);
    }
  }

  /** One blur pass as post/bloom.go:66-78 computes it: a black image, then
      the interior pixels row by row. */
  method BlurPassLoop(work: seq<Vec3>, width: int, height: int) returns (tmp: seq<Vec3>)
    requires 0 <= width && 0 <= height && |work| == width * height
    ensures tmp == BlurPass(work, width, height)
  {
    tmp := seq(width * height, _ => ZeroVector);
    forall i | 0 <= i < width * height && i < Images.RowMajor(width, 1, 1)
      ensures BlurredAt(work, width, height, i) == ZeroVector
    {
      FirstRowsAreBorder(work, width, height, i);
    }
    var y := 1;
    while y < height - 1
      invariant 1 <= y && (2 <= height ==> y <= height - 1)
      invariant |tmp| == width * height
      invariant FilledBelow(tmp, work, width, height, Images.RowMajor(width, 1, y))
    {
      tmp := BlurRow(work, width, height, y, tmp);
      y := y + 1;
    }
    forall i | 0 <= i < width * height && Images.RowMajor(width, 1, y) <= i
      ensures BlurredAt(work, width, height, i) == ZeroVector
    {
      LastRowsAreBorder(work, width, height, y, i);
    }
  }

  // ----- the passes -----

  /** `blurIterations`: Go's `int(float64(width) * blurRadius)`. */
  function BlurIterations(width: int, blurRadius: real): (n: int)
    ensures 0 <= width && 0.0 <= blurRadius <= 1.0 ==> 0 <= n <= width
    ensures 0 <= width && 0.0 <= blurRadius ==> n == (width as real * blurRadius).Floor
  {
    ScaledWithin(width, blurRadius);
    FloorWithin(width as real * blurRadius, width);
    Images.Truncate(width as real * blurRadius)
  }

  lemma FloorWithin(a: real, w: int)
    ensures 0.0 <= a <= w as real ==> 0 <= a.Floor <= w
  {
    if 0.0 <= a <= w as real {
      assert a.Floor as real <= a;
    }
  }

  lemma ScaledWithin(width: int, blurRadius: real)
    ensures 0 <= width && 0.0 <= blurRadius ==> 0.0 <= width as real * blurRadius
    ensures 0 <= width && 0.0 <= blurRadius <= 1.0 ==> width as real * blurRadius <= width as real
  {
    if 0 <= width && 0.0 <= blurRadius <= 1.0 {
      assert width as real - width as real * blurRadius == width as real * (1.0 - blurRadius);
    }
  }

  /** `passes` blur passes. */
  function Blur(work: seq<Vec3>, width: int, height: int, passes: nat): (r: seq<Vec3>)
    requires 0 <= width && 0 <= height && |work| == width * height
    ensures |r| == width * height
  {
    if passes == 0 then work else BlurPass(Blur(work, width, height, passes - 1), width, height)
  }

  /** After at least one pass the border is black. */
  lemma BorderDarkAfterBlur(work: seq<Vec3>, width: int, height: int, passes: nat, x: int, y: int)
    requires 0 <= width && 0 <= height && |work| == width * height && 1 <= passes
    requires 0 <= x < width && 0 <= y < height && !Interior(width, height, x, y)
    ensures 0 <= Images.RowMajor(width, x, y) < width * height
    ensures Blur(work, width, height, passes)[Images.RowMajor(width, x, y)] == ZeroVector
  {
    BlurPassAt(Blur(work, width, height, passes - 1), width, height, x, y);
  }

  /** Blurring keeps colours non-negative. */
  lemma {:induction false} BlurNonNegative(work: seq<Vec3>, width: int, height: int, passes: nat)
    requires 0 <= width && 0 <= height && |work| == width * height
    requires AllNonNegative(work)
    ensures AllNonNegative(Blur(work, width, height, passes))
  {
    if passes > 0 {
      BlurNonNegative(work, width, height, passes - 1);
      BlurPassNonNegative(Blur(work, width, height, passes - 1), width, height);
    }
  }

  // ----- the whole post-processor -----

  /** The output colour of one pixel: the rendered colour plus the scaled
      bloom, quantised. */
  function Combine(m: Libm, pixel: Vec3, bloom: Vec3, multiplier: real, numSamples: int): Images.Rgba
    requires numSamples != 0
  {
    Images.ToRgba(m, Add(pixel, MulS(bloom, multiplier)), numSamples)
  }

  /** `PostProcess`: rejects a blur radius outside `[0, 1]`; otherwise
      quantises every pixel with the bloom of the bright pass added, into an
      image of the given size. */
  function PostProcess(m: Libm, b: BloomPostProcessor, pixels: seq<Vec3>, width: int, height: int, numSamples: int): (r: PostResult)
    requires 0 <= width && 0 <= height && |pixels| == width * height && numSamples != 0
    ensures r.InvalidBlurRadius? <==> b.blurRadius < 0.0 || b.blurRadius > 1.0
    ensures r.InvalidBlurRadius? ==> r.blurRadius == b.blurRadius
    ensures r.Processed? ==> r.image.width == width && r.image.height == height && |r.image.data| == width * height
  {
    if b.blurRadius < 0.0 || b.blurRadius > 1.0 then InvalidBlurRadius(b.blurRadius)
    else
      var passes := BlurIterations(width, b.blurRadius);
      var bloom := Blur(BrightPass(m, pixels, numSamples), width, height, passes);
      Processed(Images.RenderImage(width, height,
        seq(width * height, i requires 0 <= i < width * height => Combine(m, pixels[i], bloom[i], b.bloomMultiplier, numSamples))))
  }

  /** The bloom added to pixel `i`, for a valid radius. */
  function BloomOf(m: Libm, b: BloomPostProcessor, pixels: seq<Vec3>, width: int, height: int, numSamples: int): (bloom: seq<Vec3>)
    requires 0 <= width && 0 <= height && |pixels| == width * height
    requires 0.0 <= b.blurRadius <= 1.0
    ensures |bloom| == width * height
  {
    Blur(BrightPass(m, pixels, numSamples), width, height, BlurIterations(width, b.blurRadius))
  }

  /** The processed pixel `i` is the quantised sum of the rendered colour and
      the scaled bloom of that slot. */
  lemma PostProcessPixel(m: Libm, b: BloomPostProcessor, pixels: seq<Vec3>, width: int, height: int, numSamples: int, i: int)
    requires 0 <= width && 0 <= height && |pixels| == width * height && numSamples != 0
    requires 0.0 <= b.blurRadius <= 1.0 && 0 <= i < width * height
    ensures PostProcess(m, b, pixels, width, height, numSamples).Processed?
    ensures PostProcess(m, b, pixels, width, height, numSamples).image.data[i]
            == Combine(m, pixels[i], BloomOf(m, b, pixels, width, height, numSamples)[i], b.bloomMultiplier, numSamples)
  {}

  /** With a zero multiplier the bloom has no effect: every pixel is
      quantised as it was rendered. */
  lemma ZeroMultiplierIsPlain(m: Libm, b: BloomPostProcessor, pixels: seq<Vec3>, width: int, height: int, numSamples: int, i: int)
    requires 0 <= width && 0 <= height && |pixels| == width * height && numSamples != 0
    requires 0.0 <= b.blurRadius <= 1.0 && b.bloomMultiplier == 0.0 && 0 <= i < width * height
    ensures PostProcess(m, b, pixels, width, height, numSamples).image.data[i] == Images.ToRgba(m, pixels[i], numSamples)
  {
    PostProcessPixel(m, b, pixels, width, height, numSamples, i);
    CombineWithoutBloom(m, pixels[i], BloomOf(m, b, pixels, width, height, numSamples)[i], 0.0, numSamples);
  }

  /** Adding nothing, whether the bloom is black or the multiplier zero,
      quantises the pixel as rendered. */
  lemma CombineWithoutBloom(m: Libm, pixel: Vec3, bloom: Vec3, multiplier: real, numSamples: int)
    requires numSamples != 0 && (bloom == ZeroVector || multiplier == 0.0)
    ensures Combine(m, pixel, bloom, multiplier, numSamples) == Images.ToRgba(m, pixel, numSamples)
  {
    SameComponents(Add(pixel, MulS(bloom, multiplier)), pixel);
  }

  /** Border pixels are never bloomed once the blur runs at least once. */
  lemma BorderUnbloomed(m: Libm, b: BloomPostProcessor, pixels: seq<Vec3>, width: int, height: int, numSamples: int,
                        x: int, y: int)
    requires 0 <= width && 0 <= height && |pixels| == width * height && numSamples != 0
    requires 0.0 <= b.blurRadius <= 1.0 && 1 <= BlurIterations(width, b.blurRadius)
    requires 0 <= x < width && 0 <= y < height && !Interior(width, height, x, y)
    ensures 0 <= Images.RowMajor(width, x, y) < width * height
    ensures PostProcess(m, b, pixels, width, height, numSamples).image.data[Images.RowMajor(width, x, y)]
            == Images.ToRgba(m, pixels[Images.RowMajor(width, x, y)], numSamples)
  {
    var i := Images.RowMajor(width, x, y);
    BorderDarkAfterBlur(BrightPass(m, pixels, numSamples), width, height, BlurIterations(width, b.blurRadius), x, y);
    PostProcessPixel(m, b, pixels, width, height, numSamples, i);
    CombineWithoutBloom(m, pixels[i], ZeroVector, b.bloomMultiplier, numSamples);
  }

  /** Bloom never darkens: with non-negative colours, a positive sample count
      and a non-negative multiplier, every channel of every processed pixel
      is at least that of the plainly quantised pixel. */
  lemma BloomNeverDarkens(m: Libm, b: BloomPostProcessor, pixels: seq<Vec3>, width: int, height: int, numSamples: int, i: int)
    requires Sound(m)
    requires 0 <= width && 0 <= height && |pixels| == width * height && 0 < numSamples
    requires 0.0 <= b.blurRadius <= 1.0 && 0.0 <= b.bloomMultiplier && 0 <= i < width * height
    requires AllNonNegative(pixels)
    ensures var plain := Images.ToRgba(m, pixels[i], numSamples);
            var p := PostProcess(m, b, pixels, width, height, numSamples).image.data[i];
            plain.r <= p.r && plain.g <= p.g && plain.b <= p.b
  {
    BrightPassNonNegative(m, pixels, numSamples);
    BlurNonNegative(BrightPass(m, pixels, numSamples), width, height, BlurIterations(width, b.blurRadius));
    var bloom := BloomOf(m, b, pixels, width, height, numSamples);
    assert NonNegative(bloom[i]);
    PostProcessPixel(m, b, pixels, width, height, numSamples, i);
    CombineBrighter(m, pixels[i], bloom[i], b.bloomMultiplier, numSamples);
  }

  /** The bright pass keeps colours non-negative. */
  lemma BrightPassNonNegative(m: Libm, pixels: seq<Vec3>, numSamples: int)
    requires AllNonNegative(pixels)
    ensures AllNonNegative(BrightPass(m, pixels, numSamples))
  {
    var bright := BrightPass(m, pixels, numSamples);
    forall j | 0 <= j < |bright|
      ensures NonNegative(bright[j])
    {
      assert bright[j] == pixels[j] || bright[j] == ZeroVector;
    }
  }

  /** Adding a non-negative bloom with a non-negative multiplier does not
      lower any quantised channel. */
  lemma CombineBrighter(m: Libm, pixel: Vec3, bloom: Vec3, multiplier: real, numSamples: int)
    requires Sound(m) && 0 < numSamples
    requires NonNegative(pixel) && NonNegative(bloom) && 0.0 <= multiplier
    ensures var plain := Images.ToRgba(m, pixel, numSamples);
            var p := Combine(m, pixel, bloom, multiplier, numSamples);
            plain.r <= p.r && plain.g <= p.g && plain.b <= p.b
  {
    var sum := Add(pixel, MulS(bloom, multiplier));
    assert pixel.x <= sum.x && pixel.y <= sum.y && pixel.z <= sum.z by {
      assert 0.0 <= bloom.x * multiplier && 0.0 <= bloom.y * multiplier && 0.0 <= bloom.z * multiplier;
    }
    Images.ToRgbaMonotone(m, pixel, sum, numSamples);
  }

  /** `PostProcess` as post/bloom.go:39-100 runs it: validation, the bright
      pass, the blur passes with a fresh buffer each, the multiplier, and the
      quantised output. */
  method PostProcessLoops(m: Libm, b: BloomPostProcessor, pixels: seq<Vec3>, width: int, height: int, numSamples: int)
    returns (r: PostResult)
    requires 0 <= width && 0 <= height && |pixels| == width * height && numSamples != 0
    ensures r == PostProcess(m, b, pixels, width, height, numSamples)
  {
    if b.blurRadius < 0.0 || b.blurRadius > 1.0 {
      return InvalidBlurRadius(b.blurRadius);
    }
    var work := BrightPass(m, pixels, numSamples);
    var blurIterations := BlurIterations(width, b.blurRadius);
    var blurCount := 0;
    while blurCount < blurIterations
      invariant 0 <= blurCount && (0 <= blurIterations ==> blurCount <= blurIterations)
      invariant work == Blur(BrightPass(m, pixels, numSamples), width, height, blurCount)
    {
      work := BlurPassLoop(work, width, height);
      blurCount := blurCount + 1;
    }
    assert work == BloomOf(m, b, pixels, width, height, numSamples);
    var scaled := seq(width * height, i requires 0 <= i < width * height => MulS(work[i], b.bloomMultiplier));
    var data := seq(width * height, i requires 0 <= i < width * height => Images.ToRgba(m, Add(pixels[i], scaled[i]), numSamples));
    r := Processed(Images.RenderImage(width, height, data));
  }
}
