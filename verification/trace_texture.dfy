/** The textures of the older package (pkg/trace/texture.go): a solid
    colour, a checker pattern that alternates between two textures, and a
    lookup in a raw RGBA byte buffer.  A texture reads only the texture
    coordinates `(u, v)` of the hit record, so those are its inputs here. */
module TraceTextures {
  import opened Vectors
  import opened Wrappers
  import Images
  import TraceVectors

  /** A texture; the image buffer holds `width * height` pixels of four
      bytes each, row by row. */
  datatype Texture =
    | SolidColor(colorValue: Vec3)
    | CheckerTexture(scale: real, even: Texture, odd: Texture)
    | ImageTexture(bytes: seq<Images.Byte>, width: int, height: int)

  /** Every checker has a non-zero scale and every image a buffer of its
      size. */
  predicate Valid(t: Texture) {
    match t
    case SolidColor(_) => true
    case CheckerTexture(scale, even, odd) => scale != 0.0 && Valid(even) && Valid(odd)
    case ImageTexture(bytes, width, height) => 1 <= width && 1 <= height && |bytes| == width * height * 4
  }

  // ----- the checker -----

  /** Go's `%` on integers: the remainder takes the sign of the dividend. */
  function GoRem(a: int, n: int): (r: int)
    requires n > 0
    ensures a >= 0 ==> r == a % n
    ensures a < 0 ==> r == -((-a) % n)
  {
    if a >= 0 then a % n else -((-a) % n)
  }

  /** The test of pkg/trace/texture.go:24-28: the cell indices
      `floor(u / scale)` and `floor(v / scale)`, summed, converted to an
      integer and reduced with Go's `% 2`. */
  predicate ChoosesEven(scale: real, u: real, v: real)
    requires scale != 0.0
  {
    var invScale := 1.0 / scale;
    var uInt := (u * invScale).Floor as real;
    var vInt := (v * invScale).Floor as real;
    GoRem(Images.Truncate(uInt + vInt), 2) == 0
  }

  /** The even texture is chosen exactly when the two cell indices have an
      even sum, negative cells included. */
  lemma CheckerParity(scale: real, u: real, v: real)
    requires scale != 0.0
    ensures ChoosesEven(scale, u, v) <==> ((u / scale).Floor + (v / scale).Floor) % 2 == 0
  {
    DivAsProduct(u, scale);
    DivAsProduct(v, scale);
    var k := (u / scale).Floor + (v / scale).Floor;
    TruncateWhole(k);
    GoRemParity(k);
  }

  lemma DivAsProduct(a: real, d: real)
    requires d != 0.0
    ensures a * (1.0 / d) == a / d
  {}

  lemma TruncateWhole(k: int)
    ensures Images.Truncate(k as real) == k
  {}

  lemma GoRemParity(k: int)
    ensures GoRem(k, 2) == 0 <==> k % 2 == 0
  {
    if k < 0 {
      assert (-k) % 2 == 0 <==> k % 2 == 0;
    }
  }

  /** Moving `a` by `n` cells of size `d` moves `a / d` by `n`, and its
      floor with it. */
  lemma ShiftCells(a: real, d: real, n: int)
    requires d != 0.0
    ensures (a + n as real * d) / d == a / d + n as real
    ensures ((a + n as real * d) / d).Floor == (a / d).Floor + n
  {
    assert (a + n as real * d) / d == a / d + n as real;
  }

  /** Shifting `u` by one scale moves to the neighbouring cell, which has
      the other parity; shifting by two scales returns to the same parity. */
  lemma CheckerPeriodic(scale: real, u: real, v: real)
    requires scale != 0.0
    ensures ChoosesEven(scale, u + scale, v) <==> !ChoosesEven(scale, u, v)
    ensures ChoosesEven(scale, u + 2.0 * scale, v) <==> ChoosesEven(scale, u, v)
    ensures ChoosesEven(scale, u, v + 2.0 * scale) <==> ChoosesEven(scale, u, v)
  {
    ShiftU(scale, u, v, 1);
    ShiftU(scale, u, v, 2);
    ShiftV(scale, u, v, 2);
  }

  /** `n` cells along `u` keep the choice exactly when `n` is even. */
  lemma ShiftU(scale: real, u: real, v: real, n: int)
    requires scale != 0.0
    ensures ChoosesEven(scale, u + n as real * scale, v) <==> (ChoosesEven(scale, u, v) <==> n % 2 == 0)
  {
    CheckerParity(scale, u, v);
    CheckerParity(scale, u + n as real * scale, v);
    ShiftCells(u, scale, n);
    ParityOfSum((u / scale).Floor + (v / scale).Floor, n);
  }

  /** `n` cells along `v` keep the choice exactly when `n` is even. */
  lemma ShiftV(scale: real, u: real, v: real, n: int)
    requires scale != 0.0
    ensures ChoosesEven(scale, u, v + n as real * scale) <==> (ChoosesEven(scale, u, v) <==> n % 2 == 0)
  {
    CheckerParity(scale, u, v);
    CheckerParity(scale, u, v + n as real * scale);
    ShiftCells(v, scale, n);
    ParityOfSum((u / scale).Floor + (v / scale).Floor, n);
  }

  lemma ParityOfSum(k: int, n: int)
    ensures (k + n) % 2 == 0 <==> (k % 2 == 0 <==> n % 2 == 0)
  {}

  // ----- the image lookup -----

  /** `interval{0, 1}.clamp`. */
  function Clamp01(x: real): (c: real)
    ensures 0.0 <= c <= 1.0
    ensures 0.0 <= x <= 1.0 ==> c == x
  {
    if x < 0.0 then 0.0 else if x > 1.0 then 1.0 else x
  }

  /** The byte offset pkg/trace/texture.go:43-48 reads, as written: the
      clamped coordinates are scaled by the image size with no upper bound,
      so `u = 1` gives column `width` and `v <= 0` gives row `height`. */
  function ImageIndexAsWritten(width: int, height: int, u: real, v: real): (i: int)
    requires 1 <= width && 1 <= height
    ensures i % 4 == 0
  {
    var x := Images.Truncate(Clamp01(u) * width as real);
    var y := Images.Truncate((1.0 - Clamp01(v)) * height as real);
    (y * width + x) * 4
  }

  /** The lookup as written: the colour `toVec3` decodes from the three
      bytes at the offset, or `None` where Go's slice indexing panics. */
  function ImageColorAsWritten(bytes: seq<Images.Byte>, width: int, height: int, u: real, v: real): (c: Option<Vec3>)
    requires 1 <= width && 1 <= height
    ensures c.Some? <==> ImageIndexAsWritten(width, height, u, v) + 2 < |bytes|
  {
    var i := ImageIndexAsWritten(width, height, u, v);
    if 0 <= i && i + 2 < |bytes| then Some(TraceVectors.RgbaToVec3(bytes[i], bytes[i + 1], bytes[i + 2])) else None
  }

  /** `floor(c * n)` for `c` in `[0, 1]`: a value of `[0, n]`. */
  lemma ScaledCell(c: real, n: int)
    requires 0.0 <= c <= 1.0 && 1 <= n
    ensures 0 <= Images.Truncate(c * n as real) <= n
    ensures c == 1.0 ==> Images.Truncate(c * n as real) == n
  {
    var a := c * n as real;
    ProductNonNegative(c, n as real);
    ProductNonNegative(1.0 - c, n as real);
    assert n as real - a == (1.0 - c) * n as real;
    FloorWithin(a, n);
    if c == 1.0 {
      assert a == n as real;
    }
  }

  lemma ProductNonNegative(p: real, q: real)
    requires 0.0 <= p && 0.0 <= q
    ensures 0.0 <= p * q
  {}

  lemma FloorWithin(a: real, n: int)
    requires 0.0 <= a <= n as real
    ensures 0 <= a.Floor <= n
  {}

  /** The offset as written runs past the buffer for every `v <= 0`: the
      row is `height`, one past the last. */
  lemma ImageIndexPastEnd(width: int, height: int, u: real, v: real)
    requires 1 <= width && 1 <= height && v <= 0.0
    ensures ImageIndexAsWritten(width, height, u, v) >= width * height * 4
    ensures ImageColorAsWritten(seq(width * height * 4, _ => 0), width, height, u, v) == None
  {
    ScaledCell(Clamp01(u), width);
    ScaledCell(1.0 - Clamp01(v), height);
    var x := Images.Truncate(Clamp01(u) * width as real);
    var y := Images.Truncate((1.0 - Clamp01(v)) * height as real);
    RowPastEnd(y, width, x, height);
  }

  /** For `u >= 1` the written offset names column `width`, which is the
      first pixel of the next row. */
  lemma ImageIndexWraps(width: int, height: int, u: real, v: real)
    requires 1 <= width && 1 <= height && 1.0 <= u
    ensures ImageIndexAsWritten(width, height, u, v) ==
            (Images.Truncate((1.0 - Clamp01(v)) * height as real) + 1) * width * 4
  {
    ScaledCell(Clamp01(u), width);
    NextRow(Images.Truncate((1.0 - Clamp01(v)) * height as real), width);
  }

  lemma RowPastEnd(y: int, width: int, x: int, height: int)
    requires y == height && 0 <= x
    ensures (y * width + x) * 4 >= width * height * 4
  {}

  lemma NextRow(y: int, width: int)
    ensures (y * width + width) * 4 == (y + 1) * width * 4
  {}

  /** The cell of coordinate `c` in `[0, 1]` on an axis of `n` pixels:
      `floor(c * n)`, with `c = 1` kept on the last pixel. */
  function Cell(c: real, n: int): (k: int)
    requires 0.0 <= c <= 1.0 && 1 <= n
    ensures 0 <= k < n
    ensures c < 1.0 ==> k == Images.Truncate(c * n as real)
  {
    ScaledCell(c, n);
    var k := Images.Truncate(c * n as real);
    if k < n then k else n - 1
  }

  /** The evidently intended offset: the clamped cell, so every coordinate
      names a pixel of the image and the offset of its first byte. */
  function ImageIndex(width: int, height: int, u: real, v: real): (i: int)
    requires 1 <= width && 1 <= height
    ensures 0 <= i && i + 4 <= width * height * 4 && i % 4 == 0
    ensures 0.0 < v && u < 1.0 ==> i == ImageIndexAsWritten(width, height, u, v)
  {
    var x := Cell(Clamp01(u), width);
    var y := Cell(1.0 - Clamp01(v), height);
    Images.RowMajorInRange(width, height, x, y);
    SlotOffset(Images.RowMajor(width, x, y), width * height);
    CellsAsWritten(width, height, u, v);
    SameOffset(width, x, y, Images.Truncate(Clamp01(u) * width as real), Images.Truncate((1.0 - Clamp01(v)) * height as real));
    Images.RowMajor(width, x, y) * 4
  }

  /** Inside the image the clamped cells are the written ones. */
  lemma CellsAsWritten(width: int, height: int, u: real, v: real)
    requires 1 <= width && 1 <= height
    ensures 0.0 < v && u < 1.0 ==>
              && Cell(Clamp01(u), width) == Images.Truncate(Clamp01(u) * width as real)
              && Cell(1.0 - Clamp01(v), height) == Images.Truncate((1.0 - Clamp01(v)) * height as real)
  {}

  /** Slot `r` of `n` four-byte slots starts at byte `4 r`, inside the
      buffer. */
  lemma SlotOffset(r: int, n: int)
    requires 0 <= r < n
    ensures 0 <= r * 4 && r * 4 + 4 <= n * 4 && (r * 4) % 4 == 0
  {}

  lemma SameOffset(width: int, x1: int, y1: int, x2: int, y2: int)
    ensures x1 == x2 && y1 == y2 ==> Images.RowMajor(width, x1, y1) * 4 == (y2 * width + x2) * 4
  {}

  // ----- colour -----

  /** `color` of each texture, with the image lookup clamped.  A texture
      reads the record only through `u` and `v`. */
  function Color(t: Texture, u: real, v: real): (c: Vec3)
    requires Valid(t)
    ensures t.ImageTexture? ==> 0.0 <= c.x <= 1.0 && 0.0 <= c.y <= 1.0 && 0.0 <= c.z <= 1.0
    ensures t.CheckerTexture? ==> c == Color(if ChoosesEven(t.scale, u, v) then t.even else t.odd, u, v)
  {
    match t
    case SolidColor(value) => value
    case CheckerTexture(scale, even, odd) =>
      if ChoosesEven(scale, u, v) then Color(even, u, v) else Color(odd, u, v)
    case ImageTexture(bytes, width, height) =>
      var i := ImageIndex(width, height, u, v);
      TraceVectors.RgbaToVec3(bytes[i], bytes[i + 1], bytes[i + 2])
  }

  /** A solid colour ignores the record entirely. */
  lemma SolidColorIgnoresRecord(value: Vec3, u1: real, v1: real, u2: real, v2: real)
    ensures Color(SolidColor(value), u1, v1) == Color(SolidColor(value), u2, v2) == value
  {}

  /** A checker of two solid colours is periodic with period twice its
      scale along both coordinates, and adjacent cells alternate. */
  lemma CheckerOfSolidsPeriodic(scale: real, a: Vec3, b: Vec3, u: real, v: real)
    requires scale != 0.0
    ensures var t := CheckerTexture(scale, SolidColor(a), SolidColor(b));
            && Valid(t)
            && Color(t, u + 2.0 * scale, v) == Color(t, u, v)
            && Color(t, u, v + 2.0 * scale) == Color(t, u, v)
            && (Color(t, u, v) == a ==> Color(t, u + scale, v) == b)
  {
    CheckerPeriodic(scale, u, v);
  }

  /** The image colour is the pixel's three bytes scaled by `1 / 255`. */
  lemma ImageColorReadsPixel(bytes: seq<Images.Byte>, width: int, height: int, u: real, v: real)
    requires Valid(ImageTexture(bytes, width, height))
    ensures var i := ImageIndex(width, height, u, v);
            var c := Color(ImageTexture(bytes, width, height), u, v);
            && c.x * 255.0 == bytes[i] as real
            && c.y * 255.0 == bytes[i + 1] as real
            && c.z * 255.0 == bytes[i + 2] as real
  {}

  /** An all-white buffer reads white everywhere, an all-black one black. */
  lemma UniformImages(width: int, height: int, u: real, v: real)
    requires 1 <= width && 1 <= height
    ensures Color(ImageTexture(seq(width * height * 4, _ => 255), width, height), u, v) == Vec3(1.0, 1.0, 1.0)
    ensures Color(ImageTexture(seq(width * height * 4, _ => 0), width, height), u, v) == ZeroVector
  {
    TraceVectors.RgbaRoundTrip(0, 0, 0);
  }

  /** Where the written offset is in range, the clamped lookup agrees with
      it. */
  lemma ImageColorAgrees(bytes: seq<Images.Byte>, width: int, height: int, u: real, v: real)
    requires Valid(ImageTexture(bytes, width, height))
    requires 0.0 < v && u < 1.0
    ensures ImageColorAsWritten(bytes, width, height, u, v) == Some(Color(ImageTexture(bytes, width, height), u, v))
  {}
}
