/** Textures (material/texture.go): the colour of a surface at texture
    coordinates `(u, v)`, either one solid colour or a lookup in an image. */
module Textures {
  import opened Vectors
  import Images

  /** A 16-bit colour channel, as `color.Color.RGBA` returns it. */
  type Channel16 = x: int | 0 <= x <= 0xFFFF

  datatype Color16 = Color16(r: Channel16, g: Channel16, b: Channel16)

  /** The `image.Image` a texture samples: `Bounds().Max` and `At`.  Decoding
      the file it came from is not part of this model. */
  datatype Picture = Picture(boundsMaxX: int, boundsMaxY: int, at: (int, int) -> Color16)

  datatype Texture =
    | SolidColor(colorValue: Vec3)
    | ImageTexture(picture: Picture, mirror: bool, maxX: real, maxY: real)

  function NewSolidColor(r: real, g: real, b: real): (t: Texture)
    ensures t.SolidColor? && t.colorValue == Vec3(r, g, b)
  {
    SolidColor(Vec3(r, g, b))
  }

  /** `NewImageTexture`: the largest pixel coordinates are one less than the
      picture's bounds. */
  function NewImageTexture(picture: Picture, mirror: bool): (t: Texture)
    ensures t.ImageTexture? && t.picture == picture && t.mirror == mirror
    ensures t.maxX + 1.0 == picture.boundsMaxX as real && t.maxY + 1.0 == picture.boundsMaxY as real
  {
    ImageTexture(picture, mirror, (picture.boundsMaxX - 1) as real, (picture.boundsMaxY - 1) as real)
  }

  /** `math.Mod(a, 1)` for `a >= 0`: the fractional part. */
  function Mod1(a: real): (f: real)
    requires 0.0 <= a
    ensures 0.0 <= f < 1.0
    ensures (a - f).Floor as real == a - f
  {
    a - a.Floor as real
  }

  /** The horizontal texture coordinate: the fractional part of `|U|`,
      mirrored to `1 - u` on request. */
  function TexU(u: real, mirror: bool): (r: real)
    ensures !mirror ==> 0.0 <= r < 1.0
    ensures mirror ==> 0.0 < r <= 1.0
  {
    var f := Mod1(Abs(u));
    if mirror then 1.0 - f else f
  }

  /** The vertical texture coordinate, flipped: image rows grow downwards. */
  function TexV(v: real): (r: real)
    ensures 0.0 < r <= 1.0
  {
    1.0 - Mod1(Abs(v))
  }

  /** `int(c * max)`: a pixel coordinate. */
  function Pixel(c: real, max: real): int {
    Images.Truncate(c * max)
  }

  /** `Color`: the solid colour, or the image pixel under `(u, v)` with its
      16-bit channels reduced to `[0, 1]`. */
  function Color(t: Texture, u: real, v: real): (c: Vec3)
    ensures t.ImageTexture? ==> 0.0 <= c.x <= 1.0 && 0.0 <= c.y <= 1.0 && 0.0 <= c.z <= 1.0
  {
    match t
    case SolidColor(value) => value
    case ImageTexture(picture, mirror, maxX, maxY) =>
      var x := Pixel(TexU(u, mirror), maxX);
      var y := Pixel(TexV(v), maxY);
      var p := picture.at(x, y);
      Images.RgbToVec3(p.r, p.g, p.b)
  }

  // ----- properties -----

  /** A solid colour is the same at every texture coordinate. */
  lemma SolidColorIgnoresCoordinates(value: Vec3, u: real, v: real)
    ensures Color(SolidColor(value), u, v) == value
  {}

  /** A coordinate of `[0, 1]` scaled to `[0, max]` truncates to a pixel
      index of `[0, max]`. */
  lemma PixelInRange(c: real, max: int)
    requires 0.0 <= c <= 1.0 && 0 <= max
    ensures 0 <= Pixel(c, max as real) <= max
  {
    assert 0.0 <= c * max as real <= max as real by {
      assert max as real - c * max as real == (1.0 - c) * max as real;
    }
  }

  /** For a picture of at least one pixel, every texture coordinate maps to
      a pixel inside it. */
  lemma ImagePixelInRange(picture: Picture, mirror: bool, u: real, v: real)
    requires 1 <= picture.boundsMaxX && 1 <= picture.boundsMaxY
    ensures 0 <= Pixel(TexU(u, mirror), NewImageTexture(picture, mirror).maxX) < picture.boundsMaxX
    ensures 0 <= Pixel(TexV(v), NewImageTexture(picture, mirror).maxY) < picture.boundsMaxY
  {
    PixelInRange(TexU(u, mirror), picture.boundsMaxX - 1);
    PixelInRange(TexV(v), picture.boundsMaxY - 1);
  }

  /** Shifting by a whole unit keeps the fractional part. */
  lemma Mod1Periodic(a: real)
    requires 0.0 <= a
    ensures Mod1(a + 1.0) == Mod1(a)
  {
    assert (a + 1.0).Floor == a.Floor + 1;
  }

  /** The texture wraps: negating `U`, or adding one to a non-negative `U`,
      selects the same pixel. */
  lemma ColorWraps(t: Texture, u: real, v: real)
    ensures Color(t, -u, v) == Color(t, u, v)
    ensures 0.0 <= u ==> Color(t, u + 1.0, v) == Color(t, u, v)
    ensures 0.0 <= v ==> Color(t, u, v + 1.0) == Color(t, u, v)
  {
    assert Abs(-u) == Abs(u);
    if 0.0 <= u {
      Mod1Periodic(u);
    }
    if 0.0 <= v {
      Mod1Periodic(v);
    }
  }
}
