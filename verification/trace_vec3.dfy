/** The vectors of the older package (pkg/trace/vec3.go, pkg/trace/ray.go).
    The componentwise operations are those of `Vectors`; the dot and cross
    products as written there differ from the geometric ones, and colours
    become bytes by a scale of 255.999 with no clamp. */
module TraceVectors {
  import opened Vectors
  import opened Wrappers
  import Images

  // ----- componentwise operations -----

  /** The componentwise operations of pkg/trace/vec3.go:11-33 (the same as
      `Vectors.Neg` to `Vectors.DivS`) relate as a vector space's do:
      subtraction adds the negation and is undone by addition, scaling is a
      product with a constant vector, and division by `t` scales by `1 / t`. */
  lemma ComponentwiseLaws(v: Vec3, w: Vec3, t: real)
    ensures Sub(v, w) == Add(v, Neg(w))
    ensures Add(Sub(v, w), w) == v
    ensures Add(v, w) == Add(w, v) && Mul(v, w) == Mul(w, v)
    ensures MulS(v, t) == Mul(v, Vec3(t, t, t))
    ensures t != 0.0 ==> DivS(v, t) == MulS(v, 1.0 / t) && DivS(MulS(v, t), t) == v
  {
    if t != 0.0 {
      RatioAsProduct(v.x, t);
      RatioAsProduct(v.y, t);
      RatioAsProduct(v.z, t);
      MulSDivSInverse(v, t);
    }
  }

  // ----- dot and cross as written -----

  /** `dot` as written at pkg/trace/vec3.go:36: the third term adds the two
      z components instead of multiplying them. */
  function DotAsWritten(v: Vec3, w: Vec3): (d: real)
    ensures d == Dot(v, w) - v.z * w.z + v.z + w.z
  {
    v.x * w.x + v.y * w.y + v.z + w.z
  }

  /** The written dot product is not bilinear: against the zero vector it
      gives `v.z` rather than 0, and it disagrees with `Dot` exactly when
      `v.z * w.z != v.z + w.z`. */
  lemma DotAsWrittenDiffers(v: Vec3, w: Vec3)
    ensures DotAsWritten(v, ZeroVector) == v.z
    ensures DotAsWritten(v, w) == Dot(v, w) <==> v.z * w.z == v.z + w.z
    ensures DotAsWritten(Vec3(0.0, 0.0, 1.0), ZeroVector) != Dot(Vec3(0.0, 0.0, 1.0), ZeroVector)
  {}

  /** `Vectors.Dot`, the evidently intended product, is symmetric, linear in
      its first argument and zero against the zero vector. */
  lemma DotIsBilinear(u: Vec3, v: Vec3, w: Vec3, t: real)
    ensures Dot(v, ZeroVector) == 0.0
    ensures Dot(v, w) == Dot(w, v)
    ensures Dot(Add(u, v), w) == Dot(u, w) + Dot(v, w)
    ensures Dot(MulS(v, t), w) == t * Dot(v, w)
  {
    DotSymmetricLinear(u, v, w, t);
  }

  /** `cross` as written at pkg/trace/vec3.go:39-45: the operands are taken
      in the opposite order. */
  function CrossAsWritten(v: Vec3, w: Vec3): (c: Vec3)
    ensures c == Cross(w, v)
  {
    Vec3(
      w.y * v.z - w.z * v.y,
      w.z * v.x - w.x * v.z,
      w.x * v.y - w.y * v.x
    )
  }

  /** The written cross product is the negation of the right-handed one:
      `x × y` comes out as `-z`. */
  lemma CrossAsWrittenIsNegated(v: Vec3, w: Vec3)
    ensures CrossAsWritten(v, w) == Neg(Cross(v, w))
    ensures CrossAsWritten(Vec3(1.0, 0.0, 0.0), Vec3(0.0, 1.0, 0.0)) == Vec3(0.0, 0.0, -1.0)
  {}

  /** `Vectors.Cross`, the evidently intended product, is right-handed
      (`x × y = z`), anti-commutative and orthogonal to both operands. */
  lemma CrossIsRightHanded(v: Vec3, w: Vec3)
    ensures Cross(Vec3(1.0, 0.0, 0.0), Vec3(0.0, 1.0, 0.0)) == Vec3(0.0, 0.0, 1.0)
    ensures Cross(w, v) == Neg(Cross(v, w))
    ensures Dot(Cross(v, w), v) == 0.0 && Dot(Cross(v, w), w) == 0.0
  {
    CrossOrthogonal(v, w);
  }

  // ----- colour bytes -----

  /** `byte(c * 255.999)`: Go truncates toward zero; a value outside the
      byte's range has no specified conversion, and is `None` here.  A
      channel converts exactly when `-1 < c * 255.999 < 256`, which every
      channel of `[0, 1]` meets. */
  function ChannelByte(c: real): (b: Option<Images.Byte>)
    ensures b.Some? <==> -1.0 < c * 255.999 < 256.0
    ensures b.Some? ==> b.value == Images.Truncate(c * 255.999)
    ensures 0.0 <= c <= 1.0 ==> b.Some? && b.value as real <= c * 255.999 < b.value as real + 1.0
  {
    var n := Images.Truncate(c * 255.999);
    if 0 <= n < 256 then Some(n) else None
  }

  /** The channels of `c` all lie in `[0, 1]`. */
  predicate UnitColor(c: Vec3) {
    0.0 <= c.x <= 1.0 && 0.0 <= c.y <= 1.0 && 0.0 <= c.z <= 1.0
  }

  /** `toRgba` of pkg/trace/vec3.go:66-73: the three channels as bytes and
      an opaque alpha; `None` when a channel does not fit. */
  function ToRgba(c: Vec3): (p: Option<Images.Rgba>)
    ensures p.Some? <==> ChannelByte(c.x).Some? && ChannelByte(c.y).Some? && ChannelByte(c.z).Some?
    ensures UnitColor(c) ==> p.Some?
    ensures p.Some? ==> p.value.a == 255
  {
    match (ChannelByte(c.x), ChannelByte(c.y), ChannelByte(c.z))
    case (Some(r), Some(g), Some(b)) => Some(Images.Rgba(r, g, b, 255))
    case _ => None
  }

  /** The conversion is monotone, maps 0 to 0 and 1 to 255, and a channel of
      2 does not fit in a byte. */
  lemma ChannelByteBounds(a: real, b: real)
    requires 0.0 <= a <= b <= 1.0
    ensures ChannelByte(a).value <= ChannelByte(b).value
    ensures ChannelByte(0.0) == Some(0) && ChannelByte(1.0) == Some(255)
    ensures ChannelByte(2.0) == None
  {
    assert a * 255.999 <= b * 255.999;
  }

  /** `toVec3` of pkg/trace/rgbaColor.go:38-44: each byte scaled by
      `colorScale = 1 / 255`, the alpha ignored; every channel lands in
      `[0, 1]`, and a byte of `b` reads `b / 255`. */
  function ByteChannel(b: Images.Byte): (c: real)
    ensures 0.0 <= c <= 1.0
    ensures c * 255.0 == b as real
  {
    b as real * (1.0 / 255.0)
  }

  function RgbaToVec3(r: Images.Byte, g: Images.Byte, b: Images.Byte): (c: Vec3)
    ensures UnitColor(c)
    ensures c.x * 255.0 == r as real && c.y * 255.0 == g as real && c.z * 255.0 == b as real
  {
    Vec3(ByteChannel(r), ByteChannel(g), ByteChannel(b))
  }

  /** Converting a decoded byte back with `toRgba` gives the byte again:
      `b / 255 * 255.999` lies in `[b, b + 1)`. */
  lemma ByteChannelRoundTrip(b: Images.Byte)
    ensures ChannelByte(ByteChannel(b)) == Some(b)
  {
    var c := ByteChannel(b);
    var x := c * 255.999;
    assert x == b as real + c * 0.999;
    assert c * 0.999 < 1.0;
    assert b as real <= x < b as real + 1.0;
  }

  /** Decoding an RGB triple and encoding it again gives the same bytes
      and an opaque alpha; white decodes to `(1, 1, 1)` and black to zero. */
  lemma RgbaRoundTrip(r: Images.Byte, g: Images.Byte, b: Images.Byte)
    ensures ToRgba(RgbaToVec3(r, g, b)) == Some(Images.Rgba(r, g, b, 255))
    ensures RgbaToVec3(255, 255, 255) == Vec3(1.0, 1.0, 1.0)
    ensures RgbaToVec3(0, 0, 0) == ZeroVector
  {
    ByteChannelRoundTrip(r);
    ByteChannelRoundTrip(g);
    ByteChannelRoundTrip(b);
  }

  // ----- rays -----

  /** The ray of pkg/trace/ray.go: an origin and a direction, which is not
      normalised. */
  datatype Ray = Ray(orig: Vec3, dir: Vec3)

  /** `at`: the point `t` directions along the ray. */
  function At(r: Ray, t: real): (p: Vec3)
    ensures Sub(p, r.orig) == MulS(r.dir, t)
  {
    Add(r.orig, MulS(r.dir, t))
  }
}
