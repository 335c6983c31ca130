/** The camera (camera/camera.go): a thin-lens camera looking from `lookFrom`
    towards `lookAt`.  The viewport sits `focusDistance` in front of the
    lens; a ray leaves from a random point of the lens disc and passes
    through the viewport point `(s, t)`. */
module Cameras {
  import opened Libm
  import opened Vectors
  import Util
  import Rays
  import Onbs

  datatype Camera = Camera(
    origin: Vec3,
    lowerLeftCorner: Vec3,
    horizontal: Vec3,
    vertical: Vec3,
    u: Vec3,
    v: Vec3,
    lensRadius: real
  )

  /** The backward view direction, `w`: from `lookAt` to `lookFrom`, unit. */
  function BackAxis(m: Libm, lookFrom: Vec3, lookAt: Vec3): Vec3
    requires Length(m, Sub(lookFrom, lookAt)) != 0.0
  {
    Unit(m, Sub(lookFrom, lookAt))
  }

  /** What `New` needs of its arguments for the basis to be defined: a view
      direction, and an up vector not along it. */
  predicate Aimed(m: Libm, lookFrom: Vec3, lookAt: Vec3, vup: Vec3) {
    Length(m, Sub(lookFrom, lookAt)) != 0.0 && Length(m, Cross(vup, BackAxis(m, lookFrom, lookAt))) != 0.0
  }

  /** The viewport height: twice the tangent of half the vertical field of
      view. */
  function ViewportHeight(m: Libm, verticalFovDegrees: real): real {
    2.0 * m.tan(Util.DegreesToRadians(m, verticalFovDegrees) / 2.0)
  }

  /** The viewport width: the height stretched by the image's aspect ratio. */
  function ViewportWidth(m: Libm, imageWidth: int, imageHeight: int, verticalFovDegrees: real): real
    requires imageHeight != 0
  {
    (imageWidth as real / imageHeight as real) * ViewportHeight(m, verticalFovDegrees)
  }

  /** `New`: the camera's frame and its viewport, scaled out to the focus
      distance. */
  function New(m: Libm, imageWidth: int, imageHeight: int, verticalFovDegrees: real, aperture: real,
               focusDistance: real, lookFrom: Vec3, lookAt: Vec3, vup: Vec3): (c: Camera)
    requires imageHeight != 0
    requires Aimed(m, lookFrom, lookAt, vup)
    ensures c.origin == lookFrom
    ensures c.lensRadius == aperture / 2.0
    ensures c.horizontal == MulS(MulS(c.u, ViewportWidth(m, imageWidth, imageHeight, verticalFovDegrees)), focusDistance)
    ensures c.vertical == MulS(MulS(c.v, ViewportHeight(m, verticalFovDegrees)), focusDistance)
  {
    var viewPortHeight := ViewportHeight(m, verticalFovDegrees);
    var viewPortWidth := ViewportWidth(m, imageWidth, imageHeight, verticalFovDegrees);
    var w := BackAxis(m, lookFrom, lookAt);
    var u := Unit(m, Cross(vup, w));
    var v := Cross(w, u);
    var horizontal := MulS(MulS(u, viewPortWidth), focusDistance);
    var vertical := MulS(MulS(v, viewPortHeight), focusDistance);
    var lowerLeftCorner := Sub(Sub(Sub(lookFrom, DivS(horizontal, 2.0)), DivS(vertical, 2.0)), MulS(w, focusDistance));
    Camera(lookFrom, lowerLeftCorner, horizontal, vertical, u, v, aperture / 2.0)
  }

  /** The camera's frame is orthonormal: `u` is the unit vector across the
      view, perpendicular to `w`, and `v = w x u` completes the frame. */
  lemma FrameIsOrthonormal(m: Libm, imageWidth: int, imageHeight: int, verticalFovDegrees: real, aperture: real,
                           focusDistance: real, lookFrom: Vec3, lookAt: Vec3, vup: Vec3)
    requires Sound(m)
    requires imageHeight != 0
    requires Aimed(m, lookFrom, lookAt, vup)
    ensures var c := New(m, imageWidth, imageHeight, verticalFovDegrees, aperture, focusDistance, lookFrom, lookAt, vup);
            var w := BackAxis(m, lookFrom, lookAt);
            c.v == Cross(w, c.u) && Onbs.Orthonormal(Onbs.Onb(c.u, c.v, w))
  {
    var c := New(m, imageWidth, imageHeight, verticalFovDegrees, aperture, focusDistance, lookFrom, lookAt, vup);
    var w := BackAxis(m, lookFrom, lookAt);
    var across := Cross(vup, w);
    var l := Length(m, across);
    var u := Unit(m, across);
    assert c.u == u && c.v == Cross(w, u);
    assert LengthSquared(w) == 1.0;
    assert Dot(w, w) == 1.0 by {
      LengthSquaredIsSelfDot(w);
    }
    assert Dot(across, w) == 0.0 by {
      CrossOrthogonal(vup, w);
    }
    assert Dot(u, u) == 1.0 by {
      assert LengthSquared(u) == 1.0;
      LengthSquaredIsSelfDot(u);
    }
    assert u == MulS(across, 1.0 / l);
    Onbs.OnbOrthonormal(w, across, u, Cross(w, u), l);
    DotSymmetric(Cross(w, u), u);
  }

  /** The viewport is centred on the view axis: its lower-left corner plus
      half of each edge is the point `focusDistance` in front of the lens. */
  lemma ViewportCentred(m: Libm, imageWidth: int, imageHeight: int, verticalFovDegrees: real, aperture: real,
                        focusDistance: real, lookFrom: Vec3, lookAt: Vec3, vup: Vec3)
    requires imageHeight != 0
    requires Aimed(m, lookFrom, lookAt, vup)
    ensures var c := New(m, imageWidth, imageHeight, verticalFovDegrees, aperture, focusDistance, lookFrom, lookAt, vup);
            Add(Add(c.lowerLeftCorner, DivS(c.horizontal, 2.0)), DivS(c.vertical, 2.0))
            == Sub(lookFrom, MulS(BackAxis(m, lookFrom, lookAt), focusDistance))
  {
    var c := New(m, imageWidth, imageHeight, verticalFovDegrees, aperture, focusDistance, lookFrom, lookAt, vup);
    var w := BackAxis(m, lookFrom, lookAt);
    SameComponents(Add(Add(c.lowerLeftCorner, DivS(c.horizontal, 2.0)), DivS(c.vertical, 2.0)),
                   Sub(lookFrom, MulS(w, focusDistance)));
  }

  /** With a sound square root the viewport edges have the lengths the
      field of view and aspect ratio give, at the focus distance. */
  lemma ViewportSize(m: Libm, imageWidth: int, imageHeight: int, verticalFovDegrees: real, aperture: real,
                     focusDistance: real, lookFrom: Vec3, lookAt: Vec3, vup: Vec3)
    requires Sound(m)
    requires imageHeight != 0
    requires Aimed(m, lookFrom, lookAt, vup)
    ensures EdgesSized(New(m, imageWidth, imageHeight, verticalFovDegrees, aperture, focusDistance, lookFrom, lookAt, vup),
                       ViewportWidth(m, imageWidth, imageHeight, verticalFovDegrees),
                       ViewportHeight(m, verticalFovDegrees), focusDistance)
  {
    FrameIsOrthonormal(m, imageWidth, imageHeight, verticalFovDegrees, aperture, focusDistance, lookFrom, lookAt, vup);
    Edges(New(m, imageWidth, imageHeight, verticalFovDegrees, aperture, focusDistance, lookFrom, lookAt, vup),
          ViewportWidth(m, imageWidth, imageHeight, verticalFovDegrees), ViewportHeight(m, verticalFovDegrees), focusDistance);
  }

  /** Edges along a unit frame have the lengths they were scaled to. */
  lemma Edges(c: Camera, w: real, h: real, f: real)
    requires Dot(c.u, c.u) == 1.0 && Dot(c.v, c.v) == 1.0
    requires c.horizontal == MulS(MulS(c.u, w), f) && c.vertical == MulS(MulS(c.v, h), f)
    ensures EdgesSized(c, w, h, f)
  {
    EdgeLength(c.u, w, f);
    EdgeLength(c.v, h, f);
  }

  /** The square of a length. */
  function Square(x: real): real { x * x }

  /** The viewport edges of `c` are `width` and `height` long once scaled
      by `f`. */
  predicate EdgesSized(c: Camera, width: real, height: real, f: real) {
    LengthSquared(c.horizontal) == Square(width * f) && LengthSquared(c.vertical) == Square(height * f)
  }

  /** An edge along a unit vector, scaled twice. */
  lemma EdgeLength(u: Vec3, k: real, f: real)
    requires Dot(u, u) == 1.0
    ensures LengthSquared(MulS(MulS(u, k), f)) == Square(k * f)
  {
    LengthSquaredIsSelfDot(u);
    TwiceScaledLength(u, k, f);
  }

  /** A unit vector scaled by `a` and then by `b` has length `|a b|`. */
  lemma TwiceScaledLength(v: Vec3, a: real, b: real)
    requires LengthSquared(v) == 1.0
    ensures LengthSquared(MulS(MulS(v, a), b)) == (a * b) * (a * b)
  {
    ScaledSquares(v.x, v.y, v.z, a);
    ScaledSquares(v.x * a, v.y * a, v.z * a, b);
    assert (a * a) * (b * b) == (a * b) * (a * b);
  }

  // ----- GetRay -----

  /** The lens offset: the disc draw scaled by the lens radius, laid out in
      the camera's `u`, `v` plane. */
  function LensOffset(c: Camera, disc: Vec3): Vec3 {
    var rd := MulS(disc, c.lensRadius);
    Add(MulS(c.u, rd.x), MulS(c.v, rd.y))
  }

  /** The viewport point `(s, t)`. */
  function ViewportPoint(c: Camera, s: real, t: real): Vec3 {
    Add(Add(c.lowerLeftCorner, MulS(c.horizontal, s)), MulS(c.vertical, t))
  }

  /** The direction `GetRay` passes to `NewRay`, before normalisation: from
      the point on the lens to the viewport point. */
  function RayDirection(c: Camera, s: real, t: real, disc: Vec3): (d: Vec3)
    ensures Add(Add(c.origin, LensOffset(c, disc)), d) == ViewportPoint(c, s, t)
  {
    var d := Sub(Sub(ViewportPoint(c, s, t), c.origin), LensOffset(c, disc));
    SameComponents(Add(Add(c.origin, LensOffset(c, disc)), d), ViewportPoint(c, s, t));
    d
  }

  /** `GetRay`: a ray from the lens point through the viewport point, at the
      drawn time.  `disc` is the `RandomInUnitDisc` draw and `time` the
      `RandomNormalFloat` draw.  A zero direction is left unnormalised (Go
      would divide zero by zero). */
  function GetRay(m: Libm, c: Camera, s: real, t: real, disc: Vec3, time: real): (r: Rays.Ray)
    requires disc.z == 0.0 && LengthSquared(disc) < 1.0
    ensures r.origin == Add(c.origin, LensOffset(c, disc)) && r.time == time
    ensures Length(m, RayDirection(c, s, t, disc)) != 0.0 ==>
              r.direction == MulS(RayDirection(c, s, t, disc), 1.0 / Length(m, RayDirection(c, s, t, disc)))
    ensures Sound(m) && Length(m, RayDirection(c, s, t, disc)) != 0.0 ==> LengthSquared(r.direction) == 1.0
  {
    var d := RayDirection(c, s, t, disc);
    if Length(m, d) != 0.0 then Rays.NewRay(m, Add(c.origin, LensOffset(c, disc)), d, time)
    else Rays.Ray(Add(c.origin, LensOffset(c, disc)), d, Rays.ReciprocalVec(d), time)
  }

  /** Every ray for the viewport point `(s, t)`, whatever the lens draw,
      passes through that point: it is the focus. */
  lemma RaysMeetAtViewport(m: Libm, c: Camera, s: real, t: real, disc: Vec3, time: real)
    requires disc.z == 0.0 && LengthSquared(disc) < 1.0
    requires Length(m, RayDirection(c, s, t, disc)) != 0.0
    ensures var r := GetRay(m, c, s, t, disc, time);
            Rays.At(r, Length(m, RayDirection(c, s, t, disc))) == ViewportPoint(c, s, t)
  {
    var d := RayDirection(c, s, t, disc);
    var l := Length(m, d);
    var r := GetRay(m, c, s, t, disc, time);
    assert MulS(MulS(d, 1.0 / l), l) == d by {
      RescaleX(d.x, l);
      RescaleX(d.y, l);
      RescaleX(d.z, l);
      SameComponents(MulS(MulS(d, 1.0 / l), l), d);
    }
  }

  lemma RescaleX(x: real, l: real)
    requires l != 0.0
    ensures x * (1.0 / l) * l == x
  {}

  /** With no aperture every ray leaves from `lookFrom`: a pinhole camera. */
  lemma PinholeWithoutAperture(m: Libm, imageWidth: int, imageHeight: int, verticalFovDegrees: real,
                               focusDistance: real, lookFrom: Vec3, lookAt: Vec3, vup: Vec3,
                               s: real, t: real, disc: Vec3, time: real)
    requires imageHeight != 0
    requires Aimed(m, lookFrom, lookAt, vup)
    requires disc.z == 0.0 && LengthSquared(disc) < 1.0
    ensures var c := New(m, imageWidth, imageHeight, verticalFovDegrees, 0.0, focusDistance, lookFrom, lookAt, vup);
            GetRay(m, c, s, t, disc, time).origin == lookFrom
  {
    var c := New(m, imageWidth, imageHeight, verticalFovDegrees, 0.0, focusDistance, lookFrom, lookAt, vup);
    assert c.lensRadius == 0.0 && c.origin == lookFrom;
    ZeroLens(c, disc);
  }

  /** A lens of radius zero offsets nothing. */
  lemma ZeroLens(c: Camera, disc: Vec3)
    requires c.lensRadius == 0.0
    ensures Add(c.origin, LensOffset(c, disc)) == c.origin
  {
    assert MulS(disc, c.lensRadius) == ZeroVector;
    SameComponents(LensOffset(c, disc), ZeroVector);
    SameComponents(Add(c.origin, ZeroVector), c.origin);
  }
}
