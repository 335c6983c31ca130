/** The path tracing recursion of the older package (pkg/trace/scene.go:8-37).
    What the world returns for a ray (the nearest hit in `[0.001, +Inf)`,
    its emitted light and its scattering) is an oracle. */
module TraceScene {
  import opened Vectors
  import opened Wrappers
  import TraceVectors

  /** `maxDepth`: the number of bounces followed. */
  const MaxDepth: int := 50

  /** A material's answer at a hit: the attenuation and the scattered ray. */
  datatype Scatter = Scatter(attenuation: Vec3, scatterRay: TraceVectors.Ray)

  /** What a ray meets: the light emitted there and, when the material
      scatters, how. */
  datatype Surface = Surface(emitted: Vec3, scatter: Option<Scatter>)

  /** The scene as `rayColor` sees it: the surface the world reports for a
      ray, if any, and the background colour. */
  datatype Scene = Scene(hit: TraceVectors.Ray -> Option<Surface>, backgroundColor: Vec3)

  /** `rayColor`: black once `depth` reaches `MaxDepth`; otherwise the
      background on a miss, the emitted light at a surface that does not
      scatter, and the emitted light plus the attenuated colour of the
      scattered ray one level deeper at one that does. */
  function RayColor(s: Scene, r: TraceVectors.Ray, depth: int): (c: Vec3)
    ensures depth >= MaxDepth ==> c == ZeroVector
    ensures depth < MaxDepth && s.hit(r).None? ==> c == s.backgroundColor
    decreases MaxDepth - depth
  {
    if depth >= MaxDepth then ZeroVector
    else match s.hit(r)
      case None => s.backgroundColor
      case Some(surface) =>
        match surface.scatter
        case None => surface.emitted
        case Some(sc) => Add(surface.emitted, Mul(sc.attenuation, RayColor(s, sc.scatterRay, depth + 1)))
  }

  /** Every channel of `c` lies in `[0, hi]`. */
  predicate Within(c: Vec3, hi: real) {
    0.0 <= c.x <= hi && 0.0 <= c.y <= hi && 0.0 <= c.z <= hi
  }

  /** A scene whose background and emitted light lie in `[0, light]` and
      whose attenuations lie in `[0, 1]`. */
  ghost predicate Bounded(s: Scene, light: real) {
    && Within(s.backgroundColor, light)
    && forall r :: s.hit(r).Some? ==>
         && Within(s.hit(r).value.emitted, light)
         && (s.hit(r).value.scatter.Some? ==> Within(s.hit(r).value.scatter.value.attenuation, 1.0))
  }

  /** What a bounded scene reports for one ray is bounded. */
  lemma SurfaceBounded(s: Scene, light: real, r: TraceVectors.Ray)
    requires Bounded(s, light) && s.hit(r).Some?
    ensures Within(s.hit(r).value.emitted, light)
    ensures s.hit(r).value.scatter.Some? ==> Within(s.hit(r).value.scatter.value.attenuation, 1.0)
  {}

  /** `n · light`, built up one bounce at a time. */
  function Cap(n: nat, light: real): (c: real)
    ensures 0.0 <= light ==> 0.0 <= c
  {
    if n == 0 then 0.0 else Cap(n - 1, light) + light
  }

  /** `Cap` is the product it stands for. */
  lemma {:induction false} CapIsProduct(n: nat, light: real)
    ensures Cap(n, light) == n as real * light
  {
    if n > 0 {
      CapIsProduct(n - 1, light);
      assert (n - 1) as real * light + light == n as real * light;
    }
  }

  /** In such a scene a ray followed from `depth` gathers at most `light`
      per remaining bounce: every channel lies in `[0, (MaxDepth - depth) ·
      light]`. */
  lemma {:induction false} RayColorBounded(s: Scene, light: real, r: TraceVectors.Ray, depth: int)
    requires Bounded(s, light)
    ensures depth < MaxDepth ==> Within(RayColor(s, r, depth), Cap(MaxDepth - depth, light))
    decreases MaxDepth - depth
  {
    if depth < MaxDepth {
      var deeper := Cap(MaxDepth - (depth + 1), light);
      assert Cap(MaxDepth - depth, light) == deeper + light;
      match s.hit(r)
      case None =>
        WithinLarger(s.backgroundColor, light, deeper);
      case Some(surface) =>
        SurfaceBounded(s, light, r);
        match surface.scatter
        case None =>
          WithinLarger(surface.emitted, light, deeper);
        case Some(sc) =>
          var incoming := RayColor(s, sc.scatterRay, depth + 1);
          if depth + 1 < MaxDepth {
            RayColorBounded(s, light, sc.scatterRay, depth + 1);
          }
          assert RayColor(s, r, depth) == Add(surface.emitted, Mul(sc.attenuation, incoming));
          BounceBounded(surface.emitted, sc.attenuation, incoming, light, deeper);
    }
  }

  /** From the camera (depth 0) every channel lies in `[0, 50 · light]`. */
  lemma RayColorAtMostFifty(s: Scene, light: real, r: TraceVectors.Ray)
    requires Bounded(s, light)
    ensures Within(RayColor(s, r, 0), 50.0 * light)
  {
    RayColorBounded(s, light, r, 0);
    CapIsProduct(MaxDepth, light);
  }

  /** A colour within `light` stays within `cap + light` for any `cap >= 0`. */
  lemma WithinLarger(c: Vec3, light: real, cap: real)
    requires Within(c, light) && 0.0 <= cap
    ensures Within(c, cap + light)
  {}

  /** One bounce: emitted light within `light` plus incoming light within
      `cap`, attenuated by a factor in `[0, 1]`, is within `cap + light`. */
  lemma BounceBounded(emitted: Vec3, attenuation: Vec3, incoming: Vec3, light: real, cap: real)
    requires Within(emitted, light) && Within(attenuation, 1.0) && Within(incoming, cap)
    ensures Within(Add(emitted, Mul(attenuation, incoming)), cap + light)
  {
    ChannelStep(emitted.x, attenuation.x, incoming.x, light, cap);
    ChannelStep(emitted.y, attenuation.y, incoming.y, light, cap);
    ChannelStep(emitted.z, attenuation.z, incoming.z, light, cap);
  }

  lemma ChannelStep(e: real, a: real, incoming: real, light: real, cap: real)
    requires 0.0 <= e <= light && 0.0 <= a <= 1.0 && 0.0 <= incoming <= cap
    ensures 0.0 <= e + a * incoming <= cap + light
  {
    assert a * incoming <= incoming by {
      assert incoming - a * incoming == (1.0 - a) * incoming;
    }
  }

  /** A ray that meets a scattering surface with zero attenuation sees
      exactly the emitted light: nothing deeper contributes. */
  lemma AbsorbedSeesEmission(s: Scene, r: TraceVectors.Ray, depth: int)
    requires depth < MaxDepth && s.hit(r).Some?
    requires s.hit(r).value.scatter.Some? && s.hit(r).value.scatter.value.attenuation == ZeroVector
    ensures RayColor(s, r, depth) == s.hit(r).value.emitted
  {
    var surface := s.hit(r).value;
    var incoming := RayColor(s, surface.scatter.value.scatterRay, depth + 1);
    assert Mul(ZeroVector, incoming) == ZeroVector;
  }
}
