/** The scene graph as the renderer sees it (renderer/renderer.go): a tree of
    hittables whose lights are collected once, when the renderer is built, to
    steer the light-sampling density.  Only what `IsLight` and `findLights`
    look at is kept in each node; geometry, boxes and hits are modelled in the
    modules of the individual hittables. */
module Scenes {
  import Materials
  import Textures
  import Vectors

  /** The hittable kinds of the `hittable` package.  A BVH node has two
      children, each a primitive or another node (hittable/bvh.go:40-59). */
  datatype Hittable =
    | List(children: seq<Hittable>)
    | Bvh(left: Hittable, right: Hittable)
    | Sphere(mat: Materials.Material)
    | Quad(mat: Materials.Material)
    | Triangle(mat: Materials.Material)
    | Translation(object: Hittable)
    | RotationY(object: Hittable)
    | MotionBlur(blurred: Hittable)
    | ConstantMedium(boundary: Hittable)

  /** `IsLight` of each kind.  A BVH node and a fog volume are never lights
      (hittable/bvh.go:114-116, hittable/constantMedium.go:81-83); a rotation
      asks its object (hittable/rotationY.go:108-110), a triangle its material
      (hittable/triangle.go:150-152).  The other shown kinds do not define it;
      the primitives follow the triangle, the wrappers the rotation, and a
      list is not itself a light. */
  predicate IsLight(h: Hittable)
    ensures IsLight(h) <==> var c := Core(h); (c.Sphere? || c.Quad? || c.Triangle?) && Materials.IsLight(c.mat)
  {
    match h
    case List(_) => false
    case Bvh(_, _) => false
    case Sphere(m) => Materials.IsLight(m)
    case Quad(m) => Materials.IsLight(m)
    case Triangle(m) => Materials.IsLight(m)
    case Translation(o) => IsLight(o)
    case RotationY(o) => IsLight(o)
    case MotionBlur(o) => IsLight(o)
    case ConstantMedium(_) => false
  }

  /** The node under any translations, rotations and motion blurs. */
  function Core(h: Hittable): (c: Hittable)
    ensures !(c.Translation? || c.RotationY? || c.MotionBlur?)
  {
    match h
    case Translation(o) => Core(o)
    case RotationY(o) => Core(o)
    case MotionBlur(o) => Core(o)
    case _ => h
  }

  /** `l` is `h` itself, when `h` is not a list, or is reached from a child of
      the list `h` in the same way: the nodes `findLights` visits. */
  ghost predicate ListedIn(h: Hittable, l: Hittable)
    decreases h
  {
    match h
    case List(children) => exists c :: c in children && ListedIn(c, l)
    case _ => h == l
  }

  /** `l` is reached from `h` through lists and BVH nodes: the nodes the
      corrected collection visits. */
  ghost predicate ReachedIn(h: Hittable, l: Hittable)
    decreases h
  {
    match h
    case List(children) => exists c :: c in children && ReachedIn(c, l)
    case Bvh(left, right) => ReachedIn(left, l) || ReachedIn(right, l)
    case _ => h == l
  }

  /** `findLights` as written: descends into lists only, and adds any other
      node, in scan order, exactly when that node says it is a light. */
  function FindLights(h: Hittable): (lights: seq<Hittable>)
    ensures forall l :: l in lights <==> ListedIn(h, l) && IsLight(l)
    decreases h
  {
    match h
    case List(children) => FindLightsIn(children)
    case _ => if IsLight(h) then [h] else []
  }

  function FindLightsIn(children: seq<Hittable>): (lights: seq<Hittable>)
    ensures forall l :: l in lights <==> (exists c :: c in children && ListedIn(c, l)) && IsLight(l)
    decreases children
  {
    if |children| == 0 then []
    else
      assert forall c :: c in children <==> c == children[0] || c in children[1..];
      FindLights(children[0]) + FindLightsIn(children[1..])
  }

  /** The lights `findLights` can reach: a light node reached from the root
      through lists only. */
  ghost predicate HasListedLight(h: Hittable)
    decreases h
  {
    match h
    case List(children) => exists c :: c in children && HasListedLight(c)
    case _ => IsLight(h)
  }

  /** Every node `findLights` collects says it is a light. */
  lemma {:induction false} FindLightsAreLights(h: Hittable)
    ensures forall l :: l in FindLights(h) ==> IsLight(l)
    decreases h
  {
    match h
    case List(children) => FindLightsInAreLights(children);
    case _ =>
  }

  lemma {:induction false} FindLightsInAreLights(children: seq<Hittable>)
    ensures forall l :: l in FindLightsIn(children) ==> IsLight(l)
    decreases children
  {
    if |children| > 0 {
      FindLightsAreLights(children[0]);
      FindLightsInAreLights(children[1..]);
    }
  }

  /** `findLights` finds nothing exactly when no light is reachable through
      lists alone. */
  lemma {:induction false} FindLightsEmpty(h: Hittable)
    ensures |FindLights(h)| == 0 <==> !HasListedLight(h)
    decreases h
  {
    match h
    case List(children) => FindLightsInEmpty(children);
    case _ =>
  }

  lemma {:induction false} FindLightsInEmpty(children: seq<Hittable>)
    ensures |FindLightsIn(children)| == 0 <==> !(exists c :: c in children && HasListedLight(c))
    decreases children
  {
    if |children| > 0 {
      FindLightsEmpty(children[0]);
      FindLightsInEmpty(children[1..]);
      assert forall c :: c in children <==> c == children[0] || c in children[1..];
    }
  }

  /** A light anywhere in the tree: reached through lists and BVH nodes.
      Lights inside a wrapper or a fog volume are the wrapper's business: a
      wrapper around a light is itself a light. */
  ghost predicate HasLight(h: Hittable)
    decreases h
  {
    match h
    case List(children) => exists c :: c in children && HasLight(c)
    case Bvh(l, r) => HasLight(l) || HasLight(r)
    case _ => IsLight(h)
  }

  /** The corrected collection: descends into lists and BVH nodes. */
  function FindAllLights(h: Hittable): (lights: seq<Hittable>)
    ensures forall l :: l in lights <==> ReachedIn(h, l) && IsLight(l)
    decreases h
  {
    match h
    case List(children) => FindAllLightsIn(children)
    case Bvh(l, r) => FindAllLights(l) + FindAllLights(r)
    case _ => if IsLight(h) then [h] else []
  }

  function FindAllLightsIn(children: seq<Hittable>): (lights: seq<Hittable>)
    ensures forall l :: l in lights <==> (exists c :: c in children && ReachedIn(c, l)) && IsLight(l)
    decreases children
  {
    if |children| == 0 then []
    else
      assert forall c :: c in children <==> c == children[0] || c in children[1..];
      FindAllLights(children[0]) + FindAllLightsIn(children[1..])
  }

  /** The corrected collection finds nothing exactly when the tree holds no
      light, and everything it collects is a light. */
  lemma {:induction false} FindAllLightsEmpty(h: Hittable)
    ensures |FindAllLights(h)| == 0 <==> !HasLight(h)
    ensures forall l :: l in FindAllLights(h) ==> IsLight(l)
    decreases h
  {
    match h
    case List(children) => FindAllLightsInEmpty(children);
    case Bvh(l, r) =>
      FindAllLightsEmpty(l);
      FindAllLightsEmpty(r);
    case _ =>
  }

  lemma {:induction false} FindAllLightsInEmpty(children: seq<Hittable>)
    ensures |FindAllLightsIn(children)| == 0 <==> !(exists c :: c in children && HasLight(c))
    ensures forall l :: l in FindAllLightsIn(children) ==> IsLight(l)
    decreases children
  {
    if |children| > 0 {
      FindAllLightsEmpty(children[0]);
      FindAllLightsInEmpty(children[1..]);
      assert forall c :: c in children <==> c == children[0] || c in children[1..];
    }
  }

  /** Without BVH nodes under the lists, the two collections agree. */
  ghost predicate NoBvhUnderLists(h: Hittable)
    decreases h
  {
    match h
    case List(children) => forall c :: c in children ==> NoBvhUnderLists(c)
    case Bvh(_, _) => false
    case _ => true
  }

  lemma {:induction false} CollectionsAgreeWithoutBvh(h: Hittable)
    requires NoBvhUnderLists(h)
    ensures FindLights(h) == FindAllLights(h)
    decreases h
  {
    match h
    case List(children) => CollectionsAgreeInWithoutBvh(children);
    case _ =>
  }

  lemma {:induction false} CollectionsAgreeInWithoutBvh(children: seq<Hittable>)
    requires forall c :: c in children ==> NoBvhUnderLists(c)
    ensures FindLightsIn(children) == FindAllLightsIn(children)
    decreases children
  {
    if |children| > 0 {
      assert children[0] in children;
      CollectionsAgreeWithoutBvh(children[0]);
      CollectionsAgreeInWithoutBvh(children[1..]);
    }
  }

  /** What `findLights` collects, the corrected collection collects too. */
  lemma {:induction false} FindLightsWithinAll(h: Hittable)
    ensures forall l :: l in FindLights(h) ==> l in FindAllLights(h)
    decreases h
  {
    match h
    case List(children) => FindLightsInWithinAll(children);
    case _ =>
  }

  lemma {:induction false} FindLightsInWithinAll(children: seq<Hittable>)
    ensures forall l :: l in FindLightsIn(children) ==> l in FindAllLightsIn(children)
    decreases children
  {
    if |children| > 0 {
      FindLightsWithinAll(children[0]);
      FindLightsInWithinAll(children[1..]);
    }
  }

  /** A diffuse light, for the example scenes. */
  const Lamp: Materials.Material := Materials.DiffuseLight(Textures.SolidColor(Vectors.Vec3(4.0, 4.0, 4.0)))

  /** A list holding a BVH over two lamps: the scene has lights, but
      `findLights` as written collects none, and the corrected collection
      collects both. */
  lemma LightInBvhIsMissed()
    ensures var scene := List([Bvh(Quad(Lamp), Sphere(Lamp))]);
            HasLight(scene) && FindLights(scene) == [] && |FindAllLights(scene)| == 2
  {
    var scene := List([Bvh(Quad(Lamp), Sphere(Lamp))]);
    var tree := Bvh(Quad(Lamp), Sphere(Lamp));
    assert tree in scene.children;
    assert scene.children[1..] == [];
    assert FindLights(tree) == [];
    assert FindLightsIn(scene.children) == FindLights(tree) + FindLightsIn([]);
    assert FindAllLights(tree) == [Quad(Lamp)] + [Sphere(Lamp)];
    assert FindAllLightsIn(scene.children) == FindAllLights(tree) + FindAllLightsIn([]);
  }

  /** The renderer keeps the scene and the lights found in it. */
  datatype Renderer = Renderer(world: Hittable, lights: seq<Hittable>)

  datatype NewRendererResult = Built(renderer: Renderer) | NoLight(message: string)

  const NoLightMessage: string := "Scene should have at least one light"

  /** `NewRenderer` as written: fails, with its fixed message, exactly when
      `findLights` collects nothing, so a scene whose only lights sit in a
      BVH is rejected. */
  function NewRendererAsWritten(world: Hittable): (r: NewRendererResult)
    ensures r.NoLight? <==> !HasListedLight(world)
    ensures r.NoLight? ==> r.message == NoLightMessage
    ensures r.Built? ==> r.renderer.world == world && |r.renderer.lights| > 0
    ensures r.Built? ==> forall l :: l in r.renderer.lights ==> IsLight(l)
  {
    FindLightsEmpty(world);
    FindLightsAreLights(world);
    var lights := FindLights(world);
    if |lights| == 0 then NoLight(NoLightMessage) else Built(Renderer(world, lights))
  }

  /** `NewRenderer` with the corrected collection: fails exactly when the
      scene holds no light at all. */
  function NewRenderer(world: Hittable): (r: NewRendererResult)
    ensures r.NoLight? <==> !HasLight(world)
    ensures r.NoLight? ==> r.message == NoLightMessage
    ensures r.Built? ==> r.renderer.world == world && |r.renderer.lights| > 0
    ensures r.Built? ==> forall l :: l in r.renderer.lights ==> IsLight(l)
  {
    FindAllLightsEmpty(world);
    var lights := FindAllLights(world);
    if |lights| == 0 then NoLight(NoLightMessage) else Built(Renderer(world, lights))
  }

  /** The example scene is rejected as written and accepted when corrected. */
  lemma BvhSceneRejected()
    ensures NewRendererAsWritten(List([Bvh(Quad(Lamp), Sphere(Lamp))])).NoLight?
    ensures NewRenderer(List([Bvh(Quad(Lamp), Sphere(Lamp))])).Built?
  {
    LightInBvhIsMissed();
  }
}
