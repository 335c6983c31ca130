# solstrale, modelled in Dafny

solstrale is a path tracer written in Go. A scene of spheres, triangles,
quads and boxes carries surface materials. Some primitives sit inside
transform wrappers (translation, rotation about y, motion blur) or fog
volumes, and a bounding volume hierarchy (BVH) groups them. A camera sends
rays through every pixel. Each ray follows bounces until it escapes, is
absorbed, or reaches the depth limit. Every pass adds one sample per pixel
and reports a progressively less noisy image. A bloom filter can
post-process the result. A browser front end splits the image into row
bands, one per web worker. The repository also keeps an older renderer,
`pkg/trace`, which has its own vectors, BVH, textures and a first
sphere-only tracer.

This project models the numerical and combinatorial core of both renderers
as pure Dafny functions over exact reals, and proves properties of that
model:

- interval and bounding-box algebra, including the conservative slab test;
- the closest-hit fold over lists and over the BVH, and their agreement;
- the hit predicates of the primitives, wrappers and fog;
- material scattering and emission, the probability densities, and the
  textures;
- colour quantisation and the pixel indexing of images;
- the camera's viewport geometry;
- the shaders' recursion, light collection and the "no lights" error;
- the per-pass bookkeeping of the renderers;
- the bloom stencil;
- the web worker row partition and progress.

Modelling choices:

- Go's `float64` is a Dafny `real`. Where the source relies on infinities
  or NaN (the empty and universal intervals, the `0/0` of a degenerate
  colour), `ExtReal` adds them explicitly. A comparison with NaN is false,
  as in Go.
- Square roots, trigonometry, logarithms and π are fields of a `Libm`
  record of function values. A proof that needs them requires `Sound`,
  which states only the facts it uses.
- Every random draw is an explicit parameter: a 32-bit word, a real in
  `[0, 1]`, or a vector with the property the sampling helper promises.
- What a world answers for a ray (the nearest hit, its material's scatter,
  the density of a sampled direction) is a record of callbacks wherever a
  shader only consumes it.
- Concurrency, channels and timers are left out. The renderers are modelled
  as the sequence of reports their pass loops send.

## Model

| member | source | states |
|---|---|---|
| Util.DegreesToRadians | internal/util/util.go:16-18 | 0 degrees give 0 radians and 180 degrees give pi |
| Util.DegreesToRadiansLinear | internal/util/util.go:16-18 | the conversion is additive, commutes with scaling and is odd: `-d` gives the negated angle |
| Util.DegreesToRadiansSamples | internal/util/util.go:16-18 | 0, 180, 360 and -180 degrees give 0, pi, 2 pi and -pi |
| Util.IsExecOwner | internal/util/util.go:21-23 | true exactly when bit 6 (octal 0100, owner execute) of the mode is set |
| Util.IsExecOwnerIgnoresOtherBits | internal/util/util.go:21-23 | setting or clearing any bits other than owner-execute leaves the answer unchanged |
| Intervals.CombineIntervals | internal/util/interval.go:20-25 | the result's bounds enclose both arguments, and each bound is one of the arguments' bounds |
| Intervals.Clamp | internal/util/interval.go:33-41 | a contained value is returned unchanged; for `Min <= Max` the result lies in the interval; a value below `Min` gives `Min` |
| Intervals.Size | internal/util/interval.go:44-46 | `Max - Min` on finite ends, non-negative exactly when `Min <= Max`; `-Inf` for the empty and `+Inf` for the universe interval |
| Intervals.Add | internal/util/interval.go:60-62 | the shifted interval has the same size |
| Intervals.EmptyContainsNothing | internal/util/interval.go:7 | the empty interval contains no value |
| Intervals.UniverseContainsEverything | internal/util/interval.go:9 | the universe interval contains every value |
| Intervals.CombineWithEmpty | internal/util/interval.go:7-25 | combining with the empty interval, on either side, is the identity |
| Intervals.CombineContainsGap | internal/util/interval.go:18-25 | every value of either interval, and of a gap between them, is in the combination |
| Intervals.CombineIsTight | internal/util/interval.go:20-25 | a value in the combination is above one of the minima and below one of the maxima |
| Intervals.ContainsEnds | internal/util/interval.go:28-30 | membership in `[lo, hi]` is `lo <= x <= hi`, both ends included |
| Intervals.ClampIdempotent | internal/util/interval.go:33-41 | clamping a clamped value changes nothing |
| Intervals.ClampFinite | internal/util/interval.go:33-41 | on a finite interval the result lies in it, and equals the value exactly when the value was inside |
| Intervals.ExpandGrowsSize | internal/util/interval.go:50-56 | `Expand(d)` grows the size by exactly `d` and keeps the midpoint |
| Intervals.AddKeepsSize | internal/util/interval.go:60-62 | `Add(d)` keeps the size and shifts both ends by `d` |
| Intervals.AddShifts | internal/util/interval.go:60-62 | `x` is in the interval exactly when `x + d` is in the shifted one |
| Intervals.AddZero | internal/util/interval.go:60-62 | a shift by zero is the identity |
| Intervals.AddTwice | internal/util/interval.go:60-62 | two shifts compose into one by the sum |
| Vectors.LengthSquared | geo/vec3.go:112-114 | never negative, and zero exactly for the zero vector |
| Vectors.LengthPositive | geo/vec3.go:116-118 | with a sound square root only the zero vector has length zero |
| Vectors.Unit | geo/vec3.go:120-122 | the result has squared length one and is `v` scaled by the reciprocal of its length |
| Vectors.RandomVec3 | geo/vec3.go:29-35 | each component lies in `[min, max]` |
| Vectors.RandomInUnitSphere | geo/vec3.go:37-49 | an accepted point has squared length below one; one is accepted exactly when some draw lies inside, and it is the first such draw |
| Vectors.RandomUnitVector | geo/vec3.go:51-53 | the result has squared length one |
| Vectors.RandomInHemisphere | geo/vec3.go:55-62 | the result lies on the normal's side (`dot >= 0`), keeps the draw's length, and is the draw or its negation |
| Vectors.HemisphereOrthogonalDraw | geo/vec3.go:57-61 | a draw orthogonal to the normal yields a dot product of exactly 0, so a strict `> 0` expectation fails |
| Vectors.RandomInUnitDisc | geo/vec3.go:64-74 | an accepted point has `z = 0` and squared length below one and is one of the draws; no point means every draw lay outside |
| Vectors.AddSubInverse | geo/vec3.go:76-86 | subtraction undoes addition, subtraction adds the negation, and negation is an involution |
| Vectors.MulSDivSInverse | geo/vec3.go:92-98 | scaling by `t` and dividing by a nonzero `t` undo each other |
| Vectors.DotSymmetricLinear | geo/vec3.go:100-102 | the dot product is symmetric and linear in its first argument |
| Vectors.DotSamples | geo/vec3.go:100-102 | `(1,1,1).(1,1,1) = 3`, `(0,0,1).0 = 0`, `(1,2,3).(-2,-3,-4) = -20` |
| Vectors.CrossOrthogonal | geo/vec3.go:104-110 | the cross product is orthogonal to both operands and anti-commutes |
| Vectors.CrossSample | geo/vec3.go:104-110 | `(2,3,4) x (5,6,7) = (-3,6,-3)` |
| Vectors.LengthSquaredIsSelfDot | geo/vec3.go:112-114 | the squared length is the self dot product and 0 for the zero vector |
| Vectors.NearZeroBounds | geo/vec3.go:124-126 | the zero vector is near zero; a component of magnitude at least `1e-8` rules it out |
| Vectors.ReflectSamples | geo/vec3.go:128-130 | `(3,-4,0)` reflected in normal `(0,1,0)` is `(3,4,0)` |
| Vectors.ReflectSamplesAcross | geo/vec3.go:128-130 | `(3,-4,0)` reflected in normal `(1,0,0)` is `(-3,-4,0)` |
| Vectors.ReflectInvolution | geo/vec3.go:128-130 | for a unit normal, reflection negates the normal component, is an involution and keeps the length |
| Vectors.CauchySchwarzUnit | geo/vec3.go:128-137 | for unit vectors the cosine lies in `[-1, 1]` and the residual after removing it has squared length `1 - cos^2` |
| Vectors.RefractUnitRatioIsIdentity | geo/vec3.go:132-137 | with ratio 1, a unit direction meeting a unit normal from the front comes out unchanged |
| Vectors.ReciprocalBasis | geo/vec3.go:100-110 | any vector, scaled by the volume `a . (b x c)`, is the combination of `a`, `b`, `c` with coefficients read by dot products with the reciprocal cross products |
| Vectors.TripleCyclic | geo/vec3.go:100-110 | the scalar triple product is invariant under cyclic rotation |
| Vectors.DotCombination | geo/vec3.go:100-102 | the dot product is linear over a two-term combination |
| Vectors.Coefficient | geo/vec3.go:100-110 | the coefficient of `p` in a combination of `p`, `q`, `s` is read off by the dot product with `q x s` |
| Vectors.MulSWithin | geo/vec3.go:92-94 | scaling by a fraction in `[0, 1]` keeps every coordinate between 0 and the original |
| Rays.Reciprocal | geo/ray.go:14 | `1 / a` for a nonzero component, `+Inf` for a zero one |
| Rays.NewRay | geo/ray.go:12-22 | origin and time are kept; the direction is the input scaled to unit length; the inverted direction is its componentwise reciprocal |
| Rays.AtAffine | geo/ray.go:25-27 | `At(0)` is the origin, `At(a + b) = At(a) + b * direction`, and `At(a) - origin = a * direction` |
| Rays.AtSamples | geo/ray.go:25-27 | for origin `(1,2,3)` and direction `(4,5,6)`: `At(1) = (5,7,9)`, `At(-1) = (-3,-3,-3)`, `At(3) = (13,17,21)` |
| Onbs.BuildOnbFromVec3 | geo/onb.go:12-29 | the basis is orthonormal and `W` is the normalised input |
| Onbs.BuildOnbOrthonormal | geo/onb.go:21-28 | `u = w x v`, `v` the normalised `w x a`, `w` unit: the three are orthonormal |
| Onbs.HelperAxisNotParallel | geo/onb.go:16-21 | the helper axis is never parallel to a unit `w`, so `w x a` is nonzero |
| Onbs.Lagrange | geo/onb.go:21 | Lagrange's identity `|a x b|^2 = |a|^2 |b|^2 - (a . b)^2` |
| Onbs.LocalCoordinates | geo/onb.go:31-33 | in an orthonormal basis the dot products with `U`, `V`, `W` give back the local coordinates |
| Onbs.LocalAxes | geo/onb.go:31-33 | the unit axes map to `U`, `V` and `W` |
| Random.RandomNormalFloat | random/random.go:32-35 | the draw lies in `[0, 1]`; it is 1 exactly for the largest word and 0 exactly for word 0 |
| Random.RandomFloat | random/random.go:37-40 | for `min <= max` the draw lies in `[min, max]`; word 0 gives `min` and the largest word gives `max` |
| Random.RandomNormalFloatReachesOne | random/random.go:32-35 | the largest word gives exactly 1, and `RandomFloat(-2, 2)` then gives exactly 2, against the documented `< 1` and `< max` |
| Random.RandomNormalFloatHalfOpen | random/random.go:32-35 | the corrected draw lies in `[0, 1)` and is 0 exactly for word 0 |
| Random.RandomFloatHalfOpen | random/random.go:37-40 | built on the corrected draw, the result lies in `[min, max)` and word 0 gives `min` |
| Images.Truncate | internal/image/rgbaColor.go:21-23 | Go's float-to-int conversion: the floor for non-negative values, truncation toward zero, magnitude within one below the value's |
| Images.ClampIntensity | internal/image/rgbaColor.go:42-44 | the result lies in `[0, 0.999]`, equals the value exactly when it is already there, and is the nearer end otherwise |
| Images.GammaChannel | internal/image/rgbaColor.go:37-44 | every channel ends in `[0, 0.999]` |
| Images.ToFloat | internal/image/rgbaColor.go:30-45 | for a non-zero sample count, every channel of the result lies in `[0, 0.999]`; a negative accumulated channel, where Go's square root gives NaN, is unspecified here (see the `Images.GammaChannel` line under Left out) |
| Images.ChannelByte | internal/image/rgbaColor.go:21-23 | `byte(256 c)` for `c` in `[0, 0.999]` fits in a byte and is the floor of `256 c` |
| Images.ToRgba | internal/image/rgbaColor.go:17-26 | alpha is 255 and each channel byte is the floor of 256 times the `ToFloat` channel |
| Images.ToRgbaZero | internal/image/rgbaColor.go:17-45 | black maps to `(0, 0, 0, 255)` |
| Images.GammaChannelExact | internal/image/rgbaColor.go:37-44 | below the clamp the channel is exactly `sqrt(c / samples)` |
| Images.ChannelMonotone | internal/image/rgbaColor.go:17-45 | more accumulated light never gives a smaller gamma value or byte |
| Images.ToRgbaMonotone | internal/image/rgbaColor.go:17-45 | `ToRgba` is monotone in each accumulated channel |
| Images.ToRgbaSamples | internal/image/rgbaColor.go:17-45 | `(0, 0.3, 1)` becomes bytes `(0, 0x8c, 0xff)` for one sample and `(0, 0x63, 0xb5)` for two |
| Images.RgbToVec3 | internal/image/rgbaColor.go:48-54 | 16-bit channels land in `[0, 1]` |
| Images.RgbToVec3OfWidenedBytes | internal/image/rgbaColor.go:48-54 | a byte widened to 16 bits, as `color.RGBA` reports it, comes back as exactly `b / 255` |
| Images.RgbToVec3Samples | internal/image/rgbaColor.go:48-54 | `(0, 25600, 65535)` maps to `(0, 100/255, 1)`, as tests/rgbaColor_test.go:13 expects, while the 8-bit reading `(0, 100, 255)` maps to black. The 16-bit reading is the intended one: the only caller, material/texture.go:82-83, passes the 16-bit channels of `color.Color.RGBA()`. internal/image/rgbaColor_test.go:12 expects the 8-bit reading, which the code does not give; that stale test, not the function, is out of line |
| Images.Rect | internal/image/renderImage.go:23-25 | the rectangle is well formed and its corners are the given coordinates |
| Images.Bounds | internal/image/renderImage.go:23-25 | the rectangle from `(0, 0)` to `(width, height)` |
| Images.At | internal/image/renderImage.go:28-30 | a pixel is returned exactly when slot `y * width + x` is inside the data, and it is one of the stored pixels |
| Images.RowMajorInRange | internal/image/renderImage.go:29 | in-bounds pixels of a full image have slots inside it |
| Images.RowMajorInjective | internal/image/renderImage.go:29 | distinct in-bounds pixels have distinct slots |
| Images.RowMajorOnto | internal/image/renderImage.go:29 | every slot of a full image belongs to an in-bounds pixel |
| Images.AtInBounds | internal/image/renderImage.go:28-30 | on an image of `width * height` pixels every in-bounds lookup returns the pixel stored at its slot |
| Images.RenderImageSamples | internal/image/renderImage.go:23-30 | a 1x2 image has bounds `(0,0)-(1,2)`; on a 2x1 image `At(1, 0)` is the second pixel and `At(0, 1)` fails |
| Aabbs.GoMin | hittable/aabb.go:98-103 | returns one of its arguments: the extended minimum without NaN, the second argument when the first is NaN |
| Aabbs.GoMax | hittable/aabb.go:105-110 | returns one of its arguments: the extended maximum without NaN, the second argument when the first is NaN |
| Aabbs.Span | hittable/aabb.go:15-17 | an interval with `min <= max` containing both coordinates, whose ends are the two coordinates |
| Aabbs.CreateAabbFromPoints | hittable/aabb.go:13-19 | the box is non-inverted on every axis and contains both corners |
| Aabbs.CreateAabbFromPointsSymmetric | hittable/aabb.go:13-19 | the order of the two corners does not matter |
| Aabbs.CreateAabbFromPointsSmallest | hittable/aabb.go:13-19 | every box holding both corners encloses the spanned box |
| Aabbs.CombineAabbs | hittable/aabb.go:21-27 | the result encloses both boxes and contains every point of either |
| Aabbs.CombineAabbsSmallest | hittable/aabb.go:21-27 | any box enclosing both arguments encloses their combination; the empty box is the identity on either side |
| Aabbs.StrictlyInsideEnclosing | hittable/aabb.go:21-27 | a point strictly inside a box is strictly inside every enclosing box |
| Aabbs.CombineAabbsSelf | hittable/aabb.go:21-27 | combining a box with itself gives it back |
| Aabbs.AddOffset | hittable/aabb.go:29-35 | `p` is in the box exactly when `p + offset` is in the shifted box, and every axis keeps its size |
| Aabbs.PadAxis | hittable/aabb.go:38-44 | an axis of size at least `0.0001` is kept; a finite non-inverted axis ends at least that thick and encloses the original |
| Aabbs.PadIfNeeded | hittable/aabb.go:37-59 | every finite non-inverted axis ends at least `0.0001` thick and encloses the original; axes already that thick are unchanged |
| Aabbs.PadIfNeededIdempotent | hittable/aabb.go:37-59 | padding a finite non-inverted box twice is padding it once |
| Aabbs.PadIfNeededKeepsPoint | hittable/aabb.go:37-59 | padding keeps every point the box contained |
| Aabbs.Narrow | hittable/aabb.go:63-69 | one axis: the window after narrowing starts no earlier and ends no later than the caller's |
| Aabbs.Hit | hittable/aabb.go:61-96 | true exactly when each axis, narrowed against the caller's interval on its own, leaves an open window |
| Aabbs.CrossingCompare | hittable/aabb.go:63-64 | comparing a slab crossing with `t` is comparing the bound with the coordinate at `t`, the direction's sign deciding the orientation |
| Aabbs.NarrowKeeps | hittable/aabb.go:63-71 | a parameter strictly inside the slab within a non-degenerate window stays within a non-degenerate narrowed window, for every direction component: a zero component with the origin strictly inside the slab crosses at `-Inf` and `+Inf` and leaves the window as it was |
| Aabbs.HitConservative | hittable/aabb.go:61-96 | for every ray direction, axis-parallel ones included, a parameter of a non-degenerate `rayLength` that puts the ray strictly inside the box makes `hit` true |
| Aabbs.NarrowSound | hittable/aabb.go:63-71 | a parameter in the narrowed window was in the caller's window and puts the coordinate inside the slab |
| Aabbs.AxisSound | hittable/aabb.go:63-73 | an open axis window holds a parameter strictly inside `rayLength` whose coordinate lies in the slab |
| Aabbs.HitAxisSound | hittable/aabb.go:61-96 | a true `hit` guarantees, for each axis separately, a parameter strictly inside `rayLength` whose coordinate lies in that slab |
| Aabbs.HitIsPerAxis | hittable/aabb.go:63-96 | a concrete ray passes the x and y slabs at disjoint parameters and never enters the box, yet `hit` is true |
| Aabbs.FaceHitRejected | hittable/aabb.go:61-110 | a ray touching a face of the box with a zero direction component is rejected: the point at `t = 5` lies on the face `x = -1` of `[-1, 1]³`, yet the crossings `0/0` (NaN) and `2/0` (`+Inf`) leave the window `[+Inf, +Inf]` and `hit` is false |
| HittableLists.NewHittableList | hittable/hittableList.go:16-21 | no elements, and the empty interval on all three axes |
| HittableLists.Add | hittable/hittableList.go:27-30 | the element is appended; the new box encloses the old box and the element's box, so it keeps covering every element |
| HittableLists.FromSeqCovers | hittable/hittableList.go:27-30 | adding items one by one keeps them in order and the box covers each of them |
| HittableLists.FromSeqSmallest | hittable/hittableList.go:27-30 | the box of a list built by adding is enclosed by any box enclosing every item's box |
| HittableLists.ClearAsWritten | hittable/hittableList.go:23-25 | `Clear` as written returns the list and box unchanged |
| HittableLists.ClearAsWrittenKeepsElements | hittable/hittableList.go:23-25 | a one-element list still has its element after `Clear` |
| HittableLists.Clear | hittable/hittableList.go:16-25 | the intended clear leaves no elements and the empty box |
| HittableLists.ClearThenAdd | hittable/hittableList.go:16-30 | after the intended clear a list holds exactly the element added next, with that element's box |
| HittableLists.Hit | hittable/hittableList.go:32-49 | no record exactly when no element answers the caller's interval |
| HittableLists.ScanFromElement | hittable/hittableList.go:36-46 | every record the scan returns is its starting record or an element's answer to a query with the caller's lower bound |
| HittableLists.HitFromElement | hittable/hittableList.go:32-49 | a returned record was produced by one of the elements, queried with the caller's `Min` |
| HittableLists.Clip | hittable/hittableList.go:36-44 | a nearest hit survives an upper bound exactly when it is not beyond it |
| HittableLists.ScanNearest | hittable/hittableList.go:35-46 | the loop invariant: the result is within the current bound, comes from the start or an element, and is no farther than any element's hit |
| HittableLists.ListHitNearest | hittable/hittableList.go:32-49 | when elements answer with their nearest hit, `Hit` returns the nearest hit among them, inside `rayLength` |
| HittableLists.NearestUnique | hittable/hittableList.go:32-49 | two nearest hits over the same elements both miss or agree on the distance |
| Bvhs.BoxEnclosesLeaves | hittable/bvh.go:49-56 | the box of a well-boxed tree encloses the box of every primitive below it |
| Bvhs.Narrowed | hittable/bvh.go:97-100 | the right child's interval keeps the caller's `Min` and is the caller's interval when the left child misses |
| Bvhs.BvhHit | hittable/bvh.go:92-108 | a node whose box the ray misses returns no record |
| Bvhs.NodeCombine | hittable/bvh.go:97-107 | the left result up to `hi` and the right result up to the left hit combine, right winning, into a nearest hit over both children |
| Bvhs.LeafHitPassesBox | hittable/bvh.go:93 | for every ray, axis-parallel ones included, a primitive hit strictly inside its box passes the slab test of every enclosing node box |
| Bvhs.BoxMissMeansNoHit | hittable/bvh.go:93-95 | when every primitive hit lies strictly inside its own box, a node box the ray misses holds no primitive hit in the interval |
| Bvhs.BvhHitNearest | hittable/bvh.go:92-108 | when every primitive hit lies strictly inside its own box, the traversal returns, by induction over the tree, a nearest hit among its primitives |
| Bvhs.BvhNearestIn | hittable/bvh.go:92-108 | when every primitive hit lies strictly inside its own box, the hierarchy returns a nearest hit among its primitives over a non-degenerate interval |
| Bvhs.BvhAgreesWithList | hittable/bvh.go:92-108 | when every primitive hit lies strictly inside its own box, a hierarchy and a list of the same primitives both miss, or both hit at the same distance, for every ray direction, axis-parallel ones included. The premise is needed: a hit on a box face can be lost, for example the tangent hit at `t = 5` of the ray from `(-1, -5, 0)` along `(0, 1, 0)` on the unit sphere, whose unpadded box `[-1, 1]³` the slab test rejects (`Aabbs.FaceHitRejected`) |
| Bvhs.Insert | hittable/bvh.go:88-90 | inserting into a sorted sequence keeps it sorted and adds exactly that element |
| Bvhs.SortByKey | hittable/bvh.go:88-90 | the result is sorted by the axis key and is a permutation of the input |
| Bvhs.KeyBounds | hittable/bvh.go:78-86 | the running minimum and maximum bound every key and are keys of the sequence |
| Bvhs.SpreadNonNegative | hittable/bvh.go:78-86 | the spread of a non-empty range is not negative, and NaN only when all keys are the same infinity |
| Bvhs.BoundingBoxSpread | hittable/bvh.go:78-86 | the loop computes the largest minus the smallest box `Min` on the axis |
| Bvhs.ChooseAxis | hittable/bvh.go:69-75 | the chosen axis is 0, 1 or 2 |
| Bvhs.ChooseAxisWidest | hittable/bvh.go:69-75 | without NaN the chosen axis has the widest spread, and ties go to the earlier axis |
| Bvhs.SortByMostSpreadAxis | hittable/bvh.go:62-76 | only `[start, end)` is permuted, and it ends sorted along the axis chosen from the three spreads |
| Bvhs.CreateBvh | hittable/bvh.go:33-60 | on a non-empty range: only the range is permuted; the tree's leaves are exactly the range's elements; every node's box combines its children's |
| Bvhs.SplitRange | hittable/bvh.go:52-55 | sorting the range and rebuilding both halves permutes only the range, and its elements are those of the two halves |
| Bvhs.NewBoundingVolumeHierarchy | hittable/bvh.go:24-31 | no tree exactly for an empty list (where the source panics); otherwise a well-boxed tree over exactly the list's elements |
| Bvhs.WholeRangeMembers | hittable/bvh.go:30 | a tree over the whole reordered list holds exactly the list's elements |
| Spheres.NewSphere | hittable/sphere.go:19-34 | the sphere keeps its centre, radius and material, and its box is not inverted |
| Spheres.BoxEnclosesSphere | hittable/sphere.go:25-26 | the box built from `center -+ radius` encloses every point inside or on the sphere |
| Spheres.OnSphereIffRoot | hittable/sphere.go:38-41 | the point at distance `t` is on the sphere exactly when `t` solves the quadratic with coefficients `a`, `halfB`, `c` |
| Spheres.Roots | hittable/sphere.go:43-51 | with `a > 0` and a non-negative discriminant, the solutions are exactly the near and the far root, near first |
| Spheres.RootsSolve | hittable/sphere.go:47-51 | both roots solve the quadratic |
| Spheres.NoRoots | hittable/sphere.go:43-46 | a negative discriminant leaves no solution, so the early miss loses nothing |
| Spheres.SphereUv | hittable/sphere.go:79-85 | for a height in `[-1, 1]` both texture coordinates lie in `[0, 1]` |
| Spheres.Record | hittable/sphere.go:57-73 | the record holds the point at `root`, the root and the material; its normal faces against the ray; `FrontFace` holds exactly when the outward normal already did |
| Spheres.Hit | hittable/sphere.go:36-77 | a hit lies in the interval, at the point its distance gives, with the sphere's material and a normal facing against the ray |
| Spheres.PickRoot | hittable/sphere.go:49-55 | the answer is the near root or, when that is out of range, the far root, and only one the interval contains |
| Spheres.HitOnSurface | hittable/sphere.go:36-77 | every hit point is on the sphere's surface |
| Spheres.HitIsNearest | hittable/sphere.go:36-77 | for a non-zero direction, every surface point within the interval is found, with a hit no farther along the ray |
| Spheres.ZeroDirectionMisses | hittable/sphere.go:39-53 | a zero direction makes both roots NaN, so the ray misses |
| Spheres.OutwardIsUnit | hittable/sphere.go:58 | at a surface point, the offset divided by the radius has length one |
| Spheres.RecordNormalAndUv | hittable/sphere.go:57-73 | a record at a surface point carries a unit normal and texture coordinates in the unit square |
| Spheres.HitNormalAndUv | hittable/sphere.go:36-77 | every hit carries a unit normal and texture coordinates in the unit square |
| Spheres.AnswersQuery | hittable/sphere.go:49-55 | a query over `[lo, hi]` returns the nearest hit beyond `lo`, cut off at `hi` |
| Spheres.SpheresAnswerNearest | hittable/sphere.go:36-77 | spheres answer nearest-hit queries the way the list scan and the tree walk need |
| Spheres.SphereListNearest | hittable/hittableList.go:32-49 | a list of spheres returns the nearest sphere hit within the interval |
| Triangles.CreateAabbFrom3Points | hittable/triangle.go:36 | the box is bounded, not inverted and contains all three corners |
| Triangles.PaddedBox | hittable/triangle.go:36 | the padded box still contains all three corners |
| Triangles.PlaneNormal | hittable/triangle.go:39-40 | the normal is perpendicular to both edges and, with exact square roots, of unit length |
| Triangles.HalfLength | hittable/triangle.go:41 | the area is positive and four times its square is the squared length of the edges' cross product |
| Triangles.NewTriangleWithTexCoords | hittable/triangle.go:35-61 | the triangle keeps its corner, edges, texture coordinates and material; its box contains the corners; its normal is a unit vector perpendicular to both edges; its area is half the cross product's length |
| Triangles.NormalInPlane | hittable/triangle.go:39-40 | any multiple of the edges' cross product is perpendicular to both edges |
| Triangles.NewTriangle | hittable/triangle.go:29-31 | as `NewTriangleWithTexCoords` with every texture coordinate zero |
| Triangles.Record | hittable/triangle.go:95-112 | the record holds the point at the solved distance and the material; its normal is the triangle's, flipped to face against the ray; its texture coordinates are interpolated from the corners |
| Triangles.Hit | hittable/triangle.go:63-115 | a near-parallel ray misses; a hit lies in the interval, with weights inside the triangle |
| Triangles.SolveIsIntersection | hittable/triangle.go:65-87 | Cramer's rule gives weights and a distance at which the ray meets the triangle's plane at the weighted point |
| Triangles.SolveInBasis | hittable/triangle.go:65-87 | the solution's three numerators are the offset's coordinates against the dual basis of the two edges and the direction |
| Triangles.SolveRecovers | hittable/triangle.go:65-87 | any point of the plane that the ray reaches has its weights and its distance recovered exactly |
| Triangles.HitInTriangle | hittable/triangle.go:63-115 | a hit comes from a ray that is not near-parallel, and its point has weights inside the triangle |
| Triangles.HitFindsTriangle | hittable/triangle.go:63-115 | every point of the triangle that a ray (not near-parallel) meets within the interval is found, at that distance |
| Triangles.HitIffMeetsTriangle | hittable/triangle.go:63-115 | the hit succeeds exactly when the ray is not near-parallel and meets a point of the triangle within the interval |
| Triangles.InterpolateConvex | hittable/triangle.go:95-97 | interpolated coordinates stay within the corners' range, and equal corner values are reproduced |
| Triangles.InterpolateCorners | hittable/triangle.go:95-97 | each corner gets its own texture coordinate |
| Triangles.HitUvInCornerRange | hittable/triangle.go:95-97 | a hit's texture coordinates lie within the corners' range |
| Triangles.AnswersQuery | hittable/triangle.go:91-93 | a query over `[lo, hi]` returns the only candidate at or beyond `lo`, cut off at `hi` |
| Triangles.TrianglesAnswerNearest | hittable/triangle.go:63-115 | triangles answer nearest-hit queries the way the list scan and the tree walk need |
| Triangles.PdfValue | hittable/triangle.go:126-143 | a direction whose ray misses the triangle has density zero |
| Triangles.PdfValueNonNegative | hittable/triangle.go:126-143 | the density is never NaN and never negative; a grazing hit gives +Inf |
| Triangles.PdfNumeratorIsDistance | hittable/triangle.go:139 | for a unit direction the numerator is the squared distance from the origin to the hit point |
| Triangles.RandomDirectionAsWritten | hittable/triangle.go:145-148 | the sampled point weights the two edges by the two draws |
| Triangles.RandomDirectionLeavesTriangle | hittable/triangle.go:145-148 | two draws of 0.9 sample a point outside the unit right triangle |
| Triangles.Fold | hittable/triangle.go:145-148 | draws summing past one are reflected into the triangle; other draws are kept |
| Triangles.RandomDirection | hittable/triangle.go:145-148 | the direction from the origin reaches a point inside the triangle |
| Quads.BoxAsWritten | hittable/quad.go:24 | the box spans only the corner `q` and the opposite corner `q + u + v` |
| Quads.BoxAsWrittenMissesCorner | hittable/quad.go:24 | with `u = (1, 0, 0)` and `v = (-1, 0, 1)` the corner `q + u` lies outside that box |
| Quads.CornerHull | hittable/quad.go:24 | the box of all four corners is bounded, not inverted and contains each corner |
| Quads.CornerBox | hittable/quad.go:24 | the padded box of the four corners contains every point of the parallelogram |
| Quads.HullContains | hittable/quad.go:24 | each point of the parallelogram is in the padded hull of its corners |
| Quads.BoxConvex | hittable/quad.go:24 | a bounded box that holds the four corners holds the whole parallelogram |
| Quads.NewQuad | hittable/quad.go:23-40 | the quad keeps its corner, edges and material, and its box holds the parallelogram; for edges that span a plane, its normal is perpendicular to both edges and, with exact square roots, of unit length, `d` is the plane offset of `q` and `w` has dot product one with `u × v`; parallel edges give no normal |
| Quads.DegenerateQuadNeverHit | hittable/quad.go:23-28 | a quad built from parallel edges (Go's NaN normal) is hit by no ray in any interval |
| Quads.ZeroNormalNeverHit | hittable/quad.go:64-69 | a quad without a normal meets every ray as parallel and misses |
| Quads.DualVector | hittable/quad.go:28 | `n / (n . n)` has dot product one with `n` |
| Quads.Record | hittable/quad.go:88-101 | the record holds the point at `t`, the material and the plane coordinates as texture coordinates; its normal is flipped to face against the ray |
| Quads.Hit | hittable/quad.go:63-104 | a near-parallel ray misses; a hit lies in the interval and on the plane, with plane coordinates in the unit square |
| Quads.OnPlane | hittable/quad.go:72 | the point at the computed distance lies on the plane |
| Quads.PlaneCoordinates | hittable/quad.go:79-81 | in a quad built by `NewQuad`, an in-plane vector is recovered from its two plane coordinates |
| Quads.DualCoordinates | hittable/quad.go:79-81 | with `w` the dual vector, any vector perpendicular to `u × v` is `alpha u + beta v` |
| Quads.HitInQuad | hittable/quad.go:63-104 | the hit point of a built quad is the point of the parallelogram with the record's texture coordinates |
| Quads.HitFindsQuad | hittable/quad.go:63-104 | every point of the parallelogram that a ray (not near-parallel) meets within the interval is found, at that distance and with those coordinates |
| Quads.DistanceRecovered | hittable/quad.go:72 | a ray that meets a point of the parallelogram meets it at the computed distance |
| Quads.AlphaRecovered | hittable/quad.go:80 | `alpha` recovers the coordinate along `u` |
| Quads.BetaRecovered | hittable/quad.go:81 | `beta` recovers the coordinate along `v` |
| Quads.PlaneOffset | hittable/quad.go:27 | every point of the parallelogram lies on the plane `normal . x = d` |
| Quads.HitIffMeetsQuad | hittable/quad.go:63-104 | a built quad is hit exactly when the ray is not near-parallel and meets a point of the parallelogram within the interval |
| Quads.AnswersQuery | hittable/quad.go:73-75 | a query over `[lo, hi]` returns the only candidate at or beyond `lo`, cut off at `hi` |
| Quads.QuadsAnswerNearest | hittable/quad.go:63-104 | quads answer nearest-hit queries the way the list scan and the tree walk need |
| Quads.Frames | hittable/quad.go:49-58 | there are six side frames |
| Quads.Sides | hittable/quad.go:53-58 | six quads with the box's material, each `NewQuad` of its frame, whose points are those of the six frames |
| Quads.FramesSpan | hittable/quad.go:49-58 | for a box that is not flat, the edges of every side span a plane |
| Quads.NewBox | hittable/quad.go:42-61 | the list holds the six sides between the corners' componentwise minimum and maximum, and its box covers theirs; when the corners differ on every axis, every side spans a plane |
| Quads.FlatBoxKeepsTwoSides | hittable/quad.go:42-61 | a box flat across `x` keeps its two sides in that plane; the four sides with an edge along `x` are never hit |
| Quads.FlatSideHasNoNormal | hittable/quad.go:53-58 | each side of a box flat across `x` with an `x` edge has no normal |
| Quads.NewBoxSymmetric | hittable/quad.go:46-47 | the box does not depend on the order of its two corners |
| Quads.Fraction | hittable/quad.go:49-51 | a coordinate between the bounds is the interpolation at a fraction in `[0, 1]` |
| Quads.FramePoints | hittable/quad.go:53-58 | each side's points, coordinate by coordinate: one coordinate held at a bound, the others interpolated |
| Quads.FramesOnSurface | hittable/quad.go:53-58 | every point of every side lies on the box's surface |
| Quads.SurfaceOnFrames | hittable/quad.go:53-58 | every point of the box's surface lies on some side |
| Quads.NewBoxSurface | hittable/quad.go:42-61 | the sides of `NewBox` cover exactly the surface of the box between the two corners |
| Quads.SidesOnSurface | hittable/quad.go:53-58 | every point of the six quads lies on the box's surface |
| Quads.SurfaceOnSides | hittable/quad.go:53-58 | every point of the box's surface is a point of one of the six quads |
| Translations.NewTranslation | hittable/translation.go:17-29 | a point lies in the new box exactly when the point it came from lies in the child's box, and each axis keeps its size |
| Translations.ShiftRay | hittable/translation.go:33-37 | the child's ray starts `offset` back, with the same direction and time, so each of its points moved forward is the caller's point at the same distance |
| Translations.ShiftRecord | hittable/translation.go:40-42 | only the hit point moves, by `offset`; a miss stays a miss |
| Translations.Hit | hittable/translation.go:31-45 | the answer is the child's answer for the shifted ray, with the hit point moved forward |
| Translations.HitKeepsPromises | hittable/translation.go:31-45 | a child record on its ray and facing it becomes a record on the caller's ray, facing it |
| Translations.HitInsideBox | hittable/translation.go:22-41 | a hit point inside the child's box ends up inside the translation's box |
| Translations.ZeroOffsetIsIdentity | hittable/translation.go:17-45 | a zero offset leaves the box, the ray and the records as they were |
| Translations.TranslationsCompose | hittable/translation.go:17-45 | translating by `a` and then by `b` moves rays, records and boxes as translating by `a + b` does |
| RotationsY.RotationsInverse | hittable/rotationY.go:69-88 | for the sine and cosine of one angle, the turn to the child's frame and the turn back undo each other |
| RotationsY.DotAdjoint | hittable/rotationY.go:69-88 | the turn back is the adjoint of the turn in: a dot product can move it from one side to the other |
| RotationsY.ToObjectAlongRay | hittable/rotationY.go:69-75 | turning a ray's origin and direction turns each of its points at the same distance |
| RotationsY.RotateRay | hittable/rotationY.go:66-75 | the child's ray is the caller's ray turned into the child's frame, at the same time |
| RotationsY.RotateRecord | hittable/rotationY.go:82-91 | only the hit point and the normal are turned back |
| RotationsY.Hit | hittable/rotationY.go:64-94 | the answer is the child's answer for the turned ray, turned back; a miss passes through |
| RotationsY.HitUndoesRotation | hittable/rotationY.go:64-94 | turning the returned hit point and normal into the child's frame gives exactly what the child reported |
| RotationsY.HitKeepsPromises | hittable/rotationY.go:64-94 | a child record on its ray and facing it becomes a record on the caller's ray, facing it |
| RotationsY.ZeroAngleIsIdentity | hittable/rotationY.go:64-94 | a zero angle turns nothing |
| RotationsY.PickIsLoopBlend | hittable/rotationY.go:34-36 | for a counter of 0 or 1, `i*Max + (1-i)*Min` is the end of the interval that the counter picks |
| RotationsY.Corners | hittable/rotationY.go:31-37 | the eight corners of the child's box, in the order of the three nested loops |
| RotationsY.Testers | hittable/rotationY.go:38-41 | the eight testers are the corners turned to world |
| RotationsY.Lowest | hittable/rotationY.go:28-45 | the minimum fold from `+Inf` is `+Inf` on no values and finite otherwise |
| RotationsY.Highest | hittable/rotationY.go:29-49 | the maximum fold from `-Inf` is `-Inf` on no values and finite otherwise |
| RotationsY.FoldsBound | hittable/rotationY.go:43-49 | the folded minimum bounds every value from below and the folded maximum from above |
| RotationsY.LowestAttained | hittable/rotationY.go:43-45 | the folded minimum is one of the values |
| RotationsY.HighestAttained | hittable/rotationY.go:47-49 | the folded maximum is one of the values |
| RotationsY.NewRotationY | hittable/rotationY.go:19-62 | the rotation keeps its child; its box is the folded box of the eight turned corners; with exact sine and cosine they are those of one angle |
| RotationsY.BoxOfPointsContains | hittable/rotationY.go:54 | a point lies in the folded box exactly when each coordinate lies between that axis' folded minimum and maximum |
| RotationsY.BoxOfPointsTight | hittable/rotationY.go:54 | the folded box lies inside any box that holds all the points |
| RotationsY.CornersInside | hittable/rotationY.go:31-54 | every turned corner lies in the rotation's box, and the box is the smallest that holds them all |
| RotationsY.RotatedPointInside | hittable/rotationY.go:31-54 | every point of the child's box, turned to world, lies in the rotation's box |
| RotationsY.HitInsideBox | hittable/rotationY.go:83-84 | a hit point inside the child's box, turned back to world, lies in the rotation's box |
| MotionBlurs.NewMotionBlur | hittable/motionBlur.go:17-31 | the box encloses the child's box both where it starts and where it ends |
| MotionBlurs.Hit | hittable/motionBlur.go:33-49 | the answer is the child's answer for the ray shifted back by `blurDirection * time`, with the hit point moved forward; it misses exactly when the child does |
| MotionBlurs.HitKeepsPromises | hittable/motionBlur.go:33-49 | a child record on its ray and facing it becomes a record on the caller's ray, facing it |
| MotionBlurs.TimeZeroIsIdentity | hittable/motionBlur.go:35-46 | at time 0 the child sees the caller's ray and its record comes back unchanged |
| MotionBlurs.SweptBox | hittable/motionBlur.go:22-24 | axis by axis, the box runs from the lower to the upper of the two ends of the sweep |
| MotionBlurs.BoxCoversSweep | hittable/motionBlur.go:22-35 | a point of the child's box, moved by the offset at any time in `[0, 1]`, lies in the box |
| ConstantMedia.NewConstantMedium | hittable/constantMedium.go:25-31 | the medium keeps its boundary; for a non-zero density its factor is finite and times the density is -1, for a zero density it is `-Inf`; it is negative exactly for a non-negative density and never `+Inf`; the phase function is isotropic in the given colour |
| ConstantMedia.Clip | hittable/constantMedium.go:48-55 | the clipped chord exists exactly when the later start is before the earlier end; it starts at or after the entry, the interval's start and 0 |
| ConstantMedia.FreeFlight | hittable/constantMedium.go:57-65 | the flight ends inside the medium exactly when the draw is positive and `-log(u) / density` is within the chord's length along the ray |
| ConstantMedia.Flight | hittable/constantMedium.go:57-65 | a `-Inf` factor never ends a flight inside the chord; a finite one gives the free flight |
| ConstantMedia.Hit | hittable/constantMedium.go:33-75 | a scattering point lies on the ray at its distance and carries the phase function |
| ConstantMedia.HitIsFlightInChord | hittable/constantMedium.go:33-75 | the medium scatters exactly when the boundary is hit twice, the clipped chord is not empty and the flight ends inside it, and it scatters at the end of the flight; a `-Inf` factor never scatters |
| ConstantMedia.ZeroDensityNeverScatters | hittable/constantMedium.go:25-65 | a medium built with density 0 lets every ray through |
| ConstantMedia.FlightWithinChord | hittable/constantMedium.go:57-65 | for a positive density the flight ends between the chord's two ends |
| ConstantMedia.ScattersInsideChord | hittable/constantMedium.go:33-75 | a scattering point lies between the entry and exit hits, in the interval asked for and not behind the origin |
| ConstantMedia.LargestDrawStopsAtEntry | hittable/constantMedium.go:59-65 | a draw of 1 ends the flight at the start of the chord, whatever the density |
| ConstantMedia.DenserFlightIsShorter | hittable/constantMedium.go:59-65 | with the same chord and draw, a denser medium scatters whenever a thinner one does, and no further along |
| Materials.ScatterRay | material/material.go:25-29 | the scattered ray starts at the hit point, in the given direction, at the incoming ray's time |
| Materials.LambertianScatter | material/material.go:19-31 | always scatters with the texture colour; the direction is the normal plus the unit vector, or the normal alone exactly when that sum is near zero |
| Materials.LambertianDirectionUsable | material/material.go:20-23 | for a unit normal the scattered direction is never near zero |
| Materials.MetalScatter | material/material.go:42-52 | scatters exactly when the direction leaves the surface; with no fuzz the direction is the mirror image of the unit incoming direction |
| Materials.MetalMirrorScatters | material/material.go:42-52 | with no fuzz and a unit normal, a metal scatters exactly when the ray arrives against the normal |
| Materials.RefractionRatio | material/material.go:64-69 | on the front face the ratio is the reciprocal of the index, otherwise the index itself |
| Materials.RefractionRatiosReciprocal | material/material.go:64-69 | the front-face and back-face ratios multiply to one |
| Materials.Pow5 | material/material.go:100 | the fifth power stays in `[0, 1]` on `[0, 1]`, and is 0 at 0 and 1 at 1 |
| Materials.ReflectanceEnds | material/material.go:97-101 | Schlick's approximation is `r0` at normal incidence and 1 at grazing incidence |
| Materials.ReflectanceBounds | material/material.go:97-101 | for a non-negative index and a cosine in `[0, 1]`, the reflectance lies between `r0` and 1 |
| Materials.ReflectanceOfGlass | material/material.go:97-101 | glass with index 1.5 reflects 4% at normal incidence |
| Materials.MinOne | material/material.go:72 | `math.Min(x, 1)` is at most both and equal to one of them |
| Materials.DielectricScatter | material/material.go:63-90 | always scatters with the texture colour from the hit point, mirrored or refracted; an index of 0 met from the front (ratio `+Inf`) always mirrors; an index of -1 (a NaN reflectance) refracts whenever refraction is possible |
| Materials.DielectricTotalInternalReflection | material/material.go:74-78 | when refraction is impossible the ray is mirrored, whatever the draw |
| Materials.DielectricRefractsOnLargestDraw | material/material.go:77-80 | when refraction is possible and the ray meets the front, a draw of 1 refracts, since the reflectance never exceeds one |
| Materials.IsotropicScatter | material/material.go:119-127 | always scatters with the albedo's colour, from the hit point in the drawn direction |
| Materials.Scatter | material/material.go:19-127 | defined for every index of refraction; a light never scatters and returns the zero colour and ray; Lambertian, dielectric and isotropic materials always scatter; every scattered ray starts at the hit point at the incoming time |
| Materials.Emitted | material/material.go:33-131 | only a light emits, with its texture's colour; every other material emits zero |
| Materials.EmitOrScatter | material/material.go:107-113 | no material both emits and scatters |
| Textures.NewSolidColor | material/texture.go:27-31 | a solid colour texture holding exactly `(r, g, b)` |
| Textures.SolidColorIgnoresCoordinates | material/texture.go:34-36 | a solid colour is the same at every texture coordinate |
| Textures.NewImageTexture | material/texture.go:61-69 | the texture keeps the picture and the mirror flag, and its largest coordinates are one less than the picture's bounds |
| Textures.Mod1 | material/texture.go:74-78 | `math.Mod(a, 1)` of a non-negative value lies in `[0, 1)` and differs from it by a whole number |
| Textures.Mod1Periodic | material/texture.go:74-78 | adding one does not change the remainder |
| Textures.TexU | material/texture.go:74-77 | the horizontal coordinate lies in `[0, 1)`, or in `(0, 1]` when mirrored |
| Textures.TexV | material/texture.go:78 | the vertical coordinate is flipped into `(0, 1]` |
| Textures.PixelInRange | material/texture.go:80-81 | a coordinate in `[0, 1]` scaled by `max` and truncated lands in `[0, max]` |
| Textures.ImagePixelInRange | material/texture.go:66-81 | the pixel looked up always lies inside the picture's bounds |
| Textures.Color | material/texture.go:73-85 | an image texture's colour has every channel in `[0, 1]` |
| Textures.ColorWraps | material/texture.go:72-78 | the colour ignores the sign of `u` and repeats with period one in both coordinates |
| Pdfs.NewCosinePdf | pdf/pdf.go:23-27 | the pdf's basis is orthonormal, with `w` the unit vector along the given direction |
| Pdfs.MaxZero | pdf/pdf.go:32 | `math.Max(0, x)` is non-negative, at least `x`, and either `x` or 0 |
| Pdfs.CosineValue | pdf/pdf.go:30-33 | the value is zero for directions at or behind the surface and positive in front of it |
| Pdfs.Value | pdf/pdf.go:30-76 | every density is non-negative; the sphere's lies between 1/16 and 1/12; a mixture's lies between its two parts' |
| Pdfs.SphereValue | pdf/pdf.go:49-51 | the density times the sphere's area `4 pi` is one |
| Pdfs.SphereValueConstant | pdf/pdf.go:49-51 | the sphere density is the same in every direction |
| Pdfs.MixtureOfSame | pdf/pdf.go:74-76 | a mixture of a pdf with itself has that pdf's density |
| Pdfs.CosineValueBehind | pdf/pdf.go:30-33 | a direction behind the surface has density zero |
| Pdfs.CosineGenerate | pdf/pdf.go:36-38 | in an orthonormal basis, the generated direction's height along `w` is the cosine draw's `z` |
| Pdfs.SphereGenerate | pdf/pdf.go:54-56 | the generated direction is a unit vector |
| Pdfs.MixtureGenerate | pdf/pdf.go:80-85 | a draw below one half generates from the first pdf, any other from the second |
| Pdfs.MixtureGenerateHalves | pdf/pdf.go:80-85 | each half of the draw's range selects one of the two pdfs |
| Scenes.IsLight | hittable/rotationY.go:108-110 | a node is a light exactly when, under its translations, rotations and motion blurs, it is a sphere, quad or triangle whose material is a light; lists, BVH nodes and fog volumes never are |
| Scenes.FindLights | renderer/renderer.go:213-226 | `findLights` collects exactly the light nodes reached from the root through lists alone |
| Scenes.FindLightsIn | renderer/renderer.go:216-219 | from a list's children it collects exactly the light nodes reached from one of them through lists alone |
| Scenes.FindAllLights | renderer/renderer.go:213-226 | the corrected collection finds exactly the light nodes reached through lists and BVH nodes |
| Scenes.FindAllLightsIn | renderer/renderer.go:216-219 | the same for a list's children |
| Scenes.FindLightsAreLights | renderer/renderer.go:213-226 | every node `findLights` collects is a light |
| Scenes.FindLightsInAreLights | renderer/renderer.go:216-219 | every node collected from a list's children is a light |
| Scenes.FindLightsEmpty | renderer/renderer.go:213-226 | `findLights` collects nothing exactly when no light is reachable through lists alone |
| Scenes.FindLightsInEmpty | renderer/renderer.go:216-219 | nothing is collected from a list exactly when no child leads to such a light |
| Scenes.FindAllLightsEmpty | renderer/renderer.go:213-226 | the collection that also descends into BVH nodes finds nothing exactly when the tree holds no light, and finds only lights |
| Scenes.FindAllLightsInEmpty | renderer/renderer.go:216-219 | the same for a list's children |
| Scenes.CollectionsAgreeWithoutBvh | renderer/renderer.go:213-226 | when no BVH sits below the lists, both collections find the same lights in the same order |
| Scenes.CollectionsAgreeInWithoutBvh | renderer/renderer.go:216-219 | the same for a list's children |
| Scenes.FindLightsWithinAll | renderer/renderer.go:213-226 | every light `findLights` collects is also found by the full collection |
| Scenes.FindLightsInWithinAll | renderer/renderer.go:216-219 | the same for a list's children |
| Scenes.LightInBvhIsMissed | renderer/renderer.go:213-226 | a list holding a BVH of two lamps has lights, yet `findLights` collects none while the full collection finds both |
| Scenes.NewRendererAsWritten | renderer/renderer.go:30-48 | fails with its fixed message exactly when `findLights` collects nothing; otherwise keeps the scene and only lights |
| Scenes.NewRenderer | renderer/renderer.go:30-48 | with the full collection: fails exactly when the scene holds no light; otherwise keeps the scene and at least one light, all of them lights |
| Scenes.BvhSceneRejected | renderer/renderer.go:30-37 | the scene with lights only under a BVH is rejected as written and accepted when corrected |
| Shading.Lift | renderer/shader.go:14 | a colour of reals becomes the float64 colour with the same channels |
| Shading.FilterColorValue | renderer/shader.go:64-74 | the result is a number no larger than 3; NaN becomes 0 and anything above 3 becomes 3 |
| Shading.FilterColorValueFixedPoints | renderer/shader.go:64-74 | the filter leaves a value unchanged exactly when it is a number no larger than 3, so filtering twice changes nothing |
| Shading.FilterInvalidColorValues | renderer/shader.go:56-62 | each channel is filtered on its own |
| Shading.FilteredIsCapped | renderer/shader.go:56-74 | a filtered colour is capped, and a colour is left unchanged exactly when it already is |
| Shading.ScatteredRay | renderer/shader.go:43-47 | the sampled ray starts at the hit point at the incoming ray's time and runs along the unit vector of the mixture's sample, of length 1 under sound square roots; a zero sample is kept as the direction |
| Shading.AlbedoShade | renderer/shader.go:80-87 | the attenuation when the surface scatters, otherwise the emitted colour |
| Shading.NormalShade | renderer/shader.go:93-95 | a zero normal gives NaN in every channel, any other normal a colour without NaN |
| Shading.NormalShadeIsUnit | renderer/shader.go:93-95 | a non-zero normal gives a unit vector |
| Shading.SimpleFactorAsWritten | renderer/shader.go:110 | the factor is the unit normal dotted with the unnormalised `(1, 1, -1)`, halved, plus 0.75 |
| Shading.SimpleFactorExceedsComment | renderer/shader.go:108-110 | the unit normal `(0.6, 0.8, 0)` gets a factor of 1.45, above the range the comment promises |
| Shading.SimpleFactor | renderer/shader.go:108-110 | with the light direction normalised too, the factor lies in `[0.25, 1.25]` |
| Shading.UnitsDotWithinOne | renderer/shader.go:110 | the dot product of two unit vectors lies in `[-1, 1]` |
| Shading.SimpleShade | renderer/shader.go:101-113 | the emitted colour when the surface does not scatter; otherwise the attenuation scaled by the corrected (normalised) factor, in `[0.25, 1.25]`; NaN in every channel exactly for a scattering surface with a zero normal |
| Shading.PathTracingShade | renderer/shader.go:23-54 | black at or past the maximum depth; the emitted colour for a surface that does not scatter; a capped colour on the sampled branch; never NaN when no material takes the skip-pdf branch, and capped when, in addition, background, emitted colours and attenuations lie in `[0, 1]` |
| Shading.Shade | renderer/shader.go:13-113 | the path tracer is NaN-free without skip-pdf materials and the albedo shader always is; the normal and simple shaders give NaN exactly for a zero normal (on a scattering surface, for the simple one) |
| Shading.RayColor | renderer/renderer.go:50-70 | a miss gives the background twice and a black normal; the albedo and normal images stay black except for the camera ray of a render with a post-processor; a path-traced pixel is NaN-free without skip-pdf materials, and capped in a world of colours in `[0, 1]` |
| Shading.MissGivesBackground | renderer/renderer.go:50-70 | a ray that misses gives the background as pixel and albedo colour, and a black normal |
| Shading.HitPastCutoffIsBlack | renderer/shader.go:25-27 | a hit at or past the maximum depth is black in all three outputs |
| Shading.NonScatteringWorld | renderer/shader.go:29-33 | in a world where nothing scatters, a hit's colour is what its surface emits |
| Shading.PdfBranchIsCapped | renderer/shader.go:40-53 | the sampled branch is always filtered, so every channel is a number at most 3 |
| Shading.SkipPdfBranchIsUncapped | renderer/shader.go:35-38 | the skip-pdf branch is not filtered: a background of 5 comes back unchanged |
| Shading.ClampColorValue | internal/renderer/renderer.go:61-72 | the older filter's result lies in `[0, 1]` |
| Shading.ClampColorValueFixedPoints | internal/renderer/renderer.go:61-72 | the older filter keeps exactly the values in `[0, 1]`, is idempotent, and capping at 3 first makes no difference |
| Shading.ClampInvalidColorValues | internal/renderer/renderer.go:53-59 | each channel is clamped on its own |
| Shading.RawScatteredRay | internal/renderer/renderer.go:38-42 | the older renderer's sampled ray starts at the hit point, in the generated direction, at the incoming time |
| Shading.InternalRayColor | internal/renderer/renderer.go:17-51 | black at the maximum depth, whether or not the ray hits; the background on a miss; in a world whose background, emitted colours and attenuations lie in `[0, 1]`, every path, the skip-pdf chains included, stays in `[0, 1]` |
| Shading.CutoffOrderDiffers | internal/renderer/renderer.go:17-50 | a ray that misses at the maximum depth is black in the older renderer but the background in the newer one |
| Shading.InternalPdfBranchIsClamped | internal/renderer/renderer.go:35-47 | below the cutoff, the older renderer's sampled branch lies in `[0, 1]` on every channel |
| Rendering.PixelIndex | renderer/renderer.go:103 | the slot of pixel `(x, y)` lies in column `x` and row `height - 1 - y` of the buffer, inside it for an in-bounds pixel: the image is stored top row first while `y` counts from the bottom |
| Rendering.PixelIndexInRange | renderer/renderer.go:103 | every pixel of a `width` by `height` image has a slot inside the buffer |
| Rendering.PixelIndexInjective | renderer/renderer.go:103 | distinct pixels have distinct slots |
| Rendering.PixelIndexOnto | renderer/renderer.go:103 | every slot of the buffer belongs to some pixel |
| Rendering.NumWorkers | renderer/renderer.go:185-191 | at least one worker, and one per CPU whenever there is a CPU |
| Rendering.PassReport | renderer/renderer.go:193-211 | the report after a pass divides the image by the samples it holds, and the last pass reports progress 1 |
| Rendering.Render | renderer/renderer.go:126-183 | it aborts exactly when an abort is polled during some pass; each pass report carries progress `sample / samples` and the image of `sample` samples divided by `sample`; without an abort every pass reports, the last at progress 1, followed by the post-processed image when there is a post processor; after an abort nothing post-processed is sent |
| Rendering.PassLoop | internal/renderer/renderer.go:79-130 | the older loop aborts exactly when an abort is polled before some pass; each completed pass reports progress `(sample + 1) / samples`; without an abort every pass reports, the last at progress 1 |
| Rendering.InternalRender | internal/renderer/renderer.go:110-121 | every reported image is divided by the number of samples it holds, at least one |
| Rendering.TraceRenderAsWritten | pkg/trace/scene.go:44-89 | every reported image is divided by one less than the samples it holds, and the first by zero |
| Cameras.New | camera/camera.go:25-59 | the camera sits at `lookFrom` with lens radius `aperture / 2`; its viewport edges are the frame's `u` and `v` scaled by the viewport size and the focus distance |
| Cameras.FrameIsOrthonormal | camera/camera.go:41-43 | `u`, `v` and the back axis `w` form an orthonormal basis with `v = w × u` |
| Cameras.ViewportCentred | camera/camera.go:46-48 | the viewport's centre is the point `focusDistance` in front of the lens |
| Cameras.ViewportSize | camera/camera.go:35-47 | the viewport edges have the lengths that the field of view and aspect ratio give, at the focus distance |
| Cameras.RayDirection | camera/camera.go:66-68 | the lens point plus the direction reaches the viewport point `(s, t)` |
| Cameras.GetRay | camera/camera.go:62-74 | the ray leaves from the lens point at the given time, along the unit direction to the viewport point |
| Cameras.RaysMeetAtViewport | camera/camera.go:62-74 | every ray for the viewport point `(s, t)` passes through it, whatever the lens draw: it is in focus |
| Cameras.PinholeWithoutAperture | camera/camera.go:57-64 | with no aperture every ray leaves from `lookFrom` |
| Cameras.ZeroLens | camera/camera.go:63-64 | a lens of radius zero offsets nothing |
| Bloom.KernelShape | post/bloom.go:28-32 | the kernel is 3 by 3 with non-negative weights |
| Bloom.KernelSumsToOne | post/bloom.go:28-32 | the kernel's weights sum to one |
| Bloom.StencilReadInRange | post/bloom.go:67-72 | every read of the stencil at an interior pixel lies inside the image |
| Bloom.BrightPass | post/bloom.go:54-60 | a pixel is kept exactly when its length exceeds the sample count, and is black otherwise |
| Bloom.BrightPassKeeps | post/bloom.go:54-60 | for a non-negative sample count, a pixel survives exactly when its length exceeds it |
| Bloom.BrightPassIdempotent | post/bloom.go:54-60 | applying the bright pass twice gives the same image as once |
| Bloom.StencilOfUniform | post/bloom.go:69-76 | the stencil of a uniform neighbourhood is that colour, since the weights sum to one |
| Bloom.BlurPass | post/bloom.go:66-81 | one pass keeps the image's size |
| Bloom.BlurPassAt | post/bloom.go:66-81 | after a pass, every border pixel is black and every interior pixel holds the stencil of the previous image |
| Bloom.BlurPassNonNegative | post/bloom.go:66-81 | a pass keeps every channel non-negative |
| Bloom.StencilLoop | post/bloom.go:69-75 | the two kernel loops compute the stencil sum |
| Bloom.BlurRow | post/bloom.go:68-77 | one row of the loop fills that row's slots with their blurred values |
| Bloom.BlurPassLoop | post/bloom.go:66-81 | the nested loops compute exactly one blur pass |
| Bloom.BlurIterations | post/bloom.go:64 | the pass count is the width times the radius, rounded down, and at most the width for a radius in `[0, 1]` |
| Bloom.BorderDarkAfterBlur | post/bloom.go:65-82 | after at least one pass every border pixel is black |
| Bloom.BlurNonNegative | post/bloom.go:65-82 | any number of passes keeps every channel non-negative |
| Bloom.PostProcess | post/bloom.go:39-100 | the invalid-radius error exactly for a radius outside `[0, 1]`, carrying that radius; otherwise an image of the given size |
| Bloom.PostProcessPixel | post/bloom.go:84-92 | each output pixel is the quantised sum of the pixel and its scaled bloom |
| Bloom.ZeroMultiplierIsPlain | post/bloom.go:84-92 | with a zero multiplier every pixel is quantised as without bloom |
| Bloom.BorderUnbloomed | post/bloom.go:65-92 | after at least one blur pass, border pixels come out as without bloom |
| Bloom.BloomNeverDarkens | post/bloom.go:39-100 | with non-negative colours and multiplier, no channel of any pixel is darker than without bloom |
| Bloom.PostProcessLoops | post/bloom.go:39-100 | the loops compute `PostProcess` |
| Workers.NumWorkers | web/multiTraceWorker.js:12 | at least one worker, and the concurrency minus two whenever that is at least one |
| Workers.JsRemainder | web/multiTraceWorker.js:19 | for a non-negative dividend, the remainder lies in `[0, n)` and completes the floor division; for a negative one it lies in `(-n, 0]` |
| Workers.Bands | web/multiTraceWorker.js:21-35 | one specification per worker, each full-width over the whole image |
| Workers.BandsTile | web/multiTraceWorker.js:18-33 | the bands start at row 0, each begins where the previous ends, none has negative height, and the last ends at the image's height |
| Workers.EveryRowOwnedOnce | web/multiTraceWorker.js:18-33 | every row of the image lies in exactly one worker's band |
| Workers.Init | web/multiTraceWorker.js:67-71 | workers `0` to `n - 1` get a fresh record, not ready and at progress 0; other entries are kept |
| Workers.InitRegisters | web/multiTraceWorker.js:21-72 | initialising an empty registry registers exactly the `n` workers |
| Workers.OnInitReply | web/multiTraceWorker.js:40-46 | an unknown id fails; otherwise only that worker becomes ready, and "init" is posted exactly when, with `n` workers registered, all are ready |
| Workers.ReplyKeepsRegistered | web/multiTraceWorker.js:41 | a reply from a registered worker keeps the registry and marks exactly that worker ready in addition |
| Workers.InitPostedWhenAllReplied | web/multiTraceWorker.js:40-46 | from a fresh registry, the `k`-th reply posts "init" exactly when every worker is ready or has replied by then |
| Workers.ProgressBounds | web/multiTraceWorker.js:50-51 | the aggregate progress lies in `[0, 1]` when every worker's does, and is 1 when every worker has finished |
| Workers.OnImage | web/multiTraceWorker.js:48-51 | an unknown id fails; otherwise the worker's progress is recorded and the aggregate moves by the change divided by the worker count |
| TraceBvh.ChooseAxisStrictWidest | pkg/trace/bvh.go:56-62 | an axis whose spread is strictly larger than the other two is the one chosen, and x or y is chosen only when strictly the widest |
| TraceBvh.TieChoosesNarrowest | pkg/trace/bvh.go:56-62 | when x and y tie for the widest spread the strict rule sorts along z, the narrowest, where the non-strict rule picks x |
| TraceBvh.CallsAsWritten | pkg/trace/bvh.go:20-47 | whenever the recursion returns it has made at least one call |
| TraceBvh.EmptyNeverReturns | pkg/trace/bvh.go:16-47 | on an empty list no depth of recursion suffices: the empty range splits into itself |
| TraceBvh.NonEmptyReturns | pkg/trace/bvh.go:20-47 | a non-empty range returns within as many levels as it has elements, with fewer than twice as many calls |
| TraceBvh.CreateBvh | pkg/trace/bvh.go:16-47 | no tree exactly for the empty list; otherwise a tree whose node boxes bound their children and whose leaves are the list's elements |
| TraceBvh.SortByMostSpreadAxis | pkg/trace/bvh.go:49-77 | the range is a permutation of itself sorted along the chosen axis, nothing outside it moves, and x or y is chosen only when strictly the widest |
| TraceVectors.ComponentwiseLaws | pkg/trace/vec3.go:11-33 | subtraction adds the negation and is undone by addition, sums and products commute, scaling is a product, and division by `t` undoes scaling by `t` |
| TraceVectors.DotAsWritten | pkg/trace/vec3.go:35-37 | the written dot product is the geometric one with the z product replaced by the z sum |
| TraceVectors.DotAsWrittenDiffers | pkg/trace/vec3.go:35-37 | the written product is not zero against the zero vector, and agrees with the geometric one exactly when `v.z * w.z == v.z + w.z` |
| TraceVectors.DotIsBilinear | pkg/trace/vec3.go:35-37 | the intended dot product is symmetric, linear and zero against the zero vector |
| TraceVectors.CrossAsWritten | pkg/trace/vec3.go:39-45 | the written cross product is the geometric one with its operands swapped |
| TraceVectors.CrossAsWrittenIsNegated | pkg/trace/vec3.go:39-45 | the written cross product is the negation of the right-handed one, so `x × y` gives `-z` |
| TraceVectors.CrossIsRightHanded | pkg/trace/vec3.go:39-45 | the intended cross product gives `x × y = z`, is anti-commutative and is orthogonal to both operands |
| TraceVectors.ChannelByte | pkg/trace/vec3.go:66-73 | a channel converts exactly when its scaled value truncates into a byte, which every channel in `[0, 1]` does, to the truncation of `c * 255.999` |
| TraceVectors.ToRgba | pkg/trace/vec3.go:66-73 | a pixel exactly when all three channels convert, always for a colour in `[0, 1]`, with an opaque alpha |
| TraceVectors.ChannelByteBounds | pkg/trace/vec3.go:66-73 | the conversion is monotone on `[0, 1]`, maps 0 to 0 and 1 to 255, and has no byte for 2 |
| TraceVectors.ByteChannel | pkg/trace/rgbaColor.go:38-44 | a decoded byte lies in `[0, 1]`, and times 255 is the byte |
| TraceVectors.RgbaToVec3 | pkg/trace/rgbaColor.go:38-44 | every decoded channel lies in `[0, 1]` and, times 255, is its byte |
| TraceVectors.ByteChannelRoundTrip | pkg/trace/rgbaColor.go:38-44 | encoding a decoded byte with `byte(c * 255.999)` gives the byte back |
| TraceVectors.RgbaRoundTrip | pkg/trace/rgbaColor.go:38-44 | `toRgba` after `toVec3` restores the three bytes with an opaque alpha; white decodes to `(1, 1, 1)` and black to zero |
| TraceVectors.At | pkg/trace/ray.go:8-10 | the point minus the origin is the direction scaled by `t` |
| TraceTextures.CheckerParity | pkg/trace/texture.go:23-33 | the even texture is chosen exactly when the two cell indices have an even sum, negative cells included |
| TraceTextures.CheckerPeriodic | pkg/trace/texture.go:23-33 | moving one scale along `u` flips the choice, and two scales along either coordinate keeps it |
| TraceTextures.ShiftU | pkg/trace/texture.go:23-33 | `n` cells along `u` keep the choice exactly when `n` is even |
| TraceTextures.ShiftV | pkg/trace/texture.go:23-33 | `n` cells along `v` keep the choice exactly when `n` is even |
| TraceTextures.Clamp01 | pkg/trace/texture.go:43-44 | the clamp lies in `[0, 1]` and leaves values there unchanged |
| TraceTextures.ImageColorAsWritten | pkg/trace/texture.go:42-55 | the lookup as written has a colour exactly when its offset's three bytes lie in the buffer, and that colour is the three bytes decoded by `toVec3` |
| TraceTextures.ScaledCell | pkg/trace/texture.go:46-47 | scaling a coordinate of `[0, 1]` gives a cell of `[0, n]`, and exactly `n` at 1 |
| TraceTextures.ImageIndexPastEnd | pkg/trace/texture.go:44-48 | for every `v <= 0` the written offset lies past the buffer, so the lookup fails |
| TraceTextures.ImageIndexWraps | pkg/trace/texture.go:43-48 | for `u >= 1` the written offset names the first pixel of the next row |
| TraceTextures.Cell | pkg/trace/texture.go:46-47 | the clamped cell lies in `[0, n)` and equals the written one below 1 |
| TraceTextures.ImageIndex | pkg/trace/texture.go:42-48 | the corrected offset starts a pixel inside the buffer, and equals the written one wherever that is in range |
| TraceTextures.CellsAsWritten | pkg/trace/texture.go:46-47 | inside the image the clamped cells are the written ones |
| TraceTextures.Color | pkg/trace/texture.go:9-55 | an image colour lies in `[0, 1]` and a checker's colour is the colour of the texture its parity selects |
| TraceTextures.ImageColorReadsPixel | pkg/trace/texture.go:42-55 | each channel of an image colour, times 255, is the corresponding byte of the pixel at the clamped offset |
| TraceTextures.UniformImages | pkg/trace/texture.go:42-55 | an all-255 buffer reads `(1, 1, 1)` at every coordinate and an all-zero buffer reads black |
| TraceTextures.SolidColorIgnoresRecord | pkg/trace/texture.go:13-15 | a solid colour gives its value at every coordinate |
| TraceTextures.CheckerOfSolidsPeriodic | pkg/trace/texture.go:23-33 | a checker of two solids repeats every two scales along both coordinates, and neighbouring cells alternate |
| TraceTextures.ImageColorAgrees | pkg/trace/texture.go:42-55 | where the written offset is in range the corrected lookup gives the same colour, so it too reads the pixel's bytes over 255 (ImageColorReadsPixel) |
| TraceRender.HitSphere | pkg/trace/trace.go:15-28 | -1 for a negative discriminant; otherwise, under a sound square root, a point of the ray's line on the sphere |
| TraceRender.HitSphereFirst | pkg/trace/trace.go:15-28 | any point of the line on the sphere means a non-negative discriminant, and the returned point comes no later than it |
| TraceRender.GapIsQuadratic | pkg/trace/trace.go:16-20 | the squared distance along the ray minus the squared radius is the quadratic of `a`, `halfB` and `c` |
| TraceRender.HitSphereAsWritten | pkg/trace/trace.go:15-28 | the test as written agrees with the corrected one on every ray where the two dot products agree |
| TraceRender.CentreRayMissesAsWritten | pkg/trace/trace.go:15-28 | the written test reports a miss for the ray through the middle of the image, straight at the sphere |
| TraceRender.CentreRayHits | pkg/trace/trace.go:15-28 | the corrected test finds that ray's hit half a unit along it |
| TraceRender.Sky | pkg/trace/trace.go:37-42 | the sky blend of white and light blue lies in `[0, 1]` |
| TraceRender.RayColor | pkg/trace/trace.go:30-43 | every channel of a ray's colour, normal-shaded or sky, lies in `[0, 1]` |
| TraceRender.PixelRay | pkg/trace/trace.go:49-72 | every pixel's ray starts at the origin and points one unit into the screen |
| TraceRender.PixelColor | pkg/trace/trace.go:73 | every pixel's bytes are opaque |
| TraceRender.Slot | pkg/trace/trace.go:64 | the slot lies inside the image, rows counted from the top |
| TraceRender.ByteOffsets | pkg/trace/trace.go:64-78 | the four byte offsets of each slot lie in the buffer and no two slots share one |
| TraceRender.Bytes | pkg/trace/trace.go:75-78 | the flattened buffer holds each pixel's red, green, blue and alpha at its four offsets |
| TraceRender.FillRow | pkg/trace/trace.go:63-79 | one row fills that row's slots with their colours and leaves every other row untouched |
| TraceRender.FillRows | pkg/trace/trace.go:62-81 | every pixel's slot holds its colour, and after each row the progress is the share of rows finished before it, always below 1 |
| TraceRender.RayTrace | pkg/trace/trace.go:45-85 | the buffer holds each pixel's traced bytes at its slot, and the reported progress never reaches 1 |
| TraceRender.SlotBytes | pkg/trace/trace.go:64-78 | flattening a buffer of slot colours puts each pixel's four bytes at its offsets |
| TraceScene.RayColor | pkg/trace/scene.go:20-37 | black once the depth reaches 50, and the background for a ray that meets nothing |
| TraceScene.SurfaceBounded | pkg/trace/scene.go:25-29 | in a bounded scene a surface's emitted light and attenuation are bounded |
| TraceScene.CapIsProduct | pkg/trace/scene.go:20-37 | the per-bounce bound summed over `n` bounces is `n` times the light |
| TraceScene.RayColorBounded | pkg/trace/scene.go:20-37 | with light at most `light` and attenuations in `[0, 1]`, a ray followed from `depth` has every channel in `[0, (50 - depth) · light]` |
| TraceScene.RayColorAtMostFifty | pkg/trace/scene.go:9-37 | from the camera every channel lies in `[0, 50 · light]` |
| TraceScene.BounceBounded | pkg/trace/scene.go:31 | emitted light plus attenuated incoming light stays within the sum of their bounds |
| TraceScene.AbsorbedSeesEmission | pkg/trace/scene.go:28-31 | a surface that scatters with zero attenuation shows exactly its emitted light |

## Left out

- Goroutines, channels, wait groups, the abort race and the 500 ms progress timer (renderer/renderer.go, internal/renderer/renderer.go, pkg/trace/scene.go) are not modelled. A pass loop is modelled as the ordered reports it sends, and an abort as a function saying whether it is polled before a pass.
- The posting of messages and the spawning of workers in web/multiTraceWorker.js are left out. Each handler returns its new state and what it would post. web/traceWorker.js is a front end and is not part of this model.
- IEEE-754 rounding is not modelled. NaN and the infinities appear only where a branch depends on them (empty intervals, the shader's colour filter, the rejection of NaN in comparisons).
- `math.Sqrt`, `math.Sin`, `math.Cos`, `math.Tan`, `math.Log`, `math.Acos`, `math.Atan2` and `math.Pi` are uninterpreted fields of `Libm`. Only the facts in `Libm.Sound` are assumed.
- Random number generation is not modelled. Draws are parameters, and the rejection-sampling loops of geo/vec3.go appear only as the property of the vector they return. The termination of those loops, and any statistical claim (normalisation of the densities, convergence), are left out.
- Go's `sort.Slice` is not stable, and the order it leaves among equal keys is unspecified. The model states sortedness and the permutation, not a particular order among ties.
- OBJ and MTL loading (hittable/objModel.go), the external denoiser (post/oidn.go), image decoding (`LoadImageTexture`) and image encoding are I/O and are not part of this model.
- The copies in `pkg/trace` that repeat an algorithm modelled for the newer packages (interval, aabb, list, quad, sphere, wrappers, material, rgbaColor, camera, renderImage) are covered by the newer models.
- The `String` methods, `IsExecOwner`'s file-mode query and the triangle's `Center` are not modelled.
- `NewBloom` only stores its three parameters. It is the constructor of `Bloom.BloomPostProcessor` and has no function of its own.
- `hittablePdf` delegates to list methods that are not part of this model. The world's light sampling is an oracle of `Shading.World`.
- Cameras.New: requires a non-zero image height, a non-zero view direction and a `vup` not along it, because Go yields NaN or an infinity there.
- Images.GammaChannel: requires a non-zero sample count, because the division is by that count. A negative accumulated channel gives Go's NaN under the square root, which is an unspecified real here.
- Bloom.PostProcess: requires a non-zero sample count, because its quantisation goes through `Images.ToRgba`, which divides by it. renderer/renderer.go:166-173 passes `samplesPerPixel` unchecked, so a render of zero samples with a post processor is not modelled. `Bloom.Combine`, `PostProcessPixel`, `ZeroMultiplierIsPlain`, `BorderUnbloomed` and `PostProcessLoops` carry the same requirement.
- Spheres.Hit: requires a non-zero radius, because the outward normal divides by it.
- Triangles.NewTriangle: requires non-parallel edges, because the normal and the area divide by the length of their cross product.
- Triangles.NewTriangleWithTexCoords: requires non-parallel edges for the same reason.
- Quads.NewQuad: its box is the padded box of all four corners (`CornerBox`, the corrected half of the hittable/quad.go:24 finding), not the two-corner box the code builds (`BoxAsWritten`). The two differ only when `q + u` or `q + v` lies outside the box of `q` and `q + u + v`. A quad with parallel edges gets the zero normal, offset and dual vector in place of Go's NaN ones; both are never hit.
- Rays.NewRay: requires a non-zero direction, because the unit vector divides by its length.
- Shading.ScatteredRay: when the mixture's sample has length 0, the ray keeps that zero vector as its direction. Go calls `NewRay` anyway (renderer/shader.go:43), and its `Unit` divides zero by zero into a NaN direction (geo/ray.go:13-14).
- Cameras.GetRay: when the lens point coincides with the viewport point, the ray keeps the zero vector as its direction. Go calls `NewRay` anyway (camera/camera.go:69), which gives a NaN direction.
- TraceTextures.Color: requires a checker scale other than zero and an image buffer of `width * height * 4` bytes, which every texture the package builds has. It reads the pixel at the clamped `ImageIndex` (the corrected half of the pkg/trace/texture.go:43-48 finding), not at `ImageIndexAsWritten`, which for `u = 1` or `v = 0` points past the buffer, where Go panics.
- TraceRender.RayColor: tests the sphere with the corrected `HitSphere` (the geometric dot product, the corrected half of the pkg/trace/vec3.go:35-37 finding), not with `HitSphereAsWritten`, whose `dot` adds the z components; so the rendered image is the intended one, not Go's.
- TraceRender.PixelColor: inherits the corrected sphere test of `RayColor`.
- TraceRender.RayTrace: requires an image at least 2 pixels wide and high, because `u` and `v` divide by one less than the width and the height. It inherits the corrected sphere test of `RayColor`. The row progress Go sends as `float32(y) / float32(imageHeight)` (pkg/trace/trace.go:80) is the exact ratio here.
- Shading.SimpleShade: scales by the corrected `SimpleFactor`, whose light direction is normalised (the corrected half of the renderer/shader.go:108-110 finding), not by `SimpleFactorAsWritten`, which can leave `[0.25, 1.25]`. `Shading.Shade` and `Shading.RayColor` inherit it for the simple shader.
- RotationsY.NewRotationY: requires a child box with finite bounds, which every box except that of an empty list or of a medium around one has. For an infinite bound, Go's corner formula `i*max + (1-i)*min` multiplies an infinity by zero, and `math.Min` and `math.Max` carry the NaN into the rotated box, which extended-real intervals cannot hold.
- TraceVectors.ChannelByte: Go leaves the conversion of an out-of-range float to `byte` implementation-defined, and here it gives `None`.
- Scenes.IsLight: renderer/renderer.go:221 calls `IsLight`, but the `Hittable` interface (hittable/hittable.go) and the sphere, quad, list, translation and motion-blur files define none. The model assumes a sphere or quad is a light when its material is, as a triangle is (hittable/triangle.go:150-152); that a translation or motion blur asks its object, as a rotation does (hittable/rotationY.go:108-110); and that a list is not a light.
- Workers.OnImage: requires the `n` workers of the "init" message to be registered, because the mean divides by `n`.
- ConstantMedia.FreeFlight: requires a draw in `[0, 1]` and a non-zero ray length, because the flight is divided by that length. A zero draw is admitted only with a positive density, where Go's infinite flight always misses.
- Materials.DielectricScatter: for an index of 0 met from the front requires a non-zero sine, because Go then refracts with the ratio `+Inf` into a NaN direction, which reals cannot hold. Every other index, -1 included, is modelled.
- Materials.Scatter: carries the same requirement for a zero-index dielectric, and a non-zero incoming direction for metals and dielectrics, whose unit vector divides by its length.
- ConstantMedia.Hit: for a zero density (factor `-Inf`) requires a draw below 1, because `-Inf * log(1)` is NaN and Go then scatters at a NaN distance, which reals cannot hold; a factor of `+Inf` is excluded because `NewConstantMedium` never builds one.

## Findings

| source | as written | input that shows it | evidently intended | confidence | as-written member | corrected member |
|---|---|---|---|---|---|---|
| random/random.go:32-35 | divides the 32-bit word by `MaxUint32`, so the draw can be exactly 1 | the word `0xFFFFFFFF` | a draw in `[0, 1)`, as the comment says | not executed | Random.RandomNormalFloatReachesOne | Random.RandomNormalFloatHalfOpen |
| hittable/hittableList.go:23-25 | `Clear` assigns `nil` to its local copy of the receiver and changes nothing | a list of one sphere keeps it after `Clear` | an empty list with the empty box | not executed | HittableLists.ClearAsWrittenKeepsElements | HittableLists.ClearThenAdd |
| hittable/triangle.go:145-148 | the two edge weights are independent draws in `[0, 1]`, so the sample covers the parallelogram | draws 0.9 and 0.9 | a point inside the triangle, by folding `a + b > 1` | not executed | Triangles.RandomDirectionLeavesTriangle | Triangles.RandomDirection |
| hittable/quad.go:24 | the box spans only the corners `Q` and `Q + u + v` | `u = (1, 0, 0)`, `v = (-1, 0, 1)`: the corner `Q + u` is outside | the box of all four corners | not executed | Quads.BoxAsWrittenMissesCorner | Quads.CornerBox |
| renderer/renderer.go:213-226 | `findLights` descends only into lists, so lights under a BVH are missed | a list holding a BVH of two lamps | every light of the scene is collected | not executed | Scenes.LightInBvhIsMissed | Scenes.NewRenderer |
| renderer/shader.go:108-110 | the light direction `(1, 1, -1)` is not normalised, so the factor is not in the commented range | the unit normal `(0.6, 0.8, 0)` gives 1.45 | a factor in `[0.25, 1.25]` | not executed | Shading.SimpleFactorExceedsComment | Shading.SimpleFactor |
| pkg/trace/scene.go:81 | the first pass converts colours with `toRgba(sample)` where `sample` is 0 | any render: pass 0 divides by 0 | divide by the number of samples taken, `sample + 1` | not executed | Rendering.TraceRenderAsWritten | Rendering.InternalRender |
| pkg/trace/vec3.go:35-37 | `dot` adds the z components instead of multiplying them | the ray from the camera straight at the sphere is reported as a miss | the geometric dot product | not executed | TraceRender.CentreRayMissesAsWritten | TraceRender.CentreRayHits |
| pkg/trace/vec3.go:39-45 | `cross` takes its operands in the opposite order | `x × y` gives `-z` | the right-handed cross product | not executed | TraceVectors.CrossAsWrittenIsNegated | TraceVectors.CrossIsRightHanded |
| pkg/trace/texture.go:43-48 | the pixel coordinates are not clamped below the image size | `v = 0` reads row `height`, past the buffer | the last row and column for coordinate 1 | not executed | TraceTextures.ImageIndexPastEnd | TraceTextures.ImageIndex |
| pkg/trace/bvh.go:16-47 | `createBvh` has no guard for an empty list, and the empty range splits into itself | an empty list | no tree for an empty list | not executed | TraceBvh.EmptyNeverReturns | TraceBvh.CreateBvh |
