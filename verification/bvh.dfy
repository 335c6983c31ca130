/** The bounding volume hierarchy (hittable/bvh.go): a binary tree of boxes
    over the elements of a list, built by sorting ranges along the axis of
    widest spread and splitting them in half, and hit by descending only into
    boxes the ray passes through.

    The tree is generic over the primitive type `T`.  The caller supplies each
    primitive's box as `box`, and `hit` as each primitive's answer to the ray
    `r` over a parameter interval. */
module Bvhs {
  import opened ExtReal
  import opened Intervals
  import opened Wrappers
  import opened Aabbs
  import opened Materials
  import opened HittableLists
  import Rays

  /** A node's two children are hittables: a primitive or another node.  A
      one-element range becomes a node whose children are the same
      primitive. */
  datatype Bvh<T> = Prim(p: T) | Node(left: Bvh<T>, right: Bvh<T>, bBox: Aabb)

  /** `BoundingBox`: a node's stored box, or the primitive's own box. */
  function BoxOf<T>(b: Bvh<T>, box: T -> Aabb): Aabb {
    match b
    case Prim(p) => box(p)
    case Node(_, _, bBox) => bBox
  }

  /** The primitives under `b`, left to right. */
  function Leaves<T>(b: Bvh<T>): seq<T> {
    match b
    case Prim(p) => [p]
    case Node(l, r, _) => Leaves(l) + Leaves(r)
  }

  /** The two sequences hold the same elements, ignoring order and
      repetition. */
  ghost predicate SameMembers<T>(a: seq<T>, b: seq<T>) {
    (forall i :: 0 <= i < |a| ==> a[i] in b) && (forall j :: 0 <= j < |b| ==> b[j] in a)
  }

  /** Every node's box is the combination of its children's boxes. */
  predicate WellBoxed<T>(b: Bvh<T>, box: T -> Aabb) {
    match b
    case Prim(_) => true
    case Node(l, r, bBox) =>
      bBox == CombineAabbs(BoxOf(l, box), BoxOf(r, box)) && WellBoxed(l, box) && WellBoxed(r, box)
  }

  /** A well-boxed tree's box encloses the box of every primitive below it. */
  lemma {:induction false} BoxEnclosesLeaves<T>(b: Bvh<T>, box: T -> Aabb, x: T)
    requires WellBoxed(b, box)
    requires x in Leaves(b)
    ensures AabbEncloses(BoxOf(b, box), box(x))
  {
    match b
    case Prim(_) =>
    case Node(l, r, bBox) =>
      if x in Leaves(l) {
        BoxEnclosesLeaves(l, box, x);
        AabbEnclosesTransitive(bBox, BoxOf(l, box), box(x));
      } else {
        BoxEnclosesLeaves(r, box, x);
        AabbEnclosesTransitive(bBox, BoxOf(r, box), box(x));
      }
  }

  // ----- traversal -----

  /** The interval the right child is searched in: up to the left child's
      hit when there is one. */
  function Narrowed(rayLength: Interval, rec: Option<HitRecord>): (n: Interval)
    ensures n.min == rayLength.min
    ensures rec.None? ==> n == rayLength
  {
    if rec.Some? then Interval(rayLength.min, Fin(rec.value.rayLength)) else rayLength
  }

  /** `Hit`: nothing when the ray misses the node's box; otherwise the left
      child over the whole interval, then the right child up to the left
      hit, a right hit overriding the left record. */
  function BvhHit<T>(b: Bvh<T>, r: Rays.Ray, hit: (T, Interval) -> Option<HitRecord>, rayLength: Interval): (rec: Option<HitRecord>)
    ensures b.Node? && !Aabbs.Hit(b.bBox, r, rayLength) ==> rec.None?
  {
    match b
    case Prim(p) => hit(p, rayLength)
    case Node(l, rt, bBox) =>
      if !Aabbs.Hit(bBox, r, rayLength) then None
      else
        var recL := BvhHit(l, r, hit, rayLength);
        var recR := BvhHit(rt, r, hit, Narrowed(rayLength, recL));
        if recR.Some? then recR else recL
  }

  /** The primitives of `b` hit the ray only strictly inside their boxes. */
  ghost predicate HitsInsideBoxes<T>(b: Bvh<T>, box: T -> Aabb, r: Rays.Ray, first: T -> Option<HitRecord>) {
    forall x :: x in Leaves(b) && first(x).Some? ==>
      StrictlyContainsPoint(box(x), Rays.At(r, first(x).value.rayLength))
  }

  /** What a traversal result promises over the primitives `items` and the
      interval `[lo, hi]`: a record comes from a primitive, lies in the
      interval and is no farther than any primitive hit up to `hi`; and,
      when the interval is not a single point, a miss means no primitive hits
      up to `hi`. */
  ghost predicate NearestUpTo<T>(rec: Option<HitRecord>, items: seq<T>, first: T -> Option<HitRecord>, lo: XReal, hi: XReal) {
    && (rec.Some? ==> Le(lo, Fin(rec.value.rayLength)) && Le(Fin(rec.value.rayLength), hi))
    && (rec.Some? ==> exists x :: x in items && rec == Clip(first(x), hi))
    && (rec.None? && Lt(lo, hi) ==> forall x :: x in items ==> Clip(first(x), hi).None?)
    && (rec.Some? ==> forall x :: x in items && Clip(first(x), hi).Some? ==>
                        rec.value.rayLength <= first(x).value.rayLength)
  }

  /** A node's result from its children's: the left child searched up to
      `hi`, the right child up to the left hit, a right hit winning. */
  lemma NodeCombine<T>(recL: Option<HitRecord>, recR: Option<HitRecord>, itemsL: seq<T>, itemsR: seq<T>,
                       first: T -> Option<HitRecord>, lo: XReal, hi: XReal)
    requires Le(lo, hi)
    requires forall x :: x in itemsL && first(x).Some? ==> Le(lo, Fin(first(x).value.rayLength))
    requires forall x :: x in itemsR && first(x).Some? ==> Le(lo, Fin(first(x).value.rayLength))
    requires NearestUpTo(recL, itemsL, first, lo, hi)
    requires NearestUpTo(recR, itemsR, first, lo, Narrowed(Interval(lo, hi), recL).max)
    ensures NearestUpTo(if recR.Some? then recR else recL, itemsL + itemsR, first, lo, hi)
  {
    var rec := if recR.Some? then recR else recL;
    var items := itemsL + itemsR;
    assert forall x :: x in items <==> x in itemsL || x in itemsR;
    if recL.None? {
      assert rec == recR;
      assert Narrowed(Interval(lo, hi), recL).max == hi;
      if rec.Some? {
        var x :| x in itemsR && rec == Clip(first(x), hi);
        assert x in items;
      }
      assert rec.None? && Lt(lo, hi) ==> forall x :: x in items ==> Clip(first(x), hi).None?;
      if rec.Some? {
        forall x | x in items && Clip(first(x), hi).Some?
          ensures rec.value.rayLength <= first(x).value.rayLength
        {
          if x in itemsL && !Lt(lo, hi) {
            LeAntisymmetric(lo, hi);
          }
        }
      }
    } else {
      var tL := recL.value.rayLength;
      if recR.Some? {
        var xR :| xR in itemsR && recR == Clip(first(xR), Fin(tL));
        LeTransitive(Fin(recR.value.rayLength), Fin(tL), hi);
        assert rec == Clip(first(xR), hi);
        assert xR in items;
      }
      assert rec.value.rayLength <= tL;
      assert Le(lo, Fin(rec.value.rayLength)) && Le(Fin(rec.value.rayLength), hi);
      if recR.None? {
        var x :| x in itemsL && rec == Clip(first(x), hi);
        assert x in items;
      }
      forall x | x in items && Clip(first(x), hi).Some?
        ensures rec.value.rayLength <= first(x).value.rayLength
      {
        var t := first(x).value.rayLength;
        if x in itemsR && t <= tL {
          assert Clip(first(x), Fin(tL)).Some?;
        }
      }
    }
  }

  /** A primitive hit in a non-degenerate interval passes the slab test of
      every box enclosing the primitive's box. */
  lemma LeafHitPassesBox<T>(b: Bvh<T>, box: T -> Aabb, r: Rays.Ray, first: T -> Option<HitRecord>, lo: XReal, hi: XReal, x: T)
    requires WellBoxed(b, box)
    requires x in Leaves(b)
    requires first(x).Some? ==> StrictlyContainsPoint(box(x), Rays.At(r, first(x).value.rayLength))
    requires first(x).Some? ==> Le(lo, Fin(first(x).value.rayLength))
    requires Lt(lo, hi)
    ensures Clip(first(x), hi).Some? ==> Aabbs.Hit(BoxOf(b, box), r, Interval(lo, hi))
  {
    if Clip(first(x), hi).Some? {
      var t := first(x).value.rayLength;
      BoxEnclosesLeaves(b, box, x);
      StrictlyInsideEnclosing(BoxOf(b, box), box(x), Rays.At(r, t));
      HitConservative(BoxOf(b, box), r, Interval(lo, hi), t);
    }
  }

  /** A box the ray misses over a non-degenerate interval holds no primitive
      hit in that interval. */
  lemma BoxMissMeansNoHit<T>(b: Bvh<T>, box: T -> Aabb, r: Rays.Ray, first: T -> Option<HitRecord>, lo: XReal, hi: XReal)
    requires WellBoxed(b, box)
    requires HitsInsideBoxes(b, box, r, first)
    requires forall x :: x in Leaves(b) && first(x).Some? ==> Le(lo, Fin(first(x).value.rayLength))
    requires Lt(lo, hi)
    requires !Aabbs.Hit(BoxOf(b, box), r, Interval(lo, hi))
    ensures forall x :: x in Leaves(b) ==> Clip(first(x), hi).None?
  {
    forall x | x in Leaves(b)
      ensures Clip(first(x), hi).None?
    {
      LeafHitPassesBox(b, box, r, first, lo, hi, x);
    }
  }

  /** The traversal keeps the nearest hit, by induction over the tree. */
  lemma {:induction false} BvhHitNearest<T>(b: Bvh<T>, box: T -> Aabb, r: Rays.Ray, hit: (T, Interval) -> Option<HitRecord>,
                                            first: T -> Option<HitRecord>, lo: XReal, hi: XReal)
    requires WellBoxed(b, box)
    requires AnswersNearest(Leaves(b), hit, lo, first)
    requires HitsInsideBoxes(b, box, r, first)
    requires Le(lo, hi)
    ensures NearestUpTo(BvhHit(b, r, hit, Interval(lo, hi)), Leaves(b), first, lo, hi)
  {
    match b
    case Prim(p) =>
      assert p in Leaves(b);
      assert BvhHit(b, r, hit, Interval(lo, hi)) == Clip(first(p), hi);
    case Node(l, rt, bBox) =>
      var rl := Interval(lo, hi);
      if !Aabbs.Hit(bBox, r, rl) {
        if Lt(lo, hi) {
          BoxMissMeansNoHit(b, box, r, first, lo, hi);
        }
      } else {
        var recL := BvhHit(l, r, hit, rl);
        BvhHitNearest(l, box, r, hit, first, lo, hi);
        var hi' := Narrowed(rl, recL).max;
        assert Narrowed(rl, recL) == Interval(lo, hi');
        BvhHitNearest(rt, box, r, hit, first, lo, hi');
        NodeCombine(recL, BvhHit(rt, r, hit, Interval(lo, hi')), Leaves(l), Leaves(rt), first, lo, hi);
      }
  }

  /** With a non-degenerate interval, the hierarchy returns a nearest hit
      among its primitives. */
  lemma BvhNearestIn<T>(b: Bvh<T>, box: T -> Aabb, r: Rays.Ray, hit: (T, Interval) -> Option<HitRecord>,
                        first: T -> Option<HitRecord>, rayLength: Interval)
    requires WellBoxed(b, box)
    requires AnswersNearest(Leaves(b), hit, rayLength.min, first)
    requires HitsInsideBoxes(b, box, r, first)
    requires Lt(rayLength.min, rayLength.max)
    ensures NearestIn(BvhHit(b, r, hit, rayLength), Leaves(b), first, rayLength.max)
  {
    BvhHitNearest(b, box, r, hit, first, rayLength.min, rayLength.max);
    assert Interval(rayLength.min, rayLength.max) == rayLength;
    var rec := BvhHit(b, r, hit, rayLength);
    if rec.Some? {
      var x :| x in Leaves(b) && rec == Clip(first(x), rayLength.max);
    }
  }

  lemma AnswersNearestSubset<T>(items: seq<T>, all: seq<T>, hit: (T, Interval) -> Option<HitRecord>, lo: XReal, first: T -> Option<HitRecord>)
    requires forall x :: x in items ==> x in all
    requires AnswersNearest(all, hit, lo, first)
    ensures AnswersNearest(items, hit, lo, first)
  {}

  /** The hierarchy and a list of the same primitives agree: both miss, or
      both hit at the same distance. */
  lemma BvhAgreesWithList<T>(b: Bvh<T>, hl: HittableList<T>, box: T -> Aabb, r: Rays.Ray,
                             hit: (T, Interval) -> Option<HitRecord>, first: T -> Option<HitRecord>, rayLength: Interval)
    requires SameMembers(Leaves(b), hl.list)
    requires WellBoxed(b, box)
    requires AnswersNearest(hl.list, hit, rayLength.min, first)
    requires HitsInsideBoxes(b, box, r, first)
    requires Lt(rayLength.min, rayLength.max)
    ensures BvhHit(b, r, hit, rayLength).None? <==> HittableLists.Hit(hl, hit, rayLength).None?
    ensures BvhHit(b, r, hit, rayLength).Some? ==>
      BvhHit(b, r, hit, rayLength).value.rayLength == HittableLists.Hit(hl, hit, rayLength).value.rayLength
  {
    var fromTree := BvhHit(b, r, hit, rayLength);
    var fromList := HittableLists.Hit(hl, hit, rayLength);
    var leaves := Leaves(b);
    assert NearestIn(fromTree, leaves, first, rayLength.max) by {
      AnswersNearestSubset(leaves, hl.list, hit, rayLength.min, first);
      BvhNearestIn(b, box, r, hit, first, rayLength);
    }
    assert NearestIn(fromList, hl.list, first, rayLength.max) by {
      ListHitNearest(hl, hit, first, rayLength);
    }
    NearestUnique(fromTree, leaves, fromList, hl.list, first, rayLength.max);
  }

  // ----- construction -----

  /** The sort key of axis 0, 1 or 2: the lower end of the box on that axis. */
  function Key<T>(box: T -> Aabb, axis: nat, x: T): XReal {
    if axis == 0 then box(x).x.min else if axis == 1 then box(x).y.min else box(x).z.min
  }

  predicate SortedBy<T>(s: seq<T>, box: T -> Aabb, axis: nat) {
    forall i, j :: 0 <= i < j < |s| ==> Le(Key(box, axis, s[i]), Key(box, axis, s[j]))
  }

  /** `x` inserted into a sorted sequence before the first larger key. */
  function Insert<T(==)>(s: seq<T>, x: T, box: T -> Aabb, axis: nat): (r: seq<T>)
    requires SortedBy(s, box, axis)
    ensures SortedBy(r, box, axis)
    ensures multiset(r) == multiset(s) + multiset{x}
    decreases |s|
  {
    if |s| == 0 then [x]
    else if Le(Key(box, axis, x), Key(box, axis, s[0])) then [x] + s
    else
      var rest := Insert(s[1..], x, box, axis);
      assert s == [s[0]] + s[1..];
      LeTotal(Key(box, axis, x), Key(box, axis, s[0]));
      forall y | y in rest
        ensures Le(Key(box, axis, s[0]), Key(box, axis, y))
      {
        assert y in multiset(s[1..]) + multiset{x};
      }
      [s[0]] + rest
  }

  /** `sortHittablesByBoundingBox`: any ordering of the elements by key.  The
      library sort is not stable, so the order among equal keys is not part
      of the contract. */
  method SortByKey<T(==)>(s: seq<T>, box: T -> Aabb, axis: nat) returns (t: seq<T>)
    ensures SortedBy(t, box, axis)
    ensures multiset(t) == multiset(s)
  {
    t := [];
    var i := 0;
    while i < |s|
      invariant 0 <= i <= |s|
      invariant SortedBy(t, box, axis)
      invariant multiset(t) == multiset(s[..i])
    {
      t := Insert(t, s[i], box, axis);
      assert s[..i + 1] == s[..i] + [s[i]];
      i := i + 1;
    }
    assert s[..|s|] == s;
  }

  /** The smallest key of `s`, `+Inf` when empty. */
  function MinKey<T>(s: seq<T>, box: T -> Aabb, axis: nat): XReal
    decreases |s|
  {
    if |s| == 0 then PosInf else ExtReal.Min(MinKey(s[..|s| - 1], box, axis), Key(box, axis, s[|s| - 1]))
  }

  /** The largest key of `s`, `-Inf` when empty. */
  function MaxKey<T>(s: seq<T>, box: T -> Aabb, axis: nat): XReal
    decreases |s|
  {
    if |s| == 0 then NegInf else ExtReal.Max(MaxKey(s[..|s| - 1], box, axis), Key(box, axis, s[|s| - 1]))
  }

  /** `MinKey` and `MaxKey` bound every key and are keys of `s`. */
  lemma {:induction false} KeyBounds<T>(s: seq<T>, box: T -> Aabb, axis: nat)
    ensures forall i :: 0 <= i < |s| ==> Le(MinKey(s, box, axis), Key(box, axis, s[i])) && Le(Key(box, axis, s[i]), MaxKey(s, box, axis))
    ensures |s| > 0 ==> exists i :: 0 <= i < |s| && MinKey(s, box, axis) == Key(box, axis, s[i])
    ensures |s| > 0 ==> exists i :: 0 <= i < |s| && MaxKey(s, box, axis) == Key(box, axis, s[i])
    decreases |s|
  {
    if |s| > 0 {
      var init := s[..|s| - 1];
      KeyBounds(init, box, axis);
      assert forall i :: 0 <= i < |init| ==> init[i] == s[i];
      var last := |s| - 1;
      if |init| > 0 {
        if MinKey(s, box, axis) != Key(box, axis, s[last]) {
          var i :| 0 <= i < |init| && MinKey(init, box, axis) == Key(box, axis, init[i]);
          assert MinKey(s, box, axis) == Key(box, axis, s[i]);
        }
        if MaxKey(s, box, axis) != Key(box, axis, s[last]) {
          var i :| 0 <= i < |init| && MaxKey(init, box, axis) == Key(box, axis, init[i]);
          assert MaxKey(s, box, axis) == Key(box, axis, s[i]);
        }
      } else {
        assert MinKey(s, box, axis) == Key(box, axis, s[last]);
        assert MaxKey(s, box, axis) == Key(box, axis, s[last]);
      }
      forall i | 0 <= i < |s|
        ensures Le(MinKey(s, box, axis), Key(box, axis, s[i])) && Le(Key(box, axis, s[i]), MaxKey(s, box, axis))
      {
        if i < |init| {
          LeTransitive(MinKey(s, box, axis), MinKey(init, box, axis), Key(box, axis, s[i]));
          LeTransitive(Key(box, axis, s[i]), MaxKey(init, box, axis), MaxKey(s, box, axis));
        }
      }
    }
  }

  /** `boundingBoxSpread`'s value: the largest minus the smallest key. */
  function Spread<T>(s: seq<T>, box: T -> Aabb, axis: nat): F64 {
    Sub(Num(MaxKey(s, box, axis)), Num(MinKey(s, box, axis)))
  }

  /** The spread of a non-empty range is not negative; it is NaN only when
      all keys are the same infinity. */
  lemma SpreadNonNegative<T>(s: seq<T>, box: T -> Aabb, axis: nat)
    requires |s| > 0
    ensures Spread(s, box, axis).Num? ==> Le(Fin(0.0), Spread(s, box, axis).x)
    ensures Spread(s, box, axis).NaN? ==> MinKey(s, box, axis) == MaxKey(s, box, axis)
  {
    KeyBounds(s, box, axis);
    LeTransitive(MinKey(s, box, axis), Key(box, axis, s[0]), MaxKey(s, box, axis));
  }

  /** `boundingBoxSpread`: the running minimum and maximum of the keys. */
  method BoundingBoxSpread<T>(s: seq<T>, box: T -> Aabb, axis: nat) returns (spread: F64)
    ensures spread == Spread(s, box, axis)
  {
    var min, max := PosInf, NegInf;
    var i := 0;
    while i < |s|
      invariant 0 <= i <= |s|
      invariant min == MinKey(s[..i], box, axis) && max == MaxKey(s[..i], box, axis)
    {
      assert s[..i + 1][..i] == s[..i];
      min := ExtReal.Min(min, Key(box, axis, s[i]));
      max := ExtReal.Max(max, Key(box, axis, s[i]));
      i := i + 1;
    }
    assert s[..|s|] == s;
    spread := Sub(Num(max), Num(min));
  }

  /** The axis choice: x when its spread is at least both others, else y
      when at least both others, else z.  A NaN spread loses every
      comparison. */
  function ChooseAxis(xSpread: F64, ySpread: F64, zSpread: F64): (axis: nat)
    ensures axis < 3
  {
    if FLe(ySpread, xSpread) && FLe(zSpread, xSpread) then 0
    else if FLe(xSpread, ySpread) && FLe(zSpread, ySpread) then 1
    else 2
  }

  function Pick(axis: nat, xSpread: F64, ySpread: F64, zSpread: F64): F64 {
    if axis == 0 then xSpread else if axis == 1 then ySpread else zSpread
  }

  /** Without NaN the chosen axis has the widest spread, and ties go to the
      earlier axis. */
  lemma ChooseAxisWidest(xSpread: F64, ySpread: F64, zSpread: F64)
    requires xSpread.Num? && ySpread.Num? && zSpread.Num?
    ensures var a := ChooseAxis(xSpread, ySpread, zSpread);
            && FLe(xSpread, Pick(a, xSpread, ySpread, zSpread))
            && FLe(ySpread, Pick(a, xSpread, ySpread, zSpread))
            && FLe(zSpread, Pick(a, xSpread, ySpread, zSpread))
            && (forall b :: 0 <= b < a ==> FLt(Pick(b, xSpread, ySpread, zSpread), Pick(a, xSpread, ySpread, zSpread)))
  {
    LeTotal(xSpread.x, ySpread.x);
    LeTotal(xSpread.x, zSpread.x);
    LeTotal(ySpread.x, zSpread.x);
  }

  /** `sortHittablesSliceByMostSpreadAxis`: the range `[start, end)` is
      reordered by the key of the axis `choose` picks from the three spreads
      (`ChooseAxis` here, a stricter rule in pkg/trace/bvh.go); the rest of
      the list is untouched. */
  method SortByMostSpreadAxis<T(==)>(list: seq<T>, start: nat, end: nat, box: T -> Aabb, choose: (F64, F64, F64) -> nat)
    returns (out: seq<T>, axis: nat)
    requires start <= end <= |list|
    ensures axis == choose(Spread(list[start..end], box, 0), Spread(list[start..end], box, 1), Spread(list[start..end], box, 2))
    ensures |out| == |list|
    ensures out[..start] == list[..start] && out[end..] == list[end..]
    ensures multiset(out[start..end]) == multiset(list[start..end])
    ensures SortedBy(out[start..end], box, axis)
  {
    var slice := list[start..end];
    var xSpread := BoundingBoxSpread(slice, box, 0);
    var ySpread := BoundingBoxSpread(slice, box, 1);
    var zSpread := BoundingBoxSpread(slice, box, 2);
    axis := choose(xSpread, ySpread, zSpread);
    var sorted := SortByKey(slice, box, axis);
    assert |sorted| == |slice| by {
      assert |multiset(sorted)| == |multiset(slice)|;
    }
    out := list[..start] + sorted + list[end..];
    assert out[start..end] == sorted;
    assert out[..start] == list[..start];
    assert out[end..] == list[end..];
  }

  /** `_createBvh` over the non-empty range `[start, end)`: returns the tree
      and the list as reordered by the sorts, which touch only the range.
      The tree holds exactly the range's elements and every box is the
      combination of its children's boxes. */
  method CreateBvh<T(==)>(list: seq<T>, start: nat, end: nat, box: T -> Aabb, choose: (F64, F64, F64) -> nat) returns (b: Bvh<T>, out: seq<T>)
    requires start < end <= |list|
    ensures |out| == |list|
    ensures out[..start] == list[..start] && out[end..] == list[end..]
    ensures multiset(out[start..end]) == multiset(list[start..end])
    ensures SameMembers(Leaves(b), out[start..end])
    ensures b.Node? && WellBoxed(b, box)
    decreases end - start
  {
    var n := end - start;
    if n == 1 {
      b := Node(Prim(list[start]), Prim(list[start]), box(list[start]));
      CombineAabbsSelf(box(list[start]));
      out := list;
      assert out[start..end] == [list[start]];
    } else if n == 2 {
      var axis;
      out, axis := SortByMostSpreadAxis(list, start, end, box, choose);
      b := Node(Prim(out[start]), Prim(out[start + 1]), CombineAabbs(box(out[start]), box(out[start + 1])));
      assert out[start..end] == [out[start], out[start + 1]];
    } else {
      var sorted, axis := SortByMostSpreadAxis(list, start, end, box, choose);
      var mid := start + n / 2;
      assert start < mid < end;
      var left, out1 := CreateBvh(sorted, start, mid, box, choose);
      var right, out2 := CreateBvh(out1, mid, end, box, choose);
      b := Node(left, right, CombineAabbs(BoxOf(left, box), BoxOf(right, box)));
      out := out2;
      SplitRange(list, sorted, out1, out2, start, mid, end);
      ConcatMembers(Leaves(left), Leaves(right), out, start, mid, end);
    }
  }

  /** The bookkeeping of the recursive case: sorting `[start, end)`, then
      rebuilding `[start, mid)` and `[mid, end)`, permutes only the range. */
  lemma SplitRange<T>(list: seq<T>, sorted: seq<T>, out1: seq<T>, out2: seq<T>, start: nat, mid: nat, end: nat)
    requires start < mid < end <= |list|
    requires |sorted| == |list| && |out1| == |list| && |out2| == |list|
    requires sorted[..start] == list[..start] && sorted[end..] == list[end..]
    requires multiset(sorted[start..end]) == multiset(list[start..end])
    requires out1[..start] == sorted[..start] && out1[mid..] == sorted[mid..]
    requires multiset(out1[start..mid]) == multiset(sorted[start..mid])
    requires out2[..mid] == out1[..mid] && out2[end..] == out1[end..]
    requires multiset(out2[mid..end]) == multiset(out1[mid..end])
    ensures out2[..start] == list[..start] && out2[end..] == list[end..]
    ensures multiset(out2[start..end]) == multiset(list[start..end])
    ensures out2[start..mid] == out1[start..mid]
    ensures forall x :: x in out2[start..end] <==> x in out2[start..mid] || x in out2[mid..end]
  {
    assert out2[..start] == out2[..mid][..start];
    assert out1[..start] == out1[..mid][..start];
    assert out2[start..mid] == out2[..mid][start..];
    assert out1[start..mid] == out1[..mid][start..];
    assert out2[end..] == out1[end..];
    assert out1[end..] == out1[mid..][end - mid..];
    assert sorted[end..] == sorted[mid..][end - mid..];
    assert out2[start..end] == out2[start..mid] + out2[mid..end];
    assert out1[start..end] == out1[start..mid] + out1[mid..end];
    assert sorted[start..end] == sorted[start..mid] + sorted[mid..end];
    assert out1[mid..end] == out1[mid..][..end - mid];
    assert sorted[mid..end] == sorted[mid..][..end - mid];
  }

  lemma ConcatMembers<T>(a: seq<T>, b: seq<T>, out: seq<T>, start: nat, mid: nat, end: nat)
    requires start <= mid <= end <= |out|
    requires SameMembers(a, out[start..mid])
    requires SameMembers(b, out[mid..end])
    ensures SameMembers(a + b, out[start..end])
  {
    assert out[start..end] == out[start..mid] + out[mid..end];
  }

  /** `NewBoundingVolumeHierarchy`: no tree for an empty list (where the
      source panics); otherwise a well-boxed tree over exactly the list's
      elements. */
  method NewBoundingVolumeHierarchy<T(==)>(hl: HittableList<T>, box: T -> Aabb) returns (b: Option<Bvh<T>>)
    ensures b.None? <==> |hl.list| == 0
    ensures b.Some? ==> WellBoxed(b.value, box)
    ensures b.Some? ==> SameMembers(Leaves(b.value), hl.list)
  {
    if |hl.list| == 0 {
      return None;
    }
    var tree, out := CreateBvh(hl.list, 0, |hl.list|, box, ChooseAxis);
    WholeRangeMembers(hl.list, out, Leaves(tree));
    b := Some(tree);
  }

  /** A tree over the whole reordered list holds exactly the list's
      elements. */
  lemma WholeRangeMembers<T>(list: seq<T>, out: seq<T>, leaves: seq<T>)
    requires |out| == |list|
    requires multiset(out[0..|list|]) == multiset(list[0..|list|])
    requires SameMembers(leaves, out[0..|list|])
    ensures SameMembers(leaves, list)
  {
    assert out[0..|list|] == out;
    assert list[0..|list|] == list;
    forall i | 0 <= i < |out|
      ensures out[i] in list
    {
      assert out[i] in multiset(out);
    }
    forall j | 0 <= j < |list|
      ensures list[j] in out
    {
      assert list[j] in multiset(list);
    }
  }

  /** A hierarchy is never a light, whatever it holds. */
  predicate IsLight<T>(b: Bvh<T>) {
    false
  }
}
