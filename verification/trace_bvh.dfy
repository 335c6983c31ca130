/** The bounding volume hierarchy of the older package (pkg/trace/bvh.go).
    It is built like the one of hittable/bvh.go, with two differences: the
    axis rule uses strict comparisons, and the entry point has no guard
    against an empty list. */
module TraceBvh {
  import opened ExtReal
  import opened Wrappers
  import opened Aabbs
  import Bvhs

  // ----- the axis rule -----

  /** The axis of pkg/trace/bvh.go:56-62: x only when its spread is strictly
      larger than both others, then y likewise, and z otherwise. */
  function ChooseAxisStrict(xSpread: F64, ySpread: F64, zSpread: F64): (axis: nat)
    ensures axis < 3
  {
    if FLt(ySpread, xSpread) && FLt(zSpread, xSpread) then 0
    else if FLt(xSpread, ySpread) && FLt(zSpread, ySpread) then 1
    else 2
  }

  /** An axis whose spread is strictly the widest is the one chosen, and an
      axis other than z is chosen only when it is strictly the widest. */
  lemma ChooseAxisStrictWidest(xSpread: F64, ySpread: F64, zSpread: F64, a: nat)
    requires a < 3
    ensures var chosen := ChooseAxisStrict(xSpread, ySpread, zSpread);
            (forall b :: 0 <= b < 3 && b != a ==> FLt(Bvhs.Pick(b, xSpread, ySpread, zSpread), Bvhs.Pick(a, xSpread, ySpread, zSpread)))
            ==> chosen == a
    ensures var chosen := ChooseAxisStrict(xSpread, ySpread, zSpread);
            chosen != 2 ==> forall b :: 0 <= b < 3 && b != chosen ==>
                              FLt(Bvhs.Pick(b, xSpread, ySpread, zSpread), Bvhs.Pick(chosen, xSpread, ySpread, zSpread))
  {
    var x, y, z := xSpread, ySpread, zSpread;
    assert Bvhs.Pick(0, x, y, z) == x && Bvhs.Pick(1, x, y, z) == y && Bvhs.Pick(2, x, y, z) == z;
    FLtAsymmetric(x, y);
    FLtAsymmetric(x, z);
    FLtAsymmetric(y, z);
  }

  lemma FLtAsymmetric(a: F64, b: F64)
    ensures !(FLt(a, b) && FLt(b, a))
  {
    if FLt(a, b) && FLt(b, a) {
      LeAntisymmetric(a.x, b.x);
    }
  }

  /** When x and y tie for the widest spread, the strict rule sorts along z,
      the narrowest axis, where the rule of hittable/bvh.go sorts along x. */
  lemma TieChoosesNarrowest(wide: real, narrow: real)
    requires narrow < wide
    ensures ChooseAxisStrict(FromReal(wide), FromReal(wide), FromReal(narrow)) == 2
    ensures Bvhs.ChooseAxis(FromReal(wide), FromReal(wide), FromReal(narrow)) == 0
  {}

  // ----- the recursion -----

  /** The shape of `_createBvh`'s recursion, as written, over `[start, end)`:
      one or two elements end it, any other count (zero included) splits
      at `start + n / 2` and recurses on both halves.  The number of calls
      made, or `None` when the recursion is deeper than `fuel` levels. */
  function CallsAsWritten(start: int, end: int, fuel: nat): (calls: Option<nat>)
    requires start <= end
    ensures calls.Some? ==> calls.value >= 1
    decreases fuel
  {
    var n := end - start;
    if n == 1 || n == 2 then Some(1)
    else if fuel == 0 then None
    else
      var mid := start + n / 2;
      var left := CallsAsWritten(start, mid, fuel - 1);
      var right := CallsAsWritten(mid, end, fuel - 1);
      if left.Some? && right.Some? then Some(1 + left.value + right.value) else None
  }

  /** On an empty range the first half is the empty range itself, so no
      depth of recursion suffices: `createBvh` of an empty list does not
      return. */
  lemma {:induction false} EmptyNeverReturns(start: int, fuel: nat)
    ensures CallsAsWritten(start, start, fuel) == None
    decreases fuel
  {
    if fuel > 0 {
      EmptyNeverReturns(start, fuel - 1);
    }
  }

  /** A non-empty range returns within as many levels as it has elements,
      making fewer than twice as many calls. */
  lemma {:induction false} NonEmptyReturns(start: int, end: int, fuel: nat)
    requires start < end && end - start <= fuel
    ensures CallsAsWritten(start, end, fuel).Some?
    ensures CallsAsWritten(start, end, fuel).value < 2 * (end - start)
    decreases fuel
  {
    var n := end - start;
    if n != 1 && n != 2 {
      var mid := start + n / 2;
      NonEmptyReturns(start, mid, fuel - 1);
      NonEmptyReturns(mid, end, fuel - 1);
    }
  }

  /** `createBvh` with the guard it lacks: no tree for an empty list;
      otherwise `_createBvh` over the whole list with the strict axis rule,
      giving a tree whose node boxes are the unions of their children's and
      whose leaves are exactly the list's elements. */
  method CreateBvh<T(==)>(list: seq<T>, box: T -> Aabb) returns (b: Option<Bvhs.Bvh<T>>)
    ensures b.None? <==> |list| == 0
    ensures b.Some? ==> b.value.Node? && Bvhs.WellBoxed(b.value, box)
    ensures b.Some? ==> Bvhs.SameMembers(Bvhs.Leaves(b.value), list)
  {
    if |list| == 0 {
      return None;
    }
    var tree, out := Bvhs.CreateBvh(list, 0, |list|, box, ChooseAxisStrict);
    Bvhs.WholeRangeMembers(list, out, Bvhs.Leaves(tree));
    b := Some(tree);
  }

  /** `sortHittablesSliceByMostSpreadAxis` with the strict rule: the range is
      sorted along the chosen axis and nothing outside it moves. */
  method SortByMostSpreadAxis<T(==)>(list: seq<T>, start: nat, end: nat, box: T -> Aabb) returns (out: seq<T>, axis: nat)
    requires start <= end <= |list|
    ensures axis < 3
    ensures |out| == |list| && out[..start] == list[..start] && out[end..] == list[end..]
    ensures multiset(out[start..end]) == multiset(list[start..end])
    ensures Bvhs.SortedBy(out[start..end], box, axis)
    ensures axis != 2 ==> forall b :: 0 <= b < 3 && b != axis ==>
              FLt(Bvhs.Spread(list[start..end], box, b), Bvhs.Spread(list[start..end], box, axis))
  {
    out, axis := Bvhs.SortByMostSpreadAxis(list, start, end, box, ChooseAxisStrict);
    var s := list[start..end];
    ChooseAxisStrictWidest(Bvhs.Spread(s, box, 0), Bvhs.Spread(s, box, 1), Bvhs.Spread(s, box, 2), axis);
    assert forall b :: 0 <= b < 3 ==> Bvhs.Spread(s, box, b) == Bvhs.Pick(b, Bvhs.Spread(s, box, 0), Bvhs.Spread(s, box, 1), Bvhs.Spread(s, box, 2));
  }
}
