/** The hittable list (hittable/hittableList.go): a sequence of hittables
    with a box around all of them, hit by a linear scan for the nearest
    intersection.

    The list is generic over the element type `T`.  The caller supplies each
    element's bounding box as `box`, and `hit` as each element's answer to
    one fixed ray over a parameter interval. */
module HittableLists {
  import opened ExtReal
  import opened Intervals
  import opened Wrappers
  import opened Aabbs
  import opened Materials

  datatype HittableList<T> = HittableList(list: seq<T>, bBox: Aabb)

  /** `NewHittableList`: no elements and the empty box. */
  function NewHittableList<T>(): (hl: HittableList<T>)
    ensures hl.list == [] && hl.bBox == EmptyAabb
  {
    HittableList([], EmptyAabb)
  }

  /** The list's box encloses the box of every element. */
  predicate BoxCovers<T>(hl: HittableList<T>, box: T -> Aabb) {
    forall i :: 0 <= i < |hl.list| ==> AabbEncloses(hl.bBox, box(hl.list[i]))
  }

  /** `Add`: appends `h` and grows the box to take in `h`'s box.  The box
      keeps covering every element. */
  function Add<T>(hl: HittableList<T>, h: T, box: T -> Aabb): (r: HittableList<T>)
    ensures r.list == hl.list + [h]
    ensures AabbEncloses(r.bBox, hl.bBox) && AabbEncloses(r.bBox, box(h))
    ensures BoxCovers(hl, box) ==> BoxCovers(r, box)
  {
    var r := HittableList(hl.list + [h], CombineAabbs(hl.bBox, box(h)));
    AddCovers(hl, h, box, r);
    r
  }

  lemma AddCovers<T>(hl: HittableList<T>, h: T, box: T -> Aabb, r: HittableList<T>)
    requires r.list == hl.list + [h]
    requires AabbEncloses(r.bBox, hl.bBox) && AabbEncloses(r.bBox, box(h))
    ensures BoxCovers(hl, box) ==> BoxCovers(r, box)
  {
    if BoxCovers(hl, box) {
      forall i | 0 <= i < |r.list|
        ensures AabbEncloses(r.bBox, box(r.list[i]))
      {
        if i < |hl.list| {
          AabbEnclosesTransitive(r.bBox, hl.bBox, box(hl.list[i]));
        }
      }
    }
  }

  /** A list built by adding `items` one by one to a new list. */
  function FromSeq<T>(items: seq<T>, box: T -> Aabb): HittableList<T>
    decreases |items|
  {
    if |items| == 0 then NewHittableList()
    else Add(FromSeq(items[..|items| - 1], box), items[|items| - 1], box)
  }

  /** Adding items one by one keeps them in order, and the resulting box
      covers each of them. */
  lemma FromSeqCovers<T>(items: seq<T>, box: T -> Aabb)
    ensures FromSeq(items, box).list == items
    ensures BoxCovers(FromSeq(items, box), box)
  {
    FromSeqList(items, box);
    FromSeqBoxCovers(items, box);
  }

  lemma {:induction false} FromSeqList<T>(items: seq<T>, box: T -> Aabb)
    ensures FromSeq(items, box).list == items
    decreases |items|
  {
    if |items| > 0 {
      var init, last := items[..|items| - 1], items[|items| - 1];
      FromSeqList(init, box);
      assert init + [last] == items;
    }
  }

  lemma {:induction false} FromSeqBoxCovers<T>(items: seq<T>, box: T -> Aabb)
    ensures BoxCovers(FromSeq(items, box), box)
    decreases |items|
  {
    if |items| > 0 {
      FromSeqBoxCovers(items[..|items| - 1], box);
    }
  }

  /** The box of a list built by adding `items` is no larger than any box
      that encloses every item's box. */
  lemma {:induction false} FromSeqSmallest<T>(items: seq<T>, box: T -> Aabb, other: Aabb)
    requires forall i :: 0 <= i < |items| ==> AabbEncloses(other, box(items[i]))
    ensures AabbEncloses(other, FromSeq(items, box).bBox)
    decreases |items|
  {
    if |items| == 0 {
      assert AabbEncloses(other, EmptyAabb);
    } else {
      var init := items[..|items| - 1];
      assert forall i :: 0 <= i < |init| ==> init[i] == items[i];
      FromSeqSmallest(init, box, other);
      CombineAabbsSmallest(FromSeq(init, box).bBox, box(items[|items| - 1]), other);
    }
  }

  /** `Clear` as the source writes it: assigning nil to the method's own
      receiver variable leaves the caller's list unchanged. */
  function ClearAsWritten<T>(hl: HittableList<T>): (r: HittableList<T>)
    ensures r.list == hl.list && r.bBox == hl.bBox
  {
    hl
  }

  /** After `Clear` as written, a list with an element still has it. */
  lemma ClearAsWrittenKeepsElements<T>(h: T, box: T -> Aabb)
    ensures |ClearAsWritten(Add(NewHittableList(), h, box)).list| == 1
  {}

  /** `Clear` as intended: the list of a new `NewHittableList`. */
  function Clear<T>(hl: HittableList<T>): (r: HittableList<T>)
    ensures r.list == [] && r.bBox == EmptyAabb
  {
    NewHittableList()
  }

  /** After a clear, a list holds exactly what is added next. */
  lemma ClearThenAdd<T>(hl: HittableList<T>, h: T, box: T -> Aabb)
    ensures Add(Clear(hl), h, box).list == [h]
    ensures Add(Clear(hl), h, box).bBox == box(h)
  {
    CombineAabbsSmallest(EmptyAabb, box(h), box(h));
  }

  function BoundingBox<T>(hl: HittableList<T>): Aabb {
    hl.bBox
  }

  // ----- the nearest-hit scan -----

  /** The scan of `Hit` from `items` on: `best` is the nearest record so far
      and every query uses the caller's lower bound `lo` and the nearest
      distance so far, `closest`, as upper bound.  A later hit at the same
      distance replaces the earlier one. */
  function Scan<T>(items: seq<T>, hit: (T, Interval) -> Option<HitRecord>,
                   lo: XReal, closest: XReal, best: Option<HitRecord>): Option<HitRecord>
    decreases |items|
  {
    if |items| == 0 then best
    else
      var rec := hit(items[0], Interval(lo, closest));
      if rec.Some? then Scan(items[1..], hit, lo, Fin(rec.value.rayLength), rec)
      else Scan(items[1..], hit, lo, closest, best)
  }

  /** `Hit`: the scan over the whole list, starting from the caller's
      interval.  `Some` plays the role of the `(true, record)` result. */
  function Hit<T>(hl: HittableList<T>, hit: (T, Interval) -> Option<HitRecord>, rayLength: Interval): (rec: Option<HitRecord>)
    ensures rec.None? <==> forall i :: 0 <= i < |hl.list| ==> hit(hl.list[i], rayLength).None?
  {
    ScanMisses(hl.list, hit, rayLength.min, rayLength.max, None);
    Scan(hl.list, hit, rayLength.min, rayLength.max, None)
  }

  /** A scan ends without a record exactly when it started without one and
      no element answers the unnarrowed query. */
  lemma {:induction false} ScanMisses<T>(items: seq<T>, hit: (T, Interval) -> Option<HitRecord>,
                                         lo: XReal, c: XReal, best: Option<HitRecord>)
    ensures Scan(items, hit, lo, c, best).None?
            <==> best.None? && forall i :: 0 <= i < |items| ==> hit(items[i], Interval(lo, c)).None?
    decreases |items|
  {
    if |items| > 0 {
      var rec := hit(items[0], Interval(lo, c));
      if rec.Some? {
        ScanMisses(items[1..], hit, lo, Fin(rec.value.rayLength), rec);
      } else {
        ScanMisses(items[1..], hit, lo, c, best);
        assert forall i :: 0 <= i < |items[1..]| ==> items[1..][i] == items[i + 1];
      }
    }
  }

  /** Every record a scan returns is its starting record or the answer of one
      of its elements to a query with the caller's lower bound. */
  lemma {:induction false} ScanFromElement<T>(items: seq<T>, hit: (T, Interval) -> Option<HitRecord>,
                                              lo: XReal, c: XReal, best: Option<HitRecord>)
    ensures var r := Scan(items, hit, lo, c, best);
            r == best || exists i, hi :: 0 <= i < |items| && r == hit(items[i], Interval(lo, hi))
    decreases |items|
  {
    if |items| > 0 {
      var rec := hit(items[0], Interval(lo, c));
      var r := Scan(items, hit, lo, c, best);
      if rec.Some? {
        ScanFromElement(items[1..], hit, lo, Fin(rec.value.rayLength), rec);
        if r != rec && r != best {
          var i, hi :| 0 <= i < |items[1..]| && r == hit(items[1..][i], Interval(lo, hi));
          assert r == hit(items[i + 1], Interval(lo, hi));
        }
      } else {
        ScanFromElement(items[1..], hit, lo, c, best);
        if r != best {
          var i, hi :| 0 <= i < |items[1..]| && r == hit(items[1..][i], Interval(lo, hi));
          assert r == hit(items[i + 1], Interval(lo, hi));
        }
      }
    }
  }

  /** The record `Hit` returns is one an element produced. */
  lemma HitFromElement<T>(hl: HittableList<T>, hit: (T, Interval) -> Option<HitRecord>, rayLength: Interval)
    ensures var r := Hit(hl, hit, rayLength);
            r.Some? ==> exists i, hi :: 0 <= i < |hl.list| && r == hit(hl.list[i], Interval(rayLength.min, hi))
  {
    ScanFromElement(hl.list, hit, rayLength.min, rayLength.max, None);
  }

  // ----- nearest hits -----

  /** A record kept only when it is not beyond `hi`. */
  function Clip(first: Option<HitRecord>, hi: XReal): (r: Option<HitRecord>)
    ensures r.Some? <==> first.Some? && Le(Fin(first.value.rayLength), hi)
    ensures r.Some? ==> r == first
  {
    if first.Some? && Le(Fin(first.value.rayLength), hi) then first else None
  }

  /** How every primitive answers a query with lower bound `lo`: `first(x)` is
      `x`'s nearest hit at or beyond `lo`, and the query `[lo, hi]` returns it
      when it is not beyond `hi`. */
  ghost predicate AnswersNearest<T>(items: seq<T>, hit: (T, Interval) -> Option<HitRecord>, lo: XReal, first: T -> Option<HitRecord>) {
    && (forall x, hi :: x in items ==> hit(x, Interval(lo, hi)) == Clip(first(x), hi))
    && (forall x :: x in items && first(x).Some? ==> Le(lo, Fin(first(x).value.rayLength)))
  }

  /** `rec` is a nearest hit among `items` up to `hi`: none exactly when no
      item has a hit up to `hi`, otherwise one of those hits, and no farther
      than any of them. */
  ghost predicate NearestIn<T>(rec: Option<HitRecord>, items: seq<T>, first: T -> Option<HitRecord>, hi: XReal) {
    && (rec.None? <==> forall x :: x in items ==> Clip(first(x), hi).None?)
    && (rec.Some? ==> exists x :: x in items && rec == Clip(first(x), hi))
    && (rec.Some? ==> forall x :: x in items && Clip(first(x), hi).Some? ==>
                        rec.value.rayLength <= first(x).value.rayLength)
  }

  /** The scan keeps the nearest record: the invariant of `Hit`'s loop. */
  lemma {:induction false} ScanNearest<T>(items: seq<T>, hit: (T, Interval) -> Option<HitRecord>, lo: XReal,
                                          first: T -> Option<HitRecord>, c: XReal, best: Option<HitRecord>)
    requires AnswersNearest(items, hit, lo, first)
    requires best.Some? ==> c == Fin(best.value.rayLength)
    ensures var r := Scan(items, hit, lo, c, best);
            && (r.None? <==> best.None? && forall x :: x in items ==> Clip(first(x), c).None?)
            && (r.Some? ==> Le(Fin(r.value.rayLength), c))
            && (r.Some? ==> r == best || exists x :: x in items && r == Clip(first(x), c))
            && (r.Some? ==> forall x :: x in items && Clip(first(x), c).Some? ==>
                              r.value.rayLength <= first(x).value.rayLength)
    decreases |items|
  {
    if |items| > 0 {
      var head, rest := items[0], items[1..];
      assert items == [head] + rest;
      assert forall x :: x in items <==> x == head || x in rest;
      var rec := hit(head, Interval(lo, c));
      assert rec == Clip(first(head), c);
      var r := Scan(items, hit, lo, c, best);
      if rec.Some? {
        var t := rec.value.rayLength;
        ScanNearest(rest, hit, lo, first, Fin(t), rec);
        assert r == Scan(rest, hit, lo, Fin(t), rec);
        LeTransitive(Fin(r.value.rayLength), Fin(t), c);
        forall x | x in rest && Clip(first(x), Fin(t)).Some?
          ensures Clip(first(x), c) == Clip(first(x), Fin(t))
        {
          LeTransitive(Fin(first(x).value.rayLength), Fin(t), c);
        }
      } else {
        ScanNearest(rest, hit, lo, first, c, best);
      }
    }
  }

  /** `Hit` returns the nearest hit among the list's elements within the
      caller's interval. */
  lemma ListHitNearest<T>(hl: HittableList<T>, hit: (T, Interval) -> Option<HitRecord>,
                          first: T -> Option<HitRecord>, rayLength: Interval)
    requires AnswersNearest(hl.list, hit, rayLength.min, first)
    ensures NearestIn(Hit(hl, hit, rayLength), hl.list, first, rayLength.max)
    ensures Hit(hl, hit, rayLength).Some? ==> Contains(rayLength, Hit(hl, hit, rayLength).value.rayLength)
  {
    ScanNearest(hl.list, hit, rayLength.min, first, rayLength.max, None);
  }

  /** Two nearest hits over the same elements agree: both miss, or both hit
      at the same distance. */
  lemma NearestUnique<T>(r1: Option<HitRecord>, items1: seq<T>, r2: Option<HitRecord>, items2: seq<T>,
                         first: T -> Option<HitRecord>, hi: XReal)
    requires forall x :: x in items1 <==> x in items2
    requires NearestIn(r1, items1, first, hi) && NearestIn(r2, items2, first, hi)
    ensures r1.None? <==> r2.None?
    ensures r1.Some? ==> r1.value.rayLength == r2.value.rayLength
  {
    if r1.Some? {
      var x1 :| x1 in items1 && r1 == Clip(first(x1), hi);
      assert x1 in items2;
      var x2 :| x2 in items2 && r2 == Clip(first(x2), hi);
      assert x2 in items1;
    }
  }
}
