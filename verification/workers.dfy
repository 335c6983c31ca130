/** The browser's trace coordinator (web/multiTraceWorker.js): it splits the
    image into horizontal bands, one per trace worker, tells the page when
    every worker is ready, and reports the mean progress of the workers.

    JavaScript numbers become integers and reals; `Math.floor(a / n)` for a
    positive `n` is Dafny's `/`, and `%` keeps the sign of the dividend, as
    JavaScript's does.  Spawning workers and posting messages are left out:
    each handler returns the state it leaves and what it would post. */
module Workers {
  import opened Wrappers

  /** `numWorkers`: the available concurrency minus the coordinator's own
      thread and the page's, and at least one. */
  function NumWorkers(availableConcurrency: int): (n: int)
    ensures n >= 1
    ensures availableConcurrency >= 3 ==> n == availableConcurrency - 2
    ensures availableConcurrency < 3 ==> n == 1
  {
    if availableConcurrency - 2 > 1 then availableConcurrency - 2 else 1
  }

  /** JavaScript's `a % n`: the remainder of the division truncated toward
      zero, with the sign of `a`. */
  function JsRemainder(a: int, n: int): (r: int)
    requires n > 0
    ensures 0 <= a ==> 0 <= r < n && a == n * (a / n) + r
    ensures a < 0 ==> -n < r <= 0
  {
    if 0 <= a then a % n else -((-a) % n)
  }

  // ----- the row bands -----

  /** The `specification` sent to a trace worker: the image size and the
      rectangle it draws. */
  datatype Specification = Specification(
    imageWidth: int,
    imageHeight: int,
    drawOffsetX: int,
    drawOffsetY: int,
    drawWidth: int,
    drawHeight: int
  )

  /** The specification of worker `i` of `n`: full-width band starting at
      row `i * floor(height / n)`, `floor(height / n)` rows high, the last
      band also taking the remainder. */
  function BandOf(width: int, height: int, n: int, i: int): Specification
    requires n >= 1
  {
    var drawHeight := height / n;
    var drawHeightRemainder := JsRemainder(height, n);
    Specification(width, height, 0, i * drawHeight, width, drawHeight + (if i == n - 1 then drawHeightRemainder else 0))
  }

  /** The specifications of the `n` workers, in worker order. */
  function Bands(width: int, height: int, n: int): (specs: seq<Specification>)
    requires n >= 1
    ensures |specs| == n
    ensures forall i :: 0 <= i < n ==>
              specs[i].imageWidth == width && specs[i].imageHeight == height &&
              specs[i].drawOffsetX == 0 && specs[i].drawWidth == width
  {
    seq(n, i requires 0 <= i < n => BandOf(width, height, n, i))
  }

  /** The first row after a band. */
  function BandEnd(s: Specification): int {
    s.drawOffsetY + s.drawHeight
  }

  /** The bands tile the image: the first starts at row 0, each starts where
      the one before ends, none is of negative height, and the last ends at
      the image's bottom row. */
  lemma BandsTile(width: int, height: int, n: int)
    requires n >= 1 && 0 <= height
    ensures var specs := Bands(width, height, n);
            && specs[0].drawOffsetY == 0
            && (forall i :: 0 <= i < n - 1 ==> specs[i + 1].drawOffsetY == BandEnd(specs[i]))
            && (forall i :: 0 <= i < n ==> 0 <= specs[i].drawHeight)
            && BandEnd(specs[n - 1]) == height
  {
    var d := height / n;
    var specs := Bands(width, height, n);
    assert 0 <= d;
    forall i | 0 <= i < n - 1
      ensures specs[i + 1].drawOffsetY == BandEnd(specs[i])
    {
      assert (i + 1) * d == i * d + d;
    }
    assert BandEnd(specs[n - 1]) == (n - 1) * d + d + JsRemainder(height, n);
    assert (n - 1) * d + d == n * d;
  }

  /** Row `row` lies in the band of `s`. */
  predicate InBand(s: Specification, row: int) {
    s.drawOffsetY <= row < BandEnd(s)
  }

  /** The worker that draws row `row`. */
  function Owner(height: int, n: int, row: int): (i: int)
    requires n >= 1 && 0 <= row
    ensures 0 <= i < n
  {
    var d := height / n;
    if d <= 0 then n - 1
    else
      var q := row / d;
      DivNonNegative(row, d);
      if q < n - 1 then q else n - 1
  }

  lemma DivNonNegative(a: int, d: int)
    requires 0 <= a && 0 < d
    ensures 0 <= a / d
  {}

  /** Every row of the image is drawn by its owner and by no other worker:
      the bands are disjoint and cover rows `[0, height)`. */
  lemma EveryRowOwnedOnce(width: int, height: int, n: int, row: int)
    requires n >= 1 && 0 <= row < height
    ensures InBand(Bands(width, height, n)[Owner(height, n, row)], row)
    ensures forall j :: 0 <= j < n && InBand(Bands(width, height, n)[j], row) ==> j == Owner(height, n, row)
  {
    var specs := Bands(width, height, n);
    var d := height / n;
    var o := Owner(height, n, row);
    BandsTile(width, height, n);
    assert n * d + JsRemainder(height, n) == height;
    if d > 0 {
      assert o * d <= row by {
        DivFloor(row, d);
        MulMonotone(o, row / d, d);
      }
      if o < n - 1 {
        DivFloor(row, d);
        assert row < (o + 1) * d;
      }
    } else {
      assert d == 0;
    }
    forall j | 0 <= j < n && InBand(specs[j], row)
      ensures j == o
    {
      if j < o {
        assert row < (j + 1) * d;
        MulMonotone(j + 1, o, d);
      } else if o < j {
        MulMonotone(o + 1, j, d);
      }
    }
  }

  lemma DivFloor(a: int, d: int)
    requires 0 <= a && 0 < d
    ensures (a / d) * d <= a < (a / d + 1) * d
  {
    assert a == d * (a / d) + a % d;
  }

  lemma MulMonotone(a: int, b: int, w: int)
    requires a <= b && 0 <= w
    ensures a * w <= b * w
  {
    assert b * w - a * w == (b - a) * w;
  }

  // ----- readiness and progress -----

  /** The coordinator's record of one trace worker. */
  datatype TraceWorker = TraceWorker(ready: bool, progress: real)

  /** `traceWorkers`: the records by worker id. */
  type Registry = map<int, TraceWorker>

  /** The registry holds exactly the workers `0` to `n - 1`. */
  ghost predicate Registered(reg: Registry, n: int) {
    forall i :: i in reg <==> 0 <= i < n
  }

  /** The "init" message: a fresh, not yet ready record with progress 0 for
      every worker `0` to `n - 1`, written over whatever the registry held. */
  function Init(prev: Registry, n: int): (reg: Registry)
    ensures forall i :: 0 <= i < n ==> i in reg && reg[i] == TraceWorker(false, 0.0)
    ensures forall i :: i in reg && !(0 <= i < n) ==> i in prev && reg[i] == prev[i]
    ensures forall i :: i in prev ==> i in reg
    decreases n
  {
    if n <= 0 then prev else Init(prev, n - 1)[n - 1 := TraceWorker(false, 0.0)]
  }

  /** Initialising an empty registry registers exactly the `n` workers. */
  lemma InitRegisters(n: int)
    ensures Registered(Init(map[], n), n)
  {}

  /** A registry of `n` workers has `n` keys. */
  lemma {:induction false} RegisteredSize(reg: Registry, n: int)
    ensures Registered(reg, n) ==> |reg.Keys| == if n > 0 then n else 0
    decreases n
  {
    if Registered(reg, n) && n > 0 {
      var smaller := map i | i in reg && i != n - 1 :: reg[i];
      assert Registered(smaller, n - 1);
      RegisteredSize(smaller, n - 1);
      assert reg.Keys == smaller.Keys + {n - 1};
    } else if Registered(reg, n) {
      assert forall i :: i !in reg.Keys;
      assert reg.Keys == {};
    }
  }

  /** All workers of the registry are ready. */
  predicate AllReady(reg: Registry) {
    forall i :: i in reg ==> reg[i].ready
  }

  /** The handler of a worker's "init" reply: marks worker `id` ready, and
      posts "init" to the page when the registry holds `n` workers, all
      ready.  An unknown id is JavaScript's `TypeError`: `None`. */
  function OnInitReply(reg: Registry, n: int, id: int): (r: Option<(Registry, bool)>)
    ensures r.None? <==> id !in reg
    ensures r.Some? ==> r.value.0.Keys == reg.Keys && r.value.0[id].ready
    ensures r.Some? ==> forall i :: i in reg && i != id ==> r.value.0[i] == reg[i]
    ensures r.Some? && Registered(reg, n) ==> (r.value.1 <==> AllReady(r.value.0))
  {
    if id !in reg then None
    else
      var updated := reg[id := reg[id].(ready := true)];
      RegisteredSize(reg, n);
      Some((updated, |updated.Keys| == n && AllReady(updated)))
  }

  /** The readiness of the workers after replies from `ids`, in order, and
      whether each reply made the coordinator post "init". */
  function ReplayInit(reg: Registry, n: int, ids: seq<int>): (r: (Registry, seq<bool>))
    requires forall k :: 0 <= k < |ids| ==> ids[k] in reg
    ensures r.0.Keys == reg.Keys && |r.1| == |ids|
    decreases |ids|
  {
    if |ids| == 0 then (reg, [])
    else
      var step := OnInitReply(reg, n, ids[0]).value;
      var rest := ReplayInit(step.0, n, ids[1..]);
      (rest.0, [step.1] + rest.1)
  }

  /** Starting from a fresh registry, the `k`-th reply posts "init" exactly
      when every worker has replied by then. */
  lemma {:induction false} InitPostedWhenAllReplied(reg: Registry, n: int, ids: seq<int>, k: int)
    requires Registered(reg, n)
    requires forall k' :: 0 <= k' < |ids| ==> 0 <= ids[k'] < n
    requires 0 <= k < |ids|
    ensures ReplayInit(reg, n, ids).1[k] <==>
              forall i :: 0 <= i < n ==> reg[i].ready || i in ids[..k + 1]
    decreases |ids|
  {
    var step := OnInitReply(reg, n, ids[0]).value;
    ReplyKeepsRegistered(reg, n, ids[0]);
    if k == 0 {
      assert ids[..1] == [ids[0]];
    } else {
      InitPostedWhenAllReplied(step.0, n, ids[1..], k - 1);
      assert ReplayInit(reg, n, ids).1[k] == ReplayInit(step.0, n, ids[1..]).1[k - 1];
      PrefixMembers(ids, k);
    }
  }

  /** A reply from a registered worker keeps the registry and marks exactly
      that worker ready in addition to those already ready. */
  lemma ReplyKeepsRegistered(reg: Registry, n: int, id: int)
    requires Registered(reg, n) && 0 <= id < n
    ensures OnInitReply(reg, n, id).Some?
    ensures var next := OnInitReply(reg, n, id).value.0;
            Registered(next, n) && forall i :: 0 <= i < n ==> (next[i].ready <==> reg[i].ready || i == id)
  {}

  /** Membership in the first `k + 1` ids: the first id, or one of the `k`
      after it. */
  lemma PrefixMembers(ids: seq<int>, k: int)
    requires 0 < k < |ids|
    ensures forall i :: i in ids[..k + 1] <==> i == ids[0] || i in ids[1..][..k]
  {
    assert ids[..k + 1] == [ids[0]] + ids[1..][..k];
  }

  /** The sum of the progress of workers `0` to `k - 1`. */
  function SumProgress(reg: Registry, k: nat): real
    requires forall i :: 0 <= i < k ==> i in reg
  {
    if k == 0 then 0.0 else SumProgress(reg, k - 1) + reg[k - 1].progress
  }

  /** The aggregate progress: the mean of the workers' progress. */
  function Progress(reg: Registry, n: int): real
    requires n >= 1 && Registered(reg, n)
  {
    SumProgress(reg, n) / n as real
  }

  /** Progress of every worker within `[0, 1]`. */
  predicate ProgressInRange(reg: Registry) {
    forall i :: i in reg ==> 0.0 <= reg[i].progress <= 1.0
  }

  /** Partial sums stay between zero and the number of terms. */
  lemma {:induction false} SumProgressBounds(reg: Registry, k: nat)
    requires forall i :: 0 <= i < k ==> i in reg
    requires ProgressInRange(reg)
    ensures 0.0 <= SumProgress(reg, k) <= k as real
    ensures (forall i :: 0 <= i < k ==> reg[i].progress == 1.0) ==> SumProgress(reg, k) == k as real
  {
    if k > 0 {
      SumProgressBounds(reg, k - 1);
    }
  }

  /** The aggregate progress lies in `[0, 1]` when every worker's does, and
      is 1 once every worker is done. */
  lemma ProgressBounds(reg: Registry, n: int)
    requires n >= 1 && Registered(reg, n) && ProgressInRange(reg)
    ensures 0.0 <= Progress(reg, n) <= 1.0
    ensures (forall i :: 0 <= i < n ==> reg[i].progress == 1.0) ==> Progress(reg, n) == 1.0
  {
    SumProgressBounds(reg, n);
    assert n as real / n as real == 1.0;
  }

  /** Raising one worker's progress raises the partial sums that include it
      by the same amount. */
  lemma {:induction false} SumProgressUpdate(reg: Registry, k: nat, id: int, p: real)
    requires forall i :: 0 <= i < k ==> i in reg
    requires id in reg
    ensures var updated := reg[id := reg[id].(progress := p)];
            SumProgress(updated, k) == SumProgress(reg, k) + (if 0 <= id < k then p - reg[id].progress else 0.0)
  {
    if k > 0 {
      SumProgressUpdate(reg, k - 1, id, p);
    }
  }

  /** The handler of a worker's "image" message: records the worker's
      progress and reports the new aggregate.  An unknown id is `None`. */
  function OnImage(reg: Registry, n: int, id: int, p: real): (r: Option<(Registry, real)>)
    requires n >= 1 && Registered(reg, n)
    ensures r.None? <==> id !in reg
    ensures r.Some? ==> Registered(r.value.0, n) && r.value.0[id].progress == p
    ensures r.Some? ==> r.value.1 == Progress(reg, n) + (p - reg[id].progress) / n as real
  {
    if id !in reg then None
    else
      var updated := reg[id := reg[id].(progress := p)];
      SumProgressUpdate(reg, n, id, p);
      Some((updated, Progress(updated, n)))
  }
}
