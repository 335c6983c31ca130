/** The render loops (renderer/renderer.go:72-211, internal/renderer/renderer.go:74-131,
    pkg/trace/scene.go:39-92): each pass adds one sample to every pixel and then
    reports progress and the averaged image; an abort request stops the loop.

    Only the bookkeeping is modelled: which reports are sent, with which
    progress, and by how many samples each reported image is divided.  The
    worker goroutines, channels and the 500 ms progress timer are left out; a
    pass is one step. */
module Rendering {
  import Images

  // ----- pixel slots -----

  /** The slot of pixel `(x, y)`: rows are stored top row first, so row `y`
      (counted from the bottom) goes to row `height - 1 - y` of the buffer. */
  function PixelIndex(width: int, height: int, x: int, y: int): (i: int)
    ensures 0 <= x < width ==> i % width == x && i / width == height - 1 - y
    ensures 0 <= x < width && 0 <= y < height ==> 0 <= i < width * height
  {
    RowOfSlot(width, x, height - 1 - y);
    if 0 <= x < width && 0 <= y < height then
      Images.RowMajorInRange(width, height, x, height - 1 - y);
      Images.RowMajor(width, x, height - 1 - y)
    else Images.RowMajor(width, x, height - 1 - y)
  }

  /** A slot's column is its remainder by the width and its row the
      quotient. */
  lemma RowOfSlot(width: int, x: int, row: int)
    ensures 0 <= x < width ==> Images.RowMajor(width, x, row) % width == x && Images.RowMajor(width, x, row) / width == row
  {
    if 0 <= x < width {
      var i := Images.RowMajor(width, x, row);
      var q, r := i / width, i % width;
      assert i == q * width + r && 0 <= r < width;
      if q < row {
        Images.StepBelow(q, row, width);
      } else if row < q {
        Images.StepBelow(row, q, width);
      }
    }
  }

  /** Every pixel of a `width` by `height` image has a slot in the buffer of
      `width * height` pixels. */
  lemma PixelIndexInRange(width: int, height: int, x: int, y: int)
    requires 0 <= x < width && 0 <= y < height
    ensures 0 <= PixelIndex(width, height, x, y) < width * height
  {
    Images.RowMajorInRange(width, height, x, height - 1 - y);
  }

  /** Distinct pixels have distinct slots. */
  lemma PixelIndexInjective(width: int, height: int, x1: int, y1: int, x2: int, y2: int)
    requires 0 <= x1 < width && 0 <= x2 < width
    requires PixelIndex(width, height, x1, y1) == PixelIndex(width, height, x2, y2)
    ensures x1 == x2 && y1 == y2
  {
    Images.RowMajorInjective(width, x1, height - 1 - y1, x2, height - 1 - y2);
  }

  /** Every slot of the buffer belongs to a pixel. */
  lemma PixelIndexOnto(width: int, height: int, i: int) returns (x: int, y: int)
    requires 0 < width && 0 <= i < width * height
    ensures 0 <= x < width && 0 <= y < height
    ensures PixelIndex(width, height, x, y) == i
  {
    var row;
    x, row := Images.RowMajorOnto(width, height, i);
    y := height - 1 - row;
  }

  /** `numWorkers`: one worker per CPU, and at least one. */
  function NumWorkers(numCpu: int): (n: int)
    ensures n >= 1
    ensures numCpu >= 1 ==> n == numCpu
  {
    if numCpu < 1 then 1 else numCpu
  }

  // ----- reports -----

  /** One message on the output channel: the progress, the number the
      accumulated colours are divided by when the image is quantised, the
      number of samples accumulated in every pixel at that point, and whether
      it carries the post-processed image. */
  datatype Report = Report(progress: real, divisor: int, accumulated: int, postProcessed: bool)

  /** The report at the end of pass `sample` (counted from 1) of `samples`:
      the image holds `sample` samples and is divided by `sample`. */
  function PassReport(sample: int, samples: int): (r: Report)
    requires samples != 0
    ensures r.divisor == r.accumulated && !r.postProcessed
    ensures sample == samples ==> r.progress == 1.0
  {
    SelfRatio(samples as real);
    Report(sample as real / samples as real, sample, sample, false)
  }

  lemma SelfRatio(k: real)
    requires k != 0.0
    ensures k / k == 1.0
  {}

  /** The caller asks to abort at one of the polls of pass `sample`, which
      follow the completion of each of the `height` rows. */
  ghost predicate AbortInPass(abortSignal: (int, int) -> bool, sample: int, height: int) {
    exists y :: 0 <= y < height && abortSignal(sample, y)
  }

  /** The polls of one pass: one after each of the `height` rows, stopping
      at the first that asks to abort. */
  method PollRows(sample: int, height: int, abortSignal: (int, int) -> bool) returns (aborted: bool)
    ensures aborted <==> AbortInPass(abortSignal, sample, height)
    ensures !aborted ==> forall y :: 0 <= y < height ==> !abortSignal(sample, y)
  {
    aborted := false;
    var y := 0;
    while y < height && !aborted
      invariant 0 <= y && (height >= 0 ==> y <= height)
      invariant forall y' :: 0 <= y' < y ==> !abortSignal(sample, y')
      invariant aborted ==> y < height && abortSignal(sample, y)
      decreases height - y, if aborted then 0 else 1
    {
      if abortSignal(sample, y) {
        aborted := true;
      } else {
        y := y + 1;
      }
    }
  }

  /** `Renderer.Render`'s loop: passes 1 to `samples`, each reporting its
      image; an abort polled after any row ends the loop before that pass
      reports; then, unless aborted, the post-processed image at progress 1. */
  method Render(samples: int, height: int, hasPost: bool, abortSignal: (int, int) -> bool)
    returns (reports: seq<Report>, aborted: bool)
    ensures aborted <==> exists s :: 1 <= s <= samples && AbortInPass(abortSignal, s, height)
    ensures forall i :: 0 <= i < |reports| && !reports[i].postProcessed ==>
              samples > 0 && reports[i] == PassReport(i + 1, samples)
    ensures !aborted ==> |reports| == (if samples > 0 then samples else 0) + (if hasPost then 1 else 0)
    ensures !aborted && samples > 0 ==> reports[samples - 1].progress == 1.0
    ensures hasPost && !aborted ==> reports[|reports| - 1] == Report(1.0, samples, samples, true)
    ensures aborted ==> forall i :: 0 <= i < |reports| ==> !reports[i].postProcessed
    ensures aborted ==> AbortInPass(abortSignal, |reports| + 1, height)
    ensures forall s, y :: 1 <= s <= |reports| && !reports[s - 1].postProcessed && 0 <= y < height ==> !abortSignal(s, y)
  {
    reports := [];
    aborted := false;
    var sample := 1;
    while sample <= samples && !aborted
      invariant 1 <= sample && (samples >= 1 ==> sample <= samples + 1) && (samples < 1 ==> sample == 1)
      invariant |reports| == sample - 1
      invariant forall i :: 0 <= i < |reports| ==> samples > 0 && reports[i] == PassReport(i + 1, samples)
      invariant forall s, y :: 1 <= s < sample && 0 <= y < height ==> !abortSignal(s, y)
      invariant aborted ==> sample <= samples && AbortInPass(abortSignal, sample, height)
      decreases samples + 1 - sample, if aborted then 0 else 1
    {
      aborted := PollRows(sample, height, abortSignal);
      if !aborted {
        reports := reports + [PassReport(sample, samples)];
        sample := sample + 1;
      }
    }
    if aborted {
      assert 1 <= sample <= samples && AbortInPass(abortSignal, sample, height);
    } else {
      forall s | 1 <= s <= samples
        ensures !AbortInPass(abortSignal, s, height)
      {
      }
      if samples > 0 {
        assert reports[samples - 1] == PassReport(samples, samples);
      }
    }
    if hasPost && !aborted {
      reports := reports + [Report(1.0, samples, samples, true)];
    }
  }

  // ----- the older loops: one abort poll before each pass -----

  /** The image of pass `sample` (counted from 0) holds `sample + 1`
      samples: the number internal/renderer/renderer.go:116 divides by. */
  function PassDivisor(sample: int): int {
    sample + 1
  }

  /** The number pkg/trace/scene.go:81 divides by: the pass index itself,
      one less than the samples accumulated, and zero on the first pass. */
  function PassDivisorAsWritten(sample: int): int {
    sample
  }

  /** The older render loops (internal/renderer/renderer.go:79-128,
      pkg/trace/scene.go:44-89): before pass `sample` (counted from 0) the
      abort channel is polled; an abort closes the output at once.  Each
      completed pass reports progress `(sample + 1) / samples` and an image
      divided by `divisor(sample)`. */
  method PassLoop(samples: int, abortBefore: int -> bool, divisor: int -> int)
    returns (reports: seq<Report>, aborted: bool)
    ensures aborted <==> exists s :: 0 <= s < samples && abortBefore(s)
    ensures aborted ==> |reports| < samples && abortBefore(|reports|)
    ensures !aborted ==> |reports| == (if samples > 0 then samples else 0)
    ensures forall s :: 0 <= s < |reports| ==> !abortBefore(s)
    ensures forall i :: 0 <= i < |reports| ==>
              samples > 0 && reports[i] == Report((i + 1) as real / samples as real, divisor(i), i + 1, false)
    ensures !aborted && samples > 0 ==> reports[samples - 1].progress == 1.0
  {
    reports := [];
    aborted := false;
    var sample := 0;
    while sample < samples && !aborted
      invariant 0 <= sample && (samples >= 0 ==> sample <= samples) && (samples < 0 ==> sample == 0)
      invariant |reports| == sample
      invariant forall s :: 0 <= s < sample ==> !abortBefore(s)
      invariant aborted ==> sample < samples && abortBefore(sample)
      invariant forall i :: 0 <= i < |reports| ==>
                  samples > 0 && reports[i] == Report((i + 1) as real / samples as real, divisor(i), i + 1, false)
      decreases samples - sample, if aborted then 0 else 1
    {
      if abortBefore(sample) {
        aborted := true;
      } else {
        reports := reports + [Report((sample + 1) as real / samples as real, divisor(sample), sample + 1, false)];
        sample := sample + 1;
      }
    }
    if !aborted && samples > 0 {
      assert reports[samples - 1].progress == samples as real / samples as real;
    }
  }

  /** internal/renderer/renderer.go: every reported image is divided by the
      number of samples it holds, which is at least one. */
  method InternalRender(samples: int, abortBefore: int -> bool) returns (reports: seq<Report>, aborted: bool)
    ensures aborted <==> exists s :: 0 <= s < samples && abortBefore(s)
    ensures !aborted ==> |reports| == (if samples > 0 then samples else 0)
    ensures forall i :: 0 <= i < |reports| ==> reports[i].divisor == reports[i].accumulated >= 1
  {
    reports, aborted := PassLoop(samples, abortBefore, PassDivisor);
  }

  /** pkg/trace/scene.go as written: every reported image is divided by one
      less than the samples it holds, and the first by zero, which the
      quantisation (`toRgba`, a division by the divisor) cannot take. */
  method TraceRenderAsWritten(samples: int, abortBefore: int -> bool) returns (reports: seq<Report>, aborted: bool)
    ensures aborted <==> exists s :: 0 <= s < samples && abortBefore(s)
    ensures forall i :: 0 <= i < |reports| ==> reports[i].divisor == reports[i].accumulated - 1
    ensures |reports| > 0 ==> reports[0].divisor == 0
    ensures samples > 0 && !abortBefore(0) ==> |reports| > 0
  {
    reports, aborted := PassLoop(samples, abortBefore, PassDivisorAsWritten);
  }
}
