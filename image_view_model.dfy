/**
 * The demo app's `ImageViewModel`: a single-slot, latest-value pipeline that
 * converts captured frames one at a time. `latestBitmap` holds at most one
 * frame waiting for conversion, `isProcessing` says whether a conversion is
 * running, and `grayscaleBitmap` is the result on screen.
 *
 * Each critical section of the source is one atomic step: `Submit` (the
 * capture handler storing a frame), `TryStart` (the guarded hand-over at the
 * head of `processNext`) and `Finish` (publishing a conversion's result and
 * clearing the flag). Both the capture handler and `Finish` launch
 * `processNext`, that is, a later `TryStart`: the state counts the launched
 * runs that have not run yet, and a `TryStart` consumes one of them. The
 * conversion itself runs between a `TryStart` that took a frame and the
 * matching `Finish`.
 */
module ImageUtilDemo {
  import opened Wrappers
  import opened ImageUtilImpl
  import opened ImageUtilSdk

  /** A captured frame, tagged with its position in the order of capture. */
  datatype Frame = Frame(bitmap: Bitmap, seqNo: nat)

  /**
   * The view model's state, with the history needed to talk about frames:
   * how many frames were captured, and which of them were taken for
   * conversion, in order.
   */
  datatype Pipeline = Pipeline(
    latest: Option<Frame>,    // latestBitmap
    processing: bool,         // isProcessing
    shown: Option<Bitmap>,    // _grayscaleBitmap.value
    inFlight: Option<Frame>,  // the frame the running conversion works on
    submitted: nat,           // number of frames captured so far
    started: seq<nat>,        // sequence numbers of the frames taken for conversion
    launched: nat)            // `processNext` runs launched that have not run yet

  /** A freshly created view model. */
  const Initial: Pipeline := Pipeline(None, false, None, None, 0, [], 0)

  /** One atomic step of the pipeline. */
  datatype Step =
    | Submit(bitmap: Bitmap)  // a frame is captured
    | TryStart                // `processNext` inspects the flag and the slot
    | Finish(fault: Fault)    // the running conversion ends, with this native outcome

  /**
   * `onCapturedBitmap`: the new frame replaces whatever was pending, and a
   * `processNext` run is launched for it.
   */
  function SubmitStep(s: Pipeline, b: Bitmap): (r: Pipeline)
    ensures r.latest.Some? && r.latest.value.bitmap == b && r.latest.value.seqNo == r.submitted - 1
    ensures r.submitted == s.submitted + 1 && r.launched == s.launched + 1
    ensures r.(latest := s.latest, submitted := s.submitted, launched := s.launched) == s
  {
    s.(latest := Some(Frame(b, s.submitted)), submitted := s.submitted + 1, launched := s.launched + 1)
  }

  /**
   * The critical section of `processNext`: when no conversion runs and a
   * frame is pending, set the flag and take the frame, emptying the slot.
   * Either way the launched run is used up.
   */
  function TryStartStep(s: Pipeline): (r: Pipeline)
    requires s.launched > 0
    ensures r.launched == s.launched - 1
    ensures r.(launched := s.launched) == s <==> s.processing || s.latest.None?
    ensures !s.processing && s.latest.Some? ==>
              r.processing && r.latest.None? && r.inFlight == s.latest &&
              r.started == s.started + [s.latest.value.seqNo]
    ensures r.shown == s.shown && r.submitted == s.submitted
  {
    if s.processing || s.latest.None? then s.(launched := s.launched - 1)
    else s.(processing := true, latest := None, inFlight := s.latest,
            started := s.started + [s.latest.value.seqNo], launched := s.launched - 1)
  }

  /**
   * The end of a conversion: publish its result if it succeeded, clear the
   * flag and launch `processNext`, which runs as a later `TryStart`.
   */
  function FinishStep(s: Pipeline, fault: Fault): (r: Pipeline)
    requires s.inFlight.Some? && s.inFlight.value.bitmap.Valid()
    ensures !r.processing && r.inFlight.None? && r.launched == s.launched + 1
    ensures r.latest == s.latest && r.started == s.started && r.submitted == s.submitted
    ensures r.shown == s.shown ||
            (r.shown.Some? && r.shown.value.config == Argb8888 && IsGray(r.shown.value.pixels))
  {
    var res := GrayscaleBitmap(s.inFlight.value.bitmap, fault);
    var shown := if res.Success? then Some(res.value) else s.shown;
    s.(shown := shown, processing := false, inFlight := None, launched := s.launched + 1)
  }

  /**
   * Which steps can happen: a captured frame is a real bitmap, `processNext`
   * runs only when launched, and a conversion can only end while one is
   * running.
   */
  ghost predicate Enabled(s: Pipeline, step: Step)
  {
    match step
    case Submit(b) => b.Valid()
    case TryStart => s.launched > 0
    case Finish(_) => s.inFlight.Some? && s.inFlight.value.bitmap.Valid()
  }

  function Next(s: Pipeline, step: Step): Pipeline
    requires Enabled(s, step)
  {
    match step
    case Submit(b) => SubmitStep(s, b)
    case TryStart => TryStartStep(s)
    case Finish(fault) => FinishStep(s, fault)
  }

  /** Every step of `steps` can happen, one after the other, from `s`. */
  ghost predicate Executable(s: Pipeline, steps: seq<Step>)
    decreases |steps|
  {
    steps == [] || (Enabled(s, steps[0]) && Executable(Next(s, steps[0]), steps[1..]))
  }

  /** The state after running `steps` from `s`. */
  function Run(s: Pipeline, steps: seq<Step>): Pipeline
    requires Executable(s, steps)
    decreases |steps|
  {
    if steps == [] then s else Run(Next(s, steps[0]), steps[1..])
  }

  /** Each element of `xs` is smaller than the next. */
  ghost predicate StrictlyIncreasing(xs: seq<nat>)
  {
    forall i, j :: 0 <= i < j < |xs| ==> xs[i] < xs[j]
  }

  /**
   * The pipeline's invariant. It bounds the number of conversions by the
   * number of captured frames.
   */
  ghost predicate Inv(s: Pipeline): (ok: bool)
    ensures ok ==> |s.started| <= s.submitted
  {
    var ok := InvClauses(s);
    if ok then IncreasingBounded(s.started, s.submitted); ok else ok
  }

  /** The clauses of the pipeline's invariant. */
  ghost predicate InvClauses(s: Pipeline)
  {
    // at most one conversion runs, and the flag says whether one does
    && (s.processing <==> s.inFlight.Some?)
    // no lost wakeup: a pending frame with no conversion running has a
    // launched `processNext` run still to come
    && (s.latest.Some? && !s.processing ==> s.launched > 0)
    // the slot can only hold the most recently captured frame
    && (s.latest.Some? ==> s.submitted > 0 && s.latest.value.seqNo == s.submitted - 1)
    // only captured frames are converted, each at most once, in capture order
    && (forall i :: 0 <= i < |s.started| ==> s.started[i] < s.submitted)
    && StrictlyIncreasing(s.started)
    // the pending frame has not been converted yet
    && (s.latest.Some? ==> forall i :: 0 <= i < |s.started| ==> s.started[i] < s.latest.value.seqNo)
    // the running conversion works on the last frame taken
    && (s.inFlight.Some? ==> |s.started| > 0 && s.inFlight.value.seqNo == s.started[|s.started| - 1])
    // the newest frame is never dropped: it is pending or has been taken
    && (s.submitted > 0 && s.latest.None? ==>
          |s.started| > 0 && s.started[|s.started| - 1] == s.submitted - 1)
    // frames are real bitmaps, and what is on screen is a grayscale bitmap
    && (s.latest.Some? ==> s.latest.value.bitmap.Valid())
    && (s.inFlight.Some? ==> s.inFlight.value.bitmap.Valid())
    && (s.shown.Some? ==> s.shown.value.Valid() && s.shown.value.config == Argb8888 &&
                          IsGray(s.shown.value.pixels))
  }

  /** A new view model satisfies the invariant. */
  lemma InitialInv()
    ensures Inv(Initial)
  {
  }

  /** Each step keeps the invariant. */
  lemma StepPreservesInv(s: Pipeline, step: Step)
    requires Inv(s) && Enabled(s, step)
    ensures Inv(Next(s, step))
  {
    match step
    case Submit(b) =>
    case TryStart =>
    case Finish(fault) =>
  }

  /** The invariant holds after any sequence of steps. */
  lemma {:induction false} RunPreservesInv(s: Pipeline, steps: seq<Step>)
    requires Inv(s) && Executable(s, steps)
    ensures Inv(Run(s, steps))
    decreases |steps|
  {
    if steps != [] {
      StepPreservesInv(s, steps[0]);
      RunPreservesInv(Next(s, steps[0]), steps[1..]);
    }
  }

  /** A strictly increasing sequence of numbers below n has at most n elements. */
  lemma {:induction false} IncreasingBounded(xs: seq<nat>, n: nat)
    requires StrictlyIncreasing(xs)
    requires forall i :: 0 <= i < |xs| ==> xs[i] < n
    ensures |xs| <= n
    decreases n
  {
    if xs != [] {
      var last := xs[|xs| - 1];
      var init := xs[..|xs| - 1];
      forall i | 0 <= i < |init| ensures init[i] < last {
        assert xs[i] < xs[|xs| - 1];
      }
      IncreasingBounded(init, last);
    }
  }

  /**
   * A pending frame with no conversion running is never stranded: a launched
   * `processNext` run is still to come, and it takes that frame, which is
   * the one captured last.
   */
  lemma StartTakesNewest(s: Pipeline)
    requires Inv(s)
    requires !s.processing && s.latest.Some?
    ensures s.launched > 0
    ensures var t := TryStartStep(s);
      t.processing && t.latest.None? && t.inFlight == s.latest &&
      t.started == s.started + [s.submitted - 1]
  {
  }

  /** Steps only ever append to the record of started conversions. */
  lemma {:induction false} RunExtendsStarted(s: Pipeline, steps: seq<Step>)
    requires Executable(s, steps)
    ensures var t := Run(s, steps);
      |s.started| <= |t.started| && t.started[..|s.started|] == s.started
    decreases |steps|
  {
    if steps != [] {
      var n := Next(s, steps[0]);
      assert n.started[..|s.started|] == s.started;
      RunExtendsStarted(n, steps[1..]);
    }
  }

  /**
   * A frame that is neither pending nor taken has been superseded by a newer
   * one: it is never converted afterwards, whatever happens next.
   */
  lemma {:induction false} SupersededNeverConverted(s: Pipeline, steps: seq<Step>, k: nat)
    requires Inv(s) && Executable(s, steps)
    requires k < s.submitted && k !in s.started
    requires s.latest.Some? ==> s.latest.value.seqNo != k
    ensures k !in Run(s, steps).started
    decreases |steps|
  {
    if steps != [] {
      StepPreservesInv(s, steps[0]);
      SupersededNeverConverted(Next(s, steps[0]), steps[1..], k);
    }
  }

  /**
   * Capturing a frame while another is still pending drops the older one:
   * it is never converted.
   */
  lemma SubmitDropsPending(s: Pipeline, b: Bitmap, steps: seq<Step>)
    requires Inv(s) && s.latest.Some? && b.Valid()
    requires Executable(SubmitStep(s, b), steps)
    ensures s.latest.value.seqNo !in Run(SubmitStep(s, b), steps).started
  {
    StepPreservesInv(s, Submit(b));
    SupersededNeverConverted(SubmitStep(s, b), steps, s.latest.value.seqNo);
  }

  /**
   * A frame pending when a conversion ends, whatever its outcome, is the one
   * the `processNext` launched at that moment takes.
   */
  lemma PendingStartsNext(s: Pipeline, fault: Fault)
    requires Inv(s) && s.processing && s.latest.Some?
    ensures var t := TryStartStep(FinishStep(s, fault));
      t.processing && t.latest.None? && t.inFlight == s.latest &&
      t.started == s.started + [s.latest.value.seqNo]
  {
  }

  /**
   * Three frames captured during one conversion: when it ends, only the
   * third is converted next; the first two are skipped.
   */
  lemma BurstCoalesces(s: Pipeline, f1: Bitmap, f2: Bitmap, f3: Bitmap, fault: Fault)
    requires Inv(s) && s.processing && f1.Valid() && f2.Valid() && f3.Valid()
    ensures var t := TryStartStep(FinishStep(SubmitStep(SubmitStep(SubmitStep(s, f1), f2), f3), fault));
      t.inFlight == Some(Frame(f3, s.submitted + 2)) &&
      t.started == s.started + [s.submitted + 2]
  {
  }

  /**
   * When nothing is pending at the end of a conversion the pipeline goes
   * idle, the `processNext` launched then does nothing, and the last frame
   * captured has been converted.
   */
  lemma FinishSettles(s: Pipeline, fault: Fault)
    requires Inv(s) && s.processing && s.latest.None?
    ensures var t := FinishStep(s, fault);
      !t.processing && t.latest.None? && t.inFlight.None? && t.started == s.started &&
      TryStartStep(t) == t.(launched := t.launched - 1) &&
      (t.submitted > 0 ==> t.started[|t.started| - 1] == t.submitted - 1)
  {
  }

  /**
   * An idle pipeline stays idle until a frame is captured: the launched
   * `processNext` runs only use themselves up.
   */
  lemma {:induction false} IdleStaysIdle(s: Pipeline, steps: seq<Step>)
    requires !s.processing && s.latest.None?
    requires |steps| <= s.launched
    requires forall i :: 0 <= i < |steps| ==> steps[i] == TryStart
    ensures Executable(s, steps) && Run(s, steps) == s.(launched := s.launched - |steps|)
    decreases |steps|
  {
    if steps != [] {
      IdleStaysIdle(s.(launched := s.launched - 1), steps[1..]);
    }
  }

  /**
   * When a conversion of an ARGB_8888 frame succeeds, the screen shows a
   * bitmap of the frame's size whose every pixel has the frame pixel's luma
   * in R, G and B and its alpha. Otherwise the screen keeps what it showed.
   */
  lemma FinishPublishes(s: Pipeline, fault: Fault)
    requires Inv(s) && s.processing
    ensures var b, shown := s.inFlight.value.bitmap, FinishStep(s, fault).shown;
      (fault == NoFault && b.config == Argb8888 ==>
         shown.Some? && shown.value.config == Argb8888 &&
         shown.value.width == b.width && shown.value.height == b.height &&
         |shown.value.pixels| == |b.pixels| &&
         forall i :: 0 <= i && 4 * i + 4 <= |b.pixels| ==>
           var y := Luma(b.pixels[4 * i], b.pixels[4 * i + 1], b.pixels[4 * i + 2]);
           shown.value.pixels[4 * i] == y && shown.value.pixels[4 * i + 1] == y &&
           shown.value.pixels[4 * i + 2] == y && shown.value.pixels[4 * i + 3] == b.pixels[4 * i + 3])
    ensures fault != NoFault || s.inFlight.value.bitmap.config != Argb8888 ==>
      FinishStep(s, fault).shown == s.shown
  {
    var b := s.inFlight.value.bitmap;
    if fault == NoFault && b.config == Argb8888 {
      var g := FinishStep(s, fault).shown.value;
      assert g.pixels == Grayscale(b.pixels);
      forall i | 0 <= i && 4 * i + 4 <= |b.pixels|
        ensures var y := Luma(b.pixels[4 * i], b.pixels[4 * i + 1], b.pixels[4 * i + 2]);
          g.pixels[4 * i] == y && g.pixels[4 * i + 1] == y &&
          g.pixels[4 * i + 2] == y && g.pixels[4 * i + 3] == b.pixels[4 * i + 3]
      {
        GrayscaleAt(b.pixels, i);
      }
    }
  }

  /** The view model object, whose methods are the atomic steps above. */
  class ImageViewModel {
    var latestBitmap: Option<Bitmap>
    var isProcessing: bool
    var grayscaleBitmap: Option<Bitmap>

    ghost var latestSeqNo: nat
    ghost var inFlight: Option<Frame>
    ghost var submitted: nat
    ghost var started: seq<nat>
    ghost var launched: nat

    /** The state the fields stand for. */
    ghost function State(): Pipeline
      reads this
    {
      Pipeline(if latestBitmap.Some? then Some(Frame(latestBitmap.value, latestSeqNo)) else None,
               isProcessing, grayscaleBitmap, inFlight, submitted, started, launched)
    }

    ghost predicate Valid()
      reads this
    {
      Inv(State())
    }

    constructor ()
      ensures Valid() && State() == Initial
    {
      latestBitmap := None;
      isProcessing := false;
      grayscaleBitmap := None;
      latestSeqNo := 0;
      inFlight := None;
      submitted := 0;
      started := [];
      launched := 0;
    }

    /**
     * `onCapturedBitmap`: store the frame in the slot under the lock, then
     * launch `processNext`.
     */
    method Submit(bitmap: Bitmap)
      requires Valid() && bitmap.Valid()
      modifies this
      ensures Valid()
      ensures State() == SubmitStep(old(State()), bitmap)
      ensures latestBitmap == Some(bitmap)
      ensures isProcessing == old(isProcessing) && grayscaleBitmap == old(grayscaleBitmap)
    {
      latestBitmap := Some(bitmap);
      latestSeqNo := submitted;
      submitted := submitted + 1;
      launched := launched + 1;
      StepPreservesInv(old(State()), Step.Submit(bitmap));
    }

    /**
     * A launched `processNext` run, its critical section: if no conversion
     * runs and a frame is pending, take it for conversion.
     */
    method TryStart() returns (bitmapToProcess: Option<Bitmap>)
      requires Valid() && launched > 0
      modifies this
      ensures Valid()
      ensures State() == TryStartStep(old(State()))
      ensures bitmapToProcess == if old(isProcessing) then None else old(latestBitmap)
      ensures grayscaleBitmap == old(grayscaleBitmap)
    {
      launched := launched - 1;
      if isProcessing || latestBitmap.None? {
        return None;
      }
      isProcessing := true;
      bitmapToProcess := latestBitmap;
      inFlight := Some(Frame(latestBitmap.value, latestSeqNo));
      started := started + [latestSeqNo];
      latestBitmap := None;
      StepPreservesInv(old(State()), Step.TryStart);
    }

    /**
     * The end of a conversion of the frame taken by `TryStart`, whose result
     * `result` the native outcome `fault` produced: publish it if it is a
     * bitmap, clear the flag and launch `processNext`.
     */
    method Finish(ghost fault: Fault, result: Result<Bitmap, ConversionError>)
      requires Valid() && isProcessing
      requires result == GrayscaleBitmap(inFlight.value.bitmap, fault)
      modifies this
      ensures Valid()
      ensures State() == FinishStep(old(State()), fault)
      ensures grayscaleBitmap == if result.Success? then Some(result.value) else old(grayscaleBitmap)
      ensures !isProcessing && latestBitmap == old(latestBitmap)
    {
      if result.Success? {
        grayscaleBitmap := Some(result.value);
      }
      isProcessing := false;
      inFlight := None;
      launched := launched + 1;
      StepPreservesInv(old(State()), Step.Finish(fault));
    }
  }
}
