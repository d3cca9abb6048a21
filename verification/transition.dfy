/**
 * The `transition` animation driver as a state machine. Host services become
 * inputs: the reduced-motion preference is a flag, the start time a number, and
 * each animation frame or `cancel()` call an `Input`. Callbacks are recorded in
 * a trace instead of being called; the promise becomes the `resolved` flag.
 */
module Transition {
  import Clamp

  /**
   * A JavaScript number as far as the progress computation can produce one:
   * finite operands divided by zero give an infinity or NaN.
   */
  datatype Num = Finite(value: real) | PosInf | NegInf | NaN

  /** What `render` was called with: the literal 1, or the eased and rounded progress (left opaque). */
  datatype Rendered = Exactly1 | EasedAt(progress: Num)

  /** One callback invocation. */
  datatype Signal = Render(value: Rendered) | Canceled | Finished | Completed

  datatype Input = Frame(time: real) | Cancel

  /**
   * `reduced`: the reduced-motion branch was taken. `canceled` is the flag
   * `cancel()` sets; `pending` says a frame callback is scheduled.
   */
  datatype Run = Run(
    reduced: bool,
    start: real,
    duration: real,
    canceled: bool,
    pending: bool,
    resolved: bool,
    trace: seq<Signal>)

  /** IEEE division of two finite numbers, exact over the reals; zero is taken as positive zero. */
  function Divide(x: real, y: real): (r: Num)
    ensures y != 0.0 ==> r == Finite(x / y)
    ensures y == 0.0 ==> (r == PosInf <==> x > 0.0) && (r == NegInf <==> x < 0.0) && (r == NaN <==> x == 0.0)
  {
    if y != 0.0 then Finite(x / y)
    else if x > 0.0 then PosInf
    else if x < 0.0 then NegInf
    else NaN
  }

  /** `invLerp(value, a, b)`: where `value` lies between `a` and `b`. */
  function InvLerp(value: real, a: real, b: real): (r: Num)
    ensures a != b ==> r.Finite? && a + r.value * (b - a) == value
  {
    Divide(value - a, b - a)
  }

  /** `clamp01` on a number: `Math.max` and `Math.min` send the infinities to the bounds and keep NaN. */
  function Clamp01(n: Num): (r: Num)
    ensures r.Finite? ==> 0.0 <= r.value <= 1.0
    ensures n.Finite? && 0.0 <= n.value <= 1.0 ==> r == n
    ensures n.Finite? && n.value < 0.0 ==> r == Finite(0.0)
    ensures n.Finite? && n.value > 1.0 ==> r == Finite(1.0)
    ensures r.NaN? <==> n.NaN?
    ensures n == PosInf ==> r == Finite(1.0)
    ensures n == NegInf ==> r == Finite(0.0)
  {
    match n
    case Finite(v) => Finite(Clamp.Clamp01(v))
    case PosInf => Finite(1.0)
    case NegInf => Finite(0.0)
    case NaN => NaN
  }

  /** `t < 1`; every comparison with NaN is false, so a NaN progress counts as finished. */
  function BelowOne(n: Num): (b: bool)
    ensures n.Finite? ==> (b <==> n.value < 1.0)
    ensures n.NaN? || n == PosInf ==> !b
    ensures n == NegInf ==> b
  {
    (n.Finite? && n.value < 1.0) || n.NegInf?
  }

  /** The raw progress of a frame at `time`: `clamp01(invLerp(time, start, start + duration))`. */
  function Progress(start: real, duration: real, time: real): (t: Num)
    ensures duration != 0.0 ==> t.Finite? && 0.0 <= t.value <= 1.0
    ensures duration > 0.0 && time <= start ==> t == Finite(0.0)
    ensures duration > 0.0 && start <= time <= start + duration ==> t == Finite((time - start) / duration)
    ensures duration == 0.0 ==> (t.NaN? <==> time == start)
    ensures duration == 0.0 && time > start ==> t == Finite(1.0)
    ensures duration == 0.0 && time < start ==> t == Finite(0.0)
  {
    Clamp01(InvLerp(time, start, start + duration))
  }

  lemma RatioAtLeastOne(x: real, d: real)
    requires d > 0.0 && x >= d
    ensures x / d >= 1.0
  {
    var q := x / d;
    assert q * d == x;
  }

  /** Progress reaches 1 at `start + duration` and stays there. */
  lemma ProgressReachesOne(start: real, duration: real, time: real)
    requires duration > 0.0 && time >= start + duration
    ensures Progress(start, duration, time) == Finite(1.0)
  {
    RatioAtLeastOne(time - start, duration);
  }

  /**
   * `transition(options)` up to its return. With reduced motion respected and
   * preferred it renders 1, finishes and completes at once and schedules no
   * frame; otherwise it schedules the first frame and has called nothing.
   */
  function Start(respectReducedMotion: bool, prefersReducedMotion: bool, start: real, duration: real): (r: Run)
    ensures r.reduced <==> respectReducedMotion && prefersReducedMotion
    ensures r.reduced ==> r.trace == [Render(Exactly1), Finished, Completed] && r.resolved && !r.pending
    ensures !r.reduced ==> r.trace == [] && !r.resolved && r.pending && !r.canceled
    ensures r.start == start && r.duration == duration
  {
    if respectReducedMotion && prefersReducedMotion then
      Run(true, start, duration, false, false, true, [Render(Exactly1), Finished, Completed])
    else
      Run(false, start, duration, false, true, false, [])
  }

  /** `cancel()`: in the reduced branch it calls `onCanceled` every time; otherwise it only sets the flag. */
  function CancelRun(r: Run): (r': Run)
    ensures r.reduced ==> r' == r.(trace := r.trace + [Canceled])
    ensures !r.reduced ==> r'.canceled && r'.trace == r.trace && r'.pending == r.pending && r'.resolved == r.resolved
  {
    if r.reduced then r.(trace := r.trace + [Canceled]) else r.(canceled := true)
  }

  /**
   * The scheduled `frame` callback. A frame that sees the cancel flag cancels
   * and completes without rendering; otherwise it renders, and then either
   * schedules the next frame or finishes and completes.
   */
  function FrameStep(r: Run, time: real): (r': Run)
    requires r.pending
    ensures r'.reduced == r.reduced && r'.start == r.start && r'.duration == r.duration && r'.canceled == r.canceled
    ensures r.canceled ==> r'.trace == r.trace + [Canceled, Completed]
    ensures !r.canceled ==>
              |r'.trace| > |r.trace|
              && r'.trace[..|r.trace| + 1] == r.trace + [Render(EasedAt(Progress(r.start, r.duration, time)))]
    ensures r'.pending <==> !r.canceled && BelowOne(Progress(r.start, r.duration, time))
    ensures !r'.pending ==> r'.resolved
    ensures r'.pending ==> r'.resolved == r.resolved && |r'.trace| == |r.trace| + 1
    ensures !r.canceled && !r'.pending ==> r'.trace[|r.trace| + 1..] == [Finished, Completed]
  {
    if r.canceled then
      r.(pending := false, resolved := true, trace := r.trace + [Canceled, Completed])
    else
      var t := Progress(r.start, r.duration, time);
      var rendered := r.trace + [Render(EasedAt(t))];
      if BelowOne(t) then r.(trace := rendered)
      else r.(pending := false, resolved := true, trace := rendered + [Finished, Completed])
  }

  /** One input. A frame time arriving while no frame is scheduled calls nothing. */
  function Step(r: Run, input: Input): (r': Run)
    ensures r'.reduced == r.reduced && r'.start == r.start && r'.duration == r.duration
    ensures |r.trace| <= |r'.trace| && r'.trace[..|r.trace|] == r.trace
    ensures r.resolved ==> r'.resolved
    ensures input.Frame? && !r.pending ==> r' == r
  {
    match input
    case Cancel => CancelRun(r)
    case Frame(time) => if r.pending then FrameStep(r, time) else r
  }

  /** A sequence of inputs, one `Step` each. */
  function RunAll(r: Run, inputs: seq<Input>): (r': Run)
    ensures r'.reduced == r.reduced && r'.start == r.start && r'.duration == r.duration
    ensures |r.trace| <= |r'.trace| && r'.trace[..|r.trace|] == r.trace
    ensures r.resolved ==> r'.resolved
    ensures (forall i :: 0 <= i < |inputs| ==> inputs[i].Frame?) && !r.pending ==> r' == r
    decreases |inputs|
  {
    if |inputs| == 0 then r else RunAll(Step(r, inputs[0]), inputs[1..])
  }

  // ---------------------------------------------------------------------------
  // The normal path: every callback trace has one outcome and completes last

  /**
   * Before resolution the trace holds only renders; after it, renders followed
   * by exactly `onFinished` or `onCanceled`, then `onCompleted`.
   */
  ghost predicate NormalTrace(trace: seq<Signal>, resolved: bool)
  {
    if !resolved then forall i :: 0 <= i < |trace| ==> trace[i].Render?
    else
      && |trace| >= 2
      && trace[|trace| - 1] == Completed
      && (trace[|trace| - 2] == Finished || trace[|trace| - 2] == Canceled)
      && forall i :: 0 <= i < |trace| - 2 ==> trace[i].Render?
  }

  ghost predicate Valid(r: Run)
  {
    !r.reduced ==> (r.resolved <==> !r.pending) && NormalTrace(r.trace, r.resolved)
  }

  lemma StartValid(respectReducedMotion: bool, prefersReducedMotion: bool, start: real, duration: real)
    ensures Valid(Start(respectReducedMotion, prefersReducedMotion, start, duration))
  {
  }

  lemma StepValid(r: Run, input: Input)
    requires Valid(r)
    ensures Valid(Step(r, input))
  {
    var r' := Step(r, input);
    if !r.reduced && input.Frame? && r.pending {
      var t := Progress(r.start, r.duration, input.time);
      if r.canceled {
        assert r'.trace == r.trace + [Canceled, Completed];
      } else if BelowOne(t) {
        assert r'.trace == r.trace + [Render(EasedAt(t))];
      } else {
        assert r'.trace == r.trace + [Render(EasedAt(t))] + [Finished, Completed];
        assert r'.trace[|r'.trace| - 3] == Render(EasedAt(t));
      }
    }
  }

  lemma {:induction false} RunValid(r: Run, inputs: seq<Input>)
    requires Valid(r)
    ensures Valid(RunAll(r, inputs))
    decreases |inputs|
  {
    if |inputs| > 0 {
      StepValid(r, inputs[0]);
      RunValid(Step(r, inputs[0]), inputs[1..]);
    }
  }

  /** Once a normal run has resolved, nothing more happens: later frames and `cancel()` call nothing. */
  lemma {:induction false} NothingAfterCompletion(r: Run, inputs: seq<Input>)
    requires Valid(r) && !r.reduced && r.resolved
    ensures RunAll(r, inputs).trace == r.trace
    ensures RunAll(r, inputs).resolved && !RunAll(r, inputs).pending
    decreases |inputs|
  {
    if |inputs| > 0 {
      NothingAfterCompletion(Step(r, inputs[0]), inputs[1..]);
    }
  }

  function Count(trace: seq<Signal>, s: Signal): (n: nat)
    ensures n <= |trace|
  {
    if |trace| == 0 then 0
    else Count(trace[..|trace| - 1], s) + (if trace[|trace| - 1] == s then 1 else 0)
  }

  lemma {:induction false} CountOfRenders(trace: seq<Signal>, s: Signal)
    requires !s.Render?
    requires forall i :: 0 <= i < |trace| ==> trace[i].Render?
    ensures Count(trace, s) == 0
  {
    if |trace| > 0 {
      CountOfRenders(trace[..|trace| - 1], s);
    }
  }

  /**
   * A resolved normal run called exactly one of `onFinished` and `onCanceled`
   * and `onCompleted` exactly once, as the last callback.
   */
  lemma ExactlyOneOutcome(r: Run)
    requires Valid(r) && !r.reduced && r.resolved
    ensures Count(r.trace, Finished) + Count(r.trace, Canceled) == 1
    ensures Count(r.trace, Completed) == 1
    ensures r.trace[|r.trace| - 1] == Completed
  {
    var n := |r.trace|;
    var renders := r.trace[..n - 2];
    assert r.trace[..n - 1] == renders + [r.trace[n - 2]];
    assert r.trace[..n - 1][..n - 2] == renders;
    CountOfRenders(renders, Finished);
    CountOfRenders(renders, Canceled);
    CountOfRenders(renders, Completed);
  }

  /** An unresolved normal run has called no lifecycle callback. */
  lemma NoOutcomeWhileRunning(r: Run)
    requires Valid(r) && !r.reduced && !r.resolved
    ensures Count(r.trace, Finished) == 0 && Count(r.trace, Canceled) == 0 && Count(r.trace, Completed) == 0
  {
    CountOfRenders(r.trace, Finished);
    CountOfRenders(r.trace, Canceled);
    CountOfRenders(r.trace, Completed);
  }

  /** Running `a` then `b` is running `a + b`. */
  lemma {:induction false} RunAllAppend(r: Run, a: seq<Input>, b: seq<Input>)
    ensures RunAll(r, a + b) == RunAll(RunAll(r, a), b)
    decreases |a|
  {
    if |a| == 0 {
      assert a + b == b;
    } else {
      assert (a + b)[0] == a[0];
      assert (a + b)[1..] == a[1..] + b;
      RunAllAppend(Step(r, a[0]), a[1..], b);
    }
  }

  /**
   * On the normal path, cancelling before the first frame cancels and
   * completes on that frame, rendering nothing, and nothing follows.
   */
  lemma CancelBeforeFirstFrame(respectReducedMotion: bool, prefersReducedMotion: bool, start: real, duration: real,
                               time: real, rest: seq<Input>)
    requires !(respectReducedMotion && prefersReducedMotion)
    ensures RunAll(Start(respectReducedMotion, prefersReducedMotion, start, duration), [Cancel, Frame(time)] + rest).trace
            == [Canceled, Completed]
    ensures RunAll(Start(respectReducedMotion, prefersReducedMotion, start, duration), [Cancel, Frame(time)] + rest).resolved
  {
    var r := Start(respectReducedMotion, prefersReducedMotion, start, duration);
    var inputs := [Cancel, Frame(time)];
    assert inputs[1..] == [Frame(time)];
    var first := RunAll(r, inputs);
    assert first == RunAll(CancelRun(r), [Frame(time)]);
    assert first.trace == [Canceled, Completed];
    StartValid(respectReducedMotion, prefersReducedMotion, start, duration);
    RunValid(r, inputs);
    RunAllAppend(r, inputs, rest);
    NothingAfterCompletion(first, rest);
  }

  /** A positive-duration animation whose frame comes at or after `start + duration` finishes on it. */
  lemma LateFrameFinishes(r: Run, time: real)
    requires r.pending && !r.canceled && r.duration > 0.0 && time >= r.start + r.duration
    ensures Step(r, Frame(time)).trace == r.trace + [Render(EasedAt(Finite(1.0))), Finished, Completed]
    ensures Step(r, Frame(time)).resolved && !Step(r, Frame(time)).pending
  {
    ProgressReachesOne(r.start, r.duration, time);
  }

  /** With a positive duration the raw progress never decreases as frame times increase. */
  lemma ProgressMonotone(start: real, duration: real, time: real, later: real)
    requires duration > 0.0 && time <= later
    ensures Progress(start, duration, time).value <= Progress(start, duration, later).value
  {
    Clamp.ClampMonotone((time - start) / duration, (later - start) / duration, 0.0, 1.0);
  }

  // ---------------------------------------------------------------------------
  // The reduced-motion path

  function Repeat(s: Signal, n: nat): (r: seq<Signal>)
    ensures |r| == n && forall i :: 0 <= i < n ==> r[i] == s
  {
    if n == 0 then [] else [s] + Repeat(s, n - 1)
  }

  function Cancels(inputs: seq<Input>): nat
  {
    if |inputs| == 0 then 0 else (if inputs[0] == Cancel then 1 else 0) + Cancels(inputs[1..])
  }

  /** In the reduced branch frames never come, and every `cancel()` appends one `onCanceled`. */
  lemma {:induction false} ReducedRunCancels(r: Run, inputs: seq<Input>)
    requires r.reduced && !r.pending
    ensures RunAll(r, inputs).trace == r.trace + Repeat(Canceled, Cancels(inputs))
    decreases |inputs|
  {
    if |inputs| > 0 {
      var next := Step(r, inputs[0]);
      ReducedRunCancels(next, inputs[1..]);
      if inputs[0] == Cancel {
        assert r.trace + [Canceled] + Repeat(Canceled, Cancels(inputs[1..]))
            == r.trace + Repeat(Canceled, Cancels(inputs));
      }
    }
  }

  /** The whole reduced-motion trace: render 1, finish, complete, then one `onCanceled` per cancel. */
  lemma ReducedTrace(start: real, duration: real, inputs: seq<Input>)
    ensures RunAll(Start(true, true, start, duration), inputs).trace
            == [Render(Exactly1), Finished, Completed] + Repeat(Canceled, Cancels(inputs))
  {
    ReducedRunCancels(Start(true, true, start, duration), inputs);
  }
}
