/** On-body detection from the motion variance of two axes (common/body_detection.c). */
module BodyDetection {
  import opened Arith
  import opened SlidingWindow

  const UINT64: int := 0x1_0000_0000_0000_0000

  /** The accelerometer delivers 16-bit samples. */
  predicate IsSample(x: int) {
    -0x8000 <= x < 0x8000
  }

  /** The history and running sums of one axis. */
  class MotionData {
    var history: array<int>
    var sum: int
    /** A 64-bit unsigned accumulator. */
    var n2Variance: int

    constructor (size: nat)
      ensures fresh(history) && history.Length == size
      ensures history[..] == Zeros(size) && sum == 0 && n2Variance == 0
    {
      history := new int[size](_ => 0);
      sum, n2Variance := 0, 0;
    }

    /** update_motion_data (lines 67-78); the addition wraps as in the C type. */
    method Update(xn: int, n: int, idx: nat)
      requires idx < history.Length
      modifies this, history
      ensures history == old(history)
      ensures history[..] == old(history[..])[idx := xn]
      ensures sum == old(sum) + xn - old(history[idx])
      ensures n2Variance == (old(n2Variance)
                             + (xn - old(history[idx])) * (n * (xn + old(history[idx])) - sum - old(sum))) % UINT64
    {
      var x0 := history[idx];
      var sumDiff := xn - x0;
      var newSum := sum + sumDiff;
      n2Variance := (n2Variance + sumDiff * (n * (xn + x0) - newSum - sum)) % UINT64;
      sum := newSum;
      history[idx] := xn;
    }

    method Clear()
      modifies this, history
      ensures history == old(history)
      ensures history[..] == Zeros(history.Length) && sum == 0 && n2Variance == 0
    {
      sum, n2Variance := 0, 0;
      for i := 0 to history.Length
        invariant history == old(history) && sum == 0 && n2Variance == 0
        invariant forall k | 0 <= k < i :: history[k] == 0
      {
        history[i] := 0;
      }
    }

    /** The ring holds the last n samples of the log, and both sums belong to that window. */
    ghost predicate Tracks(n: nat, idx: nat, log: seq<int>)
      reads this, history
    {
      && idx <= n <= history.Length
      && Unrolled(history[..n], idx) == Window(log, n)
      && sum == Sum(Window(log, n))
      && n2Variance == ScaledVariance(Window(log, n))
    }
  }

  /** The exact new value of the accumulator fits its type, so nothing wraps. */
  lemma VarianceFits(w: seq<int>)
    requires |w| <= 0xFFFF && forall i | 0 <= i < |w| :: IsSample(w[i])
    ensures 0 <= 2 * ScaledVariance(w) < UINT64
    ensures ScaledVariance(w) % UINT64 == ScaledVariance(w)
  {
    VarianceNonNegative(w);
    BoundedSquares(w, 0x8000);
    SizeBound(|w|, SumOfSquares(w));
    SquareExpands(0, Sum(w));
  }

  lemma SizeBound(n: int, q: int)
    requires 0 <= n <= 0xFFFF && q <= n * (0x8000 * 0x8000)
    ensures 2 * (n * q) < UINT64
  {
    assert q <= 0xFFFF * 0x8000 * 0x8000;
    if q > 0 {
      assert n * q <= 0xFFFF * q;
    } else {
      assert n * q <= 0;
    }
  }

  /** One sample moves the window by one and leaves both sums exact. */
  lemma TrackStep(ring: seq<int>, idx: nat, log: seq<int>, xn: int)
    requires idx < |ring| <= 0xFFFF
    requires Unrolled(ring, idx) == Window(log, |ring|)
    requires IsSample(xn) && forall i | 0 <= i < |log| :: IsSample(log[i])
    ensures var n, w, v := |ring|, Window(log, |ring|), Window(log + [xn], |ring|);
      && Unrolled(ring[idx := xn], Next(idx, n)) == v
      && Sum(v) == Sum(w) + xn - ring[idx]
      && ScaledVariance(v)
         == (ScaledVariance(w) + (xn - ring[idx]) * (n * (xn + ring[idx]) - Sum(v) - Sum(w))) % UINT64
  {
    hide Sum, SumOfSquares, ScaledVariance, Unrolled;
    var w := Window(log, |ring|);
    UnrolledStep(ring, idx, xn);
    WindowStep(log, |ring|, xn);
    SlideSum(w, xn);
    VarianceStep(w, xn);
    VarianceFits(Window(log + [xn], |ring|));
  }

  datatype State = OffBody | OnBody

  /** Unsigned 64-bit subtraction and the confidence ramp (lines 95-103). */
  datatype Confidence = Percent(value: int) | DivideByZero

  /** What is left of a 64-bit value in an int. */
  function ToInt(x: int): int {
    (x + 0x8000_0000) % 0x1_0000_0000 - 0x8000_0000
  }

  function MotionConfidence(variance: int, threshold: int, delta: int): Confidence {
    if variance < (threshold - delta) % UINT64 then Percent(0)
    else if variance > (threshold + delta) % UINT64 then Percent(100)
    else if 2 * delta % UINT64 == 0 then DivideByZero
    else Percent(ToInt(100 * ((variance - threshold + delta) % UINT64) % UINT64 / (2 * delta % UINT64)))
  }

  /** The intended confidence: 0 below the band, 100 above it, a straight line between. */
  function Ramp(variance: int, threshold: int, delta: int): int
    requires delta > 0
  {
    if variance <= threshold - delta then 0
    else if variance >= threshold + delta then 100
    else 100 * (variance - threshold + delta) / (2 * delta)
  }

  predicate IsUint64(x: int) {
    0 <= x < UINT64
  }

  /** Neither limit wraps, nor the product. */
  predicate NothingWraps(threshold: int, delta: int) {
    delta <= threshold && threshold + delta < UINT64 && 200 * delta < UINT64
  }

  /** The confidence is the ramp when nothing wraps. It divides by zero where twice the delta is zero
      or wraps to zero, on the limit. With a delta above the threshold the lower limit wraps, and the
      confidence is 0 for every variance short of the wrapped one. */
  lemma ConfidenceIsRamp(variance: int, threshold: int, delta: int)
    requires IsUint64(variance) && IsUint64(threshold) && IsUint64(delta)
    ensures var c := MotionConfidence(variance, threshold, delta);
      && (c.DivideByZero? <==> 2 * delta % UINT64 == 0 && variance == (threshold + delta) % UINT64)
      && (delta > 0 && NothingWraps(threshold, delta) ==> c == Percent(Ramp(variance, threshold, delta)))
      && (delta > threshold && 2 * delta < UINT64 ==>
            c == Percent(if variance < UINT64 - (delta - threshold) then 0 else 100))
    ensures delta > 0 ==> 0 <= Ramp(variance, threshold, delta) <= 100
  {
    hide MotionConfidence, Ramp;
    if delta > 0 {
      RampInRange(variance, threshold, delta);
      if NothingWraps(threshold, delta) {
        RampComputed(variance, threshold, delta);
      }
    }
    DividesByZeroIff(variance, threshold, delta);
    if delta > threshold && 2 * delta < UINT64 {
      LowerLimitWraps(variance, threshold, delta);
    }
  }

  lemma HalfWay(threshold: int)
    requires IsUint64(threshold)
    ensures (threshold - 0x8000_0000_0000_0000) % UINT64 == (threshold + 0x8000_0000_0000_0000) % UINT64
  {}

  lemma DividesByZeroIff(variance: int, threshold: int, delta: int)
    requires IsUint64(variance) && IsUint64(threshold) && IsUint64(delta)
    ensures MotionConfidence(variance, threshold, delta).DivideByZero?
            <==> 2 * delta % UINT64 == 0 && variance == (threshold + delta) % UINT64
  {
    hide ToInt;
    if delta == 0 {
      NoWrap(threshold);
    } else if 2 * delta % UINT64 == 0 {
      assert delta == 0x8000_0000_0000_0000;
      HalfWay(threshold);
    }
  }

  lemma LowerLimitWraps(variance: int, threshold: int, delta: int)
    requires IsUint64(variance) && IsUint64(threshold) && threshold < delta && 2 * delta < UINT64
    ensures MotionConfidence(variance, threshold, delta)
         == Percent(if variance < UINT64 - (delta - threshold) then 0 else 100)
  {
    hide ToInt;
    WrapOnce(threshold - delta);
    NoWrap(threshold + delta);
  }

  lemma RampInRange(variance: int, threshold: int, delta: int)
    requires delta > 0
    ensures 0 <= Ramp(variance, threshold, delta) <= 100
  {
    if threshold - delta < variance < threshold + delta {
      RampValue(variance - threshold + delta, 2 * delta);
    }
  }

  lemma RampComputed(variance: int, threshold: int, delta: int)
    requires IsUint64(variance) && IsUint64(threshold) && delta > 0 && NothingWraps(threshold, delta)
    ensures MotionConfidence(variance, threshold, delta) == Percent(Ramp(variance, threshold, delta))
  {
    var up, span := variance - threshold + delta, 2 * delta;
    NoWrap(threshold + delta);
    NoWrap(threshold - delta);
    NoWrap(span);
    if 0 <= up <= span {
      NoWrap(up);
      NoWrap(100 * up);
      RampValue(up, span);
    }
  }

  /** So the code computes the ramp for every variance exactly if nothing wraps. */
  lemma RampIff(threshold: int, delta: int)
    requires IsUint64(threshold) && IsUint64(delta) && delta > 0
    ensures (forall v | IsUint64(v) :: MotionConfidence(v, threshold, delta) == Percent(Ramp(v, threshold, delta)))
            <==> NothingWraps(threshold, delta)
  {
    hide MotionConfidence;
    if NothingWraps(threshold, delta) {
      forall v | IsUint64(v) ensures MotionConfidence(v, threshold, delta) == Percent(Ramp(v, threshold, delta)) {
        RampComputed(v, threshold, delta);
      }
    } else if delta <= threshold && threshold + delta < UINT64 {
      assert IsUint64(threshold + delta);
      TopFails(threshold, delta);
    } else {
      MiddleFails(threshold, delta);
    }
  }

  /** When a limit wraps, on the threshold itself. */
  lemma MiddleFails(threshold: int, delta: int)
    requires IsUint64(threshold) && IsUint64(delta) && delta > 0
    requires delta > threshold || threshold + delta >= UINT64
    ensures MotionConfidence(threshold, threshold, delta) != Percent(Ramp(threshold, threshold, delta))
  {
    DivModUnique(100 * delta, 2 * delta, 50, 0);
    if delta > threshold {
      WrapOnce(threshold - delta);
    } else {
      NoWrap(threshold - delta);
      WrapBack(threshold + delta);
    }
  }

  /** When only the product wraps, at the upper limit. */
  lemma TopFails(threshold: int, delta: int)
    requires IsUint64(threshold) && delta > 0 && delta <= threshold && threshold + delta < UINT64
    requires 200 * delta >= UINT64
    ensures MotionConfidence(threshold + delta, threshold, delta) != Percent(Ramp(threshold + delta, threshold, delta))
  {
    NoWrap(threshold + delta);
    NoWrap(threshold - delta);
    NoWrap(2 * delta);
    var q := 200 * delta % UINT64 / (2 * delta);
    SmallQuotient(200 * delta % UINT64, 2 * delta, 100);
    assert ToInt(q) == q;
  }

  lemma SmallQuotient(a: int, d: int, n: int)
    requires 0 <= a < n * d && d > 0
    ensures 0 <= a / d < n
  {
    if a / d >= n {
      MulOrder(n, a / d, d);
    }
  }

  lemma MulOrder(a: int, b: int, d: int)
    requires a <= b && d > 0
    ensures a * d <= b * d
  {}

  lemma WrapBack(x: int)
    requires UINT64 <= x < 2 * UINT64
    ensures x % UINT64 == x - UINT64
  {}

  // ----- The scaled parameters -----

  /** The parameters of a sensor; 0 stands for the default. */
  datatype Params = Params(noiseFactor: int, threshold: int, delta: int)

  /** Lines 245-258. */
  function Complete(p: Params): Params {
    Params(if p.noiseFactor != 0 then p.noiseFactor else 120,
           if p.threshold != 0 then p.threshold else 550,
           if p.delta != 0 then p.delta else 525)
  }

  /** Lines 208-209. */
  function VarNoise(rmsNoise: int, factor: int): int {
    ToInt(rmsNoise * rmsNoise * factor * 9604 % UINT64 / 100 / 100_000_000)
  }

  function Multiplier(range: nat): (m: nat)
    requires range > 0
    ensures m <= 0x4000_0000
  {
    SquareOfQuotient(range);
    (0x8000 / range) * (0x8000 / range)
  }

  lemma SquareOfQuotient(range: nat)
    requires range > 0
    ensures 0 <= (0x8000 / range) * (0x8000 / range) <= 0x4000_0000
  {
    QuotientNonNegative(0x8000, range);
    assert 0x8000 / range <= 0x8000;
    MulOrder(0x8000 / range, 0x8000, 0x8000);
    if 0x8000 / range > 0 {
      MulOrder(0x8000 / range, 0x8000, 0x8000 / range);
    }
  }

  /** From mm^2/s^4 to squared units of the sensor (lines 211-214). */
  function Scaled(x: int, range: nat): int
    requires range > 0
  {
    x % UINT64 * Multiplier(range) % UINT64 / 96_040_000
  }

  /** The scaled value is x times the square of the units per g, over the square of 9800 mm/s^2 per g,
      rounded down. */
  lemma ScaledIs(x: int, range: nat)
    requires 0 <= x < 0x8000_0000 && range > 0
    ensures var g, y := 0x8000 / range, Scaled(x, range);
      9800 * 9800 * y <= x * (g * g) < 9800 * 9800 * (y + 1)
  {
    var g := 0x8000 / range;
    SquareOfQuotient(range);
    var m := g * g;
    MulOrder(m, 0x4000_0000, x + 1);
    MulOrder(0, m, x + 1);
    if x > 0 {
      MulOrder(m, 0x4000_0000, x);
      MulOrder(0, m, x);
    }
    NoWrap(x);
    NoWrap(x * m);
  }

  /** The noise is the given percentage of its square, in mm^2/s^4 from micro-g, rounded down. */
  lemma VarNoiseIs(rmsNoise: nat, factor: nat)
    requires rmsNoise <= 10_000 && factor <= 1_000
    ensures var noise := VarNoise(rmsNoise, factor);
      100 * 10_000 * 10_000 * noise <= rmsNoise * rmsNoise * factor * 98 * 98
      < 100 * 10_000 * 10_000 * (noise + 1)
  {
    var a := rmsNoise * rmsNoise;
    if rmsNoise > 0 {
      MulOrder(rmsNoise, 10_000, rmsNoise);
      MulOrder(0, rmsNoise, rmsNoise);
    }
    assert 0 <= a <= 100_000_000;
    BothBounded(a, factor);
    var p := a * factor * 9604;
    NoWrap(p);
    assert p == rmsNoise * rmsNoise * factor * 98 * 98;
  }

  lemma BothBounded(a: nat, f: nat)
    requires a <= 100_000_000 && f <= 1_000
    ensures 0 <= a * f * 9604 <= 100_000_000 * 1_000 * 9604
  {
    if f > 0 {
      MulOrder(a, 100_000_000, f);
      MulOrder(0, a, f);
    }
  }

  /** Without parameters the noise counts 120 percent, the threshold is 550 and the delta 525. */
  lemma Defaults(p: Params)
    ensures Complete(Params(0, 0, 0)) == Params(120, 550, 525)
    ensures p.noiseFactor != 0 && p.threshold != 0 && p.delta != 0 ==> Complete(p) == p
  {}

  /** For every range, noise and parameters whose delta does not exceed the threshold with its noise,
      the scaled ones do not wrap; so the confidence is the ramp, unless the delta scales to zero. */
  lemma ParamsGiveRamp(range: nat, rmsNoise: int, p: Params)
    requires range > 0
    requires var q := Complete(p);
      0 <= q.delta <= q.threshold + VarNoise(rmsNoise, q.noiseFactor) < 0x8000_0000
    ensures var q := Complete(p);
      var threshold, delta := Scaled(q.threshold + VarNoise(rmsNoise, q.noiseFactor), range), Scaled(q.delta, range);
      && IsUint64(threshold) && IsUint64(delta) && NothingWraps(threshold, delta)
      && (delta == 0 <==> q.delta * Multiplier(range) < 96_040_000)
  {
    hide VarNoise, Multiplier;
    var q := Complete(p);
    ScaledOrder(q.delta, q.threshold + VarNoise(rmsNoise, q.noiseFactor), Multiplier(range));
  }

  lemma ScaledOrder(a: int, b: int, m: nat)
    requires 0 <= a <= b < 0x8000_0000 && m <= 0x4000_0000
    ensures 0 <= a % UINT64 * m % UINT64 / 96_040_000 <= b % UINT64 * m % UINT64 / 96_040_000 < 0x8_0000_0000
    ensures a % UINT64 * m % UINT64 / 96_040_000 == 0 <==> a * m < 96_040_000
  {
    NoWrap(a);
    NoWrap(b);
    if m > 0 {
      MulOrder(a, b, m);
      MulOrder(0, a, m);
    }
    MulOrder(m, 0x4000_0000, b + 1);
    assert b * m <= 0x8000_0000 * 0x4000_0000;
    NoWrap(a * m);
    NoWrap(b * m);
  }

  lemma WrapOnce(x: int)
    requires -UINT64 < x < 0
    ensures x % UINT64 == x + UINT64
  {}

  lemma NoWrap(x: int)
    requires 0 <= x < UINT64
    ensures x % UINT64 == x
  {}

  lemma RampValue(up: int, span: int)
    requires 0 <= up <= span && span > 0
    ensures 0 <= 100 * up / span <= 100
    ensures up == 0 ==> 100 * up / span == 0
    ensures up == span ==> 100 * up / span == 100
  {
    var q := 100 * up / span;
    if up == span {
      DivModUnique(100 * up, span, 100, 0);
    } else if q > 100 {
      MulStrict(q, 100, span);
    }
  }

  const MAX_WINDOW: nat := 250
  const ON_BODY_CON: int := 50
  const OFF_BODY_CON: int := 10
  const STATIONARY_DURATION: int := 15

  /** One second of samples at the data rate (lines 173-182); a rate below 1 Hz gives 0. */
  function WindowSize(odr: int): int {
    if TruncDiv(odr, 1000) > MAX_WINDOW then MAX_WINDOW else TruncDiv(odr, 1000)
  }

  class BodyDetector {
    const x: MotionData
    const y: MotionData
    var windowSize: int
    var historyIdx: nat
    var historyInitialized: bool
    var enabled: bool
    var motionState: State
    var stationaryTimeframe: int
    var threshold: int
    var delta: int

    /** The samples of each axis since the motion data was last cleared. */
    ghost var xs: seq<int>
    ghost var ys: seq<int>

    ghost predicate Shape()
      reads this, x, y
    {
      && x != y && x.history != y.history
      && x.history.Length == y.history.Length == MAX_WINDOW
    }

    /** Both sums are exact for the last windowSize samples; once the history counts as
        initialized the window is at most one sample short of real data. A window size of
        zero (a data rate below 1 Hz) never gets that far. */
    ghost predicate Valid()
      reads this, x, y, x.history, y.history
    {
      && Shape()
      && windowSize <= MAX_WINDOW
      && |xs| == |ys|
      && (forall i | 0 <= i < |xs| :: IsSample(xs[i]) && IsSample(ys[i]))
      && (if windowSize >= 1 then
            && historyIdx < windowSize
            && x.Tracks(windowSize, historyIdx, xs) && y.Tracks(windowSize, historyIdx, ys)
            && (if historyInitialized then |xs| >= 1 && |xs| + 1 >= windowSize
                else |xs| == historyIdx && historyIdx + 1 <= windowSize && (|xs| > 0 ==> historyIdx + 1 < windowSize))
          else historyIdx == 0 && !historyInitialized)
    }

    constructor ()
      ensures Valid() && fresh(x) && fresh(y) && fresh(x.history) && fresh(y.history)
      ensures xs == [] && ys == [] && !enabled && motionState == OffBody && windowSize == MAX_WINDOW
    {
      x := new MotionData(MAX_WINDOW);
      y := new MotionData(MAX_WINDOW);
      windowSize, historyIdx, historyInitialized, enabled := MAX_WINDOW, 0, false, false;
      motionState, stationaryTimeframe, threshold, delta := OffBody, 0, 0, 0;
      xs, ys := [], [];
      new;
      EmptyWindow(MAX_WINDOW);
      assert x.history[..MAX_WINDOW] == Zeros(MAX_WINDOW) && y.history[..MAX_WINDOW] == Zeros(MAX_WINDOW);
    }

    /** update_motion_data on one axis, as a step of the window. */
    method UpdateAxis(d: MotionData, xn: int, ghost log: seq<int>)
      requires d.history.Length == MAX_WINDOW && historyIdx < MAX_WINDOW && windowSize <= MAX_WINDOW
      requires IsSample(xn) && forall i | 0 <= i < |log| :: IsSample(log[i])
      requires windowSize >= 1 ==> historyIdx < windowSize && d.Tracks(windowSize, historyIdx, log)
      modifies d, d.history
      ensures d.history == old(d.history)
      ensures windowSize >= 1 ==> d.Tracks(windowSize, Next(historyIdx, windowSize), log + [xn])
    {
      hide Window, Unrolled, Sum, SumOfSquares, ScaledVariance;
      ghost var n := windowSize;
      ghost var ring := if n >= 1 then d.history[..n] else [];
      d.Update(xn, windowSize, historyIdx);
      if n >= 1 {
        TrackStep(ring, historyIdx, log, xn);
        assert d.history[..n] == ring[historyIdx := xn];
      }
    }

    /** update_motion_variance (lines 81-86). */
    method UpdateMotionVariance(sx: int, sy: int)
      requires Shape() && windowSize <= MAX_WINDOW && historyIdx < MAX_WINDOW
      requires IsSample(sx) && IsSample(sy)
      requires forall i | 0 <= i < |xs| :: IsSample(xs[i])
      requires forall i | 0 <= i < |ys| :: IsSample(ys[i])
      requires windowSize >= 1 ==> historyIdx < windowSize
      requires windowSize >= 1 ==> x.Tracks(windowSize, historyIdx, xs) && y.Tracks(windowSize, historyIdx, ys)
      modifies this`historyIdx, this`xs, this`ys, x, y, x.history, y.history
      ensures Shape() && x.history == old(x.history) && y.history == old(y.history)
      ensures xs == old(xs) + [sx] && ys == old(ys) + [sy]
      ensures historyIdx == if old(historyIdx) + 1 >= windowSize then 0 else old(historyIdx) + 1
      ensures windowSize >= 1 ==>
                x.Tracks(windowSize, historyIdx, xs) && y.Tracks(windowSize, historyIdx, ys)
    {
      hide Window, Unrolled, Sum, SumOfSquares, ScaledVariance;
      UpdateAxis(x, sx, xs);
      UpdateAxis(y, sy, ys);
      historyIdx := if historyIdx + 1 >= windowSize then 0 else historyIdx + 1;
      xs, ys := xs + [sx], ys + [sy];
    }

    /** get_motion_variance (lines 89-93): the sum does not wrap, and the divisor is not zero. */
    method GetMotionVariance() returns (variance: int)
      requires Valid() && windowSize >= 1
      ensures variance == MeanVariance(xs, ys, windowSize)
    {
      hide Window, Unrolled, Sum, SumOfSquares, ScaledVariance;
      WindowOfSamples(xs, windowSize);
      WindowOfSamples(ys, windowSize);
      VarianceFits(Window(xs, windowSize));
      VarianceFits(Window(ys, windowSize));
      return (x.n2Variance + y.n2Variance) % UINT64 / windowSize / windowSize;
    }

    method ChangeState(state: State)
      modifies this`motionState, this`stationaryTimeframe
      ensures motionState == state
      ensures stationaryTimeframe == if state.OnBody? then 0 else old(stationaryTimeframe)
    {
      motionState := state;
      if state == OnBody {
        stationaryTimeframe := 0;
      }
    }

    method SetEnable(enable: bool)
      requires Valid()
      modifies this`enabled, this`motionState, this`stationaryTimeframe
      ensures Valid() && enabled == enable && motionState == OnBody && stationaryTimeframe == 0
    {
      enabled := enable;
      ChangeState(OnBody);
    }

    /** body_detect_reset (lines 218-268), with what the sensor reports and its parameters; a range
        of zero is divided by. */
    method Reset(odr: int, range: nat, rmsNoise: int, params: Params) returns (fault: bool)
      requires Valid()
      modifies this, x, y, x.history, y.history
      ensures Valid() && x.history == old(x.history) && y.history == old(y.history)
      ensures motionState == OnBody && stationaryTimeframe == 0 && enabled == old(enabled)
      ensures odr == 0 ==> xs == old(xs) && ys == old(ys) && windowSize == old(windowSize)
                           && historyIdx == old(historyIdx) && historyInitialized == old(historyInitialized)
                           && threshold == old(threshold) && delta == old(delta)
      ensures fault <==> odr != 0 && range == 0
      ensures odr != 0 && !fault ==>
        var q := Complete(params);
        && xs == [] && ys == [] && windowSize == WindowSize(odr) && historyIdx == 0 && !historyInitialized
        && threshold == Scaled(q.threshold + VarNoise(rmsNoise, q.noiseFactor), range)
        && delta == Scaled(q.delta, range)
    {
      hide Window, Unrolled, Sum, SumOfSquares, ScaledVariance, Scaled, VarNoise;
      if motionState == OnBody {
        stationaryTimeframe := 0;
      } else {
        ChangeState(OnBody);
      }
      if odr == 0 {
        return false;
      }
      if range == 0 {
        return true;
      }
      var q := Complete(params);
      Restart(odr, Scaled(q.threshold + VarNoise(rmsNoise, q.noiseFactor), range), Scaled(q.delta, range));
      return false;
    }

    /** Lines 260-267: a new window size, new thresholds and cleared motion data. */
    method Restart(odr: int, newThreshold: int, newDelta: int)
      requires Shape()
      modifies this, x, y, x.history, y.history
      ensures Valid() && x.history == old(x.history) && y.history == old(y.history)
      ensures motionState == old(motionState) && stationaryTimeframe == old(stationaryTimeframe)
      ensures enabled == old(enabled) && xs == [] && ys == [] && windowSize == WindowSize(odr)
      ensures historyIdx == 0 && !historyInitialized && threshold == newThreshold && delta == newDelta
    {
      hide Window, Unrolled, Sum, SumOfSquares, ScaledVariance;
      windowSize := TruncDiv(odr, 1000);
      if windowSize > MAX_WINDOW {
        windowSize := MAX_WINDOW;
      }
      threshold, delta := newThreshold, newDelta;
      ClearAxis(x);
      ClearAxis(y);
      historyIdx, historyInitialized := 0, false;
      xs, ys := [], [];
    }

    /** The part of the memset (line 265) that belongs to one axis. */
    method ClearAxis(d: MotionData)
      requires d.history.Length == MAX_WINDOW && windowSize <= MAX_WINDOW
      modifies d, d.history
      ensures d.history == old(d.history)
      ensures windowSize >= 1 ==> d.Tracks(windowSize, 0, [])
    {
      hide Window, Unrolled, Sum, SumOfSquares, ScaledVariance;
      d.Clear();
      if windowSize >= 1 {
        EmptyWindow(windowSize);
        assert d.history[..windowSize] == Zeros(windowSize);
      }
    }

    /** body_detect (lines 270-304). The confidence is computed only from a full window of
        real samples; `fault` reports the division by zero that a zero delta can cause. */
    method BodyDetect(sx: int, sy: int) returns (fault: bool)
      requires Valid() && IsSample(sx) && IsSample(sy)
      modifies this, x, y, x.history, y.history
      ensures Valid() && x.history == old(x.history) && y.history == old(y.history)
      ensures enabled == old(enabled) && windowSize == old(windowSize)
      ensures threshold == old(threshold) && delta == old(delta)
      ensures !enabled ==> xs == old(xs) && ys == old(ys) && motionState == old(motionState)
                           && stationaryTimeframe == old(stationaryTimeframe) && !fault
      ensures enabled ==> xs == old(xs) + [sx] && ys == old(ys) + [sy]
      ensures enabled && !old(historyInitialized) ==>
                motionState == old(motionState) && stationaryTimeframe == old(stationaryTimeframe) && !fault
      ensures enabled && old(historyInitialized) ==> 1 <= windowSize <= |xs|
      ensures enabled && old(historyInitialized) ==>
                var c := MotionConfidence(MeanVariance(xs, ys, windowSize), threshold, delta);
                && fault == c.DivideByZero?
                && (motionState, stationaryTimeframe)
                   == if fault then (old(motionState), old(stationaryTimeframe))
                      else Transition(old(motionState), old(stationaryTimeframe), c.value, windowSize)
    {
      hide Window, Unrolled, Sum, SumOfSquares, ScaledVariance;
      fault := false;
      if !enabled {
        return;
      }
      UpdateMotionVariance(sx, sy);
      if !historyInitialized {
        if historyIdx == windowSize - 1 {
          historyInitialized := true;
        }
        return;
      }
      var variance := GetMotionVariance();
      var confidence := MotionConfidence(variance, threshold, delta);
      if confidence.DivideByZero? {
        return true;
      }
      Judge(confidence.value);
    }

    /** Lines 287-303. */
    method Judge(confidence: int)
      modifies this`motionState, this`stationaryTimeframe
      ensures (motionState, stationaryTimeframe)
           == Transition(old(motionState), old(stationaryTimeframe), confidence, windowSize)
    {
      match motionState {
        case OffBody =>
          if confidence > ON_BODY_CON {
            ChangeState(OnBody);
          }
        case OnBody =>
          stationaryTimeframe := stationaryTimeframe + 1;
          if confidence >= OFF_BODY_CON {
            stationaryTimeframe := 0;
          }
          if stationaryTimeframe >= STATIONARY_DURATION * windowSize {
            ChangeState(OffBody);
          }
      }
    }
  }

  /** Var(X) + Var(Y) of the last n samples of each axis. */
  function MeanVariance(xs: seq<int>, ys: seq<int>, n: int): int
    requires n >= 1
  {
    (ScaledVariance(Window(xs, n)) + ScaledVariance(Window(ys, n))) / n / n
  }

  /** It is the sum of both variances rounded down, each the mean of the squared deviations from the
      mean; n^2 times a variance is the scaled one. */
  lemma MeanVarianceIs(xs: seq<int>, ys: seq<int>, n: nat)
    requires n >= 1
    ensures var mean := MeanVariance(xs, ys, n);
      var total := ScaledVariance(Window(xs, n)) + ScaledVariance(Window(ys, n));
      0 <= n * n * mean <= total < n * n * (mean + 1)
    ensures var w := Window(xs, n); Deviations(w, n, Sum(w)) == n * ScaledVariance(w)
    ensures var w := Window(ys, n); Deviations(w, n, Sum(w)) == n * ScaledVariance(w)
  {
    hide Window, Sum, ScaledVariance, Deviations;
    VarianceIsDeviation(Window(xs, n));
    VarianceIsDeviation(Window(ys, n));
    VarianceNonNegative(Window(xs, n));
    VarianceNonNegative(Window(ys, n));
    DivideTwice(ScaledVariance(Window(xs, n)) + ScaledVariance(Window(ys, n)), n);
  }

  lemma DivideTwice(a: nat, n: nat)
    requires n >= 1
    ensures var q := a / n / n; 0 <= n * n * q <= a < n * n * (q + 1)
  {
    QuotientNonNegative(a, n);
    QuotientNonNegative(a / n, n);
    Combine(a / n / n, n, a % n, a / n % n);
  }

  lemma Combine(q: nat, n: nat, r: nat, s: nat)
    requires r < n && s < n
    ensures 0 <= n * n * q <= (q * n + s) * n + r < n * n * (q + 1)
  {
    assert (q * n + s) * n == n * n * q + s * n;
    assert n * n * (q + 1) == n * n * q + n * n;
    MulOrder(s + 1, n, n);
    assert (s + 1) * n == s * n + n;
    MulOrder(0, s, n);
    MulOrder(0, n, n);
    if q > 0 {
      MulOrder(0, q, n * n);
    }
  }

  /** A window is one second of samples, as far as there is room. */
  lemma WindowIsOneSecond(odr: int)
    requires odr >= 0
    ensures var size := WindowSize(odr);
      0 <= 1000 * size <= odr && (size == 250 || odr < 1000 * (size + 1)) && size <= 250
  {}

  lemma WindowOfSamples(log: seq<int>, n: nat)
    requires forall i | 0 <= i < |log| :: IsSample(log[i])
    ensures forall i | 0 <= i < n :: IsSample(Window(log, n)[i])
  {}

  /** The state and the stationary count after one confidence value (lines 287-303). */
  function Transition(state: State, frames: int, confidence: int, n: int): (State, int) {
    match state
    case OffBody => if confidence > ON_BODY_CON then (OnBody, 0) else (OffBody, frames)
    case OnBody =>
      var still := if confidence >= OFF_BODY_CON then 0 else frames + 1;
      (if still >= STATIONARY_DURATION * n then OffBody else OnBody, still)
  }

  function Run(state: State, frames: int, confidences: seq<int>, n: int): (State, int)
    decreases |confidences|
  {
    if confidences == [] then (state, frames)
    else
      var (s, f) := Transition(state, frames, confidences[0], n);
      Run(s, f, confidences[1..], n)
  }

  lemma {:induction false} RunMore(state: State, frames: int, confidences: seq<int>, c: int, n: int)
    ensures var (s, f) := Run(state, frames, confidences, n);
      Run(state, frames, confidences + [c], n) == Transition(s, f, c, n)
    decreases |confidences|
  {
    if confidences == [] {
      assert [c][1..] == [];
    } else {
      assert (confidences + [c])[1..] == confidences[1..] + [c];
      var (s, f) := Transition(state, frames, confidences[0], n);
      RunMore(s, f, confidences[1..], c, n);
    }
  }

  /** From off-body nothing happens as long as no confidence is above 50, and the first one that is
      turns on-body with a fresh count. */
  lemma {:induction false} OffBodyRun(frames: int, confidences: seq<int>, c: int, n: int)
    requires forall i | 0 <= i < |confidences| :: confidences[i] <= 50
    ensures Run(OffBody, frames, confidences, n) == (OffBody, frames)
    ensures Run(OffBody, frames, confidences + [c], n) == if c > 50 then (OnBody, 0) else (OffBody, frames)
    decreases |confidences|
  {
    if confidences != [] {
      var k := |confidences| - 1;
      OffBodyRun(frames, confidences[..k], confidences[k], n);
      assert confidences == confidences[..k] + [confidences[k]];
    }
    RunMore(OffBody, frames, confidences, c, n);
  }

  /** The confidences below 10 in a row at the end, with the count before if there is no other. */
  function Streak(frames: int, confidences: seq<int>): int {
    if confidences == [] then frames
    else if confidences[|confidences| - 1] >= 10 then 0
    else 1 + Streak(frames, confidences[..|confidences| - 1])
  }

  lemma {:induction false} StreakIs(frames: int, confidences: seq<int>, j: nat)
    requires j <= |confidences| && (forall i | j <= i < |confidences| :: confidences[i] < 10)
    requires j > 0 ==> confidences[j - 1] >= 10
    ensures Streak(frames, confidences) == |confidences| - j + if j == 0 then frames else 0
    decreases |confidences|
  {
    if j < |confidences| {
      StreakIs(frames, confidences[..|confidences| - 1], j);
    }
  }

  /** From on-body it turns off exactly with the confidence that completes 15 seconds of samples in a
      row below 10; any other starts the count again. */
  lemma {:induction false} OnBodyRun(frames: nat, confidences: seq<int>, n: int)
    requires n >= 1 && frames < 15 * n
    requires forall k | 0 <= k < |confidences| :: Streak(frames, confidences[..k]) < 15 * n
    ensures Run(OnBody, frames, confidences, n)
         == (if Streak(frames, confidences) < 15 * n then OnBody else OffBody, Streak(frames, confidences))
    decreases |confidences|
  {
    if confidences != [] {
      var k := |confidences| - 1;
      assert confidences == confidences[..k] + [confidences[k]];
      assert forall i | 0 <= i <= k :: confidences[..k][..i] == confidences[..i];
      OnBodyRun(frames, confidences[..k], n);
      RunMore(OnBody, frames, confidences[..k], confidences[k], n);
    }
  }

  /** From on-body, k samples in a row without motion reach off-body exactly when they make
      up the full stationary duration, and not one sample earlier. */
  lemma {:induction false} StationaryDuration(frames: nat, still: seq<int>, n: int)
    requires n >= 1 && frames < STATIONARY_DURATION * n
    requires forall i | 0 <= i < |still| :: still[i] < OFF_BODY_CON
    ensures Run(OnBody, frames, still, n).0 == OnBody <==> frames + |still| < STATIONARY_DURATION * n
    decreases |still|
  {
    if still != [] {
      if frames + 1 < STATIONARY_DURATION * n {
        StationaryDuration(frames + 1, still[1..], n);
      } else {
        StaysOff(frames + 1, still[1..], n);
      }
    }
  }

  lemma {:induction false} StaysOff(frames: int, still: seq<int>, n: int)
    requires forall i | 0 <= i < |still| :: still[i] < OFF_BODY_CON
    ensures Run(OffBody, frames, still, n) == (OffBody, frames)
    decreases |still|
  {
    if still != [] {
      StaysOff(frames, still[1..], n);
    }
  }

  lemma EmptyWindow(n: nat)
    ensures Unrolled(Zeros(n), 0) == Window([], n)
    ensures Sum(Window([], n)) == 0 && ScaledVariance(Window([], n)) == 0
  {
    assert Window([], n) == Zeros(n);
    SumOfZeros(n);
  }

  lemma {:induction false} SumOfZeros(n: nat)
    ensures Sum(Zeros(n)) == 0 && SumOfSquares(Zeros(n)) == 0
  {
    if n > 0 {
      assert Zeros(n)[1..] == Zeros(n - 1);
      SumOfZeros(n - 1);
    }
  }
}