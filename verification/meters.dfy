/** The visualizer's numeric helpers over analyser data: averages over a
    range of frequency bins, and the peak-hold meters drawn on the HUD. */
module Meters {
  import opened JsNumber

  /** One analyser bin: an unsigned byte. */
  type Byte = x: int | 0 <= x < 256

  /** The sum of `a[lo..hi]`. */
  function Sum(a: seq<Byte>, lo: int, hi: int): int
    requires 0 <= lo <= hi <= |a|
    decreases hi - lo
  {
    if lo == hi then 0 else Sum(a, lo, hi - 1) + a[hi - 1]
  }

  /** Every entry of `a[lo..hi]` lies between `min` and `max`. */
  predicate Within(a: seq<Byte>, lo: int, hi: int, min: int, max: int)
    requires 0 <= lo <= hi <= |a|
  {
    forall i :: lo <= i < hi ==> min <= a[i] <= max
  }

  /** A sum of entries between `min` and `max` lies between `n * min` and
      `n * max`, `n` being the number of entries. */
  lemma {:induction false} SumBounds(a: seq<Byte>, lo: int, hi: int, min: int, max: int)
    requires 0 <= lo <= hi <= |a|
    requires Within(a, lo, hi, min, max)
    ensures (hi - lo) * min <= Sum(a, lo, hi) <= (hi - lo) * max
    decreases hi - lo
  {
    if lo < hi {
      var n := hi - 1 - lo;
      SumBounds(a, lo, hi - 1, min, max);
      assert min <= a[hi - 1] <= max;
      assert (n + 1) * min == n * min + min;
      assert (n + 1) * max == n * max + max;
    }
  }

  /** Dividing a sum bounded by `n * min` and `n * max` by `n`. */
  lemma MeanBounds(sum: int, n: int, min: int, max: int)
    requires n > 0
    requires n * min <= sum <= n * max
    ensures min as real <= sum as real / n as real <= max as real
  {
    var q := sum as real / n as real;
    assert q * n as real == sum as real;
    assert (n * min) as real == n as real * min as real;
    assert (n * max) as real == n as real * max as real;
  }

  /** `avgRange(arr, start, end)`: `start` is raised to 0 and `end` lowered
      to the length; an empty range averages to 0, otherwise the result is
      the mean of the entries, so it lies between any lower and upper bound
      of the entries, and within `[0, 255]`. */
  method AvgRange(arr: seq<Byte>, start: int, end: int) returns (avg: real)
    ensures Min(|arr|, end) <= Max(0, start) ==> avg == 0.0
    ensures Min(|arr|, end) > Max(0, start) ==>
      var lo, hi := Max(0, start), Min(|arr|, end);
      avg * (hi - lo) as real == Sum(arr, lo, hi) as real
      && forall min, max :: Within(arr, lo, hi, min, max) ==> min as real <= avg <= max as real
    ensures 0.0 <= avg <= 255.0
  {
    var lo := Max(0, start);
    var hi := Min(|arr|, end);
    if hi <= lo {
      return 0.0;
    }
    var sum: int := 0;
    var i := lo;
    while i < hi
      invariant lo <= i <= hi
      invariant sum == Sum(arr, lo, i)
    {
      sum := sum + arr[i];
      i := i + 1;
    }
    avg := sum as real / (hi - lo) as real;
    forall min, max | Within(arr, lo, hi, min, max)
      ensures min as real <= avg <= max as real
    {
      SumBounds(arr, lo, hi, min, max);
      MeanBounds(sum, hi - lo, min, max);
    }
    assert Within(arr, lo, hi, 0, 255);
  }

  /** `avgRangeEnd(arr, count)`: the mean of the last `min(count, length)`
      entries. When that count is zero the division is `0 / 0` and gives
      NaN; a negative count sums nothing and gives 0. */
  method AvgRangeEnd(arr: seq<Byte>, count: int) returns (avg: Number)
    ensures Min(count, |arr|) == 0 ==> avg == NaN
    ensures Min(count, |arr|) < 0 ==> avg == Finite(0.0)
    ensures Min(count, |arr|) > 0 ==>
      var c := Min(count, |arr|);
      && avg.Finite?
      && avg.value * c as real == Sum(arr, |arr| - c, |arr|) as real
      && 0.0 <= avg.value <= 255.0
  {
    var c := Min(count, |arr|);
    if c == 0 {
      return NaN;
    } else if c < 0 {
      return Finite(0.0);
    }
    var sum: int := 0;
    var i := |arr| - c;
    while i < |arr|
      invariant |arr| - c <= i <= |arr|
      invariant sum == Sum(arr, |arr| - c, i)
    {
      sum := sum + arr[i];
      i := i + 1;
    }
    avg := Finite(sum as real / c as real);
    assert Within(arr, |arr| - c, |arr|, 0, 255);
    SumBounds(arr, |arr| - c, |arr|, 0, 255);
    MeanBounds(sum, c, 0, 255);
  }

  // ---------------------------------------------------------------------
  // peak-hold meters

  /** A peak-hold meter: the held peak and the frames left before it decays. */
  datatype Meter = Meter(peak: real, hold: int)

  /** The frames a VU meter holds a new peak, and its decay factor. */
  const VuHoldFrames: nat := 30
  const VuDecay: real := 0.95

  /** The same for each bar of the spectrum scanner. */
  const SpectrumHoldFrames: nat := 20
  const SpectrumDecay: real := 0.92

  /** One frame of a peak-hold meter: a level above the peak becomes the
      new peak and restarts the hold; otherwise a running hold counts down
      with the peak unchanged; once the hold is spent the peak decays. */
  function PeakHold(m: Meter, level: real, holdFrames: nat, decay: real): (r: Meter)
    ensures level > m.peak ==> r.peak == level && r.hold == holdFrames
    ensures level <= m.peak && m.hold > 0 ==> r.peak == m.peak && r.hold == m.hold - 1
    ensures level <= m.peak && m.hold <= 0 ==> r.peak == m.peak * decay && r.hold == m.hold
  {
    if level > m.peak then Meter(level, holdFrames)
    else if m.hold > 0 then Meter(m.peak, m.hold - 1)
    else Meter(m.peak * decay, m.hold)
  }

  /** A meter keeps `0 <= hold <= holdFrames`, and for non-negative levels
      and a decay factor in `[0, 1]` its peak stays non-negative and never
      exceeds the larger of the old peak and the level. */
  lemma PeakHoldBounds(m: Meter, level: real, holdFrames: nat, decay: real)
    requires 0 <= m.hold <= holdFrames
    requires 0.0 <= m.peak && 0.0 <= level && 0.0 <= decay <= 1.0
    ensures var r := PeakHold(m, level, holdFrames, decay);
      && 0 <= r.hold <= holdFrames
      && 0.0 <= r.peak
      && r.peak <= (if level > m.peak then level else m.peak)
  {
    var r := PeakHold(m, level, holdFrames, decay);
    if level <= m.peak && m.hold <= 0 {
      assert m.peak * decay <= m.peak * 1.0;
    }
  }

  /** The meter after a sequence of frames. */
  function Frames(m: Meter, levels: seq<real>, holdFrames: nat, decay: real): Meter
    decreases |levels|
  {
    if levels == [] then m
    else Frames(PeakHold(m, levels[0], holdFrames, decay), levels[1..], holdFrames, decay)
  }

  /** A peak is held: while the levels stay at or below it, the first
      `hold` frames leave the peak where it is and count the hold down, and
      the frame after that decays it. */
  lemma {:induction false} PeakIsHeld(m: Meter, levels: seq<real>, holdFrames: nat, decay: real)
    requires 0 <= m.hold && |levels| <= m.hold + 1
    requires forall i :: 0 <= i < |levels| ==> levels[i] <= m.peak
    ensures var r := Frames(m, levels, holdFrames, decay);
      if |levels| <= m.hold then r == Meter(m.peak, m.hold - |levels|)
      else r == Meter(m.peak * decay, 0)
    decreases |levels|
  {
    if levels != [] {
      var next := PeakHold(m, levels[0], holdFrames, decay);
      if m.hold > 0 {
        PeakIsHeld(next, levels[1..], holdFrames, decay);
      }
    }
  }

  /** The VU meters: a new peak stays on the meter for 30 frames of lower
      levels and then loses 5% on the 31st. */
  lemma VuMeterHold(m: Meter, level: real, later: seq<real>)
    requires level > m.peak
    requires |later| == VuHoldFrames + 1
    requires forall i :: 0 <= i < |later| ==> later[i] <= level
    ensures Frames(PeakHold(m, level, VuHoldFrames, VuDecay), later[..VuHoldFrames], VuHoldFrames, VuDecay)
      == Meter(level, 0)
    ensures Frames(PeakHold(m, level, VuHoldFrames, VuDecay), later, VuHoldFrames, VuDecay)
      == Meter(level * 0.95, 0)
  {
    var start := PeakHold(m, level, VuHoldFrames, VuDecay);
    PeakIsHeld(start, later[..VuHoldFrames], VuHoldFrames, VuDecay);
    PeakIsHeld(start, later, VuHoldFrames, VuDecay);
  }

  /** The spectrum bars: a new peak stays for 20 frames of lower levels and
      then loses 8% on the 21st. */
  lemma SpectrumPeakHold(m: Meter, level: real, later: seq<real>)
    requires level > m.peak
    requires |later| == SpectrumHoldFrames + 1
    requires forall i :: 0 <= i < |later| ==> later[i] <= level
    ensures Frames(PeakHold(m, level, SpectrumHoldFrames, SpectrumDecay), later[..SpectrumHoldFrames],
      SpectrumHoldFrames, SpectrumDecay) == Meter(level, 0)
    ensures Frames(PeakHold(m, level, SpectrumHoldFrames, SpectrumDecay), later, SpectrumHoldFrames, SpectrumDecay)
      == Meter(level * 0.92, 0)
  {
    var start := PeakHold(m, level, SpectrumHoldFrames, SpectrumDecay);
    PeakIsHeld(start, later[..SpectrumHoldFrames], SpectrumHoldFrames, SpectrumDecay);
    PeakIsHeld(start, later, SpectrumHoldFrames, SpectrumDecay);
  }
}
