/** The per-stack quantification of Bioact3_.bioact as a specification:
    one step per slice (background choice, freeze latch, streaming mean,
    output row) and the fold of that step over a stack, with the
    properties the loop is meant to have. */
module Quantification {
  import opened Measure

  /** The host-supplied statistics of one slice: the whole-frame mean
      (`all_stats.mean`), the background-region mean (`bg_stats.mean`), the
      foreground area (`fg_stats.area`) and the exposure time. */
  datatype Measurement = Measurement(frameMean: real, bgMean: real, fgArea: real, expTime: real)

  /** The loop's three variables: the streaming mean of the background
      means, the frozen background, and the latch recording the freeze. */
  datatype Tracker = Tracker(running: real, frozen: real, frozenSet: bool)

  const Initial: Tracker := Tracker(0.0, 0.0, false)

  /** One output record, columns in file order; position, wavelength,
      elapsed time and the echoed filter settings are not modelled. */
  datatype Row = Row(
    slice: nat,
    normBsIntDen: Double,
    expTime: real,
    bsIntDen: real,
    background: real,
    meanIntensity: real,
    areaThreshold: real,
    cellAreaPercent: Double,
    totalArea: int)

  /** The state after a run of slices and the records emitted so far. */
  datatype Outcome = Outcome(tracker: Tracker, rows: seq<Row>)

  /** A slice whose foreground covers at least the threshold percentage. */
  predicate AtOrAbove(m: Measurement, areaThreshold: real, totalArea: int)
  {
    !BelowThreshold(AreaPercent(m.fgArea, totalArea), areaThreshold)
  }

  /** The streaming-mean update of slice number i (1-based):
      `running += (bg_mean - running) / i`. */
  function Advanced(running: real, bgMean: real, i: nat): real
    requires i >= 1
  {
    running + (bgMean - running) / i as real
  }

  /** Slice number i (1-based) of a stack, given the state left by the
      slices before it. */
  function Step(t: Tracker, m: Measurement, i: nat, areaThreshold: real, totalArea: int): (r: (Tracker, Row))
    requires i >= 1
    // an under-threshold slice uses its own background mean and leaves the latch alone
    ensures !AtOrAbove(m, areaThreshold, totalArea) ==>
              r.1.background == m.bgMean && r.0.frozen == t.frozen && r.0.frozenSet == t.frozenSet
    // an at-or-above slice sets the latch and uses the frozen value, which is
    // captured from the running mean (before this slice's update) only if
    // nothing was frozen yet
    ensures AtOrAbove(m, areaThreshold, totalArea) ==>
              r.0.frozenSet && r.1.background == r.0.frozen &&
              r.0.frozen == (if t.frozenSet then t.frozen else t.running)
    // once set, the latch and the frozen value never change
    ensures t.frozenSet ==> r.0.frozenSet && r.0.frozen == t.frozen
    // the running mean is updated on every slice, whichever branch it took
    ensures r.0.running == Advanced(t.running, m.bgMean, i)
    ensures r.1.slice == i && r.1.meanIntensity == m.frameMean && r.1.expTime == m.expTime
    ensures r.1.cellAreaPercent == AreaPercent(m.fgArea, totalArea)
    ensures r.1.bsIntDen == IntDen(m.frameMean, r.1.background, totalArea)
    ensures r.1.normBsIntDen == NormIntDen(r.1.bsIntDen, m.expTime)
  {
    var percent := AreaPercent(m.fgArea, totalArea);
    var latched := if BelowThreshold(percent, areaThreshold) then t
                   else Tracker(t.running, if t.frozenSet then t.frozen else t.running, true);
    var background := if BelowThreshold(percent, areaThreshold) then m.bgMean else latched.frozen;
    var bs := IntDen(m.frameMean, background, totalArea);
    (latched.(running := Advanced(t.running, m.bgMean, i)),
     Row(i, NormIntDen(bs, m.expTime), m.expTime, bs, background, m.frameMean,
         areaThreshold, percent, totalArea))
  }

  /** The whole stack: slices processed in order 1..|ms| from the initial state. */
  function Run(ms: seq<Measurement>, areaThreshold: real, totalArea: int): (o: Outcome)
    ensures |o.rows| == |ms|
    decreases |ms|
  {
    if ms == [] then Outcome(Initial, [])
    else
      var prev := Run(ms[..|ms| - 1], areaThreshold, totalArea);
      var next := Step(prev.tracker, ms[|ms| - 1], |ms|, areaThreshold, totalArea);
      Outcome(next.0, prev.rows + [next.1])
  }

  /** Sum of the background means of a run of slices. */
  function SumBg(ms: seq<Measurement>): real
    decreases |ms|
  {
    if ms == [] then 0.0 else SumBg(ms[..|ms| - 1]) + ms[|ms| - 1].bgMean
  }

  /** Arithmetic mean of the background means; 0 for no slices. */
  function MeanBg(ms: seq<Measurement>): real
  {
    if ms == [] then 0.0 else SumBg(ms) / |ms| as real
  }

  /** Index of the first at-or-above-threshold slice, |ms| if there is none. */
  function FirstAtOrAbove(ms: seq<Measurement>, areaThreshold: real, totalArea: int): (k: nat)
    ensures k <= |ms|
    ensures forall j :: 0 <= j < k ==> !AtOrAbove(ms[j], areaThreshold, totalArea)
    ensures k < |ms| ==> AtOrAbove(ms[k], areaThreshold, totalArea)
    decreases |ms|
  {
    if ms == [] then 0
    else if AtOrAbove(ms[0], areaThreshold, totalArea) then 0
    else 1 + FirstAtOrAbove(ms[1..], areaThreshold, totalArea)
  }

  /** The background that every at-or-above slice of the stack uses: the
      mean of the background means of the slices before the first such slice. */
  function FrozenValue(ms: seq<Measurement>, areaThreshold: real, totalArea: int): real
  {
    MeanBg(ms[..FirstAtOrAbove(ms, areaThreshold, totalArea)])
  }

  /** The first trigger of a prefix is the first trigger of the stack, cut at the prefix's end. */
  lemma FirstOfPrefix(ms: seq<Measurement>, k: nat, areaThreshold: real, totalArea: int)
    requires k <= |ms|
    ensures FirstAtOrAbove(ms[..k], areaThreshold, totalArea) ==
            if FirstAtOrAbove(ms, areaThreshold, totalArea) < k
            then FirstAtOrAbove(ms, areaThreshold, totalArea) else k
  {
    var g := FirstAtOrAbove(ms[..k], areaThreshold, totalArea);
    if g < k {
      assert ms[..k][g] == ms[g];
    }
  }

  /** The running mean of a run of slices, as the streaming update alone
      computes it. */
  function StreamMean(ms: seq<Measurement>): real
    decreases |ms|
  {
    if ms == [] then 0.0 else Advanced(StreamMean(ms[..|ms| - 1]), ms[|ms| - 1].bgMean, |ms|)
  }

  /** One streaming-mean update turns the mean of n - 1 values with sum s
      into the mean of n values with sum s + b. */
  lemma AdvancedExtends(r0: real, b: real, n: nat, s: real)
    requires n >= 1
    requires r0 * (n - 1) as real == s
    ensures Advanced(r0, b, n) * n as real == s + b
    ensures Advanced(r0, b, n) == (s + b) / n as real
  {
    var r1 := Advanced(r0, b, n);
    assert (b - r0) / n as real * n as real == b - r0;
    assert r1 * n as real == r0 * n as real + (b - r0);
  }

  /** The streaming update computes the arithmetic mean: over any run of
      slices, the mean times the number of slices is the sum of their
      background means. */
  lemma {:induction false} StreamMeanIsMean(ms: seq<Measurement>)
    ensures StreamMean(ms) * |ms| as real == SumBg(ms)
    ensures StreamMean(ms) == MeanBg(ms)
    decreases |ms|
  {
    if ms != [] {
      var prefix := ms[..|ms| - 1];
      StreamMeanIsMean(prefix);
      AdvancedExtends(StreamMean(prefix), ms[|ms| - 1].bgMean, |ms|, SumBg(prefix));
    }
  }

  /** Streaming-mean invariant: the loop's running mean after any run of
      slices is the arithmetic mean of their background means; every slice
      updates it, whatever branch it took. */
  lemma {:induction false} StreamingMean(ms: seq<Measurement>, areaThreshold: real, totalArea: int)
    ensures Run(ms, areaThreshold, totalArea).tracker.running * |ms| as real == SumBg(ms)
    ensures Run(ms, areaThreshold, totalArea).tracker.running == MeanBg(ms)
    decreases |ms|
  {
    RunningIsStreamMean(ms, areaThreshold, totalArea);
    StreamMeanIsMean(ms);
  }

  /** The running mean does not depend on the threshold or the latch. */
  lemma {:induction false} RunningIsStreamMean(ms: seq<Measurement>, areaThreshold: real, totalArea: int)
    ensures Run(ms, areaThreshold, totalArea).tracker.running == StreamMean(ms)
    decreases |ms|
  {
    if ms != [] {
      RunningIsStreamMean(ms[..|ms| - 1], areaThreshold, totalArea);
    }
  }

  /** The latch: it is set exactly when some slice so far was at or above the
      threshold, and the frozen value is then the mean of the background means
      before the first such slice (0 when that is slice 1); it stays 0 otherwise. */
  lemma {:induction false} LatchState(ms: seq<Measurement>, areaThreshold: real, totalArea: int)
    ensures Run(ms, areaThreshold, totalArea).tracker.frozenSet <==>
            FirstAtOrAbove(ms, areaThreshold, totalArea) < |ms|
    ensures Run(ms, areaThreshold, totalArea).tracker.frozen ==
            if FirstAtOrAbove(ms, areaThreshold, totalArea) < |ms|
            then FrozenValue(ms, areaThreshold, totalArea) else 0.0
    decreases |ms|
  {
    if ms != [] {
      var n := |ms|;
      var prefix := ms[..n - 1];
      LatchState(prefix, areaThreshold, totalArea);
      FirstOfPrefix(ms, n - 1, areaThreshold, totalArea);
      var f := FirstAtOrAbove(ms, areaThreshold, totalArea);
      if f < n - 1 {
        assert ms[..f] == prefix[..f];
      } else if f == n - 1 {
        StreamingMean(prefix, areaThreshold, totalArea);
        assert ms[..f] == prefix;
      }
    }
  }

  /** Record k of a stack is the step on slice k + 1 from the state the
      first k slices leave. */
  lemma {:induction false} RowAt(ms: seq<Measurement>, k: nat, areaThreshold: real, totalArea: int)
    requires k < |ms|
    ensures Run(ms, areaThreshold, totalArea).rows[k] ==
            Step(Run(ms[..k], areaThreshold, totalArea).tracker, ms[k], k + 1, areaThreshold, totalArea).1
    decreases |ms|
  {
    var n := |ms|;
    if k < n - 1 {
      var prefix := ms[..n - 1];
      RowAt(prefix, k, areaThreshold, totalArea);
      assert prefix[..k] == ms[..k];
    } else {
      assert ms[..k] == ms[..n - 1];
    }
  }

  /** The background each record reports: an under-threshold slice uses its
      own background mean, whether or not a freeze has happened; every
      at-or-above slice uses the one frozen value of the stack. */
  lemma BackgroundUsed(ms: seq<Measurement>, k: nat, areaThreshold: real, totalArea: int)
    requires k < |ms|
    ensures Run(ms, areaThreshold, totalArea).rows[k].background ==
            if AtOrAbove(ms[k], areaThreshold, totalArea)
            then FrozenValue(ms, areaThreshold, totalArea) else ms[k].bgMean
  {
    RowAt(ms, k, areaThreshold, totalArea);
    var f := FirstAtOrAbove(ms, areaThreshold, totalArea);
    if AtOrAbove(ms[k], areaThreshold, totalArea) {
      var before := Run(ms[..k], areaThreshold, totalArea).tracker;
      LatchState(ms[..k], areaThreshold, totalArea);
      FirstOfPrefix(ms, k, areaThreshold, totalArea);
      if f < k {
        assert before.frozenSet;
        assert ms[..k][..f] == ms[..f];
        assert before.frozen == FrozenValue(ms, areaThreshold, totalArea);
      } else {
        assert f == k;
        assert !before.frozenSet;
        StreamingMean(ms[..k], areaThreshold, totalArea);
        assert before.running == FrozenValue(ms, areaThreshold, totalArea);
      }
    }
  }

  /** The boundary is inclusive toward freezing: a slice whose percentage
      equals the threshold uses the frozen value, not its own background. */
  lemma ThresholdIsInclusive(ms: seq<Measurement>, k: nat, areaThreshold: real, totalArea: int)
    requires k < |ms|
    requires AreaPercent(ms[k].fgArea, totalArea) == Finite(areaThreshold)
    ensures Run(ms, areaThreshold, totalArea).rows[k].background ==
            FrozenValue(ms, areaThreshold, totalArea)
  {
    BackgroundUsed(ms, k, areaThreshold, totalArea);
  }

  /** The frozen value is captured once: every later state of the stack keeps
      the latch set and the value it had just after the first trigger. */
  lemma FreezeIsPermanent(ms: seq<Measurement>, i: nat, j: nat, areaThreshold: real, totalArea: int)
    requires FirstAtOrAbove(ms, areaThreshold, totalArea) < i <= j <= |ms|
    ensures Run(ms[..j], areaThreshold, totalArea).tracker.frozenSet
    ensures Run(ms[..j], areaThreshold, totalArea).tracker.frozen ==
            Run(ms[..i], areaThreshold, totalArea).tracker.frozen
  {
    var f := FirstAtOrAbove(ms, areaThreshold, totalArea);
    LatchState(ms[..i], areaThreshold, totalArea);
    LatchState(ms[..j], areaThreshold, totalArea);
    FirstOfPrefix(ms, i, areaThreshold, totalArea);
    FirstOfPrefix(ms, j, areaThreshold, totalArea);
    assert ms[..i][..f] == ms[..f];
    assert ms[..j][..f] == ms[..f];
  }

  /** What each record holds: its 1-based slice number (one record per slice,
      in order), the frame mean and exposure time of that slice, the echoed
      threshold and frame area, and the background-subtracted integrated density and its exposure-normalised
      form computed from the background that record reports. */
  lemma RowContents(ms: seq<Measurement>, k: nat, areaThreshold: real, totalArea: int)
    requires k < |ms|
    ensures Run(ms, areaThreshold, totalArea).rows[k].slice == k + 1
    ensures Run(ms, areaThreshold, totalArea).rows[k].meanIntensity == ms[k].frameMean
    ensures Run(ms, areaThreshold, totalArea).rows[k].expTime == ms[k].expTime
    ensures Run(ms, areaThreshold, totalArea).rows[k].cellAreaPercent == AreaPercent(ms[k].fgArea, totalArea)
    ensures Run(ms, areaThreshold, totalArea).rows[k].bsIntDen ==
            IntDen(ms[k].frameMean, Run(ms, areaThreshold, totalArea).rows[k].background, totalArea)
    ensures Run(ms, areaThreshold, totalArea).rows[k].normBsIntDen ==
            NormIntDen(Run(ms, areaThreshold, totalArea).rows[k].bsIntDen, ms[k].expTime)
    ensures Run(ms, areaThreshold, totalArea).rows[k].areaThreshold == areaThreshold
    ensures Run(ms, areaThreshold, totalArea).rows[k].totalArea == totalArea
  {
    RowAt(ms, k, areaThreshold, totalArea);
  }

  /** On an empty frame a slice with a negative foreground area has a
      percentage of -Infinity, which is below the threshold, so it uses its
      own background mean; any other slice takes the freeze branch. */
  lemma EmptyFrameExample()
    ensures Step(Initial, Measurement(60.0, 20.0, -1.0, 1.0), 1, 50.0, 0).1.background == 20.0
    ensures !Step(Initial, Measurement(60.0, 20.0, -1.0, 1.0), 1, 50.0, 0).0.frozenSet
    ensures Step(Initial, Measurement(60.0, 20.0, 0.0, 1.0), 1, 50.0, 0).1.background == 0.0
    ensures Step(Initial, Measurement(60.0, 20.0, 0.0, 1.0), 1, 50.0, 0).0.frozenSet
  {
    EmptyFrameBelow(-1.0, 50.0);
    EmptyFrameBelow(0.0, 50.0);
  }

  /** The stack of three slices with background means 10, 20, 30, area
      percentages 10, 60, 70 (foreground areas on a 1000-pixel frame) and
      threshold 50: slice 2 freezes the mean of slice 1 alone, 10, not the
      15 that includes its own background, and slice 3 reuses it. */
  lemma ThreeSliceExample()
    ensures var ms := [Measurement(50.0, 10.0, 100.0, 1.0),
                       Measurement(60.0, 20.0, 600.0, 1.0),
                       Measurement(70.0, 30.0, 700.0, 1.0)];
            var rows := Run(ms, 50.0, 1000).rows;
            && rows[0].background == 10.0 && rows[0].bsIntDen == 40000.0
            && rows[1].background == 10.0 && rows[1].bsIntDen == 50000.0
            && rows[2].background == 10.0 && rows[2].bsIntDen == 60000.0
            && Run(ms, 50.0, 1000).tracker.running == 20.0
  {
    var ms := [Measurement(50.0, 10.0, 100.0, 1.0),
               Measurement(60.0, 20.0, 600.0, 1.0),
               Measurement(70.0, 30.0, 700.0, 1.0)];
    assert AreaPercent(100.0, 1000) == Finite(10.0);
    assert AreaPercent(600.0, 1000) == Finite(60.0);
    assert AreaPercent(700.0, 1000) == Finite(70.0);
    assert FirstAtOrAbove(ms, 50.0, 1000) == 1 by {
      assert !AtOrAbove(ms[0], 50.0, 1000) && AtOrAbove(ms[1], 50.0, 1000);
    }
    assert ms[..1] == [ms[0]];
    assert SumBg(ms[..1]) == 10.0 by {
      assert ms[..1][..0] == [];
    }
    assert FrozenValue(ms, 50.0, 1000) == 10.0;
    assert SumBg(ms) == 60.0 by {
      assert ms[..2][..1] == ms[..1];
      assert SumBg(ms[..2]) == 30.0;
    }
    forall k | 0 <= k < 3
      ensures Run(ms, 50.0, 1000).rows[k].background == 10.0
      ensures Run(ms, 50.0, 1000).rows[k].bsIntDen ==
              (ms[k].frameMean - 10.0) * 1000.0
    {
      BackgroundUsed(ms, k, 50.0, 1000);
      RowContents(ms, k, 50.0, 1000);
    }
    StreamingMean(ms, 50.0, 1000);
  }
}
