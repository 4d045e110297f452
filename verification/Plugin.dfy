/** The plugin object of Bioact3_ as far as the quantification loop uses it:
    the configured area threshold, the per-stack fields `nSlices` and
    `total_area`, and the results writer, modelled as the sequence of rows
    written so far. */
module Plugin {
  import opened Measure
  import opened Quantification

  class Bioact3 {
    /** `area_threshold`, as the parameter dialog leaves it; the dialog's default is 50. */
    var areaThreshold: real
    /** `nSlices`: slices in the stack being processed. */
    var nSlices: int
    /** `total_area`: pixels per frame of that stack. */
    var totalArea: int
    /** Records printed to the results file so far. */
    var out: seq<Row>

    constructor (areaThreshold: real)
      ensures this.areaThreshold == areaThreshold
      ensures nSlices == 0 && totalArea == 0 && out == []
    {
      this.areaThreshold := areaThreshold;
      nSlices := 0;
      totalArea := 0;
      out := [];
    }

    /** Quantifies one stack: `slices[i - 1]` holds the statistics the host
        reports for slice i of a width-by-height stack. Appends one record
        per slice, in slice order, to the results; the three loop variables
        are local to the call, so every stack starts unfrozen from a zero
        running mean. */
    method Bioact(slices: seq<Measurement>, width: int, height: int)
      modifies this`nSlices, this`totalArea, this`out
      ensures nSlices == |slices|
      ensures totalArea == TotalArea(width, height)
      ensures out == old(out) + Run(slices, areaThreshold, totalArea).rows
    {
      nSlices := |slices|;
      totalArea := TotalArea(width, height);

      var runningBackgroundMean := 0.0;
      var finalRunningBackgroundMean := 0.0;
      var finalBg := false;
      var i := 1;
      while i <= nSlices
        invariant 1 <= i <= nSlices + 1 && nSlices == |slices|
        invariant totalArea == TotalArea(width, height)
        invariant Run(slices[..i - 1], areaThreshold, totalArea).tracker ==
                  Tracker(runningBackgroundMean, finalRunningBackgroundMean, finalBg)
        invariant out == old(out) + Run(slices[..i - 1], areaThreshold, totalArea).rows
      {
        var m := slices[i - 1];
        var cellAreaPercent := AreaPercent(m.fgArea, totalArea);

        var background: real;
        if BelowThreshold(cellAreaPercent, areaThreshold) {
          background := m.bgMean;
        } else {
          if !finalBg {
            finalRunningBackgroundMean := runningBackgroundMean;
          }
          background := finalRunningBackgroundMean;
          finalBg := true;
        }

        var delta := m.bgMean - runningBackgroundMean;
        runningBackgroundMean := runningBackgroundMean + delta / i as real;

        var bsIntDen := IntDen(m.frameMean, background, totalArea);
        var normBsIntDen := NormIntDen(bsIntDen, m.expTime);
        out := out + [Row(i, normBsIntDen, m.expTime, bsIntDen, background, m.frameMean,
                          areaThreshold, cellAreaPercent, totalArea)];

        assert slices[..i][..i - 1] == slices[..i - 1];
        i := i + 1;
      }
      assert slices[..i - 1] == slices;
    }
  }
}
