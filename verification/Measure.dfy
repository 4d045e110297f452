/** Per-slice arithmetic of the bioactivity plugin (Bioact3_): the frame
    area, the share of the frame covered by cells, and the
    background-subtracted integrated density with its exposure-normalised
    form. Java doubles are modelled as reals; a division by zero gives one
    of the non-finite doubles, as Java's floating-point division does. */
module Measure {

  /** The result of a Java double division over exact reals. */
  datatype Double = Finite(value: real) | PosInf | NegInf | NaN

  /** `x / d` in Java double arithmetic: a zero divisor gives +Infinity,
      -Infinity or NaN according to the sign of the dividend. */
  function Divide(x: real, d: real): (r: Double)
    ensures r.Finite? <==> d != 0.0
    ensures r.Finite? ==> r.value * d == x
    ensures r.PosInf? <==> d == 0.0 && x > 0.0
    ensures r.NegInf? <==> d == 0.0 && x < 0.0
    ensures r.NaN? <==> d == 0.0 && x == 0.0
  {
    if d != 0.0 then Finite(x / d)
    else if x > 0.0 then PosInf
    else if x < 0.0 then NegInf
    else NaN
  }

  const TwoTo31: int := 0x8000_0000
  const TwoTo32: int := 0x1_0000_0000

  /** The value a Java `int` holds after an arithmetic result x is
      truncated to 32-bit two's complement. */
  function Int32(x: int): (r: int)
    ensures -TwoTo31 <= r < TwoTo31
    ensures (x - r) % TwoTo32 == 0
    ensures -TwoTo31 <= x < TwoTo31 ==> r == x
  {
    var q := (x + TwoTo31) / TwoTo32;
    assert x - ((x + TwoTo31) % TwoTo32 - TwoTo31) == q * TwoTo32;
    (x + TwoTo31) % TwoTo32 - TwoTo31
  }

  /** `total_area`: the frame's width times its height, multiplied as Java
      `int`s. It equals the true pixel count whenever that fits in an int. */
  function TotalArea(width: int, height: int): (r: int)
    ensures -TwoTo31 <= r < TwoTo31
    ensures (width * height - r) % TwoTo32 == 0
    ensures 0 <= width * height < TwoTo31 ==> r == width * height
  {
    Int32(width * height)
  }

  /** `cell_area_percent`: the foreground area as a percentage of the frame.
      A zero frame area gives a non-finite double. */
  function AreaPercent(fgArea: real, totalArea: int): (r: Double)
    ensures r.Finite? <==> totalArea != 0
    ensures totalArea == 0 ==> (r.NegInf? <==> fgArea < 0.0)
  {
    Divide(100.0 * fgArea, totalArea as real)
  }

  /** A finite percentage times the frame area gives back 100 times the
      foreground area, and a foreground no larger than a non-empty frame
      covers between 0 and 100 percent of it. */
  lemma AreaPercentRange(fgArea: real, totalArea: int)
    ensures AreaPercent(fgArea, totalArea).Finite? ==>
              AreaPercent(fgArea, totalArea).value * totalArea as real == 100.0 * fgArea
    ensures 0.0 <= fgArea <= totalArea as real && totalArea != 0 ==>
              0.0 <= AreaPercent(fgArea, totalArea).value <= 100.0
  {
    if totalArea != 0 {
      var p := AreaPercent(fgArea, totalArea).value;
      assert p * totalArea as real == 100.0 * fgArea;
      if 0.0 <= fgArea <= totalArea as real {
        assert totalArea > 0;
      }
    }
  }

  /** The test that decides the background: `percent < area_threshold` on
      doubles, for a finite threshold. -Infinity is below every threshold;
      NaN and +Infinity are below none. */
  predicate BelowThreshold(percent: Double, areaThreshold: real)
  {
    match percent
    case Finite(v) => v < areaThreshold
    case NegInf => true
    case PosInf => false
    case NaN => false
  }

  /** On an empty frame (a zero `total_area`) the percentage is not finite,
      and the slice counts as below the threshold exactly when its
      foreground area is negative. */
  lemma EmptyFrameBelow(fgArea: real, areaThreshold: real)
    ensures BelowThreshold(AreaPercent(fgArea, 0), areaThreshold) <==> fgArea < 0.0
  {
    var p := AreaPercent(fgArea, 0);
    assert !p.Finite?;
  }

  /** `bs_intden`: the frame mean minus the background, times the frame area. */
  function IntDen(mean: real, background: real, totalArea: int): real
  {
    (mean - background) * totalArea as real
  }

  /** The background-subtracted density is zero exactly when the frame mean is
      the background or the frame is empty, and on a non-empty frame it is
      positive exactly when the frame is brighter than the background. */
  lemma IntDenSign(mean: real, background: real, totalArea: int)
    ensures IntDen(mean, background, totalArea) == 0.0 <==> mean == background || totalArea == 0
    ensures totalArea > 0 ==> (IntDen(mean, background, totalArea) > 0.0 <==> mean > background)
  {
  }

  /** `norm_bs_intden`: the integrated density per second of exposure. A zero
      exposure time gives a non-finite double. */
  function NormIntDen(intDen: real, expTime: real): (r: Double)
    ensures r.Finite? <==> expTime != 0.0
  {
    Divide(intDen, expTime)
  }

  /** Normalising by the exposure time is undone by multiplying by it; with
      a zero exposure the result is infinite with the density's sign, or NaN
      for a zero density. */
  lemma NormIntDenInverse(intDen: real, expTime: real)
    ensures expTime != 0.0 ==> NormIntDen(intDen, expTime).value * expTime == intDen
    ensures expTime == 0.0 ==>
              NormIntDen(intDen, expTime) ==
              (if intDen > 0.0 then PosInf else if intDen < 0.0 then NegInf else NaN)
  {
  }
}
