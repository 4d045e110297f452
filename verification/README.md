# Bioact3_ background tracking and quantification, in Dafny

Bioact3_ is an ImageJ plugin that measures fluorescence over time in a stack of
microscopy images. The plugin's own logic is the per-slice loop of
`Bioact3_.bioact`. Everything around that loop is host-application plumbing.
For each slice the loop takes these statistics from ImageJ:

- the whole-frame mean;
- the mean of the background region;
- the foreground (cell) area;
- the exposure time.

From them it works out:

- the percentage of the frame the cells cover;
- a background value;
- a streaming mean of the background means;
- the background-subtracted integrated density, raw and divided by the exposure time.

The background value is one of two things:

- below the area threshold, it is the slice's own background mean;
- at or above the threshold, it is a value frozen once per stack.

The loop writes one results row per slice.

The model has three modules:

- `Measure` (Measure.dfy): the per-slice arithmetic.
  - `total_area` is computed as a Java 32-bit `int` product, and the model writes the wrap-around out explicitly.
  - The model also covers the area percentage, the threshold test and the two integrated densities.
  - Java doubles become reals. A division by zero gives +Infinity, -Infinity or NaN, by the sign of the dividend, as Java's double division does.
- `Quantification` (Quantification.dfy): the specification.
  - `Step` is one slice of the loop. `Run` folds `Step` over a stack and gives the three loop variables (`Tracker`) and the rows written.
  - Lemmas state what the loop guarantees for the whole stack: the background each row reports, the freeze latch, the streaming-mean invariant, and the contents of each row.
- `Plugin` (Plugin.dfy): the plugin object.
  - The class `Bioact3` holds the fields the loop uses: `area_threshold`, `nSlices`, `total_area`, and the results file as the sequence of rows written so far.
  - The method `Bioact` runs the loop step by step on local variables, as the Java code does. It is proved to append exactly `Run(...).rows` to the output.

Two points where the model follows the code rather than a plausible reading of it:

1. **When the freeze value is taken.** The frozen background is copied from the running mean before the triggering slice updates that mean. So it is the mean of the background means of the slices strictly before the first at-or-above-threshold slice, or 0 if that is slice 1. A reading that puts the update first would, for background means 10, 20, 30, area percentages 10, 60, 70 and threshold 50, freeze 15. The code freezes 10. `ThreeSliceExample` proves the code's result.
2. **Slices that fall back below the threshold.** The threshold test does not consult the latch. A slice below the threshold after a freeze uses its own background mean. Only slices at or above the threshold use the frozen value. The freeze is therefore not permanent for every later slice, only for the at-or-above ones.

Zero divisors are handled the way Java handles them, not as errors. A zero exposure time or a zero frame area makes Java produce a non-finite double rather than stop the stack. So the model continues as well. On an empty frame the area percentage is -Infinity for a negative foreground area, which is below any threshold, and NaN or +Infinity otherwise, which is below none; so such a slice takes the freeze branch unless its foreground area is negative.

## Model

| member | source | states |
|---|---|---|
| `Measure.TotalArea` | imagej_plugins/bioact/Bioact3_.java:128 | the frame area is width times height reduced to a 32-bit int: congruent to the true product modulo 2^32, within int range, and equal to it whenever the product fits |
| `Measure.Int32` | imagej_plugins/bioact/Bioact3_.java:128 | a Java `int` result: within 32-bit range, congruent to the exact value modulo 2^32, and equal to it when it fits |
| `Measure.Divide` | imagej_plugins/bioact/Bioact3_.java:164 | Java double division: finite exactly for a non-zero divisor, and then the quotient times the divisor is the dividend; a zero divisor gives +Infinity, -Infinity or NaN for a positive, negative or zero dividend |
| `Measure.AreaPercent` | imagej_plugins/bioact/Bioact3_.java:164 | the cell-area percentage is finite exactly when the frame area is non-zero; on an empty frame it is -Infinity exactly when the foreground area is negative |
| `Measure.AreaPercentRange` | imagej_plugins/bioact/Bioact3_.java:164 | a finite percentage times the frame area is 100 times the foreground area; a foreground between 0 and a non-empty frame's area covers 0 to 100 percent |
| `Measure.BelowThreshold` | imagej_plugins/bioact/Bioact3_.java:170 | definition only: the strict `<` against a finite threshold, true for -Infinity and false for NaN and +Infinity |
| `Measure.EmptyFrameBelow` | imagej_plugins/bioact/Bioact3_.java:164-170 | on an empty frame a slice is below the threshold exactly when its foreground area is negative |
| `Measure.IntDen` | imagej_plugins/bioact/Bioact3_.java:196 | definition only: `bs_intden = (mean - background) * total_area` |
| `Measure.IntDenSign` | imagej_plugins/bioact/Bioact3_.java:196 | `bs_intden` is zero exactly when the frame mean equals the background or the frame is empty, and on a non-empty frame positive exactly when the frame is brighter than the background |
| `Measure.NormIntDen` | imagej_plugins/bioact/Bioact3_.java:200 | the exposure-normalised density is finite exactly when the exposure time is non-zero |
| `Measure.NormIntDenInverse` | imagej_plugins/bioact/Bioact3_.java:196-200 | a finite normalised density times the exposure time gives back the raw density; a zero exposure gives an infinity with the density's sign, or NaN for a zero density |
| `Quantification.Step` | imagej_plugins/bioact/Bioact3_.java:169-209 | one slice: below the threshold it uses its own background mean and leaves the latch alone; at or above it sets the latch and uses the frozen value, captured from the pre-update running mean only when nothing was frozen yet; a set latch never changes; the running mean is updated on every slice; the row carries the slice number, frame mean, exposure, percentage and both densities |
| `Quantification.Run` | imagej_plugins/bioact/Bioact3_.java:141-210 | processing a stack from the initial state emits exactly one row per slice |
| `Quantification.Advanced` | imagej_plugins/bioact/Bioact3_.java:186-187 | definition only: the streaming update `running += (bg - running) / i`; what it computes is stated by `AdvancedExtends` |
| `Quantification.AdvancedExtends` | imagej_plugins/bioact/Bioact3_.java:186-187 | one streaming update `running += (bg - running) / i` turns the mean of i - 1 values into the mean of i values |
| `Quantification.StreamMeanIsMean` | imagej_plugins/bioact/Bioact3_.java:186-187 | the streaming update over any run of slices yields the arithmetic mean of their background means (the mean times the count is the sum) |
| `Quantification.RunningIsStreamMean` | imagej_plugins/bioact/Bioact3_.java:169-187 | the running mean is the same whichever background branch each slice took |
| `Quantification.StreamingMean` | imagej_plugins/bioact/Bioact3_.java:141-187 | after any run of slices the running mean times the slice count is the sum of their background means, and the running mean is their mean |
| `Quantification.LatchState` | imagej_plugins/bioact/Bioact3_.java:141-183 | the latch is set exactly when some slice so far was at or above the threshold; the frozen value is then the mean background of the slices before the first such slice (0 if that is slice 1), and stays 0 before |
| `Quantification.RowAt` | imagej_plugins/bioact/Bioact3_.java:144-209 | row k of a stack is the one-slice step on slice k + 1 from the state the first k slices leave |
| `Quantification.BackgroundUsed` | imagej_plugins/bioact/Bioact3_.java:169-183 | every row's background is the slice's own background mean if it is below the threshold, whether or not a freeze has happened, and otherwise the stack's single frozen value |
| `Quantification.ThresholdIsInclusive` | imagej_plugins/bioact/Bioact3_.java:170-183 | a slice whose percentage equals the threshold exactly takes the freeze branch |
| `Quantification.FreezeIsPermanent` | imagej_plugins/bioact/Bioact3_.java:176-182 | once the first trigger has been processed the latch stays set and the frozen value never changes for the rest of the stack |
| `Quantification.RowContents` | imagej_plugins/bioact/Bioact3_.java:196-209 | row k reports slice number k + 1, that slice's frame mean, exposure time and area percentage, `bs_intden = (mean - background) * total_area`, `norm_bs_intden = bs_intden / expTime`, and the echoed area threshold and frame area |
| `Quantification.EmptyFrameExample` | imagej_plugins/bioact/Bioact3_.java:164-183 | on an empty frame a slice with foreground area -1 uses its own background 20 and leaves the latch unset, while one with foreground area 0 freezes the initial 0 |
| `Quantification.ThreeSliceExample` | imagej_plugins/bioact/Bioact3_.java:169-196 | with background means 10, 20, 30, percentages 10, 60, 70 and threshold 50, all three rows use background 10, the densities are 40000, 50000 and 60000, and the final running mean is 20 |
| `Plugin.Bioact3.constructor` | imagej_plugins/bioact/Bioact3_.java:31 | a fresh plugin holds the given area threshold and has written nothing |
| `Plugin.Bioact3.Bioact` | imagej_plugins/bioact/Bioact3_.java:126-211 | the loop sets `nSlices` and `total_area` for the stack and appends exactly the rows of `Run` over its slices to the results, starting unfrozen from a zero running mean |

## Left out

- `run` (directory choice, experiment loading, opening image sequences, closing images): host I/O and GUI plumbing.
- `makeStackSelections` (blur, rolling-ball subtraction, 8-bit conversion, maximum filter, auto-threshold, mask, fill holes, dilate, per-slice selections) and the `getStatistics`/`Select All`/`Make Inverse` calls: opaque ImageJ operations. Their results (`all_stats.mean`, `bg_stats.mean`, `fg_stats.area`) and the exposure time are the fields of each `Measurement`.
- `showDialog` and `writeHeader`: GUI dialog and file creation. The area threshold is a constructor parameter, and the header line is not modelled.
- The text formatting of each results row, and the position, wavelength, elapsed-time, rolling-ball-radius and threshold-method columns: these are Java number-to-text conversion and external metadata. The modelled row keeps the numeric columns the loop computes.
- A stack whose list of timepoints is shorter than its slice count: the Java code would fail in `images.get`, but the model takes one measurement per slice.
- IEEE-754 rounding and overflow: the streaming mean and both densities are modelled over exact reals, so the mean invariant holds exactly only in the model. Non-finite values arise only from a division by zero; a negative-zero exposure time is treated like +0, and the printed form of NaN and the infinities is not modelled.
- Measure.BelowThreshold: models the comparison only for a finite `area_threshold`. The dialog at Bioact3_.java:308 can yield NaN; then no slice compares below it, so every slice takes the freeze branch and uses the initial 0. A NaN or infinite threshold is not representable as a real.
- hcimage/test/org/fhcrc/honeycomb/hcimaging/BrightfieldImageTest.java: an ignored test that only drives an external image library.
