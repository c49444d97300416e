# QACITS estimator core in Dafny

QACITS (Quadrant Analysis of Coronagraphic Images for Tip-tilt Sensing) estimates the
residual tip-tilt of a star behind a vortex coronagraph from its images. Each frame is
split about the star's position. The flux on the far side minus the flux on the near
side is the *differential intensity*, taken along x and along y. It is measured in three
annular regions of the pupil image: inner, outer and full. From there:

- The inner and outer moduli are linear in the tip-tilt amplitude.
- The full modulus is cubic in the tip-tilt amplitude.
- `calibrate_qacits` fits those coefficients on frames taken at known offsets.
- `run_qacits` inverts them and fuses the three regional estimates into one (x, y) estimate per frame.

This project models that core. Each part is proved against its own specification:

- `BinImages`: frame binning, done in place on a zero-allocated output array.
- `CircleMask`: the snapped-centre circular mask.
- `DeltaI`: the differential intensities from cumulative column and row sums, interpolated on the half-pixel grid.
- `PsfFlux`:
  - disk photometry;
  - the per-frame `get_di_xy`;
  - `get_all_di`, which subtracts two disks into an annulus, removes the full region's linear bias, and converts to modulus and argument.
- `RunQacits`: the regional estimates, the per-frame decision table and the 11-column output row.
- `Calibration`: the calibration pipeline. It normalises in place and fits a least-squares slope per region over a strict window of true amplitudes (on cube roots for the full region).

`Base`, `Numerics` and `Images` hold the shared values:

- optional arguments, results and regions;
- a `Math` record of the transcendental functions, with the laws a lemma may assume about them;
- frames as `seq<seq<real>>` with their sums.

Frames are `Image = seq<seq<real>>`, indexed `img[y][x]`, with the NumPy shape `(ny, nx)` passed alongside.

## Model

| member | source | states |
|---|---|---|
| BinImages.BinImages | qacits/util/bin_images.py:25-45 | Returns exactly `Binned`. This covers the error cases, the copy for `nbin == 0` or a single frame, the mean for `nbin == 1`, and the group-by-group fill of the zero-allocated output. |
| BinImages.BinnedErrors | qacits/util/bin_images.py:27-43 | The result is an error exactly when `nbin > N`, or when `nbin < 0` with at least two frames; the first of these is the assertion failure. |
| BinImages.BinnedZeroIsCopy | qacits/util/bin_images.py:30-31 | `nbin == 0` returns the input frames unchanged. |
| BinImages.BinnedOneIsMean | qacits/util/bin_images.py:33-34 | `nbin == 1` returns one frame; each pixel is that pixel's mean over all frames. |
| BinImages.BinnedShape | qacits/util/bin_images.py:36-41 | For `2 <= nbin <= N` there are exactly `nbin` output frames, each of the input shape. |
| BinImages.GroupStart | qacits/util/bin_images.py:38-41 | Group `i` starts at `N % nbin + (N / nbin) * i`, and a whole group fits before `N`. |
| BinImages.GroupLayout | qacits/util/bin_images.py:38-41 | The groups are back to back, each at least one frame wide. The first starts after the `N % nbin` leading frames and the last ends at `N`. |
| BinImages.Group | qacits/util/bin_images.py:41 | A group holds `N / nbin >= 1` frames of the cube's shape. |
| BinImages.BinnedGroup | qacits/util/bin_images.py:40-41 | Output frame `i` is the mean of input frames `[i0 + w*i, i0 + w*(i+1))`. |
| BinImages.FrameInOneGroup | qacits/util/bin_images.py:38-41 | Every frame from `N % nbin` on lies in exactly one group: group number `(k - N % nbin) / w`. |
| BinImages.BinnedIgnoresLeadingFrames | qacits/util/bin_images.py:38-41 | Two cubes that agree from frame `N % nbin` on bin to the same result; the dropped leading frames never matter. |
| BinImages.MeanWithin | qacits/util/bin_images.py:41 | A mean of values in `[lo, hi]` lies in `[lo, hi]`. |
| BinImages.BinnedPixelWithinGroup | qacits/util/bin_images.py:40-41 | Each output pixel lies between the least and the greatest value of that pixel in its group. |
| CircleMask.RoundHalfEven | qacits/util/circle_mask.py:34-35 | `np.round` gives an integer within 1/2 of its argument, and the even one on a tie. |
| CircleMask.RoundHalfEvenUnique | qacits/util/circle_mask.py:34-35 | Those two properties determine the rounded value. |
| CircleMask.SnapToHalfPixel | qacits/util/circle_mask.py:34-35 | The snapped centre is a rounded multiple of 1/2, within 1/4 of the given centre. |
| CircleMask.CircleMaskMembership | qacits/util/circle_mask.py:27-42 | A pixel is in the mask exactly when its distance to the snapped centre is strictly below the radius. The distance is compared both squared and through `sqrt`. |
| CircleMask.CircleMaskEmptyRadius | qacits/util/circle_mask.py:42 | A radius `<= 0` gives an all-false mask. |
| CircleMask.CircleMaskMonotone | qacits/util/circle_mask.py:42 | A larger radius keeps every pixel of a smaller one. |
| CircleMask.DefaultCentreIsSnapped | qacits/util/circle_mask.py:29-35 | The default centre `(n - 1) / 2` is already on the half-pixel grid, so snapping does not move it. |
| CircleMask.SnapTiesGoToEven | qacits/util/circle_mask.py:34-35 | Quarter-pixel ties snap to the even multiple of 1/2: 0.25 goes to 0, 0.75 to 1 and 1.25 to 1. |
| DeltaI.GetDeltaI | qacits/util/get_delta_i.py:35-50 | One `(Ix, Iy)` row per frame, each the frame's `DeltaIFrame` about the given centre or the default `n // 2`. |
| DeltaI.CumSumsLast | qacits/util/get_delta_i.py:46-48 | The last cumulative sum `S[-1]` is the total of the profile. |
| DeltaI.CumSumsStep | qacits/util/get_delta_i.py:46-47 | Each cumulative sum adds one value to the previous one. |
| DeltaI.CumSumsNondecreasing | qacits/util/get_delta_i.py:46-47 | On a non-negative profile the cumulative sums never decrease. |
| DeltaI.CumSumsGrow | qacits/util/get_delta_i.py:46-47 | On a non-negative profile a later cumulative sum is at least any earlier one. |
| DeltaI.CumSumsDifference | qacits/util/get_delta_i.py:46-47 | The cumulative sums of a difference are the differences of the cumulative sums. |
| DeltaI.CumSumsAdd | qacits/util/get_delta_i.py:46-47 | The cumulative sums of a sum are the sums of the cumulative sums. |
| DeltaI.CumSumsScale | qacits/util/get_delta_i.py:46-47 | The cumulative sums of a scaled profile are the scaled cumulative sums. |
| DeltaI.InterpSegment | qacits/util/get_delta_i.py:48-49 | On `[j + 0.5, j + 1.5]`, `np.interp` is the line through the samples `j` and `j + 1`. |
| DeltaI.InterpClampLow | qacits/util/get_delta_i.py:48-49 | At or before the first sample point, `np.interp` holds the first sample. |
| DeltaI.InterpClampHigh | qacits/util/get_delta_i.py:48-49 | At or after the last sample point, `np.interp` holds the last sample. |
| DeltaI.InterpClosedForm | qacits/util/get_delta_i.py:48-49 | Strictly inside the grid, the interpolation is `fp[j] + (x - j - 0.5)(fp[j+1] - fp[j])` with `j = floor(x - 0.5)`. |
| DeltaI.InterpAtSample | qacits/util/get_delta_i.py:48-49 | At a sample point the interpolation returns the sample. |
| DeltaI.InterpAtMidpoint | qacits/util/get_delta_i.py:48-49 | At an integer position `k` the interpolation returns the mean of the samples `k - 1` and `k`. |
| DeltaI.InterpWithinRange | qacits/util/get_delta_i.py:48-49 | On a non-decreasing sequence the interpolation lies between its first and last samples. |
| DeltaI.InterpDifference | qacits/util/get_delta_i.py:48-49 | Interpolation commutes with elementwise difference. |
| DeltaI.InterpAdd | qacits/util/get_delta_i.py:48-49 | Interpolation commutes with elementwise sum. |
| DeltaI.InterpScale | qacits/util/get_delta_i.py:48-49 | Interpolation commutes with scaling. |
| DeltaI.ImbalanceTotal | qacits/util/get_delta_i.py:46-49 | `Ix` is the profile's total minus twice the interpolated cumulative sum. |
| DeltaI.ImbalanceAtBoundary | qacits/util/get_delta_i.py:46-49 | About the pixel boundary `j + 0.5`, `Ix` is exactly the flux after it minus the flux up to it. |
| DeltaI.ImbalanceAtPixel | qacits/util/get_delta_i.py:46-49 | About the pixel centre `k`, the flux after pixel `k` minus the flux before it; pixel `k` is split evenly. |
| DeltaI.ImbalanceClamped | qacits/util/get_delta_i.py:46-49 | A centre before the first sample point gives `total - 2 p[0]`; one after the last gives `-total`. |
| DeltaI.ImbalanceOfMirrorProfile | qacits/util/get_delta_i.py:46-49 | A profile that mirrors about `k / 2` (value `i` equals value `k - i`, zero where `k - i` is outside) has zero imbalance there, for every `1 <= k <= 2n - 1`: every whole or half-pixel centre from `0.5` to `n - 0.5`. |
| DeltaI.MirrorHalves | qacits/util/get_delta_i.py:46-49 | For such a profile the first `a` values and the values from `k + 1 - a` on carry the same flux. |
| DeltaI.MirrorImbalanceAtBoundary | qacits/util/get_delta_i.py:46-49 | The half-integer case: mirror about `j + 0.5`, zero imbalance there. |
| DeltaI.MirrorImbalanceAtPixel | qacits/util/get_delta_i.py:46-49 | The whole-pixel case: mirror about pixel `j >= 1`, zero imbalance there. |
| DeltaI.ImbalanceMirrorAtEdge | qacits/util/get_delta_i.py:46-49 | The centre `0` is the exception: a profile mirroring about it reads `-p[0]`, because the interpolation clamps below `0.5`. |
| DeltaI.ImbalanceOfSymmetricProfile | qacits/util/get_delta_i.py:46-49 | The case `k = n - 1`: a symmetric profile of at least two values has zero imbalance about its middle `(n - 1) / 2`. |
| DeltaI.ImbalanceDifference | qacits/util/get_delta_i.py:46-49 | Imbalance is linear under differences. |
| DeltaI.ImbalanceAdd | qacits/util/get_delta_i.py:46-49 | Imbalance is linear under sums. |
| DeltaI.ImbalanceScale | qacits/util/get_delta_i.py:46-49 | Imbalance is linear under scaling. |
| DeltaI.SplitDifferenceScale | qacits/util/get_delta_i.py:48-49 | `S[-1] - 2 interp(c, S)` scales with `S`. |
| DeltaI.ImbalanceOfZero | qacits/util/get_delta_i.py:46-49 | A zero profile has zero imbalance about any centre. |
| DeltaI.DeltaIFrameTotals | qacits/util/get_delta_i.py:46-49 | `Ix` and `Iy` are each the frame's total flux minus twice the interpolated cumulative column (row) sum. |
| DeltaI.DeltaIFrameMirrorX | qacits/util/get_delta_i.py:46-48 | A frame whose columns mirror about `k / 2`, and are dark where the mirror column is outside, has `Ix == 0` there, for every `1 <= k <= 2 nx - 1`. |
| DeltaI.DeltaIFrameMirrorY | qacits/util/get_delta_i.py:47-49 | The same for rows: `Iy == 0` about `k / 2`, for every `1 <= k <= 2 ny - 1`. |
| DeltaI.DeltaIFrameMirrorXAtMiddle | qacits/util/get_delta_i.py:46-48 | The case `k = nx - 1`: columns mirroring about `(nx - 1) / 2` give `Ix == 0` there. |
| DeltaI.DeltaIFrameMirrorYAtMiddle | qacits/util/get_delta_i.py:47-49 | The case `k = ny - 1`: rows mirroring about `(ny - 1) / 2` give `Iy == 0` there. |
| DeltaI.DefaultCentreOffsetOnEvenWidth | qacits/util/get_delta_i.py:37-38 | With the default `cx = nx // 2` on an even width, a mirror-symmetric frame gives `Ix = -(column nx/2's sum)`, not 0. |
| DeltaI.DeltaIFrameAdd | qacits/util/get_delta_i.py:46-50 | The operator is linear under sums of frames. |
| DeltaI.DeltaIFrameDifference | qacits/util/get_delta_i.py:46-50 | The operator is linear under differences of frames. |
| DeltaI.DeltaIFrameScale | qacits/util/get_delta_i.py:46-50 | Scaling a frame by `a` scales both `Ix` and `Iy` by `a`. |
| DeltaI.ColumnImbalanceScale | qacits/util/get_delta_i.py:46-48 | Scaling a frame scales its column imbalance. |
| DeltaI.RowImbalanceScale | qacits/util/get_delta_i.py:47-49 | Scaling a frame scales its row imbalance. |
| DeltaI.DeltaIFrameOfDark | qacits/util/get_delta_i.py:46-50 | A dark frame has `(Ix, Iy) == (0, 0)` about every centre. |
| PsfFlux.MaskDiskPixel | qacits/util/psf_flux.py:33-35 | A masked pixel keeps its value exactly when `sqrt(dx² + dy²) <= radius`; otherwise it is 0. |
| PsfFlux.PsfFluxBounds | qacits/util/psf_flux.py:26-35 | On a non-negative frame, `0 <= psf_flux <= total flux`. |
| PsfFlux.PsfFluxMonotone | qacits/util/psf_flux.py:33-35 | On a non-negative frame the flux does not decrease with the radius. |
| PsfFlux.PsfFluxNegativeRadius | qacits/util/psf_flux.py:33-35 | A negative radius gives flux 0. |
| PsfFlux.PsfFluxWholeFrame | qacits/util/psf_flux.py:33-35 | A disk that covers the frame collects its total flux. |
| PsfFlux.GetDiXY | qacits/util/psf_flux.py:67-88 | One row per frame. Radius 0 gives zero rows; otherwise each row is the masked frame's total minus twice the interpolated cumulative column (row) sums. |
| PsfFlux.DiXYFrameIsDeltaIOfMask | qacits/util/psf_flux.py:82-87 | For a non-zero radius, `get_di_xy` is `get_delta_i`'s operator applied to the disk-masked frame. |
| PsfFlux.DiXYFrameNegativeRadius | qacits/util/psf_flux.py:75-87 | A negative radius reads `(0, 0)`, the same as radius 0. |
| PsfFlux.MaskDiskNegativeRadius | qacits/util/psf_flux.py:82 | A negative radius zeroes every pixel. |
| PsfFlux.DiXYFrameOfSymmetricFrame | qacits/util/psf_flux.py:67-88 | A frame mirror-symmetric in x and y, measured about the default centre, gives `(0, 0)` for every radius. |
| PsfFlux.MaskDiskMirror | qacits/util/psf_flux.py:79-82 | The disk about the frame's middle keeps the frame's mirror symmetries. |
| PsfFlux.MaskAnnulusPixel | qacits/util/psf_flux.py:136-139 | For `0 <= r0 <= r1` the difference of the two disks keeps exactly the pixels with `r0 < r <= r1`. |
| PsfFlux.RingDiFromCentre | qacits/util/psf_flux.py:136-139 | With inner radius 0, a region's value is the whole disk's value. |
| PsfFlux.RingDiIsAnnulus | qacits/util/psf_flux.py:136-139 | For non-zero radii, a region's value is the differential intensity of the frame restricted to its annulus. |
| PsfFlux.RegionDis | qacits/util/psf_flux.py:134-139 | The first loop gives keys exactly `{inner, outer, full}`. Each value is the outer-radius rows minus the inner-radius rows. |
| PsfFlux.AddScaledZero | qacits/util/psf_flux.py:143 | `ratio == 0` leaves the full rows unchanged. |
| PsfFlux.GetAllDi | qacits/util/psf_flux.py:134-152 | Both dictionaries have keys exactly `{inner, outer, full}`. They hold the moduli and arguments of the debiased region rows. |
| PsfFlux.DebiasOnlyChangesFull | qacits/util/psf_flux.py:143 | The debias changes only the full region, which becomes `full + ratio * outer`; with `ratio == 0` nothing changes. |
| PsfFlux.AddScaledInverse | qacits/util/psf_flux.py:143 | The debias is undone by subtracting the same multiple of the outer rows. |
| PsfFlux.ModulusProperties | qacits/util/psf_flux.py:149 | The modulus is `>= 0`, its square is `Ix² + Iy²`, and it is 0 exactly when both are. |
| PsfFlux.AllDiOfSymmetricFrame | qacits/util/psf_flux.py:134-143 | An exactly centred, doubly symmetric frame gives `(0, 0)` in every region, for every ratio. |
| PsfFlux.RingDiOfSymmetricFrame | qacits/util/psf_flux.py:136-139 | Such a frame gives `(0, 0)` for every pair of radii. |
| RunQacits.InnerEstimate | qacits/run_qacits.py:75-77 | Inner modulus times the slope is the measured modulus; the phase is the argument plus pi. |
| RunQacits.OuterEstimate | qacits/run_qacits.py:79-81 | Outer modulus times the slope is the measured modulus; the phase is the argument. |
| RunQacits.FullEstimateCube | qacits/run_qacits.py:83-85 | The full phase is the argument and the full modulus is the non-negative cube root of `abs(mod / full_coeff)`. |
| RunQacits.Decide | qacits/run_qacits.py:124-160 | The small regime holds exactly when `outer modulus < small_tt_regime`, and then only the inner/outer phase test decides. The outer/full blend happens exactly when both large-regime tests pass. `FullOnly` needs full modulus `< 1` and `FullUnit` needs `>= 1`. |
| RunQacits.FuseImage | qacits/run_qacits.py:98-167 | One loop pass gives the fused estimate and the three test values. |
| RunQacits.FinalEstimates | qacits/run_qacits.py:87-167 | A forced region's estimates are copied verbatim with zero tests. Otherwise each frame gets its fused estimate and test values. |
| RunQacits.Layout | qacits/run_qacits.py:170-179 | The row has 11 columns: final (x, y) = modulus·(cos, sin) phase, then inner, outer and full (modulus, phase), then the three tests. |
| RunQacits.RunQacits | qacits/run_qacits.py:74-181 | `ncube` rows, row `i` being `RowAt` of image `i`. |
| RunQacits.PhasorModulus | qacits/run_qacits.py:102-104 | A phasor's modulus is its estimate's modulus. |
| RunQacits.UnitModulus | qacits/run_qacits.py:151-158 | `exp(1j t)` has modulus 1. |
| RunQacits.SmallRegimeIgnoresFull | qacits/run_qacits.py:125-135 | In the small regime the result does not depend on the full estimate. It is the inner/outer mean when the phases agree, else the outer phasor. |
| RunQacits.LargeRegimeIgnoresInner | qacits/run_qacits.py:138-160 | In the large regime the result does not depend on the inner estimate. |
| RunQacits.LargeRegimeModulusCapped | qacits/run_qacits.py:147-160 | In the large regime without a blend, the final modulus is the full modulus capped at 1. |
| RunQacits.ZeroFullNeverBlends | qacits/run_qacits.py:115-143 | With full modulus 0 the strict modulus test fails, so there is never a blend. |
| RunQacits.SamePhaseDifference | qacits/run_qacits.py:108-109 | The phase test sees no difference between a phase and itself. |
| RunQacits.AlignedPhasesAreAveraged | qacits/run_qacits.py:108-129 | Small regime, equal phases, positive tolerance: the inner and outer phasors are averaged. |
| RunQacits.ForcedRow | qacits/run_qacits.py:90-95 | With `force` set, the row's final (x, y) is the forced region's estimate and its tests are zero. |
| RunQacits.FusedXYIsMeanPhasor | qacits/run_qacits.py:165-172 | Without forcing, the final (x, y) is `meanphasor` itself. |
| RunQacits.FusedInPolarRange | qacits/run_qacits.py:96-167 | Without forcing, the final modulus is `>= 0` and the final phase lies in `(-pi, pi]`. |
| RunQacits.ForcedInnerPhaseBeyondPi | qacits/run_qacits.py:75-77 | A forced inner estimate keeps the phase `arg + pi`, which is `> pi` for a positive argument. |
| RunQacits.ForcedOuterModulusNegative | qacits/run_qacits.py:79-81 | A forced outer estimate with a negative slope has a negative modulus for a positive measurement. |
| RunQacits.DefaultSettingsFuse | qacits/run_qacits.py:9-13 | The default arguments make every division defined and force nothing, so the final estimate is the fused one, in polar range. |
| RunQacits.PolarRoundTrip | qacits/run_qacits.py:165-172 | Converting to (abs, arctan2) and back with (cos, sin) is the identity. |
| RunQacits.RowsAreIndependent | qacits/run_qacits.py:97-167 | Each row depends only on its own image's moduli and arguments. |
| Calibration.Coefficients | qacits/calibrate_qacits.py:55-73 | The dictionary returned when every region has samples. Keys are exactly `{inner, outer, full}`, each holding that region's `Coefficient`. |
| Calibration.DefaultsWellFormed | qacits/calibrate_qacits.py:7-8 | The default `radii` and `tt_fit_lim` name all three regions, every default window has `0 <= lo < hi`, and the default radii are measurable exactly on non-empty frames (or at sampling 0). |
| Calibration.NormalizeInPlace | qacits/calibrate_qacits.py:42 | The cube array is replaced in place by every frame divided pixelwise by the flux. |
| Calibration.BinnedIsCube | qacits/calibrate_qacits.py:41 | A successful binning keeps the frame shape. |
| Calibration.MeasuredModuli | qacits/calibrate_qacits.py:45 | `all_di_mod` has keys exactly `{inner, outer, full}`, one value per frame. |
| Calibration.FitCoefficients | qacits/calibrate_qacits.py:55-73 | The region loop fails with `NoSamples` exactly when some region's paired samples are empty (unpacking the empty `zip(*sorted(...))` raises). Otherwise it fills `coeffs` with exactly `Coefficients`. |
| Calibration.FitRegion | qacits/calibrate_qacits.py:57-70 | One pass gives that region's `Coefficient`: window, cube roots for full, slope, cube for full. |
| Calibration.CalibrateQacits | qacits/calibrate_qacits.py:37-100 | Binning errors propagate unchanged. After a successful binning it fails exactly when there is no tip-tilt offset or no binned frame. Otherwise the result is the coefficients fitted to the moduli of the binned cube normalised by the off-axis flux. |
| Calibration.AmplitudesNonneg | qacits/calibrate_qacits.py:49 | Every amplitude is `>= 0`, and 0 exactly for a zero offset. |
| Calibration.ZipPairs | qacits/calibrate_qacits.py:58 | `zip` pairs by index and stops at the shorter input. |
| Calibration.WindowMembership | qacits/calibrate_qacits.py:59-62 | A sample enters the fit exactly when `lo < tt < hi`, strictly. |
| Calibration.WindowCount | qacits/calibrate_qacits.py:59-62 | The window keeps every copy of an inside sample and none of an outside one. |
| Calibration.WindowPermutation | qacits/calibrate_qacits.py:58-62 | Windowing a permutation of the samples gives a permutation of the window. |
| Calibration.SumOfPermutation | qacits/calibrate_qacits.py:65 | The sums in the normal equations do not depend on sample order. |
| Calibration.CubeRootsPermutation | qacits/calibrate_qacits.py:63-64 | Cube-rooting commutes with permutation. |
| Calibration.SlopePermutation | qacits/calibrate_qacits.py:65-66 | The fitted slope does not depend on sample order. |
| Calibration.CoefficientIgnoresOrder | qacits/calibrate_qacits.py:58-70 | Sorting (any permutation of the paired samples) does not change any coefficient. |
| Calibration.SquaresNonneg | qacits/calibrate_qacits.py:65 | `Σx² >= 0`. |
| Calibration.WindowSquaresPositive | qacits/calibrate_qacits.py:59-65 | With `lo >= 0`, `Σx² > 0` on the window exactly when the window is non-empty. |
| Calibration.ZeroSquaresZeroProducts | qacits/calibrate_qacits.py:65 | `Σx² == 0` forces `Σxy == 0`. |
| Calibration.ResidualExpansion | qacits/calibrate_qacits.py:65 | The squared error of `y = b x` is `Σy² - 2b Σxy + b² Σx²`. |
| Calibration.QuadraticMinimum | qacits/calibrate_qacits.py:65 | With `A > 0`, that quadratic is least exactly at `b = B / A`. |
| Calibration.QuadraticCompare | qacits/calibrate_qacits.py:65 | The fitted slope minimises the quadratic, strictly when `A > 0`. |
| Calibration.LeastSquares | qacits/calibrate_qacits.py:65-66 | No slope fits better than `Σxy / Σx²`; when `Σx² > 0` every other slope fits strictly worse. |
| Calibration.LeastNormWhenDegenerate | qacits/calibrate_qacits.py:65-66 | With `Σx² == 0` every slope has the same error, and the least-norm answer 0 is returned. |
| Calibration.ProportionalSums | qacits/calibrate_qacits.py:65 | Samples on `y = c x` have `Σxy = c Σx²`. |
| Calibration.SlopeOfLine | qacits/calibrate_qacits.py:65-66 | Samples on `y = c x`, not all at `x = 0`, fit the slope `c`. |
| Calibration.OccupiedWindow | qacits/calibrate_qacits.py:59-62 | A window with `lo >= 0` that holds a sample has `Σx² > 0`. |
| Calibration.WindowedSample | qacits/calibrate_qacits.py:59-62 | Every windowed sample comes from the input and lies inside the window. |
| Calibration.WindowOnLine | qacits/calibrate_qacits.py:59-62 | The window of samples on a line lies on that line. |
| Calibration.WindowRootsOnLine | qacits/calibrate_qacits.py:59-64 | The window of samples whose cube roots lie on a line has its cube roots on it. |
| Calibration.CubeRootsSquares | qacits/calibrate_qacits.py:63-64 | Cube-rooting the responses leaves `Σx²` unchanged. |
| Calibration.CubeRootsOfLine | qacits/calibrate_qacits.py:63-66 | Samples whose `abs(y)^(1/3)` lies on `y = k x` fit `k` after the transform. |
| Calibration.LinearCoefficientRoundTrip | qacits/calibrate_qacits.py:57-66 | Inner or outer region, `lo >= 0`, an occupied window on `y = c x`: the coefficient is `c`. |
| Calibration.FullCoefficientRoundTrip | qacits/calibrate_qacits.py:57-69 | Full region, `lo >= 0`, an occupied window with `abs(y)^(1/3) = k x`: the coefficient is `k³`. |
| Calibration.CbrtOfCubicResponse | qacits/calibrate_qacits.py:64 | `abs(c x³)^(1/3) = abs(c)^(1/3) x` for `x >= 0`. |
| Calibration.CbrtScales | qacits/calibrate_qacits.py:64 | `(a x³)^(1/3) = a^(1/3) x` for `a, x >= 0`. |
| Calibration.CubicCoefficientRoundTrip | qacits/calibrate_qacits.py:57-69 | The full model is cubic: every windowed response `c tt³`, one sample inside and `lo >= 0` give the coefficient `abs(c)`. |
| Calibration.EmptyWindowGivesZero | qacits/calibrate_qacits.py:59-69 | An empty window gives coefficient 0 in every region. |
| Calibration.NormalizedRoundTrip | qacits/calibrate_qacits.py:42 | Normalisation scales every pixel by `1 / flux`, and multiplying by the flux gives the pixel back. |

## Left out

- The exact-photometry paths are not modelled: `qacits/util/get_delta_i.py:52-74`, `qacits/util/psf_flux.py:36-38` and `qacits/util/psf_flux.py:89-106` call the external `photutils` aperture integration. In `get_delta_i` the non-exact path is taken whenever `radius is None`; the model is that path.
- The front end of `run_qacits`, `qacits/run_qacits.py:30-72`, is not modelled; `RunQacits.RunQacits` starts from the regional moduli and arguments it produces:
  - Its flux comes from an external `photutils` aperture (lines 30-32).
  - Its `get_delta_i` call passes `cx` both by position and by keyword (lines 53-57). Python rejects that call, so as written this part cannot produce values to model.
  - It differs from `get_all_di` in three ways. It reads the shape as `ncube, nx, ny` (line 37), so it swaps the axes on non-square frames. It centres at `nx // 2, ny // 2` and scales the radii by `fwhm` rather than by the sampling. It calls `get_delta_i`, whose non-exact path ignores the radius (see `DeltaI.GetDeltaI`).
  - `RunQacits.RunQacits` therefore takes its moduli and arguments as inputs. `PsfFlux.GetAllDi` stands in for this front end rather than modelling it.
- `large_tt_regime`, `**params`, `verbose`, plotting (`qacits/calibrate_qacits.py:50-54`, `75-93`), printing, the `colors` argument and the `error` array (`qacits/calibrate_qacits.py:67`, `70-71`) affect no returned value, so they are not part of this model.
- Floating point is not modelled: values are exact reals. This covers `float32` (the `np.float32` cast of `get_di_xy`), rounding, and IEEE infinities and NaN.
  - Calibration.CalibrateQacits: requires a non-zero off-axis flux, because NumPy divides by zero to `inf`/`nan` rather than failing.
  - RunQacits.RunQacits: requires non-zero slopes and coefficient (`Divisible`) for the same reason.
- The transcendental functions `sqrt`, `cbrt` (`** (1/3)` of a non-negative value), `atan2`, `cos`, `sin` and `pi` are fields of a `Math` record. Lemmas that need their laws (`SqrtLaw`, `CbrtLaw`, `TrigLaw`, `Atan2Law`, `PolarLaw`) require them; the functions themselves are not computed.
- `np.interp` is modelled only on the grid `0.5, 1.5, ..., n - 0.5` that the non-exact paths use.
- Calibration.CalibrateQacits: sorting by amplitude (`qacits/calibrate_qacits.py:58`) is not performed. The samples are fitted in input order, and `Calibration.CoefficientIgnoresOrder` proves that any reordering gives the same coefficients. The sorted arrays do feed the window and the least-squares fit (lines 59-65); only their order is irrelevant there.
- Calibration.LstsqSlope: an empty window, or one whose amplitudes are all zero, gives slope 0. NumPy's minimum-norm answer does the same, whereas an error might be expected there; the model follows the code.
- NumPy's `ndmin=3` promotion of a single frame to a one-frame cube is not modelled: cubes are given as sequences of frames.
- PsfFlux.GetDiXY: `Measurable` excludes a non-zero radius on a frame with `ny == 0` or `nx == 0`. There `np.interp` raises `ValueError` on an empty grid of sample points (`qacits/util/psf_flux.py:86-87`), and the model has no error variant for it. The exclusion also applies through `RadiiMeasurable` to `PsfFlux.RegionDis`, `PsfFlux.GetAllDi` and `Calibration.CalibrateQacits`. On an empty cube the source loop never runs, so that case is excluded more widely than necessary.
- PsfFlux.RegionDis: requires `RadiiGiven`, so `radii` must have all three keys `inner`, `outer` and `full`. A dictionary missing one makes `radii[region]` raise `KeyError` (`qacits/util/psf_flux.py:136`). The model has no error variant for that.
- PsfFlux.GetAllDi: requires `RadiiGiven` too, and so excludes the same `KeyError` on a `radii` missing a region (`qacits/util/psf_flux.py:136`).
- Calibration.FitCoefficients: requires `LimitsGiven`, so `tt_fit_lim` must have all three keys. A dictionary missing one makes `tt_fit_lim[region]` raise `KeyError` (`qacits/calibrate_qacits.py:59-60`). The same holds for `Calibration.Coefficients`.
- Calibration.CalibrateQacits: requires `RadiiGiven` and `LimitsGiven`. It excludes the `KeyError` that a `radii` or `tt_fit_lim` missing a region raises (`qacits/util/psf_flux.py:136`, `qacits/calibrate_qacits.py:59-60`), and `Calibration.MeasuredModuli` inherits the `radii` part.
- PsfFlux.GetAllDi: on an empty cube with a non-zero radius, `np.float32([])` has shape `(0,)`, not `(0, 2)`. The annulus subtraction or the `[:,0]` indexing then raises (`qacits/util/psf_flux.py:108`, `139`, `149`). The model returns empty rows instead.
- Calibration.CalibrateQacits: on an empty binned cube the source fails inside `get_all_di`, as above, before the fit. The model reports `NoSamples`, the failure the fit itself would raise (`qacits/calibrate_qacits.py:58`).
- RunQacits.Settings: `force: Option<Region>` uses `None` for any value of `force` other than `'inner'`, `'outer'` and `'full'` (`qacits/run_qacits.py:90-96`). Every such string falls through to the fused estimate.
- DeltaI.GetDeltaI requires a non-empty cube and non-empty frames. On anything else the source fails (it indexes `cube[0]` and `Sx[-1]`).

Differences between the code and what a reader might expect, modelled as the code does them:

- `get_delta_i` centres by default at `n // 2`, while the other operations use `(n - 1) / 2`. `DeltaI.DefaultCentreOffsetOnEvenWidth` shows the consequence on an even width.
- `get_psf_flux` and `get_di_xy` use the closed disk `r <= radius`, while `circle_mask` is strict (`r < radius`) and snaps its centre to half pixels.
- `get_di_xy` treats only `radius == 0` specially. A negative radius masks every pixel out and so also reads zero (`PsfFlux.DiXYFrameNegativeRadius`).
