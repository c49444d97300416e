/**
 * `calibrate_qacits`: the model coefficients fitted to a cube of on-axis PSFs taken
 * at known tip-tilt offsets. The cube is binned and divided by the off-axis flux, the
 * differential-intensity moduli are measured per region, and per region a
 * least-squares line through the origin is fitted to the samples whose true tip-tilt
 * lies strictly inside the region's window (on cube roots for the full region, whose
 * slope is then cubed).
 */
module Calibration {
  import opened Base
  import opened Numerics
  import opened Images
  import opened BinImages
  import opened PsfFlux

  // ---------------------------------------------------------------------------
  // Samples and the window
  // ---------------------------------------------------------------------------

  /** One calibration point: a true tip-tilt amplitude and the response measured there. */
  datatype Sample = Sample(tt: real, response: real)

  /**
   * Why a calibration fails: binning the cube raised, or a region had no sample to sort
   * (unpacking the empty `zip(*sorted(zip(tt_calib, yy)))` into two arrays raises).
   */
  datatype CalibrationError = BinningFailed(cause: BinError) | NoSamples

  /** `tt_calib = np.sqrt(tt_lamD[:,0]**2 + tt_lamD[:,1]**2)`. */
  function Amplitudes(m: Math, tt: seq<Vec2>): (a: seq<real>)
    ensures |a| == |tt|
  {
    Moduli(m, tt)
  }

  /** `zip(tt_calib, yy)`: pairs in order, as many as the shorter of the two has. */
  function Zip(tt: seq<real>, yy: seq<real>): (s: seq<Sample>)
  {
    var n := if |tt| <= |yy| then |tt| else |yy|;
    seq(n, k requires 0 <= k < n => Sample(tt[k], yy[k]))
  }

  /** The samples with `lo < tt < hi`, in their order. */
  function Window(s: seq<Sample>, lo: real, hi: real): (w: seq<Sample>)
    ensures |w| <= |s|
  {
    if |s| == 0 then []
    else (if lo < s[0].tt < hi then [s[0]] else []) + Window(s[1..], lo, hi)
  }

  /** The sample lies on the line through the origin with slope `c`. */
  predicate OnLine(p: Sample, c: real)
  {
    p.response == c * p.tt
  }

  /** The sample lies on the cubic `y = c x³`. */
  predicate OnCubic(p: Sample, c: real)
  {
    p.response == c * Cube(p.tt)
  }

  /** One sample with its response replaced by `np.abs(y)**(1/3)`. */
  function CubeRoot(m: Math, p: Sample): Sample
  {
    Sample(p.tt, m.cbrt(Abs(p.response)))
  }

  /** The full region's transform of the windowed responses. */
  function CubeRoots(m: Math, s: seq<Sample>): (r: seq<Sample>)
    ensures |r| == |s|
  {
    seq(|s|, k requires 0 <= k < |s| => CubeRoot(m, s[k]))
  }

  // ---------------------------------------------------------------------------
  // Least squares through the origin
  // ---------------------------------------------------------------------------

  /** The sum of `f` over the samples. */
  function SumOf(s: seq<Sample>, f: Sample -> real): real
  {
    if |s| == 0 then 0.0 else f(s[0]) + SumOf(s[1..], f)
  }

  /**
   * The identity, kept as a function so that `a * Id(a)` is a product of two distinct
   * terms to the solver rather than the square `a * a`.
   */
  function Id(a: real): real { a }

  /**
   * `a ** 2`, written as the product of `a` and `Id(a)`: the solver relates a product of
   * two terms to the other facts about it, where it loses track of a product of a term
   * with itself (`SqIsSquare` states that the two are the same value).
   */
  function Sq(a: real): real { a * Id(a) }
  function Cube(a: real): real { a * a * a }

  function XY(p: Sample): real { p.tt * p.response }
  function XX(p: Sample): real { Sq(p.tt) }
  function YY(p: Sample): real { Sq(p.response) }

  /**
   * `np.linalg.lstsq(x[:,np.newaxis], y)[0][0]`: the slope `Σxy / Σx²`; when `Σx² == 0`
   * (no sample, or every `x` zero) every slope fits equally well and the solver returns
   * the one of least norm, zero.
   */
  function LstsqSlope(s: seq<Sample>): real
  {
    if SumOf(s, XX) == 0.0 then 0.0 else SumOf(s, XY) / SumOf(s, XX)
  }

  /** The squared error `Σ (y - b x)²` of the line `y = b x` on the samples. */
  function Residual(s: seq<Sample>, b: real): real
  {
    if |s| == 0 then 0.0
    else Sq(s[0].response - b * s[0].tt) + Residual(s[1..], b)
  }

  /**
   * `coeffs[region]`: the slope fitted on the window `(lo, hi)`; for the full region
   * the slope of the cube roots of the responses, cubed.
   */
  function Coefficient(m: Math, region: Region, s: seq<Sample>, lo: real, hi: real): real
  {
    var w := Window(s, lo, hi);
    if region == Full then Cube(LstsqSlope(CubeRoots(m, w))) else LstsqSlope(w)
  }

  /** The fit window is given for all three regions. */
  predicate LimitsGiven(limits: map<Region, (real, real)>)
  {
    forall r: Region :: r in limits
  }

  /** The default `tt_fit_lim`: `(0, 0.1)`, `(0, 0.5)` and `(0.2, 0.5)` lambda/D. */
  const DefaultFitLimits: map<Region, (real, real)> := map[Inner := (0.0, 0.1), Outer := (0.0, 0.5), Full := (0.2, 0.5)]

  /** The default `radii`: `(0, 1.7)`, `(1.7, 2.3)` and `(0, 2.7)` lambda/D. */
  const DefaultRadii: map<Region, (real, real)> := map[Inner := (0.0, 1.7), Outer := (1.7, 2.3), Full := (0.0, 2.7)]

  /**
   * The default dictionaries name all three regions; every default fit window starts at a
   * non-negative amplitude below its end; and the default radii are measurable exactly on
   * non-empty frames, or on any frame when the sampling is zero.
   */
  lemma DefaultsWellFormed(sampling: real, ny: nat, nx: nat)
    ensures LimitsGiven(DefaultFitLimits) && RadiiGiven(DefaultRadii)
    ensures forall r: Region :: 0.0 <= DefaultFitLimits[r].0 < DefaultFitLimits[r].1
    ensures RadiiMeasurable(DefaultRadii, sampling, ny, nx) <==> (1 <= ny && 1 <= nx) || sampling == 0.0
  {
    RegionsCovered();
    assert DefaultFitLimits.Keys == AllRegions && DefaultRadii.Keys == AllRegions;
    if sampling != 0.0 && !(1 <= ny && 1 <= nx) {
      assert !Measurable(ny, nx, PixelRadii(DefaultRadii, sampling, Outer).0);
    }
  }

  /** Every region is one of the three dictionary keys. */
  lemma RegionsCovered()
    ensures forall r: Region :: r in AllRegions
  {
    forall r: Region ensures r in AllRegions {
      match r
      case Inner =>
      case Outer =>
      case Full =>
    }
  }

  /** The coefficient of every region, fitted on the moduli `mods[region]` against the amplitudes. */
  function Coefficients(m: Math, amplitudes: seq<real>, mods: map<Region, seq<real>>, limits: map<Region, (real, real)>): (c: map<Region, real>)
    requires LimitsGiven(limits) && forall r: Region :: r in mods
    ensures c.Keys == AllRegions && forall r: Region :: r in c
    ensures forall r :: r in c ==> c[r] == Coefficient(m, r, Zip(amplitudes, mods[r]), limits[r].0, limits[r].1)
  {
    RegionsCovered();
    map r | r in AllRegions :: Coefficient(m, r, Zip(amplitudes, mods[r]), limits[r].0, limits[r].1)
  }

  // ---------------------------------------------------------------------------
  // Normalisation
  // ---------------------------------------------------------------------------

  /** `psf_ON / psf_flux`, pixel by pixel. */
  function Normalized(cube: seq<Image>, ny: nat, nx: nat, flux: real): (r: seq<Image>)
    requires IsCube(cube, ny, nx) && flux != 0.0
    ensures |r| == |cube| && IsCube(r, ny, nx)
  {
    seq(|cube|, k requires 0 <= k < |cube| =>
      seq(ny, y requires 0 <= y < ny => seq(nx, x requires 0 <= x < nx => cube[k][y][x] / flux)))
  }

  /** `psf_ON /= psf_flux`: every frame of the cube divided in place. */
  method NormalizeInPlace(cube: array<Image>, ny: nat, nx: nat, flux: real)
    requires IsCube(cube[..], ny, nx) && flux != 0.0
    modifies cube
    ensures cube[..] == Normalized(old(cube[..]), ny, nx, flux)
  {
    ghost var original := cube[..];
    for k := 0 to cube.Length
      invariant forall j :: k <= j < cube.Length ==> cube[j] == original[j]
      invariant forall j :: 0 <= j < k ==> cube[j] == Normalized(original, ny, nx, flux)[j]
    {
      var frame := cube[k];
      cube[k] := seq(ny, y requires 0 <= y < ny => seq(nx, x requires 0 <= x < nx => frame[y][x] / flux));
    }
    assert cube[..] == Normalized(original, ny, nx, flux);
  }

  /** Every binned cube keeps the frame shape of its input. */
  lemma BinnedIsCube(cube: seq<Image>, ny: nat, nx: nat, nbin: int)
    requires IsCube(cube, ny, nx) && Binned(cube, ny, nx, nbin).Ok?
    ensures IsCube(Binned(cube, ny, nx, nbin).value, ny, nx)
  {
    if 2 <= nbin {
      BinnedShape(cube, ny, nx, nbin);
    }
  }

  /** The off-axis flux `get_psf_flux(psf_OFF, img_sampling/2, cx, cy)`. */
  function OffAxisFlux(psfOff: Image, offNy: nat, offNx: nat, sampling: real, cx: Option<real>, cy: Option<real>): real
    requires IsImage(psfOff, offNy, offNx)
  {
    PsfFlux.PsfFlux(psfOff, offNy, offNx, sampling / 2.0, cx, cy)
  }

  /** `all_di_mod`: the moduli of the debiased differential intensities of every region. */
  function MeasuredModuli(m: Math, cube: seq<Image>, ny: nat, nx: nat, radii: map<Region, (real, real)>, sampling: real,
                          ratio: real, cx: Option<real>, cy: Option<real>): (mods: map<Region, seq<real>>)
    requires IsCube(cube, ny, nx) && RadiiGiven(radii) && RadiiMeasurable(radii, sampling, ny, nx)
    ensures mods.Keys == AllRegions && forall r: Region :: r in mods
    ensures forall r :: r in mods ==> |mods[r]| == |cube|
  {
    RegionsCovered();
    map r | r in AllRegions :: Moduli(m, AllDi(cube, ny, nx, radii, sampling, ratio, CentreOr(nx, cx), CentreOr(ny, cy), r))
  }

  /**
   * The loop over `['inner', 'outer', 'full']` filling `coeffs`, cubing the full slope in
   * place. It fails at the first region whose samples are empty, and only there.
   */
  method FitCoefficients(m: Math, amplitudes: seq<real>, mods: map<Region, seq<real>>, limits: map<Region, (real, real)>)
    returns (result: Result<map<Region, real>, CalibrationError>)
    requires LimitsGiven(limits) && forall r: Region :: r in mods
    ensures result.Err? <==> exists region: Region :: |Zip(amplitudes, mods[region])| == 0
    ensures result.Err? ==> result.error == NoSamples
    ensures result.Ok? ==> result.value == Coefficients(m, amplitudes, mods, limits)
  {
    var coeffs := map[];
    var i := 0;
    while i < |RegionOrder|
      invariant 0 <= i <= |RegionOrder|
      invariant forall region :: region in coeffs <==> region in RegionOrder[..i]
      invariant forall region :: region in coeffs ==> |Zip(amplitudes, mods[region])| > 0
      invariant forall region :: region in coeffs ==>
        coeffs[region] == Coefficient(m, region, Zip(amplitudes, mods[region]), limits[region].0, limits[region].1)
    {
      var region := RegionOrder[i];
      if |Zip(amplitudes, mods[region])| == 0 {
        return Err(NoSamples);
      }
      var coeff := FitRegion(m, region, amplitudes, mods[region], limits[region].0, limits[region].1);
      coeffs := coeffs[region := coeff];
      i := i + 1;
    }
    assert RegionOrder[..i] == RegionOrder;
    forall region: Region ensures region in coeffs {
      RegionOrderCoversAll(region);
    }
    assert coeffs == Coefficients(m, amplitudes, mods, limits);
    result := Ok(coeffs);
  }

  /**
   * One pass of that loop: the samples in the fit window, their cube roots for the full
   * region, the least-squares slope, and for the full region its cube.
   */
  method FitRegion(m: Math, region: Region, amplitudes: seq<real>, responses: seq<real>, lo: real, hi: real)
    returns (coeff: real)
    ensures coeff == Coefficient(m, region, Zip(amplitudes, responses), lo, hi)
  {
    var w := Window(Zip(amplitudes, responses), lo, hi);
    if region == Full {
      w := CubeRoots(m, w);
    }
    coeff := LstsqSlope(w);
    if region == Full {
      coeff := Cube(coeff);
    }
  }

  /**
   * `calibrate_qacits(psf_ON, psf_OFF, img_sampling, tt_lamD, cx, cy, radii, tt_fit_lim, nbin, ratio)`:
   * the coefficient dictionary; or the error binning raises; or, when there is no
   * tip-tilt offset or the binned cube has no frame, the failure to sort empty samples.
   */
  method CalibrateQacits(m: Math, psfOn: seq<Image>, ny: nat, nx: nat, psfOff: Image, offNy: nat, offNx: nat,
                         sampling: real, tt: seq<Vec2>, cx: Option<real>, cy: Option<real>,
                         radii: map<Region, (real, real)>, limits: map<Region, (real, real)>, nbin: int, ratio: real)
    returns (r: Result<map<Region, real>, CalibrationError>)
    requires IsCube(psfOn, ny, nx) && IsImage(psfOff, offNy, offNx)
    requires RadiiGiven(radii) && RadiiMeasurable(radii, sampling, ny, nx) && LimitsGiven(limits)
    requires OffAxisFlux(psfOff, offNy, offNx, sampling, cx, cy) != 0.0
    ensures Binned(psfOn, ny, nx, nbin).Err? ==> r == Err(BinningFailed(Binned(psfOn, ny, nx, nbin).error))
    ensures Binned(psfOn, ny, nx, nbin).Ok? ==>
      (r.Err? <==> |tt| == 0 || |Binned(psfOn, ny, nx, nbin).value| == 0)
    ensures Binned(psfOn, ny, nx, nbin).Ok? && r.Err? ==> r.error == NoSamples
    ensures r.Ok? ==> IsCube(Binned(psfOn, ny, nx, nbin).value, ny, nx)
    ensures r.Ok? ==> r.value == Coefficients(m, Amplitudes(m, tt),
      MeasuredModuli(m, Normalized(Binned(psfOn, ny, nx, nbin).value, ny, nx, OffAxisFlux(psfOff, offNy, offNx, sampling, cx, cy)),
                     ny, nx, radii, sampling, ratio, cx, cy),
      limits)
  {
    var flux := OffAxisFlux(psfOff, offNy, offNx, sampling, cx, cy);
    var binned := BinImages.BinImages(psfOn, ny, nx, nbin);
    if binned.Err? {
      return Err(BinningFailed(binned.error));
    }
    BinnedIsCube(psfOn, ny, nx, nbin);
    var frames := binned.value;
    var cube := new Image[|frames|](k requires 0 <= k < |frames| => frames[k]);
    assert cube[..] == frames;
    NormalizeInPlace(cube, ny, nx, flux);
    var normalized := cube[..];
    var mods, _ := GetAllDi(m, normalized, ny, nx, radii, sampling, ratio, cx, cy);
    assert mods == MeasuredModuli(m, normalized, ny, nx, radii, sampling, ratio, cx, cy);
    assert |Zip(Amplitudes(m, tt), mods[Inner])| == 0 <==> |tt| == 0 || |frames| == 0;
    r := FitCoefficients(m, Amplitudes(m, tt), mods, limits);
  }

  // ---------------------------------------------------------------------------
  // Properties
  // ---------------------------------------------------------------------------

  /** Every tip-tilt amplitude is non-negative, and zero exactly for a zero offset. */
  lemma AmplitudesNonneg(m: Math, tt: seq<Vec2>, k: nat)
    requires SqrtLaw(m) && k < |tt|
    ensures 0.0 <= Amplitudes(m, tt)[k]
    ensures Amplitudes(m, tt)[k] == 0.0 <==> tt[k] == Vec2(0.0, 0.0)
  {
    ModulusProperties(m, tt[k]);
  }

  /** `zip` pairs the `k`-th amplitude with the `k`-th response and stops at the shorter input. */
  lemma ZipPairs(tt: seq<real>, yy: seq<real>)
    ensures |Zip(tt, yy)| <= |tt| && |Zip(tt, yy)| <= |yy|
    ensures |Zip(tt, yy)| == |tt| || |Zip(tt, yy)| == |yy|
    ensures forall k :: 0 <= k < |Zip(tt, yy)| ==> Zip(tt, yy)[k].tt == tt[k] && Zip(tt, yy)[k].response == yy[k]
  {
  }

  /** A sample enters the fit exactly when its amplitude lies strictly inside the window. */
  lemma {:induction false} WindowMembership(s: seq<Sample>, lo: real, hi: real, p: Sample)
    ensures p in Window(s, lo, hi) <==> p in s && lo < p.tt < hi
  {
    if |s| > 0 {
      WindowMembership(s[1..], lo, hi, p);
      assert s == [s[0]] + s[1..];
    }
  }

  /** The window keeps every copy of an inside sample and no copy of an outside one. */
  lemma {:induction false} WindowCount(s: seq<Sample>, lo: real, hi: real, p: Sample)
    ensures multiset(Window(s, lo, hi))[p] == if lo < p.tt < hi then multiset(s)[p] else 0
  {
    if |s| > 0 {
      assert multiset(s)[p] == multiset{s[0]}[p] + multiset(s[1..])[p] by {
        assert s == [s[0]] + s[1..];
      }
      assert multiset(Window(s, lo, hi))[p]
          == (if lo < s[0].tt < hi then multiset{s[0]}[p] else 0) + multiset(Window(s[1..], lo, hi))[p] by {
        if lo < s[0].tt < hi {
          assert Window(s, lo, hi) == [s[0]] + Window(s[1..], lo, hi);
        } else {
          assert Window(s, lo, hi) == Window(s[1..], lo, hi);
        }
      }
      WindowCount(s[1..], lo, hi, p);
    }
  }

  /** Windowing a permutation gives a permutation of the window. */
  lemma WindowPermutation(s: seq<Sample>, t: seq<Sample>, lo: real, hi: real)
    requires multiset(s) == multiset(t)
    ensures multiset(Window(s, lo, hi)) == multiset(Window(t, lo, hi))
  {
    forall p ensures multiset(Window(s, lo, hi))[p] == multiset(Window(t, lo, hi))[p] {
      WindowCount(s, lo, hi, p);
      WindowCount(t, lo, hi, p);
    }
  }

  lemma {:induction false} SumOfConcat(u: seq<Sample>, v: seq<Sample>, f: Sample -> real)
    ensures SumOf(u + v, f) == SumOf(u, f) + SumOf(v, f)
  {
    if |u| == 0 {
      assert u + v == v;
    } else {
      assert (u + v)[1..] == u[1..] + v;
      SumOfConcat(u[1..], v, f);
    }
  }

  /** Sample `t[j]` found and taken out: what remains is a permutation of `s[1..]`. */
  lemma RemoveFound(s: seq<Sample>, t: seq<Sample>, j: nat)
    requires |s| > 0 && multiset(s) == multiset(t) && j < |t| && t[j] == s[0]
    ensures t == t[..j] + [t[j]] + t[j + 1..]
    ensures multiset(s[1..]) == multiset(t[..j] + t[j + 1..])
  {
    assert t == t[..j] + [t[j]] + t[j + 1..];
    assert s == [s[0]] + s[1..];
    assert multiset(s) == multiset{s[0]} + multiset(s[1..]);
    assert multiset(t) == multiset(t[..j]) + multiset{t[j]} + multiset(t[j + 1..]);
    var rest := t[..j] + t[j + 1..];
    assert multiset(rest) == multiset(t[..j]) + multiset(t[j + 1..]);
    forall p ensures multiset(s[1..])[p] == multiset(rest)[p] {
      assert multiset(s)[p] == multiset{s[0]}[p] + multiset(s[1..])[p];
      assert multiset(t)[p] == multiset{t[j]}[p] + multiset(rest)[p];
    }
  }

  /** A sum over the samples does not depend on their order. */
  lemma {:induction false} SumOfPermutation(s: seq<Sample>, t: seq<Sample>, f: Sample -> real)
    requires multiset(s) == multiset(t)
    ensures SumOf(s, f) == SumOf(t, f)
    decreases |s|
  {
    if |s| == 0 {
      assert |t| == |multiset(t)| == 0;
    } else {
      assert s[0] in multiset(t);
      var j :| 0 <= j < |t| && t[j] == s[0];
      RemoveFound(s, t, j);
      SumOfPermutation(s[1..], t[..j] + t[j + 1..], f);
      SumOfConcat(t[..j], t[j + 1..], f);
      SumOfConcat(t[..j] + [t[j]], t[j + 1..], f);
      SumOfConcat(t[..j], [t[j]], f);
    }
  }

  /** Taking cube roots of a permutation gives a permutation of the cube roots. */
  lemma {:induction false} CubeRootsPermutation(m: Math, s: seq<Sample>, t: seq<Sample>)
    requires multiset(s) == multiset(t)
    ensures multiset(CubeRoots(m, s)) == multiset(CubeRoots(m, t))
    decreases |s|
  {
    if |s| == 0 {
      assert |t| == |multiset(t)| == 0;
    } else {
      assert s[0] in multiset(t);
      var j :| 0 <= j < |t| && t[j] == s[0];
      RemoveFound(s, t, j);
      var rest := t[..j] + t[j + 1..];
      CubeRootsPermutation(m, s[1..], rest);
      assert CubeRoots(m, s) == [CubeRoot(m, s[0])] + CubeRoots(m, s[1..]);
      assert CubeRoots(m, t) == CubeRoots(m, t[..j]) + [CubeRoot(m, t[j])] + CubeRoots(m, t[j + 1..]);
      assert CubeRoots(m, rest) == CubeRoots(m, t[..j]) + CubeRoots(m, t[j + 1..]);
    }
  }

  /** The fitted slope does not depend on the order of the samples. */
  lemma SlopePermutation(s: seq<Sample>, t: seq<Sample>)
    requires multiset(s) == multiset(t)
    ensures LstsqSlope(s) == LstsqSlope(t)
  {
    SumOfPermutation(s, t, XX);
    SumOfPermutation(s, t, XY);
  }

  /**
   * `sorted(zip(tt_calib, yy))` moves amplitude and response together, so the
   * coefficient of any reordering of the samples is the coefficient of the samples.
   */
  lemma CoefficientIgnoresOrder(m: Math, region: Region, s: seq<Sample>, t: seq<Sample>, lo: real, hi: real)
    requires multiset(s) == multiset(t)
    ensures Coefficient(m, region, s, lo, hi) == Coefficient(m, region, t, lo, hi)
  {
    WindowPermutation(s, t, lo, hi);
    if region == Full {
      CubeRootsPermutation(m, Window(s, lo, hi), Window(t, lo, hi));
      SlopePermutation(CubeRoots(m, Window(s, lo, hi)), CubeRoots(m, Window(t, lo, hi)));
    } else {
      SlopePermutation(Window(s, lo, hi), Window(t, lo, hi));
    }
  }

  lemma SqIsSquare(a: real)
    ensures Sq(a) == a * a
  {
  }

  lemma ProductOfEqualsNonneg(a: real, b: real)
    requires a == b
    ensures 0.0 <= a * b
  {
    if a < 0.0 {
      MulMonotoneRight(a, 0.0, -b);
    } else {
      MulMonotone(a, 0.0, b);
    }
  }

  lemma ProductOfEqualsPositive(a: real, b: real)
    requires a == b && a != 0.0
    ensures 0.0 < a * b
  {
    if a < 0.0 {
      MulStrictlyMonotone(a, 0.0, -b);
    } else {
      MulStrictlyMonotone(0.0, a, b);
    }
  }

  lemma SqNonneg(a: real)
    ensures 0.0 <= Sq(a)
  {
    ProductOfEqualsNonneg(a, Id(a));
  }

  lemma SqPositive(a: real)
    requires a != 0.0
    ensures 0.0 < Sq(a)
  {
    ProductOfEqualsPositive(a, Id(a));
  }

  lemma {:induction false} SquaresNonneg(s: seq<Sample>)
    ensures 0.0 <= SumOf(s, XX)
  {
    if |s| > 0 {
      SqNonneg(s[0].tt);
      SquaresNonneg(s[1..]);
    }
  }

  /** With `lo >= 0` every windowed amplitude is positive, so `Σx² > 0` exactly when some sample is in the window. */
  lemma {:induction false} WindowSquaresPositive(s: seq<Sample>, lo: real, hi: real)
    requires 0.0 <= lo
    ensures 0.0 < SumOf(Window(s, lo, hi), XX) <==> |Window(s, lo, hi)| > 0
  {
    if |s| > 0 {
      WindowSquaresPositive(s[1..], lo, hi);
      SquaresNonneg(Window(s[1..], lo, hi));
      var head := if lo < s[0].tt < hi then [s[0]] else [];
      SumOfConcat(head, Window(s[1..], lo, hi), XX);
      assert Window(s, lo, hi) == head + Window(s[1..], lo, hi);
      if lo < s[0].tt < hi {
        SqPositive(s[0].tt);
        assert SumOf(head, XX) == XX(s[0]) + SumOf([], XX);
      }
    }
  }

  /** If every `x` is zero, so is every product `x y`. */
  lemma {:induction false} ZeroSquaresZeroProducts(s: seq<Sample>)
    requires SumOf(s, XX) == 0.0
    ensures SumOf(s, XY) == 0.0
  {
    if |s| > 0 {
      SqNonneg(s[0].tt);
      SquaresNonneg(s[1..]);
      if s[0].tt != 0.0 {
        SqPositive(s[0].tt);
      }
      ZeroSquaresZeroProducts(s[1..]);
    }
  }

  /** The quadratic `c0 - 2 t b1 + t² a2` in the slope `t`. */
  function Quadratic(c0: real, b1: real, a2: real, t: real): real
  {
    c0 - 2.0 * t * b1 + Sq(t) * a2
  }

  lemma TermExpansion(x: real, y: real, b: real)
    ensures Sq(y - b * x) == Quadratic(Sq(y), x * y, Sq(x), b)
  {
  }

  lemma Regroup(b: real, p0: real, q0: real, r0: real, p1: real, q1: real, r1: real)
    ensures Quadratic(p0, q0, r0, b) + Quadratic(p1, q1, r1, b) == Quadratic(p0 + p1, q0 + q1, r0 + r1, b)
  {
  }

  /** The squared error of a line is the quadratic `Σy² - 2 b Σxy + b² Σx²` in its slope. */
  lemma {:induction false} ResidualExpansion(s: seq<Sample>, b: real)
    ensures Residual(s, b) == Quadratic(SumOf(s, YY), SumOf(s, XY), SumOf(s, XX), b)
  {
    if |s| > 0 {
      ResidualExpansion(s[1..], b);
      SampleTermExpansion(s[0], b);
      Regroup(b, YY(s[0]), XY(s[0]), XX(s[0]), SumOf(s[1..], YY), SumOf(s[1..], XY), SumOf(s[1..], XX));
    }
  }

  lemma SampleTermExpansion(p: Sample, b: real)
    ensures Sq(p.response - b * p.tt) == Quadratic(YY(p), XY(p), XX(p), b)
  {
    TermExpansion(p.tt, p.response, b);
  }

  /** The quadratic `C - 2 b B + b² A`, `A > 0`, is least at `b = B / A`, and only there. */
  lemma QuadraticMinimum(a2: real, b1: real, c0: real, a: real, b: real)
    requires 0.0 < a2 && a == b1 / a2
    ensures Quadratic(c0, b1, a2, a) <= Quadratic(c0, b1, a2, b)
    ensures b != a ==> Quadratic(c0, b1, a2, a) < Quadratic(c0, b1, a2, b)
  {
    assert b1 == a * a2;
    QuadraticGap(a2, a, c0, b);
    SqNonneg(b - a);
    MulMonotone(a2, 0.0, Sq(b - a));
    if b != a {
      SqPositive(b - a);
      PositiveProduct(a2, Sq(b - a));
    }
  }

  lemma QuadraticGap(a2: real, a: real, c0: real, b: real)
    ensures Quadratic(c0, a * a2, a2, b) - Quadratic(c0, a * a2, a2, a) == a2 * Sq(b - a)
  {
  }

  lemma PositiveProduct(p: real, q: real)
    requires 0.0 < p && 0.0 < q
    ensures 0.0 < p * q
  {
  }

  /**
   * `LstsqSlope` is a least-squares solution: no slope has a smaller squared error; when
   * `Σx² > 0` every other slope has a larger one.
   */
  lemma LeastSquares(s: seq<Sample>, b: real)
    ensures Residual(s, LstsqSlope(s)) <= Residual(s, b)
    ensures 0.0 < SumOf(s, XX) && b != LstsqSlope(s) ==> Residual(s, LstsqSlope(s)) < Residual(s, b)
  {
    ResidualExpansion(s, b);
    ResidualExpansion(s, LstsqSlope(s));
    SquaresNonneg(s);
    if SumOf(s, XX) == 0.0 {
      ZeroSquaresZeroProducts(s);
    }
    QuadraticCompare(SumOf(s, YY), SumOf(s, XY), SumOf(s, XX), LstsqSlope(s), b);
  }

  /** The quadratic `c0 - 2 t b1 + t² a2` with `a2 >= 0` is smallest at the fitted slope `a`. */
  lemma QuadraticCompare(c0: real, b1: real, a2: real, a: real, b: real)
    requires 0.0 <= a2 && (a2 == 0.0 ==> b1 == 0.0)
    requires a == if a2 == 0.0 then 0.0 else b1 / a2
    ensures Quadratic(c0, b1, a2, a) <= Quadratic(c0, b1, a2, b)
    ensures 0.0 < a2 && b != a ==> Quadratic(c0, b1, a2, a) < Quadratic(c0, b1, a2, b)
  {
    if a2 == 0.0 {
      assert Sq(b) * a2 == 0.0;
      assert Sq(a) * a2 == 0.0;
    } else {
      QuadraticMinimum(a2, b1, c0, a, b);
    }
  }

  /** When `Σx² == 0` every slope has the same squared error and the solver's answer is the least-norm one, zero. */
  lemma LeastNormWhenDegenerate(s: seq<Sample>, b: real)
    requires SumOf(s, XX) == 0.0
    ensures LstsqSlope(s) == 0.0 && Residual(s, b) == Residual(s, 0.0)
  {
    ResidualExpansion(s, b);
    ResidualExpansion(s, 0.0);
    ZeroSquaresZeroProducts(s);
  }

  /** Proportional samples `y = c x` have `Σxy = c Σx²`. */
  lemma {:induction false} ProportionalSums(s: seq<Sample>, c: real)
    requires forall k :: 0 <= k < |s| ==> OnLine(s[k], c)
    ensures SumOf(s, XY) == c * SumOf(s, XX)
  {
    if |s| > 0 {
      ProportionalSums(s[1..], c);
      assert XY(s[0]) == c * XX(s[0]);
    }
  }

  /** Round trip of the fit: samples on the line `y = c x`, not all at `x = 0`, give back `c`. */
  lemma SlopeOfLine(s: seq<Sample>, c: real)
    requires forall k :: 0 <= k < |s| ==> OnLine(s[k], c)
    requires 0.0 < SumOf(s, XX)
    ensures LstsqSlope(s) == c
  {
    ProportionalSums(s, c);
  }

  /** A window with `lo >= 0` that holds a sample has `Σx² > 0`. */
  lemma OccupiedWindow(s: seq<Sample>, lo: real, hi: real)
    requires 0.0 <= lo
    requires exists k :: 0 <= k < |s| && lo < s[k].tt < hi
    ensures 0.0 < SumOf(Window(s, lo, hi), XX)
  {
    var k0 :| 0 <= k0 < |s| && lo < s[k0].tt < hi;
    WindowMembership(s, lo, hi, s[k0]);
    WindowSquaresPositive(s, lo, hi);
  }

  /** Every sample of the window is a sample inside the window. */
  lemma WindowedSample(s: seq<Sample>, lo: real, hi: real, k: nat)
    requires k < |Window(s, lo, hi)|
    ensures exists i :: 0 <= i < |s| && s[i] == Window(s, lo, hi)[k] && lo < s[i].tt < hi
  {
    WindowMembership(s, lo, hi, Window(s, lo, hi)[k]);
  }

  /**
   * Inner and outer: when every sample strictly inside the window `(lo, hi)`, `lo >= 0`,
   * lies on `y = c x` and at least one sample is inside, the coefficient is `c`.
   */
  lemma LinearCoefficientRoundTrip(m: Math, region: Region, s: seq<Sample>, lo: real, hi: real, c: real)
    requires region != Full && 0.0 <= lo
    requires forall k :: 0 <= k < |s| && lo < s[k].tt < hi ==> OnLine(s[k], c)
    requires exists k :: 0 <= k < |s| && lo < s[k].tt < hi
    ensures Coefficient(m, region, s, lo, hi) == c
  {
    OccupiedWindow(s, lo, hi);
    WindowOnLine(s, lo, hi, c);
    SlopeOfLine(Window(s, lo, hi), c);
  }

  /** The window of samples lying on `y = c x` lies on it too. */
  lemma WindowOnLine(s: seq<Sample>, lo: real, hi: real, c: real)
    requires forall k :: 0 <= k < |s| && lo < s[k].tt < hi ==> OnLine(s[k], c)
    ensures forall k :: 0 <= k < |Window(s, lo, hi)| ==> OnLine(Window(s, lo, hi)[k], c)
  {
    forall k | 0 <= k < |Window(s, lo, hi)| ensures OnLine(Window(s, lo, hi)[k], c) {
      WindowedSample(s, lo, hi, k);
    }
  }

  /** The window of samples whose cube-rooted responses lie on `y = k x` has them on it too. */
  lemma WindowRootsOnLine(m: Math, s: seq<Sample>, lo: real, hi: real, k: real)
    requires forall j :: 0 <= j < |s| && lo < s[j].tt < hi ==> OnLine(CubeRoot(m, s[j]), k)
    ensures forall j :: 0 <= j < |Window(s, lo, hi)| ==> OnLine(CubeRoot(m, Window(s, lo, hi)[j]), k)
  {
    forall j | 0 <= j < |Window(s, lo, hi)| ensures OnLine(CubeRoot(m, Window(s, lo, hi)[j]), k) {
      WindowedSample(s, lo, hi, j);
    }
  }

  /** The cube roots keep the amplitudes, so `Σx²` is unchanged. */
  lemma {:induction false} CubeRootsSquares(m: Math, s: seq<Sample>)
    ensures SumOf(CubeRoots(m, s), XX) == SumOf(s, XX)
  {
    if |s| > 0 {
      assert CubeRoots(m, s)[1..] == CubeRoots(m, s[1..]);
      CubeRootsSquares(m, s[1..]);
    }
  }

  /**
   * Full: when every windowed sample has `|y|^(1/3) = k x` and at least one sample is
   * inside, `lo >= 0`, the coefficient is `k³`.
   */
  lemma FullCoefficientRoundTrip(m: Math, s: seq<Sample>, lo: real, hi: real, k: real)
    requires 0.0 <= lo
    requires forall j :: 0 <= j < |s| && lo < s[j].tt < hi ==> OnLine(CubeRoot(m, s[j]), k)
    requires exists j :: 0 <= j < |s| && lo < s[j].tt < hi
    ensures Coefficient(m, Full, s, lo, hi) == Cube(k)
  {
    OccupiedWindow(s, lo, hi);
    WindowRootsOnLine(m, s, lo, hi, k);
    CubeRootsOfLine(m, Window(s, lo, hi), k);
  }

  /** Samples whose cube-rooted responses lie on `y = k x`, not all at `x = 0`, fit the slope `k` after the transform. */
  lemma CubeRootsOfLine(m: Math, w: seq<Sample>, k: real)
    requires forall j :: 0 <= j < |w| ==> OnLine(CubeRoot(m, w[j]), k)
    requires 0.0 < SumOf(w, XX)
    ensures LstsqSlope(CubeRoots(m, w)) == k
  {
    var roots := CubeRoots(m, w);
    assert 0.0 < SumOf(roots, XX) by {
      CubeRootsSquares(m, w);
    }
    assert forall j :: 0 <= j < |roots| ==> OnLine(roots[j], k);
    SlopeOfLine(roots, k);
  }

  /** `|c x³|^(1/3) = |c|^(1/3) x` for `x >= 0`. */
  lemma CbrtOfCubicResponse(m: Math, c: real, x: real, y: real)
    requires CbrtLaw(m) && 0.0 <= x && y == c * Cube(x)
    ensures m.cbrt(Abs(y)) == m.cbrt(Abs(c)) * x
  {
    assert Abs(y) == Abs(c) * Cube(x) by {
      CubeNonneg(x);
      AbsOfScaled(c, Cube(x), y);
    }
    CbrtCubeLaw(m, Abs(c));
    CbrtScales(m, Abs(c), m.cbrt(Abs(c)), x, Abs(y));
  }

  lemma CbrtCubeLaw(m: Math, a: real)
    requires CbrtLaw(m) && 0.0 <= a
    ensures 0.0 <= m.cbrt(a) && Cube(m.cbrt(a)) == a
  {
  }

  /** `(a x³)^(1/3) = a^(1/3) x` for `a, x >= 0`. */
  lemma CbrtScales(m: Math, a: real, k: real, x: real, v: real)
    requires CbrtLaw(m) && 0.0 <= k && Cube(k) == a && 0.0 <= x && v == a * Cube(x)
    ensures m.cbrt(v) == k * x
  {
    assert v == Cube(k * x) by {
      MulCongruence(a, Cube(k), Cube(x));
      CubeOfProduct(k, x);
    }
    MulMonotone(k, 0.0, x);
    CbrtOfCubeValue(m, k * x);
  }

  lemma CbrtOfCubeValue(m: Math, a: real)
    requires CbrtLaw(m) && 0.0 <= a
    ensures m.cbrt(Cube(a)) == a
  {
    CbrtOfCube(m, a);
  }

  lemma CubeNonneg(x: real)
    requires 0.0 <= x
    ensures 0.0 <= Cube(x)
  {
    MulMonotone(x, 0.0, x);
    MulMonotone(x * x, 0.0, x);
  }

  lemma AbsOfScaled(c: real, q: real, y: real)
    requires 0.0 <= q && y == c * q
    ensures Abs(y) == Abs(c) * q
  {
    if c < 0.0 {
      MulMonotone(q, c, 0.0);
    } else {
      MulMonotone(q, 0.0, c);
    }
  }

  lemma CubeOfProduct(k: real, x: real)
    ensures Cube(k * x) == Cube(k) * Cube(x)
  {
  }

  /**
   * The full region's model is cubic: when every windowed response is `c tt³` and one
   * sample is inside the window, `lo >= 0`, the calibrated coefficient is `|c|`.
   */
  lemma CubicCoefficientRoundTrip(m: Math, s: seq<Sample>, lo: real, hi: real, c: real)
    requires CbrtLaw(m) && 0.0 <= lo
    requires forall j :: 0 <= j < |s| && lo < s[j].tt < hi ==> OnCubic(s[j], c)
    requires exists j :: 0 <= j < |s| && lo < s[j].tt < hi
    ensures Coefficient(m, Full, s, lo, hi) == Abs(c)
  {
    assert forall j :: 0 <= j < |s| && lo < s[j].tt < hi ==> OnLine(CubeRoot(m, s[j]), m.cbrt(Abs(c))) by {
      forall j | 0 <= j < |s| && lo < s[j].tt < hi ensures OnLine(CubeRoot(m, s[j]), m.cbrt(Abs(c))) {
        CbrtOfCubicResponse(m, c, s[j].tt, s[j].response);
      }
    }
    FullCoefficientRoundTrip(m, s, lo, hi, m.cbrt(Abs(c)));
    CbrtCubeLaw(m, Abs(c));
  }

  /** An empty window fits the slope zero, so the coefficient is zero in every region. */
  lemma EmptyWindowGivesZero(m: Math, region: Region, s: seq<Sample>, lo: real, hi: real)
    requires forall k :: 0 <= k < |s| ==> !(lo < s[k].tt < hi)
    ensures Coefficient(m, region, s, lo, hi) == 0.0
  {
    var w := Window(s, lo, hi);
    if |w| > 0 {
      WindowedSample(s, lo, hi, 0);
      assert false;
    }
  }

  /** Dividing by the flux is undone by multiplying by it: every pixel is scaled by `1 / flux`. */
  lemma NormalizedRoundTrip(cube: seq<Image>, ny: nat, nx: nat, flux: real, k: nat)
    requires IsCube(cube, ny, nx) && flux != 0.0 && k < |cube|
    ensures ScaledImage(1.0 / flux, cube[k], Normalized(cube, ny, nx, flux)[k], ny, nx)
    ensures forall y, x :: 0 <= y < ny && 0 <= x < nx ==> Normalized(cube, ny, nx, flux)[k][y][x] * flux == cube[k][y][x]
  {
  }
}
