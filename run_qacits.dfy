/**
 * The estimator part of `run_qacits`: from the modulus and argument of the differential
 * intensity of each region, one (modulus, phase) estimate per region, the per-image choice
 * of how to combine them, and the 11-column output row.
 *
 * Complex phasors are pairs of reals (`Vec2(re, im)`); `np.abs` and `np.arctan2(imag, real)`
 * of a phasor are `Modulus` and `Argument` of that pair.
 */
module RunQacits {
  import opened Base
  import opened Numerics
  import opened PsfFlux

  /** A (modulus, phase) pair: one row of `inner_est`, `outer_est`, `full_est` or `final_est`. */
  datatype Estimate = Estimate(modulus: real, phase: real)

  /** The keyword arguments of `run_qacits` that the estimator reads. */
  datatype Settings = Settings(
    innerSlope: real,
    outerSlope: real,
    fullCoeff: real,
    force: Option<Region>,
    phaseTolerance: real,
    modulTolerance: real,
    smallTtRegime: real)

  /** The defaults of `run_qacits`: slopes and coefficient 1, no forcing, 60 degrees, 0.33, 0.3. */
  const DefaultSettings: Settings := Settings(1.0, 1.0, 1.0, None, 60.0, 0.33, 0.3)

  /** The divisions of the regional estimates are defined. */
  predicate Divisible(s: Settings)
  {
    s.innerSlope != 0.0 && s.outerSlope != 0.0 && s.fullCoeff != 0.0
  }

  /** How one image's final estimate is formed. */
  datatype Outcome =
    | InnerOuterMean  // small tip-tilt, inner and outer phases agree: mean of both phasors
    | OuterOnly       // small tip-tilt, phases disagree: the outer phasor
    | OuterFullMean   // large tip-tilt, full and outer agree in phase and modulus: mean of both
    | FullOnly        // large tip-tilt otherwise, full modulus below 1: the full phasor
    | FullUnit        // large tip-tilt otherwise, full modulus at least 1: unit phasor at the full phase

  // ---------------------------------------------------------------------------
  // Regional estimates
  // ---------------------------------------------------------------------------

  /** Inner region, linear: modulus over the inner slope, phase turned by pi. */
  function InnerEstimate(m: Math, s: Settings, mod: real, arg: real): (e: Estimate)
    requires s.innerSlope != 0.0
    ensures e.modulus * s.innerSlope == mod && e.phase - m.pi == arg
  {
    Estimate(mod / s.innerSlope, arg + m.pi)
  }

  /** Outer region, linear: modulus over the outer slope, phase unchanged. */
  function OuterEstimate(s: Settings, mod: real, arg: real): (e: Estimate)
    requires s.outerSlope != 0.0
    ensures e.modulus * s.outerSlope == mod && e.phase == arg
  {
    Estimate(mod / s.outerSlope, arg)
  }

  /** Full region, cubic: `np.abs(mod / full_coeff) ** (1/3)`, phase unchanged. */
  function FullEstimate(m: Math, s: Settings, mod: real, arg: real): (e: Estimate)
    requires s.fullCoeff != 0.0
    ensures e.phase == arg
  {
    Estimate(m.cbrt(Abs(mod / s.fullCoeff)), arg)
  }

  // ---------------------------------------------------------------------------
  // Phasors and agreement tests
  // ---------------------------------------------------------------------------

  /** `np.exp(1j * t)`. */
  function Unit(m: Math, t: real): Vec2
  {
    Vec2(m.cos(t), m.sin(t))
  }

  /** `e.modulus * np.exp(1j * e.phase)`. */
  function Phasor(m: Math, e: Estimate): Vec2
  {
    Vec2(e.modulus * m.cos(e.phase), e.modulus * m.sin(e.phase))
  }

  /** The product of two complex numbers. */
  function Times(p: Vec2, q: Vec2): Vec2
  {
    Vec2(p.x * q.x - p.y * q.y, p.x * q.y + p.y * q.x)
  }

  /** `(p + q) / 2.` */
  function Mean(p: Vec2, q: Vec2): Vec2
  {
    Vec2((p.x + q.x) / 2.0, (p.y + q.y) / 2.0)
  }

  /** The phase of `np.exp(1j * a) * np.exp(-1j * b)`: the angle from phase `b` to phase `a`. */
  function PhaseDifference(m: Math, a: real, b: real): real
  {
    var p := Times(Unit(m, a), Unit(m, -b));
    Argument(m, p.x, p.y)
  }

  /** `np.abs(diff) < phase_tolerance / 180 * np.pi`. */
  predicate PhaseAgrees(m: Math, s: Settings, diff: real)
  {
    Abs(diff) < s.phaseTolerance / 180.0 * m.pi
  }

  /** `np.abs(full - outer) < full * modul_tolerance`, strict. */
  predicate ModulusAgrees(s: Settings, full: Estimate, outer: Estimate)
  {
    Abs(full.modulus - outer.modulus) < full.modulus * s.modulTolerance
  }

  // ---------------------------------------------------------------------------
  // The per-image decision
  // ---------------------------------------------------------------------------

  /**
   * The decision table of one image. The small regime (outer modulus below
   * `small_tt_regime`) looks only at the inner/outer phase test and picks one of the first two
   * outcomes; the large regime blends outer and full only when both of their tests pass.
   */
  function Decide(m: Math, s: Settings, inner: Estimate, outer: Estimate, full: Estimate): (o: Outcome)
    ensures (o == InnerOuterMean || o == OuterOnly) <==> outer.modulus < s.smallTtRegime
    ensures o == InnerOuterMean <==>
      outer.modulus < s.smallTtRegime && PhaseAgrees(m, s, PhaseDifference(m, inner.phase, outer.phase))
    ensures o == OuterFullMean <==>
      && s.smallTtRegime <= outer.modulus
      && PhaseAgrees(m, s, PhaseDifference(m, full.phase, outer.phase))
      && ModulusAgrees(s, full, outer)
    ensures o == FullOnly ==> full.modulus < 1.0
    ensures o == FullUnit ==> 1.0 <= full.modulus
  {
    if outer.modulus < s.smallTtRegime then
      if PhaseAgrees(m, s, PhaseDifference(m, inner.phase, outer.phase)) then InnerOuterMean else OuterOnly
    else if PhaseAgrees(m, s, PhaseDifference(m, full.phase, outer.phase)) then
      if ModulusAgrees(s, full, outer) then OuterFullMean
      else if full.modulus < 1.0 then FullOnly
      else FullUnit
    else if full.modulus < 1.0 then FullOnly
    else FullUnit
  }

  /** `meanphasor` for a given outcome. */
  function Combined(m: Math, o: Outcome, inner: Estimate, outer: Estimate, full: Estimate): Vec2
  {
    match o
    case InnerOuterMean => Mean(Phasor(m, inner), Phasor(m, outer))
    case OuterOnly => Phasor(m, outer)
    case OuterFullMean => Mean(Phasor(m, outer), Phasor(m, full))
    case FullOnly => Phasor(m, full)
    case FullUnit => Unit(m, full.phase)
  }

  /** `(np.abs(p), np.arctan2(p.imag, p.real))`. */
  function PolarOf(m: Math, p: Vec2): Estimate
  {
    Estimate(Modulus(m, p.x, p.y), Argument(m, p.x, p.y))
  }

  /** The final estimate of one image when no region is forced. */
  function Fused(m: Math, s: Settings, inner: Estimate, outer: Estimate, full: Estimate): Estimate
  {
    PolarOf(m, Combined(m, Decide(m, s, inner, outer, full), inner, outer, full))
  }

  /** The three test columns of one image when no region is forced. */
  function TestColumns(m: Math, inner: Estimate, outer: Estimate, full: Estimate): (t: seq<real>)
    ensures |t| == 3
  {
    [PhaseDifference(m, inner.phase, outer.phase), PhaseDifference(m, full.phase, outer.phase),
     Abs(full.modulus - outer.modulus)]
  }

  /** The estimate of a named region. */
  function RegionEstimate(r: Region, inner: Estimate, outer: Estimate, full: Estimate): Estimate
  {
    match r
    case Inner => inner
    case Outer => outer
    case Full => full
  }

  /** `final_est[i]`: the forced region's estimate if `force` names one, the fused one otherwise. */
  function Final(m: Math, s: Settings, inner: Estimate, outer: Estimate, full: Estimate): Estimate
  {
    if s.force.Some? then RegionEstimate(s.force.value, inner, outer, full) else Fused(m, s, inner, outer, full)
  }

  /** `test_output[i]`: zero when a region is forced. */
  function Tests(m: Math, s: Settings, inner: Estimate, outer: Estimate, full: Estimate): (t: seq<real>)
    ensures |t| == 3
  {
    if s.force.Some? then [0.0, 0.0, 0.0] else TestColumns(m, inner, outer, full)
  }

  /**
   * One row of `full_estimate_output`: the final estimate in (x, y), then the inner, outer
   * and full (modulus, phase), then the three test values.
   */
  function Layout(m: Math, f: Estimate, inner: Estimate, outer: Estimate, full: Estimate, t: seq<real>): (row: seq<real>)
    requires |t| == 3
    ensures |row| == 11
    ensures row[0] == f.modulus * m.cos(f.phase) && row[1] == f.modulus * m.sin(f.phase)
    ensures row[2..4] == [inner.modulus, inner.phase]
    ensures row[4..6] == [outer.modulus, outer.phase]
    ensures row[6..8] == [full.modulus, full.phase]
    ensures row[8..] == t
  {
    [f.modulus * m.cos(f.phase), f.modulus * m.sin(f.phase),
     inner.modulus, inner.phase, outer.modulus, outer.phase, full.modulus, full.phase] + t
  }

  /** The regional estimates of image `i`. */
  function InnerAt(m: Math, s: Settings, mods: map<Region, seq<real>>, args: map<Region, seq<real>>, i: nat): Estimate
    requires Divisible(s) && Inner in mods && Inner in args && i < |mods[Inner]| && i < |args[Inner]|
  {
    InnerEstimate(m, s, mods[Inner][i], args[Inner][i])
  }

  function OuterAt(s: Settings, mods: map<Region, seq<real>>, args: map<Region, seq<real>>, i: nat): Estimate
    requires Divisible(s) && Outer in mods && Outer in args && i < |mods[Outer]| && i < |args[Outer]|
  {
    OuterEstimate(s, mods[Outer][i], args[Outer][i])
  }

  function FullAt(m: Math, s: Settings, mods: map<Region, seq<real>>, args: map<Region, seq<real>>, i: nat): Estimate
    requires Divisible(s) && Full in mods && Full in args && i < |mods[Full]| && i < |args[Full]|
  {
    FullEstimate(m, s, mods[Full][i], args[Full][i])
  }

  /** Every region has a modulus and an argument for each of the `ncube` images. */
  predicate Measured(mods: map<Region, seq<real>>, args: map<Region, seq<real>>, ncube: nat)
  {
    forall r: Region :: r in mods && r in args && |mods[r]| == ncube && |args[r]| == ncube
  }

  /** The output row of image `i`, from that image's values alone. */
  function RowAt(m: Math, s: Settings, mods: map<Region, seq<real>>, args: map<Region, seq<real>>, ncube: nat, i: nat): (row: seq<real>)
    requires Divisible(s) && Measured(mods, args, ncube) && i < ncube
    ensures |row| == 11
  {
    var inner, outer, full := InnerAt(m, s, mods, args, i), OuterAt(s, mods, args, i), FullAt(m, s, mods, args, i);
    Layout(m, Final(m, s, inner, outer, full), inner, outer, full, Tests(m, s, inner, outer, full))
  }

  /** The body of the per-image loop: the decision, `meanphasor`, and the test values. */
  method FuseImage(m: Math, s: Settings, inner: Estimate, outer: Estimate, full: Estimate)
    returns (e: Estimate, t: seq<real>)
    ensures e == Fused(m, s, inner, outer, full) && t == TestColumns(m, inner, outer, full)
  {
    var outcome := Decide(m, s, inner, outer, full);
    var meanPhasor := Combined(m, outcome, inner, outer, full);
    e := Estimate(Modulus(m, meanPhasor.x, meanPhasor.y), Argument(m, meanPhasor.x, meanPhasor.y));
    t := [PhaseDifference(m, inner.phase, outer.phase), PhaseDifference(m, full.phase, outer.phase),
          Abs(full.modulus - outer.modulus)];
  }

  /**
   * `final_est` and `test_output`: zero-initialised, then either the forced region's estimates
   * or, image by image, the fused estimate and its test values.
   */
  method FinalEstimates(m: Math, s: Settings, innerEst: seq<Estimate>, outerEst: seq<Estimate>, fullEst: seq<Estimate>)
    returns (finalEst: seq<Estimate>, testOutput: seq<seq<real>>)
    requires |innerEst| == |outerEst| == |fullEst|
    ensures |finalEst| == |innerEst| && |testOutput| == |innerEst|
    ensures forall k :: 0 <= k < |innerEst| ==> finalEst[k] == Final(m, s, innerEst[k], outerEst[k], fullEst[k])
    ensures forall k :: 0 <= k < |innerEst| ==> testOutput[k] == Tests(m, s, innerEst[k], outerEst[k], fullEst[k])
  {
    var ncube := |innerEst|;
    testOutput := seq(ncube, _ => [0.0, 0.0, 0.0]);
    if s.force == Some(Inner) {
      finalEst := innerEst;
    } else if s.force == Some(Outer) {
      finalEst := outerEst;
    } else if s.force == Some(Full) {
      finalEst := fullEst;
    } else {
      finalEst := seq(ncube, _ => Estimate(0.0, 0.0));
      var i := 0;
      while i < ncube
        invariant 0 <= i <= ncube
        invariant |finalEst| == ncube && |testOutput| == ncube
        invariant forall k :: 0 <= k < i ==> finalEst[k] == Fused(m, s, innerEst[k], outerEst[k], fullEst[k])
        invariant forall k :: 0 <= k < i ==> testOutput[k] == TestColumns(m, innerEst[k], outerEst[k], fullEst[k])
      {
        var e, t := FuseImage(m, s, innerEst[i], outerEst[i], fullEst[i]);
        finalEst := finalEst[i := e];
        testOutput := testOutput[i := t];
        i := i + 1;
      }
    }
  }

  /**
   * `run_qacits` from the regional moduli and arguments on: the regional estimates, the forced
   * choice or the per-image fusion loop, and the `ncube x 11` output.
   */
  method RunQacits(m: Math, s: Settings, mods: map<Region, seq<real>>, args: map<Region, seq<real>>, ncube: nat)
    returns (output: seq<seq<real>>)
    requires Divisible(s) && Measured(mods, args, ncube)
    ensures |output| == ncube
    ensures forall i :: 0 <= i < ncube ==> output[i] == RowAt(m, s, mods, args, ncube, i)
  {
    var innerEst := seq(ncube, i requires 0 <= i < ncube => InnerEstimate(m, s, mods[Inner][i], args[Inner][i]));
    var outerEst := seq(ncube, i requires 0 <= i < ncube => OuterEstimate(s, mods[Outer][i], args[Outer][i]));
    var fullEst := seq(ncube, i requires 0 <= i < ncube => FullEstimate(m, s, mods[Full][i], args[Full][i]));

    var finalEst, testOutput := FinalEstimates(m, s, innerEst, outerEst, fullEst);
    output := seq(ncube, i requires 0 <= i < ncube =>
      Layout(m, finalEst[i], innerEst[i], outerEst[i], fullEst[i], testOutput[i]));
    forall i | 0 <= i < ncube ensures output[i] == RowAt(m, s, mods, args, ncube, i) {
      assert innerEst[i] == InnerAt(m, s, mods, args, i);
      assert outerEst[i] == OuterAt(s, mods, args, i);
      assert fullEst[i] == FullAt(m, s, mods, args, i);
    }
  }

  // ---------------------------------------------------------------------------
  // Properties
  // ---------------------------------------------------------------------------

  /** The full modulus is the non-negative cube root of `|mod / full_coeff|`. */
  lemma FullEstimateCube(m: Math, s: Settings, mod: real, arg: real)
    requires CbrtLaw(m) && s.fullCoeff != 0.0
    ensures var e := FullEstimate(m, s, mod, arg);
      0.0 <= e.modulus && e.modulus * e.modulus * e.modulus == Abs(mod / s.fullCoeff)
  {
    assert 0.0 <= Abs(mod / s.fullCoeff);
  }

  /** A phasor's modulus is the estimate's modulus; a unit phasor has modulus 1. */
  lemma PhasorModulus(m: Math, e: Estimate)
    requires SqrtLaw(m) && TrigLaw(m) && 0.0 <= e.modulus
    ensures Modulus(m, Phasor(m, e).x, Phasor(m, e).y) == e.modulus
  {
    ModulusOfPolar(m, e.modulus, e.phase);
    ModulusCongruence(m, Phasor(m, e).x, Phasor(m, e).y, e.modulus * m.cos(e.phase), e.modulus * m.sin(e.phase));
  }

  lemma UnitModulus(m: Math, t: real)
    requires SqrtLaw(m) && TrigLaw(m)
    ensures Modulus(m, m.cos(t), m.sin(t)) == 1.0
  {
    ModulusOfPolar(m, 1.0, t);
    assert 1.0 * m.cos(t) == m.cos(t) && 1.0 * m.sin(t) == m.sin(t);
  }

  /**
   * Small tip-tilt regime: the final estimate is the mean of the inner and outer phasors when
   * their phases agree and the outer phasor otherwise, whatever the full estimate is.
   */
  lemma SmallRegimeIgnoresFull(m: Math, s: Settings, inner: Estimate, outer: Estimate, full: Estimate, full2: Estimate)
    requires outer.modulus < s.smallTtRegime
    ensures Fused(m, s, inner, outer, full) == Fused(m, s, inner, outer, full2)
    ensures Fused(m, s, inner, outer, full) ==
      if PhaseAgrees(m, s, PhaseDifference(m, inner.phase, outer.phase))
      then PolarOf(m, Mean(Phasor(m, inner), Phasor(m, outer)))
      else PolarOf(m, Phasor(m, outer))
  {
  }

  /** Large tip-tilt regime: the inner estimate plays no part. */
  lemma LargeRegimeIgnoresInner(m: Math, s: Settings, inner: Estimate, inner2: Estimate, outer: Estimate, full: Estimate)
    requires s.smallTtRegime <= outer.modulus
    ensures Fused(m, s, inner, outer, full) == Fused(m, s, inner2, outer, full)
  {
    assert Decide(m, s, inner, outer, full) == Decide(m, s, inner2, outer, full);
  }

  /**
   * Large tip-tilt regime without a blend: the final modulus is the full modulus capped at 1,
   * at the full phase's direction.
   */
  lemma LargeRegimeModulusCapped(m: Math, s: Settings, inner: Estimate, outer: Estimate, full: Estimate)
    requires SqrtLaw(m) && TrigLaw(m) && 0.0 <= full.modulus
    requires s.smallTtRegime <= outer.modulus
    requires Decide(m, s, inner, outer, full) != OuterFullMean
    ensures Fused(m, s, inner, outer, full).modulus == if full.modulus < 1.0 then full.modulus else 1.0
    ensures Fused(m, s, inner, outer, full).modulus <= 1.0
  {
    if full.modulus < 1.0 {
      PhasorModulus(m, full);
    } else {
      UnitModulus(m, full.phase);
    }
  }

  /** The strict modulus test never passes for a zero full modulus, so no blend happens then. */
  lemma ZeroFullNeverBlends(m: Math, s: Settings, inner: Estimate, outer: Estimate, full: Estimate)
    requires full.modulus == 0.0
    ensures !ModulusAgrees(s, full, outer)
    ensures Decide(m, s, inner, outer, full) != OuterFullMean
  {
  }

  /** The phase test sees no difference between a phase and itself. */
  lemma SamePhaseDifference(m: Math, a: real)
    requires TrigLaw(m) && Atan2Law(m)
    ensures PhaseDifference(m, a, a) == 0.0
  {
    var c, t := m.cos(a), m.sin(a);
    assert m.cos(-a) == c && m.sin(-a) == -t;
    assert c * c + t * t == 1.0;
    var p := Times(Unit(m, a), Unit(m, -a));
    assert p.x == c * c + t * t;
    assert p == Vec2(1.0, 0.0);
  }

  /**
   * Small tip-tilt regime with the inner phase (argument plus pi) equal to the outer one and a
   * positive tolerance: the inner and outer phasors are averaged.
   */
  lemma AlignedPhasesAreAveraged(m: Math, s: Settings, inner: Estimate, outer: Estimate, full: Estimate)
    requires TrigLaw(m) && Atan2Law(m) && 0.0 < s.phaseTolerance
    requires outer.modulus < s.smallTtRegime && inner.phase == outer.phase
    ensures Decide(m, s, inner, outer, full) == InnerOuterMean
    ensures Fused(m, s, inner, outer, full) == PolarOf(m, Mean(Phasor(m, inner), Phasor(m, outer)))
  {
    SamePhaseDifference(m, outer.phase);
    assert 0.0 < s.phaseTolerance / 180.0 * m.pi by {
      MulStrictlyMonotone(0.0, s.phaseTolerance / 180.0, m.pi);
    }
  }

  /**
   * With `force` naming a region, the row carries that region's estimate verbatim as the final
   * one (in x, y) and zero test values.
   */
  lemma ForcedRow(m: Math, s: Settings, mods: map<Region, seq<real>>, args: map<Region, seq<real>>, ncube: nat, i: nat, r: Region)
    requires Divisible(s) && Measured(mods, args, ncube) && i < ncube && s.force == Some(r)
    ensures var e := RegionEstimate(r, InnerAt(m, s, mods, args, i), OuterAt(s, mods, args, i), FullAt(m, s, mods, args, i));
      var row := RowAt(m, s, mods, args, ncube, i);
      && row[0] == e.modulus * m.cos(e.phase) && row[1] == e.modulus * m.sin(e.phase)
      && row[8..] == [0.0, 0.0, 0.0]
  {
  }

  /**
   * Without forcing, the final (x, y) of an image is `meanphasor` itself: converting it to
   * (modulus, phase) and back is the identity.
   */
  lemma FusedXYIsMeanPhasor(m: Math, s: Settings, inner: Estimate, outer: Estimate, full: Estimate)
    requires PolarLaw(m)
    ensures var f := Fused(m, s, inner, outer, full);
      var p := Combined(m, Decide(m, s, inner, outer, full), inner, outer, full);
      f.modulus * m.cos(f.phase) == p.x && f.modulus * m.sin(f.phase) == p.y
  {
    PolarRoundTrip(m, Combined(m, Decide(m, s, inner, outer, full), inner, outer, full), Fused(m, s, inner, outer, full));
  }

  /**
   * Without forcing, the final estimate is in polar form whatever the regional estimates:
   * its modulus is an absolute value and its phase an `arctan2`, in `(-pi, pi]`.
   */
  lemma FusedInPolarRange(m: Math, s: Settings, inner: Estimate, outer: Estimate, full: Estimate)
    requires SqrtLaw(m) && Atan2Law(m) && s.force == None
    ensures 0.0 <= Final(m, s, inner, outer, full).modulus
    ensures -m.pi < Final(m, s, inner, outer, full).phase <= m.pi
  {
    var p := Combined(m, Decide(m, s, inner, outer, full), inner, outer, full);
    RootOfSumOfSquares(m, p.x, p.y);
    assert -m.pi < m.atan2(p.y, p.x) <= m.pi;
  }

  /**
   * Forcing bypasses that polar form: a forced inner estimate keeps the phase `arg + pi`,
   * beyond `pi` for every positive argument.
   */
  lemma ForcedInnerPhaseBeyondPi(m: Math, s: Settings, mod: real, arg: real, outer: Estimate, full: Estimate)
    requires s.innerSlope != 0.0 && s.force == Some(Inner) && 0.0 < arg
    ensures m.pi < Final(m, s, InnerEstimate(m, s, mod, arg), outer, full).phase
  {
  }

  /** A forced outer estimate with a negative slope has a negative modulus for a positive measurement. */
  lemma ForcedOuterModulusNegative(m: Math, s: Settings, inner: Estimate, mod: real, arg: real, full: Estimate)
    requires s.outerSlope < 0.0 && s.force == Some(Outer) && 0.0 < mod
    ensures Final(m, s, inner, OuterEstimate(s, mod, arg), full).modulus < 0.0
  {
    var e := OuterEstimate(s, mod, arg);
    if 0.0 <= e.modulus {
      MulMonotone(e.modulus, s.outerSlope, 0.0);
      assert false;
    }
  }

  /**
   * The default keyword arguments: unit slopes and coefficient, so every division is
   * defined, and no forcing, so every image gets the fused estimate in polar form.
   */
  lemma DefaultSettingsFuse(m: Math, inner: Estimate, outer: Estimate, full: Estimate)
    requires SqrtLaw(m) && Atan2Law(m)
    ensures Divisible(DefaultSettings) && DefaultSettings.force == None
    ensures Final(m, DefaultSettings, inner, outer, full) == Fused(m, DefaultSettings, inner, outer, full)
    ensures 0.0 <= Final(m, DefaultSettings, inner, outer, full).modulus
    ensures -m.pi < Final(m, DefaultSettings, inner, outer, full).phase <= m.pi
  {
    FusedInPolarRange(m, DefaultSettings, inner, outer, full);
  }

  /** `PolarOf` followed by `m * cos`, `m * sin` gives back the phasor. */
  lemma PolarRoundTrip(m: Math, p: Vec2, e: Estimate)
    requires PolarLaw(m) && e == PolarOf(m, p)
    ensures e.modulus * m.cos(e.phase) == p.x && e.modulus * m.sin(e.phase) == p.y
  {
    assert Modulus(m, p.x, p.y) * m.cos(Argument(m, p.x, p.y)) == p.x;
  }

  /** Each row depends only on its own image's moduli and arguments. */
  lemma RowsAreIndependent(m: Math, s: Settings, mods: map<Region, seq<real>>, args: map<Region, seq<real>>, ncube: nat,
                           mods2: map<Region, seq<real>>, args2: map<Region, seq<real>>, ncube2: nat, i: nat, j: nat)
    requires Divisible(s) && Measured(mods, args, ncube) && Measured(mods2, args2, ncube2) && i < ncube && j < ncube2
    requires forall r: Region :: mods[r][i] == mods2[r][j] && args[r][i] == args2[r][j]
    ensures RowAt(m, s, mods, args, ncube, i) == RowAt(m, s, mods2, args2, ncube2, j)
  {
    assert InnerAt(m, s, mods, args, i) == InnerAt(m, s, mods2, args2, j);
    assert OuterAt(s, mods, args, i) == OuterAt(s, mods2, args2, j);
    assert FullAt(m, s, mods, args, i) == FullAt(m, s, mods2, args2, j);
  }
}
