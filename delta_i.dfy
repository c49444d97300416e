/**
 * `get_delta_i` (non-exact path): the differential intensities of each frame, i.e. the
 * flux on the far side of the centre minus the flux on the near side, along x and along
 * y. The split is placed at a fractional position by interpolating the cumulative column
 * (or row) sums, whose sample points are the pixel boundaries `0.5, 1.5, ..., n - 0.5`.
 */
module DeltaI {
  import opened Base
  import opened Images
  import opened Numerics

  /** `np.cumsum(p)`: element `i` is the sum of the first `i + 1` values. */
  function CumSums(p: seq<real>): (s: seq<real>)
    ensures |s| == |p|
  {
    seq(|p|, i requires 0 <= i < |p| => Sum(p[..i + 1]))
  }

  /**
   * `np.interp(x, np.arange(n) + .5, fp)`: piecewise-linear interpolation through the
   * points `(j + 0.5, fp[j])`, held at `fp[0]` before the first point and at `fp[n-1]`
   * after the last. Written as a walk along the segments: the first segment spans
   * `[0.5, 1.5]`, and beyond it the same interpolation continues on `fp[1..]` with `x`
   * shifted by one (`InterpClosedForm` gives the familiar closed form).
   */
  function InterpHalfGrid(x: real, fp: seq<real>): real
    requires 1 <= |fp|
    decreases |fp|
  {
    if x <= 0.5 || |fp| == 1 then fp[0]
    else if x <= 1.5 then fp[0] + (x - 0.5) * (fp[1] - fp[0])
    else InterpHalfGrid(x - 1.0, fp[1..])
  }

  /**
   * `S[-1] - 2 * np.interp(c, np.arange(n) + .5, S)` with `S = np.cumsum(p)`: the flux of
   * the profile `p` beyond `c` minus the flux before it.
   */
  function Imbalance(p: seq<real>, c: real): real
    requires 1 <= |p|
  {
    SplitDifference(CumSums(p), c)
  }

  /** `S[-1] - 2 * np.interp(c, np.arange(n) + .5, S)` for cumulative sums `S`. */
  function SplitDifference(s: seq<real>, c: real): real
    requires 1 <= |s|
  {
    s[|s| - 1] - 2.0 * InterpHalfGrid(c, s)
  }

  /** The differential intensities `(Ix, Iy)` of one frame about the centre `(cx, cy)`. */
  function DeltaIFrame(img: Image, ny: nat, nx: nat, cx: real, cy: real): Vec2
    requires IsImage(img, ny, nx) && 1 <= ny && 1 <= nx
  {
    Vec2(Imbalance(ColumnSums(img, nx), cx), Imbalance(RowSums(img), cy))
  }

  /** The default centre of `get_delta_i`: `n // 2`, an integer. */
  function DefaultCentre(n: nat): real
  {
    (n / 2) as real
  }

  /**
   * `get_delta_i(cube, cx, cy)` on the non-exact path: one `(Ix, Iy)` row per frame. The
   * source reads the shape from `cube[0]` and indexes `Sx[-1]`, so the cube and its
   * frames must be non-empty.
   */
  method GetDeltaI(cube: seq<Image>, ny: nat, nx: nat, cx: Option<real>, cy: Option<real>) returns (delta: seq<Vec2>)
    requires IsCube(cube, ny, nx) && 1 <= |cube| && 1 <= ny && 1 <= nx
    ensures |delta| == |cube|
    ensures forall k :: 0 <= k < |cube| ==>
      delta[k] == DeltaIFrame(cube[k], ny, nx,
                              if cx.Some? then cx.value else DefaultCentre(nx),
                              if cy.Some? then cy.value else DefaultCentre(ny))
  {
    var cx2 := if cx.Some? then cx.value else DefaultCentre(nx);
    var cy2 := if cy.Some? then cy.value else DefaultCentre(ny);
    delta := [];
    var k := 0;
    while k < |cube|
      invariant 0 <= k <= |cube|
      invariant |delta| == k
      invariant forall i :: 0 <= i < k ==> delta[i] == DeltaIFrame(cube[i], ny, nx, cx2, cy2)
    {
      delta := delta + [DeltaIFrame(cube[k], ny, nx, cx2, cy2)];
      k := k + 1;
    }
  }

  // ---------------------------------------------------------------------------
  // Cumulative sums
  // ---------------------------------------------------------------------------

  /** The last cumulative sum is the sum of the whole profile. */
  lemma CumSumsLast(p: seq<real>)
    requires 1 <= |p|
    ensures CumSums(p)[|p| - 1] == Sum(p)
  {
    assert p[..|p|] == p;
  }

  /** Each cumulative sum adds one value to the previous one. */
  lemma CumSumsStep(p: seq<real>, i: nat)
    requires 1 <= i < |p|
    ensures CumSums(p)[i] == CumSums(p)[i - 1] + p[i]
  {
    SumPrefixStep(p, i);
  }

  /** The cumulative sums of a non-negative profile never decrease. */
  lemma CumSumsNondecreasing(p: seq<real>)
    requires forall i :: 0 <= i < |p| ==> 0.0 <= p[i]
    ensures Nondecreasing(CumSums(p))
  {
    forall i, j | 0 <= i <= j < |p| ensures CumSums(p)[i] <= CumSums(p)[j] {
      CumSumsGrow(p, i, j);
    }
  }

  /** One pair of cumulative sums of a non-negative profile: the later one is no smaller. */
  lemma CumSumsGrow(p: seq<real>, i: nat, j: nat)
    requires forall i :: 0 <= i < |p| ==> 0.0 <= p[i]
    requires i <= j < |p|
    ensures CumSums(p)[i] <= CumSums(p)[j]
  {
    var rest := p[i + 1..j + 1];
    assert Sum(p[..j + 1]) == Sum(p[..i + 1]) + Sum(rest) by {
      assert p[..j + 1] == p[..i + 1] + rest;
      SumConcat(p[..i + 1], rest);
    }
    assert 0.0 <= Sum(rest) by {
      NonnegSum(rest);
    }
  }

  /** The sequence never decreases. */
  predicate Nondecreasing(s: seq<real>)
  {
    forall i, j :: 0 <= i <= j < |s| ==> s[i] <= s[j]
  }

  /** Dropping the first sample keeps a sequence non-decreasing. */
  lemma NondecreasingTail(s: seq<real>)
    requires 1 <= |s|
    ensures Nondecreasing(s) ==> Nondecreasing(s[1..])
  {
    if Nondecreasing(s) {
      forall i, j | 0 <= i <= j < |s| - 1 ensures s[1..][i] <= s[1..][j] {
        assert s[1..][i] == s[i + 1] && s[1..][j] == s[j + 1];
      }
    }
  }

  /** The cumulative sums of a difference of profiles are the differences of their cumulative sums. */
  lemma CumSumsDifference(u: seq<real>, v: seq<real>, w: seq<real>)
    requires Subtracted(u, v, w)
    ensures Subtracted(CumSums(u), CumSums(v), CumSums(w))
  {
    forall i | 0 <= i < |u| ensures CumSums(w)[i] == CumSums(u)[i] - CumSums(v)[i] {
      SumDifference(u[..i + 1], v[..i + 1], w[..i + 1]);
    }
  }

  /** The cumulative sums of a sum of profiles are the sums of their cumulative sums. */
  lemma CumSumsAdd(u: seq<real>, v: seq<real>, w: seq<real>)
    requires Added(u, v, w)
    ensures Added(CumSums(u), CumSums(v), CumSums(w))
  {
    forall i | 0 <= i < |u| ensures CumSums(w)[i] == CumSums(u)[i] + CumSums(v)[i] {
      SumAdd(u[..i + 1], v[..i + 1], w[..i + 1]);
    }
  }

  /** Scaling a profile scales its cumulative sums. */
  lemma {:induction false} CumSumsScale(a: real, u: seq<real>, w: seq<real>)
    requires Scaled(a, u, w)
    ensures Scaled(a, CumSums(u), CumSums(w))
  {
    forall i | 0 <= i < |u| ensures CumSums(w)[i] == a * CumSums(u)[i] {
      CumSumScaled(a, u, w, i);
    }
    ScaledFromPointwise(a, CumSums(u), CumSums(w));
  }

  lemma {:induction false} CumSumScaled(a: real, u: seq<real>, w: seq<real>, i: nat)
    requires Scaled(a, u, w) && i < |u|
    ensures CumSums(w)[i] == a * CumSums(u)[i]
  {
    ScaledPrefix(a, u, w, i + 1);
    SumScale(a, u[..i + 1], w[..i + 1]);
  }

  // ---------------------------------------------------------------------------
  // Interpolation
  // ---------------------------------------------------------------------------

  /** Inside segment `j`, i.e. for `j + 0.5 <= x <= j + 1.5`, the interpolation is the line through its two samples. */
  lemma {:induction false} InterpSegment(x: real, fp: seq<real>, j: nat)
    requires j + 1 < |fp| && j as real + 0.5 <= x <= j as real + 1.5
    ensures InterpHalfGrid(x, fp) == fp[j] + (x - 0.5 - j as real) * (fp[j + 1] - fp[j])
  {
    if j == 0 {
      if x == 0.5 {
        ZeroTimes(fp[1] - fp[0]);
      }
    } else if x == 1.5 {
      assert j == 1;
      ZeroTimes(fp[2] - fp[1]);
      OneTimes(fp[1] - fp[0]);
    } else {
      InterpSegment(x - 1.0, fp[1..], j - 1);
      assert x - 1.0 - 0.5 - (j - 1) as real == x - 0.5 - j as real;
    }
  }

  lemma ZeroTimes(d: real)
    ensures 0.0 * d == 0.0
  {
  }

  lemma OneTimes(d: real)
    ensures 1.0 * d == d
  {
  }

  /** At or before the first sample point the interpolation holds the first sample. */
  lemma InterpClampLow(x: real, fp: seq<real>)
    requires 1 <= |fp| && x <= 0.5
    ensures InterpHalfGrid(x, fp) == fp[0]
  {
  }

  /** At or after the last sample point the interpolation holds the last sample. */
  lemma {:induction false} InterpClampHigh(x: real, fp: seq<real>)
    requires 1 <= |fp| && x >= |fp| as real - 0.5
    ensures InterpHalfGrid(x, fp) == fp[|fp| - 1]
  {
    if |fp| > 1 {
      if x <= 1.5 {
        assert |fp| == 2 && x == 1.5;
        OneTimes(fp[1] - fp[0]);
      } else {
        InterpClampHigh(x - 1.0, fp[1..]);
      }
    }
  }

  /**
   * Between the first and the last sample point the interpolation is
   * `fp[j] + (x - 0.5 - j) * (fp[j + 1] - fp[j])` with `j = floor(x - 0.5)`.
   */
  lemma InterpClosedForm(x: real, fp: seq<real>)
    requires 0.5 < x < |fp| as real - 0.5
    ensures
      var j := (x - 0.5).Floor;
      0 <= j < |fp| - 1 && InterpHalfGrid(x, fp) == fp[j] + (x - 0.5 - j as real) * (fp[j + 1] - fp[j])
  {
    var j := (x - 0.5).Floor;
    InterpSegment(x, fp, j);
  }

  /** At a sample point the interpolation returns the sample. */
  lemma InterpAtSample(fp: seq<real>, j: nat)
    requires j < |fp|
    ensures InterpHalfGrid(j as real + 0.5, fp) == fp[j]
  {
    if j + 1 < |fp| {
      InterpSegment(j as real + 0.5, fp, j);
      ZeroTimes(fp[j + 1] - fp[j]);
    } else {
      InterpClampHigh(j as real + 0.5, fp);
    }
  }

  /** Half-way between two sample points the interpolation returns their mean. */
  lemma InterpAtMidpoint(fp: seq<real>, k: nat)
    requires 1 <= k < |fp|
    ensures InterpHalfGrid(k as real, fp) == (fp[k - 1] + fp[k]) / 2.0
  {
    InterpSegment(k as real, fp, k - 1);
  }

  /** Interpolating a non-decreasing sequence gives a value between its first and last samples. */
  lemma {:induction false} InterpWithinRange(x: real, fp: seq<real>)
    requires 1 <= |fp|
    ensures Nondecreasing(fp) ==> fp[0] <= InterpHalfGrid(x, fp) <= fp[|fp| - 1]
  {
    if Nondecreasing(fp) && 0.5 < x && 1 < |fp| {
      assert fp[0] <= fp[1] <= fp[|fp| - 1];
      if x <= 1.5 {
        LerpBetween(x - 0.5, fp[0], fp[1], InterpHalfGrid(x, fp));
      } else {
        NondecreasingTail(fp);
        InterpWithinRange(x - 1.0, fp[1..]);
        assert fp[1..][0] == fp[1] && fp[1..][|fp| - 2] == fp[|fp| - 1];
      }
    }
  }

  lemma LerpBetween(t: real, lo: real, hi: real, v: real)
    requires 0.0 <= t <= 1.0 && lo <= hi && v == lo + t * (hi - lo)
    ensures lo <= v <= hi
  {
    MulMonotoneRight(0.0, t, hi - lo);
    MulMonotoneRight(t, 1.0, hi - lo);
  }

  /** Interpolating a difference of samples gives the difference of the interpolations. */
  lemma {:induction false} InterpDifference(x: real, u: seq<real>, v: seq<real>, w: seq<real>)
    requires 1 <= |u| && Subtracted(u, v, w)
    ensures InterpHalfGrid(x, w) == InterpHalfGrid(x, u) - InterpHalfGrid(x, v)
  {
    if 0.5 < x && 1 < |u| {
      if x <= 1.5 {
        LerpDifference(x - 0.5, u[0], u[1], v[0], v[1]);
      } else {
        assert Subtracted(u[1..], v[1..], w[1..]);
        InterpDifference(x - 1.0, u[1..], v[1..], w[1..]);
      }
    }
  }

  lemma LerpDifference(t: real, u0: real, u1: real, v0: real, v1: real)
    ensures (u0 - v0) + t * ((u1 - v1) - (u0 - v0)) == (u0 + t * (u1 - u0)) - (v0 + t * (v1 - v0))
  {
  }

  /** Interpolating a sum of samples gives the sum of the interpolations. */
  lemma {:induction false} InterpAdd(x: real, u: seq<real>, v: seq<real>, w: seq<real>)
    requires 1 <= |u| && Added(u, v, w)
    ensures InterpHalfGrid(x, w) == InterpHalfGrid(x, u) + InterpHalfGrid(x, v)
  {
    if 0.5 < x && 1 < |u| {
      if x <= 1.5 {
        LerpAdd(x - 0.5, u[0], u[1], v[0], v[1]);
      } else {
        assert Added(u[1..], v[1..], w[1..]);
        InterpAdd(x - 1.0, u[1..], v[1..], w[1..]);
      }
    }
  }

  lemma LerpAdd(t: real, u0: real, u1: real, v0: real, v1: real)
    ensures (u0 + v0) + t * ((u1 + v1) - (u0 + v0)) == (u0 + t * (u1 - u0)) + (v0 + t * (v1 - v0))
  {
  }

  /** Interpolating scaled samples scales the interpolation. */
  lemma {:induction false} InterpScale(x: real, a: real, u: seq<real>, w: seq<real>)
    requires 1 <= |u| && Scaled(a, u, w)
    ensures InterpHalfGrid(x, w) == a * InterpHalfGrid(x, u)
  {
    ScaledAt(a, u, w, 0);
    if 0.5 < x && 1 < |u| {
      if x <= 1.5 {
        ScaledAt(a, u, w, 1);
        LerpScale(x - 0.5, a, u[0], u[1]);
      } else {
        ScaledTail(a, u, w);
        InterpScale(x - 1.0, a, u[1..], w[1..]);
      }
    }
  }

  lemma LerpScale(t: real, a: real, u0: real, u1: real)
    ensures a * u0 + t * (a * u1 - a * u0) == a * (u0 + t * (u1 - u0))
  {
  }

  // ---------------------------------------------------------------------------
  // The imbalance across a split
  // ---------------------------------------------------------------------------

  /** The first term `S[-1]` is the total flux of the profile. */
  lemma ImbalanceTotal(p: seq<real>, c: real)
    requires 1 <= |p|
    ensures Imbalance(p, c) == Sum(p) - 2.0 * InterpHalfGrid(c, CumSums(p))
  {
    CumSumsLast(p);
  }

  /**
   * With the split on the boundary after value `j` (`c == j + 0.5`), the imbalance is the
   * flux after that boundary minus the flux before it.
   */
  lemma ImbalanceAtBoundary(p: seq<real>, j: nat)
    requires j < |p|
    ensures Imbalance(p, j as real + 0.5) == Sum(p[j + 1..]) - Sum(p[..j + 1])
  {
    CumSumsLast(p);
    InterpAtSample(CumSums(p), j);
    SumSplit(p, j + 1);
  }

  /**
   * With the split through the middle of value `k` (`c == k`), that value is shared
   * equally and cancels: the imbalance is the flux after it minus the flux before it.
   */
  lemma ImbalanceAtPixel(p: seq<real>, k: nat)
    requires 1 <= k < |p|
    ensures Imbalance(p, k as real) == Sum(p[k + 1..]) - Sum(p[..k])
  {
    CumSumsLast(p);
    InterpAtMidpoint(CumSums(p), k);
    CumSumsStep(p, k);
    assert CumSums(p)[k - 1] == Sum(p[..k]);
    SumSplit(p, k);
    SumFront(p[k..]);
    assert p[k..][1..] == p[k + 1..];
  }

  /**
   * Beyond the sample points the interpolation holds the end values: a split at or before
   * the first boundary counts only the first value as "before", one at or after the last
   * boundary counts everything as "before".
   */
  lemma ImbalanceClamped(p: seq<real>, c: real)
    requires 1 <= |p|
    ensures c <= 0.5 ==> Imbalance(p, c) == Sum(p) - 2.0 * p[0]
    ensures c >= |p| as real - 0.5 ==> Imbalance(p, c) == -Sum(p)
  {
    CumSumsLast(p);
    SumSingleton(p[0]);
    assert p[..1] == [p[0]];
    if c <= 0.5 {
      InterpClampLow(c, CumSums(p));
    }
    if c >= |p| as real - 0.5 {
      InterpClampHigh(c, CumSums(p));
    }
  }

  /** The profile extended by zeros on both sides: value `i` for any integer `i`. */
  function Ext(p: seq<real>, i: int): real
  {
    if 0 <= i < |p| then p[i] else 0.0
  }

  /**
   * The profile, extended by zeros, reads the same both ways about `k / 2`: value `i`
   * equals value `k - i`, and a value whose mirror image falls outside the profile is zero.
   */
  predicate MirrorAbout(p: seq<real>, k: int)
  {
    forall i :: 0 <= i < |p| ==> p[i] == Ext(p, k - i)
  }

  /** `Ext(p, lo) + ... + Ext(p, hi - 1)`, the flux over an integer range. */
  function SumExt(p: seq<real>, lo: int, hi: int): real
    decreases hi - lo
  {
    if hi <= lo then 0.0 else SumExt(p, lo, hi - 1) + Ext(p, hi - 1)
  }

  lemma {:induction false} SumExtSplit(p: seq<real>, lo: int, mid: int, hi: int)
    requires lo <= mid <= hi
    ensures SumExt(p, lo, hi) == SumExt(p, lo, mid) + SumExt(p, mid, hi)
    decreases hi - mid
  {
    if mid < hi {
      SumExtSplit(p, lo, mid, hi - 1);
    }
  }

  lemma {:induction false} SumExtZero(p: seq<real>, lo: int, hi: int)
    requires forall i :: lo <= i < hi ==> Ext(p, i) == 0.0
    ensures SumExt(p, lo, hi) == 0.0
    decreases hi - lo
  {
    if lo < hi {
      SumExtZero(p, lo, hi - 1);
    }
  }

  lemma {:induction false} SumExtPrefix(p: seq<real>, a: nat)
    requires a <= |p|
    ensures SumExt(p, 0, a) == Sum(p[..a])
  {
    if a == 0 {
      assert p[..0] == [];
    } else {
      SumExtPrefix(p, a - 1);
      SumPrefixStep(p, a - 1);
    }
  }

  lemma SumExtSuffix(p: seq<real>, b: nat)
    requires b <= |p|
    ensures SumExt(p, b, |p|) == Sum(p[b..])
  {
    SumExtSplit(p, 0, b, |p|);
    SumExtPrefix(p, b);
    SumExtPrefix(p, |p|);
    assert p[..|p|] == p;
    SumSplit(p, b);
  }

  /** Mirror symmetry holds for the extended profile at every integer. */
  lemma ExtMirror(p: seq<real>, k: int, i: int)
    requires MirrorAbout(p, k)
    ensures Ext(p, i) == Ext(p, k - i)
  {
    if !(0 <= i < |p|) && 0 <= k - i < |p| {
      assert p[k - i] == Ext(p, k - (k - i));
    }
  }

  /** Reflecting a range about `k / 2` keeps its flux. */
  lemma {:induction false} SumExtReflect(p: seq<real>, k: int, lo: int, hi: int)
    requires MirrorAbout(p, k) && lo <= hi
    ensures SumExt(p, lo, hi) == SumExt(p, k - hi + 1, k - lo + 1)
    decreases hi - lo
  {
    if lo < hi {
      SumExtReflect(p, k, lo, hi - 1);
      ExtMirror(p, k, hi - 1);
      SumExtSplit(p, k - hi + 1, k - hi + 2, k - lo + 1);
      assert SumExt(p, k - hi + 1, k - hi + 2) == Ext(p, k - hi + 1);
    }
  }

  /** A prefix of `a` values and its mirror image, the values from `k + 1 - a` on, carry the same flux. */
  lemma MirrorHalves(p: seq<real>, k: int, a: nat)
    requires MirrorAbout(p, k) && a <= |p| && 0 <= k + 1 - a <= |p|
    ensures Sum(p[..a]) == Sum(p[k + 1 - a..])
  {
    var b := k + 1 - a;
    var n := |p|;
    SumExtPrefix(p, a);
    SumExtReflect(p, k, 0, a);
    if k + 1 <= n {
      SumExtSplit(p, b, k + 1, n);
      forall i | k + 1 <= i < n ensures Ext(p, i) == 0.0 {
        assert p[i] == Ext(p, k - i);
      }
      SumExtZero(p, k + 1, n);
    } else {
      SumExtSplit(p, b, n, k + 1);
      SumExtZero(p, n, k + 1);
    }
    SumExtSuffix(p, b);
  }

  /**
   * A profile that mirrors about `k / 2`, split there, has no imbalance: the flux before
   * the centre is the mirror image of the flux after it. This holds for every centre
   * from the first boundary `0.5` to the last `n - 0.5`, whole or half-integer.
   */
  lemma ImbalanceOfMirrorProfile(p: seq<real>, k: int)
    requires 1 <= k <= 2 * |p| - 1 && MirrorAbout(p, k)
    ensures Imbalance(p, k as real / 2.0) == 0.0
  {
    var j := k / 2;
    if k % 2 == 1 {
      assert k as real / 2.0 == j as real + 0.5;
      MirrorImbalanceAtBoundary(p, j);
    } else {
      assert k as real / 2.0 == j as real;
      MirrorImbalanceAtPixel(p, j);
    }
  }

  lemma MirrorImbalanceAtBoundary(p: seq<real>, j: nat)
    requires j < |p| && MirrorAbout(p, 2 * j + 1)
    ensures Imbalance(p, j as real + 0.5) == 0.0
  {
    ImbalanceAtBoundary(p, j);
    MirrorHalves(p, 2 * j + 1, j + 1);
  }

  lemma MirrorImbalanceAtPixel(p: seq<real>, j: nat)
    requires 1 <= j < |p| && MirrorAbout(p, 2 * j)
    ensures Imbalance(p, j as real) == 0.0
  {
    ImbalanceAtPixel(p, j);
    MirrorHalves(p, 2 * j, j);
  }

  /**
   * The one centre the mirror lemma leaves out, `c == 0` on the first pixel: a profile
   * that mirrors about it is zero past its first value, and the clamping of the
   * interpolation below the first boundary then reads `-p[0]` instead of zero.
   */
  lemma ImbalanceMirrorAtEdge(p: seq<real>)
    requires 1 <= |p| && MirrorAbout(p, 0)
    ensures Imbalance(p, 0.0) == -p[0]
  {
    ImbalanceClamped(p, 0.0);
    SumFront(p);
    forall i | 0 <= i < |p[1..]| ensures 0.0 <= p[1..][i] <= 0.0 {
      assert p[i + 1] == Ext(p, -(i + 1));
    }
    SumBounds(p[1..], 0.0, 0.0);
  }

  /**
   * A profile symmetric about its middle, split at its middle `(n - 1) / 2`, has no
   * imbalance (for at least two values; a single value is clamped instead).
   */
  lemma ImbalanceOfSymmetricProfile(p: seq<real>)
    requires 2 <= |p|
    requires forall i :: 0 <= i < |p| ==> p[i] == p[|p| - 1 - i]
    ensures Imbalance(p, (|p| as real - 1.0) / 2.0) == 0.0
  {
    assert MirrorAbout(p, |p| - 1);
    assert (|p| - 1) as real / 2.0 == (|p| as real - 1.0) / 2.0;
    ImbalanceOfMirrorProfile(p, |p| - 1);
  }

  /** The imbalance of a difference of profiles is the difference of their imbalances. */
  lemma ImbalanceDifference(c: real, u: seq<real>, v: seq<real>, w: seq<real>)
    requires 1 <= |u| && Subtracted(u, v, w)
    ensures Imbalance(w, c) == Imbalance(u, c) - Imbalance(v, c)
  {
    CumSumsDifference(u, v, w);
    InterpDifference(c, CumSums(u), CumSums(v), CumSums(w));
  }

  /** The imbalance of a sum of profiles is the sum of their imbalances. */
  lemma ImbalanceAdd(c: real, u: seq<real>, v: seq<real>, w: seq<real>)
    requires 1 <= |u| && Added(u, v, w)
    ensures Imbalance(w, c) == Imbalance(u, c) + Imbalance(v, c)
  {
    CumSumsAdd(u, v, w);
    InterpAdd(c, CumSums(u), CumSums(v), CumSums(w));
  }

  /** Scaling a profile scales its imbalance. */
  lemma {:induction false} ImbalanceScale(c: real, a: real, u: seq<real>, w: seq<real>)
    requires 1 <= |u| && Scaled(a, u, w)
    ensures Imbalance(w, c) == a * Imbalance(u, c)
  {
    CumSumsScale(a, u, w);
    SplitDifferenceScale(c, a, CumSums(u), CumSums(w));
  }

  lemma {:induction false} SplitDifferenceScale(c: real, a: real, su: seq<real>, sw: seq<real>)
    requires 1 <= |su| && Scaled(a, su, sw)
    ensures SplitDifference(sw, c) == a * SplitDifference(su, c)
  {
    var n := |su|;
    ScaledAt(a, su, sw, n - 1);
    InterpScale(c, a, su, sw);
    ScaleRearrange(a, su[n - 1], InterpHalfGrid(c, su), SplitDifference(sw, c), SplitDifference(su, c));
  }

  lemma ScaleRearrange(a: real, p: real, r: real, dw: real, du: real)
    requires dw == a * p - 2.0 * (a * r) && du == p - 2.0 * r
    ensures dw == a * du
  {
  }

  // ---------------------------------------------------------------------------
  // Frames
  // ---------------------------------------------------------------------------

  /**
   * `Ix` splits the total flux of the frame: `Sx[-1]` equals `np.sum(img)`, and `Iy`
   * likewise through the row sums.
   */
  lemma DeltaIFrameTotals(img: Image, ny: nat, nx: nat, cx: real, cy: real)
    requires IsImage(img, ny, nx) && 1 <= ny && 1 <= nx
    ensures DeltaIFrame(img, ny, nx, cx, cy).x == Total(img) - 2.0 * InterpHalfGrid(cx, CumSums(ColumnSums(img, nx)))
    ensures DeltaIFrame(img, ny, nx, cx, cy).y == Total(img) - 2.0 * InterpHalfGrid(cy, CumSums(RowSums(img)))
  {
    CumSumsLast(ColumnSums(img, nx));
    ColumnSumsTotal(img, nx);
    CumSumsLast(RowSums(img));
  }

  /**
   * A frame whose columns mirror about `k / 2` (column `x` equals column `k - x`, and a
   * column whose mirror image falls outside the frame is dark) has `Ix == 0` there, for
   * every centre from `0.5` to `nx - 0.5`.
   */
  lemma DeltaIFrameMirrorX(img: Image, ny: nat, nx: nat, k: int, cy: real)
    requires IsImage(img, ny, nx) && 1 <= ny && 1 <= k <= 2 * nx - 1
    requires forall y, x {:trigger img[y][x]} :: 0 <= y < ny && 0 <= x < nx ==>
      img[y][x] == (if 0 <= k - x < nx then img[y][k - x] else 0.0)
    ensures DeltaIFrame(img, ny, nx, k as real / 2.0, cy).x == 0.0
  {
    var p := ColumnSums(img, nx);
    forall i | 0 <= i < nx ensures p[i] == Ext(p, k - i) {
      if 0 <= k - i < nx {
        assert Column(img, i) == Column(img, k - i);
      } else {
        forall y | 0 <= y < ny ensures 0.0 <= Column(img, i)[y] <= 0.0 {
          assert img[y][i] == 0.0;
        }
        SumBounds(Column(img, i), 0.0, 0.0);
      }
    }
    ImbalanceOfMirrorProfile(p, k);
  }

  /** Likewise `Iy == 0` for a frame whose rows mirror about `k / 2`. */
  lemma DeltaIFrameMirrorY(img: Image, ny: nat, nx: nat, cx: real, k: int)
    requires IsImage(img, ny, nx) && 1 <= nx && 1 <= k <= 2 * ny - 1
    requires forall y, x {:trigger img[y][x]} :: 0 <= y < ny && 0 <= x < nx ==>
      img[y][x] == (if 0 <= k - y < ny then img[k - y][x] else 0.0)
    ensures DeltaIFrame(img, ny, nx, cx, k as real / 2.0).y == 0.0
  {
    var p := RowSums(img);
    forall i | 0 <= i < ny ensures p[i] == Ext(p, k - i) {
      if 0 <= k - i < ny {
        assert img[i] == img[k - i];
      } else {
        SumBounds(img[i], 0.0, 0.0);
      }
    }
    ImbalanceOfMirrorProfile(p, k);
  }

  /** A frame whose columns mirror each other about the middle `(nx - 1) / 2` has `Ix == 0` there. */
  lemma DeltaIFrameMirrorXAtMiddle(img: Image, ny: nat, nx: nat, cy: real)
    requires IsImage(img, ny, nx) && 1 <= ny && 2 <= nx
    requires forall y, x :: 0 <= y < ny && 0 <= x < nx ==> img[y][x] == img[y][nx - 1 - x]
    ensures DeltaIFrame(img, ny, nx, Middle(nx), cy).x == 0.0
  {
    assert (nx - 1) as real / 2.0 == Middle(nx);
    DeltaIFrameMirrorX(img, ny, nx, nx - 1, cy);
  }

  /** A frame whose rows mirror each other about the middle `(ny - 1) / 2` has `Iy == 0` there. */
  lemma DeltaIFrameMirrorYAtMiddle(img: Image, ny: nat, nx: nat, cx: real)
    requires IsImage(img, ny, nx) && 2 <= ny && 1 <= nx
    requires forall y :: 0 <= y < ny ==> img[y] == img[ny - 1 - y]
    ensures DeltaIFrame(img, ny, nx, cx, Middle(ny)).y == 0.0
  {
    assert (ny - 1) as real / 2.0 == Middle(ny);
    DeltaIFrameMirrorY(img, ny, nx, cx, ny - 1);
  }

  /**
   * `get_delta_i` defaults the centre to `nx // 2`, not to `(nx - 1) / 2`: on an even
   * width the default sits half a pixel past the middle, and a mirror-symmetric frame then
   * reads `Ix == -Sx_col[nx // 2]`, minus the flux of the column at the default centre.
   */
  lemma DefaultCentreOffsetOnEvenWidth(img: Image, ny: nat, nx: nat)
    requires IsImage(img, ny, nx) && 1 <= ny && 2 <= nx && nx % 2 == 0
    requires forall y, x :: 0 <= y < ny && 0 <= x < nx ==> img[y][x] == img[y][nx - 1 - x]
    ensures DeltaIFrame(img, ny, nx, DefaultCentre(nx), 0.0).x == -ColumnSums(img, nx)[nx / 2]
  {
    var p := ColumnSums(img, nx);
    var h := nx / 2;
    forall i | 0 <= i < nx ensures p[i] == p[nx - 1 - i] {
      assert Column(img, i) == Column(img, nx - 1 - i);
    }
    ImbalanceAtPixel(p, h);
    // before the default centre: columns 0 .. h-1; after it: columns h+1 .. nx-1
    SumReverse(p[..h], p[h..]);
    SumFront(p[h..]);
    assert p[h..][1..] == p[h + 1..];
  }

  /** The differential intensities of a sum of frames are the sums of theirs. */
  lemma DeltaIFrameAdd(img: Image, img2: Image, ny: nat, nx: nat, cx: real, cy: real)
    requires IsImage(img, ny, nx) && IsImage(img2, ny, nx) && 1 <= ny && 1 <= nx
    ensures
      var d := DeltaIFrame(AddImages(img, img2, ny, nx), ny, nx, cx, cy);
      var d1 := DeltaIFrame(img, ny, nx, cx, cy);
      var d2 := DeltaIFrame(img2, ny, nx, cx, cy);
      d.x == d1.x + d2.x && d.y == d1.y + d2.y
  {
    var c := AddImages(img, img2, ny, nx);
    ColumnSumsAdd(img, img2, ny, nx);
    RowSumsAdd(img, img2, ny, nx);
    ImbalanceAdd(cx, ColumnSums(img, nx), ColumnSums(img2, nx), ColumnSums(c, nx));
    ImbalanceAdd(cy, RowSums(img), RowSums(img2), RowSums(c));
  }

  /** The differential intensities of a difference of frames are the differences of theirs. */
  lemma DeltaIFrameDifference(img: Image, img2: Image, ny: nat, nx: nat, cx: real, cy: real)
    requires IsImage(img, ny, nx) && IsImage(img2, ny, nx) && 1 <= ny && 1 <= nx
    ensures
      var d := DeltaIFrame(SubtractImages(img, img2, ny, nx), ny, nx, cx, cy);
      var d1 := DeltaIFrame(img, ny, nx, cx, cy);
      var d2 := DeltaIFrame(img2, ny, nx, cx, cy);
      d.x == d1.x - d2.x && d.y == d1.y - d2.y
  {
    var c := SubtractImages(img, img2, ny, nx);
    ColumnSumsDifference(img, img2, ny, nx);
    RowSumsDifference(img, img2, ny, nx);
    ImbalanceDifference(cx, ColumnSums(img, nx), ColumnSums(img2, nx), ColumnSums(c, nx));
    ImbalanceDifference(cy, RowSums(img), RowSums(img2), RowSums(c));
  }

  /** The sequence is zero everywhere. */
  predicate Zero(p: seq<real>)
  {
    forall i :: 0 <= i < |p| ==> p[i] == 0.0
  }

  /** A profile that is zero everywhere has no imbalance about any centre. */
  lemma ImbalanceOfZero(p: seq<real>, c: real)
    requires 1 <= |p|
    ensures Zero(p) ==> Imbalance(p, c) == 0.0
  {
    if Zero(p) {
      forall i | 0 <= i < |p| ensures CumSums(p)[i] == 0.0 {
        SumBounds(p[..i + 1], 0.0, 0.0);
      }
      InterpWithinRange(c, CumSums(p));
    }
  }

  /** A dark frame, zero at every pixel, has no differential intensity about any centre. */
  lemma DeltaIFrameOfDark(img: Image, ny: nat, nx: nat, cx: real, cy: real)
    requires IsImage(img, ny, nx) && 1 <= ny && 1 <= nx
    requires forall y, x :: 0 <= y < ny && 0 <= x < nx ==> img[y][x] == 0.0
    ensures DeltaIFrame(img, ny, nx, cx, cy) == Vec2(0.0, 0.0)
  {
    assert Zero(ColumnSums(img, nx)) by {
      forall x | 0 <= x < nx ensures ColumnSums(img, nx)[x] == 0.0 {
        SumBounds(Column(img, x), 0.0, 0.0);
      }
    }
    assert Zero(RowSums(img)) by {
      forall y | 0 <= y < ny ensures RowSums(img)[y] == 0.0 {
        SumBounds(img[y], 0.0, 0.0);
      }
    }
    ImbalanceOfZero(ColumnSums(img, nx), cx);
    ImbalanceOfZero(RowSums(img), cy);
  }

  /**
   * Scaling a frame by `a` scales its differential intensities: the frame's pair is
   * `(Ix, Iy)`, the imbalances of its column and row profiles, and the scaled frame's
   * pair is `(a * Ix, a * Iy)`.
   */
  lemma {:induction false} DeltaIFrameScale(a: real, img: Image, img2: Image, ny: nat, nx: nat, cx: real, cy: real)
    requires ScaledImage(a, img, img2, ny, nx) && 1 <= ny && 1 <= nx
    ensures DeltaIFrame(img, ny, nx, cx, cy) == Vec2(Imbalance(ColumnSums(img, nx), cx), Imbalance(RowSums(img), cy))
    ensures DeltaIFrame(img2, ny, nx, cx, cy)
         == Vec2(a * Imbalance(ColumnSums(img, nx), cx), a * Imbalance(RowSums(img), cy))
  {
    ColumnImbalanceScale(a, img, img2, ny, nx, cx);
    RowImbalanceScale(a, img, img2, ny, nx, cy);
  }

  lemma {:induction false} ColumnImbalanceScale(a: real, img: Image, img2: Image, ny: nat, nx: nat, cx: real)
    requires ScaledImage(a, img, img2, ny, nx) && 1 <= ny && 1 <= nx
    ensures Imbalance(ColumnSums(img2, nx), cx) == a * Imbalance(ColumnSums(img, nx), cx)
  {
    ColumnSumsScale(a, img, img2, ny, nx);
    ImbalanceScale(cx, a, ColumnSums(img, nx), ColumnSums(img2, nx));
  }

  lemma {:induction false} RowImbalanceScale(a: real, img: Image, img2: Image, ny: nat, nx: nat, cy: real)
    requires ScaledImage(a, img, img2, ny, nx) && 1 <= ny && 1 <= nx
    ensures Imbalance(RowSums(img2), cy) == a * Imbalance(RowSums(img), cy)
  {
    RowSumsScale(a, img, img2, ny, nx);
    ImbalanceScale(cy, a, RowSums(img), RowSums(img2));
  }
}
