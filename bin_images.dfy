/**
 * Frame averaging of an image cube (`bin_images`): the cube is passed through,
 * averaged into one frame, or cut into `nbin` contiguous groups of equal width whose
 * frames are averaged, the leading remainder frames being dropped.
 */
module BinImages {
  import opened Base
  import opened Images

  /** The exceptions `bin_images` raises. */
  datatype BinError =
    | TooManyBins    // `assert nbin <= ncube`
    | NegativeShape  // `np.zeros((nbin, ny, nx))` with a negative `nbin`

  /** The values of pixel `(y, x)` in each of the frames, in frame order. */
  function PixelSeries(frames: seq<Image>, ny: nat, nx: nat, y: nat, x: nat): (s: seq<real>)
    requires IsCube(frames, ny, nx) && y < ny && x < nx
    ensures |s| == |frames|
  {
    seq(|frames|, k requires 0 <= k < |frames| => frames[k][y][x])
  }

  /** `np.mean(frames, axis=0)`: the pixelwise mean of a non-empty run of frames. */
  function MeanFrames(frames: seq<Image>, ny: nat, nx: nat): (r: Image)
    requires |frames| > 0 && IsCube(frames, ny, nx)
    ensures IsImage(r, ny, nx)
  {
    seq(ny, y requires 0 <= y < ny =>
      seq(nx, x requires 0 <= x < nx => Sum(PixelSeries(frames, ny, nx, y, x)) / (|frames| as real)))
  }

  /** `bin_width = ncube // nbin`. */
  function BinWidth(n: nat, nbin: nat): nat
    requires 0 < nbin
  {
    n / nbin
  }

  /** `i0 + bin_width * i` with `i0 = ncube - bin_width * nbin`: where group `i` begins. */
  function GroupStart(n: nat, nbin: nat, i: nat): (r: int)
    requires 1 <= nbin <= n && i <= nbin
    ensures r == n % nbin + BinWidth(n, nbin) * i
    ensures 0 <= r <= n
    ensures i < nbin ==> r + BinWidth(n, nbin) <= n
  {
    var w := BinWidth(n, nbin);
    assert n == w * nbin + n % nbin;
    assert w * i <= w * nbin by { MulLeft(w, i, nbin); }
    assert i < nbin ==> w * i + w <= w * nbin by {
      if i < nbin { MulLeft(w, i + 1, nbin); }
    }
    (n - w * nbin) + w * i
  }

  lemma MulLeft(w: nat, p: nat, q: nat)
    requires p <= q
    ensures w * p <= w * q
  {
  }

  /** The groups are laid out back to back: they begin after the `N % nbin` leading frames, each is `N / nbin >= 1` frames wide, and the last one ends at `N`. */
  lemma GroupLayout(n: nat, nbin: nat, i: nat)
    requires 1 <= nbin <= n && i < nbin
    ensures GroupStart(n, nbin, 0) == n % nbin
    ensures BinWidth(n, nbin) >= 1
    ensures GroupStart(n, nbin, i + 1) == GroupStart(n, nbin, i) + BinWidth(n, nbin)
    ensures GroupStart(n, nbin, nbin) == n
  {
    var w := BinWidth(n, nbin);
    assert w * (i + 1) == w * i + w;
  }

  /** Frames `[GroupStart(i), GroupStart(i) + w)` of the cube: the frames averaged into output frame `i`. */
  function Group(cube: seq<Image>, ny: nat, nx: nat, nbin: nat, i: nat): (g: seq<Image>)
    requires IsCube(cube, ny, nx) && 1 <= nbin <= |cube| && i < nbin
    ensures |g| == BinWidth(|cube|, nbin) >= 1
    ensures IsCube(g, ny, nx)
  {
    var a := GroupStart(|cube|, nbin, i);
    cube[a..a + BinWidth(|cube|, nbin)]
  }

  /** What `bin_images` returns, case by case. */
  function Binned(cube: seq<Image>, ny: nat, nx: nat, nbin: int): (r: Result<seq<Image>, BinError>)
    requires IsCube(cube, ny, nx)
  {
    var n := |cube|;
    if nbin > n then Err(TooManyBins)
    else if nbin == 0 then Ok(cube)
    else if nbin == 1 then Ok([MeanFrames(cube, ny, nx)])
    else if n > 1 then
      if nbin < 0 then Err(NegativeShape)
      else Ok(seq(nbin, i requires 0 <= i < nbin => MeanFrames(Group(cube, ny, nx, nbin, i), ny, nx)))
    else Ok(cube)
  }

  /**
   * `bin_images(cube, nbin)`: the binned cube is zero-allocated and filled group by group.
   */
  method BinImages(cube: seq<Image>, ny: nat, nx: nat, nbin: int) returns (r: Result<seq<Image>, BinError>)
    requires IsCube(cube, ny, nx)
    ensures r == Binned(cube, ny, nx, nbin)
  {
    var n := |cube|;
    if nbin > n {
      return Err(TooManyBins);
    }
    if nbin == 0 {
      r := Ok(cube);
    } else if nbin == 1 {
      r := Ok([MeanFrames(cube, ny, nx)]);
    } else if n > 1 {
      if nbin < 0 {
        return Err(NegativeShape);
      }
      var binned := new Image[nbin](_ => Zeros(ny, nx));
      var width := n / nbin;
      var i0 := n - width * nbin;
      for i := 0 to nbin
        invariant forall k :: 0 <= k < i ==> binned[k] == MeanFrames(Group(cube, ny, nx, nbin, k), ny, nx)
      {
        ghost var a := GroupStart(n, nbin, i);
        assert i0 + width * i == a && i0 + width * (i + 1) == a + width;
        binned[i] := MeanFrames(cube[i0 + width * i..i0 + width * (i + 1)], ny, nx);
      }
      assert binned[..] == seq(nbin, j requires 0 <= j < nbin => MeanFrames(Group(cube, ny, nx, nbin, j), ny, nx));
      r := Ok(binned[..]);
    } else {
      r := Ok(cube);
    }
  }

  // ---------------------------------------------------------------------------
  // Properties of the binned cube
  // ---------------------------------------------------------------------------

  /** `nbin` larger than the frame count is rejected; a negative `nbin` fails on a cube of two or more frames. */
  lemma BinnedErrors(cube: seq<Image>, ny: nat, nx: nat, nbin: int)
    requires IsCube(cube, ny, nx)
    ensures Binned(cube, ny, nx, nbin).Err? <==> nbin > |cube| || (nbin < 0 && |cube| > 1)
    ensures nbin > |cube| ==> Binned(cube, ny, nx, nbin) == Err(TooManyBins)
  {
  }

  /** `nbin == 0` gives back the same frames in the same order. */
  lemma BinnedZeroIsCopy(cube: seq<Image>, ny: nat, nx: nat)
    requires IsCube(cube, ny, nx)
    ensures Binned(cube, ny, nx, 0) == Ok(cube)
  {
  }

  /** `nbin == 1` gives exactly one frame, whose every pixel is the mean of that pixel over all frames. */
  lemma BinnedOneIsMean(cube: seq<Image>, ny: nat, nx: nat, y: nat, x: nat)
    requires IsCube(cube, ny, nx) && |cube| >= 1 && y < ny && x < nx
    ensures Binned(cube, ny, nx, 1).Ok?
    ensures |Binned(cube, ny, nx, 1).value| == 1
    ensures Binned(cube, ny, nx, 1).value[0][y][x] == Sum(PixelSeries(cube, ny, nx, y, x)) / (|cube| as real)
  {
  }

  /** For `2 <= nbin <= N` the result has exactly `nbin` frames, all of the input's shape. */
  lemma BinnedShape(cube: seq<Image>, ny: nat, nx: nat, nbin: int)
    requires IsCube(cube, ny, nx) && 2 <= nbin <= |cube|
    ensures Binned(cube, ny, nx, nbin).Ok?
    ensures |Binned(cube, ny, nx, nbin).value| == nbin
    ensures IsCube(Binned(cube, ny, nx, nbin).value, ny, nx)
  {
  }

  /** Output frame `i` is the mean of input frames `[i0 + w*i, i0 + w*(i+1))` (see `GroupStart`, `GroupLayout`). */
  lemma BinnedGroup(cube: seq<Image>, ny: nat, nx: nat, nbin: int, i: nat)
    requires IsCube(cube, ny, nx) && 2 <= nbin <= |cube| && i < nbin
    ensures Binned(cube, ny, nx, nbin).Ok?
    ensures
      var a, w := GroupStart(|cube|, nbin, i), BinWidth(|cube|, nbin);
      Binned(cube, ny, nx, nbin).value[i] == MeanFrames(cube[a..a + w], ny, nx)
  {
  }

  /** Every frame from index `N % nbin` on lies in exactly one group, the one numbered `(k - N % nbin) / w`. */
  lemma FrameInOneGroup(n: nat, nbin: nat, k: nat, i: nat)
    requires 1 <= nbin <= n && n % nbin <= k < n && i < nbin
    ensures GroupStart(n, nbin, i) <= k < GroupStart(n, nbin, i) + BinWidth(n, nbin)
        <==> i == (k - n % nbin) / BinWidth(n, nbin)
  {
    var w, i0 := BinWidth(n, nbin), n % nbin;
    GroupLayout(n, nbin, i);
    var q := (k - i0) / w;
    assert k - i0 == w * q + (k - i0) % w;
    assert GroupStart(n, nbin, i) == i0 + w * i;
    if i < q {
      assert w * i + w <= w * q by { assert w * q - w * i == w * (q - i); MulLeft(w, 1, q - i); }
    } else if i > q {
      assert w * q + w <= w * i by { assert w * i - w * q == w * (i - q); MulLeft(w, 1, i - q); }
    }
  }

  /** The leading `N % nbin` frames never contribute: cubes that agree from there on bin identically. */
  lemma BinnedIgnoresLeadingFrames(cube: seq<Image>, cube2: seq<Image>, ny: nat, nx: nat, nbin: int)
    requires IsCube(cube, ny, nx) && IsCube(cube2, ny, nx)
    requires |cube| == |cube2| && 2 <= nbin <= |cube|
    requires cube[|cube| % nbin..] == cube2[|cube| % nbin..]
    ensures Binned(cube, ny, nx, nbin) == Binned(cube2, ny, nx, nbin)
  {
    var n, i0 := |cube|, |cube| % nbin;
    forall i | 0 <= i < nbin ensures Group(cube, ny, nx, nbin, i) == Group(cube2, ny, nx, nbin, i) {
      var a := GroupStart(n, nbin, i);
      var b := a + BinWidth(n, nbin);
      assert cube[a..b] == cube[i0..][a - i0..b - i0];
      assert cube2[a..b] == cube2[i0..][a - i0..b - i0];
    }
    var bs := seq(nbin, j requires 0 <= j < nbin => MeanFrames(Group(cube, ny, nx, nbin, j), ny, nx));
    var bs2 := seq(nbin, j requires 0 <= j < nbin => MeanFrames(Group(cube2, ny, nx, nbin, j), ny, nx));
    assert bs == bs2;
    assert Binned(cube, ny, nx, nbin) == Ok(bs);
    assert Binned(cube2, ny, nx, nbin) == Ok(bs2);
  }

  /** A mean of values that all lie in `[lo, hi]` lies in `[lo, hi]`. */
  lemma MeanWithin(s: seq<real>, lo: real, hi: real)
    requires |s| > 0
    requires forall k :: 0 <= k < |s| ==> lo <= s[k] <= hi
    ensures lo <= Sum(s) / (|s| as real) <= hi
  {
    SumBounds(s, lo, hi);
    var n, t := |s| as real, Sum(s);
    DivideBounds(n, t, lo, hi);
  }

  lemma DivideBounds(n: real, t: real, lo: real, hi: real)
    requires 0.0 < n && n * lo <= t <= n * hi
    ensures lo <= t / n <= hi
  {
    assert t / n - lo == (t - n * lo) / n;
    assert hi - t / n == (n * hi - t) / n;
    DivNonneg(t - n * lo, n);
    DivNonneg(n * hi - t, n);
  }

  lemma DivNonneg(a: real, n: real)
    requires 0.0 <= a && 0.0 < n
    ensures 0.0 <= a / n
  {
  }

  /** Each output pixel lies between the smallest and the largest value of that pixel across its group. */
  lemma BinnedPixelWithinGroup(cube: seq<Image>, ny: nat, nx: nat, nbin: int, i: nat, y: nat, x: nat, lo: real, hi: real)
    requires IsCube(cube, ny, nx) && 2 <= nbin <= |cube| && i < nbin && y < ny && x < nx
    requires forall k :: GroupStart(|cube|, nbin, i) <= k < GroupStart(|cube|, nbin, i) + BinWidth(|cube|, nbin) ==> lo <= cube[k][y][x] <= hi
    ensures Binned(cube, ny, nx, nbin).Ok?
    ensures lo <= Binned(cube, ny, nx, nbin).value[i][y][x] <= hi
  {
    var g := Group(cube, ny, nx, nbin, i);
    var s := PixelSeries(g, ny, nx, y, x);
    forall k | 0 <= k < |s| ensures lo <= s[k] <= hi {
      assert s[k] == cube[GroupStart(|cube|, nbin, i) + k][y][x];
    }
    MeanWithin(s, lo, hi);
  }
}
