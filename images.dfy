/**
 * Frames and cubes of frames with the array reductions NumPy performs on them
 * (`np.sum`, `np.sum(img, axis=0)`, `np.sum(img, axis=1)`), written over reals.
 */
module Images {

  /** A frame: rows indexed by y, each row a sequence of pixel values indexed by x (`img[y][x]`). */
  type Image = seq<seq<real>>

  /** `img` has the NumPy shape `(ny, nx)`. */
  predicate IsImage(img: Image, ny: nat, nx: nat) {
    |img| == ny && forall y :: 0 <= y < ny ==> |img[y]| == nx
  }

  /** Every frame of `cube` has shape `(ny, nx)`: the cube is an `(N, ny, nx)` array. */
  predicate IsCube(cube: seq<Image>, ny: nat, nx: nat) {
    forall k :: 0 <= k < |cube| ==> IsImage(cube[k], ny, nx)
  }

  /** The sum of a sequence, accumulated from the left. */
  function Sum(s: seq<real>): real
  {
    if s == [] then 0.0 else Sum(s[..|s| - 1]) + s[|s| - 1]
  }

  /** Column `x` of a frame: the pixels `img[0][x], ..., img[ny-1][x]`. */
  function Column(img: Image, x: nat): (c: seq<real>)
    requires forall y :: 0 <= y < |img| ==> x < |img[y]|
    ensures |c| == |img|
  {
    seq(|img|, y requires 0 <= y < |img| => img[y][x])
  }

  /** `np.sum(img, axis=0)`: one sum per column. */
  function ColumnSums(img: Image, nx: nat): (s: seq<real>)
    requires IsImage(img, |img|, nx)
    ensures |s| == nx
  {
    seq(nx, x requires 0 <= x < nx => Sum(Column(img, x)))
  }

  /** `np.sum(img, axis=1)`: one sum per row. */
  function RowSums(img: Image): (s: seq<real>)
    ensures |s| == |img|
  {
    seq(|img|, y requires 0 <= y < |img| => Sum(img[y]))
  }

  /** `np.sum(img)`: the total flux of a frame. */
  function Total(img: Image): real
  {
    Sum(RowSums(img))
  }

  /** `np.zeros((ny, nx))`. */
  function Zeros(ny: nat, nx: nat): (r: Image)
    ensures IsImage(r, ny, nx)
  {
    seq(ny, y => seq(nx, x => 0.0))
  }

  /** Pixelwise `img + img2` of two frames of the same shape. */
  function AddImages(img: Image, img2: Image, ny: nat, nx: nat): (r: Image)
    requires IsImage(img, ny, nx) && IsImage(img2, ny, nx)
    ensures IsImage(r, ny, nx)
    ensures forall y, x :: 0 <= y < ny && 0 <= x < nx ==> r[y][x] == img[y][x] + img2[y][x]
  {
    seq(ny, y requires 0 <= y < ny => seq(nx, x requires 0 <= x < nx => img[y][x] + img2[y][x]))
  }

  /** Pixelwise `img - img2` of two frames of the same shape. */
  function SubtractImages(img: Image, img2: Image, ny: nat, nx: nat): (r: Image)
    requires IsImage(img, ny, nx) && IsImage(img2, ny, nx)
    ensures IsImage(r, ny, nx)
    ensures forall y, x :: 0 <= y < ny && 0 <= x < nx ==> r[y][x] == img[y][x] - img2[y][x]
  {
    seq(ny, y requires 0 <= y < ny => seq(nx, x requires 0 <= x < nx => img[y][x] - img2[y][x]))
  }

  /** `w` is the elementwise sum of `u` and `v`. */
  predicate Added(u: seq<real>, v: seq<real>, w: seq<real>)
  {
    |u| == |v| == |w| && forall i :: 0 <= i < |w| ==> w[i] == u[i] + v[i]
  }

  /** `w` is the elementwise difference of `u` and `v`. */
  predicate Subtracted(u: seq<real>, v: seq<real>, w: seq<real>)
  {
    |u| == |v| == |w| && forall i :: 0 <= i < |w| ==> w[i] == u[i] - v[i]
  }

  /**
   * `w` is `u` scaled by `a`, element by element. It is stated from the last element
   * back, the way `Sum` accumulates; `ScaledAt` and `ScaledFromPointwise` convert to and
   * from the pointwise form.
   */
  predicate Scaled(a: real, u: seq<real>, w: seq<real>)
    decreases |u|
  {
    |u| == |w| && (|u| == 0 || (w[|w| - 1] == a * u[|u| - 1] && Scaled(a, u[..|u| - 1], w[..|w| - 1])))
  }

  /** The frame `img2` is the frame `img` scaled by `a`, pixel by pixel. */
  predicate ScaledImage(a: real, img: Image, img2: Image, ny: nat, nx: nat)
  {
    && IsImage(img, ny, nx) && IsImage(img2, ny, nx)
    && forall y, x :: 0 <= y < ny && 0 <= x < nx ==> img2[y][x] == a * img[y][x]
  }

  /** The middle `(n - 1) / 2` of an axis of `n` pixels, the default centre of most operations. */
  function Middle(n: nat): real
  {
    (n as real - 1.0) / 2.0
  }

  /** Squared distance from pixel `(y, x)` to the centre `(cy, cx)`. */
  function Dist2(x: int, y: int, cx: real, cy: real): (d: real)
    ensures 0.0 <= d
  {
    (x as real - cx) * (x as real - cx) + (y as real - cy) * (y as real - cy)
  }

  // ---------------------------------------------------------------------------
  // Lemmas about sums
  // ---------------------------------------------------------------------------

  lemma {:induction false} SumConcat(u: seq<real>, v: seq<real>)
    ensures Sum(u + v) == Sum(u) + Sum(v)
  {
    if v == [] {
      assert u + v == u;
    } else {
      assert (u + v)[..|u + v| - 1] == u + v[..|v| - 1];
      SumConcat(u, v[..|v| - 1]);
    }
  }

  lemma SumSingleton(a: real)
    ensures Sum([a]) == a
  {
    assert [a][..0] == [];
  }

  /** Summing a prefix one element longer adds that element. */
  lemma SumPrefixStep(s: seq<real>, k: nat)
    requires k < |s|
    ensures Sum(s[..k + 1]) == Sum(s[..k]) + s[k]
  {
    assert s[..k + 1][..k] == s[..k];
  }

  /** The sum of the first element and the rest. */
  lemma SumFront(s: seq<real>)
    requires s != []
    ensures Sum(s) == s[0] + Sum(s[1..])
  {
    SumConcat([s[0]], s[1..]);
    SumSingleton(s[0]);
    assert [s[0]] + s[1..] == s;
  }

  /** The sum of elementwise sums is the sum of the two sums. */
  lemma {:induction false} SumAdd(u: seq<real>, v: seq<real>, w: seq<real>)
    requires Added(u, v, w)
    ensures Sum(w) == Sum(u) + Sum(v)
  {
    if w != [] {
      var n := |w| - 1;
      SumAdd(u[..n], v[..n], w[..n]);
    }
  }

  /** The sum of elementwise differences is the difference of the two sums. */
  lemma {:induction false} SumDifference(u: seq<real>, v: seq<real>, w: seq<real>)
    requires Subtracted(u, v, w)
    ensures Sum(w) == Sum(u) - Sum(v)
  {
    if w != [] {
      var n := |w| - 1;
      SumDifference(u[..n], v[..n], w[..n]);
    }
  }

  /** Every element of a scaled sequence is the scaled element. */
  lemma {:induction false} ScaledAt(a: real, u: seq<real>, w: seq<real>, i: nat)
    requires Scaled(a, u, w) && i < |u|
    ensures w[i] == a * u[i]
  {
    var n := |u| - 1;
    if i < n {
      ScaledAt(a, u[..n], w[..n], i);
      assert u[..n][i] == u[i] && w[..n][i] == w[i];
    }
  }

  /** Sequences of one length that agree pointwise up to the factor `a` are scaled. */
  lemma {:induction false} ScaledFromPointwise(a: real, u: seq<real>, w: seq<real>)
    requires |u| == |w| && forall i :: 0 <= i < |u| ==> w[i] == a * u[i]
    ensures Scaled(a, u, w)
  {
    if |u| > 0 {
      var n := |u| - 1;
      ScaledFromPointwise(a, u[..n], w[..n]);
    }
  }

  /** A prefix of a scaled sequence is scaled. */
  lemma ScaledPrefix(a: real, u: seq<real>, w: seq<real>, k: nat)
    requires Scaled(a, u, w) && k <= |u|
    ensures Scaled(a, u[..k], w[..k])
  {
    forall i | 0 <= i < k ensures w[..k][i] == a * u[..k][i] {
      ScaledAt(a, u, w, i);
    }
    ScaledFromPointwise(a, u[..k], w[..k]);
  }

  /** Dropping the first element keeps a sequence scaled. */
  lemma ScaledTail(a: real, u: seq<real>, w: seq<real>)
    requires Scaled(a, u, w) && 1 <= |u|
    ensures Scaled(a, u[1..], w[1..])
  {
    forall i | 0 <= i < |u| - 1 ensures w[1..][i] == a * u[1..][i] {
      ScaledAt(a, u, w, i + 1);
    }
    ScaledFromPointwise(a, u[1..], w[1..]);
  }

  /** Scaling every element scales the sum. */
  lemma {:induction false} SumScale(a: real, u: seq<real>, w: seq<real>)
    requires Scaled(a, u, w)
    ensures Sum(w) == a * Sum(u)
  {
    if u != [] {
      var n := |u| - 1;
      SumScale(a, u[..n], w[..n]);
      Distribute(a, Sum(u[..n]), u[n]);
    }
  }

  lemma Distribute(a: real, p: real, q: real)
    ensures a * (p + q) == a * p + a * q
  {
  }

  /** Summation is monotone in every element. */
  lemma {:induction false} SumMonotone(u: seq<real>, v: seq<real>)
    requires |u| == |v|
    requires forall i :: 0 <= i < |u| ==> u[i] <= v[i]
    ensures Sum(u) <= Sum(v)
  {
    if u != [] {
      SumMonotone(u[..|u| - 1], v[..|v| - 1]);
    }
  }

  /** A sum of elements in `[lo, hi]` lies in `[n * lo, n * hi]`. */
  lemma {:induction false} SumBounds(s: seq<real>, lo: real, hi: real)
    requires forall i :: 0 <= i < |s| ==> lo <= s[i] <= hi
    ensures |s| as real * lo <= Sum(s) <= |s| as real * hi
  {
    if s != [] {
      SumBounds(s[..|s| - 1], lo, hi);
      BoundsStep((|s| - 1) as real, lo, hi, Sum(s[..|s| - 1]), s[|s| - 1]);
    }
  }

  lemma BoundsStep(k: real, lo: real, hi: real, p: real, v: real)
    requires k * lo <= p <= k * hi && lo <= v <= hi
    ensures (k + 1.0) * lo <= p + v <= (k + 1.0) * hi
  {
  }

  /** Reversing a sequence does not change its sum. */
  lemma {:induction false} SumReverse(s: seq<real>, r: seq<real>)
    requires |r| == |s|
    requires forall i :: 0 <= i < |s| ==> r[i] == s[|s| - 1 - i]
    ensures Sum(r) == Sum(s)
  {
    if s != [] {
      var n := |s| - 1;
      SumFront(r);
      SumReverse(s[..n], r[1..]);
    }
  }

  /** A sum is the sum of its first `k` values plus the sum of the rest. */
  lemma SumSplit(s: seq<real>, k: nat)
    requires k <= |s|
    ensures Sum(s) == Sum(s[..k]) + Sum(s[k..])
  {
    SumConcat(s[..k], s[k..]);
    assert s[..k] + s[k..] == s;
  }

  /** A non-negative sequence has a non-negative sum. */
  lemma {:induction false} NonnegSum(s: seq<real>)
    requires forall i :: 0 <= i < |s| ==> 0.0 <= s[i]
    ensures 0.0 <= Sum(s)
  {
    if s != [] {
      NonnegSum(s[..|s| - 1]);
    }
  }

  // ---------------------------------------------------------------------------
  // Lemmas about frames
  // ---------------------------------------------------------------------------

  /**
   * Summing the column sums or the row sums of a frame gives the same total:
   * the last cumulative column sum equals `np.sum(img)`.
   */
  lemma {:induction false} ColumnSumsTotal(img: Image, nx: nat)
    requires IsImage(img, |img|, nx)
    ensures Sum(ColumnSums(img, nx)) == Total(img)
  {
    if img == [] {
      forall x | 0 <= x < nx ensures ColumnSums(img, nx)[x] == 0.0 {
        assert Column(img, x) == [];
      }
      SumBounds(ColumnSums(img, nx), 0.0, 0.0);
    } else {
      var n := |img| - 1;
      var rest, last := img[..n], img[n];
      ColumnSumsTotal(rest, nx);
      forall x | 0 <= x < nx ensures ColumnSums(img, nx)[x] == ColumnSums(rest, nx)[x] + last[x] {
        assert Column(img, x)[..n] == Column(rest, x);
      }
      SumAdd(ColumnSums(rest, nx), last, ColumnSums(img, nx));
      assert RowSums(img)[..n] == RowSums(rest);
    }
  }

  /** The column sums of a sum of frames are the sums of their column sums. */
  lemma ColumnSumsAdd(img: Image, img2: Image, ny: nat, nx: nat)
    requires IsImage(img, ny, nx) && IsImage(img2, ny, nx)
    ensures Added(ColumnSums(img, nx), ColumnSums(img2, nx), ColumnSums(AddImages(img, img2, ny, nx), nx))
  {
    var c := AddImages(img, img2, ny, nx);
    forall x | 0 <= x < nx ensures ColumnSums(c, nx)[x] == ColumnSums(img, nx)[x] + ColumnSums(img2, nx)[x] {
      SumAdd(Column(img, x), Column(img2, x), Column(c, x));
    }
  }

  /** The row sums of a sum of frames are the sums of their row sums. */
  lemma RowSumsAdd(img: Image, img2: Image, ny: nat, nx: nat)
    requires IsImage(img, ny, nx) && IsImage(img2, ny, nx)
    ensures Added(RowSums(img), RowSums(img2), RowSums(AddImages(img, img2, ny, nx)))
  {
    var c := AddImages(img, img2, ny, nx);
    forall y | 0 <= y < ny ensures RowSums(c)[y] == RowSums(img)[y] + RowSums(img2)[y] {
      SumAdd(img[y], img2[y], c[y]);
    }
  }

  /** The column sums of a difference of frames are the differences of their column sums. */
  lemma ColumnSumsDifference(img: Image, img2: Image, ny: nat, nx: nat)
    requires IsImage(img, ny, nx) && IsImage(img2, ny, nx)
    ensures Subtracted(ColumnSums(img, nx), ColumnSums(img2, nx), ColumnSums(SubtractImages(img, img2, ny, nx), nx))
  {
    var c := SubtractImages(img, img2, ny, nx);
    forall x | 0 <= x < nx ensures ColumnSums(c, nx)[x] == ColumnSums(img, nx)[x] - ColumnSums(img2, nx)[x] {
      SumDifference(Column(img, x), Column(img2, x), Column(c, x));
    }
  }

  /** The row sums of a difference of frames are the differences of their row sums. */
  lemma RowSumsDifference(img: Image, img2: Image, ny: nat, nx: nat)
    requires IsImage(img, ny, nx) && IsImage(img2, ny, nx)
    ensures Subtracted(RowSums(img), RowSums(img2), RowSums(SubtractImages(img, img2, ny, nx)))
  {
    var c := SubtractImages(img, img2, ny, nx);
    forall y | 0 <= y < ny ensures RowSums(c)[y] == RowSums(img)[y] - RowSums(img2)[y] {
      SumDifference(img[y], img2[y], c[y]);
    }
  }

  /** The column sums of a scaled frame are the scaled column sums. */
  lemma ColumnSumsScale(a: real, img: Image, img2: Image, ny: nat, nx: nat)
    requires ScaledImage(a, img, img2, ny, nx)
    ensures Scaled(a, ColumnSums(img, nx), ColumnSums(img2, nx))
  {
    forall x | 0 <= x < nx ensures ColumnSums(img2, nx)[x] == a * ColumnSums(img, nx)[x] {
      ColumnScaled(a, img, img2, ny, nx, x);
      SumScale(a, Column(img, x), Column(img2, x));
    }
    ScaledFromPointwise(a, ColumnSums(img, nx), ColumnSums(img2, nx));
  }

  /** A column of a scaled frame is the scaled column. */
  lemma ColumnScaled(a: real, img: Image, img2: Image, ny: nat, nx: nat, x: nat)
    requires ScaledImage(a, img, img2, ny, nx) && x < nx
    ensures Scaled(a, Column(img, x), Column(img2, x))
  {
    forall y | 0 <= y < ny ensures Column(img2, x)[y] == a * Column(img, x)[y] {
      assert Column(img2, x)[y] == img2[y][x];
      assert Column(img, x)[y] == img[y][x];
    }
    ScaledFromPointwise(a, Column(img, x), Column(img2, x));
  }

  /** The row sums of a scaled frame are the scaled row sums. */
  lemma RowSumsScale(a: real, img: Image, img2: Image, ny: nat, nx: nat)
    requires ScaledImage(a, img, img2, ny, nx)
    ensures Scaled(a, RowSums(img), RowSums(img2))
  {
    forall y | 0 <= y < ny ensures RowSums(img2)[y] == a * RowSums(img)[y] {
      RowScaled(a, img, img2, ny, nx, y);
      SumScale(a, img[y], img2[y]);
    }
    ScaledFromPointwise(a, RowSums(img), RowSums(img2));
  }

  /** A row of a scaled frame is the scaled row. */
  lemma RowScaled(a: real, img: Image, img2: Image, ny: nat, nx: nat, y: nat)
    requires ScaledImage(a, img, img2, ny, nx) && y < ny
    ensures Scaled(a, img[y], img2[y])
  {
    ScaledFromPointwise(a, img[y], img2[y]);
  }

  /** A frame that is pixelwise below another has no more total flux. */
  lemma TotalMonotone(img: Image, img2: Image, ny: nat, nx: nat)
    requires IsImage(img, ny, nx) && IsImage(img2, ny, nx)
    requires forall y, x :: 0 <= y < ny && 0 <= x < nx ==> img[y][x] <= img2[y][x]
    ensures Total(img) <= Total(img2)
  {
    forall y | 0 <= y < ny ensures RowSums(img)[y] <= RowSums(img2)[y] {
      SumMonotone(img[y], img2[y]);
    }
    SumMonotone(RowSums(img), RowSums(img2));
  }

  /** A non-negative frame has a non-negative total. */
  lemma TotalNonneg(img: Image, ny: nat, nx: nat)
    requires IsImage(img, ny, nx)
    requires forall y, x :: 0 <= y < ny && 0 <= x < nx ==> 0.0 <= img[y][x]
    ensures 0.0 <= Total(img)
  {
    forall y | 0 <= y < ny ensures 0.0 <= RowSums(img)[y] {
      NonnegSum(img[y]);
    }
    NonnegSum(RowSums(img));
  }
}
