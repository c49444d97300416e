/**
 * `circle_mask`: a boolean frame that is true at the pixels strictly inside a circle
 * whose centre is first snapped to the nearest multiple of half a pixel.
 */
module CircleMask {
  import opened Base
  import opened Images
  import opened Numerics

  /** `np.round` on one value: the nearest integer, ties going to the even neighbour. */
  function RoundHalfEven(v: real): (r: int)
    ensures -0.5 <= v - r as real <= 0.5
    ensures (v - r as real == 0.5 || r as real - v == 0.5) ==> r % 2 == 0
  {
    var f := v.Floor;
    var d := v - f as real;
    if d < 0.5 then f
    else if d > 0.5 then f + 1
    else if f % 2 == 0 then f
    else f + 1
  }

  /** The two properties of `RoundHalfEven` determine it: any integer within 1/2 of `v`, even on a tie, is it. */
  lemma RoundHalfEvenUnique(v: real, q: int)
    requires -0.5 <= v - q as real <= 0.5
    requires (v - q as real == 0.5 || q as real - v == 0.5) ==> q % 2 == 0
    ensures q == RoundHalfEven(v)
  {
  }

  /** `np.round(c * 2.) / 2.`: the centre moved to the nearest multiple of 1/2. */
  function SnapToHalfPixel(c: real): (r: real)
    ensures -0.25 <= c - r <= 0.25
    ensures r == RoundHalfEven(2.0 * c) as real / 2.0
  {
    RoundHalfEven(2.0 * c) as real / 2.0
  }

  /** The centre used along one axis of `n` pixels: the given one or the default, snapped. */
  function MaskCentre(n: nat, c: Option<real>): real
  {
    SnapToHalfPixel(if c.Some? then c.value else Middle(n))
  }

  /**
   * `sqrt(dx**2 + dy**2) < radius` written on squared distances; `SqrtComparisons`
   * shows the two agree for every radius, including the non-positive ones.
   */
  predicate StrictlyInside(x: int, y: int, cx: real, cy: real, radius: real)
  {
    0.0 < radius && Dist2(x, y, cx, cy) < radius * radius
  }

  /** `circle_mask(image, radius_pix, cx, cy)`. */
  function CircleMask(img: Image, ny: nat, nx: nat, radius: real, cx: Option<real>, cy: Option<real>): (mask: seq<seq<bool>>)
    requires IsImage(img, ny, nx)
    ensures |mask| == ny && forall y :: 0 <= y < ny ==> |mask[y]| == nx
  {
    var cx2, cy2 := MaskCentre(nx, cx), MaskCentre(ny, cy);
    seq(ny, y => seq(nx, x => StrictlyInside(x, y, cx2, cy2, radius)))
  }

  // ---------------------------------------------------------------------------
  // Properties
  // ---------------------------------------------------------------------------

  /**
   * Pixel `(y, x)` is in the mask exactly when its squared distance to the snapped
   * centre is strictly less than the squared radius, the radius being positive; the
   * centre defaults to `((nx - 1) / 2, (ny - 1) / 2)`.
   */
  lemma CircleMaskMembership(m: Math, img: Image, ny: nat, nx: nat, radius: real, cx: Option<real>, cy: Option<real>, y: nat, x: nat)
    requires SqrtLaw(m)
    requires IsImage(img, ny, nx) && y < ny && x < nx
    ensures CircleMask(img, ny, nx, radius, cx, cy)[y][x]
        <==> 0.0 < radius && Dist2(x, y, MaskCentre(nx, cx), MaskCentre(ny, cy)) < radius * radius
    ensures CircleMask(img, ny, nx, radius, cx, cy)[y][x]
        <==> m.sqrt(Dist2(x, y, MaskCentre(nx, cx), MaskCentre(ny, cy))) < radius
  {
    var cx2, cy2 := MaskCentre(nx, cx), MaskCentre(ny, cy);
    assert CircleMask(img, ny, nx, radius, cx, cy)[y][x] == StrictlyInside(x, y, cx2, cy2, radius);
    SqrtComparisons(m, Dist2(x, y, cx2, cy2), radius);
  }

  /** A radius of zero or less gives an all-false mask. */
  lemma CircleMaskEmptyRadius(img: Image, ny: nat, nx: nat, radius: real, cx: Option<real>, cy: Option<real>)
    requires IsImage(img, ny, nx) && radius <= 0.0
    ensures forall y, x :: 0 <= y < ny && 0 <= x < nx ==> !CircleMask(img, ny, nx, radius, cx, cy)[y][x]
  {
    var cx2, cy2 := MaskCentre(nx, cx), MaskCentre(ny, cy);
    forall y, x | 0 <= y < ny && 0 <= x < nx ensures !CircleMask(img, ny, nx, radius, cx, cy)[y][x] {
      assert CircleMask(img, ny, nx, radius, cx, cy)[y][x] == StrictlyInside(x, y, cx2, cy2, radius);
    }
  }

  /** Growing the radius only adds pixels to the mask. */
  lemma CircleMaskMonotone(img: Image, ny: nat, nx: nat, r1: real, r2: real, cx: Option<real>, cy: Option<real>, y: nat, x: nat)
    requires IsImage(img, ny, nx) && r1 <= r2 && y < ny && x < nx
    requires CircleMask(img, ny, nx, r1, cx, cy)[y][x]
    ensures CircleMask(img, ny, nx, r2, cx, cy)[y][x]
  {
    var cx2, cy2 := MaskCentre(nx, cx), MaskCentre(ny, cy);
    assert CircleMask(img, ny, nx, r1, cx, cy)[y][x] == StrictlyInside(x, y, cx2, cy2, r1);
    assert CircleMask(img, ny, nx, r2, cx, cy)[y][x] == StrictlyInside(x, y, cx2, cy2, r2);
    if r1 < r2 {
      SquareStrictlyMonotone(r1, r2);
    }
  }

  /** The default centre already lies on the half-pixel grid, so snapping leaves it where it is. */
  lemma DefaultCentreIsSnapped(n: nat)
    ensures SnapToHalfPixel(Middle(n)) == Middle(n)
  {
    var v := 2.0 * Middle(n);
    assert v == (n - 1) as real;
    RoundHalfEvenUnique(v, n - 1);
  }

  /** Snapping rounds a quarter-pixel tie to the even multiple of 1/2: 0.25 goes to 0, 0.75 to 1, 1.25 to 1. */
  lemma SnapTiesGoToEven()
    ensures SnapToHalfPixel(0.25) == 0.0
    ensures SnapToHalfPixel(0.75) == 1.0
    ensures SnapToHalfPixel(1.25) == 1.0
  {
    RoundHalfEvenUnique(0.5, 0);
    RoundHalfEvenUnique(1.5, 2);
    RoundHalfEvenUnique(2.5, 2);
  }
}
