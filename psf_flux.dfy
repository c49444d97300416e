/**
 * Disk photometry on a binary mask (`get_psf_flux` and `get_di_xy` without the exact
 * aperture integration) and the per-region differential intensities of `get_all_di`:
 * annulus subtraction, the `ratio` debias of the full region and the conversion of each
 * `(Ix, Iy)` pair to modulus and argument.
 */
module PsfFlux {
  import opened Base
  import opened Images
  import opened Numerics
  import opened DeltaI

  // ---------------------------------------------------------------------------
  // Disk masks and aperture flux
  // ---------------------------------------------------------------------------

  /**
   * `r <= radius` with `r = |x + 1j*y|` the distance to the centre, written on squared
   * distances (`MaskDiskPixel` shows the two forms agree).
   */
  predicate InDisk(x: int, y: int, cx: real, cy: real, radius: real)
  {
    0.0 <= radius && Dist2(x, y, cx, cy) <= radius * radius
  }

  /** `img * (r <= radius)`: the frame with every pixel outside the closed disk set to zero. */
  function MaskDisk(img: Image, ny: nat, nx: nat, radius: real, cx: real, cy: real): (r: Image)
    requires IsImage(img, ny, nx)
    ensures IsImage(r, ny, nx)
  {
    seq(ny, y requires 0 <= y < ny =>
      seq(nx, x requires 0 <= x < nx => if InDisk(x, y, cx, cy, radius) then img[y][x] else 0.0))
  }

  /** The centre along an axis of `n` pixels: the given one, else `(n - 1) / 2`. */
  function CentreOr(n: nat, c: Option<real>): real
  {
    if c.Some? then c.value else Middle(n)
  }

  /** `get_psf_flux(img, radius, cx, cy, exact=False)`: the flux inside the closed disk. */
  function PsfFlux(img: Image, ny: nat, nx: nat, radius: real, cx: Option<real>, cy: Option<real>): real
    requires IsImage(img, ny, nx)
  {
    Total(MaskDisk(img, ny, nx, radius, CentreOr(nx, cx), CentreOr(ny, cy)))
  }

  /** A masked pixel keeps its value exactly when its distance to the centre is at most the radius. */
  lemma MaskDiskPixel(m: Math, img: Image, ny: nat, nx: nat, radius: real, cx: real, cy: real, y: nat, x: nat)
    requires SqrtLaw(m) && IsImage(img, ny, nx) && y < ny && x < nx
    ensures MaskDisk(img, ny, nx, radius, cx, cy)[y][x]
         == if m.sqrt(Dist2(x, y, cx, cy)) <= radius then img[y][x] else 0.0
  {
    SqrtComparisons(m, Dist2(x, y, cx, cy), radius);
  }

  /** On a non-negative frame the aperture flux lies between zero and the total flux. */
  lemma PsfFluxBounds(img: Image, ny: nat, nx: nat, radius: real, cx: Option<real>, cy: Option<real>)
    requires IsImage(img, ny, nx)
    requires forall y, x :: 0 <= y < ny && 0 <= x < nx ==> 0.0 <= img[y][x]
    ensures 0.0 <= PsfFlux(img, ny, nx, radius, cx, cy) <= Total(img)
  {
    var mk := MaskDisk(img, ny, nx, radius, CentreOr(nx, cx), CentreOr(ny, cy));
    TotalNonneg(mk, ny, nx);
    TotalMonotone(mk, img, ny, nx);
  }

  /** On a non-negative frame the aperture flux does not decrease as the radius grows. */
  lemma PsfFluxMonotone(img: Image, ny: nat, nx: nat, r1: real, r2: real, cx: Option<real>, cy: Option<real>)
    requires IsImage(img, ny, nx) && r1 <= r2
    requires forall y, x :: 0 <= y < ny && 0 <= x < nx ==> 0.0 <= img[y][x]
    ensures PsfFlux(img, ny, nx, r1, cx, cy) <= PsfFlux(img, ny, nx, r2, cx, cy)
  {
    var cx2, cy2 := CentreOr(nx, cx), CentreOr(ny, cy);
    var m1 := MaskDisk(img, ny, nx, r1, cx2, cy2);
    var m2 := MaskDisk(img, ny, nx, r2, cx2, cy2);
    forall y, x | 0 <= y < ny && 0 <= x < nx ensures m1[y][x] <= m2[y][x] {
      if InDisk(x, y, cx2, cy2, r1) {
        DiskMonotone(x, y, cx2, cy2, r1, r2);
      }
    }
    TotalMonotone(m1, m2, ny, nx);
  }

  /** A pixel in a disk is in every larger disk about the same centre. */
  lemma DiskMonotone(x: int, y: int, cx: real, cy: real, r1: real, r2: real)
    requires r1 <= r2 && InDisk(x, y, cx, cy, r1)
    ensures InDisk(x, y, cx, cy, r2)
  {
    if r1 < r2 {
      SquareStrictlyMonotone(r1, r2);
    }
  }

  /** A negative radius selects no pixel, so the flux is zero. */
  lemma PsfFluxNegativeRadius(img: Image, ny: nat, nx: nat, radius: real, cx: Option<real>, cy: Option<real>)
    requires IsImage(img, ny, nx) && radius < 0.0
    ensures PsfFlux(img, ny, nx, radius, cx, cy) == 0.0
  {
    var mk := MaskDisk(img, ny, nx, radius, CentreOr(nx, cx), CentreOr(ny, cy));
    TotalMonotone(mk, Zeros(ny, nx), ny, nx);
    TotalNonneg(mk, ny, nx);
    TotalZeros(ny, nx);
  }

  /** A disk that holds every pixel of the frame collects the total flux. */
  lemma PsfFluxWholeFrame(img: Image, ny: nat, nx: nat, radius: real, cx: Option<real>, cy: Option<real>)
    requires IsImage(img, ny, nx)
    requires forall y, x :: 0 <= y < ny && 0 <= x < nx ==> InDisk(x, y, CentreOr(nx, cx), CentreOr(ny, cy), radius)
    ensures PsfFlux(img, ny, nx, radius, cx, cy) == Total(img)
  {
    var mk := MaskDisk(img, ny, nx, radius, CentreOr(nx, cx), CentreOr(ny, cy));
    forall y | 0 <= y < ny ensures mk[y] == img[y] {
    }
    assert mk == img;
  }

  lemma TotalZeros(ny: nat, nx: nat)
    ensures Total(Zeros(ny, nx)) == 0.0
  {
    var z := Zeros(ny, nx);
    forall y | 0 <= y < ny ensures RowSums(z)[y] == 0.0 {
      SumBounds(z[y], 0.0, 0.0);
    }
    SumBounds(RowSums(z), 0.0, 0.0);
  }

  // ---------------------------------------------------------------------------
  // Differential intensities inside a disk
  // ---------------------------------------------------------------------------

  /** The frame shape `get_di_xy` needs: none for radius 0, otherwise `np.interp` needs samples. */
  predicate Measurable(ny: nat, nx: nat, radius: real)
  {
    radius == 0.0 || (1 <= ny && 1 <= nx)
  }

  /**
   * One row of `get_di_xy(cube, radius, cx, cy, exact=False)`: zero for radius 0, otherwise
   * the total of the masked frame minus twice the interpolated cumulative column (row) sum.
   */
  function DiXYFrame(img: Image, ny: nat, nx: nat, radius: real, cx: real, cy: real): Vec2
    requires IsImage(img, ny, nx) && Measurable(ny, nx, radius)
  {
    if radius == 0.0 then Vec2(0.0, 0.0)
    else
      var mk := MaskDisk(img, ny, nx, radius, cx, cy);
      var sxy := Total(mk);
      Vec2(sxy - 2.0 * InterpHalfGrid(cx, CumSums(ColumnSums(mk, nx))),
           sxy - 2.0 * InterpHalfGrid(cy, CumSums(RowSums(mk))))
  }

  /** `get_di_xy(cube, radius, cx, cy, exact=False)`: one `(Ix, Iy)` row per frame. */
  method GetDiXY(cube: seq<Image>, ny: nat, nx: nat, radius: real, cx: Option<real>, cy: Option<real>) returns (di: seq<Vec2>)
    requires IsCube(cube, ny, nx) && Measurable(ny, nx, radius)
    ensures |di| == |cube|
    ensures forall k :: 0 <= k < |cube| ==> di[k] == DiXYFrame(cube[k], ny, nx, radius, CentreOr(nx, cx), CentreOr(ny, cy))
  {
    var cx2, cy2 := CentreOr(nx, cx), CentreOr(ny, cy);
    if radius == 0.0 {
      di := seq(|cube|, k => Vec2(0.0, 0.0));
      return;
    }
    di := [];
    var k := 0;
    while k < |cube|
      invariant 0 <= k <= |cube| && |di| == k
      invariant forall i :: 0 <= i < k ==> di[i] == DiXYFrame(cube[i], ny, nx, radius, cx2, cy2)
    {
      var mk := MaskDisk(cube[k], ny, nx, radius, cx2, cy2);
      var sxy := Total(mk);
      var ix := sxy - 2.0 * InterpHalfGrid(cx2, CumSums(ColumnSums(mk, nx)));
      var iy := sxy - 2.0 * InterpHalfGrid(cy2, CumSums(RowSums(mk)));
      di := di + [Vec2(ix, iy)];
      k := k + 1;
    }
  }

  /** For a non-zero radius, `get_di_xy` is `get_delta_i`'s operator applied to the masked frame. */
  lemma DiXYFrameIsDeltaIOfMask(img: Image, ny: nat, nx: nat, radius: real, cx: real, cy: real)
    requires IsImage(img, ny, nx) && 1 <= ny && 1 <= nx && radius != 0.0
    ensures DiXYFrame(img, ny, nx, radius, cx, cy) == DeltaIFrame(MaskDisk(img, ny, nx, radius, cx, cy), ny, nx, cx, cy)
  {
    DeltaIFrameTotals(MaskDisk(img, ny, nx, radius, cx, cy), ny, nx, cx, cy);
  }

  /** A negative radius masks out every pixel, so it reads zero like radius 0 does. */
  lemma DiXYFrameNegativeRadius(img: Image, ny: nat, nx: nat, radius: real, cx: real, cy: real)
    requires IsImage(img, ny, nx) && 1 <= ny && 1 <= nx && radius < 0.0
    ensures DiXYFrame(img, ny, nx, radius, cx, cy) == Vec2(0.0, 0.0)
  {
    MaskDiskNegativeRadius(img, ny, nx, radius, cx, cy);
    DeltaIFrameOfDark(MaskDisk(img, ny, nx, radius, cx, cy), ny, nx, cx, cy);
    DiXYFrameIsDeltaIOfMask(img, ny, nx, radius, cx, cy);
  }

  /** A negative radius zeroes every pixel of the masked frame. */
  lemma MaskDiskNegativeRadius(img: Image, ny: nat, nx: nat, radius: real, cx: real, cy: real)
    requires IsImage(img, ny, nx) && radius < 0.0
    ensures forall y, x :: 0 <= y < ny && 0 <= x < nx ==> MaskDisk(img, ny, nx, radius, cx, cy)[y][x] == 0.0
  {
    var mk := MaskDisk(img, ny, nx, radius, cx, cy);
    forall y, x | 0 <= y < ny && 0 <= x < nx ensures mk[y][x] == 0.0 {
      assert !InDisk(x, y, cx, cy, radius);
    }
  }

  /**
   * A frame mirror-symmetric along both axes, measured about the middle of the frame, has
   * no differential intensity: the masked frame keeps both symmetries.
   */
  lemma DiXYFrameOfSymmetricFrame(img: Image, ny: nat, nx: nat, radius: real)
    requires IsImage(img, ny, nx) && 2 <= ny && 2 <= nx
    requires forall y, x :: 0 <= y < ny && 0 <= x < nx ==> img[y][x] == img[y][nx - 1 - x]
    requires forall y :: 0 <= y < ny ==> img[y] == img[ny - 1 - y]
    ensures DiXYFrame(img, ny, nx, radius, Middle(nx), Middle(ny)) == Vec2(0.0, 0.0)
  {
    if radius != 0.0 {
      var mk := MaskDisk(img, ny, nx, radius, Middle(nx), Middle(ny));
      MaskDiskMirror(img, ny, nx, radius);
      DiXYFrameIsDeltaIOfMask(img, ny, nx, radius, Middle(nx), Middle(ny));
      DeltaIFrameMirrorXAtMiddle(mk, ny, nx, Middle(ny));
      DeltaIFrameMirrorYAtMiddle(mk, ny, nx, Middle(nx));
    }
  }

  /** The disk about the middle of the frame keeps the frame's mirror symmetries. */
  lemma MaskDiskMirror(img: Image, ny: nat, nx: nat, radius: real)
    requires IsImage(img, ny, nx)
    requires forall y, x :: 0 <= y < ny && 0 <= x < nx ==> img[y][x] == img[y][nx - 1 - x]
    requires forall y :: 0 <= y < ny ==> img[y] == img[ny - 1 - y]
    ensures var mk := MaskDisk(img, ny, nx, radius, Middle(nx), Middle(ny));
      && (forall y, x :: 0 <= y < ny && 0 <= x < nx ==> mk[y][x] == mk[y][nx - 1 - x])
      && (forall y :: 0 <= y < ny ==> mk[y] == mk[ny - 1 - y])
  {
    var cx, cy := Middle(nx), Middle(ny);
    var mk := MaskDisk(img, ny, nx, radius, cx, cy);
    forall y, x | 0 <= y < ny && 0 <= x < nx ensures mk[y][x] == mk[y][nx - 1 - x] {
      MirrorDistance(x, nx, y, cy);
      assert mk[y][x] == if InDisk(x, y, cx, cy, radius) then img[y][x] else 0.0;
      assert mk[y][nx - 1 - x] == if InDisk(nx - 1 - x, y, cx, cy, radius) then img[y][nx - 1 - x] else 0.0;
    }
    forall y | 0 <= y < ny ensures mk[y] == mk[ny - 1 - y] {
      forall x | 0 <= x < nx ensures mk[y][x] == mk[ny - 1 - y][x] {
        MirrorDistanceY(x, cx, y, ny);
        assert mk[y][x] == if InDisk(x, y, cx, cy, radius) then img[y][x] else 0.0;
        assert mk[ny - 1 - y][x] == if InDisk(x, ny - 1 - y, cx, cy, radius) then img[ny - 1 - y][x] else 0.0;
      }
    }
  }

  lemma MirrorDistance(x: int, nx: nat, y: int, cy: real)
    ensures Dist2(nx - 1 - x, y, Middle(nx), cy) == Dist2(x, y, Middle(nx), cy)
  {
    var d := x as real - Middle(nx);
    assert (nx - 1 - x) as real - Middle(nx) == -d;
    assert (-d) * (-d) == d * d;
  }

  lemma MirrorDistanceY(x: int, cx: real, y: int, ny: nat)
    ensures Dist2(x, ny - 1 - y, cx, Middle(ny)) == Dist2(x, y, cx, Middle(ny))
  {
    var d := y as real - Middle(ny);
    assert (ny - 1 - y) as real - Middle(ny) == -d;
    assert (-d) * (-d) == d * d;
  }

  // ---------------------------------------------------------------------------
  // Regions
  // ---------------------------------------------------------------------------

  function Sub(a: Vec2, b: Vec2): Vec2 { Vec2(a.x - b.x, a.y - b.y) }

  /** The frame restricted to the annulus between the disks of radii `r0` and `r1`. */
  function MaskAnnulus(img: Image, ny: nat, nx: nat, r0: real, r1: real, cx: real, cy: real): (r: Image)
    requires IsImage(img, ny, nx)
    ensures IsImage(r, ny, nx)
  {
    SubtractImages(MaskDisk(img, ny, nx, r1, cx, cy), MaskDisk(img, ny, nx, r0, cx, cy), ny, nx)
  }

  /** For `0 <= r0 <= r1` the annulus keeps exactly the pixels farther than `r0` and at most `r1` away. */
  lemma MaskAnnulusPixel(img: Image, ny: nat, nx: nat, r0: real, r1: real, cx: real, cy: real, y: nat, x: nat)
    requires IsImage(img, ny, nx) && 0.0 <= r0 <= r1 && y < ny && x < nx
    ensures MaskAnnulus(img, ny, nx, r0, r1, cx, cy)[y][x]
         == if r0 * r0 < Dist2(x, y, cx, cy) <= r1 * r1 then img[y][x] else 0.0
  {
    assert MaskDisk(img, ny, nx, r0, cx, cy)[y][x] == if InDisk(x, y, cx, cy, r0) then img[y][x] else 0.0;
    assert MaskDisk(img, ny, nx, r1, cx, cy)[y][x] == if InDisk(x, y, cx, cy, r1) then img[y][x] else 0.0;
    if InDisk(x, y, cx, cy, r0) {
      DiskMonotone(x, y, cx, cy, r0, r1);
    }
  }

  /** `get_di_xy(cube, r1) - get_di_xy(cube, r0)` for one frame: the values of one region. */
  function RingDi(img: Image, ny: nat, nx: nat, r0: real, r1: real, cx: real, cy: real): Vec2
    requires IsImage(img, ny, nx) && Measurable(ny, nx, r0) && Measurable(ny, nx, r1)
  {
    Sub(DiXYFrame(img, ny, nx, r1, cx, cy), DiXYFrame(img, ny, nx, r0, cx, cy))
  }

  /** With an inner radius of zero the region is the whole disk of radius `r1`. */
  lemma RingDiFromCentre(img: Image, ny: nat, nx: nat, r1: real, cx: real, cy: real)
    requires IsImage(img, ny, nx) && Measurable(ny, nx, r1)
    ensures RingDi(img, ny, nx, 0.0, r1, cx, cy) == DiXYFrame(img, ny, nx, r1, cx, cy)
  {
  }

  /**
   * For non-zero radii a region's value is the differential intensity of the frame
   * restricted to the annulus between its two radii.
   */
  lemma RingDiIsAnnulus(img: Image, ny: nat, nx: nat, r0: real, r1: real, cx: real, cy: real)
    requires IsImage(img, ny, nx) && 1 <= ny && 1 <= nx && r0 != 0.0 && r1 != 0.0
    ensures RingDi(img, ny, nx, r0, r1, cx, cy) == DeltaIFrame(MaskAnnulus(img, ny, nx, r0, r1, cx, cy), ny, nx, cx, cy)
  {
    DiXYFrameIsDeltaIOfMask(img, ny, nx, r0, cx, cy);
    DiXYFrameIsDeltaIOfMask(img, ny, nx, r1, cx, cy);
    DeltaIFrameDifference(MaskDisk(img, ny, nx, r1, cx, cy), MaskDisk(img, ny, nx, r0, cx, cy), ny, nx, cx, cy);
  }

  /** The radii are given for all three regions. */
  predicate RadiiGiven(radii: map<Region, (real, real)>)
  {
    forall r: Region :: r in radii
  }

  /** The radii of region `r` in pixels: `r0 * img_sampling, r1 * img_sampling`. */
  function PixelRadii(radii: map<Region, (real, real)>, sampling: real, r: Region): (real, real)
    requires RadiiGiven(radii)
  {
    (radii[r].0 * sampling, radii[r].1 * sampling)
  }

  /** Every radius of every region, in pixels, can be measured on frames of shape `(ny, nx)`. */
  predicate RadiiMeasurable(radii: map<Region, (real, real)>, sampling: real, ny: nat, nx: nat)
    requires RadiiGiven(radii)
  {
    forall r: Region :: Measurable(ny, nx, PixelRadii(radii, sampling, r).0) && Measurable(ny, nx, PixelRadii(radii, sampling, r).1)
  }

  /** `all_dixy[region]` before the debias: one row per frame. */
  function RegionDi(cube: seq<Image>, ny: nat, nx: nat, radii: map<Region, (real, real)>, sampling: real,
                    cx: real, cy: real, r: Region): (d: seq<Vec2>)
    requires IsCube(cube, ny, nx) && RadiiGiven(radii) && RadiiMeasurable(radii, sampling, ny, nx)
    ensures |d| == |cube|
  {
    var pr := PixelRadii(radii, sampling, r);
    seq(|cube|, k requires 0 <= k < |cube| => RingDi(cube[k], ny, nx, pr.0, pr.1, cx, cy))
  }

  /** `full += ratio * outer`, row by row. */
  function AddScaled(d: seq<Vec2>, ratio: real, e: seq<Vec2>): (r: seq<Vec2>)
    requires |d| == |e|
    ensures |r| == |d|
  {
    seq(|d|, k requires 0 <= k < |d| => Vec2(d[k].x + ratio * e[k].x, d[k].y + ratio * e[k].y))
  }

  /** Adding zero times the outer rows leaves the full rows as they are. */
  lemma AddScaledZero(d: seq<Vec2>, e: seq<Vec2>)
    requires |d| == |e|
    ensures AddScaled(d, 0.0, e) == d
  {
    forall k | 0 <= k < |d| ensures AddScaled(d, 0.0, e)[k] == d[k] {
    }
  }

  /** `all_dixy[region]` after the debias of the full region. */
  function AllDi(cube: seq<Image>, ny: nat, nx: nat, radii: map<Region, (real, real)>, sampling: real,
                 ratio: real, cx: real, cy: real, r: Region): (d: seq<Vec2>)
    requires IsCube(cube, ny, nx) && RadiiGiven(radii) && RadiiMeasurable(radii, sampling, ny, nx)
    ensures |d| == |cube|
  {
    var d := RegionDi(cube, ny, nx, radii, sampling, cx, cy, r);
    if r == Full then AddScaled(d, ratio, RegionDi(cube, ny, nx, radii, sampling, cx, cy, Outer)) else d
  }

  /** `np.sqrt(d[:,0]**2 + d[:,1]**2)`: the modulus of each row. */
  function Moduli(m: Math, d: seq<Vec2>): (r: seq<real>)
    ensures |r| == |d|
  {
    seq(|d|, k requires 0 <= k < |d| => Modulus(m, d[k].x, d[k].y))
  }

  /** `np.arctan2(d[:,1], d[:,0])`: the argument of each row. */
  function Arguments(m: Math, d: seq<Vec2>): (r: seq<real>)
    ensures |r| == |d|
  {
    seq(|d|, k requires 0 <= k < |d| => Argument(m, d[k].x, d[k].y))
  }

  /** The keys `{'inner', 'outer', 'full'}` of every dictionary the core builds. */
  const AllRegions: set<Region> := {Inner, Outer, Full}

  /** The first loop of `get_all_di`: per region, the outer-radius values minus the inner-radius ones. */
  method RegionDis(cube: seq<Image>, ny: nat, nx: nat, radii: map<Region, (real, real)>, sampling: real,
                   cx: Option<real>, cy: Option<real>)
    returns (dixy: map<Region, seq<Vec2>>)
    requires IsCube(cube, ny, nx) && RadiiGiven(radii) && RadiiMeasurable(radii, sampling, ny, nx)
    ensures dixy.Keys == AllRegions
    ensures forall r :: r in dixy ==> dixy[r] == RegionDi(cube, ny, nx, radii, sampling, CentreOr(nx, cx), CentreOr(ny, cy), r)
  {
    var cx2, cy2 := CentreOr(nx, cx), CentreOr(ny, cy);
    dixy := map[];
    var i := 0;
    while i < |RegionOrder|
      invariant 0 <= i <= |RegionOrder|
      invariant dixy.Keys == set j | 0 <= j < i :: RegionOrder[j]
      invariant forall r :: r in dixy ==> dixy[r] == RegionDi(cube, ny, nx, radii, sampling, cx2, cy2, r)
    {
      var region := RegionOrder[i];
      var pr := PixelRadii(radii, sampling, region);
      var d0 := GetDiXY(cube, ny, nx, pr.0, cx, cy);
      var d1 := GetDiXY(cube, ny, nx, pr.1, cx, cy);
      var d := seq(|cube|, k requires 0 <= k < |cube| => Sub(d1[k], d0[k]));
      assert d == RegionDi(cube, ny, nx, radii, sampling, cx2, cy2, region);
      dixy := dixy[region := d];
      i := i + 1;
    }
    assert dixy.Keys == AllRegions by {
      assert RegionOrder[0] == Inner && RegionOrder[1] == Outer && RegionOrder[2] == Full;
    }
  }

  /**
   * `get_all_di(cube, radii, img_sampling, ratio, cx, cy, exact=False)`: per region, the
   * annulus values, then `full += ratio * outer`, then modulus and argument per frame.
   */
  method GetAllDi(m: Math, cube: seq<Image>, ny: nat, nx: nat, radii: map<Region, (real, real)>, sampling: real,
                  ratio: real, cx: Option<real>, cy: Option<real>)
    returns (mods: map<Region, seq<real>>, args: map<Region, seq<real>>)
    requires IsCube(cube, ny, nx) && RadiiGiven(radii) && RadiiMeasurable(radii, sampling, ny, nx)
    ensures mods.Keys == AllRegions && args.Keys == AllRegions
    ensures forall r :: r in mods ==>
      mods[r] == Moduli(m, AllDi(cube, ny, nx, radii, sampling, ratio, CentreOr(nx, cx), CentreOr(ny, cy), r))
    ensures forall r :: r in args ==>
      args[r] == Arguments(m, AllDi(cube, ny, nx, radii, sampling, ratio, CentreOr(nx, cx), CentreOr(ny, cy), r))
  {
    var cx2, cy2 := CentreOr(nx, cx), CentreOr(ny, cy);
    var dixy := RegionDis(cube, ny, nx, radii, sampling, cx, cy);
    // debias the full region from the linear component seen in the outer one
    dixy := dixy[Full := AddScaled(dixy[Full], ratio, dixy[Outer])];
    mods, args := map[], map[];
    var i := 0;
    while i < |RegionOrder|
      invariant 0 <= i <= |RegionOrder|
      invariant mods.Keys == set j | 0 <= j < i :: RegionOrder[j]
      invariant args.Keys == mods.Keys
      invariant forall r :: r in mods ==> mods[r] == Moduli(m, AllDi(cube, ny, nx, radii, sampling, ratio, cx2, cy2, r))
      invariant forall r :: r in args ==> args[r] == Arguments(m, AllDi(cube, ny, nx, radii, sampling, ratio, cx2, cy2, r))
    {
      var region := RegionOrder[i];
      mods := mods[region := Moduli(m, dixy[region])];
      args := args[region := Arguments(m, dixy[region])];
      i := i + 1;
    }
    assert mods.Keys == AllRegions by {
      assert RegionOrder[0] == Inner && RegionOrder[1] == Outer && RegionOrder[2] == Full;
    }
  }

  // ---------------------------------------------------------------------------
  // Properties of the region values
  // ---------------------------------------------------------------------------

  /**
   * The debias changes only the full region, which becomes the full annulus values plus
   * `ratio` times the outer ones; with `ratio == 0` nothing changes.
   */
  lemma DebiasOnlyChangesFull(cube: seq<Image>, ny: nat, nx: nat, radii: map<Region, (real, real)>, sampling: real,
                              ratio: real, cx: real, cy: real, r: Region)
    requires IsCube(cube, ny, nx) && RadiiGiven(radii) && RadiiMeasurable(radii, sampling, ny, nx)
    ensures r != Full ==> AllDi(cube, ny, nx, radii, sampling, ratio, cx, cy, r) == RegionDi(cube, ny, nx, radii, sampling, cx, cy, r)
    ensures AllDi(cube, ny, nx, radii, sampling, ratio, cx, cy, Full)
         == AddScaled(RegionDi(cube, ny, nx, radii, sampling, cx, cy, Full), ratio, RegionDi(cube, ny, nx, radii, sampling, cx, cy, Outer))
    ensures ratio == 0.0 ==> AllDi(cube, ny, nx, radii, sampling, ratio, cx, cy, r) == RegionDi(cube, ny, nx, radii, sampling, cx, cy, r)
  {
    if ratio == 0.0 {
      AddScaledZero(RegionDi(cube, ny, nx, radii, sampling, cx, cy, Full), RegionDi(cube, ny, nx, radii, sampling, cx, cy, Outer));
    }
  }

  /** The debias is undone by subtracting the same multiple of the outer rows. */
  lemma AddScaledInverse(d: seq<Vec2>, ratio: real, e: seq<Vec2>)
    requires |d| == |e|
    ensures AddScaled(AddScaled(d, ratio, e), -ratio, e) == d
  {
    var f := AddScaled(AddScaled(d, ratio, e), -ratio, e);
    forall k | 0 <= k < |d| ensures f[k] == d[k] {
      var g := AddScaled(d, ratio, e)[k];
      assert g == Vec2(d[k].x + ratio * e[k].x, d[k].y + ratio * e[k].y);
      AddBack(d[k].x, ratio, e[k].x);
      AddBack(d[k].y, ratio, e[k].y);
    }
  }

  lemma AddBack(a: real, t: real, b: real)
    ensures (a + t * b) + -t * b == a
  {
  }

  /**
   * The modulus is non-negative, its square is `Ix**2 + Iy**2`, and it is zero exactly when
   * both differential intensities are.
   */
  lemma ModulusProperties(m: Math, v: Vec2)
    requires SqrtLaw(m)
    ensures 0.0 <= Modulus(m, v.x, v.y)
    ensures Modulus(m, v.x, v.y) * Modulus(m, v.x, v.y) == v.x * v.x + v.y * v.y
    ensures Modulus(m, v.x, v.y) == 0.0 <==> v == Vec2(0.0, 0.0)
  {
    RootOfSumOfSquares(m, v.x, v.y);
  }

  /** An exactly centred, doubly mirror-symmetric frame gives zero in every region, debiased or not. */
  lemma AllDiOfSymmetricFrame(cube: seq<Image>, ny: nat, nx: nat, radii: map<Region, (real, real)>, sampling: real,
                              ratio: real, r: Region, k: nat)
    requires IsCube(cube, ny, nx) && RadiiGiven(radii) && RadiiMeasurable(radii, sampling, ny, nx)
    requires 2 <= ny && 2 <= nx && k < |cube|
    requires forall y, x :: 0 <= y < ny && 0 <= x < nx ==> cube[k][y][x] == cube[k][y][nx - 1 - x]
    requires forall y :: 0 <= y < ny ==> cube[k][y] == cube[k][ny - 1 - y]
    ensures AllDi(cube, ny, nx, radii, sampling, ratio, Middle(nx), Middle(ny), r)[k] == Vec2(0.0, 0.0)
  {
    var cx, cy := Middle(nx), Middle(ny);
    var full := RegionDi(cube, ny, nx, radii, sampling, cx, cy, Full);
    var outer := RegionDi(cube, ny, nx, radii, sampling, cx, cy, Outer);
    var own := RegionDi(cube, ny, nx, radii, sampling, cx, cy, r);
    RingDiOfSymmetricFrame(cube[k], ny, nx, PixelRadii(radii, sampling, Full));
    RingDiOfSymmetricFrame(cube[k], ny, nx, PixelRadii(radii, sampling, Outer));
    RingDiOfSymmetricFrame(cube[k], ny, nx, PixelRadii(radii, sampling, r));
    assert full[k] == Vec2(0.0, 0.0) && outer[k] == Vec2(0.0, 0.0) && own[k] == Vec2(0.0, 0.0);
    assert AddScaled(full, ratio, outer)[k] == Vec2(0.0 + ratio * 0.0, 0.0 + ratio * 0.0);
  }

  lemma RingDiOfSymmetricFrame(img: Image, ny: nat, nx: nat, pr: (real, real))
    requires IsImage(img, ny, nx) && 2 <= ny && 2 <= nx
    requires forall y, x :: 0 <= y < ny && 0 <= x < nx ==> img[y][x] == img[y][nx - 1 - x]
    requires forall y :: 0 <= y < ny ==> img[y] == img[ny - 1 - y]
    ensures RingDi(img, ny, nx, pr.0, pr.1, Middle(nx), Middle(ny)) == Vec2(0.0, 0.0)
  {
    DiXYFrameOfSymmetricFrame(img, ny, nx, pr.0);
    DiXYFrameOfSymmetricFrame(img, ny, nx, pr.1);
  }
}
