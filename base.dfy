/** Small value types shared by every part of the model. */
module Base {

  /** An optional argument (the source's keyword arguments that default to `None`). */
  datatype Option<T> = None | Some(value: T)

  /** Either a value or the error the source raises instead of producing one. */
  datatype Result<T, E> = Ok(value: T) | Err(error: E)

  /** The three named annular regions of the image in which differential intensities are measured. */
  datatype Region = Inner | Outer | Full

  /** The fixed order in which the source visits the regions (`['inner', 'outer', 'full']`). */
  const RegionOrder: seq<Region> := [Inner, Outer, Full]

  /** A pair of reals: one (Ix, Iy) row of an `N x 2` differential-intensity array. */
  datatype Vec2 = Vec2(x: real, y: real)

  function Abs(v: real): (r: real)
    ensures 0.0 <= r && (r == v || r == -v)
  {
    if v < 0.0 then -v else v
  }

  lemma RegionOrderCoversAll(r: Region)
    ensures r in RegionOrder
  {
    match r
    case Inner => assert RegionOrder[0] == Inner;
    case Outer => assert RegionOrder[1] == Outer;
    case Full => assert RegionOrder[2] == Full;
  }
}
