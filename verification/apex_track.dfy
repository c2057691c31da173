/** `compute_track`: for each of 7201 sidereal angles, the surface point
    highest along the direction of the ecliptic pole. The search starts from
    the bare-ellipsoid baseline and only looks at mountain cells (elevation
    above sea level) in a band of columns around the pole's longitude;
    columns without any mountain are skipped using a precomputed mask. */
module ApexTrack {
  import opened Numeric
  import opened Geodesy
  import opened ElevationGrid
  import opened EllipsoidOptimum
  import opened EcefTable

  /** `NUM_SAMPLES`: 0.05 degree of sidereal angle per step. */
  const NUM_SAMPLES: nat := 7200
  /** `window_deg`: the half-width of the searched band of longitudes. */
  const WINDOW_DEG: real := 15.0

  // ---------------------------------------------------------------------
  // The mountain mask
  // ---------------------------------------------------------------------

  /** Some row of column `col` is above sea level. */
  predicate HasMountain(g: Grid, col: int)
    requires g.Shaped() && 0 <= col < g.nCols
  {
    exists row :: 0 <= row < g.nRows && g.Elevation(row, col) > 0
  }

  /** The inner loop of the mask pass: row `row` sets the flag of each of
      its mountain columns and clears none. */
  method MarkRow(g: Grid, row: int, mask: seq<bool>) returns (m: seq<bool>)
    requires g.Shaped() && 0 <= row < g.nRows && |mask| == g.nCols
    ensures |m| == g.nCols
    ensures forall c :: 0 <= c < g.nCols ==> (m[c] <==> mask[c] || g.Elevation(row, c) > 0)
  {
    m := mask;
    var col := 0;
    while col < g.nCols
      invariant 0 <= col <= g.nCols && |m| == g.nCols
      invariant forall c :: 0 <= c < g.nCols ==> (m[c] <==> mask[c] || (c < col && g.Elevation(row, c) > 0))
    {
      if g.Elevation(row, col) > 0 {
        m := m[col := true];
      }
      col := col + 1;
    }
  }

  /** `col_has_mtn`: one flag per column, set exactly for the columns with
      a mountain in some row. */
  method MountainMask(g: Grid) returns (mask: seq<bool>)
    requires g.Shaped()
    ensures |mask| == g.nCols
    ensures forall c :: 0 <= c < g.nCols ==> (mask[c] <==> HasMountain(g, c))
  {
    mask := seq(g.nCols, _ => false);
    var row := 0;
    while row < g.nRows
      invariant 0 <= row <= g.nRows && |mask| == g.nCols
      invariant forall c :: 0 <= c < g.nCols ==>
        (mask[c] <==> exists r :: 0 <= r < row && g.Elevation(r, c) > 0)
    {
      mask := MarkRow(g, row, mask);
      row := row + 1;
    }
  }

  // ---------------------------------------------------------------------
  // Geometry of one sample
  // ---------------------------------------------------------------------

  /** `lon_step = 360.0 / nCols`: the column width the sweep assumes. */
  function TrackLonStep(nCols: int): real
    requires nCols > 0
  {
    360.0 / nCols as real
  }

  /** `window_cols = math.ceil(window_deg / lon_step)`: at least one column
      either side, and the fewest columns covering 15 degrees. */
  function WindowCols(nCols: int): (w: int)
    requires nCols > 0
    ensures w >= 1
    ensures WINDOW_DEG <= w as real * TrackLonStep(nCols) < WINDOW_DEG + TrackLonStep(nCols)
  {
    var step := TrackLonStep(nCols);
    var q := WINDOW_DEG / step;
    var w := Ceil(q);
    assert q == nCols as real / 24.0 && q > 0.0;
    assert q * step == WINDOW_DEG;
    ScaleBetween(q, w as real, step);
    assert WINDOW_DEG <= w as real * step;
    assert w as real * step < WINDOW_DEG + step;
    w
  }

  /** Scaling `q <= w < q + 1` by a positive `s`. */
  lemma ScaleBetween(q: real, w: real, s: real)
    requires s > 0.0 && q <= w < q + 1.0
    ensures q * s <= w * s < q * s + s
  {
  }

  /** On the two-arc-minute global grid (10800 columns) the band is 450
      columns either side. */
  lemma WindowColsOnGlobalGrid()
    ensures WindowCols(10800) == 450
  {
    assert WINDOW_DEG / TrackLonStep(10800) == 450.0;
  }

  /** `gmst_rad = (s / NUM_SAMPLES) * 2 * pi`: the samples cover one full
      turn, both ends included. */
  function Gmst(s: int): (angle: real)
    ensures 0 <= s <= NUM_SAMPLES ==> 0.0 <= angle <= 2.0 * PI
    ensures s == 0 ==> angle == 0.0
    ensures s == NUM_SAMPLES ==> angle == 2.0 * PI
  {
    (s as real / NUM_SAMPLES as real) * 2.0 * PI
  }

  /** `(ex, ey, ez)`: the ecliptic pole seen from the Earth at sidereal angle
      `gmst(s)`; the south search uses the anti-pole. */
  function PoleDirection(t: Trig, s: int, south: bool): Vec3 {
    var g := Gmst(s);
    if south then Vec3(SinE(t) * t.sin(g), SinE(t) * t.cos(g), -CosE(t))
    else Vec3(-SinE(t) * t.sin(g), -SinE(t) * t.cos(g), CosE(t))
  }

  /** `enp_lon_deg`: the longitude under the pole, in degrees. */
  function EnpLon(t: Trig, e: Vec3): real {
    t.atan2(e.y, e.x) * (180.0 / PI)
  }

  /** `round((enp_lon_deg - lon_min) / lon_step) % nCols`. */
  function CenterCol(enpLon: real, lonMin: real, nCols: int): (c: int)
    requires nCols > 0
    ensures 0 <= c < nCols
  {
    PyMod(RoundHalfEven((enpLon - lonMin) / TrackLonStep(nCols)), nCols)
  }

  /** `(center_col + dc) % nCols`: the band wraps around the antimeridian. */
  function WindowCol(center: int, dc: int, nCols: int): (c: int)
    requires nCols > 0
    ensures 0 <= c < nCols
  {
    PyMod(center + dc, nCols)
  }

  function Dot(v: Vec3, e: Vec3): real {
    v.x * e.x + v.y * e.y + v.z * e.z
  }

  /** The south search looks along the anti-pole: its direction is the
      north one negated, so every cell's south height is the negation of its
      north height. */
  lemma AntiPole(t: Trig, s: int, v: Vec3)
    ensures var n := PoleDirection(t, s, false);
      PoleDirection(t, s, true) == Vec3(-n.x, -n.y, -n.z)
    ensures Dot(v, PoleDirection(t, s, true)) == -Dot(v, PoleDirection(t, s, false))
  {
  }

  /** One entry of the track: `(lat, lon, elev)`. */
  datatype TrackPoint = TrackPoint(lat: real, lon: real, elev: int)

  function CellTrackPoint(g: Grid, row: int, col: int): TrackPoint {
    TrackPoint(g.CellLat(row), g.CellLon(col), g.Sample(row, col))
  }

  /** The running `(best point, best_height)` of a search. */
  datatype Best = Best(point: TrackPoint, height: real)

  // ---------------------------------------------------------------------
  // Reference search: every window cell, no mask, no table
  // ---------------------------------------------------------------------

  /** Heights along `e` of the cells at positions `pt`, as a table of the
      cells. */
  function HeightAlong(pt: (int, int) -> Vec3, e: Vec3): (int, int) -> real {
    (row, col) => Dot(pt(row, col), e)
  }

  /** Visiting cell `(row, col)` with heights `h`: a mountain cell strictly
      higher than the running best replaces it. */
  function Consider(g: Grid, h: (int, int) -> real, row: int, col: int, b: Best): Best {
    if g.Sample(row, col) > 0 && h(row, col) > b.height
    then Best(CellTrackPoint(g, row, col), h(row, col))
    else b
  }

  /** A mountain cell of column `col` among rows `[0, rows)`. */
  predicate MountainIn(g: Grid, col: int, rows: int, row: int) {
    0 <= row < rows && g.Sample(row, col) > 0
  }

  /** Rows `0 .. rows - 1` of column `col`, in the loop's order. */
  function ColumnFold(g: Grid, h: (int, int) -> real, col: int, rows: nat, b: Best): Best {
    if rows == 0 then b else Consider(g, h, rows - 1, col, ColumnFold(g, h, col, rows - 1, b))
  }

  /** The column search never drops below its start and bounds every
      mountain cell it sees. It ends at its start, or at the first mountain
      cell of greatest height: strictly above the start and strictly above
      every mountain cell in an earlier row. */
  lemma {:induction false} ColumnFoldBounds(g: Grid, h: (int, int) -> real, col: int, rows: nat, b: Best)
    ensures var r := ColumnFold(g, h, col, rows, b);
      && b.height <= r.height
      && (forall row :: MountainIn(g, col, rows, row) ==> h(row, col) <= r.height)
      && (r == b || exists row :: (MountainIn(g, col, rows, row) &&
            r == Best(CellTrackPoint(g, row, col), h(row, col)) && b.height < r.height &&
            forall earlier :: MountainIn(g, col, row, earlier) ==> h(earlier, col) < r.height))
  {
    if rows > 0 {
      var prev := ColumnFold(g, h, col, rows - 1, b);
      ColumnFoldBounds(g, h, col, rows - 1, b);
      var last := rows - 1;
      if g.Sample(last, col) > 0 && h(last, col) > prev.height {
        assert forall earlier :: MountainIn(g, col, last, earlier) ==> MountainIn(g, col, rows - 1, earlier);
        assert MountainIn(g, col, rows, last);
      } else if prev != b {
        var row :| MountainIn(g, col, rows - 1, row) &&
          prev == Best(CellTrackPoint(g, row, col), h(row, col)) && b.height < prev.height &&
          forall earlier :: MountainIn(g, col, row, earlier) ==> h(earlier, col) < prev.height;
        assert MountainIn(g, col, rows, row);
      }
    }
  }

  /** A column without mountains leaves the search untouched, which is why
      the script may skip it. */
  lemma {:induction false} ColumnFoldSkips(g: Grid, h: (int, int) -> real, col: int, rows: nat, b: Best)
    requires forall row :: 0 <= row < rows ==> g.Sample(row, col) <= 0
    ensures ColumnFold(g, h, col, rows, b) == b
  {
    if rows > 0 {
      ColumnFoldSkips(g, h, col, rows - 1, b);
    }
  }

  /** A mountain cell of the band: offset `dc` in `[-wc, -wc + k)`, any row. */
  predicate MountainInWindow(g: Grid, center: int, wc: int, k: int, dc: int, row: int)
    requires g.nCols > 0
  {
    -wc <= dc < -wc + k && 0 <= row < g.nRows && g.Sample(row, WindowCol(center, dc, g.nCols)) > 0
  }

  /** The first `k` columns of the band, `dc = -wc .. -wc + k - 1`, each
      scanned over all rows. */
  function WindowFold(g: Grid, h: (int, int) -> real, center: int, wc: int, k: nat, b: Best): Best
    requires g.Shaped() && g.nCols > 0
  {
    if k == 0 then b
    else ColumnFold(g, h, WindowCol(center, -wc + k - 1, g.nCols), g.nRows, WindowFold(g, h, center, wc, k - 1, b))
  }

  /** The band search never drops below its start and bounds every
      mountain cell of the band. It ends at its start, or at the first
      mountain cell of greatest height in the loop's order (by `dc`, then by
      row): strictly above the start and strictly above every band mountain
      cell visited before it. */
  lemma {:induction false} WindowFoldBounds(g: Grid, h: (int, int) -> real, center: int, wc: int, k: nat, b: Best)
    requires g.Shaped() && g.nCols > 0
    ensures var r := WindowFold(g, h, center, wc, k, b);
      && b.height <= r.height
      && (forall dc, row :: MountainInWindow(g, center, wc, k, dc, row) ==>
            h(row, WindowCol(center, dc, g.nCols)) <= r.height)
      && (r == b || exists dc, row :: (MountainInWindow(g, center, wc, k, dc, row) &&
            r == Best(CellTrackPoint(g, row, WindowCol(center, dc, g.nCols)), h(row, WindowCol(center, dc, g.nCols))) &&
            b.height < r.height &&
            forall dc', row' :: MountainInWindow(g, center, wc, k, dc', row') && (dc' < dc || (dc' == dc && row' < row)) ==>
              h(row', WindowCol(center, dc', g.nCols)) < r.height))
  {
    if k > 0 {
      var prev := WindowFold(g, h, center, wc, k - 1, b);
      var dcLast := -wc + k - 1;
      var col := WindowCol(center, dcLast, g.nCols);
      var r := ColumnFold(g, h, col, g.nRows, prev);
      WindowFoldBounds(g, h, center, wc, k - 1, b);
      ColumnFoldBounds(g, h, col, g.nRows, prev);
      assert forall row :: MountainIn(g, col, g.nRows, row) ==> MountainInWindow(g, center, wc, k, dcLast, row);
      assert forall dc, row :: MountainInWindow(g, center, wc, k, dc, row) && dc < dcLast ==>
        MountainInWindow(g, center, wc, k - 1, dc, row);
      if r != prev {
        var row :| MountainIn(g, col, g.nRows, row) &&
          r == Best(CellTrackPoint(g, row, col), h(row, col)) && prev.height < r.height &&
          forall earlier :: MountainIn(g, col, row, earlier) ==> h(earlier, col) < r.height;
        assert MountainInWindow(g, center, wc, k, dcLast, row);
        forall dc', row' | MountainInWindow(g, center, wc, k, dc', row') && (dc' < dcLast || (dc' == dcLast && row' < row))
          ensures h(row', WindowCol(center, dc', g.nCols)) < r.height
        {
          if dc' < dcLast {
            assert MountainInWindow(g, center, wc, k - 1, dc', row');
          } else {
            assert MountainIn(g, col, row, row');
          }
        }
      } else if prev != b {
        var dc, row :| MountainInWindow(g, center, wc, k - 1, dc, row) &&
          prev == Best(CellTrackPoint(g, row, WindowCol(center, dc, g.nCols)), h(row, WindowCol(center, dc, g.nCols))) &&
          b.height < prev.height &&
          forall dc', row' :: MountainInWindow(g, center, wc, k - 1, dc', row') && (dc' < dc || (dc' == dc && row' < row)) ==>
            h(row', WindowCol(center, dc', g.nCols)) < prev.height;
        assert MountainInWindow(g, center, wc, k, dc, row);
        assert forall dc', row' :: MountainInWindow(g, center, wc, k, dc', row') && (dc' < dc || (dc' == dc && row' < row)) ==>
          MountainInWindow(g, center, wc, k - 1, dc', row');
      }
    }
  }

  /** The band's next column continues the search. */
  lemma WindowFoldStep(g: Grid, h: (int, int) -> real, center: int, wc: int, k: nat, b: Best)
    requires g.Shaped() && g.nCols > 0
    ensures WindowFold(g, h, center, wc, k + 1, b)
      == ColumnFold(g, h, WindowCol(center, -wc + k, g.nCols), g.nRows, WindowFold(g, h, center, wc, k, b))
  {
  }

  /** A column the mask clears leaves the search untouched. */
  lemma NoMountainSkips(g: Grid, h: (int, int) -> real, col: int, b: Best)
    requires g.Shaped() && 0 <= col < g.nCols && !HasMountain(g, col)
    ensures ColumnFold(g, h, col, g.nRows, b) == b
  {
    ColumnFoldSkips(g, h, col, g.nRows, b);
  }

  // ---------------------------------------------------------------------
  // The script's search: mask and precomputed table
  // ---------------------------------------------------------------------

  /** One entry of the table, read at `row * nCols + col`. */
  lemma TableEntry(g: Grid, tab: Table, pt: (int, int) -> Vec3, row: int, col: int)
    requires g.Shaped() && TableOf(g, tab, pt) && g.InBounds(row, col)
    ensures 0 <= Idx(g.nCols, row, col) < |g.elevations|
    ensures g.elevations[Idx(g.nCols, row, col)] == g.Sample(row, col)
    ensures Vec3(tab.xs[Idx(g.nCols, row, col)], tab.ys[Idx(g.nCols, row, col)], tab.zs[Idx(g.nCols, row, col)])
      == pt(row, col)
    ensures TrackPoint(tab.lats[Idx(g.nCols, row, col)], tab.lons[Idx(g.nCols, row, col)], g.Sample(row, col))
      == CellTrackPoint(g, row, col)
  {
  }

  /** Read along `e`, the table gives the heights `h`:
      `ecef_x[i] * ex + ecef_y[i] * ey + ecef_z[i] * ez == h(row, col)` at
      `i = row * nCols + col`, next to the cell's coordinates. */
  predicate HeightsOf(g: Grid, tab: Table, e: Vec3, h: (int, int) -> real)
    requires g.Shaped()
  {
    && |tab.xs| == |g.elevations| && |tab.ys| == |g.elevations| && |tab.zs| == |g.elevations|
    && |tab.lats| == |g.elevations| && |tab.lons| == |g.elevations|
    && forall row, col {:trigger tab.xs[Idx(g.nCols, row, col)]} :: 0 <= row < g.nRows && 0 <= col < g.nCols ==>
      && 0 <= Idx(g.nCols, row, col) < |g.elevations|
      && Dot(Vec3(tab.xs[Idx(g.nCols, row, col)], tab.ys[Idx(g.nCols, row, col)], tab.zs[Idx(g.nCols, row, col)]), e)
         == h(row, col)
      && tab.lats[Idx(g.nCols, row, col)] == g.CellLat(row)
      && tab.lons[Idx(g.nCols, row, col)] == g.CellLon(col)
  }

  /** A table of positions gives the heights along any direction. */
  lemma HeightsAlong(g: Grid, tab: Table, pt: (int, int) -> Vec3, e: Vec3)
    requires g.Shaped() && TableOf(g, tab, pt)
    ensures HeightsOf(g, tab, e, HeightAlong(pt, e))
  {
    forall row, col | 0 <= row < g.nRows && 0 <= col < g.nCols
      ensures Dot(Vec3(tab.xs[Idx(g.nCols, row, col)], tab.ys[Idx(g.nCols, row, col)], tab.zs[Idx(g.nCols, row, col)]), e)
         == HeightAlong(pt, e)(row, col)
    {
      TableEntry(g, tab, pt, row, col);
    }
  }

  /** `for row in range(nRows)` over one band column, with the height
      `ecef_x[i] * ex + ecef_y[i] * ey + ecef_z[i] * ez` read from the table. */
  method ScanColumn(g: Grid, tab: Table, e: Vec3, h: (int, int) -> real, col: int, b: Best) returns (r: Best)
    requires g.Shaped() && HeightsOf(g, tab, e, h) && 0 <= col < g.nCols
    ensures r == ColumnFold(g, h, col, g.nRows, b)
  {
    r := b;
    var row := 0;
    while row < g.nRows
      invariant 0 <= row <= g.nRows
      invariant r == ColumnFold(g, h, col, row, b)
    {
      var i := Idx(g.nCols, row, col);
      IdxInBounds(g.nRows, g.nCols, row, col);
      assert tab.xs[i] == tab.xs[Idx(g.nCols, row, col)];
      ghost var next := Consider(g, h, row, col, r);
      var elev := g.elevations[i];
      if elev > 0 {
        var hi := Dot(Vec3(tab.xs[i], tab.ys[i], tab.zs[i]), e);
        if hi > r.height {
          r := Best(TrackPoint(tab.lats[i], tab.lons[i], elev), hi);
        }
      }
      assert r == next;
      row := row + 1;
    }
  }

  /** `for dc in range(-window_cols, window_cols + 1)`, skipping masked-out
      columns. The mask changes nothing: the result is the reference search
      over every column of the band. */
  method SearchWindow(g: Grid, tab: Table, mask: seq<bool>, e: Vec3, h: (int, int) -> real,
                      center: int, wc: int, b: Best) returns (r: Best)
    requires g.Shaped() && HeightsOf(g, tab, e, h) && g.nCols > 0 && wc >= 0
    requires |mask| == g.nCols && forall c :: 0 <= c < g.nCols ==> (mask[c] <==> HasMountain(g, c))
    ensures r == WindowFold(g, h, center, wc, 2 * wc + 1, b)
  {
    r := b;
    var dc := -wc;
    while dc <= wc
      invariant -wc <= dc <= wc + 1
      invariant r == WindowFold(g, h, center, wc, dc + wc, b)
    {
      var col := WindowCol(center, dc, g.nCols);
      ghost var k := dc + wc;
      WindowFoldStep(g, h, center, wc, k, b);
      if mask[col] {
        r := ScanColumn(g, tab, e, h, col, r);
      } else {
        NoMountainSkips(g, h, col, r);
      }
      dc := dc + 1;
    }
  }

  // ---------------------------------------------------------------------
  // One sample and the whole sweep
  // ---------------------------------------------------------------------

  /** The band search along `e` for cells at positions `pt`, starting from
      the baseline `opt` at longitude `enp` with elevation 0. */
  function ApexAlong(g: Grid, pt: (int, int) -> Vec3, e: Vec3, enp: real, opt: Optimum): Best
    requires g.Shaped() && g.nCols > 0 && opt.height.Fin?
  {
    var wc := WindowCols(g.nCols);
    WindowFold(g, HeightAlong(pt, e), CenterCol(enp, g.lonMin, g.nCols), wc, 2 * wc + 1,
               Best(TrackPoint(opt.lat, enp, 0), opt.height.v))
  }

  /** The search at sample `s` against baseline `opt`: along the pole
      direction, centred on the pole's longitude, over the cells' positions. */
  function ApexAt(t: Trig, g: Grid, south: bool, opt: Optimum, s: int): Best
    requires g.Shaped() && g.nCols > 0 && opt.height.Fin?
  {
    var e := PoleDirection(t, s, south);
    ApexAlong(g, PointAt(t, g), e, EnpLon(t, e), opt)
  }

  /** What one track entry means. Its height is at least the baseline and
      at least that of every mountain cell in the band; it is the baseline
      (elevation 0, at the pole's longitude) exactly when no mountain cell in
      the band beats the baseline. Otherwise it is the band mountain cell
      whose height it carries, and the first such cell in the loop's order:
      every band mountain cell visited before it is strictly lower.
      `ApexAt` is this search with `pt` the cells' positions, `e` the pole
      direction and `enp` its longitude. */
  lemma ApexProperties(g: Grid, pt: (int, int) -> Vec3, e: Vec3, enp: real, opt: Optimum)
    requires g.Shaped() && g.nCols > 0 && opt.height.Fin?
    ensures var center := CenterCol(enp, g.lonMin, g.nCols);
      var wc := WindowCols(g.nCols);
      var r := ApexAlong(g, pt, e, enp, opt);
      && opt.height.v <= r.height
      && (forall dc, row :: MountainInWindow(g, center, wc, 2 * wc + 1, dc, row) ==>
            Dot(pt(row, WindowCol(center, dc, g.nCols)), e) <= r.height)
      && (r.point.elev == 0 <==>
            forall dc, row :: MountainInWindow(g, center, wc, 2 * wc + 1, dc, row) ==>
              Dot(pt(row, WindowCol(center, dc, g.nCols)), e) <= opt.height.v)
      && (r.point.elev == 0 ==> r.point == TrackPoint(opt.lat, enp, 0) && r.height == opt.height.v)
      && (r.point.elev != 0 ==> exists dc, row :: (MountainInWindow(g, center, wc, 2 * wc + 1, dc, row) &&
            r.point == CellTrackPoint(g, row, WindowCol(center, dc, g.nCols)) &&
            r.height == Dot(pt(row, WindowCol(center, dc, g.nCols)), e) &&
            forall dc', row' :: MountainInWindow(g, center, wc, 2 * wc + 1, dc', row') && (dc' < dc || (dc' == dc && row' < row)) ==>
              Dot(pt(row', WindowCol(center, dc', g.nCols)), e) < r.height))
  {
    var wc := WindowCols(g.nCols);
    WindowFoldBounds(g, HeightAlong(pt, e), CenterCol(enp, g.lonMin, g.nCols), wc, 2 * wc + 1,
                     Best(TrackPoint(opt.lat, enp, 0), opt.height.v));
  }

  /** The body of the sweep for one sample, once the pole direction `e`
      and its longitude `enp` are known: the centre column, then the band
      search from the baseline. */
  method TrackSample(g: Grid, tab: Table, mask: seq<bool>, pt: (int, int) -> Vec3, e: Vec3, enp: real, opt: Optimum)
    returns (p: TrackPoint)
    requires g.Shaped() && TableOf(g, tab, pt) && g.nCols > 0 && opt.height.Fin?
    requires |mask| == g.nCols && forall c :: 0 <= c < g.nCols ==> (mask[c] <==> HasMountain(g, c))
    ensures p == ApexAlong(g, pt, e, enp, opt).point
  {
    var center := CenterCol(enp, g.lonMin, g.nCols);
    HeightsAlong(g, tab, pt, e);
    var best := SearchWindow(g, tab, mask, e, HeightAlong(pt, e), center, WindowCols(g.nCols),
                             Best(TrackPoint(opt.lat, enp, 0), opt.height.v));
    p := best.point;
  }

  /** The three lists `compute_track` returns. */
  datatype Track = Track(lats: seq<real>, lons: seq<real>, elevs: seq<int>)

  /** The loop over `s = 0 .. 7200` (both ends of the sidereal day), with
      the table, the mask and the baseline already computed. */
  method TrackSweep(t: Trig, g: Grid, tab: Table, mask: seq<bool>, opt: Optimum, south: bool) returns (tr: Track)
    requires g.Shaped() && TableOf(g, tab, PointAt(t, g)) && g.nCols > 0 && opt.height.Fin?
    requires |mask| == g.nCols && forall c :: 0 <= c < g.nCols ==> (mask[c] <==> HasMountain(g, c))
    ensures |tr.lats| == NUM_SAMPLES + 1 && |tr.lons| == NUM_SAMPLES + 1 && |tr.elevs| == NUM_SAMPLES + 1
    ensures forall s :: 0 <= s <= NUM_SAMPLES ==>
      TrackPoint(tr.lats[s], tr.lons[s], tr.elevs[s]) == ApexAt(t, g, south, opt, s).point
  {
    var lats, lons, elevs := [], [], [];
    var s := 0;
    while s < NUM_SAMPLES + 1
      invariant 0 <= s <= NUM_SAMPLES + 1
      invariant |lats| == s && |lons| == s && |elevs| == s
      invariant forall k :: 0 <= k < s ==>
        TrackPoint(lats[k], lons[k], elevs[k]) == ApexAt(t, g, south, opt, k).point
    {
      var e := PoleDirection(t, s, south);
      var p := TrackSample(g, tab, mask, PointAt(t, g), e, EnpLon(t, e), opt);
      lats, lons, elevs := lats + [p.lat], lons + [p.lon], elevs + [p.elev];
      s := s + 1;
    }
    tr := Track(lats, lons, elevs);
  }

  /** `compute_track(grid, south)`. `360.0 / nCols` raises on a grid without
      columns; otherwise there is one entry per sample, and entry `s` is the
      reference search `ApexAt` against the track script's ellipsoid
      baseline. */
  method ComputeTrack(t: Trig, g: Grid, south: bool) returns (r: Result<Track>)
    requires g.Shaped()
    ensures r.Err? <==> g.nCols == 0
    ensures r.Ok? ==> |r.value.lats| == NUM_SAMPLES + 1 && |r.value.lons| == NUM_SAMPLES + 1 && |r.value.elevs| == NUM_SAMPLES + 1
    ensures r.Ok? ==> forall s :: 0 <= s <= NUM_SAMPLES ==>
      TrackPoint(r.value.lats[s], r.value.lons[s], r.value.elevs[s]) == ApexAt(t, g, south, OptimalEllipsoidLat(t, south), s).point
  {
    var tab := PrecomputeEcef(t, g);
    if g.nCols == 0 {
      return Err("float division by zero computing lon_step");
    }
    var opt := OptimalEllipsoidLat(t, south);
    var mask := MountainMask(g);
    var tr := TrackSweep(t, g, tab, mask, opt, south);
    r := Ok(tr);
  }
}
