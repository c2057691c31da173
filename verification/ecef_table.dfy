/** `precompute_ecef`: the Earth-fixed position of every grid cell, with its
    elevation clamped at sea level, laid out in the grid's row-major order
    next to the cell's latitude and longitude. */
module EcefTable {
  import opened Geodesy
  import opened ElevationGrid

  /** The five parallel lists `(ecef_x, ecef_y, ecef_z, lats, lons)`. */
  datatype Table = Table(xs: seq<real>, ys: seq<real>, zs: seq<real>, lats: seq<real>, lons: seq<real>)

  /** The position of cell `(row, col)`, from `max(elevation, 0)`. */
  function CellPoint(t: Trig, g: Grid, row: int, col: int): Vec3 {
    ToEcef(t, g.CellLat(row), g.CellLon(col), Clamp(g.Sample(row, col)) as real)
  }

  function XAt(t: Trig, g: Grid): (int, int) -> real {
    (row, col) => CellPoint(t, g, row, col).x
  }

  function YAt(t: Trig, g: Grid): (int, int) -> real {
    (row, col) => CellPoint(t, g, row, col).y
  }

  function ZAt(t: Trig, g: Grid): (int, int) -> real {
    (row, col) => CellPoint(t, g, row, col).z
  }

  function LatAt(g: Grid): (int, int) -> real {
    (row, col) => g.CellLat(row)
  }

  function LonAt(g: Grid): (int, int) -> real {
    (row, col) => g.CellLon(col)
  }

  /** The positions of the cells, as `precompute_ecef` computes them. */
  function PointAt(t: Trig, g: Grid): (int, int) -> Vec3 {
    (row, col) => CellPoint(t, g, row, col)
  }

  /** `tab` holds one entry per cell: entry `row * nCols + col` is the
      position `pt(row, col)` and the latitude and longitude of cell
      `(row, col)`. */
  predicate TableOf(g: Grid, tab: Table, pt: (int, int) -> Vec3)
    requires g.Shaped()
  {
    && |tab.xs| == |g.elevations| && |tab.ys| == |g.elevations| && |tab.zs| == |g.elevations|
    && |tab.lats| == |g.elevations| && |tab.lons| == |g.elevations|
    && forall row, col :: 0 <= row < g.nRows && 0 <= col < g.nCols ==>
      && 0 <= Idx(g.nCols, row, col) < |g.elevations|
      && Vec3(tab.xs[Idx(g.nCols, row, col)], tab.ys[Idx(g.nCols, row, col)], tab.zs[Idx(g.nCols, row, col)])
         == pt(row, col)
      && tab.lats[Idx(g.nCols, row, col)] == g.CellLat(row)
      && tab.lons[Idx(g.nCols, row, col)] == g.CellLon(col)
  }

  /** The table as the row loop produces it after `rows` rows. */
  function TableRows(t: Trig, g: Grid, rows: nat): Table
    requires g.nCols >= 0
  {
    Table(RowMajor(g.nCols, rows, XAt(t, g)), RowMajor(g.nCols, rows, YAt(t, g)),
          RowMajor(g.nCols, rows, ZAt(t, g)), RowMajor(g.nCols, rows, LatAt(g)),
          RowMajor(g.nCols, rows, LonAt(g)))
  }

  /** The entries of row `row`, in column order. */
  function RowTable(t: Trig, g: Grid, row: int): Table
    requires g.nCols >= 0
  {
    Table(RowOf(g.nCols, row, XAt(t, g)), RowOf(g.nCols, row, YAt(t, g)),
          RowOf(g.nCols, row, ZAt(t, g)), RowOf(g.nCols, row, LatAt(g)),
          RowOf(g.nCols, row, LonAt(g)))
  }

  function Append(a: Table, b: Table): Table {
    Table(a.xs + b.xs, a.ys + b.ys, a.zs + b.zs, a.lats + b.lats, a.lons + b.lons)
  }

  /** The inner loop of `precompute_ecef` for one row: the row's latitude
      is fixed, each column adds its longitude and position. */
  method FillRow(t: Trig, g: Grid, row: int) returns (r: Table)
    requires g.nCols >= 0
    ensures r == RowTable(t, g, row)
  {
    var xs, ys, zs, lats, lons := [], [], [], [], [];
    var latDeg := g.CellLat(row);
    var col := 0;
    while col < g.nCols
      invariant 0 <= col <= g.nCols
      invariant xs == RowOf(g.nCols, row, XAt(t, g))[..col]
      invariant ys == RowOf(g.nCols, row, YAt(t, g))[..col]
      invariant zs == RowOf(g.nCols, row, ZAt(t, g))[..col]
      invariant lats == RowOf(g.nCols, row, LatAt(g))[..col]
      invariant lons == RowOf(g.nCols, row, LonAt(g))[..col]
    {
      var lonDeg := g.CellLon(col);
      var p := CellPoint(t, g, row, col);
      lats, lons := lats + [latDeg], lons + [lonDeg];
      xs, ys, zs := xs + [p.x], ys + [p.y], zs + [p.z];
      col := col + 1;
    }
    r := Table(xs, ys, zs, lats, lons);
  }

  /** `precompute_ecef(grid)`. The script fills five zero lists at a running
      index that visits `0 .. count - 1` in order, so the lists are built
      here by appending one row at a time. */
  method PrecomputeEcef(t: Trig, g: Grid) returns (tab: Table)
    requires g.Shaped()
    ensures TableOf(g, tab, PointAt(t, g))
  {
    tab := Table([], [], [], [], []);
    var row := 0;
    while row < g.nRows
      invariant 0 <= row <= g.nRows
      invariant tab == TableRows(t, g, row)
    {
      var r := FillRow(t, g, row);
      tab := Append(tab, r);
      row := row + 1;
    }
    FullTableDescribes(t, g);
  }

  lemma FullTableDescribes(t: Trig, g: Grid)
    requires g.Shaped()
    ensures TableOf(g, TableRows(t, g, g.nRows), PointAt(t, g))
  {
  }
}
