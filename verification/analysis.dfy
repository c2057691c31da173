/** `analyze_hemisphere`: the bare-ellipsoid optimum, the grid with its
    peak corrections, the top of the grid scan, and the report on the
    winning cell and its neighbourhood. Printing is left out; the values the
    report is printed from are returned instead. */
module Analysis {
  import opened Numeric
  import opened LittleEndian
  import opened Geodesy
  import opened ElevationGrid
  import opened PeakCorrections
  import opened EllipsoidOptimum
  import opened GridScan
  import opened Neighbourhood

  /** `top_n=30` of the call to `scan_grid`. */
  const TOP_N: int := 30

  /** The values `analyze_hemisphere` prints from. */
  datatype Report = Report(
    optimum: Optimum,
    grid: Grid,
    top: seq<Candidate>,
    winner: Candidate,
    topoAdvantage: real,
    gmst: real,
    centerRow: int,
    centerCol: int,
    neighbours: seq<int>,
    belowSea: nat)

  /** The grid after the corrections step: `apply_corrections` runs only
      for a non-empty catalogue, so an empty one leaves the grid as read
      even when a step is zero. */
  function Corrected(g: Grid, catalog: seq<Correction>): (r: Result<Grid>)
    requires g.Shaped()
    ensures |catalog| == 0 ==> r == Ok(g)
    ensures r.Err? <==> |catalog| > 0 && (g.latStep == 0.0 || g.lonStep == 0.0)
    ensures r.Ok? ==> r.value.Shaped() && r.value == g.(elevations := r.value.elevations)
    ensures r.Ok? ==> forall i :: 0 <= i < |g.elevations| ==> g.elevations[i] <= r.value.elevations[i]
    ensures r.Ok? ==> forall k, i ::
      (0 <= k < |catalog| && 0 <= i < |g.elevations| && Hits(Place(g, catalog[k]), g.nRows, g.nCols, i)) ==>
      catalog[k].elevation <= r.value.elevations[i]
    ensures r.Ok? ==> forall i ::
      (0 <= i < |g.elevations| && forall k :: 0 <= k < |catalog| ==> !Hits(Place(g, catalog[k]), g.nRows, g.nCols, i)) ==>
      r.value.elevations[i] == g.elevations[i]
    ensures r.Ok? ==> forall i :: 0 <= i < |g.elevations| ==>
      (r.value.elevations[i] == g.elevations[i] ||
       exists k :: 0 <= k < |catalog| && Hits(Place(g, catalog[k]), g.nRows, g.nCols, i) &&
         r.value.elevations[i] == catalog[k].elevation)
  {
    if |catalog| > 0 then ApplyCatalog(g, catalog) else Ok(g)
  }

  /** The catalogue the script's entry point passes for each hemisphere:
      the northern list for the north, an empty one for the south. */
  function CatalogueFor(south: bool): (c: seq<Correction>)
    ensures |c| == 0 <==> south
    ensures !south ==> c == PEAK_CORRECTIONS_NORTH
  {
    if south then [] else PEAK_CORRECTIONS_NORTH
  }

  /** With the catalogues the entry point passes, the corrections step fails
      only for the north, and only on a zero step; the south grid is left as
      read. */
  lemma HemisphereCatalogues(g: Grid, south: bool)
    requires g.Shaped()
    ensures Corrected(g, CatalogueFor(south)).Err? <==> !south && (g.latStep == 0.0 || g.lonStep == 0.0)
    ensures south ==> Corrected(g, CatalogueFor(south)) == Ok(g)
    ensures !south ==> Corrected(g, CatalogueFor(south)) == ApplyCatalog(g, PEAK_CORRECTIONS_NORTH)
  {
  }

  /** `round((lat - latMin) / latStep)` of a cell's own latitude is its row,
      and likewise for the column: the neighbourhood is centred on the cell
      the winning tuple came from. */
  lemma CenterIsCell(g: Grid, row: int, col: int)
    requires g.latStep != 0.0 && g.lonStep != 0.0
    ensures RoundHalfEven((g.CellLat(row) - g.latMin) / g.latStep) == row
    ensures RoundHalfEven((g.CellLon(col) - g.lonMin) / g.lonStep) == col
  {
    assert (g.CellLat(row) - g.latMin) / g.latStep == row as real;
    assert (g.CellLon(col) - g.lonMin) / g.lonStep == col as real;
    RoundNearest(row as real, row);
    RoundNearest(col as real, col);
  }

  /** `center_row`: the row nearest the winning tuple's latitude. */
  function WinnerRow(g: Grid, x: Candidate): (row: int)
    requires g.latStep != 0.0
    ensures -0.5 <= (x.lat - g.latMin) / g.latStep - row as real <= 0.5
  {
    RoundHalfEven((x.lat - g.latMin) / g.latStep)
  }

  /** `center_col`: the column nearest the winning tuple's longitude. */
  function WinnerCol(g: Grid, x: Candidate): (col: int)
    requires g.lonStep != 0.0
    ensures -0.5 <= (x.lon - g.lonMin) / g.lonStep - col as real <= 0.5
  {
    RoundHalfEven((x.lon - g.lonMin) / g.lonStep)
  }

  /** A tuple carrying a cell's latitude and longitude locates that cell. */
  lemma WinnerCell(g: Grid, x: Candidate, row: int, col: int)
    requires g.latStep != 0.0 && g.lonStep != 0.0
    requires x.lat == g.CellLat(row) && x.lon == g.CellLon(col)
    ensures WinnerRow(g, x) == row && WinnerCol(g, x) == col
  {
    CenterIsCell(g, row, col);
  }

  /** The report on a corrected grid against the baseline `opt`, for heights
      `hmax` (`HmaxOf(t, south)` in the script): the winner is the first of
      the top 30 tuples, and the neighbourhood is taken
      around its cell. A zero step makes locating that cell divide by zero. */
  method ReportOn(t: Trig, hmax: (real, real, int) -> real, g: Grid, south: bool, opt: Optimum) returns (r: Result<Report>)
    requires g.Shaped() && |g.elevations| > 0 && opt.height.Fin?
    ensures r.Err? <==> g.latStep == 0.0 || g.lonStep == 0.0
    ensures r.Ok? ==> r.value.optimum == opt && r.value.grid == g
    ensures r.Ok? ==> forall row, col :: g.InBounds(row, col) ==>
      CellCandidate(hmax, g, row, col).h <= r.value.winner.h
    ensures r.Ok? ==> (g.InBounds(r.value.centerRow, r.value.centerCol)
      && r.value.winner == CellCandidate(hmax, g, r.value.centerRow, r.value.centerCol))
    ensures r.Ok? ==> r.value.topoAdvantage == r.value.winner.h - opt.height.v
    ensures r.Ok? ==> r.value.gmst == OptimalGmst(t, r.value.winner.lat, r.value.winner.lon, r.value.winner.elev, south)
    ensures r.Ok? ==> r.value.neighbours == WindowBlock(g, r.value.centerRow, r.value.centerCol, WINDOW)
    ensures r.Ok? ==> r.value.winner.elev in r.value.neighbours
    ensures r.Ok? ==> |r.value.neighbours| <= (2 * WINDOW + 1) * (2 * WINDOW + 1)
    ensures r.Ok? ==> r.value.belowSea == CountBelowSea(r.value.neighbours)
    ensures r.Ok? ==> |r.value.top| == (if TOP_N < |g.elevations| then TOP_N else |g.elevations|)
    ensures r.Ok? ==> r.value.top[0] == r.value.winner && SortedDesc(r.value.top)
    ensures r.Ok? ==> multiset(r.value.top) <= multiset(Candidates(hmax, g, g.nRows))
  {
    var top := ScanGrid(hmax, g, TOP_N);
    var winner := top[0];
    var topo := winner.h - opt.height.v;
    var gmst := OptimalGmst(t, winner.lat, winner.lon, winner.elev, south);
    if g.latStep == 0.0 || g.lonStep == 0.0 {
      return Err("float division by zero locating the winner's cell");
    }
    CandidateIsCell(hmax, g, winner);
    ghost var row, col :| g.InBounds(row, col) && winner == CellCandidate(hmax, g, row, col);
    WinnerCell(g, winner, row, col);
    var centerRow, centerCol := WinnerRow(g, winner), WinnerCol(g, winner);
    var nb := CollectNeighbours(g, centerRow, centerCol, WINDOW);
    CentreInWindow(g, centerRow, centerCol, WINDOW);
    WindowSize(g, centerRow, centerCol, WINDOW);
    r := Ok(Report(opt, g, top, winner, topo, gmst, centerRow, centerCol, nb, CountBelowSea(nb)));
  }

  /** `analyze_hemisphere(name, bin_path, south, corrections, ref_peaks)` on
      the file's bytes. It fails when reading fails, and when the grid has a
      zero step (locating a correction or the winner's cell divides by it);
      otherwise it reports on the corrected grid against the bare-ellipsoid
      optimum, as `ReportOn` describes. */
  method AnalyzeHemisphere(t: Trig, data: seq<byte>, f32: seq<byte> -> real, south: bool, catalog: seq<Correction>)
    returns (r: Result<Report>)
    ensures r.Err? <==> (ReadGridForAnalysis(data, f32).Err?
      || ReadGridForAnalysis(data, f32).value.latStep == 0.0 || ReadGridForAnalysis(data, f32).value.lonStep == 0.0)
    ensures r.Ok? ==> r.value.optimum == ComputeEllipsoidOptimum(t, south)
    ensures r.Ok? ==> Corrected(ReadGridForAnalysis(data, f32).value, catalog) == Ok(r.value.grid)
    ensures r.Ok? ==> forall row, col :: r.value.grid.InBounds(row, col) ==>
      EclipticHmax(t, r.value.grid.CellLat(row), r.value.grid.CellLon(col), r.value.grid.Elevation(row, col), south)
        <= r.value.winner.h
    ensures r.Ok? ==> (r.value.grid.InBounds(r.value.centerRow, r.value.centerCol)
      && r.value.winner == CellCandidate(HmaxOf(t, south), r.value.grid, r.value.centerRow, r.value.centerCol))
    ensures r.Ok? ==> r.value.topoAdvantage == r.value.winner.h - r.value.optimum.height.v
    ensures r.Ok? ==> r.value.neighbours == WindowBlock(r.value.grid, r.value.centerRow, r.value.centerCol, WINDOW)
    ensures r.Ok? ==> r.value.winner.elev in r.value.neighbours
    ensures r.Ok? ==> r.value.gmst == OptimalGmst(t, r.value.winner.lat, r.value.winner.lon, r.value.winner.elev, south)
    ensures r.Ok? ==> |r.value.neighbours| <= (2 * WINDOW + 1) * (2 * WINDOW + 1)
    ensures r.Ok? ==> r.value.belowSea == CountBelowSea(r.value.neighbours)
    ensures r.Ok? ==> |r.value.top| == (if TOP_N < |r.value.grid.elevations| then TOP_N else |r.value.grid.elevations|)
    ensures r.Ok? ==> r.value.top[0] == r.value.winner && SortedDesc(r.value.top)
    ensures r.Ok? ==> multiset(r.value.top) <= multiset(Candidates(HmaxOf(t, south), r.value.grid, r.value.grid.nRows))
  {
    var opt := ComputeEllipsoidOptimum(t, south);
    var g0 :- ReadGridForAnalysis(data, f32);
    var g :- Corrected(g0, catalog);
    r := ReportOn(t, HmaxOf(t, south), g, south, opt);
  }
}
