/** The two whole-grid scans of the analysis script: `scan_grid`, which
    ranks every cell by its closed-form maximum ecliptic height and keeps the
    top entries, and `scan_grid_ellipsoid_best`, which finds the best
    bare-ellipsoid height among the cells at or below sea level. */
module GridScan {
  import opened Numeric
  import opened Geodesy
  import opened ElevationGrid

  /** One `(h, lat_deg, lon_deg, elev)` tuple of `scan_grid`. */
  datatype Candidate = Candidate(h: real, lat: real, lon: real, elev: int)

  /** `ecliptic_hmax(lat, lon, elev, south)` as a function of the point; the
      scan is stated for any such height function `hmax`. */
  function HmaxOf(t: Trig, south: bool): (real, real, int) -> real {
    (lat, lon, elev) => EclipticHmax(t, lat, lon, elev, south)
  }

  /** The tuple `scan_grid` records for cell `(row, col)`. */
  function CellCandidate(hmax: (real, real, int) -> real, g: Grid, row: int, col: int): Candidate {
    var elev := g.Sample(row, col);
    Candidate(hmax(g.CellLat(row), g.CellLon(col), elev),
              g.CellLat(row), g.CellLon(col), elev)
  }

  function CandidateAt(hmax: (real, real, int) -> real, g: Grid): (int, int) -> Candidate {
    (row, col) => CellCandidate(hmax, g, row, col)
  }

  /** The tuples of the first `rows` rows, in the scan's row-major order. */
  function Candidates(hmax: (real, real, int) -> real, g: Grid, rows: nat): (cs: seq<Candidate>)
    requires g.Shaped() && rows <= g.nRows
    ensures |cs| == rows * g.nCols
    ensures forall row, col :: 0 <= row < rows && 0 <= col < g.nCols ==>
      0 <= Idx(g.nCols, row, col) < |cs| && cs[Idx(g.nCols, row, col)] == CellCandidate(hmax, g, row, col)
  {
    RowMajor(g.nCols, rows, CandidateAt(hmax, g))
  }

  /** Every cell's tuple is among the scanned ones. */
  lemma CellIsCandidate(hmax: (real, real, int) -> real, g: Grid, row: int, col: int)
    requires g.Shaped() && g.InBounds(row, col)
    ensures CellCandidate(hmax, g, row, col) in multiset(Candidates(hmax, g, g.nRows))
  {
    var cs := Candidates(hmax, g, g.nRows);
    assert cs[Idx(g.nCols, row, col)] == CellCandidate(hmax, g, row, col);
  }

  /** Every scanned tuple is the tuple of some cell. */
  lemma CandidateIsCell(hmax: (real, real, int) -> real, g: Grid, x: Candidate)
    requires g.Shaped() && x in multiset(Candidates(hmax, g, g.nRows))
    ensures exists row, col :: g.InBounds(row, col) && x == CellCandidate(hmax, g, row, col)
  {
    var cs := Candidates(hmax, g, g.nRows);
    var i :| 0 <= i < |cs| && cs[i] == x;
    RowMajorEntry(g.nCols, g.nRows, CandidateAt(hmax, g), i);
  }

  /** Non-increasing by `h`, the order `results.sort(reverse=True)` leaves. */
  predicate SortedDesc(s: seq<Candidate>) {
    forall i, j :: 0 <= i < j < |s| ==> s[j].h <= s[i].h
  }

  function InsertDesc(c: Candidate, s: seq<Candidate>): (r: seq<Candidate>)
    requires SortedDesc(s)
    ensures SortedDesc(r)
    ensures |r| == |s| + 1 && (r[0] == c || (|s| > 0 && r[0] == s[0]))
    ensures multiset(r) == multiset(s) + multiset{c}
  {
    if |s| == 0 || s[0].h <= c.h then
      SortedCons(c, s);
      [c] + s
    else
      var rest := InsertDesc(c, s[1..]);
      SortedCons(s[0], rest);
      assert s == [s[0]] + s[1..];
      [s[0]] + rest
  }

  lemma SortedCons(x: Candidate, s: seq<Candidate>)
    requires SortedDesc(s)
    requires |s| > 0 ==> s[0].h <= x.h
    ensures SortedDesc([x] + s)
  {
    forall i, j | 0 <= i < j < |s| + 1
      ensures ([x] + s)[j].h <= ([x] + s)[i].h
    {
      if i == 0 && j > 1 {
        assert s[j - 1].h <= s[0].h;
      }
    }
  }

  /** A sort by descending `h`; the order among equal `h` is not modelled. */
  function SortDesc(s: seq<Candidate>): (r: seq<Candidate>)
    ensures SortedDesc(r)
    ensures multiset(r) == multiset(s)
  {
    if |s| == 0 then []
    else
      assert s == [s[0]] + s[1..];
      InsertDesc(s[0], SortDesc(s[1..]))
  }

  /** The top entries of a sorted sequence dominate everything left out. */
  lemma PrefixDominates(s: seq<Candidate>, m: nat)
    requires SortedDesc(s) && m <= |s|
    ensures multiset(s[..m]) <= multiset(s)
    ensures forall x, j :: x in multiset(s) - multiset(s[..m]) && 0 <= j < m ==> x.h <= s[j].h
  {
    assert s == s[..m] + s[m..];
    assert multiset(s) - multiset(s[..m]) == multiset(s[m..]);
    forall x, j | x in multiset(s) - multiset(s[..m]) && 0 <= j < m
      ensures x.h <= s[j].h
    {
      assert x in s[m..];
      var i :| m <= i < |s| && s[i] == x;
    }
  }

  /** The head of a sorted sequence is its highest element. */
  lemma HeadIsTop(s: seq<Candidate>)
    requires SortedDesc(s)
    ensures |s| > 0 ==> forall x :: x in multiset(s) ==> x.h <= s[0].h
  {
    forall x | x in multiset(s)
      ensures x.h <= s[0].h
    {
      var i :| 0 <= i < |s| && s[i] == x;
    }
  }

  /** The `results` list of `scan_grid`, built by its two nested loops. */
  method CollectCandidates(hmax: (real, real, int) -> real, g: Grid) returns (results: seq<Candidate>)
    requires g.Shaped()
    ensures results == Candidates(hmax, g, g.nRows)
  {
    results := [];
    var row := 0;
    while row < g.nRows
      invariant 0 <= row <= g.nRows
      invariant results == Candidates(hmax, g, row)
    {
      var col := 0;
      while col < g.nCols
        invariant 0 <= col <= g.nCols
        invariant results == Candidates(hmax, g, row) + RowOf(g.nCols, row, CandidateAt(hmax, g))[..col]
      {
        results := results + [CellCandidate(hmax, g, row, col)];
        col := col + 1;
      }
      row := row + 1;
    }
  }

  /** `results.sort(reverse=True); results[:top_n]`: sorted, drawn from
      `all`, of Python's slice length, and everything left out is no higher
      than anything kept. */
  function TopN(all: seq<Candidate>, topN: int): (r: seq<Candidate>)
    ensures |r| == |PrefixSlice(all, topN)|
    ensures SortedDesc(r)
    ensures multiset(r) <= multiset(all)
    ensures forall x, j :: x in multiset(all) - multiset(r) && 0 <= j < |r| ==> x.h <= r[j].h
    ensures forall x :: x in multiset(all) && |r| > 0 ==> x.h <= r[0].h
  {
    var sorted := SortDesc(all);
    var r := PrefixSlice(sorted, topN);
    KeptPrefix(all, sorted, r);
    r
  }

  /** A prefix of a descending rearrangement of `all` is sorted, drawn from
      `all`, and dominates what it leaves out. */
  lemma KeptPrefix(all: seq<Candidate>, sorted: seq<Candidate>, r: seq<Candidate>)
    requires SortedDesc(sorted) && multiset(sorted) == multiset(all) && r <= sorted
    ensures |sorted| == |all|
    ensures SortedDesc(r)
    ensures multiset(r) <= multiset(all)
    ensures forall x, j :: x in multiset(all) - multiset(r) && 0 <= j < |r| ==> x.h <= r[j].h
    ensures forall x :: x in multiset(all) && |r| > 0 ==> x.h <= r[0].h
  {
    assert |multiset(sorted)| == |multiset(all)|;
    assert r == sorted[..|r|];
    PrefixDominates(sorted, |r|);
    HeadIsTop(sorted);
  }

  /** `scan_grid(grid, south, top_n)`: every cell's tuple, ranked and cut.
      The first entry is at least as high as every cell of the grid. */
  method ScanGrid(hmax: (real, real, int) -> real, g: Grid, topN: int) returns (r: seq<Candidate>)
    requires g.Shaped()
    ensures topN >= 0 ==> |r| == if topN < |g.elevations| then topN else |g.elevations|
    ensures topN < 0 ==> |r| == if |g.elevations| + topN > 0 then |g.elevations| + topN else 0
    ensures SortedDesc(r)
    ensures multiset(r) <= multiset(Candidates(hmax, g, g.nRows))
    ensures forall x, j :: x in multiset(Candidates(hmax, g, g.nRows)) - multiset(r) && 0 <= j < |r| ==>
      x.h <= r[j].h
    ensures |r| > 0 ==> forall row, col :: g.InBounds(row, col) ==>
      CellCandidate(hmax, g, row, col).h <= r[0].h
  {
    var results := CollectCandidates(hmax, g);
    r := TopN(results, topN);
    forall row, col | g.InBounds(row, col)
      ensures CellCandidate(hmax, g, row, col) in multiset(results)
    {
      CellIsCandidate(hmax, g, row, col);
    }
  }

  /** The bare-ellipsoid height at a row's latitude: longitude and elevation
      fixed at 0, so it depends on the row alone. */
  function RowBaseline(t: Trig, g: Grid, south: bool, row: int): real {
    EclipticHmax(t, g.CellLat(row), 0.0, 0, south)
  }

  /** Row `row` holds a cell at or below sea level. */
  predicate RowHasSea(g: Grid, row: int)
    requires g.Shaped() && 0 <= row < g.nRows
  {
    exists c :: 0 <= c < g.nCols && g.Elevation(row, c) <= 0
  }

  /** The inner loop of `scan_grid_ellipsoid_best` over one row: every
      sea-level cell offers the same height, so the row raises the running
      best to its baseline exactly when it has such a cell and the baseline
      is strictly higher. */
  method ScanRow(t: Trig, g: Grid, south: bool, row: int, best0: ExtReal) returns (best: ExtReal)
    requires g.Shaped() && 0 <= row < g.nRows
    ensures best == if RowHasSea(g, row) && best0.Below(RowBaseline(t, g, south, row))
      then Fin(RowBaseline(t, g, south, row)) else best0
    ensures best0.Fin? ==> best.Fin? && best0.v <= best.v
  {
    best := best0;
    var h := RowBaseline(t, g, south, row);
    var col := 0;
    while col < g.nCols
      invariant 0 <= col <= g.nCols
      invariant best == if (exists c :: 0 <= c < col && g.Elevation(row, c) <= 0) && best0.Below(h)
        then Fin(h) else best0
    {
      var elev := g.Elevation(row, col);
      if elev <= 0 {
        if best.Below(h) {
          best := Fin(h);
        }
      }
      col := col + 1;
    }
  }

  /** `scan_grid_ellipsoid_best(grid, south)`: the best `RowBaseline` over
      cells at or below sea level, `-inf` if every cell is above it. */
  method ScanGridEllipsoidBest(t: Trig, g: Grid, south: bool) returns (best: ExtReal)
    requires g.Shaped()
    ensures best.NegInf? <==> forall row, col :: g.InBounds(row, col) ==> g.Elevation(row, col) > 0
    ensures forall row, col :: g.InBounds(row, col) && g.Elevation(row, col) <= 0 ==>
      best.Bounds(RowBaseline(t, g, south, row))
    ensures best.Fin? ==> exists row, col ::
      g.InBounds(row, col) && g.Elevation(row, col) <= 0 && best.v == RowBaseline(t, g, south, row)
  {
    best := NegInf;
    var row := 0;
    while row < g.nRows
      invariant 0 <= row <= g.nRows
      invariant best.NegInf? <==> forall r :: 0 <= r < row ==> !RowHasSea(g, r)
      invariant forall r :: 0 <= r < row && RowHasSea(g, r) ==> best.Bounds(RowBaseline(t, g, south, r))
      invariant best.Fin? ==> exists r :: 0 <= r < row && RowHasSea(g, r) && best.v == RowBaseline(t, g, south, r)
    {
      ghost var before := best;
      best := ScanRow(t, g, south, row, best);
      RowStep(t, g, south, row, before, best);
      row := row + 1;
    }
    RowsToCells(t, g, south, best);
  }

  /** One more row keeps the scan's account of the rows seen so far. */
  lemma RowStep(t: Trig, g: Grid, south: bool, row: int, best0: ExtReal, best: ExtReal)
    requires g.Shaped() && 0 <= row < g.nRows
    requires best0.NegInf? <==> forall r :: 0 <= r < row ==> !RowHasSea(g, r)
    requires forall r :: 0 <= r < row && RowHasSea(g, r) ==> best0.Bounds(RowBaseline(t, g, south, r))
    requires best0.Fin? ==> exists r :: 0 <= r < row && RowHasSea(g, r) && best0.v == RowBaseline(t, g, south, r)
    requires best == if RowHasSea(g, row) && best0.Below(RowBaseline(t, g, south, row))
      then Fin(RowBaseline(t, g, south, row)) else best0
    ensures best.NegInf? <==> forall r :: 0 <= r < row + 1 ==> !RowHasSea(g, r)
    ensures forall r :: 0 <= r < row + 1 && RowHasSea(g, r) ==> best.Bounds(RowBaseline(t, g, south, r))
    ensures best.Fin? ==> exists r :: 0 <= r < row + 1 && RowHasSea(g, r) && best.v == RowBaseline(t, g, south, r)
  {
    var h := RowBaseline(t, g, south, row);
    if best != best0 {
      forall r | 0 <= r < row && RowHasSea(g, r)
        ensures best.Bounds(RowBaseline(t, g, south, r))
      {
        assert best0.Bounds(RowBaseline(t, g, south, r));
      }
    }
  }

  /** The row-by-row account of the scan, restated cell by cell. */
  lemma RowsToCells(t: Trig, g: Grid, south: bool, best: ExtReal)
    requires g.Shaped()
    requires best.NegInf? <==> forall r :: 0 <= r < g.nRows ==> !RowHasSea(g, r)
    requires forall r :: 0 <= r < g.nRows && RowHasSea(g, r) ==> best.Bounds(RowBaseline(t, g, south, r))
    requires best.Fin? ==> exists r :: 0 <= r < g.nRows && RowHasSea(g, r) && best.v == RowBaseline(t, g, south, r)
    ensures best.NegInf? <==> forall row, col :: g.InBounds(row, col) ==> g.Elevation(row, col) > 0
    ensures forall row, col :: g.InBounds(row, col) && g.Elevation(row, col) <= 0 ==>
      best.Bounds(RowBaseline(t, g, south, row))
    ensures best.Fin? ==> exists row, col ::
      g.InBounds(row, col) && g.Elevation(row, col) <= 0 && best.v == RowBaseline(t, g, south, row)
  {
    forall row, col | g.InBounds(row, col) && g.Elevation(row, col) <= 0
      ensures RowHasSea(g, row)
    {
    }
    if best.NegInf? {
      forall row, col | g.InBounds(row, col)
        ensures g.Elevation(row, col) > 0
      {
        assert !RowHasSea(g, row);
      }
    }
  }
}
