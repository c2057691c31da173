/** `apply_corrections`: named summits whose true height the gridded dataset
    underestimates are written into the nearest grid cell, but only ever
    upwards, and only when that cell lies inside the grid. */
module PeakCorrections {
  import opened Numeric
  import opened ElevationGrid

  /** A catalogue entry `(lat, lon, true_elev, name)`. */
  datatype Correction = Correction(lat: real, lon: real, elevation: int, name: string)

  /** The northern catalogue; the southern one is empty. */
  const PEAK_CORRECTIONS_NORTH: seq<Correction> := [
    Correction(66.935, -36.786, 3383, "Mont Forel"),
    Correction(68.919, -29.899, 3694, "Gunnbjorn Fjeld"),
    Correction(68.900, -29.880, 3683, "Dome (Watkins Range)"),
    Correction(68.880, -29.850, 3669, "Cone (Watkins Range)")
  ]

  /** A correction after rounding to its nearest cell. The row and column may
      fall outside the grid. */
  datatype Placed = Placed(row: int, col: int, elevation: int)

  /** The placed correction lands inside the grid, on flat index `i`. */
  predicate Hits(p: Placed, nRows: int, nCols: int, i: int) {
    0 <= p.row < nRows && 0 <= p.col < nCols && i == Idx(nCols, p.row, p.col)
  }

  /** One step of the loop: raise the target cell if the asserted elevation is
      strictly higher, otherwise leave everything alone. */
  function ApplyOne(elevations: seq<int>, nRows: int, nCols: int, p: Placed): (r: seq<int>)
    requires |elevations| == nRows * nCols
    ensures |r| == |elevations|
    ensures forall i :: 0 <= i < |r| && !Hits(p, nRows, nCols, i) ==> r[i] == elevations[i]
    ensures forall i :: 0 <= i < |r| && Hits(p, nRows, nCols, i) ==>
      r[i] == (if p.elevation > elevations[i] then p.elevation else elevations[i])
  {
    if 0 <= p.row < nRows && 0 <= p.col < nCols then
      IdxInBounds(nRows, nCols, p.row, p.col);
      var idx := Idx(nCols, p.row, p.col);
      if p.elevation > elevations[idx] then elevations[idx := p.elevation] else elevations
    else
      elevations
  }

  /** The whole pass. Each cell ends as the maximum of its stored elevation
      and the elevations of the in-bounds corrections that target it: it
      never decreases, is at least every correction aimed at it, equals one of
      those candidates, and is untouched when no correction targets it. */
  function ApplyCorrections(elevations: seq<int>, nRows: int, nCols: int, ps: seq<Placed>): (r: seq<int>)
    requires |elevations| == nRows * nCols
    ensures |r| == |elevations|
    ensures forall i :: 0 <= i < |r| ==> elevations[i] <= r[i]
    ensures forall i :: 0 <= i < |r| && (forall k :: 0 <= k < |ps| ==> !Hits(ps[k], nRows, nCols, i)) ==>
      r[i] == elevations[i]
    ensures forall k, i :: 0 <= k < |ps| && 0 <= i < |r| && Hits(ps[k], nRows, nCols, i) ==>
      ps[k].elevation <= r[i]
    ensures forall i :: 0 <= i < |r| ==>
      r[i] == elevations[i] || exists k :: 0 <= k < |ps| && Hits(ps[k], nRows, nCols, i) && r[i] == ps[k].elevation
    decreases |ps|
  {
    if |ps| == 0 then elevations
    else
      var once := ApplyOne(elevations, nRows, nCols, ps[0]);
      var r := ApplyCorrections(once, nRows, nCols, ps[1..]);
      assert forall k :: 1 <= k < |ps| ==> ps[1..][k - 1] == ps[k];
      r
  }

  /** Applying the same corrections in any order gives the same grid: the
      pass computes a maximum, not a last-writer-wins overwrite. */
  lemma CorrectionOrderIrrelevant(elevations: seq<int>, nRows: int, nCols: int, ps: seq<Placed>, qs: seq<Placed>)
    requires |elevations| == nRows * nCols
    requires multiset(ps) == multiset(qs)
    ensures ApplyCorrections(elevations, nRows, nCols, ps) == ApplyCorrections(elevations, nRows, nCols, qs)
  {
    var a := ApplyCorrections(elevations, nRows, nCols, ps);
    var b := ApplyCorrections(elevations, nRows, nCols, qs);
    forall i | 0 <= i < |a|
      ensures a[i] <= b[i]
    {
      DominatedByPermutation(elevations, nRows, nCols, ps, qs, i);
    }
    forall i | 0 <= i < |a|
      ensures b[i] <= a[i]
    {
      DominatedByPermutation(elevations, nRows, nCols, qs, ps, i);
    }
  }

  lemma DominatedByPermutation(elevations: seq<int>, nRows: int, nCols: int, ps: seq<Placed>, qs: seq<Placed>, i: int)
    requires |elevations| == nRows * nCols
    requires multiset(ps) == multiset(qs)
    requires 0 <= i < |elevations|
    ensures ApplyCorrections(elevations, nRows, nCols, ps)[i] <= ApplyCorrections(elevations, nRows, nCols, qs)[i]
  {
    var a := ApplyCorrections(elevations, nRows, nCols, ps);
    var b := ApplyCorrections(elevations, nRows, nCols, qs);
    if a[i] != elevations[i] {
      var k :| 0 <= k < |ps| && Hits(ps[k], nRows, nCols, i) && a[i] == ps[k].elevation;
      assert ps[k] in multiset(qs);
      var k' :| 0 <= k' < |qs| && qs[k'] == ps[k];
      assert Hits(qs[k'], nRows, nCols, i);
    }
  }

  /** The nearest cell of a catalogue entry: `round((lat - latMin) / latStep)`
      and likewise for the column, with Python's round-half-even. */
  function Place(g: Grid, c: Correction): (p: Placed)
    requires g.latStep != 0.0 && g.lonStep != 0.0
    ensures -0.5 <= (c.lat - g.latMin) / g.latStep - p.row as real <= 0.5
    ensures -0.5 <= (c.lon - g.lonMin) / g.lonStep - p.col as real <= 0.5
    ensures p.elevation == c.elevation
  {
    Placed(RoundHalfEven((c.lat - g.latMin) / g.latStep),
           RoundHalfEven((c.lon - g.lonMin) / g.lonStep),
           c.elevation)
  }

  function PlaceAll(g: Grid, cs: seq<Correction>): (ps: seq<Placed>)
    requires |cs| > 0 ==> g.latStep != 0.0 && g.lonStep != 0.0
    ensures |ps| == |cs|
    ensures forall k :: 0 <= k < |cs| ==> ps[k] == Place(g, cs[k])
  {
    if |cs| == 0 then [] else [Place(g, cs[0])] + PlaceAll(g, cs[1..])
  }

  /** `apply_corrections(grid, corrections)`. Locating a correction divides by
      the grid step, so a non-empty catalogue on a grid with a zero step
      raises. Otherwise only the elevations change, and they change as
      `ApplyCorrections` describes for the rounded cells. */
  function ApplyCatalog(g: Grid, catalog: seq<Correction>): (r: Result<Grid>)
    requires g.Shaped()
    ensures r.Err? <==> |catalog| > 0 && (g.latStep == 0.0 || g.lonStep == 0.0)
    ensures r.Ok? ==> r.value.Shaped() && r.value == g.(elevations := r.value.elevations)
    ensures r.Ok? ==> forall i :: 0 <= i < |g.elevations| ==> g.elevations[i] <= r.value.elevations[i]
    ensures r.Ok? ==> forall k, i ::
      (0 <= k < |catalog| && 0 <= i < |g.elevations| && Hits(Place(g, catalog[k]), g.nRows, g.nCols, i)) ==>
      catalog[k].elevation <= r.value.elevations[i]
    ensures r.Ok? ==> forall i ::
      (0 <= i < |g.elevations| && forall k :: 0 <= k < |catalog| ==> !Hits(Place(g, catalog[k]), g.nRows, g.nCols, i)) ==>
      r.value.elevations[i] == g.elevations[i]
    ensures r.Ok? ==> forall i :: 0 <= i < |g.elevations| ==>
      (r.value.elevations[i] == g.elevations[i] ||
       exists k :: 0 <= k < |catalog| && Hits(Place(g, catalog[k]), g.nRows, g.nCols, i) &&
         r.value.elevations[i] == catalog[k].elevation)
  {
    if |catalog| > 0 && (g.latStep == 0.0 || g.lonStep == 0.0) then
      Err("float division by zero locating a correction")
    else
      var ps := PlaceAll(g, catalog);
      var es := ApplyCorrections(g.elevations, g.nRows, g.nCols, ps);
      Ok(g.(elevations := es))
  }
}
