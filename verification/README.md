# Ecliptic apex: the grid scans and the apex track

ecliptic-apex looks for the point on the Earth's surface that rises
highest along the direction of the ecliptic pole. Its two Python scripts
each produce a result:

- `scripts/analyze_global_max.py` scans an elevation grid to find the
  global maximum of the closed-form maximum ecliptic height.
- `scripts/precompute_tracks.py` computes, for 7201 sidereal angles, the
  surface point that is highest along the pole at that angle. This is the
  "apex track" the app displays.

This project models the discrete logic of both scripts in Dafny:

- the binary grid reader and the int16/int32 layout;
- the peak corrections, which only ever raise a cell;
- the first-maximum argmax scans: the ellipsoid optimum, the ocean-only
  baseline, the top-N scan and the per-sample mountain search;
- the neighbourhood window;
- the ECEF table;
- the mountain-column mask and the window that wraps modulo `nCols`;
- the track file layout.

Floating-point values are exact reals. The transcendental functions are
uninterpreted parameters (sine, cosine, square root, `atan2`, and the
prime-vertical radius of the WGS 84 ellipsoid). Every comparison, index
computation and error path is written out as the scripts perform it, and
rounding follows Python's rules on the exact values. The exceptions are
listed under "## Left out": float rounding itself, the float32 range error,
headers with negative dimensions, and header bounds that are not finite
numbers.

Modules, in dependency order:

- `Numeric`: the `Result` type and `-inf`. Also Python's `round`, `int()`,
  `math.ceil`, `%` and `xs[:n]` on exact values.
- `LittleEndian`: `int16`/`int32` little-endian decoding and encoding.
- `ElevationGrid`: the grid, the reader `read_elevation_grid`, and the
  row-major layout.
- `Geodesy`: the sea-level clamp, `ecliptic_hmax` and `optimal_gmst_rad`,
  with the trigonometry as parameters.
- `PeakCorrections`: `apply_corrections`.
- `Argmax`, `EllipsoidOptimum`: the first-maximum sweep over latitude
  samples.
- `GridScan`: `scan_grid` and `scan_grid_ellipsoid_best`.
- `Neighbourhood`: the 31 × 31 window around the winning cell.
- `EcefTable`: `precompute_ecef`.
- `ApexTrack`: `compute_track`.
- `TrackFile`: `write_track`.
- `Analysis`: `analyze_hemisphere`.

Where the two scripts share code, the model defines it once. This covers
the reader, the corrections and the ellipsoid sweep. `precompute_tracks.py`
applies corrections unconditionally, but only ever with the non-empty
north catalogue. `analyze_hemisphere` applies them only when its
catalogue is non-empty. `Analysis.Corrected` models that guard.

## Model

| member | source | states |
|---|---|---|
| Numeric.RoundHalfEven | scripts/analyze_global_max.py:180-181 | Python's `round` on a float: the result is within one half of the argument, and an exact tie goes to the even neighbour |
| Numeric.RoundNearest | scripts/analyze_global_max.py:281-282 | a value strictly within one half of an integer rounds to that integer |
| Numeric.Ceil | scripts/precompute_tracks.py:164 | `math.ceil`: the least integer not below its argument |
| Numeric.Trunc | scripts/analyze_global_max.py:115 | `int()` on a float: truncation toward zero, so the result is the largest integer at or below a non-negative argument and the smallest at or above a negative one |
| Numeric.PyMod | scripts/precompute_tracks.py:193 | Python's `%` with a positive divisor: a remainder in `[0, n)` consistent with floor division |
| Numeric.PrefixSlice | scripts/analyze_global_max.py:143 | `xs[:n]` is a prefix of `xs`, of length `min(n, len)` for `n >= 0` and `max(len + n, 0)` for negative `n` |
| LittleEndian.DecodeInt16 | scripts/analyze_global_max.py:56 | a two-byte little-endian `h` lies in the int16 range and is negative exactly when the high byte's top bit is set |
| LittleEndian.Int16RoundTrip | scripts/analyze_global_max.py:56 | decoding the encoding of any int16 gives it back |
| LittleEndian.Int16BytesRoundTrip | scripts/analyze_global_max.py:56 | encoding the decoding of any two bytes gives them back, so the int16 layout is a bijection |
| LittleEndian.DecodeInt32 | scripts/analyze_global_max.py:53 | a four-byte little-endian `i` lies in the int32 range and is negative exactly when the top byte's top bit is set |
| LittleEndian.Int32RoundTrip | scripts/precompute_tracks.py:224 | decoding the `<i` encoding of any int32 gives it back |
| LittleEndian.DecodeInt16s | scripts/analyze_global_max.py:56 | an even-length payload decodes to one int16 per byte pair, sample `k` from bytes `2k, 2k+1` |
| LittleEndian.Int16sRoundTrip | scripts/precompute_tracks.py:51 | decoding the encoding of any list of int16 samples gives back the list |
| ElevationGrid.RowOf | scripts/precompute_tracks.py:119-132 | the `nCols` entries of one row, entry `col` computed from `(row, col)` |
| ElevationGrid.RowMajor | scripts/analyze_global_max.py:133-140 | the first `rows` rows in row-major order: entry `row * nCols + col` comes from cell `(row, col)` |
| ElevationGrid.RowMajorEntry | scripts/analyze_global_max.py:133-140 | every entry of a row-major list comes from some in-range cell |
| ElevationGrid.IdxInBounds | scripts/precompute_tracks.py:126 | `row * nCols + col` of an in-range cell is a valid index of the `nRows * nCols` samples |
| ElevationGrid.ParseGrid | scripts/analyze_global_max.py:52-59 | an accepted file gives the header's bounds and dimensions, the payload's samples, and the two steps `(max - min) / (n - 1)` |
| ElevationGrid.ReadGrid | scripts/precompute_tracks.py:43-63 | reading succeeds exactly on a full header with usable dimensions and a payload of exactly `nRows * nCols` int16 samples; then the grid holds the header's four float32 bounds and its dimensions, those samples, and the steps `(max - min) / (n - 1)` |
| ElevationGrid.ReadGridForAnalysis | scripts/analyze_global_max.py:42-70 | the analysis reader succeeds exactly when the shared reader does and the payload is non-empty, since it takes `min` of the samples, and it yields the same grid |
| ElevationGrid.EncodeGrid | scripts/analyze_global_max.py:52-56 | the file layout the reader expects is 24 header bytes then two bytes per sample |
| ElevationGrid.ReadAfterWrite | scripts/analyze_global_max.py:42-70 | reading back a written grid succeeds and reproduces its dimensions and samples exactly, and its bounds up to the float32 round trip |
| Geodesy.Clamp | scripts/analyze_global_max.py:90 | `max(elev, 0)`: an elevation above sea level is kept and one at or below it becomes 0 |
| Geodesy.ToEcef | scripts/analyze_global_max.py:75-85 | definition, no contract: `geodetic_to_ecef` over the uninterpreted sine, cosine and prime-vertical radius; `ElevationAlongNormal` states its property |
| Geodesy.ElevationAlongNormal | scripts/analyze_global_max.py:82-84 | a point raised by `elev` lies `elev` along the ellipsoid normal `(cos lat cos lon, cos lat sin lon, sin lat)` from its sea-level position |
| Geodesy.HmaxOfPoint | scripts/analyze_global_max.py:91-95 | definition, no contract: `sin(e) * sqrt(x² + y²) ± cos(e) * z`, with the sign chosen by hemisphere; `HemisphereMirror` states its property |
| Geodesy.HemisphereMirror | scripts/analyze_global_max.py:92-95 | a point's south height equals its mirror image's north height, and the other way round, so the sign flip is the only difference between the hemispheres |
| Geodesy.EclipticHmax | scripts/analyze_global_max.py:88-95 | definition, no contract: `ecliptic_hmax` is the height of the ECEF point of the clamped elevation; `SeaLevelClamp` and `DirectFormulaAgrees` state its properties |
| Geodesy.OptimalGmst | scripts/analyze_global_max.py:98-104 | definition, no contract: `optimal_gmst_rad` over the uninterpreted `atan2`; `SeaLevelClamp` states its property |
| Geodesy.EllipsoidHeightDirect | scripts/precompute_tracks.py:90-94 | definition, no contract: the track script's written-out sea-level height; `DirectFormulaAgrees` relates it to `ecliptic_hmax` |
| Geodesy.SeaLevelClamp | scripts/analyze_global_max.py:88-104 | `ecliptic_hmax` and `optimal_gmst_rad` give the same value for any elevation at or below sea level as for elevation 0 |
| Geodesy.DirectFormulaAgrees | scripts/precompute_tracks.py:88-94 | the track script's written-out ellipsoid height equals `ecliptic_hmax` at longitude 0 and elevation 0, given `sin 0 = 0`, `cos 0 = 1` and a sound square root |
| PeakCorrections.ApplyOne | scripts/analyze_global_max.py:182-187 | one placed correction leaves the length and every other cell unchanged; a cell it hits becomes the larger of its value and the asserted elevation; a correction outside the grid changes nothing |
| PeakCorrections.ApplyCorrections | scripts/precompute_tracks.py:69-76 | after all corrections, no cell has decreased, each hit cell is at least every elevation asserted for it, and a cell no correction hits is unchanged; and every cell that changed now holds the elevation of a correction that hits it |
| PeakCorrections.CorrectionOrderIrrelevant | scripts/analyze_global_max.py:179-187 | applying the same corrections in any order gives the same elevations |
| PeakCorrections.DominatedByPermutation | scripts/analyze_global_max.py:179-187 | each cell after one order of the corrections is at most the same cell after any permutation of them |
| PeakCorrections.Place | scripts/analyze_global_max.py:180-181 | a correction's row and column are within one half of its fractional grid position, and it carries its asserted elevation |
| PeakCorrections.PlaceAll | scripts/precompute_tracks.py:69-71 | each correction of the catalogue is placed, in order |
| PeakCorrections.ApplyCatalog | scripts/analyze_global_max.py:176-189 | `apply_corrections`: it fails exactly when the catalogue is non-empty and a step is zero. Otherwise only the elevations change; no cell decreases; a cell hit by a correction is at least its elevation; a cell no correction hits is unchanged; and every cell that changed now holds the elevation of a correction that hits it |
| Argmax.FirstArgmax | scripts/analyze_global_max.py:118-120 | the index the strict-`>` loop keeps is a maximum of all scanned values with every earlier value strictly below it; it is -1 exactly when there is nothing to scan |
| Argmax.FirstMaxUnique | scripts/analyze_global_max.py:118-120 | the first maximum is unique, so any index with that property is the one found |
| Argmax.FirstArgmaxLocal | scripts/precompute_tracks.py:95-97 | the argmax depends only on the values at the scanned indices |
| EllipsoidOptimum.SampleCount | scripts/analyze_global_max.py:115 | `int((end - start) / 0.001) + 1` samples, at least one for a non-empty band |
| EllipsoidOptimum.BandSampleCount | scripts/analyze_global_max.py:112-116 | both hemispheres' bands `[64, 69]` and `[-69, -64]` have 5001 samples, the last one exactly at the band's end |
| EllipsoidOptimum.Sweep | scripts/analyze_global_max.py:113-121 | the sweep's height bounds every sample's height and is attained at the first sample reaching it; with no sample it is `-inf` at the seed latitude |
| EllipsoidOptimum.SweepLocal | scripts/precompute_tracks.py:88-97 | the sweep depends only on the heights at the sampled latitudes |
| EllipsoidOptimum.SweepSeedIrrelevant | scripts/precompute_tracks.py:82 | with at least one sample, the seed latitude (0.0 in one script, ±66.56 in the other) never survives |
| EllipsoidOptimum.ComputeEllipsoidOptimum | scripts/analyze_global_max.py:109-121 | `compute_ellipsoid_optimum`: a finite height at least `ecliptic_hmax` of every one of the 5001 sampled latitudes, at the first sample attaining it |
| EllipsoidOptimum.OptimalEllipsoidLat | scripts/precompute_tracks.py:80-99 | `compute_optimal_ellipsoid_lat`: the same first-maximum property for the written-out height formula |
| EllipsoidOptimum.BaselinesAgree | scripts/precompute_tracks.py:80-99 | the two scripts' ellipsoid baselines are the same latitude and height when the direct formula agrees with `ecliptic_hmax` |
| GridScan.Candidates | scripts/analyze_global_max.py:133-140 | the scan's tuple list has one entry per cell, in row-major order, each built from its cell's latitude, longitude and elevation |
| GridScan.CellIsCandidate | scripts/analyze_global_max.py:133-140 | every grid cell contributes its tuple |
| GridScan.CandidateIsCell | scripts/analyze_global_max.py:133-140 | every tuple comes from an in-bounds grid cell |
| GridScan.InsertDesc | scripts/analyze_global_max.py:142 | inserting into a list sorted by non-increasing height keeps it sorted and adds exactly the one element |
| GridScan.SortDesc | scripts/analyze_global_max.py:142 | `sort(reverse=True)` by height: a non-increasing permutation of its input |
| GridScan.PrefixDominates | scripts/analyze_global_max.py:143 | a prefix of a sorted list is a sub-multiset, and every element left out is at most every element kept |
| GridScan.HeadIsTop | scripts/analyze_global_max.py:142-143 | the head of a sorted non-empty list bounds every element |
| GridScan.TopN | scripts/analyze_global_max.py:142-143 | the kept tuples number `len(results[:top_n])`, are sorted, come from the input, dominate every tuple dropped, and the first bounds them all |
| GridScan.KeptPrefix | scripts/analyze_global_max.py:142-143 | any prefix of a sorted permutation of the input has the top-N properties |
| GridScan.CollectCandidates | scripts/analyze_global_max.py:130-140 | the nested row/column loop builds exactly the row-major tuple list |
| GridScan.ScanGrid | scripts/analyze_global_max.py:126-143 | `scan_grid`: `min(top_n, nRows * nCols)` tuples, sorted by non-increasing height, drawn from the grid's tuples, each at least every tuple left out, and the first at least the height of every grid cell |
| GridScan.ScanRow | scripts/analyze_global_max.py:152-162 | one row of the ocean-only scan raises the best to the row's baseline exactly when the row has a cell at or below sea level and the best is below that baseline, and never lowers it |
| GridScan.RowStep | scripts/analyze_global_max.py:151-163 | each row carries the scan's invariant forward: `-inf` exactly while no ocean row is seen, bounding every ocean row, attained at one |
| GridScan.RowsToCells | scripts/analyze_global_max.py:146-163 | the row invariant over all rows gives the per-cell result |
| GridScan.ScanGridEllipsoidBest | scripts/analyze_global_max.py:146-163 | `scan_grid_ellipsoid_best`: `-inf` exactly when every cell is above sea level; otherwise it bounds the longitude-0, elevation-0 height of every ocean cell's latitude and equals that of one such cell |
| Neighbourhood.WindowLo | scripts/analyze_global_max.py:284-289 | the clipped low edge of the window lies in `[0, n]` |
| Neighbourhood.WindowHi | scripts/analyze_global_max.py:284-289 | the clipped high edge lies between the low edge and `n` |
| Neighbourhood.WindowExact | scripts/analyze_global_max.py:284-289 | an index is in the clipped window exactly when it is in `[0, n)` and within `w` of the centre |
| Neighbourhood.RowRun | scripts/analyze_global_max.py:285-290 | one window row's elevations, column by column |
| Neighbourhood.Block | scripts/analyze_global_max.py:284-290 | the rectangle of elevations holds one value per in-grid cell |
| Neighbourhood.BlockHasCell | scripts/analyze_global_max.py:284-290 | every cell of the rectangle is collected |
| Neighbourhood.BlockEntryIsCell | scripts/analyze_global_max.py:284-290 | every collected value is the elevation of a cell of the rectangle |
| Neighbourhood.CollectRow | scripts/analyze_global_max.py:285-290 | the inner `dc` loop collects the in-grid cells of one window row and nothing for a row outside the grid |
| Neighbourhood.CollectNeighbours | scripts/analyze_global_max.py:281-290 | the double loop collects exactly the in-bounds cells of the window, in row-major order |
| Neighbourhood.CountBelowSea | scripts/analyze_global_max.py:291 | the below-sea count never exceeds the number of values; it is 0 exactly when none is negative and the full length exactly when all are |
| Neighbourhood.CountBelowSeaAppend | scripts/analyze_global_max.py:291 | the count of a concatenation is the sum of the counts, so it is a sum over the entries, one for each negative value |
| Neighbourhood.CountBelowSeaIsCount | scripts/analyze_global_max.py:291 | the count equals the number of positions holding a negative value |
| Neighbourhood.WindowSize | scripts/analyze_global_max.py:283-290 | the window holds at most `(2w + 1)²` values |
| Neighbourhood.CentreInWindow | scripts/analyze_global_max.py:283-290 | an in-bounds centre's own elevation is among the collected values |
| EcefTable.FillRow | scripts/precompute_tracks.py:119-133 | the inner loop produces one row of the five lists: that row's latitude and each column's longitude and position |
| EcefTable.PrecomputeEcef | scripts/precompute_tracks.py:102-135 | `precompute_ecef`: five lists of length `nRows * nCols`; entry `row * nCols + col` holds cell `(row, col)`'s position from `max(elevation, 0)`, its row latitude and its column longitude |
| EcefTable.FullTableDescribes | scripts/precompute_tracks.py:116-133 | the table built row by row describes every cell |
| ApexTrack.MarkRow | scripts/precompute_tracks.py:156-159 | one row of the mask pass sets the flag of each column with a mountain in that row and clears none |
| ApexTrack.MountainMask | scripts/precompute_tracks.py:154-159 | `col_has_mtn[c]` holds exactly when some row of column `c` is above sea level |
| ApexTrack.WindowCols | scripts/precompute_tracks.py:147-164 | `ceil(15 / lon_step)` is the least number of columns of width `360 / nCols` spanning 15 degrees, and at least 1 |
| ApexTrack.WindowColsOnGlobalGrid | scripts/precompute_tracks.py:163-164 | on a 10800-column grid the window is 450 columns each side |
| ApexTrack.CenterCol | scripts/precompute_tracks.py:192-193 | the centre column after `% nCols` lies in `[0, nCols)` |
| ApexTrack.WindowCol | scripts/precompute_tracks.py:196 | every wrapped window column `(center_col + dc) % nCols` lies in `[0, nCols)` |
| ApexTrack.Gmst | scripts/precompute_tracks.py:172 | sample `s` of `0 .. 7200` is an angle in `[0, 2π]`, from 0 at the first sample to a full turn at the last |
| ApexTrack.PoleDirection | scripts/precompute_tracks.py:176-183 | definition, no contract: the ecliptic pole `(ex, ey, ez)` at the sample's angle, or its anti-pole for the south; `AntiPole` states its property |
| ApexTrack.AntiPole | scripts/precompute_tracks.py:176-183 | the south direction is the north direction negated, so a cell's south height is the negation of its north height |
| ApexTrack.EnpLon | scripts/precompute_tracks.py:185 | definition, no contract: `atan2(ey, ex)` in degrees, over the uninterpreted `atan2` |
| ApexTrack.Consider | scripts/precompute_tracks.py:200-208 | definition, no contract: one cell of the search, replacing the best only for a mountain cell strictly higher; `ColumnFoldBounds` states its effect |
| ApexTrack.ColumnFold | scripts/precompute_tracks.py:199-208 | definition, no contract: the reference search over the rows of one column, in row order; `ColumnFoldBounds` and `ScanColumn` relate it to the script |
| ApexTrack.WindowFold | scripts/precompute_tracks.py:195-208 | definition, no contract: the reference search over the band's columns in `dc` order; `WindowFoldBounds` and `SearchWindow` relate it to the script |
| ApexTrack.ColumnFoldBounds | scripts/precompute_tracks.py:199-208 | the row scan of one column never lowers the best, bounds every mountain cell it sees, and ends at its start or at the first mountain cell of greatest height: strictly above its start and strictly above every mountain cell of an earlier row |
| ApexTrack.ColumnFoldSkips | scripts/precompute_tracks.py:199-202 | a column with no cell above sea level leaves the best untouched |
| ApexTrack.NoMountainSkips | scripts/precompute_tracks.py:197-198 | a column the mask clears leaves the search untouched, so skipping it is sound |
| ApexTrack.WindowFoldBounds | scripts/precompute_tracks.py:195-208 | the band search never lowers the best, bounds every mountain cell of the band, and ends at its start or at the first band mountain cell of greatest height in the loop's `dc`-then-row order: strictly above its start and every band mountain cell visited before it |
| ApexTrack.TableEntry | scripts/precompute_tracks.py:200-208 | entry `row * nCols + col` of the table is in range and holds that cell's position, latitude, longitude and elevation |
| ApexTrack.HeightsAlong | scripts/precompute_tracks.py:203 | the table's `x * ex + y * ey + z * ez` at each cell is the height of that cell's position along the pole |
| ApexTrack.ScanColumn | scripts/precompute_tracks.py:199-208 | the row loop over one column computes the column's first-maximum search from the current best |
| ApexTrack.SearchWindow | scripts/precompute_tracks.py:195-208 | the `dc` loop, skipping masked-off columns, computes the band search over all `2 * window_cols + 1` columns |
| ApexTrack.ApexProperties | scripts/precompute_tracks.py:187-208 | a track entry's height is at least the ellipsoid baseline and at least that of every mountain cell in the band. Its elevation is 0 exactly when no band mountain beats the baseline, and then it is the baseline point. Otherwise it is a band mountain cell, it carries that cell's height, and every band mountain cell the loop visits before it is strictly lower, so it is the first maximum the strict `>` keeps |
| ApexTrack.TrackSample | scripts/precompute_tracks.py:186-208 | one sample's search over the table and mask yields the reference search's point |
| ApexTrack.TrackSweep | scripts/precompute_tracks.py:171-212 | the sweep yields 7201 entries in three lists of equal length; entry `s` is the reference search at sidereal angle `s / 7200` of a full turn |
| ApexTrack.ComputeTrack | scripts/precompute_tracks.py:138-217 | `compute_track`: fails exactly on a grid without columns; otherwise three lists of `NUM_SAMPLES + 1` entries, each the band search against the track script's ellipsoid baseline |
| TrackFile.Record | scripts/precompute_tracks.py:226 | a record is twelve bytes: the float32 of the latitude, then of the longitude, then of the elevation |
| TrackFile.HoldsStep | scripts/precompute_tracks.py:225-226 | appending record `k` extends a correct prefix of the file by one record |
| TrackFile.WriteTrack | scripts/precompute_tracks.py:220-226 | `write_track`: fails exactly when the count is not an int32 or a list is shorter than `lats`. Otherwise the file is `4 + 12n` bytes; its first four decode to `n`, and bytes `4 + 12i .. 16 + 12i` are record `i` |
| Analysis.Corrected | scripts/analyze_global_max.py:233-235 | an empty catalogue leaves the grid as read. A non-empty one fails exactly when a step is zero. Otherwise only the elevations change: none decreases, a hit cell is at least each correction hitting it, an unhit cell is unchanged, and a changed cell holds a hitting correction's elevation |
| Analysis.CatalogueFor | scripts/analyze_global_max.py:328-343 | the entry point passes the northern catalogue exactly for the north and an empty one for the south |
| Analysis.HemisphereCatalogues | scripts/analyze_global_max.py:233-235 | with those catalogues the corrections step fails only for the north and only on a zero step, leaves the south grid as read, and is `apply_corrections` with the northern list for the north |
| Analysis.CenterIsCell | scripts/analyze_global_max.py:281-282 | rounding a cell's own latitude and longitude back to an index gives its row and column |
| Analysis.WinnerRow | scripts/analyze_global_max.py:281 | `center_row` is within half a row of the winning tuple's fractional row |
| Analysis.WinnerCol | scripts/analyze_global_max.py:282 | `center_col` is within half a column of the winning tuple's fractional column |
| Analysis.WinnerCell | scripts/analyze_global_max.py:281-282 | a tuple carrying a cell's coordinates locates that cell |
| Analysis.ReportOn | scripts/analyze_global_max.py:238-295 | on a non-empty grid: fails exactly when a step is zero. Otherwise the winner bounds every cell's height and is the tuple of the in-bounds cell the neighbourhood is centred on. The topographic advantage is its height above the baseline, and the GMST is that of its position. The neighbourhood is the window around it, contains its elevation, holds at most 31² values and counts its negative ones. The top list holds `min(30, nRows * nCols)` tuples from the grid, sorted by non-increasing height, and starts with the winner |
| Analysis.AnalyzeHemisphere | scripts/analyze_global_max.py:216-295 | `analyze_hemisphere`: fails exactly when reading fails or a step is zero. Otherwise it reports against `compute_ellipsoid_optimum` on the corrected grid. The winner is at least `ecliptic_hmax` of every cell, and is the tuple of the centre cell of the neighbourhood, which contains its elevation. The reported GMST is `optimal_gmst_rad` at the winner's position, the neighbourhood holds at most 31² values, and the below-sea count is that of the neighbourhood. The top list holds `min(30, nRows * nCols)` tuples from the corrected grid, sorted by non-increasing height, and starts with the winner |

## Left out

- The trigonometry (sine, cosine, square root, `atan2` and the
  prime-vertical radius) is an uninterpreted parameter `Trig`. Positions
  and heights are exact reals built from it, so no property depends on
  floating-point rounding.
- Floats are exact reals throughout. `round`, `int()`, `math.ceil` and `%`
  are modelled exactly on those reals. Where a float computation would
  round (a step, a latitude sample, a division inside `round`), the model
  uses the exact value.
- The float32 encoding of the header bounds and of the track records is a
  parameter (`f32`, `pack`). The bit pattern is not modelled, and neither
  is the `OverflowError` that `pack` raises for a value outside the float32
  range.
- ElevationGrid.ReadGrid: a header bound whose four bytes decode to NaN
  or ±inf has no real counterpart under `f32`. Python reads such a file,
  and then `round()` raises `ValueError` (NaN) or `OverflowError` (±inf)
  when it places a correction in `apply_corrections`, when it locates the
  winner's cell in `analyze_hemisphere`, and when it finds the centre
  column in `compute_track`. The model gives every header a real bound,
  so those failures are not modelled.
- ElevationGrid.ReadGrid: a header with a negative dimension whose
  product with the other is still zero or positive (both negative, or one
  negative and one zero) passes Python's `struct` format, so the script
  reads the payload and then scans nothing. The model rejects such a file
  as malformed, since a grid's dimensions are non-negative throughout.
- ApexTrack.WindowCols: the track script divides 360 degrees by `nCols`,
  whereas the grid's own longitude step is `(lonMax - lonMin) / (nCols - 1)`.
  The model keeps the script's formula as written.
- GridScan.SortDesc: `sort(reverse=True)` orders whole tuples, so ties in
  height are broken by latitude, longitude and elevation. The model orders
  by height only, and its contracts say nothing about the order within a
  tie.
- Analysis.AnalyzeHemisphere: a failure partway through the script happens
  after some output has been printed. The model reports only the failure.
- TrackFile.WriteTrack: when a list is too short, Python has already
  written part of the file before `IndexError`. The model returns only the
  error.
- EcefTable.PrecomputeEcef: the script fills five preallocated lists at a
  running index. The model builds the same lists by appending, row by row.
- ApexTrack.ComputeTrack: the south track is computed without corrections,
  which is `compute_track` on the grid as read. `main` itself is not
  modelled.
- `main` of both scripts, argument parsing, file existence checks, file
  reading and writing, and all printing. The model takes the file's bytes
  and returns the bytes to write.
- `_std` and the ice/plateau/mountain classification at
  scripts/analyze_global_max.py:297-304. These are float statistics that
  only produce printed text.
- The reference-peak comparison and the top-20 table in
  `analyze_hemisphere`. They only print values derived from modelled ones.
- `scripts/preprocess_etopo.py` and `scripts/generate_test_data.py`, which
  download, read NetCDF, generate random terrain and write files. They are
  not part of this model.
- The JavaScript app whose search `precompute_tracks.py` reproduces is not
  part of this model.
