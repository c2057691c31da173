/** The preprocessed elevation grid: a row-major list of `nRows * nCols`
    signed 16-bit samples (south to north, west to east) plus its bounding
    box, and the binary file it is read from. */
module ElevationGrid {
  import opened Numeric
  import opened LittleEndian

  /** The dictionary `read_elevation_grid` returns. Rows run south to north,
      columns west to east; cell `(row, col)` is `elevations[row * nCols + col]`. */
  datatype Grid = Grid(
    latMin: real, latMax: real, lonMin: real, lonMax: real,
    nRows: int, nCols: int,
    elevations: seq<int>,
    latStep: real, lonStep: real)
  {
    /** The count invariant every scan relies on. */
    predicate Shaped() {
      nRows >= 0 && nCols >= 0 && |elevations| == nRows * nCols
    }

    /** `latMin + row * latStep`. */
    function CellLat(row: int): real {
      latMin + row as real * latStep
    }

    /** `lonMin + col * lonStep`. */
    function CellLon(col: int): real {
      lonMin + col as real * lonStep
    }

    predicate InBounds(row: int, col: int) {
      0 <= row < nRows && 0 <= col < nCols
    }

    /** The sample of cell `(row, col)`. */
    function Elevation(row: int, col: int): int
      requires Shaped() && InBounds(row, col)
    {
      IdxInBounds(nRows, nCols, row, col);
      elevations[Idx(nCols, row, col)]
    }

    /** `Elevation` made total (0 off the grid), for building tables. */
    function Sample(row: int, col: int): int {
      if Shaped() && InBounds(row, col) then Elevation(row, col) else 0
    }
  }

  /** Row-major flat index `row * nCols + col`. */
  function Idx(nCols: int, row: int, col: int): int {
    row * nCols + col
  }

  lemma IdxInBounds(nRows: int, nCols: int, row: int, col: int)
    requires 0 <= row < nRows && 0 <= col < nCols
    ensures 0 <= Idx(nCols, row, col) < nRows * nCols
  {
    assert row * nCols <= (nRows - 1) * nCols;
  }

  /** One row of a per-cell table: `f(row, col)` for every column. */
  function RowOf<T>(nCols: int, row: int, f: (int, int) -> T): (s: seq<T>)
    requires nCols >= 0
    ensures |s| == nCols
    ensures forall col :: 0 <= col < nCols ==> s[col] == f(row, col)
  {
    seq(nCols, col => f(row, col))
  }

  /** The per-cell table the scripts' `for row: for col:` loops build for
      the first `rows` rows: entry `Idx(nCols, row, col)` is `f(row, col)`. */
  function RowMajor<T>(nCols: int, rows: nat, f: (int, int) -> T): (s: seq<T>)
    requires nCols >= 0
    ensures |s| == rows * nCols
    ensures forall row, col :: 0 <= row < rows && 0 <= col < nCols ==>
      0 <= Idx(nCols, row, col) < |s| && s[Idx(nCols, row, col)] == f(row, col)
  {
    if rows == 0 then [] else RowMajor(nCols, rows - 1, f) + RowOf(nCols, rows - 1, f)
  }

  /** Conversely, every entry of the table is the value of some cell. */
  lemma {:induction false} RowMajorEntry<T>(nCols: int, rows: nat, f: (int, int) -> T, i: int)
    requires nCols >= 0 && 0 <= i < |RowMajor(nCols, rows, f)|
    ensures exists row, col :: 0 <= row < rows && 0 <= col < nCols && RowMajor(nCols, rows, f)[i] == f(row, col)
  {
    if rows == 0 {
      assert false;
    }
    var prev := RowMajor(nCols, rows - 1, f);
    if i < |prev| {
      RowMajorEntry(nCols, rows - 1, f, i);
    } else {
      var col := i - |prev|;
      assert RowMajor(nCols, rows, f)[i] == RowOf(nCols, rows - 1, f)[col];
    }
  }

  /** Size of the fixed header: four float32 bounds and two int32 dimensions. */
  const HEADER_BYTES := 24

  /** The two int32 dimensions stored at bytes 16..24 of the header. */
  function HeaderRows(data: seq<byte>): int
    requires |data| >= HEADER_BYTES
  {
    DecodeInt32(data[16..20])
  }

  function HeaderCols(data: seq<byte>): int
    requires |data| >= HEADER_BYTES
  {
    DecodeInt32(data[20..24])
  }

  /** A file `read_elevation_grid` accepts: a full header, non-negative
      dimensions other than 1 (a single row or column makes the step divide
      by zero), and a payload of exactly `nRows * nCols` int16 samples. */
  predicate WellFormed(data: seq<byte>) {
    && |data| >= HEADER_BYTES
    && HeaderRows(data) >= 0 && HeaderCols(data) >= 0
    && HeaderRows(data) != 1 && HeaderCols(data) != 1
    && |data| == HEADER_BYTES + 2 * (HeaderRows(data) * HeaderCols(data))
  }

  /** The grid a well-formed file describes; the float32 decoding of the
      bounds is the parameter `f32`. */
  function ParseGrid(data: seq<byte>, f32: seq<byte> -> real): (g: Grid)
    requires WellFormed(data)
    ensures g.Shaped() && g.nRows != 1 && g.nCols != 1
    ensures g.nRows == HeaderRows(data) && g.nCols == HeaderCols(data)
    ensures |data| == HEADER_BYTES + 2 * |g.elevations|
    ensures g.elevations == DecodeInt16s(data[HEADER_BYTES..])
    ensures g.latMin == f32(data[0..4]) && g.latMax == f32(data[4..8])
    ensures g.lonMin == f32(data[8..12]) && g.lonMax == f32(data[12..16])
    ensures g.latStep == (g.latMax - g.latMin) / (g.nRows - 1) as real
    ensures g.lonStep == (g.lonMax - g.lonMin) / (g.nCols - 1) as real
  {
    var nRows := HeaderRows(data);
    var nCols := HeaderCols(data);
    var latMin := f32(data[0..4]);
    var latMax := f32(data[4..8]);
    var lonMin := f32(data[8..12]);
    var lonMax := f32(data[12..16]);
    Grid(latMin, latMax, lonMin, lonMax, nRows, nCols, DecodeInt16s(data[HEADER_BYTES..]),
         (latMax - latMin) / (nRows - 1) as real,
         (lonMax - lonMin) / (nCols - 1) as real)
  }

  /** Which check a malformed file fails first, in the script's order. */
  function ReadFailure(data: seq<byte>): string
    requires !WellFormed(data)
  {
    if |data| < HEADER_BYTES then "header shorter than 24 bytes"
    else if HeaderRows(data) * HeaderCols(data) < 0 then "negative sample count in struct format"
    else if |data| != HEADER_BYTES + 2 * (HeaderRows(data) * HeaderCols(data)) then
      "payload is not nRows * nCols int16 samples"
    else if HeaderRows(data) == 1 || HeaderCols(data) == 1 then "float division by zero computing the step"
    else "negative grid dimensions"
  }

  /** `read_elevation_grid`: every path on which the script raises is an
      `Err`, and an accepted file yields exactly its header and samples. */
  function ReadGrid(data: seq<byte>, f32: seq<byte> -> real): (r: Result<Grid>)
    ensures r.Ok? <==> WellFormed(data)
    ensures r.Ok? ==> r.value.Shaped() && r.value.nRows != 1 && r.value.nCols != 1
    ensures r.Ok? ==> |data| == HEADER_BYTES + 2 * |r.value.elevations|
    ensures r.Ok? ==> r.value.elevations == DecodeInt16s(data[HEADER_BYTES..])
    ensures r.Ok? ==> r.value.nRows == HeaderRows(data) && r.value.nCols == HeaderCols(data)
    ensures r.Ok? ==> r.value.latMin == f32(data[0..4]) && r.value.latMax == f32(data[4..8])
    ensures r.Ok? ==> r.value.lonMin == f32(data[8..12]) && r.value.lonMax == f32(data[12..16])
    ensures r.Ok? ==>
      r.value.latStep == (r.value.latMax - r.value.latMin) / (r.value.nRows - 1) as real &&
      r.value.lonStep == (r.value.lonMax - r.value.lonMin) / (r.value.nCols - 1) as real
  {
    if WellFormed(data) then Ok(ParseGrid(data, f32)) else Err(ReadFailure(data))
  }

  /** The analysis script's reader additionally takes `min(elevations)` for
      its report, which raises on an empty payload. */
  function ReadGridForAnalysis(data: seq<byte>, f32: seq<byte> -> real): (r: Result<Grid>)
    ensures r.Ok? <==> ReadGrid(data, f32).Ok? && |ReadGrid(data, f32).value.elevations| > 0
    ensures r.Ok? ==> r == ReadGrid(data, f32)
  {
    var g :- ReadGrid(data, f32);
    if |g.elevations| == 0 then Err("min() of an empty elevation list") else Ok(g)
  }

  /** The file the preprocessing step writes: `<ffff ii` header then the
      row-major int16 payload. The float32 encoding is the parameter `f32`. */
  function EncodeGrid(g: Grid, f32: real -> seq<byte>): (data: seq<byte>)
    requires g.Shaped() && IsInt32(g.nRows) && IsInt32(g.nCols)
    requires forall k :: 0 <= k < |g.elevations| ==> IsInt16(g.elevations[k])
    requires |f32(g.latMin)| == 4 && |f32(g.latMax)| == 4 && |f32(g.lonMin)| == 4 && |f32(g.lonMax)| == 4
    ensures |data| == HEADER_BYTES + 2 * (g.nRows * g.nCols)
  {
    f32(g.latMin) + f32(g.latMax) + f32(g.lonMin) + f32(g.lonMax)
      + EncodeInt32(g.nRows) + EncodeInt32(g.nCols)
      + EncodeInt16s(g.elevations)
  }

  /** Reading back a written grid reproduces its dimensions and samples
      exactly, and its bounds up to the float32 round trip. */
  lemma ReadAfterWrite(g: Grid, enc: real -> seq<byte>, dec: seq<byte> -> real)
    requires g.Shaped() && IsInt32(g.nRows) && IsInt32(g.nCols)
    requires g.nRows != 1 && g.nCols != 1
    requires forall k :: 0 <= k < |g.elevations| ==> IsInt16(g.elevations[k])
    requires |enc(g.latMin)| == 4 && |enc(g.latMax)| == 4 && |enc(g.lonMin)| == 4 && |enc(g.lonMax)| == 4
    ensures ReadGrid(EncodeGrid(g, enc), dec).Ok?
    ensures var h := ReadGrid(EncodeGrid(g, enc), dec).value;
      h.nRows == g.nRows && h.nCols == g.nCols && h.elevations == g.elevations &&
      h.latMin == dec(enc(g.latMin)) && h.latMax == dec(enc(g.latMax)) &&
      h.lonMin == dec(enc(g.lonMin)) && h.lonMax == dec(enc(g.lonMax))
  {
    var data := EncodeGrid(g, enc);
    var head := enc(g.latMin) + enc(g.latMax) + enc(g.lonMin) + enc(g.lonMax)
      + EncodeInt32(g.nRows) + EncodeInt32(g.nCols);
    assert data == head + EncodeInt16s(g.elevations);
    assert data[0..4] == enc(g.latMin);
    assert data[4..8] == enc(g.latMax);
    assert data[8..12] == enc(g.lonMin);
    assert data[12..16] == enc(g.lonMax);
    assert data[16..20] == EncodeInt32(g.nRows);
    assert data[20..24] == EncodeInt32(g.nCols);
    assert data[HEADER_BYTES..] == EncodeInt16s(g.elevations);
    Int32RoundTrip(g.nRows);
    Int32RoundTrip(g.nCols);
    Int16sRoundTrip(g.elevations);
  }
}
