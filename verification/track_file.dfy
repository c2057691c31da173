/** `write_track`: the binary track file, a little-endian `int32` entry
    count followed by one `(lat, lon, elev)` record of three `float32` per
    entry. The `float32` packing itself is the parameter `pack`, four bytes
    per value. */
module TrackFile {
  import opened Numeric
  import opened LittleEndian

  /** Bytes of the count in front of the records. */
  const COUNT_BYTES: nat := 4
  /** Bytes per record, `struct.calcsize("<fff")`. */
  const RECORD_BYTES: nat := 12

  /** `struct.pack("<fff", lat, lon, float(elev))`: twelve bytes, the
      latitude first, then the longitude, then the elevation as a float. */
  function Record(pack: real -> seq<byte>, lat: real, lon: real, elev: int): (r: seq<byte>)
    requires forall x :: |pack(x)| == 4
    ensures |r| == RECORD_BYTES
    ensures r[0..4] == pack(lat) && r[4..8] == pack(lon) && r[8..12] == pack(elev as real)
  {
    pack(lat) + pack(lon) + pack(elev as real)
  }

  /** Where record `i` starts. */
  function RecordStart(i: int): int {
    COUNT_BYTES + RECORD_BYTES * i
  }

  /** `data` is the count `n` followed by the first `k` records of the lists. */
  predicate Holds(data: seq<byte>, pack: real -> seq<byte>, n: int, lats: seq<real>, lons: seq<real>, elevs: seq<int>, k: nat)
    requires forall x :: |pack(x)| == 4
    requires IsInt32(n) && k <= |lats| && k <= |lons| && k <= |elevs|
  {
    && |data| == RecordStart(k)
    && data[..COUNT_BYTES] == EncodeInt32(n)
    && forall i :: 0 <= i < k ==>
      data[RecordStart(i) .. RecordStart(i + 1)] == Record(pack, lats[i], lons[i], elevs[i])
  }

  /** Appending record `k` extends the account by one record. */
  lemma HoldsStep(data: seq<byte>, pack: real -> seq<byte>, n: int, lats: seq<real>, lons: seq<real>, elevs: seq<int>, k: nat)
    requires forall x :: |pack(x)| == 4
    requires IsInt32(n) && k < |lats| && k < |lons| && k < |elevs|
    requires Holds(data, pack, n, lats, lons, elevs, k)
    ensures Holds(data + Record(pack, lats[k], lons[k], elevs[k]), pack, n, lats, lons, elevs, k + 1)
  {
    var rec := Record(pack, lats[k], lons[k], elevs[k]);
    var next := data + rec;
    assert next[..COUNT_BYTES] == data[..COUNT_BYTES];
    forall i | 0 <= i < k + 1
      ensures next[RecordStart(i) .. RecordStart(i + 1)] == Record(pack, lats[i], lons[i], elevs[i])
    {
      if i < k {
        assert next[RecordStart(i) .. RecordStart(i + 1)] == data[RecordStart(i) .. RecordStart(i + 1)];
      } else {
        assert next[RecordStart(i) .. RecordStart(i + 1)] == rec;
      }
    }
  }

  /** `write_track(path, lats, lons, elevs)`, as the bytes written. The count
      is `len(lats)`; `struct.pack("<i", n)` refuses a count outside `int32`,
      and reading `lons[i]` or `elevs[i]` past the end of a shorter list
      raises. Otherwise the file is the count then one record per entry. */
  method WriteTrack(lats: seq<real>, lons: seq<real>, elevs: seq<int>, pack: real -> seq<byte>)
    returns (r: Result<seq<byte>>)
    requires forall x :: |pack(x)| == 4
    ensures r.Ok? <==> IsInt32(|lats|) && |lats| <= |lons| && |lats| <= |elevs|
    ensures r.Ok? ==> |r.value| == COUNT_BYTES + RECORD_BYTES * |lats|
    ensures r.Ok? ==> DecodeInt32(r.value[..COUNT_BYTES]) == |lats|
    ensures r.Ok? ==> forall i :: 0 <= i < |lats| ==>
      r.value[RecordStart(i) .. RecordStart(i + 1)] == Record(pack, lats[i], lons[i], elevs[i])
  {
    var n := |lats|;
    if !IsInt32(n) {
      return Err("struct.error: 'i' format requires -2147483648 <= number <= 2147483647");
    }
    var data := EncodeInt32(n);
    var i := 0;
    while i < n
      invariant 0 <= i <= n
      invariant i <= |lons| && i <= |elevs|
      invariant Holds(data, pack, n, lats, lons, elevs, i)
    {
      if i >= |lons| || i >= |elevs| {
        return Err("IndexError: list index out of range");
      }
      HoldsStep(data, pack, n, lats, lons, elevs, i);
      data := data + Record(pack, lats[i], lons[i], elevs[i]);
      i := i + 1;
    }
    Int32RoundTrip(n);
    r := Ok(data);
  }
}
