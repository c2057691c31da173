/** Little-endian two's-complement integers as `struct` packs them with the
    `<h` (16-bit) and `<i` (32-bit) formats. */
module LittleEndian {

  type byte = x: int | 0 <= x < 256

  predicate IsInt16(v: int) {
    -0x8000 <= v < 0x8000
  }

  predicate IsInt32(v: int) {
    -0x8000_0000 <= v < 0x8000_0000
  }

  /** `struct.unpack("<h", ...)` of two bytes. */
  function DecodeInt16(b: seq<byte>): (v: int)
    requires |b| == 2
    ensures IsInt16(v)
    ensures v >= 0 <==> b[1] < 0x80
  {
    var u: int := b[0] as int + 0x100 * b[1] as int;
    if u >= 0x8000 then u - 0x1_0000 else u
  }

  /** `struct.pack("<h", v)`. */
  function EncodeInt16(v: int): (b: seq<byte>)
    requires IsInt16(v)
    ensures |b| == 2
  {
    var u := if v < 0 then v + 0x1_0000 else v;
    [u % 0x100, u / 0x100]
  }

  lemma Int16RoundTrip(v: int)
    requires IsInt16(v)
    ensures DecodeInt16(EncodeInt16(v)) == v
  {
  }

  lemma Int16BytesRoundTrip(b: seq<byte>)
    requires |b| == 2
    ensures EncodeInt16(DecodeInt16(b)) == b
  {
  }

  /** `struct.unpack("<i", ...)` of four bytes. */
  function DecodeInt32(b: seq<byte>): (v: int)
    requires |b| == 4
    ensures IsInt32(v)
    ensures v >= 0 <==> b[3] < 0x80
  {
    var u: int := b[0] as int + 0x100 * b[1] as int + 0x1_0000 * b[2] as int + 0x100_0000 * b[3] as int;
    if u >= 0x8000_0000 then u - 0x1_0000_0000 else u
  }

  /** `struct.pack("<i", v)`: the two's-complement value as base-256
      digits, least significant first. */
  function EncodeInt32(v: int): (b: seq<byte>)
    requires IsInt32(v)
    ensures |b| == 4
  {
    var u := if v < 0 then v + 0x1_0000_0000 else v;
    var u1 := u / 0x100;
    var u2 := u1 / 0x100;
    [u % 0x100, u1 % 0x100, u2 % 0x100, u2 / 0x100]
  }

  lemma Int32RoundTrip(v: int)
    requires IsInt32(v)
    ensures DecodeInt32(EncodeInt32(v)) == v
  {
    var u := if v < 0 then v + 0x1_0000_0000 else v;
    var u1 := u / 0x100;
    var u2 := u1 / 0x100;
    assert u == 0x100 * u1 + u % 0x100;
    assert u1 == 0x100 * u2 + u1 % 0x100;
    assert u2 == 0x100 * (u2 / 0x100) + u2 % 0x100;
    var b := EncodeInt32(v);
    assert b[0] as int + 0x100 * b[1] as int + 0x1_0000 * b[2] as int + 0x100_0000 * b[3] as int == u;
  }

  /** `struct.unpack(f"<{n}h", payload)` with `n == |b| / 2`: consecutive
      byte pairs in order. */
  function DecodeInt16s(b: seq<byte>): (vs: seq<int>)
    requires |b| % 2 == 0
    ensures |vs| == |b| / 2
    ensures forall k :: 0 <= k < |vs| ==> IsInt16(vs[k]) && vs[k] == DecodeInt16(b[2 * k .. 2 * k + 2])
  {
    if |b| == 0 then []
    else
      var rest := DecodeInt16s(b[2..]);
      PairsShift(b);
      [DecodeInt16(b[..2])] + rest
  }

  /** Pair `k` of `b[2..]` is pair `k + 1` of `b`. */
  lemma PairsShift(b: seq<byte>)
    requires |b| >= 2
    ensures forall k :: 1 <= k && 2 * k + 2 <= |b| ==> b[2 * k .. 2 * k + 2] == b[2..][2 * (k - 1) .. 2 * (k - 1) + 2]
  {
    forall k | 1 <= k && 2 * k + 2 <= |b|
      ensures b[2 * k .. 2 * k + 2] == b[2..][2 * (k - 1) .. 2 * (k - 1) + 2]
    {
      var p := b[2..][2 * (k - 1) .. 2 * (k - 1) + 2];
      assert p[0] == b[2 * k] && p[1] == b[2 * k + 1];
    }
  }

  /** The inverse: every sample packed with `<h`, in order. */
  function EncodeInt16s(vs: seq<int>): (b: seq<byte>)
    requires forall k :: 0 <= k < |vs| ==> IsInt16(vs[k])
    ensures |b| == 2 * |vs|
  {
    if |vs| == 0 then [] else EncodeInt16(vs[0]) + EncodeInt16s(vs[1..])
  }

  lemma {:induction false} Int16sRoundTrip(vs: seq<int>)
    requires forall k :: 0 <= k < |vs| ==> IsInt16(vs[k])
    ensures DecodeInt16s(EncodeInt16s(vs)) == vs
  {
    if |vs| > 0 {
      var b := EncodeInt16s(vs);
      Int16RoundTrip(vs[0]);
      assert b[..2] == EncodeInt16(vs[0]);
      assert b[2..] == EncodeInt16s(vs[1..]);
      Int16sRoundTrip(vs[1..]);
    }
  }
}
