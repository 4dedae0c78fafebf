/** The 8-byte container header: width then height, each a `u32` written with `to_ne_bytes`
    and read back with `from_ne_bytes`.

    Native byte order cannot be expressed here; this model fixes it as LITTLE-ENDIAN (least
    significant byte first), as on little-endian hosts such as x86-64. Both directions use the same
    order, so every property below holds for any one fixed order. */
module Header {
  import opened Common

  /** `u32::to_ne_bytes`. Reading the four bytes back gives the value. */
  function U32ToBytes(v: u32): (b: seq<byte>)
    ensures |b| == 4
    ensures BytesToU32(b) == v
  {
    U32ToBytesInverse(v);
    [v % 0x100, v / 0x100 % 0x100, v / 0x1_0000 % 0x100, v / 0x100_0000]
  }

  lemma U32ToBytesInverse(v: u32)
    ensures var b: seq<int> := [v % 0x100, v / 0x100 % 0x100, v / 0x1_0000 % 0x100, v / 0x100_0000];
      b[0] + 0x100 * b[1] + 0x1_0000 * b[2] + 0x100_0000 * b[3] == v
  {
    var q1 := v / 0x100;
    var q2 := q1 / 0x100;
    var q3 := q2 / 0x100;
    assert v == q1 * 0x100 + v % 0x100;
    assert q1 == q2 * 0x100 + q1 % 0x100;
    assert q2 == q3 * 0x100 + q2 % 0x100;
    assert q2 == v / 0x1_0000;
    assert q3 == v / 0x100_0000;
  }

  /** `u32::from_ne_bytes`: byte `k` of the result, least significant first, is `b[k]`. */
  function BytesToU32(b: seq<byte>): (v: u32)
    requires |b| == 4
    ensures v % 0x100 == b[0] && v / 0x100 % 0x100 == b[1]
    ensures v / 0x1_0000 % 0x100 == b[2] && v / 0x100_0000 == b[3]
  {
    var b0, b1, b2, b3: int := b[0], b[1], b[2], b[3];
    LittleEndianDigits(b0, b1, b2, b3);
    b0 + 0x100 * b1 + 0x1_0000 * b2 + 0x100_0000 * b3
  }

  lemma LittleEndianDigits(b0: int, b1: int, b2: int, b3: int)
    requires 0 <= b0 < 0x100 && 0 <= b1 < 0x100 && 0 <= b2 < 0x100 && 0 <= b3 < 0x100
    ensures var v := b0 + 0x100 * b1 + 0x1_0000 * b2 + 0x100_0000 * b3;
      && 0 <= v < 0x1_0000_0000
      && v % 0x100 == b0 && v / 0x100 % 0x100 == b1
      && v / 0x1_0000 % 0x100 == b2 && v / 0x100_0000 == b3
  {
    var v := b0 + 0x100 * b1 + 0x1_0000 * b2 + 0x100_0000 * b3;
    var low := b0 + 0x100 * b1 + 0x1_0000 * b2;
    assert v == low + 0x100_0000 * b3;
    assert low < 0x100_0000;
    assert v / 0x100_0000 == b3;
    assert v % 0x100 == b0;
    assert v / 0x100 == b1 + 0x100 * b2 + 0x1_0000 * b3;
    assert v / 0x1_0000 == b2 + 0x100 * b3;
  }

  /** The other direction of the bijection: four bytes read as a `u32` and written back
      give the same four bytes. */
  lemma BytesToU32Inverse(b: seq<byte>)
    requires |b| == 4
    ensures U32ToBytes(BytesToU32(b)) == b
  {
    var v := BytesToU32(b);
    assert U32ToBytes(v) == [v % 0x100, v / 0x100 % 0x100, v / 0x1_0000 % 0x100, v / 0x100_0000];
  }

  /** `vec_to_u32_ne`: copies the slice into a fresh `[0u8; 4]` buffer with `copy_from_slice`,
      then reinterprets the buffer with `from_ne_bytes`. `copy_from_slice` panics unless the
      slice has exactly four bytes; both callers pass a 4-byte slice. */
  method VecToU32(bytes: seq<byte>) returns (v: u32)
    requires |bytes| == 4
    ensures v == BytesToU32(bytes)
    ensures U32ToBytes(v) == bytes
  {
    var result := new byte[4](_ => 0);
    for i := 0 to 4
      invariant result[..i] == bytes[..i]
    {
      result[i] := bytes[i];
    }
    assert result[..] == bytes;
    v := BytesToU32(result[..]);
    BytesToU32Inverse(bytes);
  }

  /** The header as `png_to_rust_riff` writes it, width bytes then height bytes: exactly
      8 bytes, of which bytes 0..4 read back as the width and bytes 4..8 as the height, each
      independently of the other. */
  function EncodeHeader(width: u32, height: u32): (hdr: seq<byte>)
    ensures |hdr| == 8
    ensures BytesToU32(hdr[0..4]) == width
    ensures BytesToU32(hdr[4..8]) == height
  {
    var hdr := U32ToBytes(width) + U32ToBytes(height);
    assert hdr[0..4] == U32ToBytes(width);
    assert hdr[4..8] == U32ToBytes(height);
    hdr
  }
}
