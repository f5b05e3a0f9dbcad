/**
 Byte strings and the little-endian integers that every file format of the
 firmware is made of (Python's `struct.pack("<H")`, `struct.pack("<I")`, and the
 C++ `memcpy` of a 32-bit length on the ESP32-S3).
 */
module Bytes {

  type byte = x: int | 0 <= x < 256

  const U16_LIMIT := 0x1_0000
  const U32_LIMIT := 0x1_0000_0000

  type u16 = v: int | 0 <= v < U16_LIMIT

  type u32 = v: int | 0 <= v < U32_LIMIT

  function U16(v: int): (s: seq<byte>)
    requires 0 <= v < U16_LIMIT
    ensures |s| == 2
  {
    [v % 256, v / 256]
  }

  function U32(v: int): (s: seq<byte>)
    requires 0 <= v < U32_LIMIT
    ensures |s| == 4
  {
    U16(v % U16_LIMIT) + U16(v / U16_LIMIT)
  }

  function ReadU16(s: seq<byte>, off: nat): (v: int)
    requires off + 2 <= |s|
    ensures 0 <= v < U16_LIMIT
  {
    (s[off] as int) + 256 * (s[off + 1] as int)
  }

  function ReadU32(s: seq<byte>, off: nat): (v: int)
    requires off + 4 <= |s|
    ensures 0 <= v < U32_LIMIT
  {
    ReadU16(s, off) + U16_LIMIT * ReadU16(s, off + 2)
  }

  /** The low byte comes first. */
  lemma LittleEndian(v: int)
    requires 0 <= v < U32_LIMIT
    ensures v < U16_LIMIT ==> v == (U16(v)[0] as int) + 0x100 * (U16(v)[1] as int)
    ensures var s := U32(v);
            v == (s[0] as int) + 0x100 * (s[1] as int) + 0x1_0000 * (s[2] as int) + 0x100_0000 * (s[3] as int)
  {
  }

  function Zeros(n: nat): (s: seq<byte>)
    ensures |s| == n
    ensures forall i :: 0 <= i < n ==> s[i] == 0
  {
    seq(n, _ => 0)
  }

  /** Rounding up to a multiple of four. */
  function AlignUp(v: nat): (r: nat)
    ensures v <= r < v + 4 && r % 4 == 0
  {
    (v + 3) / 4 * 4
  }

  /** The zeros that bring a length to a multiple of four. */
  function PadToFour(n: nat): (r: nat)
    ensures r < 4 && (n + r) % 4 == 0
  {
    (4 - n % 4) % 4
  }

  /** Little-endian integers read back wherever they are found in a byte string. */
  lemma U16ReadsBack(s: seq<byte>, off: nat, v: int)
    requires 0 <= v < U16_LIMIT
    requires off + 2 <= |s|
    requires s[off..off + 2] == U16(v)
    ensures ReadU16(s, off) == v
  {
    assert s[off] == s[off..off + 2][0];
    assert s[off + 1] == s[off..off + 2][1];
  }

  lemma U32ReadsBack(s: seq<byte>, off: nat, v: int)
    requires 0 <= v < U32_LIMIT
    requires off + 4 <= |s|
    requires s[off..off + 4] == U32(v)
    ensures ReadU32(s, off) == v
  {
    assert s[off..off + 2] == s[off..off + 4][..2] == U16(v % U16_LIMIT);
    assert s[off + 2..off + 4] == s[off..off + 4][2..] == U16(v / U16_LIMIT);
    U16ReadsBack(s, off, v % U16_LIMIT);
    U16ReadsBack(s, off + 2, v / U16_LIMIT);
  }

  /** `buf[off:off+len(data)] = data` on a Python bytearray, in range. */
  function Splice(buf: seq<byte>, off: nat, data: seq<byte>): (r: seq<byte>)
    requires off + |data| <= |buf|
    ensures |r| == |buf|
    ensures r[off..off + |data|] == data
    ensures r[..off] == buf[..off]
    ensures r[off + |data|..] == buf[off + |data|..]
  {
    buf[..off] + data + buf[off + |data|..]
  }

  lemma SliceOfSlice<T>(s: seq<T>, a: nat, n: nat, i: nat, j: nat)
    requires i <= j <= n && a + n <= |s|
    ensures s[a..a + n][i..j] == s[a + i..a + j]
  {
    var whole, left, right := s[a..a + n], s[a..a + n][i..j], s[a + i..a + j];
    forall k | 0 <= k < j - i ensures left[k] == right[k] {
      assert left[k] == whole[i + k];
    }
  }

  ghost predicate HoldsAt(bytes: seq<byte>, pos: nat, chunk: seq<byte>) {
    pos + |chunk| <= |bytes| && bytes[pos..pos + |chunk|] == chunk
  }

  lemma HoldsBoth(bytes: seq<byte>, pos: nat, a: seq<byte>, b: seq<byte>)
    requires HoldsAt(bytes, pos, a + b)
    ensures HoldsAt(bytes, pos, a) && HoldsAt(bytes, pos + |a|, b)
  {
    SliceOfSlice(bytes, pos, |a + b|, 0, |a|);
    SliceOfSlice(bytes, pos, |a + b|, |a|, |a + b|);
    assert (a + b)[..|a|] == a && (a + b)[|a|..] == b;
  }
}
