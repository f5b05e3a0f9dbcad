/**
 Two-bit fields packed four to a byte (`pack_classes`) and bits packed eight to a
 byte, most significant first (`pack_bits`, `bits_to_grid`).
 */
module PackedFields {

  import opened Bytes
  import opened Bits

  // ---------- two-bit fields ----------

  /** `(v >> (2 * slot)) & 3` */
  function FieldAt(v: nat, slot: nat): (f: nat)
    ensures f < 4
  {
    if slot == 0 then v % 4 else FieldAt(v / 4, slot - 1)
  }

  /** Bitwise or of two two-bit numbers. */
  function OrPair(a: nat, c: nat): nat {
    (if a % 2 == 1 || c % 2 == 1 then 1 else 0) + (if a / 2 % 2 == 1 || c / 2 % 2 == 1 then 2 else 0)
  }

  /** `v | (c << (2 * slot))` for a two-bit `c` */
  function OrAt(v: nat, c: nat, slot: nat): nat {
    if slot == 0 then OrPair(v % 4, c) + 4 * (v / 4) else v % 4 + 4 * OrAt(v / 4, c, slot - 1)
  }

  function Pow4(n: nat): (p: nat)
    ensures p >= 1
  {
    if n == 0 then 1 else 4 * Pow4(n - 1)
  }

  lemma {:induction false} OrAtFields(v: nat, c: nat, slot: nat, other: nat)
    requires c < 4
    ensures FieldAt(OrAt(v, c, slot), other)
         == if other == slot then OrPair(FieldAt(v, slot), c) else FieldAt(v, other)
  {
    var o := OrAt(v, c, slot);
    if slot == 0 {
      assert o % 4 == OrPair(v % 4, c) && o / 4 == v / 4;
    } else {
      assert o % 4 == v % 4 && o / 4 == OrAt(v / 4, c, slot - 1);
      if other > 0 { OrAtFields(v / 4, c, slot - 1, other - 1); }
    }
  }

  lemma {:induction false} OrAtStaysBelow(v: nat, c: nat, slot: nat, n: nat)
    requires v < Pow4(n) && c < 4 && slot < n
    ensures OrAt(v, c, slot) < Pow4(n)
  {
    var quarter := Pow4(n - 1);
    assert Pow4(n) == 4 * quarter;
    QuarterBelow(v, quarter);
    if slot > 0 {
      OrAtStaysBelow(v / 4, c, slot - 1, n - 1);
      QuadrupleBelow(v % 4, OrAt(v / 4, c, slot - 1), quarter);
    } else {
      QuadrupleBelow(OrPair(v % 4, c), v / 4, quarter);
    }
  }

  lemma QuarterBelow(v: nat, quarter: nat)
    requires v < 4 * quarter
    ensures v / 4 < quarter
  {
  }

  lemma QuadrupleBelow(low: nat, high: nat, quarter: nat)
    requires low < 4 && high < quarter
    ensures low + 4 * high < 4 * quarter
  {
  }

  /** The class stored for rank `i`. */
  function ClassAt(packed: seq<byte>, i: nat): (c: nat)
    requires i / 4 < |packed|
    ensures c < 4
  {
    FieldAt(packed[i / 4], i % 4)
  }

  lemma {:induction false} ZeroFields(slot: nat)
    ensures FieldAt(0, slot) == 0
  {
    if slot == 0 {
    } else {
      ZeroFields(slot - 1);
    }
  }

  /** `packed[i >> 2] |= c << ((i & 3) * 2)` */
  function WithClass(packed: seq<byte>, i: nat, c: nat): (r: seq<byte>)
    requires i / 4 < |packed| && c < 4
    ensures |r| == |packed|
  {
    assert Pow4(4) == 256;
    OrAtStaysBelow(packed[i / 4], c, i % 4, 4);
    packed[i / 4 := OrAt(packed[i / 4], c, i % 4)]
  }

  lemma WithClassStores(packed: seq<byte>, i: nat, c: nat, j: nat)
    requires i / 4 < |packed| && c < 4 && ClassAt(packed, i) == 0 && j / 4 < |packed|
    ensures ClassAt(WithClass(packed, i, c), j) == if j == i then c else ClassAt(packed, j)
  {
    OrAtFields(packed[i / 4], c, i % 4, j % 4);
    if j / 4 == i / 4 && j % 4 == i % 4 { assert j == i; }
  }

  /** `pack_classes`: every class comes back, reduced to two bits. */
  method PackClasses(classes: seq<nat>) returns (packed: seq<byte>)
    ensures |packed| == (|classes| + 3) / 4
    ensures forall i :: 0 <= i < |classes| ==> ClassAt(packed, i) == classes[i] % 4
  {
    hide ClassAt, WithClass;
    packed := Zeros((|classes| + 3) / 4);
    forall j: nat | j / 4 < |packed| ensures ClassAt(packed, j) == 0 { NoClassYet(packed, j); }
    var i := 0;
    while i < |classes|
      invariant i <= |classes| && |packed| == (|classes| + 3) / 4
      invariant forall j: nat :: j < i ==> ClassAt(packed, j) == classes[j] % 4
      invariant forall j: nat :: i <= j && j / 4 < |packed| ==> ClassAt(packed, j) == 0
    {
      ghost var before := packed;
      packed := WithClass(packed, i, classes[i] % 4);
      forall j: nat | j / 4 < |packed|
        ensures ClassAt(packed, j) == if j == i then classes[i] % 4 else ClassAt(before, j)
      {
        WithClassStores(before, i, classes[i] % 4, j);
      }
      i := i + 1;
    }
  }

  lemma NoClassYet(packed: seq<byte>, j: nat)
    requires j / 4 < |packed| && packed[j / 4] == 0
    ensures ClassAt(packed, j) == 0
  {
    ZeroFields(j % 4);
  }

  // ---------- bit rows, most significant bit first ----------

  /** `(packed[i // 8] >> (7 - i % 8)) & 1` */
  predicate PixelOn(packed: seq<byte>, i: nat)
    requires i / 8 < |packed|
  {
    Bit(packed[i / 8], 7 - i % 8)
  }

  /** The byte the inner loop of `pack_bits` has built from `bits`. */
  function ByteOf(bits: seq<bool>): nat {
    if bits == [] then 0 else 2 * ByteOf(bits[..|bits| - 1]) + (if bits[|bits| - 1] then 1 else 0)
  }

  lemma {:induction false} ByteOfBits(bits: seq<bool>, k: nat)
    requires k < |bits|
    ensures Bit(ByteOf(bits), |bits| - 1 - k) == bits[k]
    ensures ByteOf(bits) < Pow2(|bits|)
  {
    var init := bits[..|bits| - 1];
    ByteOfBelow(bits);
    assert ByteOf(bits) / 2 == ByteOf(init);
    if k == |bits| - 1 {
    } else {
      ByteOfBits(init, k);
    }
  }

  lemma {:induction false} ByteOfBelow(bits: seq<bool>)
    ensures ByteOf(bits) < Pow2(|bits|)
  {
    if bits == [] {
    } else {
      ByteOfBelow(bits[..|bits| - 1]);
    }
  }

  /** The inner loop of `pack_bits`, on a chunk of at most eight bits: the last bit ends up lowest. */
  method PackByte(chunk: seq<bool>) returns (value: byte)
    requires |chunk| <= 8
    ensures forall k :: 0 <= k < |chunk| ==> Bit(value, |chunk| - 1 - k) == chunk[k]
    ensures value < Pow2(|chunk|)
  {
    var v: nat := 0;
    var k := 0;
    while k < |chunk|
      invariant k <= |chunk| && v == ByteOf(chunk[..k])
    {
      assert chunk[..k + 1][..k] == chunk[..k];
      v := 2 * v + (if chunk[k] then 1 else 0);
      k := k + 1;
    }
    assert chunk[..|chunk|] == chunk;
    PackedByte(chunk);
    value := v;
  }

  /** How many bits `pack_bits` puts into the byte that holds bit `i`: eight, or what is left. */
  function ChunkSize(n: nat, i: nat): (size: nat)
    requires i < n
    ensures i % 8 < size <= 8
    ensures n % 8 == 0 ==> size == 8
  {
    if n - (i - i % 8) < 8 then n - (i - i % 8) else 8
  }

  /** Where `pack_bits` puts bit `i` of `n`: a shorter last chunk stands that much lower. */
  predicate PackedBit(packed: seq<byte>, n: nat, i: nat)
    requires i < n && i / 8 < |packed|
  {
    Bit(packed[i / 8], ChunkSize(n, i) - 1 - i % 8)
  }

  /** `pack_bits`: every bit is found again, those of whole bytes where a reader of pixels looks. */
  method PackBits(bits: seq<bool>) returns (packed: seq<byte>)
    ensures |packed| == (|bits| + 7) / 8
    ensures forall i :: 0 <= i < |bits| ==> PackedBit(packed, |bits|, i) == bits[i]
    ensures forall i :: 0 <= i < |bits| / 8 * 8 ==> PixelOn(packed, i) == bits[i]
    ensures |bits| % 8 != 0 ==> packed[|bits| / 8] < Pow2(|bits| % 8)
  {
    hide Bit, PixelOn, ChunkSize, PackedBit;
    packed := [];
    var off := 0;
    while off < |bits|
      invariant off == 8 * |packed| && off < |bits| + 8
      invariant forall i :: 0 <= i < off && i < |bits| ==> PackedBit(packed, |bits|, i) == bits[i]
      invariant |bits| < off ==> packed[|bits| / 8] < Pow2(|bits| % 8)
    {
      var stop := if off + 8 < |bits| then off + 8 else |bits|;
      var value := PackByte(bits[off..stop]);
      ghost var longer := packed + [value];
      forall i | 0 <= i < stop ensures PackedBit(longer, |bits|, i) == bits[i] {
        if i < off { SamePackedBit(packed, longer, |bits|, i); } else { NewPackedBit(packed, bits, stop, value, i); }
      }
      packed := packed + [value];
      off := off + 8;
    }
    forall i | 0 <= i < |bits| / 8 * 8 ensures PixelOn(packed, i) == bits[i] {
      WholeBytesArePixels(packed, |bits|, i);
    }
  }

  lemma SamePackedBit(packed: seq<byte>, longer: seq<byte>, n: nat, i: nat)
    requires i < n && i / 8 < |packed| && packed <= longer
    ensures PackedBit(longer, n, i) == PackedBit(packed, n, i)
  {
  }

  lemma NewPackedBit(packed: seq<byte>, bits: seq<bool>, stop: nat, value: byte, i: nat)
    requires 8 * |packed| <= i < stop <= |bits|
    requires stop == if 8 * |packed| + 8 < |bits| then 8 * |packed| + 8 else |bits|
    requires var chunk := bits[8 * |packed|..stop];
             forall k :: 0 <= k < |chunk| ==> Bit(value, |chunk| - 1 - k) == chunk[k]
    ensures PackedBit(packed + [value], |bits|, i) == bits[i]
  {
    var off := 8 * |packed|;
    assert i / 8 == |packed| && i % 8 == i - off;
    assert bits[off..stop][i - off] == bits[i];
  }

  lemma WholeBytesArePixels(packed: seq<byte>, n: nat, i: nat)
    requires i < n / 8 * 8 && i / 8 < |packed|
    ensures PixelOn(packed, i) == PackedBit(packed, n, i)
  {
    assert ChunkSize(n, i) == 8;
  }

  lemma PackedByte(chunk: seq<bool>)
    requires |chunk| <= 8
    ensures ByteOf(chunk) < Pow2(|chunk|) <= 256
    ensures forall k :: 0 <= k < |chunk| ==> Bit(ByteOf(chunk), |chunk| - 1 - k) == chunk[k]
  {
    PowersGrow(|chunk|, 8);
    assert Pow2(8) == 256;
    ByteOfBelow(chunk);
    forall k | 0 <= k < |chunk| ensures Bit(ByteOf(chunk), |chunk| - 1 - k) == chunk[k] { ByteOfBits(chunk, k); }
  }

  lemma {:induction false} PowersGrow(m: nat, n: nat)
    requires m <= n
    ensures Pow2(m) <= Pow2(n)
  {
    if m == n {
    } else {
      PowersGrow(m, n - 1);
    }
  }
}
