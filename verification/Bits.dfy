/** Bits of a byte: shifts, masks, `bin(x).count("1")`, and how they count. */
module Bits {

  function Pow2(n: nat): (p: nat)
    ensures p >= 1
  {
    if n == 0 then 1 else 2 * Pow2(n - 1)
  }

  /** `(v >> k) & 1` */
  predicate Bit(v: nat, k: nat) {
    if k == 0 then v % 2 == 1 else Bit(v / 2, k - 1)
  }

  /** `v | (1 << k)` */
  function SetBit(v: nat, k: nat): nat {
    if k == 0 then (if v % 2 == 1 then v else v + 1) else v % 2 + 2 * SetBit(v / 2, k - 1)
  }

  /** `v & ((1 << n) - 1)` */
  function MaskLow(v: nat, n: nat): nat {
    if n == 0 then 0 else v % 2 + 2 * MaskLow(v / 2, n - 1)
  }

  /** `bin(v).count("1")` */
  function PopCount(v: nat): nat {
    if v == 0 then 0 else v % 2 + PopCount(v / 2)
  }

  /** The number of bits set among bits 0 to n-1. */
  function CountBits(v: nat, n: nat): nat {
    if n == 0 then 0 else CountBits(v, n - 1) + (if Bit(v, n - 1) then 1 else 0)
  }

  lemma {:induction false} BitOfZero(k: nat)
    ensures !Bit(0, k)
  {
    if k == 0 {
    } else {
      BitOfZero(k - 1);
    }
  }

  lemma {:induction false} SetBitSets(v: nat, k: nat, j: nat)
    ensures Bit(SetBit(v, k), j) <==> j == k || Bit(v, j)
  {
    var s := SetBit(v, k);
    if k == 0 {
      if j > 0 { assert s / 2 == v / 2; }
    } else {
      assert s % 2 == v % 2 && s / 2 == SetBit(v / 2, k - 1);
      if j > 0 { SetBitSets(v / 2, k - 1, j - 1); }
    }
  }

  lemma HalfBelow(v: nat, half: nat)
    requires v < 2 * half
    ensures v / 2 < half
    ensures v % 2 == 0 ==> v + 1 < 2 * half
  {
  }

  lemma DoubleBelow(low: nat, high: nat, half: nat)
    requires low < 2 && high < half
    ensures low + 2 * high < 2 * half
  {
  }

  lemma {:induction false} SetBitStaysBelow(v: nat, k: nat, n: nat)
    requires v < Pow2(n) && k < n
    ensures SetBit(v, k) < Pow2(n)
  {
    var half := Pow2(n - 1);
    assert Pow2(n) == 2 * half;
    if k > 0 {
      HalfBelow(v, half);
      SetBitStaysBelow(v / 2, k - 1, n - 1);
      DoubleBelow(v % 2, SetBit(v / 2, k - 1), half);
    } else {
      HalfBelow(v, half);
    }
  }

  /** Counting from the low end instead of the high end. */
  lemma {:induction false} CountBitsFromLow(v: nat, n: nat)
    requires n > 0
    ensures CountBits(v, n) == v % 2 + CountBits(v / 2, n - 1)
  {
    if n == 1 {
    } else {
      CountBitsFromLow(v, n - 1);
      assert Bit(v, n - 1) == Bit(v / 2, n - 2);
    }
  }

  lemma {:induction false} PopCountMask(v: nat, n: nat)
    ensures PopCount(MaskLow(v, n)) == CountBits(v, n)
  {
    if n == 0 {
    } else {
      PopCountMask(v / 2, n - 1);
      CountBitsFromLow(v, n);
      var m := MaskLow(v, n);
      assert m % 2 == v % 2 && m / 2 == MaskLow(v / 2, n - 1);
    }
  }

  lemma {:induction false} PopCountWhole(v: nat, n: nat)
    requires v < Pow2(n)
    ensures PopCount(v) == CountBits(v, n)
  {
    if n == 0 {
    } else {
      PopCountWhole(v / 2, n - 1);
      CountBitsFromLow(v, n);
    }
  }
}
