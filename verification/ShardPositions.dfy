/**
 Which positions the unscrambling of WeRead shards swaps: the digit string behind them,
 byte by byte, and every position in closed form.
 */
module ShardPositions {

  import opened Bytes
  import opened Bits
  import opened Sequences
  import opened Shards

  /** The digits of a decimal numeral as one writes it. */
  predicate Numeral(ds: seq<nat>) {
    |ds| >= 1 && (forall d :: d in ds ==> d < 10) && (|ds| > 1 ==> ds[0] != 0)
  }

  /** Bit k of `v` stands at place 2k of `wide`, and between the bits are zeros. */
  predicate Interleaved(wide: nat, v: nat) {
    wide < Pow2(16) && forall k: nat :: k < 8 ==> (Bit(wide, 2 * k) <==> Bit(v, k)) && !Bit(wide, 2 * k + 1)
  }

  lemma {:induction false} SpreadBelow(v: nat, bits: nat)
    ensures Spread(v, bits) < Pow2(2 * bits)
  {
    if bits == 0 {
    } else {
      SpreadBelow(v / 2, bits - 1);
      assert Pow2(2 * bits) == 2 * Pow2(2 * bits - 1) == 4 * Pow2(2 * (bits - 1));
    }
  }

  lemma SpreadIsInterleaved(v: nat)
    ensures Interleaved(Spread(v, 8), v)
  {
    hide Bit, Spread;
    SpreadBelow(v, 8);
    forall k: nat | k < 8 ensures (Bit(Spread(v, 8), 2 * k) <==> Bit(v, k)) && !Bit(Spread(v, 8), 2 * k + 1) {
      SpreadInterleavesZeros(v, 8, k);
    }
  }

  lemma {:induction false} DigitsAreNumeral(n: nat)
    ensures Numeral(Digits(n))
  {
    DigitsRoundTrip(n);
    if n < 10 {
    } else {
      DigitsAreNumeral(n / 10);
    }
  }

  /** A numeral for the byte, its bits spread out. */
  ghost predicate Spells(piece: seq<nat>, v: byte) { Numeral(piece) && Interleaved(DigitsValue(piece), v) }

  lemma SpreadIsSpelt(v: byte)
    ensures Spells(Digits(Spread(v, 8)), v)
  {
    hide Digits, Spread, Numeral, Interleaved, DigitsValue;
    DigitsAreNumeral(Spread(v, 8));
    DigitsRoundTrip(Spread(v, 8));
    SpreadIsInterleaved(v);
  }

  /** The digit string is made of one numeral a byte, last byte first: the byte with its
      bits spread out. */
  lemma {:induction false} TailIsNumerals(b: seq<byte>, count: nat) returns (pieces: seq<seq<nat>>)
    requires count <= |b|
    ensures |pieces| == count && TailDigits(b, count) == Joined(pieces)
    ensures forall j :: 0 <= j < count ==> Spells(pieces[j], b[|b| - 1 - j])
  {
    hide Digits, Spread, Spells, TailDigits, Joined;
    if count == 0 {
      pieces := [];
      NoTail(b);
    } else {
      var init := TailIsNumerals(b, count - 1);
      var last := Digits(Spread(b[|b| - count], 8));
      SpreadIsSpelt(b[|b| - count]);
      OneMoreByte(b, count);
      JoinedLast(init, last);
      pieces := init + [last];
    }
  }

  lemma NoTail(b: seq<byte>)
    ensures TailDigits(b, 0) == [] && Joined<nat>([]) == []
  {
  }

  lemma OneMoreByte(b: seq<byte>, count: nat)
    requires 0 < count <= |b|
    ensures TailDigits(b, count) == TailDigits(b, count - 1) + Digits(Spread(b[|b| - count], 8))
  {
    hide Digits, Spread;
  }

  lemma JoinedLast(init: seq<seq<nat>>, last: seq<nat>)
    ensures Joined(init + [last]) == Joined(init) + last
  {
    assert (init + [last])[..|init|] == init;
  }

  /** The decimal value of the `step` digits from `at` on, reduced. */
  predicate ReadAt(p: nat, tail: seq<nat>, at: int, step: nat, modulo: nat) {
    modulo > 0 && 0 <= at && at + step <= |tail| && p == DigitsValue(tail[at..at + step]) % modulo
  }

  lemma {:induction false} PositionsFromAt(tail: seq<nat>, modulo: nat, step: nat, index: nat, rounds: nat,
                                           r: nat, o: nat)
    requires modulo > 0 && o < 2
    requires 2 * r < |PositionsFrom(tail, modulo, step, index, rounds)|
    ensures var ps := PositionsFrom(tail, modulo, step, index, rounds);
            2 * r + o < |ps| && ReadAt(ps[2 * r + o], tail, index + r * step + o, step, modulo)
    decreases rounds
  {
    hide ReadAt, PositionAt;
    StepsAhead(step, r);
    var ps := PositionsFrom(tail, modulo, step, index, rounds);
    var pair := [PositionAt(tail, modulo, step, index), PositionAt(tail, modulo, step, index + 1)];
    var rest := PositionsFrom(tail, modulo, step, index + step, rounds - 1);
    assert ps == pair + rest;
    if r == 0 {
      PositionIsRead(tail, modulo, step, index);
      PositionIsRead(tail, modulo, step, index + 1);
    } else {
      PositionsFromAt(tail, modulo, step, index + step, rounds - 1, r - 1, o);
      assert ps[2 * r + o] == rest[2 * (r - 1) + o];
    }
  }

  lemma PositionIsRead(tail: seq<nat>, modulo: nat, step: nat, index: nat)
    requires modulo > 0 && index + step <= |tail|
    ensures ReadAt(PositionAt(tail, modulo, step, index), tail, index, step, modulo)
  {
  }

  lemma StepsAhead(step: nat, r: nat)
    ensures r * step >= 0 && (r > 0 ==> r * step == step + (r - 1) * step && (r - 1) * step >= 0)
  {
  }

  lemma {:induction false} PositionsFromLength(tail: seq<nat>, modulo: nat, step: nat, index: nat, rounds: nat, r: nat)
    requires modulo > 0
    ensures 2 * r < |PositionsFrom(tail, modulo, step, index, rounds)|
       <==> r < rounds && index + r * step + step < |tail|
    decreases rounds
  {
    if rounds == 0 || index + step >= |tail| {
      StepsAhead(step, r);
    } else if r == 0 {
      StepsAhead(step, r);
    } else {
      StepsAhead(step, r);
      PositionsFromLength(tail, modulo, step, index + step, rounds - 1, r - 1);
    }
  }

  function Pow10(n: nat): (p: nat)
    ensures p >= 1
  {
    if n == 0 then 1 else 10 * Pow10(n - 1)
  }

  lemma {:induction false} DigitCount(n: nat)
    requires n > 0
    ensures Pow10(|Digits(n)| - 1) <= n < Pow10(|Digits(n)|)
  {
    if n < 10 {
      assert Pow10(1) == 10;
    } else {
      DigitCount(n / 10);
    }
  }

  /** Positions 2r and 2r + 1: the decimal values of `step` digits from digit r times `step`,
      and from the digit after it, reduced.  There are as many rounds as fit the digits, at
      most five. */
  predicate InClosedForm(ps: seq<nat>, tail: seq<nat>, step: nat, modulo: nat, r: nat) {
    && |ps| % 2 == 0
    && (2 * r < |ps| <==> r < 5 && r * step + step < |tail|)
    && (2 * r < |ps| ==>
          && ReadAt(ps[2 * r], tail, r * step, step, modulo)
          && ReadAt(ps[2 * r + 1], tail, r * step + 1, step, modulo))
  }

  /** The bytes that the digits come from: a tenth of the length, rounded up, at most four. */
  function TailSize(length: nat): (n: nat)
    ensures length >= 11 ==> n + 2 < length && 10 * n < length + 10
    ensures 11 <= length <= 40 ==> 10 * n >= length
    ensures length > 40 ==> n == 4
  {
    if length <= 20 then 2 else if length <= 30 then 3 else 4
  }

  /** Every position in closed form.  The step is the number of decimal digits of the modulus. */
  lemma PositionsInClosedForm(b: seq<byte>, r: nat)
    requires |b| >= 11
    ensures var modulo := |b| - TailSize(|b|) - 2;
            var step := |Digits(modulo)|;
            && Pow10(step - 1) <= modulo < Pow10(step)
            && InClosedForm(Positions(b), TailDigits(b, TailSize(|b|)), step, modulo, r)
  {
    hide PositionsFrom, Digits, TailDigits, ReadAt;
    var count := TailCount(|b|);
    assert count == TailSize(|b|);
    var modulo := |b| - count - 2;
    var tail, step := TailDigits(b, count), |Digits(modulo)|;
    DigitCount(modulo);
    PositionsShape(b);
    PositionsFromLength(tail, modulo, step, 0, WANTED / 2, r);
    if 2 * r < |Positions(b)| {
      PositionsFromAt(tail, modulo, step, 0, WANTED / 2, r, 0);
      PositionsFromAt(tail, modulo, step, 0, WANTED / 2, r, 1);
    }
  }

  // ---------- one string in full ----------

  const TWELVE: seq<byte> := [65, 66, 67, 68, 69, 70, 71, 72, 73, 74, 75, 76]  // "ABCDEFGHIJKL"

  lemma OneMoreBit(v: nat, bits: nat)
    ensures Spread(v, bits + 1) == v % 2 + 4 * Spread(v / 2, bits) && Spread(v, 0) == 0
  {
  }

  lemma SpreadOfTwo()
    ensures Spread(0x4C, 8) == 4176 && Spread(0x4B, 8) == 4165
  {
    hide Spread;
    OneMoreBit(0, 0);
    OneMoreBit(1, 1);
    OneMoreBit(2, 2);
    OneMoreBit(4, 3);
    OneMoreBit(9, 4);
    OneMoreBit(19, 5);
    OneMoreBit(38, 6);
    OneMoreBit(76, 7);
    OneMoreBit(18, 5);
    OneMoreBit(37, 6);
    OneMoreBit(75, 7);
  }

  lemma OneMoreDigit(n: nat)
    ensures Digits(n) == if n < 10 then [n] else Digits(n / 10) + [n % 10]
  {
  }

  lemma FourDigits(a: nat, b: nat, c: nat, d: nat)
    requires 0 < a < 10 && b < 10 && c < 10 && d < 10
    ensures Digits(1000 * a + 100 * b + 10 * c + d) == [a, b, c, d]
  {
    hide Digits;
    OneMoreDigit(1000 * a + 100 * b + 10 * c + d);
    OneMoreDigit(100 * a + 10 * b + c);
    OneMoreDigit(10 * a + b);
    OneMoreDigit(a);
    var n := 1000 * a + 100 * b + 10 * c + d;
    assert n / 10 == 100 * a + 10 * b + c && n % 10 == d;
    assert (100 * a + 10 * b + c) / 10 == 10 * a + b && (100 * a + 10 * b + c) % 10 == c;
  }

  /** The digits: 4176 for the L, 4165 for the K. */
  lemma TwelveDigits()
    ensures TailDigits(TWELVE, 2) == [4, 1, 7, 6, 4, 1, 6, 5]
  {
    hide TailDigits, Spread, Digits;
    SpreadOfTwo();
    FourDigits(4, 1, 7, 6);
    FourDigits(4, 1, 6, 5);
    NoTail(TWELVE);
    OneMoreByte(TWELVE, 1);
    OneMoreByte(TWELVE, 2);
  }

  lemma TwelvePositions()
    ensures Positions(TWELVE) == [4, 1, 1, 7, 7, 6, 6, 4, 4, 1]
  {
    hide TailDigits, PositionsFrom;
    TwelveDigits();
    var tail := [4, 1, 7, 6, 4, 1, 6, 5];
    assert |Digits(8)| == 1;
    assert Positions(TWELVE) == PositionsFrom(tail, 8, 1, 0, 5);
    NextPositions(tail, 0, 5);
    NextPositions(tail, 1, 4);
    NextPositions(tail, 2, 3);
    NextPositions(tail, 3, 2);
    NextPositions(tail, 4, 1);
  }

  lemma NextPositions(tail: seq<nat>, index: nat, rounds: nat)
    requires |tail| == 8 && index < 7 && rounds > 0 && forall k :: 0 <= k < 8 ==> tail[k] < 8
    ensures PositionsFrom(tail, 8, 1, index, rounds)
            == [tail[index], tail[index + 1]] + PositionsFrom(tail, 8, 1, index + 1, rounds - 1)
    ensures PositionsFrom(tail, 8, 1, index + 1, 0) == []
  {
    OneDigit(tail[index..index + 1]);
    OneDigit(tail[index + 1..index + 2]);
  }

  lemma OneDigit(ds: seq<nat>)
    requires |ds| == 1
    ensures DigitsValue(ds) == ds[0]
  {
    assert ds[..0] == [];
  }

  lemma LastTwoPairs(ps: seq<nat>)
    requires ps == [4, 1, 1, 7, 7, 6, 6, 4, 4, 1]
    ensures Unswap(TWELVE, ps, 5) == Unswap([65, 69, 70, 68, 71, 72, 66, 67, 73, 74, 75, 76], ps, 3)
  {
    hide Unswap;
    var b1: seq<byte> := [65, 69, 70, 68, 66, 67, 71, 72, 73, 74, 75, 76];
    LastPair(TWELVE, ps, 5, b1);
    LastPair(b1, ps, 4, [65, 69, 70, 68, 71, 72, 66, 67, 73, 74, 75, 76]);
  }

  lemma ThirdPair(ps: seq<nat>)
    requires ps == [4, 1, 1, 7, 7, 6, 6, 4, 4, 1]
    ensures Unswap([65, 69, 70, 68, 71, 72, 66, 67, 73, 74, 75, 76], ps, 3)
            == Unswap([65, 69, 70, 68, 71, 72, 73, 66, 67, 74, 75, 76], ps, 2)
  {
    hide Unswap;
    var b2: seq<byte> := [65, 69, 70, 68, 71, 72, 66, 67, 73, 74, 75, 76];
    LastPair(b2, ps, 3, [65, 69, 70, 68, 71, 72, 73, 66, 67, 74, 75, 76]);
  }

  lemma FirstTwoPairs(ps: seq<nat>)
    requires ps == [4, 1, 1, 7, 7, 6, 6, 4, 4, 1]
    ensures Unswap([65, 69, 70, 68, 71, 72, 73, 66, 67, 74, 75, 76], ps, 2)
            == [65, 71, 72, 68, 66, 67, 73, 69, 70, 74, 75, 76]
  {
    hide Unswap;
    var b3: seq<byte> := [65, 69, 70, 68, 71, 72, 73, 66, 67, 74, 75, 76];
    var b4: seq<byte> := [65, 66, 67, 68, 71, 72, 73, 69, 70, 74, 75, 76];
    LastPair(b3, ps, 2, b4);
    LastPair(b4, ps, 1, [65, 71, 72, 68, 66, 67, 73, 69, 70, 74, 75, 76]);
  }

  /** "ABCDEFGHIJKL" becomes "AGHDBCIEFJKL": digits, positions, and all ten swaps in order. */
  lemma TwelveLetters()
    ensures Unscrambled(TWELVE) == [65, 71, 72, 68, 66, 67, 73, 69, 70, 74, 75, 76]
  {
    hide Positions, Unswap;
    TwelvePositions();
    LastTwoPairs(Positions(TWELVE));
    ThirdPair(Positions(TWELVE));
    FirstTwoPairs(Positions(TWELVE));
  }

  lemma LastPair(b: seq<byte>, ps: seq<nat>, pairs: nat, next: seq<byte>)
    requires 0 < pairs && 2 * pairs <= |ps|
    requires SwapPair(b, ps[2 * pairs - 1], ps[2 * pairs - 2]) == next
    ensures Unswap(b, ps, pairs) == Unswap(next, ps, pairs - 1)
    ensures Unswap(next, ps, 0) == next
  {
    hide SwapPair;
  }
}
