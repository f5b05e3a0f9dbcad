/**
 Unscrambling of WeRead shards (firmware/scripts/weread_live_probe.py).

 The positions to swap are computed from the very bytes being swapped.  The
 results below show why that is harmless: positions come from the last few bytes
 only, no swap ever reaches those bytes, and so the same swaps in the opposite
 order are a two-sided inverse.
 */
module Shards {

  import opened Bytes
  import opened Bits

  const WANTED: nat := 10  // positions at most

  // ---------- what `swap_positions` computes ----------

  /** Moves bit k of `v` to bit 2k, for the `bits` lowest bits. */
  function Spread(v: nat, bits: nat): nat {
    if bits == 0 then 0 else v % 2 + 4 * Spread(v / 2, bits - 1)
  }

  /** Decimal digits of `n`, most significant first: Python's `str(n)`. */
  function Digits(n: nat): (ds: seq<nat>)
    ensures |ds| >= 1
    ensures forall d :: d in ds ==> d < 10
  {
    if n < 10 then [n] else Digits(n / 10) + [n % 10]
  }

  /** Python's `int(ds)` on a string of decimal digits. */
  function DigitsValue(ds: seq<nat>): nat {
    if ds == [] then 0 else 10 * DigitsValue(ds[..|ds| - 1]) + ds[|ds| - 1]
  }

  /** The digit string built from the last `count` bytes, last byte first. */
  function TailDigits(b: seq<byte>, count: nat): seq<nat>
    requires count <= |b|
  {
    if count == 0 then []
    else TailDigits(b, count - 1) + Digits(Spread(b[|b| - count], 8))
  }

  function TailCount(length: nat): nat {
    if (length + 9) / 10 < 4 then (length + 9) / 10 else 4
  }

  /** One position: the `step` digits at `index`, reduced below `modulo`. */
  function PositionAt(tail: seq<nat>, modulo: nat, step: nat, index: nat): (p: nat)
    requires modulo > 0 && index + step <= |tail|
    ensures p < modulo
  {
    DigitsValue(tail[index..index + step]) % modulo
  }

  /** The position loop, from `index` on, with at most `rounds` rounds to go. */
  function PositionsFrom(tail: seq<nat>, modulo: nat, step: nat, index: nat, rounds: nat): (ps: seq<nat>)
    requires modulo > 0
    decreases rounds
  {
    if rounds == 0 || index + step >= |tail| then []
    else
      [PositionAt(tail, modulo, step, index), PositionAt(tail, modulo, step, index + 1)]
      + PositionsFrom(tail, modulo, step, index + step, rounds - 1)
  }

  /** The swap positions of a byte string. */
  function Positions(b: seq<byte>): seq<nat> {
    if |b| < 4 then []
    else if |b| < 11 then [0, 2]
    else
      var count := TailCount(|b|);
      var modulo := |b| - count - 2;
      PositionsFrom(TailDigits(b, count), modulo, |Digits(modulo)|, 0, WANTED / 2)
  }

  /** Spreading leaves a gap after every bit: even bits carry the value, odd bits are zero. */
  lemma {:induction false} SpreadInterleavesZeros(v: nat, bits: nat, k: nat)
    requires k < bits
    ensures Bit(Spread(v, bits), 2 * k) <==> Bit(v, k)
    ensures !Bit(Spread(v, bits), 2 * k + 1)
  {
    var s := Spread(v, bits);
    assert s % 2 == v % 2 && s / 2 == 2 * Spread(v / 2, bits - 1);
    if k == 0 {
      assert Bit(s, 1) == Bit(s / 2, 0);
    } else {
      SpreadInterleavesZeros(v / 2, bits - 1, k - 1);
      assert Bit(s, 2 * k) == Bit(s / 2, 2 * k - 1) == Bit(s / 2 / 2, 2 * k - 2);
      assert Bit(s, 2 * k + 1) == Bit(s / 2, 2 * k) == Bit(s / 2 / 2, 2 * k - 1);
    }
  }

  /** Reading a number's decimal digits back gives the number, and there is no leading zero. */
  lemma {:induction false} DigitsRoundTrip(n: nat)
    ensures DigitsValue(Digits(n)) == n
    ensures n > 0 ==> Digits(n)[0] != 0
  {
    if n < 10 {
      assert Digits(n)[..0] == [];
    } else {
      DigitsRoundTrip(n / 10);
      assert Digits(n)[..|Digits(n)| - 1] == Digits(n / 10);
    }
  }

  // ---------- shape of the positions ----------

  predicate Below(ps: seq<nat>, limit: int) {
    forall i :: 0 <= i < |ps| ==> ps[i] < limit
  }

  lemma PairThenBelow(pair: seq<nat>, rest: seq<nat>, limit: int)
    requires |pair| == 2 && Below(pair, limit) && Below(rest, limit) && |rest| % 2 == 0
    ensures Below(pair + rest, limit) && |pair + rest| % 2 == 0
  {
  }

  lemma {:induction false} PositionsFromShape(tail: seq<nat>, modulo: nat, step: nat, index: nat, rounds: nat)
    requires modulo > 0
    ensures var ps := PositionsFrom(tail, modulo, step, index, rounds);
            |ps| % 2 == 0 && |ps| <= 2 * rounds && Below(ps, modulo)
    decreases rounds
  {
    if rounds == 0 || index + step >= |tail| {
    } else {
      PositionsFromShape(tail, modulo, step, index + step, rounds - 1);
      var rest := PositionsFrom(tail, modulo, step, index + step, rounds - 1);
      var pair := [PositionAt(tail, modulo, step, index), PositionAt(tail, modulo, step, index + 1)];
      assert PositionsFrom(tail, modulo, step, index, rounds) == pair + rest;
      PairThenBelow(pair, rest, modulo);
    }
  }

  /** Positions come in pairs, at most five of them.  Both bytes a position
      names (offset 0 and 1) exist; from eleven bytes on they also lie strictly
      before the bytes the positions were computed from. */
  lemma PositionsShape(b: seq<byte>)
    ensures |Positions(b)| % 2 == 0 && |Positions(b)| <= WANTED
    ensures Below(Positions(b), |b| - 1)
    ensures |b| >= 11 ==> Below(Positions(b), |b| - TailCount(|b|) - 1)
  {
    if |b| >= 11 {
      hide PositionsFrom, TailDigits, Digits;
      var count := TailCount(|b|);
      var modulo := |b| - count - 2;
      PositionsFromShape(TailDigits(b, count), modulo, |Digits(modulo)|, 0, WANTED / 2);
    }
  }

  lemma {:induction false} TailDigitsAgree(a: seq<byte>, b: seq<byte>, count: nat)
    requires count <= |a| == |b|
    requires a[|a| - count..] == b[|b| - count..]
    ensures TailDigits(a, count) == TailDigits(b, count)
  {
    if count == 0 {
    } else {
      assert a[|a| - (count - 1)..] == a[|a| - count..][1..];
      assert b[|b| - (count - 1)..] == b[|b| - count..][1..];
      TailDigitsAgree(a, b, count - 1);
      assert a[|a| - count] == a[|a| - count..][0];
      assert b[|b| - count] == b[|b| - count..][0];
    }
  }

  /** The positions depend on the length and on the last `TailCount` bytes, and on nothing else. */
  lemma PositionsDependOnTailOnly(a: seq<byte>, b: seq<byte>)
    requires |a| == |b|
    requires a[|a| - TailCount(|a|)..] == b[|b| - TailCount(|b|)..]
    ensures Positions(a) == Positions(b)
  {
    hide PositionsFrom, TailDigits, Digits;
    if |a| >= 11 {
      TailDigitsAgree(a, b, TailCount(|a|));
    }
  }

  lemma ShortPositions(a: seq<byte>, b: seq<byte>)
    requires |a| == |b| < 11
    ensures Positions(a) == Positions(b)
  {
    hide PositionsFrom, TailDigits, Digits;
  }

  // ---------- the swaps ----------

  /** One guarded swap of the source. */
  function SwapAt(b: seq<byte>, left: nat, right: nat): (r: seq<byte>)
    ensures |r| == |b|
  {
    if left < |b| && right < |b| then b[left := b[right]][right := b[left]] else b
  }

  /** The swaps of one pair of positions: offset 1 first, then offset 0. */
  function SwapPair(b: seq<byte>, left: nat, right: nat): (r: seq<byte>)
    ensures |r| == |b|
  {
    SwapAt(SwapAt(b, left + 1, right + 1), left, right)
  }

  /** The same two swaps in the opposite order. */
  function UnswapPair(b: seq<byte>, left: nat, right: nat): (r: seq<byte>)
    ensures |r| == |b|
  {
    SwapAt(SwapAt(b, left, right), left + 1, right + 1)
  }

  /** The swap loop of `decode_shards` over the first `pairs` pairs, last pair first. */
  function Unswap(b: seq<byte>, ps: seq<nat>, pairs: nat): (r: seq<byte>)
    requires 2 * pairs <= |ps|
    ensures |r| == |b|
    decreases pairs
  {
    if pairs == 0 then b
    else Unswap(SwapPair(b, ps[2 * pairs - 1], ps[2 * pairs - 2]), ps, pairs - 1)
  }

  /** The opposite walk: first pair first, each pair undone. */
  function Swap(b: seq<byte>, ps: seq<nat>, pairs: nat): (r: seq<byte>)
    requires 2 * pairs <= |ps|
    ensures |r| == |b|
    decreases pairs
  {
    if pairs == 0 then b
    else UnswapPair(Swap(b, ps, pairs - 1), ps[2 * pairs - 1], ps[2 * pairs - 2])
  }

  function Unscrambled(b: seq<byte>): (r: seq<byte>)
    ensures |r| == |b|
  {
    Unswap(b, Positions(b), |Positions(b)| / 2)
  }

  function Scrambled(b: seq<byte>): (r: seq<byte>)
    ensures |r| == |b|
  {
    Swap(b, Positions(b), |Positions(b)| / 2)
  }

  lemma SwapAtInvolution(b: seq<byte>, left: nat, right: nat)
    ensures SwapAt(SwapAt(b, left, right), left, right) == b
  {
  }

  lemma SwapPairInverse(b: seq<byte>, left: nat, right: nat)
    ensures SwapPair(UnswapPair(b, left, right), left, right) == b
    ensures UnswapPair(SwapPair(b, left, right), left, right) == b
  {
    SwapAtInvolution(SwapAt(b, left, right), left + 1, right + 1);
    SwapAtInvolution(b, left, right);
    SwapAtInvolution(SwapAt(b, left + 1, right + 1), left, right);
    SwapAtInvolution(b, left + 1, right + 1);
  }

  lemma {:induction false} UnswapSwap(b: seq<byte>, ps: seq<nat>, pairs: nat)
    requires 2 * pairs <= |ps|
    ensures Unswap(Swap(b, ps, pairs), ps, pairs) == b
    decreases pairs
  {
    hide SwapPair, UnswapPair;
    if pairs == 0 {
    } else {
      SwapPairInverse(Swap(b, ps, pairs - 1), ps[2 * pairs - 1], ps[2 * pairs - 2]);
      UnswapSwap(b, ps, pairs - 1);
    }
  }

  lemma {:induction false} SwapUnswap(b: seq<byte>, ps: seq<nat>, pairs: nat)
    requires 2 * pairs <= |ps|
    ensures Swap(Unswap(b, ps, pairs), ps, pairs) == b
    decreases pairs
  {
    hide SwapPair, UnswapPair;
    if pairs == 0 {
    } else {
      var c := SwapPair(b, ps[2 * pairs - 1], ps[2 * pairs - 2]);
      SwapUnswap(c, ps, pairs - 1);
      SwapPairInverse(b, ps[2 * pairs - 1], ps[2 * pairs - 2]);
    }
  }

  lemma SwapPairKeepsTail(b: seq<byte>, left: nat, right: nat, limit: nat)
    requires limit <= |b| && left + 1 < limit && right + 1 < limit
    ensures SwapPair(b, left, right)[limit..] == b[limit..]
    ensures UnswapPair(b, left, right)[limit..] == b[limit..]
  {
  }

  /** Bytes at or after `limit` survive when every swapped byte lies before it. */
  lemma {:induction false} UnswapKeepsTail(b: seq<byte>, ps: seq<nat>, pairs: nat, limit: nat)
    requires 2 * pairs <= |ps| && limit <= |b|
    requires Below(ps, limit - 1)
    ensures Unswap(b, ps, pairs)[limit..] == b[limit..]
    decreases pairs
  {
    hide SwapPair, UnswapPair;
    if pairs == 0 {
    } else {
      SwapPairKeepsTail(b, ps[2 * pairs - 1], ps[2 * pairs - 2], limit);
      UnswapKeepsTail(SwapPair(b, ps[2 * pairs - 1], ps[2 * pairs - 2]), ps, pairs - 1, limit);
    }
  }

  lemma {:induction false} SwapKeepsTail(b: seq<byte>, ps: seq<nat>, pairs: nat, limit: nat)
    requires 2 * pairs <= |ps| && limit <= |b|
    requires Below(ps, limit - 1)
    ensures Swap(b, ps, pairs)[limit..] == b[limit..]
    decreases pairs
  {
    hide SwapPair, UnswapPair;
    if pairs == 0 {
    } else {
      SwapKeepsTail(b, ps, pairs - 1, limit);
      SwapPairKeepsTail(Swap(b, ps, pairs - 1), ps[2 * pairs - 1], ps[2 * pairs - 2], limit);
    }
  }

  lemma SwapAtPermutes(b: seq<byte>, left: nat, right: nat)
    ensures multiset(SwapAt(b, left, right)) == multiset(b)
  {
  }

  lemma SwapPairPermutes(b: seq<byte>, left: nat, right: nat)
    ensures multiset(SwapPair(b, left, right)) == multiset(b)
  {
    hide SwapAt;
    SwapAtPermutes(b, left + 1, right + 1);
    SwapAtPermutes(SwapAt(b, left + 1, right + 1), left, right);
  }

  lemma {:induction false} UnswapPermutes(b: seq<byte>, ps: seq<nat>, pairs: nat)
    requires 2 * pairs <= |ps|
    ensures multiset(Unswap(b, ps, pairs)) == multiset(b)
    decreases pairs
  {
    hide SwapPair, UnswapPair;
    if pairs == 0 {
    } else {
      SwapPairPermutes(b, ps[2 * pairs - 1], ps[2 * pairs - 2]);
      UnswapPermutes(SwapPair(b, ps[2 * pairs - 1], ps[2 * pairs - 2]), ps, pairs - 1);
    }
  }

  /** Four to ten bytes exchange 1 with 3 and 0 with 2; fewer stay. */
  lemma ShortUnscrambled(b: seq<byte>)
    requires |b| < 11
    ensures Unscrambled(b) == if |b| < 4 then b else [b[2], b[3], b[0], b[1]] + b[4..]
  {
    if |b| >= 4 {
      assert Positions(b) == [0, 2];
      assert Unscrambled(b) == SwapPair(b, 2, 0);
    }
  }

  /** No swap touches the bytes the positions came from. */
  lemma SwapsKeepTail(b: seq<byte>)
    requires |b| >= 11
    ensures Unscrambled(b)[|b| - TailCount(|b|)..] == b[|b| - TailCount(|b|)..]
    ensures Scrambled(b)[|b| - TailCount(|b|)..] == b[|b| - TailCount(|b|)..]
  {
    hide Positions;
    PositionsShape(b);
    var ps := Positions(b);
    UnswapKeepsTail(b, ps, |ps| / 2, |b| - TailCount(|b|));
    SwapKeepsTail(b, ps, |ps| / 2, |b| - TailCount(|b|));
  }

  /** Positions recomputed after the swaps, in either direction, are the positions used for them. */
  lemma PositionsSurviveSwaps(b: seq<byte>)
    ensures Positions(Unscrambled(b)) == Positions(b)
    ensures Positions(Scrambled(b)) == Positions(b)
  {
    hide Positions, Unscrambled, Scrambled;
    if |b| >= 11 {
      SwapsKeepTail(b);
      PositionsDependOnTailOnly(Unscrambled(b), b);
      PositionsDependOnTailOnly(Scrambled(b), b);
    } else {
      ShortPositions(Unscrambled(b), b);
      ShortPositions(Scrambled(b), b);
    }
  }

  /** Unscrambling is a bijection on byte strings: `Scrambled` is its two-sided inverse. */
  lemma UnscrambleIsBijection(b: seq<byte>)
    ensures Unscrambled(Scrambled(b)) == b
    ensures Scrambled(Unscrambled(b)) == b
  {
    hide Positions, Swap, Unswap;
    var ps := Positions(b);
    PositionsShape(b);
    PositionsSurviveSwaps(b);
    UnswapSwap(b, ps, |ps| / 2);
    SwapUnswap(b, ps, |ps| / 2);
  }

  lemma UnscrambleIsInjective(a: seq<byte>, b: seq<byte>)
    requires Unscrambled(a) == Unscrambled(b)
    ensures a == b
  {
    UnscrambleIsBijection(a);
    UnscrambleIsBijection(b);
  }

  /** Unscrambling only moves bytes: nothing is lost, invented or changed. */
  lemma UnscramblePermutes(b: seq<byte>)
    ensures multiset(Unscrambled(b)) == multiset(b)
  {
    PositionsShape(b);
    UnswapPermutes(b, Positions(b), |Positions(b)| / 2);
  }

  /** The guard of the swap and the `modulo <= 0` exit are never taken: every position is
      in range whatever the bytes are. */
  lemma GuardsNeverFire(b: seq<byte>, k: nat)
    requires k < |Positions(b)|
    ensures Positions(b)[k] < |b| && Positions(b)[k] + 1 < |b|
    ensures |b| >= 11 ==> |b| - TailCount(|b|) - 2 > 0
  {
    PositionsShape(b);
  }

  // ---------- the program ----------

  method BuildTail(encoded: seq<byte>, count: nat) returns (tail: seq<nat>)
    requires count <= |encoded|
    ensures tail == TailDigits(encoded, count)
  {
    tail := [];
    var taken := 0;
    while taken < count
      invariant taken <= count
      invariant tail == TailDigits(encoded, taken)
    {
      taken := taken + 1;
      tail := tail + Digits(Spread(encoded[|encoded| - taken], 8));
    }
  }

  lemma OneMoreRound(done: seq<nat>, tail: seq<nat>, modulo: nat, step: nat, index: nat, rounds: nat)
    requires modulo > 0 && rounds > 0 && index + step < |tail|
    ensures done + PositionsFrom(tail, modulo, step, index, rounds)
         == done + [PositionAt(tail, modulo, step, index)] + [PositionAt(tail, modulo, step, index + 1)]
          + PositionsFrom(tail, modulo, step, index + step, rounds - 1)
  {
  }

  /** The position loop of the source, which wants `wanted` = 10 positions. */
  method CollectPositions(tail: seq<nat>, modulo: nat, step: nat, wanted: nat) returns (positions: seq<nat>)
    requires modulo > 0 && wanted % 2 == 0
    ensures positions == PositionsFrom(tail, modulo, step, 0, wanted / 2)
  {
    hide PositionAt;
    positions := [];
    var index: nat := 0;
    ghost var rounds: nat := 0;
    while |positions| < wanted && index + step < |tail|
      invariant |positions| == 2 * rounds && rounds <= wanted / 2
      invariant positions + PositionsFrom(tail, modulo, step, index, wanted / 2 - rounds)
             == PositionsFrom(tail, modulo, step, 0, wanted / 2)
      decreases wanted - |positions|
    {
      var first := PositionAt(tail, modulo, step, index);
      var second := PositionAt(tail, modulo, step, index + 1);
      OneMoreRound(positions, tail, modulo, step, index, wanted / 2 - rounds);
      positions := positions + [first];
      positions := positions + [second];
      index := index + step;
      rounds := rounds + 1;
    }
    assert positions + [] == positions;
  }

  method SwapPositions(encoded: seq<byte>) returns (positions: seq<nat>)
    ensures positions == Positions(encoded)
  {
    hide PositionsFrom, TailDigits, Digits;
    var length := |encoded|;
    if length < 4 { return []; }
    if length < 11 { return [0, 2]; }
    var count := if 4 <= (length + 9) / 10 then 4 else (length + 9) / 10;
    var tail := BuildTail(encoded, count);
    var modulo := length - count - 2;
    if modulo <= 0 { return []; }
    positions := CollectPositions(tail, modulo, |Digits(modulo)|, WANTED);
  }

  /** The inner loop of `decode_shards`, over the offsets 1 and 0. */
  method SwapPairInPlace(encoded: array<byte>, p: nat, q: nat)
    modifies encoded
    ensures encoded[..] == SwapPair(old(encoded[..]), p, q)
  {
    var offset := 1;
    while offset >= 0
      invariant -1 <= offset <= 1
      invariant offset == 1 ==> encoded[..] == old(encoded[..])
      invariant offset == 0 ==> encoded[..] == SwapAt(old(encoded[..]), p + 1, q + 1)
      invariant offset == -1 ==> encoded[..] == SwapPair(old(encoded[..]), p, q)
    {
      var left, right := p + offset, q + offset;
      ghost var before := encoded[..];
      if left < encoded.Length && right < encoded.Length {
        encoded[left], encoded[right] := encoded[right], encoded[left];
      }
      assert encoded[..] == SwapAt(before, left, right);
      offset := offset - 1;
    }
  }

  /** The outer loop of `decode_shards`: pairs from the last to the first. */
  method UnswapInPlace(encoded: array<byte>, positions: seq<nat>, ghost total: nat)
    requires |positions| == 2 * total
    modifies encoded
    ensures encoded[..] == Unswap(old(encoded[..]), positions, total)
  {
    hide SwapAt;
    ghost var pairs: nat := total;
    ghost var goal := Unswap(encoded[..], positions, total);
    var index := |positions| - 1;
    while index > 0
      invariant 2 * pairs <= |positions| && index == 2 * pairs - 1
      invariant Unswap(encoded[..], positions, pairs) == goal
      decreases index
    {
      SwapPairInPlace(encoded, positions[index], positions[index - 1]);
      pairs := pairs - 1;
      index := index - 2;
    }
  }

  /** Positions first, then the swaps they name, in place. */
  method UnscrambleInPlace(encoded: array<byte>)
    modifies encoded
    ensures encoded[..] == Unscrambled(old(encoded[..]))
  {
    ghost var b := encoded[..];
    var positions := SwapPositions(encoded[..]);
    PositionsShape(b);
    UnswapInPlace(encoded, positions, |positions| / 2);
  }
}
