/**
 Length-prefixed strings, the 32-bit length first, as written by both
 firmware/lib/Serialization/Serialization.h and firmware/src/WifiCredentialStore.cpp.
 */
module LengthPrefixed {

  import opened Bytes

  /** A C++ string of the firmware: its length fits the 32-bit `size_t`. */
  type Str = s: seq<byte> | |s| < U32_LIMIT witness []

  /** The longest string any reader takes. */
  const MAX_STRING := 4096

  function StringBytes(s: Str): (r: seq<byte>)
    ensures |r| == 4 + |s|
  {
    U32(|s|) + s
  }

  /** What stands at a position: nothing complete, a refused length, or a string. */
  datatype Field = Cut | TooLong(next: nat) | Found(s: Str, next: nat)

  function FieldAt(bytes: seq<byte>, pos: nat): (r: Field)
    ensures !r.Cut? ==> pos < r.next <= |bytes|
  {
    if pos + 4 > |bytes| then Cut
    else
      var n := ReadU32(bytes, pos);
      if n > MAX_STRING then TooLong(pos + 4)
      else if pos + 4 + n > |bytes| then Cut
      else Found(bytes[pos + 4..pos + 4 + n], pos + 4 + n)
  }

  /** A written string is read back where it stands, unless it is too long for the readers. */
  lemma FieldReadsBack(bytes: seq<byte>, pos: nat, s: Str)
    requires HoldsAt(bytes, pos, StringBytes(s))
    ensures FieldAt(bytes, pos) == if |s| <= 4096 then Found(s, pos + 4 + |s|) else TooLong(pos + 4)
  {
    HoldsBoth(bytes, pos, U32(|s|), s);
    U32ReadsBack(bytes, pos, |s|);
  }
}
