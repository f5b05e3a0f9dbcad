/**
 The contents of wifi.bin: XOR-obfuscated passwords and the version-1 file layout of
 firmware/src/WifiCredentialStore.cpp.
 */
module WifiCodec {

  import opened Wrappers
  import opened Bytes
  import opened Bits
  import opened LengthPrefixed

  const OBFUSCATION_KEY: seq<byte> := [0x43, 0x72, 0x6F, 0x73, 0x73, 0x50, 0x6F, 0x69, 0x6E, 0x74]

  const FILE_VERSION: byte := 1

  const MAX_NETWORKS := 8

  datatype Credential = Credential(ssid: Str, password: Str)

  // ---------- obfuscation ----------

  /** Exclusive or of the low `n` bits. */
  function XorBits(a: nat, b: nat, n: nat): (r: nat)
    ensures r < Pow2(n)
  {
    if n == 0 then 0 else (if a % 2 == b % 2 then 0 else 1) + 2 * XorBits(a / 2, b / 2, n - 1)
  }

  /** Bit by bit: set exactly where the two differ. */
  lemma {:induction false} XorIsBitwise(a: nat, b: nat, n: nat, k: nat)
    requires k < n
    ensures Bit(XorBits(a, b, n), k) <==> Bit(a, k) != Bit(b, k)
  {
    var x := XorBits(a, b, n);
    assert x / 2 == XorBits(a / 2, b / 2, n - 1) && (x % 2 == 0 <==> a % 2 == b % 2);
    if k == 0 {
    } else {
      XorIsBitwise(a / 2, b / 2, n - 1, k - 1);
    }
  }

  lemma {:induction false} XorTwice(a: nat, b: nat, n: nat)
    requires a < Pow2(n)
    ensures XorBits(XorBits(a, b, n), b, n) == a
  {
    if n == 0 {
    } else {
      HalfBelow(a, Pow2(n - 1));
      XorTwice(a / 2, b / 2, n - 1);
      var x := XorBits(a, b, n);
      assert x / 2 == XorBits(a / 2, b / 2, n - 1) && (x % 2 == 0 <==> a % 2 == b % 2);
    }
  }

  function Xor(a: byte, b: byte): byte {
    ByteRange();
    XorBits(a, b, 8)
  }

  lemma ByteRange()
    ensures Pow2(8) == 256
  {
    assert Pow2(4) == 16;
  }

  function Obfuscated(data: seq<byte>): (r: seq<byte>)
    ensures |r| == |data|
  {
    seq(|data|, i requires 0 <= i < |data| => Xor(data[i], OBFUSCATION_KEY[i % |OBFUSCATION_KEY|]))
  }

  /** Every bit of every byte flips exactly where the repeated key "CrossPoint" has a bit. */
  lemma ObfuscatedBits(data: seq<byte>, i: nat, k: nat)
    requires i < |data| && k < 8
    ensures Bit(Obfuscated(data)[i], k) <==> Bit(data[i], k) != Bit("CrossPoint"[i % 10] as int, k)
  {
    hide XorBits;
    ByteRange();
    KeyIsTheName(i % 10);
    XorIsBitwise(data[i], OBFUSCATION_KEY[i % 10], 8, k);
  }

  lemma KeyIsTheName(j: nat)
    requires j < 10
    ensures |OBFUSCATION_KEY| == 10 && OBFUSCATION_KEY[j] == "CrossPoint"[j] as int
  {
  }

  lemma ObfuscatedTwice(data: seq<byte>)
    ensures Obfuscated(Obfuscated(data)) == data
  {
    forall i | 0 <= i < |data| ensures Obfuscated(Obfuscated(data))[i] == data[i] {
      ByteRange();
      XorTwice(data[i], OBFUSCATION_KEY[i % |OBFUSCATION_KEY|], 8);
    }
  }

  /** `obfuscate`, in place. */
  method Obfuscate(data: array<byte>)
    modifies data
    ensures data[..] == Obfuscated(old(data[..]))
  {
    hide Xor;
    var i := 0;
    while i < data.Length
      invariant 0 <= i <= data.Length
      invariant forall j :: 0 <= j < i ==> data[j] == Obfuscated(old(data[..]))[j]
      invariant forall j :: i <= j < data.Length ==> data[j] == old(data[j])
    {
      data[i] := Xor(data[i], OBFUSCATION_KEY[i % |OBFUSCATION_KEY|]);
      i := i + 1;
    }
  }

  // ---------- the file ----------

  function EntryBytes(c: Credential): seq<byte> {
    StringBytes(c.ssid) + StringBytes(Obfuscated(c.password))
  }

  function EntriesBytes(list: seq<Credential>): seq<byte> {
    if list == [] then [] else EntriesBytes(list[..|list| - 1]) + EntryBytes(list[|list| - 1])
  }

  function FileBytes(list: seq<Credential>): seq<byte> { [FILE_VERSION, |list| % 256] + EntriesBytes(list) }

  function ParseEntry(bytes: seq<byte>, pos: nat): Option<(Credential, nat)> {
    match FieldAt(bytes, pos)
    case Cut => None
    case TooLong(_) => None
    case Found(ssid, next) =>
      match FieldAt(bytes, next)
      case Cut => None
      case TooLong(_) => None
      case Found(password, after) => Some((Credential(ssid, Obfuscated(password)), after))
  }

  /** The first `n` entries and where they end. */
  function ParseEntries(bytes: seq<byte>, pos: nat, n: nat): (r: Option<(seq<Credential>, nat)>)
    ensures r.Some? ==> |r.value.0| == n
  {
    if n == 0 then Some(([], pos))
    else
      match ParseEntries(bytes, pos, n - 1)
      case None => None
      case Some(init) =>
        match ParseEntry(bytes, init.1)
        case None => None
        case Some(entry) => Some((init.0 + [entry.0], entry.1))
  }

  /** What `loadFromFile` makes of a file's contents; bytes after the last entry are ignored. */
  function Parse(bytes: seq<byte>): Option<seq<Credential>> {
    if |bytes| < 2 || bytes[0] != FILE_VERSION || bytes[1] > MAX_NETWORKS then None
    else
      match ParseEntries(bytes, 2, bytes[1])
      case None => None
      case Some(list) => Some(list.0)
  }

  predicate Short(c: Credential) { |c.ssid| <= MAX_STRING && |c.password| <= MAX_STRING }

  ghost predicate Loadable(list: seq<Credential>) {
    |list| <= MAX_NETWORKS && forall i :: 0 <= i < |list| ==> Short(list[i])
  }

  lemma EntryReadsBack(bytes: seq<byte>, pos: nat, c: Credential)
    requires HoldsAt(bytes, pos, EntryBytes(c))
    ensures ParseEntry(bytes, pos) == if Short(c) then Some((c, pos + |EntryBytes(c)|)) else None
  {
    hide HoldsAt, FieldAt, StringBytes, Obfuscated;
    HoldsBoth(bytes, pos, StringBytes(c.ssid), StringBytes(Obfuscated(c.password)));
    FieldReadsBack(bytes, pos, c.ssid);
    FieldReadsBack(bytes, pos + |StringBytes(c.ssid)|, Obfuscated(c.password));
    ObfuscatedTwice(c.password);
  }

  ghost predicate AllShort(list: seq<Credential>) { forall i :: 0 <= i < |list| ==> Short(list[i]) }

  lemma {:induction false} EntriesReadBack(bytes: seq<byte>, pos: nat, list: seq<Credential>)
    requires HoldsAt(bytes, pos, EntriesBytes(list))
    ensures ParseEntries(bytes, pos, |list|)
            == if AllShort(list) then Some((list, pos + |EntriesBytes(list)|)) else None
  {
    if list == [] {
    } else {
      hide HoldsAt, ParseEntry, ParseEntries, EntryBytes, EntriesBytes, Short, AllShort;
      var init, last := list[..|list| - 1], list[|list| - 1];
      assert init + [last] == list;
      ShortOneByOne(init, last);
      BytesOneByOne(init, last);
      HoldsBoth(bytes, pos, EntriesBytes(init), EntryBytes(last));
      EntriesReadBack(bytes, pos, init);
      EntryReadsBack(bytes, pos + |EntriesBytes(init)|, last);
      ParsedOneByOne(bytes, pos, |init|);
    }
  }

  lemma BytesOneByOne(init: seq<Credential>, last: Credential)
    ensures EntriesBytes(init + [last]) == EntriesBytes(init) + EntryBytes(last)
  {
    hide EntryBytes;
    assert (init + [last])[..|init|] == init;
  }

  lemma ParsedOneByOne(bytes: seq<byte>, pos: nat, n: nat)
    ensures var init := ParseEntries(bytes, pos, n);
            ParseEntries(bytes, pos, n + 1)
            == if init.None? || ParseEntry(bytes, init.value.1).None? then None
               else
                 var entry := ParseEntry(bytes, init.value.1).value;
                 Some((init.value.0 + [entry.0], entry.1))
  {
    hide ParseEntry;
  }

  lemma ShortOneByOne(init: seq<Credential>, last: Credential)
    ensures AllShort(init + [last]) <==> AllShort(init) && Short(last)
  {
    hide Short;
    assert (init + [last])[|init|] == last;
    assert forall i :: 0 <= i < |init| ==> (init + [last])[i] == init[i];
  }

  /** A saved list loads as itself exactly when it has at most eight entries and no
      string over 4096 bytes. */
  lemma SavedListLoads(list: seq<Credential>)
    ensures Parse(FileBytes(list)) == Some(list) <==> Loadable(list)
  {
    hide ParseEntries, EntriesBytes, Short;
    var bytes := FileBytes(list);
    assert bytes[2..] == EntriesBytes(list);
    if |list| <= MAX_NETWORKS { EntriesReadBack(bytes, 2, list); }
  }

  /** Whatever loads has at most eight entries and no long string. */
  lemma LoadedIsLoadable(bytes: seq<byte>)
    ensures Parse(bytes).Some? ==> Loadable(Parse(bytes).value)
  {
    if Parse(bytes).Some? { ParsedIsShort(bytes, 2, bytes[1]); }
  }

  lemma {:induction false} ParsedIsShort(bytes: seq<byte>, pos: nat, n: nat)
    ensures var r := ParseEntries(bytes, pos, n);
            r.Some? ==> forall i :: 0 <= i < n ==> Short(r.value.0[i])
  {
    if n == 0 {
    } else {
      ParsedIsShort(bytes, pos, n - 1);
    }
  }
}
