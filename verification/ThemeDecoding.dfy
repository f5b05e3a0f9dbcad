/**
 Which files `decode_m4theme` of firmware/tools/preview_home_theme.py takes, on arbitrary
 bytes: the conditions one by one, with the last line of the table for each section.
 */
module ThemeDecoding {

  import opened Bytes
  import opened ThemePack
  import opened ThemeReaders

  /** The header names this format, this file, this screen and this payload. */
  predicate HeaderRight(crc: Crc, data: seq<byte>) {
    && |data| >= 32
    && var h := ReadHeader(data);
       && h.magic == ['M' as int, '4' as int, 'T' as int, 'H' as int] && h.version == 1 && h.headerSize == 32
       && h.total == |data| && h.screenW == 480 && h.screenH == 800 && 5 <= h.sectionCount <= 7
       && h.crc == crc(data[32..])
  }

  function Line(data: seq<byte>, k: nat): Entry
    requires 32 + 24 * k + 24 <= |data|
  {
    ReadEntry(data, 32 + 24 * k)
  }

  /** The first `n` lines are there, aligned, and point into the file. */
  predicate LinesRight(data: seq<byte>, n: nat) {
    && 32 + 24 * n <= |data|
    && forall k :: 0 <= k < n ==>
         var e := Line(data, k);
         e.offset % 4 == 0 && e.offset + e.length <= |data|
  }

  /** Line `k` is the last of its type among the first `n`. */
  predicate LastOf(data: seq<byte>, n: nat, typ: u32, k: nat)
    requires 32 + 24 * n <= |data|
  {
    k < n && Line(data, k).typ == typ && forall j :: k < j < n ==> Line(data, j).typ != typ
  }

  ghost predicate Last(data: seq<byte>, n: nat, m: map<u32, Entry>)
    requires 32 + 24 * n <= |data|
  {
    && (forall typ: u32 :: typ in m <==> exists k: nat :: LastOf(data, n, typ, k))
    && forall typ: u32, k: nat :: LastOf(data, n, typ, k) ==> m[typ] == Line(data, k)
  }

  lemma OneMoreLine(data: seq<byte>, n: nat, m: map<u32, Entry>)
    requires 32 + 24 * (n + 1) <= |data| && Last(data, n, m)
    ensures Last(data, n + 1, m[Line(data, n).typ := Line(data, n)])
  {
    hide ReadEntry;
    var e, more := Line(data, n), n + 1;
    var after := m[e.typ := e];
    forall typ: u32, k: nat
      ensures LastOf(data, more, typ, k) <==> if typ == e.typ then k == n else LastOf(data, n, typ, k)
    {
    }
    assert LastOf(data, more, e.typ, n);
    forall typ: u32 ensures typ in after <==> exists k: nat :: LastOf(data, more, typ, k) {
      if typ != e.typ && typ in m {
        var k: nat :| LastOf(data, n, typ, k);
        assert LastOf(data, more, typ, k);
      }
      if k: nat :| LastOf(data, more, typ, k) && typ != e.typ {
        assert LastOf(data, n, typ, k);
      }
    }
  }

  /** The table is read exactly when its lines are right, and of each type the last counts. */
  lemma {:induction false} TableReadIff(data: seq<byte>, n: nat)
    requires |data| >= 32
    ensures ReadSections(data, n).Ok? <==> LinesRight(data, n)
    ensures LinesRight(data, n) ==> Last(data, n, ReadSections(data, n).value)
  {
    hide ReadEntry;
    if n == 0 {
    } else {
      TableReadIff(data, n - 1);
      hide Last;
      if LinesRight(data, n) {
        OneMoreLine(data, n - 1, ReadSections(data, n - 1).value);
      }
    }
  }

  /** The five sections that must be there, and what must be in them. */
  predicate SectionsRight(data: seq<byte>, m: map<u32, Entry>) {
    && 1 in m && 2 in m && 3 in m && 4 in m && 5 in m
    && m[1].length == 16 && m[1].offset + 16 <= |data|
    && ReadU16(data, m[1].offset) == 1 && ReadU16(data, m[1].offset + 4) == 480 && ReadU16(data, m[1].offset + 6) == 800
    && m[3].length == 32 * m[3].count
    && m[4].length >= 24 * m[4].count
    && BackgroundThere(data, m)
  }

  /** 48000 bytes where the first asset record says, as far as the file goes, or else in the section. */
  predicate BackgroundThere(data: seq<byte>, m: map<u32, Entry>)
    requires 4 in m && 5 in m
  {
    || m[5].length == 48000
    || (m[4].count > 0 && m[4].offset + 24 <= |data|
        && var start, size := ReadU32(data, m[4].offset + 12), ReadU32(data, m[4].offset + 16);
           size >= 48000 && start + 48000 <= |data| && (size == 48000 || start + 48000 == |data|))
  }

  lemma SectionBytes(data: seq<byte>, e: Entry)
    requires e.offset + e.length <= |data|
    ensures |RawOf(data, e)| == e.length && RawOf(data, e) == data[e.offset..e.offset + e.length]
  {
  }

  lemma WordInside(data: seq<byte>, start: nat, end: nat, off: nat)
    requires start + off + 4 <= end <= |data|
    ensures ReadU16(data[start..end], off) == ReadU16(data, start + off)
    ensures ReadU32(data[start..end], off) == ReadU32(data, start + off)
  {
  }

  lemma MetaIff(data: seq<byte>, e: Entry)
    requires e.offset + e.length <= |data|
    ensures MetaOk(RawOf(data, e))
       <==> e.length == 16 && ReadU16(data, e.offset) == 1 && ReadU16(data, e.offset + 4) == 480
            && ReadU16(data, e.offset + 6) == 800
  {
    hide ReadU16;
    SectionBytes(data, e);
    if e.length == 16 {
      WordInside(data, e.offset, e.offset + 16, 0);
      WordInside(data, e.offset, e.offset + 16, 4);
      WordInside(data, e.offset, e.offset + 16, 6);
    }
  }

  lemma ClipLength(data: seq<byte>, start: nat, size: nat)
    ensures |Clip(data, start, size)| == 48000
       <==> size >= 48000 && start + 48000 <= |data| && (size == 48000 || start + 48000 == |data|)
  {
  }

  lemma BackgroundIff(data: seq<byte>, m: map<u32, Entry>)
    requires 4 in m && 5 in m && m[4].offset + m[4].length <= |data| && m[5].offset + m[5].length <= |data|
    requires m[4].length >= 24 * m[4].count
    ensures |BackgroundRead(data, m)| == 48000 <==> BackgroundThere(data, m)
  {
    hide ReadU32, Clip, RawOf;
    SectionBytes(data, m[4]);
    SectionBytes(data, m[5]);
    if m[4].count > 0 {
      var at := m[4].offset;
      WordInside(data, at, at + m[4].length, 12);
      WordInside(data, at, at + m[4].length, 16);
      ClipLength(data, ReadU32(data, at + 12), ReadU32(data, at + 16));
    }
  }

  lemma SectionsDecodeIff(data: seq<byte>, m: map<u32, Entry>)
    requires forall typ :: typ in m ==> m[typ].offset + m[typ].length <= |data|
    ensures HasRequired(m) && DecodedSections(data, m).Ok? <==> SectionsRight(data, m)
  {
    hide MetaOk, BackgroundRead, BackgroundThere, RawOf, SlotsRead, UpToZero, SceneOf, ReadU16;
    if HasRequired(m) {
      MetaIff(data, m[1]);
      SectionBytes(data, m[3]);
      SectionBytes(data, m[4]);
      if m[4].length >= 24 * m[4].count { BackgroundIff(data, m); }
    }
  }

  /** On any bytes: the decoder takes them exactly when the header, every line of the table
      and the five sections are right. */
  lemma DecodesIff(crc: Crc, data: seq<byte>)
    ensures DecodedPack(crc, data).Ok?
       <==> && HeaderRight(crc, data)
            && LinesRight(data, ReadHeader(data).sectionCount)
            && exists m: map<u32, Entry> :: Last(data, ReadHeader(data).sectionCount, m) && SectionsRight(data, m)
  {
    hide ReadHeader, ReadSections, LinesRight, SectionsRight, DecodedSections, HasRequired, Last;
    HeaderIff(crc, data);
    if HeaderRight(crc, data) {
      var n := ReadHeader(data).sectionCount;
      TableReadIff(data, n);
      if ReadSections(data, n).Ok? {
        var m := ReadSections(data, n).value;
        LinesInside(data, n, m);
        SectionsDecodeIff(data, m);
        TableIsOne(data, n, m);
      }
    }
  }

  lemma TableIsOne(data: seq<byte>, n: nat, m: map<u32, Entry>)
    requires LinesRight(data, n) && Last(data, n, m)
    ensures forall other: map<u32, Entry> :: Last(data, n, other) ==> other == m
  {
    hide ReadEntry;
    forall other: map<u32, Entry> | Last(data, n, other) ensures other == m {
      assert forall typ: u32 :: typ in other <==> typ in m;
      forall typ: u32 | typ in m ensures other[typ] == m[typ] {
        var k: nat :| LastOf(data, n, typ, k);
      }
    }
  }

  lemma LinesInside(data: seq<byte>, n: nat, m: map<u32, Entry>)
    requires LinesRight(data, n) && Last(data, n, m)
    ensures forall typ :: typ in m ==> m[typ].offset + m[typ].length <= |data|
  {
    hide ReadEntry;
    forall typ | typ in m ensures m[typ].offset + m[typ].length <= |data| {
      var k: nat :| LastOf(data, n, typ, k);
    }
  }

  lemma HeaderIff(crc: Crc, data: seq<byte>)
    ensures DecoderHeaderFault(crc, data).None? <==> HeaderRight(crc, data)
  {
    hide ReadHeader;
  }
}
