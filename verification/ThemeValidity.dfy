/**
 What the validator's overlap test means on any table, and that every pack the compiler
 can lay out passes the validator.
 */
module ThemeValidity {

  import opened Wrappers
  import opened Bytes
  import opened Scene
  import opened ThemePack
  import opened ThemeReaders
  import opened ThemeLayout

  // ---------- the overlap test, on any table ----------

  /** `a`, listed before `b`, ends before `b` starts, or `b` starts first and ends before `a`. */
  predicate Apart(a: Entry, b: Entry) {
    a.offset + a.length <= b.offset || (b.offset < a.offset && b.offset + b.length <= a.offset)
  }

  ghost predicate AllApart(entries: seq<Entry>) {
    forall i, j :: 0 <= i < j < |entries| ==> Apart(entries[i], entries[j])
  }

  ghost predicate EndsBefore(a: Entry, s: seq<Entry>) {
    forall x :: x in s ==> a.offset + a.length <= x.offset
  }

  /** Each entry ends before every later one starts. */
  ghost predicate InSequence(s: seq<Entry>) {
    s == [] || (EndsBefore(s[0], s[1..]) && InSequence(s[1..]))
  }

  /** Comparing neighbours compares all; the test for a duplicate offset never finds
      anything that the overlap test has not refused. */
  lemma {:induction false} NeighboursSuffice(s: seq<Entry>)
    ensures FirstOverlap(s) == if InSequence(s) then None else Some(Overlap)
  {
    if |s| < 2 {
    } else {
      NeighboursSuffice(s[1..]);
      var tail := s[1..];
      assert tail == [s[1]] + tail[1..];
      if InSequence(tail) && s[0].offset + s[0].length <= s[1].offset {
        assert EndsBefore(s[0], tail);
      }
    }
  }

  ghost predicate ByOffset(s: seq<Entry>) {
    forall i, j :: 0 <= i < j < |s| ==> s[i].offset <= s[j].offset
  }

  lemma {:induction false} InsertedHolds(e: Entry, s: seq<Entry>)
    requires ByOffset(s)
    ensures ByOffset(Inserted(e, s))
    ensures forall x :: x in Inserted(e, s) <==> x == e || x in s
  {
    if s != [] && s[0].offset <= e.offset {
      var rest := Inserted(e, s[1..]);
      InsertedHolds(e, s[1..]);
      assert s == [s[0]] + s[1..];
      forall k | 0 <= k < |rest| ensures s[0].offset <= rest[k].offset {
        assert rest[k] in rest;
      }
    }
  }

  lemma {:induction false} SortedHolds(entries: seq<Entry>)
    ensures ByOffset(Sorted(entries))
    ensures forall x :: x in Sorted(entries) <==> x in entries
  {
    if entries == [] {
    } else {
      var init, last := entries[..|entries| - 1], entries[|entries| - 1];
      SortedHolds(init);
      InsertedHolds(last, Sorted(init));
      assert entries == init + [last];
    }
  }

  lemma ConsInSequence(a: Entry, s: seq<Entry>)
    ensures InSequence([a] + s) <==> InSequence(s) && EndsBefore(a, s)
  {
    assert ([a] + s)[1..] == s;
  }

  /** A later line, sorted in, keeps the sequence exactly when it is apart from all earlier lines. */
  lemma {:induction false} InsertedInSequence(e: Entry, s: seq<Entry>)
    requires ByOffset(s)
    ensures InSequence(Inserted(e, s)) <==> InSequence(s) && forall x :: x in s ==> Apart(x, e)
  {
    hide InSequence;
    if s == [] {
      ConsInSequence(e, s);
      Trivially(s);
    } else if s[0].offset > e.offset {
      ConsInSequence(e, s);
      forall x | x in s ensures Apart(x, e) <==> e.offset + e.length <= x.offset { LaterInOrder(s, x); }
    } else {
      var rest := Inserted(e, s[1..]);
      assert s == [s[0]] + s[1..];
      InsertedInSequence(e, s[1..]);
      InsertedHolds(e, s[1..]);
      ConsInSequence(s[0], rest);
      ConsInSequence(s[0], s[1..]);
      assert Apart(s[0], e) <==> s[0].offset + s[0].length <= e.offset;
      assert EndsBefore(s[0], rest) <==> Apart(s[0], e) && EndsBefore(s[0], s[1..]);
    }
  }

  lemma Trivially(s: seq<Entry>)
    ensures |s| < 2 ==> InSequence(s)
  {
  }

  lemma LaterInOrder(s: seq<Entry>, x: Entry)
    requires ByOffset(s) && x in s
    ensures s[0].offset <= x.offset
  {
    var k :| 0 <= k < |s| && s[k] == x;
  }

  lemma {:induction false} SortedInSequence(entries: seq<Entry>)
    ensures InSequence(Sorted(entries)) <==> AllApart(entries)
  {
    hide InSequence, Apart;
    if entries == [] {
      Trivially(Sorted(entries));
    } else {
      var init, last := entries[..|entries| - 1], entries[|entries| - 1];
      SortedInSequence(init);
      SortedHolds(init);
      InsertedInSequence(last, Sorted(init));
      AllApartSnoc(init, last);
      assert entries == init + [last];
    }
  }

  lemma AllApartSnoc(init: seq<Entry>, last: Entry)
    ensures AllApart(init + [last]) <==> AllApart(init) && forall x :: x in init ==> Apart(x, last)
  {
    hide Apart;
    var whole := init + [last];
    if AllApart(whole) {
      forall i, j | 0 <= i < j < |init| ensures Apart(init[i], init[j]) {
        assert whole[i] == init[i] && whole[j] == init[j];
      }
      forall x | x in init ensures Apart(x, last) {
        var k :| 0 <= k < |init| && init[k] == x;
        assert whole[k] == x && whole[|init|] == last;
      }
    }
  }

  /** The validator finds no overlap exactly when every two sections, empty ones
      included, are apart; and it never reports a duplicate offset. */
  lemma OverlapTestMeans(entries: seq<Entry>)
    ensures FirstOverlap(Sorted(entries)) == if AllApart(entries) then None else Some(Overlap)
  {
    hide FirstOverlap, Sorted, InSequence, AllApart;
    NeighboursSuffice(Sorted(entries));
    SortedInSequence(entries);
  }

  lemma {:induction false} NoEntryFault(entries: seq<Entry>, size: nat)
    ensures FirstEntryFault(entries, size).None?
       <==> forall i :: 0 <= i < |entries| ==> EntryFault(entries[i], size).None?
  {
    hide EntryFault;
    if entries == [] {
    } else {
      NoEntryFault(entries[1..], size);
      assert forall i :: 1 <= i < |entries| ==> entries[i] == entries[1..][i - 1];
      assert forall i :: 0 <= i < |entries| - 1 ==> entries[1..][i] == entries[i + 1];
    }
  }

  lemma {:induction false} NoRecordFault(entries: seq<Entry>)
    ensures FirstRecordFault(entries).None? <==> forall i :: 0 <= i < |entries| ==> RecordFault(entries[i]).None?
  {
    hide RecordFault;
    if entries == [] {
    } else {
      NoRecordFault(entries[1..]);
      assert forall i :: 1 <= i < |entries| ==> entries[i] == entries[1..][i - 1];
      assert forall i :: 0 <= i < |entries| - 1 ==> entries[1..][i] == entries[i + 1];
    }
  }

  /** What the validator accepts, on any bytes: an intact header and a table whose lines
      are each in order, with the sections apart from one another. */
  lemma ValidatorAccepts(crc: Crc, data: seq<byte>)
    ensures Fault(crc, data).None? <==>
            && HeaderFault(crc, data).None?
            && var entries := EntriesOf(data, ReadHeader(data).sectionCount);
               && AllApart(entries)
               && forall i :: 0 <= i < |entries| ==>
                    EntryFault(entries[i], |data|).None? && RecordFault(entries[i]).None?
  {
    hide HeaderFault, EntryFault, RecordFault, FirstEntryFault, FirstRecordFault, FirstOverlap;
    hide Sorted, AllApart, ReadEntry;
    if HeaderFault(crc, data).None? {
      var entries := EntriesOf(data, ReadHeader(data).sectionCount);
      NoEntryFault(entries, |data|);
      NoRecordFault(entries);
      OverlapTestMeans(entries);
    }
  }

  // ---------- packs are valid ----------

  lemma EntryReadsBack(data: seq<byte>, off: nat, typ: u32, offset: u32, length: u32, count: u32)
    requires HoldsAt(data, off, DescBytes(typ, offset, length, count))
    ensures off + DESC_SIZE <= |data| && ReadEntry(data, off) == Entry(typ, 0, offset, length, count, 0)
  {
    hide ReadU32, U32;
    var a, b, c, d, z := U32(typ), U32(offset), U32(length), U32(count), U32(0);
    var bytes := DescBytes(typ, offset, length, count);
    assert bytes == a + (z + (b + (c + (d + z))));
    HoldsBoth(data, off, a, z + (b + (c + (d + z))));
    HoldsBoth(data, off + 4, z, b + (c + (d + z)));
    HoldsBoth(data, off + 8, b, c + (d + z));
    HoldsBoth(data, off + 12, c, d + z);
    HoldsBoth(data, off + 16, d, z);
    U32ReadsBack(data, off, typ);
    U32ReadsBack(data, off + 4, 0);
    U32ReadsBack(data, off + 8, offset);
    U32ReadsBack(data, off + 12, length);
    U32ReadsBack(data, off + 16, count);
    U32ReadsBack(data, off + 20, 0);
  }

  lemma HeaderReadsBack(data: seq<byte>, total: u32, sectionCount: u16, crc: u32)
    requires HoldsAt(data, 0, HeaderBytes(total, sectionCount, crc))
    ensures |data| >= HEADER_SIZE
    ensures ReadHeader(data)
            == Header(MAGIC, VERSION, HEADER_SIZE, total, SCREEN_W, SCREEN_H, sectionCount, 0, crc, Zeros(8))
  {
    var h := HeaderBytes(total, sectionCount, crc);
    assert data[0..HEADER_SIZE] == h;
    HeaderPieces(h, total, sectionCount, crc);
    forall i, j | 0 <= i <= j <= HEADER_SIZE ensures data[i..j] == h[i..j] { SliceOfSlice(data, 0, HEADER_SIZE, i, j); }
    hide ReadU32, ReadU16, U16, U32, HeaderBytes;
    assert data[..4] == h[0..4] && data[24..32] == h[24..32];
    U16ReadsBack(data, 4, VERSION);
    U16ReadsBack(data, 6, HEADER_SIZE);
    U32ReadsBack(data, 8, total);
    U16ReadsBack(data, 12, SCREEN_W);
    U16ReadsBack(data, 14, SCREEN_H);
    U16ReadsBack(data, 16, sectionCount);
    U16ReadsBack(data, 18, 0);
    U32ReadsBack(data, 20, crc);
  }

  lemma HeaderPieces(h: seq<byte>, total: u32, sectionCount: u16, crc: u32)
    requires h == HeaderBytes(total, sectionCount, crc)
    ensures h[0..4] == MAGIC && h[4..6] == U16(VERSION) && h[6..8] == U16(HEADER_SIZE) && h[8..12] == U32(total)
    ensures h[12..14] == U16(SCREEN_W) && h[14..16] == U16(SCREEN_H) && h[16..18] == U16(sectionCount)
    ensures h[18..20] == U16(0) && h[20..24] == U32(crc) && h[24..32] == Zeros(8)
  {
    hide U16, U32, Zeros;
  }

  /** The table of a pack reads back: the entry of every section, at its final place. */
  lemma TableReadsBack(crc: Crc, sections: seq<Section>, k: nat)
    requires Small(sections) && k < |sections|
    ensures var pack, off := PackBytes(crc, sections), OffsetOf(sections, Base(sections), k);
            && off + |sections[k].data| <= |pack| < U32_LIMIT
            && Base(sections) <= |pack|
            && ReadEntry(pack, HEADER_SIZE + DESC_SIZE * k)
               == Entry(sections[k].typ, 0, off, |sections[k].data|, sections[k].count, 0)
            && HoldsAt(pack, off, sections[k].data)
  {
    hide OffsetOf, ReadEntry, HoldsAt, TableBytes, BodyBytes, PackBytes, End;
    var pack, base := PackBytes(crc, sections), Base(sections);
    PackStands(crc, sections);
    SectionEndsInside(sections, base, k);
    EntryStands(pack, HEADER_SIZE, sections, base, k);
    SectionStands(pack, sections, base, k);
    EntryReadsBack(pack, HEADER_SIZE + DESC_SIZE * k, sections[k].typ, OffsetOf(sections, base, k),
                   |sections[k].data|, sections[k].count);
  }

  lemma PackHeader(crc: Crc, sections: seq<Section>)
    requires Small(sections)
    ensures var pack := PackBytes(crc, sections);
            && Base(sections) <= |pack| < U32_LIMIT && |pack| >= HEADER_SIZE
            && ReadHeader(pack) == Header(MAGIC, VERSION, HEADER_SIZE, |pack|, SCREEN_W, SCREEN_H, |sections|, 0,
                                          crc(pack[HEADER_SIZE..]), Zeros(8))
  {
    hide HoldsAt, TableBytes, BodyBytes, PackBytes, End, ReadHeader;
    PackStands(crc, sections);
    var pack := PackBytes(crc, sections);
    HeaderReadsBack(pack, |pack|, |sections|, crc(PayloadBytes(sections)));
  }

  /** A section that its own record checks accept. */
  predicate SoundSection(s: Section) {
    && 1 <= s.typ <= 7
    && (s.typ == SLOTS ==> |s.data| == s.count * SLOT_SIZE && s.count <= MAX_SLOTS)
    && (s.typ == ASSETS ==> |s.data| == s.count * ASSET_SIZE)
    && (s.typ == ASSET_DATA ==> |s.data| == BG_LEN)
    && (s.typ == SCENE ==> |s.data| >= 8 && s.count <= MAX_SCENE_NODES)
  }

  /** Whatever sections are laid out, sound ones make a pack that the validator accepts. */
  lemma PackIsValid(crc: Crc, sections: seq<Section>)
    requires Small(sections) && 5 <= |sections| <= 7
    requires forall k :: 0 <= k < |sections| ==> SoundSection(sections[k])
    ensures Fault(crc, PackBytes(crc, sections)) == None
  {
    hide ReadHeader, ReadEntry, PackBytes, OffsetOf, HoldsAt, Small, HeaderFault, Apart, EntryFault, RecordFault;
    var pack := PackBytes(crc, sections);
    HeaderIsSound(crc, sections);
    ValidatorAccepts(crc, pack);
    var entries := EntriesOf(pack, |sections|);
    forall k | 0 <= k < |sections|
      ensures EntryFault(entries[k], |pack|).None? && RecordFault(entries[k]).None?
    {
      EntryIsSound(crc, sections, k);
    }
    forall i, j | 0 <= i < j < |entries| ensures Apart(entries[i], entries[j]) {
      EntriesAreApart(crc, sections, i, j);
    }
  }

  lemma HeaderIsSound(crc: Crc, sections: seq<Section>)
    requires Small(sections) && 5 <= |sections| <= 7
    ensures var pack := PackBytes(crc, sections);
            HeaderFault(crc, pack).None? && ReadHeader(pack).sectionCount == |sections| && Base(sections) <= |pack|
  {
    hide ReadHeader, PackBytes, Small;
    PackHeader(crc, sections);
  }

  lemma EntryIsSound(crc: Crc, sections: seq<Section>, k: nat)
    requires Small(sections) && k < |sections| && SoundSection(sections[k])
    ensures var pack := PackBytes(crc, sections);
            && HEADER_SIZE + DESC_SIZE * (k + 1) <= |pack|
            && var e := ReadEntry(pack, HEADER_SIZE + DESC_SIZE * k);
               EntryFault(e, |pack|).None? && RecordFault(e).None?
  {
    hide ReadEntry, PackBytes, OffsetOf, HoldsAt, Small;
    TableReadsBack(crc, sections, k);
  }

  lemma EntriesAreApart(crc: Crc, sections: seq<Section>, i: nat, j: nat)
    requires Small(sections) && i < j < |sections|
    ensures var pack := PackBytes(crc, sections);
            && HEADER_SIZE + DESC_SIZE * (j + 1) <= |pack|
            && Apart(ReadEntry(pack, HEADER_SIZE + DESC_SIZE * i), ReadEntry(pack, HEADER_SIZE + DESC_SIZE * j))
  {
    hide ReadEntry, PackBytes, OffsetOf, HoldsAt, Small;
    TableReadsBack(crc, sections, i);
    TableReadsBack(crc, sections, j);
    SectionsInOrder(sections, Base(sections), i, j);
  }
}
