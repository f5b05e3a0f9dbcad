/**
 The layout of a theme pack: where sections land, that they never overlap, that laying
 out twice gives the same offsets, and that no pack comes near the size limit.
 */
module ThemeLayout {

  import opened Wrappers
  import opened Bytes
  import SceneBytes
  import opened ThemePack

  // ---------- offsets ----------

  /** Offsets depend on the lengths only, so the second layout repeats the first. */
  lemma {:induction false} OffsetsFromLengths(a: seq<Section>, b: seq<Section>, cur: nat, k: nat)
    requires |a| == |b| && k < |a| && forall i :: 0 <= i < |a| ==> |a[i].data| == |b[i].data|
    ensures OffsetOf(a, cur, k) == OffsetOf(b, cur, k)
    decreases k
  {
    hide AlignUp;
    if k == 0 {
    } else {
      OffsetsFromLengths(a[1..], b[1..], AlignUp(cur) + |a[0].data|, k - 1);
    }
  }

  lemma {:induction false} SectionEndsInside(sections: seq<Section>, cur: nat, k: nat)
    requires k < |sections|
    ensures OffsetOf(sections, cur, k) + |sections[k].data| <= End(sections, cur)
    decreases k
  {
    hide AlignUp;
    if k > 0 {
      SectionEndsInside(sections[1..], AlignUp(cur) + |sections[0].data|, k - 1);
    } else {
      assert End(sections[1..], AlignUp(cur) + |sections[0].data|) >= AlignUp(cur) + |sections[0].data|;
    }
  }

  /** An earlier section ends before a later one starts. */
  lemma {:induction false} SectionsInOrder(sections: seq<Section>, cur: nat, i: nat, j: nat)
    requires i < j < |sections|
    ensures OffsetOf(sections, cur, i) + |sections[i].data| <= OffsetOf(sections, cur, j)
    decreases i
  {
    hide AlignUp;
    var next := AlignUp(cur) + |sections[0].data|;
    if i > 0 {
      SectionsInOrder(sections[1..], next, i - 1, j - 1);
    } else {
      assert OffsetOf(sections[1..], next, j - 1) >= next;
    }
  }

  // ---------- what stands where ----------

  lemma {:induction false} EntryStands(data: seq<byte>, pos: nat, sections: seq<Section>, cur: nat, k: nat)
    requires End(sections, cur) < U32_LIMIT && HoldsAt(data, pos, TableBytes(sections, cur)) && k < |sections|
    ensures OffsetOf(sections, cur, k) + |sections[k].data| < U32_LIMIT
    ensures HoldsAt(data, pos + DESC_SIZE * k,
                    DescBytes(sections[k].typ, OffsetOf(sections, cur, k), |sections[k].data|, sections[k].count))
    decreases k
  {
    hide HoldsAt, DescBytes, AlignUp;
    SectionEndsInside(sections, cur, k);
    SectionEndsInside(sections, cur, 0);
    var next := AlignUp(cur) + |sections[0].data|;
    var first := DescBytes(sections[0].typ, AlignUp(cur), |sections[0].data|, sections[0].count);
    HoldsBoth(data, pos, first, TableBytes(sections[1..], next));
    if k == 0 {
    } else {
      EntryStands(data, pos + DESC_SIZE, sections[1..], next, k - 1);
    }
  }

  lemma {:induction false} SectionStands(data: seq<byte>, sections: seq<Section>, cur: nat, k: nat)
    requires HoldsAt(data, cur, BodyBytes(sections, cur)) && k < |sections|
    ensures HoldsAt(data, OffsetOf(sections, cur, k), sections[k].data)
    decreases k
  {
    hide HoldsAt, AlignUp;
    var first := AlignUp(cur);
    var rest := BodyBytes(sections[1..], first + |sections[0].data|);
    HoldsBoth(data, cur, Zeros(first - cur), sections[0].data + rest);
    HoldsBoth(data, first, sections[0].data, rest);
    if k == 0 {
    } else {
      SectionStands(data, sections[1..], first + |sections[0].data|, k - 1);
    }
  }

  /** The parts of a pack, each in its place. */
  lemma PackStands(crc: Crc, sections: seq<Section>)
    requires Small(sections)
    ensures var pack := PackBytes(crc, sections);
            && HoldsAt(pack, 0, HeaderBytes(|pack|, |sections|, crc(PayloadBytes(sections))))
            && pack[HEADER_SIZE..] == PayloadBytes(sections)
            && HoldsAt(pack, HEADER_SIZE, TableBytes(sections, Base(sections)))
            && HoldsAt(pack, Base(sections), BodyBytes(sections, Base(sections)))
  {
    hide TableBytes, BodyBytes, HeaderBytes, Zeros;
    var base, end := Base(sections), End(sections, Base(sections));
    var table, body, pad := TableBytes(sections, base), BodyBytes(sections, base), Zeros(AlignUp(end) - end);
    var payload := PayloadBytes(sections);
    var header := HeaderBytes(HEADER_SIZE + |payload|, |sections|, crc(payload));
    var pack := PackBytes(crc, sections);
    assert pack == header + payload;
    assert pack[0..HEADER_SIZE] == header && pack[HEADER_SIZE..] == payload;
    assert payload == table + (body + pad);
    assert pack[HEADER_SIZE..HEADER_SIZE + |table|] == table;
    assert pack[base..base + |body|] == body;
  }

  // ---------- sizes ----------

  /** A bound on the length of the sections and their gaps. */
  function Room(sections: seq<Section>): nat {
    if sections == [] then 0 else |sections[0].data| + 3 + Room(sections[1..])
  }

  lemma {:induction false} EndWithinRoom(sections: seq<Section>, cur: nat)
    ensures End(sections, cur) <= cur + Room(sections)
    decreases |sections|
  {
    if sections == [] {
    } else {
      EndWithinRoom(sections[1..], AlignUp(cur) + |sections[0].data|);
    }
  }

  lemma RoomOfTwo(a: seq<Section>, b: Section)
    ensures Room(a + [b]) == Room(a) + |b.data| + 3
    decreases |a|
  {
    if a == [] {
      assert a + [b] == [b] && [b][1..] == [];
      assert Room([b]) == |b.data| + 3 + Room([]);
    } else {
      assert (a + [b])[1..] == a[1..] + [b];
      RoomOfTwo(a[1..], b);
    }
  }

  /** What every accepted theme keeps. */
  predicate Fitting(p: Parts) {
    && |p.id| + 1 <= MAX_STRINGS && |p.slots| <= MAX_SLOTS
    && (p.scene.Some? ==> |p.scene.value.0| <= SceneBytes.SCENE_LIMIT)
  }

  lemma RoomOfParts(p: Parts, dataOffset: u32)
    requires |p.slots| <= MAX_SLOTS
    ensures Room(SectionsOf(p, dataOffset))
            == 16 + (|p.id| + 1) + 32 * |p.slots| + 24 + BG_LEN + 15
               + (if p.scene.Some? then |p.scene.value.0| + 3 else 0)
  {
    hide Room, MetaBytes, AssetRecord, SlotsBytes;
    var a := Section(META, MetaBytes(), 0);
    var b := Section(STRINGS, p.id + [0], 0);
    var c := Section(SLOTS, SlotsBytes(p.slots), |p.slots|);
    var d := Section(ASSETS, AssetRecord(dataOffset), 1);
    var e := Section(ASSET_DATA, p.background, 1);
    NoRoom();
    RoomOfTwo([], a);
    RoomOfTwo([a], b);
    RoomOfTwo([a, b], c);
    RoomOfTwo([a, b, c], d);
    RoomOfTwo([a, b, c, d], e);
    assert [] + [a] == [a] && [a] + [b] == [a, b] && [a, b] + [c] == [a, b, c];
    assert [a, b, c] + [d] == [a, b, c, d] && [a, b, c, d] + [e] == [a, b, c, d, e];
    if p.scene.Some? {
      RoomOfTwo([a, b, c, d, e], Section(SCENE, p.scene.value.0, p.scene.value.1));
    } else {
      assert SectionsOf(p, dataOffset) == [a, b, c, d, e];
    }
  }

  lemma NoRoom()
    ensures Room([]) == 0
  {
  }

  /** Every pack stays far below the 256 KiB limit, so the compiler's last check never refuses. */
  lemma PacksAreSmall(p: Parts, dataOffset: u32)
    requires Fitting(p)
    ensures Small(SectionsOf(p, dataOffset))
    ensures AlignUp(End(SectionsOf(p, dataOffset), Base(SectionsOf(p, dataOffset)))) <= MAX_TOTAL
  {
    hide Room, End;
    var sections := SectionsOf(p, dataOffset);
    RoomOfParts(p, dataOffset);
    EndWithinRoom(sections, Base(sections));
  }

  lemma AcceptedFits(t: Theme)
    ensures AcceptedTheme(t).Ok? ==> Fitting(AcceptedTheme(t).value)
  {
    hide AcceptedSlots, FirstSlotFault, SceneBytes.Compiled;
  }

  // ---------- the compiler ----------

  lemma BackgroundInside(p: Parts)
    requires Fitting(p)
    ensures BackgroundOffset(p) < U32_LIMIT
  {
    hide OffsetOf, End;
    PacksAreSmall(p, 0);
    var sections := SectionsOf(p, 0);
    SectionEndsInside(sections, Base(sections), 4);
  }

  /** The final sections, with the asset record of the final layout. */
  function FinalSections(p: Parts): (r: seq<Section>)
    requires Fitting(p)
    ensures Small(r) && AlignUp(End(r, Base(r))) <= MAX_TOTAL
  {
    hide OffsetOf, End, Room, BackgroundOffset, SectionsOf;
    BackgroundInside(p);
    PacksAreSmall(p, BackgroundOffset(p));
    SectionsOf(p, BackgroundOffset(p))
  }

  /** `compile_theme`, from the parsed theme to the bytes of its file. */
  function CompiledTheme(crc: Crc, t: Theme): Result<seq<byte>, ThemeError> {
    hide AcceptedTheme, FinalSections;
    AcceptedFits(t);
    match AcceptedTheme(t)
    case Err(e) => Err(e)
    case Ok(p) =>
      var pack := PackBytes(crc, FinalSections(p));
      if |pack| > MAX_TOTAL then Err(PackTooLarge) else Ok(pack)
  }

  /** The asset record holds the place where the background ends up. */
  lemma RecordPointsToBackground(p: Parts)
    requires Fitting(p)
    ensures var sections := FinalSections(p);
            OffsetOf(sections, Base(sections), 4) == BackgroundOffset(p)
  {
    hide OffsetOf;
    BackgroundInside(p);
    var first, final := SectionsOf(p, 0), FinalSections(p);
    OffsetsFromLengths(first, final, Base(first), 4);
  }

  /** Only the theme itself can be refused: the size limit never refuses an accepted one. */
  lemma SizeNeverRefuses(crc: Crc, t: Theme)
    ensures CompiledTheme(crc, t).Ok? <==> AcceptedTheme(t).Ok?
  {
    hide AcceptedTheme, PackBytes;
    AcceptedFits(t);
  }
}
