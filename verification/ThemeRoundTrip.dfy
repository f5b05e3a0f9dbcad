/**
 Every theme the compiler accepts becomes a pack that the validator accepts and that
 decodes to the same name, slots, background and scene.
 */
module ThemeRoundTrip {

  import opened Wrappers
  import opened Bytes
  import opened Scene
  import SceneBytes
  import SceneRoundTrip
  import opened ThemePack
  import opened ThemeReaders
  import opened ThemeLayout
  import opened ThemeValidity

  // ---------- slots ----------

  /** What the present layout's reader insists on. */
  predicate Sane(s: Slot) { OnScreen(s.rect) && FocusOk(s.flags, s.focusOrder) }

  lemma AcceptedSlotIsSane(spec: SlotSpec)
    ensures AcceptedSlot(spec).Ok? ==> Sane(AcceptedSlot(spec).value)
  {
  }

  lemma {:induction false} AcceptedSlotsAreSane(specs: seq<SlotSpec>)
    ensures AcceptedSlots(specs).Ok? ==> forall i :: 0 <= i < |specs| ==> Sane(AcceptedSlots(specs).value[i])
  {
    hide AcceptedSlot, Sane;
    if specs == [] {
    } else {
      AcceptedSlotIsSane(specs[0]);
      AcceptedSlotsAreSane(specs[1..]);
    }
  }

  lemma SlotPieces(s: Slot, r: seq<byte>)
    requires r == SlotBytes(s)
    ensures r[0] == s.stype && r[1] == s.binding
    ensures r[2] == s.targetKind && r[3] == s.targetIndex && r[4] == s.targetAction
    ensures r[5] == s.font && r[6] == s.style && r[7] == s.align && r[8] == s.flags && r[9] == 0
    ensures r[10..12] == U16(s.rect.x) && r[12..14] == U16(s.rect.y)
    ensures r[14..16] == U16(s.rect.w) && r[16..18] == U16(s.rect.h)
    ensures r[18..20] == U16(s.radius) && r[20..22] == U16(s.stroke) && r[22..24] == U16(s.focusInset)
    ensures r[24..26] == U16(s.focusOrder) && r[26..28] == U16(s.asset)
    ensures r[28..30] == U16(s.stringOff) && r[30..32] == U16(0)
  {
    hide U16;
  }

  /** A packed slot is read in the present layout, field by field. */
  lemma SlotReadsBack(s: Slot)
    ensures NewSlot(SlotBytes(s)) == if Sane(s) then Some(s) else None
  {
    hide U16, ReadU16, SlotBytes;
    var r := SlotBytes(s);
    SlotPieces(s, r);
    U16ReadsBack(r, 10, s.rect.x);
    U16ReadsBack(r, 12, s.rect.y);
    U16ReadsBack(r, 14, s.rect.w);
    U16ReadsBack(r, 16, s.rect.h);
    U16ReadsBack(r, 18, s.radius);
    U16ReadsBack(r, 20, s.stroke);
    U16ReadsBack(r, 22, s.focusInset);
    U16ReadsBack(r, 24, s.focusOrder);
    U16ReadsBack(r, 26, s.asset);
    U16ReadsBack(r, 28, s.stringOff);
    U16ReadsBack(r, 30, 0);
  }

  lemma {:induction false} SlotsReadBack(slots: seq<Slot>)
    requires forall i :: 0 <= i < |slots| ==> Sane(slots[i])
    ensures NewSlots(SlotsBytes(slots)) == Some(slots)
  {
    hide NewSlot, SlotBytes, Sane;
    if slots == [] {
    } else {
      var bytes := SlotsBytes(slots);
      assert bytes[..SLOT_SIZE] == SlotBytes(slots[0]) && bytes[SLOT_SIZE..] == SlotsBytes(slots[1..]);
      SlotReadsBack(slots[0]);
      SlotsReadBack(slots[1..]);
      assert slots == [slots[0]] + slots[1..];
    }
  }

  // ---------- the dictionary ----------

  ghost function EntryAt(sections: seq<Section>, k: nat): Entry
    requires Small(sections) && k < |sections|
  {
    SectionEndsInside(sections, Base(sections), k);
    Entry(sections[k].typ, 0, OffsetOf(sections, Base(sections), k), |sections[k].data|, sections[k].count, 0)
  }

  ghost predicate DistinctTypes(sections: seq<Section>) {
    forall i, j :: 0 <= i < j < |sections| ==> sections[i].typ != sections[j].typ
  }

  /** The dictionary has exactly the first `n` sections. */
  ghost predicate Lists(m: map<u32, Entry>, sections: seq<Section>, n: nat)
    requires Small(sections) && n <= |sections|
  {
    && (forall k :: 0 <= k < n ==> sections[k].typ in m && m[sections[k].typ] == EntryAt(sections, k))
    && (forall t :: t in m ==> exists k :: 0 <= k < n && sections[k].typ == t)
  }

  lemma {:induction false} DictionaryListsSections(crc: Crc, sections: seq<Section>, n: nat)
    requires Small(sections) && n <= |sections| && DistinctTypes(sections)
    ensures var r := ReadSections(PackBytes(crc, sections), n);
            r.Ok? && Lists(r.value, sections, n)
  {
    hide Small, PackBytes, ReadEntry, HoldsAt, EntryAt;
    if n == 0 {
    } else {
      DictionaryListsSections(crc, sections, n - 1);
      SectionReads(crc, sections, n - 1);
    }
  }

  /** A table line of a pack, and the bytes it points to. */
  lemma SectionReads(crc: Crc, sections: seq<Section>, k: nat)
    requires Small(sections) && k < |sections|
    ensures var pack, e := PackBytes(crc, sections), EntryAt(sections, k);
            && HEADER_SIZE + DESC_SIZE * (k + 1) <= |pack|
            && ReadEntry(pack, HEADER_SIZE + DESC_SIZE * k) == e
            && e.typ == sections[k].typ && e.count == sections[k].count
            && e.offset % 4 == 0 && e.offset + e.length <= |pack|
            && RawOf(pack, e) == sections[k].data
  {
    hide PackBytes, ReadEntry, OffsetOf, Small;
    TableReadsBack(crc, sections, k);
  }

  // ---------- the parts ----------

  lemma {:induction false} NameEndsAtZero(id: seq<byte>)
    requires 0 !in id
    ensures UpToZero(id + [0]) == id
  {
    if id == [] {
      assert UpToZero([0]) == [];
    } else {
      assert (id + [0])[1..] == id[1..] + [0];
      NameEndsAtZero(id[1..]);
      assert id == [id[0]] + id[1..];
    }
  }

  lemma RecordReadsBack(dataOffset: u32)
    ensures ReadU32(AssetRecord(dataOffset), 12) == dataOffset && ReadU32(AssetRecord(dataOffset), 16) == BG_LEN
  {
    hide U16, U32, ReadU32;
    var r := AssetRecord(dataOffset);
    assert r[12..16] == U32(dataOffset) && r[16..20] == U32(BG_LEN);
    U32ReadsBack(r, 12, dataOffset);
    U32ReadsBack(r, 16, BG_LEN);
  }

  lemma MetaReadsBack()
    ensures MetaOk(MetaBytes())
  {
    hide U16, U32, ReadU16;
    var r := MetaBytes();
    assert r[0..2] == U16(VERSION) && r[4..6] == U16(SCREEN_W) && r[6..8] == U16(SCREEN_H);
    U16ReadsBack(r, 0, VERSION);
    U16ReadsBack(r, 4, SCREEN_W);
    U16ReadsBack(r, 6, SCREEN_H);
  }

  /** What being accepted establishes about the parts. */
  ghost predicate GoodParts(p: Parts) {
    && Fitting(p) && 0 !in p.id
    && (forall i :: 0 <= i < |p.slots| ==> Sane(p.slots[i]))
    && (p.scene.Some? ==> |p.scene.value.0| >= 8 && p.scene.value.1 <= MAX_SCENE_NODES)
  }

  lemma AcceptedPartsAreGood(t: Theme)
    ensures AcceptedTheme(t).Ok? ==> GoodParts(AcceptedTheme(t).value)
  {
    hide AcceptedSlots, FirstSlotFault, SceneBytes.Compiled, Sane;
    if t.slots.Some? { AcceptedSlotsAreSane(t.slots.value); }
    if t.nodes.Some? { SceneHasHeader(t.env, t.nodes.value); }
    AcceptedFits(t);
  }

  lemma SceneHasHeader(env: Env, nodes: seq<Node>)
    ensures SceneBytes.Compiled(env, nodes).Ok? ==> |SceneBytes.Compiled(env, nodes).value| >= 8
  {
    hide AcceptedAll, SceneBytes.ItemsBytes;
  }

  lemma FinalTypes(p: Parts)
    requires Fitting(p)
    ensures var s := FinalSections(p);
            && 5 <= |s| <= 6 && (|s| == 6 <==> p.scene.Some?) && DistinctTypes(s)
            && (forall k :: 0 <= k < |s| ==> s[k].typ == k + 1)
            && s[0].data == MetaBytes() && s[1].data == p.id + [0]
            && s[2].data == SlotsBytes(p.slots) && s[2].count == |p.slots|
            && BackgroundOffset(p) < U32_LIMIT && s[3].data == AssetRecord(BackgroundOffset(p)) && s[3].count == 1
            && s[4].data == p.background
            && (p.scene.Some? ==> s[5].data == p.scene.value.0 && s[5].count == p.scene.value.1)
  {
    hide SlotsBytes, AssetRecord, MetaBytes, BackgroundOffset;
    BackgroundInside(p);
  }

  // ---------- the theorems ----------

  /** Every pack the compiler emits is one the validator accepts. */
  lemma EmittedPackIsValid(crc: Crc, t: Theme)
    ensures CompiledTheme(crc, t).Ok? ==> Fault(crc, CompiledTheme(crc, t).value) == None
  {
    hide AcceptedTheme, FinalSections, PackBytes, Fault, SlotsBytes;
    if CompiledTheme(crc, t).Ok? {
      var p := AcceptedTheme(t).value;
      AcceptedFits(t);
      AcceptedPartsAreGood(t);
      FinalTypes(p);
      PackIsValid(crc, FinalSections(p));
    }
  }

  /** Good parts, packed, decode to themselves: the slots in the present layout, the
      background from where the asset record points. */
  lemma PartsComeBack(crc: Crc, p: Parts)
    requires GoodParts(p)
    ensures DecodedPack(crc, PackBytes(crc, FinalSections(p)))
            == Ok(Decoded(p.id, p.slots, p.background, SceneOf(if p.scene.Some? then Some(p.scene.value.0) else None)))
  {
    hide SceneOf, FinalSections, PackBytes, Small, Lists, DecodedSections, ReadSections, ReadHeader, Sane;
    var sections := FinalSections(p);
    var pack := PackBytes(crc, sections);
    FinalTypes(p);
    PackHeader(crc, sections);
    DictionaryListsSections(crc, sections, |sections|);
    var m := ReadSections(pack, |sections|).value;
    SectionsDecode(crc, p, m);
  }

  lemma SectionsDecode(crc: Crc, p: Parts, m: map<u32, Entry>)
    requires GoodParts(p) && Lists(m, FinalSections(p), |FinalSections(p)|)
    ensures HasRequired(m)
    ensures DecodedSections(PackBytes(crc, FinalSections(p)), m)
            == Ok(Decoded(p.id, p.slots, p.background, SceneOf(if p.scene.Some? then Some(p.scene.value.0) else None)))
  {
    hide SceneOf, FinalSections, PackBytes, Small, EntryAt, RawOf, ReadEntry, MetaOk, UpToZero, SlotsRead;
    hide Sane, BackgroundRead, SlotsBytes, BackgroundOffset;
    var sections := FinalSections(p);
    var pack := PackBytes(crc, sections);
    FinalTypes(p);
    forall k | 0 <= k < |sections|
      ensures k + 1 in m && m[k + 1] == EntryAt(sections, k)
      ensures RawOf(pack, m[k + 1]) == sections[k].data && m[k + 1].count == sections[k].count
    {
      assert sections[k].typ == k + 1;
      SectionReads(crc, sections, k);
    }
    MetaReadsBack();
    NameEndsAtZero(p.id);
    SlotsReadAsWritten(p.slots);
    BackgroundReads(crc, p, m);
    assert SCENE in m <==> p.scene.Some?;
  }

  lemma SlotsReadAsWritten(slots: seq<Slot>)
    requires forall i :: 0 <= i < |slots| ==> Sane(slots[i])
    ensures SlotsRead(SlotsBytes(slots)) == slots
  {
    SlotsReadBack(slots);
  }

  lemma BackgroundReads(crc: Crc, p: Parts, m: map<u32, Entry>)
    requires Fitting(p)
    requires ASSETS in m && ASSET_DATA in m
    requires m[ASSETS].count == 1 && BackgroundOffset(p) < U32_LIMIT
    requires RawOf(PackBytes(crc, FinalSections(p)), m[ASSETS]) == AssetRecord(BackgroundOffset(p))
    ensures BackgroundRead(PackBytes(crc, FinalSections(p)), m) == p.background
  {
    hide FinalSections, PackBytes, Small, ReadEntry, RawOf, BackgroundOffset, AssetRecord, OffsetOf;
    var sections := FinalSections(p);
    FinalTypes(p);
    RecordReadsBack(BackgroundOffset(p));
    RecordPointsToBackground(p);
    TableReadsBack(crc, sections, 4);
  }

  /** Every theme the compiler accepts decodes to the same name, the accepted slots, the
      background and the scene. */
  lemma EmittedPackDecodes(crc: Crc, t: Theme)
    ensures CompiledTheme(crc, t).Ok? ==>
              && AcceptedTheme(t).Ok?
              && var p := AcceptedTheme(t).value;
                 DecodedPack(crc, CompiledTheme(crc, t).value)
                 == Ok(Decoded(p.id, p.slots, p.background,
                               SceneOf(if p.scene.Some? then Some(p.scene.value.0) else None)))
  {
    hide SceneOf, AcceptedTheme, FinalSections, PackBytes, DecodedPack, GoodParts;
    if CompiledTheme(crc, t).Ok? {
      AcceptedFits(t);
      AcceptedPartsAreGood(t);
      PartsComeBack(crc, AcceptedTheme(t).value);
    }
  }

  /** And the scene in it decodes to the theme's nodes. */
  lemma EmittedSceneDecodes(crc: Crc, t: Theme) returns (items: seq<Item>)
    requires CompiledTheme(crc, t).Ok? && t.nodes.Some?
    ensures AcceptedAll(t.env, t.nodes.value, 0) == Ok(items)
    ensures var d := DecodedPack(crc, CompiledTheme(crc, t).value);
            && d.Ok? && d.value.scene.Some?
            && d.value.scene.value.view == Commands(SceneBytes.CommandsOf(items))
  {
    EmittedPackDecodes(crc, t);
    hide DecodedPack, PackBytes, AcceptedAll, AcceptedSlotList, FinalSections;
    hide SceneBytes.Decoded, SceneBytes.CommandsOf, SceneBytes.Compiled;
    items := SceneRoundTrip.SceneComesBack(t.env, t.nodes.value);
  }

  // ---------- focus orders ----------

  /** No two focusable slots share a focus order. */
  predicate FocusDiffers(slots: seq<Slot>) {
    forall i, j :: 0 <= i < j < |slots| && slots[i].flags == 1 && slots[j].flags == 1 ==>
      slots[i].focusOrder != slots[j].focusOrder
  }

  lemma {:induction false} AcceptedOneByOne(specs: seq<SlotSpec>)
    requires AcceptedSlots(specs).Ok?
    ensures forall i :: 0 <= i < |specs| ==> AcceptedSlot(specs[i]) == Ok(AcceptedSlots(specs).value[i])
  {
    hide AcceptedSlot;
    if specs == [] {
    } else {
      AcceptedOneByOne(specs[1..]);
    }
  }

  lemma AcceptedFocusStands(s: SlotSpec)
    requires AcceptedSlot(s).Ok?
    ensures var slot := AcceptedSlot(s).value;
            (slot.flags == 1 <==> s.focusable) && (s.focusable ==> s.focusOrder == Some(slot.focusOrder))
  {
  }

  lemma {:induction false} NoFaultMeansDifferent(specs: seq<SlotSpec>)
    requires FirstSlotFault(specs) == None
    ensures forall i, j :: 0 <= i < j < |specs| ==>
              && specs[i].id != specs[j].id
              && (specs[i].focusable && specs[j].focusable ==> specs[i].focusOrder != specs[j].focusOrder)
  {
    hide AcceptedFocus;
    if specs == [] {
    } else {
      NoFaultMeansDifferent(specs[..|specs| - 1]);
    }
  }

  /** The slots of an emitted pack, as they are read back, have one focus order each. */
  lemma EmittedFocusDiffers(crc: Crc, t: Theme)
    requires CompiledTheme(crc, t).Ok?
    ensures var d := DecodedPack(crc, CompiledTheme(crc, t).value);
            d.Ok? && FocusDiffers(d.value.slots)
  {
    EmittedPackDecodes(crc, t);
    hide DecodedPack, PackBytes, AcceptedScene, AcceptedSlots, AcceptedSlot, FinalSections, FirstSlotFault, SceneOf;
    if t.slots.Some? {
      var specs := t.slots.value;
      NoFaultMeansDifferent(specs);
      AcceptedOneByOne(specs);
      forall i | 0 <= i < |specs|
        ensures var slot := AcceptedSlots(specs).value[i];
                && (slot.flags == 1 <==> specs[i].focusable)
                && (specs[i].focusable ==> specs[i].focusOrder == Some(slot.focusOrder))
      {
        AcceptedFocusStands(specs[i]);
      }
    }
  }
}
