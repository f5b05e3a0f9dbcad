/**
 The imperative halves of the theme tools: the layout loops and buffer writes of
 `compile_theme`, the checks of `validate_m4theme`, and the reading of `decode_m4theme`.
 They are proved against the functions whose properties are proved.
 */
module ThemeTools {

  import opened Wrappers
  import opened Bytes
  import SceneBytes
  import SceneCompiler
  import opened ThemePack
  import opened ThemeReaders
  import opened ThemeLayout

  // ---------- compiling ----------

  /** One layout pass: the offset of every section and the end of the last. */
  method Layout(sections: seq<Section>, base: nat) returns (offsets: seq<nat>, cur: nat)
    ensures |offsets| == |sections| && cur == End(sections, base)
    ensures forall k :: 0 <= k < |sections| ==> offsets[k] == OffsetOf(sections, base, k)
  {
    hide AlignUp, OffsetOf, End, Tail;
    offsets, cur := [], base;
    var i := 0;
    TailAtStart(sections, base);
    while i < |sections|
      invariant i <= |sections| && |offsets| == i && Tail(sections, base, i, cur)
      invariant forall k :: 0 <= k < i ==> offsets[k] == OffsetOf(sections, base, k)
    {
      TailStep(sections, base, i, cur);
      offsets := offsets + [AlignUp(cur)];
      cur := AlignUp(cur) + |sections[i].data|;
      i := i + 1;
    }
    TailAtEnd(sections, base, cur);
  }

  /** The section table. */
  method BuildTable(sections: seq<Section>, base: nat, offsets: seq<nat>) returns (table: seq<byte>)
    requires End(sections, base) < U32_LIMIT && |offsets| == |sections|
    requires forall k :: 0 <= k < |sections| ==> offsets[k] == OffsetOf(sections, base, k)
    ensures table == TableBytes(sections, base)
  {
    hide DescBytes, AlignUp, OffsetOf, End;
    table := [];
    ghost var cur: nat := base;
    var i := 0;
    assert sections[0..] == sections;
    forall k | 0 <= k < |sections|
      ensures OffsetOf(sections, base, k) + |sections[k].data| < U32_LIMIT
    {
      SectionEndsInside(sections, base, k);
    }
    TailAtStart(sections, base);
    while i < |sections|
      invariant i <= |sections| && Tail(sections, base, i, cur)
      invariant End(sections[i..], cur) < U32_LIMIT
      invariant table + TableBytes(sections[i..], cur) == TableBytes(sections, base)
    {
      TailStep(sections, base, i, cur);
      TableStep(sections[i..], cur);
      ghost var rest := TableBytes(sections[i + 1..], AlignUp(cur) + |sections[i].data|);
      var desc := DescBytes(sections[i].typ, offsets[i], |sections[i].data|, sections[i].count);
      assert sections[i..][1..] == sections[i + 1..] && sections[i..][0] == sections[i];
      assert table + (desc + rest) == (table + desc) + rest;
      table := table + desc;
      cur := AlignUp(cur) + |sections[i].data|;
      i := i + 1;
    }
    TableAtEnd(sections, cur, table);
  }

  /** The layout from section `i` on, started at `cur`, agrees with the whole. */
  ghost predicate Tail(sections: seq<Section>, base: nat, i: nat, cur: nat)
    requires i <= |sections|
  {
    End(sections[i..], cur) == End(sections, base)
    && forall k {:trigger OffsetOf(sections, base, k)} :: i <= k < |sections| ==>
         OffsetOf(sections[i..], cur, k - i) == OffsetOf(sections, base, k)
  }

  lemma TailAtStart(sections: seq<Section>, base: nat)
    ensures Tail(sections, base, 0, base)
  {
    assert sections[0..] == sections;
  }

  lemma TailAtEnd(sections: seq<Section>, base: nat, cur: nat)
    requires Tail(sections, base, |sections|, cur)
    ensures cur == End(sections, base)
  {
  }

  lemma TailStep(sections: seq<Section>, base: nat, i: nat, cur: nat)
    requires i < |sections| && Tail(sections, base, i, cur)
    ensures Tail(sections, base, i + 1, AlignUp(cur) + |sections[i].data|)
    ensures OffsetOf(sections, base, i) == AlignUp(cur)
  {
    hide AlignUp, OffsetOf, End;
    var rest, next := sections[i..], AlignUp(cur) + |sections[i].data|;
    assert rest[1..] == sections[i + 1..] && rest[0] == sections[i];
    FirstPlaced(rest, cur);
    assert OffsetOf(sections, base, i) == OffsetOf(rest, cur, i - i);
    forall k {:trigger OffsetOf(sections, base, k)} | i + 1 <= k < |sections|
      ensures OffsetOf(sections[i + 1..], next, k - (i + 1)) == OffsetOf(sections, base, k)
    {
      NextPlaced(rest, cur, k - i);
    }
  }

  lemma FirstPlaced(rest: seq<Section>, cur: nat)
    requires rest != []
    ensures OffsetOf(rest, cur, 0) == AlignUp(cur)
    ensures End(rest[1..], AlignUp(cur) + |rest[0].data|) == End(rest, cur)
  {
  }

  lemma NextPlaced(rest: seq<Section>, cur: nat, k: nat)
    requires 0 < k < |rest|
    ensures OffsetOf(rest, cur, k) == OffsetOf(rest[1..], AlignUp(cur) + |rest[0].data|, k - 1)
  {
  }

  lemma TableStep(rest: seq<Section>, cur: nat)
    requires rest != [] && End(rest, cur) < U32_LIMIT
    ensures var next := AlignUp(cur) + |rest[0].data|;
            && next <= End(rest[1..], next) == End(rest, cur)
            && TableBytes(rest, cur)
               == DescBytes(rest[0].typ, AlignUp(cur), |rest[0].data|, rest[0].count) + TableBytes(rest[1..], next)
  {
    hide AlignUp, DescBytes;
  }

  lemma TableAtEnd(sections: seq<Section>, cur: nat, table: seq<byte>)
    requires cur < U32_LIMIT
    ensures End(sections[|sections|..], cur) == cur
    ensures table + TableBytes(sections[|sections|..], cur) == table
  {
  }

  /** Every section written into the zeroed buffer at its offset. */
  method PlaceSections(buffer: seq<byte>, sections: seq<Section>, base: nat, offsets: seq<nat>, ghost prefix: seq<byte>)
    returns (file: seq<byte>)
    requires |prefix| == base && End(sections, base) <= |buffer| && buffer == prefix + Zeros(|buffer| - base)
    requires |offsets| == |sections| && forall k :: 0 <= k < |sections| ==> offsets[k] == OffsetOf(sections, base, k)
    ensures file == prefix + BodyBytes(sections, base) + Zeros(|buffer| - End(sections, base))
  {
    hide BodyBytes, OffsetOf, End, AlignUp, Zeros, Splice, Placing;
    file := buffer;
    ghost var total := |buffer|;
    ghost var cur: nat, placed: seq<byte> := base, [];
    assert prefix + placed == prefix;
    PlacingStarts(sections, base);
    var i := 0;
    while i < |sections|
      invariant i <= |sections| && Placing(sections, base, i, cur, placed)
      invariant base <= cur <= End(sections, base) && |placed| == cur - base
      invariant file == prefix + placed + Zeros(total - cur)
    {
      PlacingStep(sections, base, i, cur, placed);
      ghost var gap := AlignUp(cur) - cur;
      PlaceInZeros(prefix, placed, total - cur, gap, sections[i].data);
      file := Splice(file, offsets[i], sections[i].data);
      placed := placed + Zeros(gap) + sections[i].data;
      cur := AlignUp(cur) + |sections[i].data|;
      i := i + 1;
    }
    PlacingEnds(sections, base, cur, placed);
  }

  /** The first `i` sections are placed, up to file position `cur`. */
  ghost predicate Placing(sections: seq<Section>, base: nat, i: nat, cur: nat, placed: seq<byte>)
    requires i <= |sections|
  {
    Tail(sections, base, i, cur) && placed + BodyBytes(sections[i..], cur) == BodyBytes(sections, base)
  }

  lemma PlacingStarts(sections: seq<Section>, base: nat)
    ensures Placing(sections, base, 0, base, [])
  {
    TailAtStart(sections, base);
    BodyAtStart(sections, base);
  }

  lemma PlacingStep(sections: seq<Section>, base: nat, i: nat, cur: nat, placed: seq<byte>)
    requires i < |sections| && Placing(sections, base, i, cur, placed)
    ensures OffsetOf(sections, base, i) == AlignUp(cur) && AlignUp(cur) + |sections[i].data| <= End(sections, base)
    ensures Placing(sections, base, i + 1, AlignUp(cur) + |sections[i].data|,
                    placed + Zeros(AlignUp(cur) - cur) + sections[i].data)
  {
    hide BodyBytes, OffsetOf, End, AlignUp, Zeros;
    TailStep(sections, base, i, cur);
    BodyStep(sections[i..], cur, placed);
    assert sections[i..][1..] == sections[i + 1..] && sections[i..][0] == sections[i];
  }

  lemma PlacingEnds(sections: seq<Section>, base: nat, cur: nat, placed: seq<byte>)
    requires Placing(sections, base, |sections|, cur, placed)
    ensures placed == BodyBytes(sections, base) && cur == End(sections, base)
  {
    BodyAtEnd(sections, cur, placed);
  }

  /** The file buffer: the header, the table, every section at its offset, and then the
      header again with the checksum of what follows it. */
  method Assemble(crc: Crc, sections: seq<Section>) returns (file: seq<byte>)
    requires Small(sections)
    ensures file == PackBytes(crc, sections)
  {
    hide TableBytes, BodyBytes, HeaderBytes, OffsetOf, End, AlignUp, Zeros;
    var base := Base(sections);
    var offsets, end := Layout(sections, base);
    var total := AlignUp(end);
    var table := BuildTable(sections, base, offsets);
    file := Zeros(total);
    var header := HeaderBytes(total, |sections|, 0);
    FrontOfZeros(total, header, table);
    file := Splice(file, 0, header);
    file := Splice(file, HEADER_SIZE, table);
    file := PlaceSections(file, sections, base, offsets, header + table);
    ghost var rest := BodyBytes(sections, base) + Zeros(total - end);
    assert file == header + (table + rest);
    assert file[HEADER_SIZE..] == table + rest;
    var payload := file[HEADER_SIZE..];
    file := Splice(file, 0, HeaderBytes(total, |sections|, crc(payload)));
    assert file == HeaderBytes(total, |sections|, crc(payload)) + payload;
  }

  lemma FrontOfZeros(total: nat, header: seq<byte>, table: seq<byte>)
    requires |header| + |table| <= total
    ensures Splice(Splice(Zeros(total), 0, header), |header|, table)
            == header + table + Zeros(total - |header| - |table|)
  {
  }

  lemma BodyAtStart(sections: seq<Section>, base: nat)
    ensures [] + BodyBytes(sections[0..], base) == BodyBytes(sections, base)
    ensures End(sections[0..], base) == End(sections, base)
  {
    assert sections[0..] == sections;
  }

  lemma BodyStep(rest: seq<Section>, cur: nat, placed: seq<byte>)
    requires rest != []
    ensures var next := AlignUp(cur) + |rest[0].data|;
            && next <= End(rest[1..], next) == End(rest, cur)
            && placed + BodyBytes(rest, cur)
               == (placed + Zeros(AlignUp(cur) - cur) + rest[0].data) + BodyBytes(rest[1..], next)
  {
    hide AlignUp, Zeros;
    var next := AlignUp(cur) + |rest[0].data|;
    var gap, data, body := Zeros(AlignUp(cur) - cur), rest[0].data, BodyBytes(rest[1..], next);
    assert placed + (gap + (data + body)) == (placed + gap + data) + body;
  }

  lemma BodyAtEnd(sections: seq<Section>, cur: nat, placed: seq<byte>)
    ensures placed + BodyBytes(sections[|sections|..], cur) == placed
    ensures End(sections[|sections|..], cur) == cur
  {
  }

  /** Writing into the zeros after what is already placed. */
  lemma PlaceInZeros(prefix: seq<byte>, placed: seq<byte>, n: nat, gap: nat, data: seq<byte>)
    requires gap + |data| <= n
    ensures Splice(prefix + placed + Zeros(n), |prefix| + |placed| + gap, data)
            == prefix + (placed + Zeros(gap) + data) + Zeros(n - gap - |data|)
  {
    var front := prefix + placed;
    var whole := front + Zeros(n);
    assert whole[..|front| + gap] == front + Zeros(gap);
    assert whole[|front| + gap + |data|..] == Zeros(n - gap - |data|);
    assert prefix + (placed + Zeros(gap) + data) == front + Zeros(gap) + data;
  }

  /** The first loop over the slots: names and focus orders already seen are refused. */
  method CheckSlots(specs: seq<SlotSpec>) returns (r: Option<ThemeError>)
    ensures r == FirstSlotFault(specs)
  {
    hide AcceptedFocus, FirstSlotFault;
    var seen: set<string>, orders: set<Option<int>> := {}, {};
    var i := 0;
    NoSlotsYet(specs[..0]);
    while i < |specs|
      invariant i <= |specs| && FirstSlotFault(specs[..i]) == None
      invariant forall id :: id in seen <==> exists k :: 0 <= k < i && specs[k].id == id
      invariant forall o :: o in orders <==> exists k :: 0 <= k < i && specs[k].focusable && specs[k].focusOrder == o
    {
      var s := specs[i];
      OneMoreSlot(specs, i);
      FaultStays(specs, i + 1, |specs|);
      assert specs[..|specs|] == specs;
      if s.id == "" { return Some(BadSlot); }
      if s.id in seen { return Some(DuplicateSlot); }
      seen := seen + {s.id};
      if AcceptedFocus(s).Err? { return Some(BadSlot); }
      if s.focusable {
        if s.focusOrder in orders { return Some(DuplicateFocus); }
        orders := orders + {s.focusOrder};
      }
      i := i + 1;
    }
    assert specs[..|specs|] == specs;
    r := None;
  }

  lemma NoSlotsYet(specs: seq<SlotSpec>)
    requires specs == []
    ensures FirstSlotFault(specs) == None
  {
  }

  lemma OneMoreSlot(specs: seq<SlotSpec>, i: nat)
    requires i < |specs| && FirstSlotFault(specs[..i]) == None
    ensures FirstSlotFault(specs[..i + 1]) == SlotFault(specs[..i], specs[i])
  {
    hide SlotFault;
    assert specs[..i + 1][..i] == specs[..i];
  }

  lemma {:induction false} FaultStays(specs: seq<SlotSpec>, n: nat, m: nat)
    requires n <= m <= |specs|
    ensures FirstSlotFault(specs[..n]).Some? ==> FirstSlotFault(specs[..m]) == FirstSlotFault(specs[..n])
    decreases m
  {
    hide SlotFault;
    if n == m {
    } else {
      FaultStays(specs, n, m - 1);
      assert specs[..m][..m - 1] == specs[..m - 1];
    }
  }

  /** The slots of a theme, checked and then taken one by one. */
  method AcceptSlots(specs: seq<SlotSpec>) returns (r: Result<seq<Slot>, ThemeError>)
    ensures r == if FirstSlotFault(specs).Some? then Err(FirstSlotFault(specs).value) else AcceptedSlots(specs)
  {
    hide FirstSlotFault, AcceptedSlot, AcceptedSlots, Followed;
    var fault := CheckSlots(specs);
    if fault.Some? { return Err(fault.value); }
    var slots, i := [], 0;
    assert specs[0..] == specs;
    NothingFollowed(AcceptedSlots(specs));
    while i < |specs|
      invariant i <= |specs| && AcceptedSlots(specs) == Followed(slots, AcceptedSlots(specs[i..]))
    {
      var slot := AcceptedSlot(specs[i]);
      OneFollowed(slots, specs[i..]);
      assert specs[i..][1..] == specs[i + 1..];
      if slot.Err? { return Err(slot.error); }
      slots := slots + [slot.value];
      i := i + 1;
    }
    AllFollowed(slots, specs[i..]);
    r := Ok(slots);
  }

  function Followed(slots: seq<Slot>, rest: Result<seq<Slot>, ThemeError>): Result<seq<Slot>, ThemeError> {
    if rest.Err? then rest else Ok(slots + rest.value)
  }

  lemma NothingFollowed(rest: Result<seq<Slot>, ThemeError>)
    ensures Followed([], rest) == rest
  {
    if rest.Ok? { assert [] + rest.value == rest.value; }
  }

  lemma OneFollowed(slots: seq<Slot>, specs: seq<SlotSpec>)
    requires specs != []
    ensures Followed(slots, AcceptedSlots(specs))
            == match AcceptedSlot(specs[0])
               case Err(e) => Err(e)
               case Ok(slot) => Followed(slots + [slot], AcceptedSlots(specs[1..]))
  {
    hide AcceptedSlot;
    var slot, rest := AcceptedSlot(specs[0]), AcceptedSlots(specs[1..]);
    if slot.Ok? && rest.Ok? { assert slots + ([slot.value] + rest.value) == (slots + [slot.value]) + rest.value; }
  }

  lemma AllFollowed(slots: seq<Slot>, specs: seq<SlotSpec>)
    requires specs == []
    ensures Followed(slots, AcceptedSlots(specs)) == Ok(slots)
  {
    assert slots + [] == slots;
  }

  /** The first half of `compile_theme`: what the sections will be made of. */
  method AcceptTheme(t: Theme) returns (r: Result<Parts, ThemeError>)
    ensures r == AcceptedTheme(t)
  {
    hide AcceptedSlots, FirstSlotFault, SceneBytes.Compiled;
    if t.nodes.None? && t.slots.None? { return Err(NothingToShow); }
    if t.nodes.None? && t.background.None? { return Err(MissingPart); }
    if t.id == [] || 0 in t.id { return Err(BadId); }
    var slots: seq<Slot> := [];
    if t.slots.Some? {
      if |t.slots.value| > MAX_SLOTS || |t.slots.value| == 0 { return Err(BadSlots); }
      var accepted := AcceptSlots(t.slots.value);
      if accepted.Err? { return Err(accepted.error); }
      slots := accepted.value;
    }
    if |t.id| + 1 > MAX_STRINGS { return Err(StringsTooLong); }
    var background: Background := if t.background.Some? then t.background.value else Zeros(BG_LEN);
    var scene: Option<(seq<byte>, u32)> := None;
    if t.nodes.Some? {
      var compiled := SceneCompiler.CompileScene(t.env, t.nodes.value);
      if compiled.Err? { return Err(BadScene(compiled.error)); }
      assert AcceptedScene(t).Ok?;
      scene := Some((compiled.value, |t.nodes.value|));
    }
    r := Ok(Parts(t.id, slots, background, scene));
  }

  /** `compile_theme`: the sections are laid out once with a placeholder asset record, to
      learn where the background goes, and again with the real one. */
  method CompileTheme(crc: Crc, t: Theme) returns (r: Result<seq<byte>, ThemeError>)
    ensures r == CompiledTheme(crc, t)
  {
    hide AcceptedTheme, PackBytes, OffsetOf, End, Small;
    var accepted := AcceptTheme(t);
    if accepted.Err? { return Err(accepted.error); }
    AcceptedFits(t);
    var p := accepted.value;
    var sections := SectionsOf(p, 0);
    var offsets, _ := Layout(sections, Base(sections));
    var bgOffset := offsets[4];
    BackgroundInside(p);
    sections := sections[3 := Section(ASSETS, AssetRecord(bgOffset), 1)];
    assert sections == FinalSections(p);
    var file := Assemble(crc, sections);
    if |file| > MAX_TOTAL { return Err(PackTooLarge); }
    r := Ok(file);
  }

  // ---------- validating ----------

  /** `validate_m4theme` */
  method ValidateM4Theme(crc: Crc, data: seq<byte>) returns (r: Option<PackError>)
    ensures r == Fault(crc, data)
  {
    hide HeaderFault, EntryFault, RecordFault, Sorted, ReadEntry, FirstEntryFault, FirstRecordFault, FirstOverlap;
    var h := HeaderFault(crc, data);
    if h.Some? { return h; }
    var count := ReadHeader(data).sectionCount;
    ghost var entries := EntriesOf(data, count);
    var sections: seq<Entry>, i := [], 0;
    assert entries[0..] == entries;
    while i < count
      invariant 0 <= i <= count && sections == entries[..i]
      invariant FirstEntryFault(entries, |data|) == FirstEntryFault(entries[i..], |data|)
    {
      EntryFaultStep(entries[i..], |data|);
      var e := ReadEntry(data, HEADER_SIZE + DESC_SIZE * i);
      var f := EntryFault(e, |data|);
      if f.Some? { return f; }
      assert entries[i..][1..] == entries[i + 1..];
      sections := sections + [e];
      i := i + 1;
    }
    NoFaultLeft(entries[count..], |data|);
    assert sections == entries;
    r := CheckOverlap(Sorted(sections));
    if r.Some? { return r; }
    r := CheckRecords(sections);
  }

  lemma EntryFaultStep(entries: seq<Entry>, size: nat)
    requires entries != []
    ensures FirstEntryFault(entries, size)
            == if EntryFault(entries[0], size).Some? then EntryFault(entries[0], size)
               else FirstEntryFault(entries[1..], size)
  {
  }

  lemma NoFaultLeft(entries: seq<Entry>, size: nat)
    requires entries == []
    ensures FirstEntryFault(entries, size) == None && FirstRecordFault(entries) == None
  {
  }

  /** Neighbours in offset order. */
  method CheckOverlap(sorted: seq<Entry>) returns (r: Option<PackError>)
    ensures r == FirstOverlap(sorted)
  {
    var i := 0;
    assert sorted[0..] == sorted;
    while i + 1 < |sorted|
      invariant i <= |sorted| && FirstOverlap(sorted) == FirstOverlap(sorted[i..])
    {
      var cur, next := sorted[i], sorted[i + 1];
      if cur.offset + cur.length > next.offset { return Some(Overlap); }
      if cur.offset == next.offset && cur.length != 0 && next.length != 0 { return Some(DuplicateOffset); }
      assert sorted[i..][1..] == sorted[i + 1..];
      i := i + 1;
    }
    r := None;
  }

  method CheckRecords(sections: seq<Entry>) returns (r: Option<PackError>)
    ensures r == FirstRecordFault(sections)
  {
    hide RecordFault;
    var i := 0;
    assert sections[0..] == sections;
    while i < |sections|
      invariant i <= |sections| && FirstRecordFault(sections) == FirstRecordFault(sections[i..])
    {
      var f := RecordFault(sections[i]);
      if f.Some? { return f; }
      assert sections[i..][1..] == sections[i + 1..];
      i := i + 1;
    }
    r := None;
  }

  // ---------- decoding ----------

  /** `_try_parse_slots` in the present layout. */
  method TryParseSlots(raw: seq<byte>) returns (r: Option<seq<Slot>>)
    requires |raw| % SLOT_SIZE == 0
    ensures r == NewSlots(raw)
  {
    hide NewSlot;
    var out: seq<Slot>, rest := [], raw;
    NothingRead(NewSlots(raw));
    while rest != []
      invariant |rest| % SLOT_SIZE == 0
      invariant NewSlots(raw) == Read(out, NewSlots(rest))
      decreases |rest|
    {
      var slot := NewSlot(rest[..SLOT_SIZE]);
      OneRead(out, rest);
      if slot.None? { return None; }
      out := out + [slot.value];
      rest := rest[SLOT_SIZE..];
    }
    assert out + [] == out;
    r := Some(out);
  }

  function Read(out: seq<Slot>, rest: Option<seq<Slot>>): Option<seq<Slot>> {
    if rest.None? then None else Some(out + rest.value)
  }

  lemma NothingRead(rest: Option<seq<Slot>>)
    ensures Read([], rest) == rest
  {
    if rest.Some? { assert [] + rest.value == rest.value; }
  }

  lemma OneRead(out: seq<Slot>, raw: seq<byte>)
    requires raw != [] && |raw| % SLOT_SIZE == 0
    ensures var slot := NewSlot(raw[..SLOT_SIZE]);
            Read(out, NewSlots(raw))
            == if slot.None? then None else Read(out + [slot.value], NewSlots(raw[SLOT_SIZE..]))
  {
    hide NewSlot;
    var slot, rest := NewSlot(raw[..SLOT_SIZE]), NewSlots(raw[SLOT_SIZE..]);
    if slot.Some? && rest.Some? { assert out + ([slot.value] + rest.value) == (out + [slot.value]) + rest.value; }
  }

  /** `decode_m4theme` */
  method DecodeM4Theme(crc: Crc, data: seq<byte>) returns (r: Result<Decoded, PackError>)
    ensures r == DecodedPack(crc, data)
  {
    hide ReadEntry, RawOf, NewSlots, OldSlots, BackgroundRead, MetaOk, UpToZero, ReadHeader, DecodedSections;
    var h := DecoderHeaderFault(crc, data);
    if h.Some? { return Err(h.value); }
    var count := ReadHeader(data).sectionCount;
    var sections: map<u32, Entry> := map[];
    var i, off := 0, HEADER_SIZE;
    while i < count
      invariant 0 <= i <= count && off == HEADER_SIZE + DESC_SIZE * i
      invariant ReadSections(data, i) == Ok(sections)
    {
      if off + DESC_SIZE > |data| {
        ReadingStops(data, i + 1, count);
        return Err(TruncatedTable);
      }
      var e := ReadEntry(data, off);
      if e.offset % 4 != 0 {
        ReadingStops(data, i + 1, count);
        return Err(Misaligned);
      }
      if e.offset + e.length > |data| {
        ReadingStops(data, i + 1, count);
        return Err(Overflow);
      }
      sections := sections[e.typ := e];
      off := off + DESC_SIZE;
      i := i + 1;
    }
    if !HasRequired(sections) { return Err(MissingSection); }
    r := DecodeSections(data, sections);
  }

  /** The scene's commands, or what the decoder falls back on. */
  method ViewScene(raw: seq<byte>) returns (view: SceneView)
    ensures view == ViewOf(raw)
  {
    hide SceneBytes.Decoded, ReadU16;
    var decoded := SceneCompiler.DecodeScene(raw);
    if decoded.Ok? { return Commands(decoded.value); }
    view := if |raw| < 8 then Unreadable else CountOnly(ReadU16(raw, 2));
  }

  method DecodeSections(data: seq<byte>, sections: map<u32, Entry>) returns (r: Result<Decoded, PackError>)
    requires HasRequired(sections)
    ensures r == DecodedSections(data, sections)
  {
    hide RawOf, NewSlots, OldSlots, BackgroundRead, MetaOk, UpToZero;
    if !MetaOk(RawOf(data, sections[META])) { return Err(BadMeta); }
    var raw := RawOf(data, sections[SLOTS]);
    if |raw| != sections[SLOTS].count * SLOT_SIZE { return Err(SlotsLength); }
    var parsed := TryParseSlots(raw);
    var slots := if parsed.Some? then parsed.value else OldSlots(raw);
    if |RawOf(data, sections[ASSETS])| < sections[ASSETS].count * ASSET_SIZE { return Err(AssetCut); }
    var bg := BackgroundRead(data, sections);
    if |bg| != BG_LEN { return Err(BackgroundLength); }
    var scene: Option<SceneRead> := None;
    if SCENE in sections {
      var view := ViewScene(RawOf(data, sections[SCENE]));
      scene := Some(SceneRead(RawOf(data, sections[SCENE]), view));
    }
    r := Ok(Decoded(UpToZero(RawOf(data, sections[STRINGS])), slots, bg, scene));
  }

  lemma {:induction false} ReadingStops(data: seq<byte>, n: nat, m: nat)
    requires n <= m && ReadSections(data, n).Err?
    ensures ReadSections(data, m) == ReadSections(data, n)
    decreases m
  {
    hide ReadEntry;
    if n == m {
    } else {
      ReadingStops(data, n, m - 1);
    }
  }
}
