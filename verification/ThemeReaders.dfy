/**
 The two readers of a theme pack: `validate_m4theme` of
 firmware/tools/compile_home_theme.py and `decode_m4theme` of
 firmware/tools/preview_home_theme.py, on arbitrary bytes.
 */
module ThemeReaders {

  import opened Wrappers
  import opened Bytes
  import opened Scene
  import SceneBytes
  import opened ThemePack

  datatype Header = Header(magic: seq<byte>, version: u16, headerSize: u16, total: u32, screenW: u16, screenH: u16,
                           sectionCount: u16, flags: u16, crc: u32, reserved: seq<byte>)

  function ReadHeader(data: seq<byte>): Header
    requires |data| >= HEADER_SIZE
  {
    Header(data[..4], ReadU16(data, 4), ReadU16(data, 6), ReadU32(data, 8), ReadU16(data, 12), ReadU16(data, 14),
           ReadU16(data, 16), ReadU16(data, 18), ReadU32(data, 20), data[24..32])
  }

  /** One line of the section table. */
  datatype Entry = Entry(typ: u32, flags: u32, offset: u32, length: u32, count: u32, crc: u32)

  function ReadEntry(data: seq<byte>, off: nat): Entry
    requires off + DESC_SIZE <= |data|
  {
    Entry(ReadU32(data, off), ReadU32(data, off + 4), ReadU32(data, off + 8),
          ReadU32(data, off + 12), ReadU32(data, off + 16), ReadU32(data, off + 20))
  }

  function EntriesOf(data: seq<byte>, n: nat): (r: seq<Entry>)
    requires HEADER_SIZE + DESC_SIZE * n <= |data|
    ensures |r| == n
    ensures forall i :: 0 <= i < n ==> r[i] == ReadEntry(data, HEADER_SIZE + DESC_SIZE * i)
  {
    seq(n, i requires 0 <= i < n => ReadEntry(data, HEADER_SIZE + DESC_SIZE * i))
  }

  datatype PackError =
    | TooSmall | BadMagic | BadVersion | BadHeaderSize | BadTotal | BadScreen | BadSectionCount | BadFlags
    | BadReserved | TruncatedTable | CrcMismatch
    | UnknownSection | SectionFlags | Misaligned | Overflow | TooManySlots | Overlap | DuplicateOffset
    | SlotsLength | AssetsLength | DataLength | SceneTooSmall | SceneTooMany
    | MissingSection | BadMeta | AssetCut | BackgroundLength

  // ---------- the validator ----------

  /** What is wrong with the header, if anything; the section table is complete when nothing is. */
  function HeaderFault(crc: Crc, data: seq<byte>): (r: Option<PackError>)
    ensures r.None? ==> |data| >= HEADER_SIZE && HEADER_SIZE + DESC_SIZE * ReadHeader(data).sectionCount <= |data|
  {
    if |data| < HEADER_SIZE then Some(TooSmall)
    else
      var h := ReadHeader(data);
      if h.magic != MAGIC then Some(BadMagic)
      else if h.version != VERSION then Some(BadVersion)
      else if h.headerSize != HEADER_SIZE then Some(BadHeaderSize)
      else if h.total != |data| then Some(BadTotal)
      else if h.screenW != SCREEN_W || h.screenH != SCREEN_H then Some(BadScreen)
      else if h.sectionCount !in {5, 6, 7} then Some(BadSectionCount)
      else if h.flags != 0 then Some(BadFlags)
      else if h.reserved != Zeros(8) then Some(BadReserved)
      else if |data| < HEADER_SIZE + h.sectionCount * DESC_SIZE then Some(TruncatedTable)
      else if h.crc != crc(data[HEADER_SIZE..]) then Some(CrcMismatch)
      else None
  }

  function EntryFault(e: Entry, size: nat): Option<PackError> {
    if e.typ !in {1, 2, 3, 4, 5, 6, 7} then Some(UnknownSection)
    else if e.flags != 0 || e.crc != 0 then Some(SectionFlags)
    else if e.offset % 4 != 0 then Some(Misaligned)
    else if e.offset + e.length > size then Some(Overflow)
    else if e.count > 64 && e.typ == SLOTS then Some(TooManySlots)
    else None
  }

  function FirstEntryFault(entries: seq<Entry>, size: nat): Option<PackError> {
    if entries == [] then None
    else
      var f := EntryFault(entries[0], size);
      if f.Some? then f else FirstEntryFault(entries[1..], size)
  }

  /** Stable insertion before the first entry with a larger offset. */
  function Inserted(e: Entry, sorted: seq<Entry>): seq<Entry> {
    if sorted == [] || sorted[0].offset > e.offset then [e] + sorted else [sorted[0]] + Inserted(e, sorted[1..])
  }

  /** Python's `sorted` by offset, which keeps the order of equal offsets. */
  function Sorted(entries: seq<Entry>): seq<Entry> {
    if entries == [] then [] else Inserted(entries[|entries| - 1], Sorted(entries[..|entries| - 1]))
  }

  function FirstOverlap(sorted: seq<Entry>): Option<PackError> {
    if |sorted| < 2 then None
    else if sorted[0].offset + sorted[0].length > sorted[1].offset then Some(Overlap)
    else if sorted[0].offset == sorted[1].offset && sorted[0].length != 0 && sorted[1].length != 0
    then Some(DuplicateOffset)
    else FirstOverlap(sorted[1..])
  }

  function RecordFault(e: Entry): Option<PackError> {
    if e.typ == SLOTS && e.length != e.count * SLOT_SIZE then Some(SlotsLength)
    else if e.typ == SLOTS && e.count > MAX_SLOTS then Some(TooManySlots)
    else if e.typ == ASSETS && e.length != e.count * ASSET_SIZE then Some(AssetsLength)
    else if e.typ == ASSET_DATA && e.length != BG_LEN then Some(DataLength)
    else if e.typ == SCENE && e.length < 8 then Some(SceneTooSmall)
    else if e.typ == SCENE && e.count > MAX_SCENE_NODES then Some(SceneTooMany)
    else None
  }

  function FirstRecordFault(entries: seq<Entry>): Option<PackError> {
    if entries == [] then None
    else
      var f := RecordFault(entries[0]);
      if f.Some? then f else FirstRecordFault(entries[1..])
  }

  /** What the validator objects to; nothing when the theme is valid. */
  function Fault(crc: Crc, data: seq<byte>): Option<PackError> {
    var h := HeaderFault(crc, data);
    if h.Some? then h
    else
      var entries := EntriesOf(data, ReadHeader(data).sectionCount);
      var f := FirstEntryFault(entries, |data|);
      if f.Some? then f
      else
        var o := FirstOverlap(Sorted(entries));
        if o.Some? then o else FirstRecordFault(entries)
  }

  // ---------- the decoder ----------

  function DecoderHeaderFault(crc: Crc, data: seq<byte>): Option<PackError> {
    if |data| < HEADER_SIZE then Some(TooSmall)
    else
      var h := ReadHeader(data);
      if h.magic != MAGIC then Some(BadMagic)
      else if h.version != VERSION then Some(BadVersion)
      else if h.headerSize != HEADER_SIZE then Some(BadHeaderSize)
      else if h.total != |data| then Some(BadTotal)
      else if h.screenW != SCREEN_W || h.screenH != SCREEN_H then Some(BadScreen)
      else if h.sectionCount !in {5, 6, 7} then Some(BadSectionCount)
      else if h.crc != crc(data[HEADER_SIZE..]) then Some(CrcMismatch)
      else None
  }

  /** The table read into a dictionary by type: a later line replaces an earlier one. */
  function ReadSections(data: seq<byte>, n: nat): Result<map<u32, Entry>, PackError> {
    if n == 0 then Ok(map[])
    else
      match ReadSections(data, n - 1)
      case Err(e) => Err(e)
      case Ok(sections) =>
        var off := HEADER_SIZE + DESC_SIZE * (n - 1);
        if off + DESC_SIZE > |data| then Err(TruncatedTable)
        else
          var e := ReadEntry(data, off);
          if e.offset % 4 != 0 then Err(Misaligned)
          else if e.offset + e.length > |data| then Err(Overflow)
          else Ok(sections[e.typ := e])
  }

  /** A Python slice, which is clipped to the data. */
  function Clip(data: seq<byte>, from: nat, length: nat): seq<byte> {
    var a := if from <= |data| then from else |data|;
    var b := if a + length <= |data| then a + length else |data|;
    data[a..b]
  }

  function RawOf(data: seq<byte>, e: Entry): seq<byte> { Clip(data, e.offset, e.length) }

  predicate OnScreen(r: Rect) {
    r.x < SCREEN_W && r.y < SCREEN_H && r.w > 0 && r.h > 0 && r.x + r.w <= SCREEN_W && r.y + r.h <= SCREEN_H
  }

  predicate FocusOk(flags: byte, order: u16) {
    (order == NONE16 || order <= 63) && (flags % 2 == 1 || order == NONE16)
  }

  function ReadSlotRect(rec: seq<byte>, off: nat): Rect
    requires off + 8 <= |rec|
  {
    Rect(ReadU16(rec, off), ReadU16(rec, off + 2), ReadU16(rec, off + 4), ReadU16(rec, off + 6))
  }

  /** A record in the present layout, if it can be one. */
  function NewSlot(rec: seq<byte>): Option<Slot>
    requires |rec| == SLOT_SIZE
  {
    var rect := ReadSlotRect(rec, 10);
    if rec[9] != 0 || ReadU16(rec, 30) != 0 || !OnScreen(rect) || !FocusOk(rec[8], ReadU16(rec, 24)) then None
    else
      Some(Slot(rec[0], rec[1], rec[2], rec[3], rec[4], rec[5], rec[6], rec[7], rec[8], rect, ReadU16(rec, 18),
                ReadU16(rec, 20), ReadU16(rec, 22), ReadU16(rec, 24), ReadU16(rec, 26), ReadU16(rec, 28)))
  }

  /** A record is in the present layout exactly when its spare bytes are zero, its rectangle
      on the screen, and its focus order none, or up to 63 and its slot focusable. */
  lemma NewSlotIff(rec: seq<byte>)
    requires |rec| == SLOT_SIZE
    ensures var x, y, w, h := ReadU16(rec, 10), ReadU16(rec, 12), ReadU16(rec, 14), ReadU16(rec, 16);
            var order := ReadU16(rec, 24);
            NewSlot(rec).Some?
            <==> && rec[9] == 0 && ReadU16(rec, 30) == 0
                 && x < 480 && y < 800 && w > 0 && h > 0 && x + w <= 480 && y + h <= 800
                 && (order == 0xFFFF || (order <= 63 && rec[8] % 2 == 1))
  {
  }

  /** The same record in the former layout, unchecked. */
  function OldSlot(rec: seq<byte>): Slot
    requires |rec| == SLOT_SIZE
  {
    Slot(rec[0], rec[1], rec[2], rec[3], rec[4], rec[5], 0xFF, rec[6], rec[7], ReadSlotRect(rec, 8), ReadU16(rec, 16),
         0, 0, ReadU16(rec, 18), ReadU16(rec, 20), ReadU16(rec, 22))
  }

  /** A record as the former layout has it: eight bytes, seven words, and eight bytes unused. */
  lemma OldSlotReads(s: Slot, unused: seq<byte>)
    requires |unused| == 8 && s.style == 0xFF && s.stroke == 0 && s.focusInset == 0
    ensures var words := U16(s.rect.x) + U16(s.rect.y) + U16(s.rect.w) + U16(s.rect.h) + U16(s.radius)
                         + U16(s.focusOrder) + U16(s.asset) + U16(s.stringOff);
            OldSlot([s.stype, s.binding, s.targetKind, s.targetIndex, s.targetAction, s.font, s.align, s.flags]
                    + words + unused) == s
  {
    hide U16, ReadU16;
    var front := [s.stype, s.binding, s.targetKind, s.targetIndex, s.targetAction, s.font, s.align, s.flags];
    var words := U16(s.rect.x) + U16(s.rect.y) + U16(s.rect.w) + U16(s.rect.h) + U16(s.radius)
                 + U16(s.focusOrder) + U16(s.asset) + U16(s.stringOff);
    var rec := front + words + unused;
    U16ReadsBack(rec, 8, s.rect.x);
    U16ReadsBack(rec, 10, s.rect.y);
    U16ReadsBack(rec, 12, s.rect.w);
    U16ReadsBack(rec, 14, s.rect.h);
    U16ReadsBack(rec, 16, s.radius);
    U16ReadsBack(rec, 18, s.focusOrder);
    U16ReadsBack(rec, 20, s.asset);
    U16ReadsBack(rec, 22, s.stringOff);
  }

  function NewSlots(raw: seq<byte>): Option<seq<Slot>>
    requires |raw| % SLOT_SIZE == 0
    decreases |raw|
  {
    if raw == [] then Some([])
    else
      match NewSlot(raw[..SLOT_SIZE])
      case None => None
      case Some(slot) =>
        match NewSlots(raw[SLOT_SIZE..])
        case None => None
        case Some(rest) => Some([slot] + rest)
  }

  function OldSlots(raw: seq<byte>): seq<Slot>
    requires |raw| % SLOT_SIZE == 0
    decreases |raw|
  {
    if raw == [] then [] else [OldSlot(raw[..SLOT_SIZE])] + OldSlots(raw[SLOT_SIZE..])
  }

  /** The present layout if every record fits it, else the former one. */
  function SlotsRead(raw: seq<byte>): seq<Slot>
    requires |raw| % SLOT_SIZE == 0
  {
    var slots := NewSlots(raw);
    if slots.Some? then slots.value else OldSlots(raw)
  }

  lemma {:induction false} OldSlotsAre(raw: seq<byte>, k: nat)
    requires |raw| % SLOT_SIZE == 0 && SLOT_SIZE * k < |raw|
    ensures |OldSlots(raw)| == |raw| / SLOT_SIZE
    ensures OldSlots(raw)[k] == OldSlot(raw[SLOT_SIZE * k..SLOT_SIZE * k + SLOT_SIZE])
    decreases |raw|
  {
    hide OldSlot;
    var rest := raw[SLOT_SIZE..];
    if k > 0 {
      OldSlotsAre(rest, k - 1);
      assert rest[SLOT_SIZE * (k - 1)..SLOT_SIZE * k] == raw[SLOT_SIZE * k..SLOT_SIZE * k + SLOT_SIZE];
    } else if rest != [] {
      OldSlotsAre(rest, 0);
    }
  }

  /** One record that is not in the present layout, and all are read in the former one. */
  lemma FormerLayoutIsRead(raw: seq<byte>, bad: nat, k: nat)
    requires |raw| % SLOT_SIZE == 0 && SLOT_SIZE * bad < |raw| && SLOT_SIZE * k < |raw|
    requires NewSlot(raw[SLOT_SIZE * bad..SLOT_SIZE * bad + SLOT_SIZE]).None?
    ensures |SlotsRead(raw)| == |raw| / SLOT_SIZE
    ensures SlotsRead(raw)[k] == OldSlot(raw[SLOT_SIZE * k..SLOT_SIZE * k + SLOT_SIZE])
  {
    hide NewSlot, OldSlot;
    OneBadRecord(raw, bad);
    OldSlotsAre(raw, k);
  }

  lemma {:induction false} OneBadRecord(raw: seq<byte>, bad: nat)
    requires |raw| % SLOT_SIZE == 0 && SLOT_SIZE * bad < |raw|
    requires NewSlot(raw[SLOT_SIZE * bad..SLOT_SIZE * bad + SLOT_SIZE]).None?
    ensures NewSlots(raw).None?
    decreases |raw|
  {
    hide NewSlot;
    if bad == 0 {
    } else {
      var rest := raw[SLOT_SIZE..];
      assert rest[SLOT_SIZE * (bad - 1)..SLOT_SIZE * bad] == raw[SLOT_SIZE * bad..SLOT_SIZE * bad + SLOT_SIZE];
      OneBadRecord(rest, bad - 1);
    }
  }

  /** The bytes before the first zero. */
  function UpToZero(s: seq<byte>): seq<byte> {
    if s == [] || s[0] == 0 then [] else [s[0]] + UpToZero(s[1..])
  }

  /** What the decoder shows of a scene: its commands, or only how many it claims to have,
      or nothing when even that is cut off. */
  datatype SceneView = Commands(commands: seq<SceneBytes.Command>) | CountOnly(count: nat) | Unreadable

  function ViewOf(raw: seq<byte>): SceneView {
    match SceneBytes.Decoded(raw)
    case Ok(commands) => Commands(commands)
    case Err(_) => if |raw| < 8 then Unreadable else CountOnly(ReadU16(raw, 2))
  }

  /** A scene that does not decode shows the count its header claims, if it has a header. */
  lemma DamagedSceneIsShown(raw: seq<byte>)
    requires SceneBytes.Decoded(raw).Err?
    ensures |raw| < 8 ==> ViewOf(raw) == Unreadable
    ensures |raw| >= 8 ==> ViewOf(raw) == CountOnly((raw[2] as int) + 256 * (raw[3] as int))
  {
  }

  /** A scene section: its bytes and what is shown of it. */
  datatype SceneRead = SceneRead(raw: seq<byte>, view: SceneView)

  datatype Decoded = Decoded(id: seq<byte>, slots: seq<Slot>, background: seq<byte>, scene: Option<SceneRead>)

  function SceneOf(raw: Option<seq<byte>>): Option<SceneRead> {
    if raw.None? then None else Some(SceneRead(raw.value, ViewOf(raw.value)))
  }

  predicate HasRequired(sections: map<u32, Entry>) {
    META in sections && STRINGS in sections && SLOTS in sections && ASSETS in sections && ASSET_DATA in sections
  }

  predicate MetaOk(raw: seq<byte>) {
    |raw| == 16 && ReadU16(raw, 0) == VERSION && ReadU16(raw, 4) == SCREEN_W && ReadU16(raw, 6) == SCREEN_H
  }

  /** The background: where the first asset record says, or the section when that is not 48000 bytes. */
  function BackgroundRead(data: seq<byte>, sections: map<u32, Entry>): seq<byte>
    requires ASSETS in sections && ASSET_DATA in sections
  {
    var assets := RawOf(data, sections[ASSETS]);
    if sections[ASSETS].count == 0 || |assets| < ASSET_SIZE then RawOf(data, sections[ASSET_DATA])
    else
      var bg := Clip(data, ReadU32(assets, 12), ReadU32(assets, 16));
      if |bg| == BG_LEN then bg else RawOf(data, sections[ASSET_DATA])
  }

  function DecodedPack(crc: Crc, data: seq<byte>): Result<Decoded, PackError> {
    var h := DecoderHeaderFault(crc, data);
    if h.Some? then Err(h.value)
    else
      match ReadSections(data, ReadHeader(data).sectionCount)
      case Err(e) => Err(e)
      case Ok(sections) => if !HasRequired(sections) then Err(MissingSection) else DecodedSections(data, sections)
  }

  function DecodedSections(data: seq<byte>, sections: map<u32, Entry>): Result<Decoded, PackError>
    requires HasRequired(sections)
  {
    var slots := RawOf(data, sections[SLOTS]);
    var assets := RawOf(data, sections[ASSETS]);
    if !MetaOk(RawOf(data, sections[META])) then Err(BadMeta)
    else if |slots| != sections[SLOTS].count * SLOT_SIZE then Err(SlotsLength)
    else if |assets| < sections[ASSETS].count * ASSET_SIZE then Err(AssetCut)
    else
      var bg := BackgroundRead(data, sections);
      if |bg| != BG_LEN then Err(BackgroundLength)
      else
        Ok(Decoded(UpToZero(RawOf(data, sections[STRINGS])), SlotsRead(slots), bg,
                   SceneOf(if SCENE in sections then Some(RawOf(data, sections[SCENE])) else None)))
  }
}
