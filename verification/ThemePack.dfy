/**
 The M4TH theme pack: `_pack_slot`, `_pack_asset_record` and the layout of
 firmware/tools/compile_home_theme.py.  The background raster is an input; CRC-32 is
 an arbitrary function.
 */
module ThemePack {

  import opened Wrappers
  import opened Bytes
  import opened Scene
  import SceneBytes

  const MAGIC: seq<byte> := [0x4D, 0x34, 0x54, 0x48]
  const VERSION := 1
  const HEADER_SIZE := 32
  const DESC_SIZE := 24
  const SLOT_SIZE := 32
  const ASSET_SIZE := 24
  const BG_LEN := 48000
  const BG_STRIDE := 60
  const MAX_SLOTS := 64
  const MAX_STRINGS := 8 * 1024
  const MAX_TOTAL := 256 * 1024

  const META := 1
  const STRINGS := 2
  const SLOTS := 3
  const ASSETS := 4
  const ASSET_DATA := 5
  const SCENE := 6

  type Crc = seq<byte> -> u32

  type Background = s: seq<byte> | |s| == BG_LEN witness Zeros(BG_LEN)

  // ---------- what the author writes ----------

  datatype Target = NoTarget | RecentBook(index: int) | ActionTarget(action: byte)

  /** A slot with its names looked up: type, binding, font and style, alignment. */
  datatype SlotSpec = SlotSpec(id: string, stype: byte, binding: byte, target: Target, font: Option<(byte, byte)>,
                               align: byte, rect: NodeRect, radius: int, stroke: int, focusInset: int,
                               focusable: bool, focusOrder: Option<int>, asset: Option<int>)

  /** `id` is the UTF-8 of the theme's name. */
  datatype Theme = Theme(id: seq<byte>, slots: Option<seq<SlotSpec>>, background: Option<Background>,
                         nodes: Option<seq<Node>>, env: Env)

  // ---------- slots ----------

  datatype Slot = Slot(stype: byte, binding: byte, targetKind: byte, targetIndex: byte, targetAction: byte,
                       font: byte, style: byte, align: byte, flags: byte, rect: Rect, radius: u16, stroke: u16,
                       focusInset: u16, focusOrder: u16, asset: u16, stringOff: u16)

  const NONE16: u16 := 0xFFFF

  datatype ThemeError =
    | NothingToShow | BadId | BadSlots | BadSlot | DuplicateSlot | DuplicateFocus | MissingPart
    | BadScene(error: SceneError) | StringsTooLong | PackTooLarge

  function AcceptedTarget(t: Target): Result<(byte, byte, byte), ThemeError> {
    match t
    case NoTarget => Ok((0, 0, 0))
    case RecentBook(index) => if 0 <= index <= 3 then Ok((1, index, 0)) else Err(BadSlot)
    case ActionTarget(action) => Ok((2, 0, action))
  }

  function AcceptedFocus(s: SlotSpec): Result<u16, ThemeError> {
    if !s.focusable then (if s.focusOrder.Some? then Err(BadSlot) else Ok(NONE16))
    else if s.focusOrder.None? || !(0 <= s.focusOrder.value <= 63) then Err(BadSlot)
    else Ok(s.focusOrder.value)
  }

  /** The checks of `_pack_slot`. */
  function AcceptedSlot(s: SlotSpec): Result<Slot, ThemeError> {
    match Inside(s.rect)
    case Err(_) => Err(BadSlot)
    case Ok(rect) =>
      if s.font.None? && s.stype == 0 then Err(BadSlot)
      else if !(0 <= s.radius <= 64) || !(0 <= s.stroke <= 8) || !(0 <= s.focusInset <= 8) then Err(BadSlot)
      else if s.asset.Some? && !(0 <= s.asset.value <= 31) then Err(BadSlot)
      else
        match AcceptedFocus(s)
        case Err(e) => Err(e)
        case Ok(order) =>
          match AcceptedTarget(s.target)
          case Err(e) => Err(e)
          case Ok(target) =>
            var font: (byte, byte) := if s.font.Some? then s.font.value else (0xFF, 0xFF);
            Ok(Slot(s.stype, s.binding, target.0, target.1, target.2, font.0, font.1,
                    if s.stype == 0 then s.align else 0, if s.focusable then 1 else 0,
                    rect, s.radius, s.stroke, s.focusInset, order,
                    if s.asset.Some? then s.asset.value else NONE16, NONE16))
  }

  /** What is wrong with a slot listed after `before`: no name, a name or a focus order
      used before, or a focus order that does not go with being focusable. */
  function SlotFault(before: seq<SlotSpec>, s: SlotSpec): Option<ThemeError> {
    if s.id == "" then Some(BadSlot)
    else if exists i :: 0 <= i < |before| && before[i].id == s.id then Some(DuplicateSlot)
    else if AcceptedFocus(s).Err? then Some(BadSlot)
    else if s.focusable && exists i :: 0 <= i < |before| && before[i].focusable && before[i].focusOrder == s.focusOrder
    then Some(DuplicateFocus)
    else None
  }

  /** What the first loop over the slots objects to. */
  function FirstSlotFault(specs: seq<SlotSpec>): Option<ThemeError> {
    if specs == [] then None
    else
      var before := specs[..|specs| - 1];
      var f := FirstSlotFault(before);
      if f.Some? then f else SlotFault(before, specs[|specs| - 1])
  }

  function AcceptedSlots(specs: seq<SlotSpec>): (r: Result<seq<Slot>, ThemeError>)
    ensures r.Ok? ==> |r.value| == |specs|
  {
    if specs == [] then Ok([])
    else
      match AcceptedSlot(specs[0])
      case Err(e) => Err(e)
      case Ok(slot) =>
        match AcceptedSlots(specs[1..])
        case Err(e) => Err(e)
        case Ok(rest) => Ok([slot] + rest)
  }

  function SlotBytes(s: Slot): (r: seq<byte>)
    ensures |r| == SLOT_SIZE
  {
    [s.stype, s.binding, s.targetKind, s.targetIndex, s.targetAction, s.font, s.style, s.align, s.flags, 0]
    + (SceneBytes.RectBytes(s.rect) + (U16(s.radius) + U16(s.stroke) + U16(s.focusInset) + U16(s.focusOrder)
                            + U16(s.asset) + U16(s.stringOff) + U16(0)))
  }

  function SlotsBytes(slots: seq<Slot>): (r: seq<byte>)
    ensures |r| == SLOT_SIZE * |slots|
  {
    if slots == [] then [] else SlotBytes(slots[0]) + SlotsBytes(slots[1..])
  }

  /** The record of the background asset. */
  function AssetRecord(dataOffset: u32): (r: seq<byte>)
    ensures |r| == ASSET_SIZE
  {
    U16(0) + [0, 0] + U16(SCREEN_W) + U16(SCREEN_H) + U16(BG_STRIDE) + U16(0) + U32(dataOffset) + U32(BG_LEN) + U32(0)
  }

  function MetaBytes(): (r: seq<byte>)
    ensures |r| == 16
  {
    U16(VERSION) + U16(HEADER_SIZE) + U16(SCREEN_W) + U16(SCREEN_H) + U32(0) + U32(0)
  }

  // ---------- sections ----------

  datatype Section = Section(typ: u32, data: seq<byte>, count: u32)

  /** Where section `k` goes when the first may start at `cur`. */
  function OffsetOf(sections: seq<Section>, cur: nat, k: nat): (off: nat)
    requires k < |sections|
    ensures off % 4 == 0 && off >= cur
    decreases k
  {
    if k == 0 then AlignUp(cur) else OffsetOf(sections[1..], AlignUp(cur) + |sections[0].data|, k - 1)
  }

  function End(sections: seq<Section>, cur: nat): (end: nat)
    ensures end >= cur
    decreases |sections|
  {
    if sections == [] then cur else End(sections[1..], AlignUp(cur) + |sections[0].data|)
  }

  function DescBytes(typ: u32, offset: u32, length: u32, count: u32): (r: seq<byte>)
    ensures |r| == DESC_SIZE
  {
    U32(typ) + U32(0) + U32(offset) + U32(length) + U32(count) + U32(0)
  }

  function TableBytes(sections: seq<Section>, cur: nat): (r: seq<byte>)
    requires End(sections, cur) < U32_LIMIT
    ensures |r| == DESC_SIZE * |sections|
    decreases |sections|
  {
    if sections == [] then []
    else
      var next := AlignUp(cur) + |sections[0].data|;
      assert next <= End(sections[1..], next) == End(sections, cur);
      DescBytes(sections[0].typ, AlignUp(cur), |sections[0].data|, sections[0].count) + TableBytes(sections[1..], next)
  }

  /** The sections with the gaps before them, from file position `cur` on. */
  function BodyBytes(sections: seq<Section>, cur: nat): (r: seq<byte>)
    ensures cur + |r| == End(sections, cur)
    decreases |sections|
  {
    if sections == [] then []
    else
      Zeros(AlignUp(cur) - cur) + (sections[0].data + BodyBytes(sections[1..], AlignUp(cur) + |sections[0].data|))
  }

  function HeaderBytes(total: u32, sectionCount: u16, crc: u32): (r: seq<byte>)
    ensures |r| == HEADER_SIZE
  {
    MAGIC + U16(VERSION) + U16(HEADER_SIZE) + U32(total) + U16(SCREEN_W) + U16(SCREEN_H) + U16(sectionCount) + U16(0)
    + U32(crc) + Zeros(8)
  }

  /** The first byte after the section table. */
  function Base(sections: seq<Section>): nat { HEADER_SIZE + DESC_SIZE * |sections| }

  predicate Small(sections: seq<Section>) {
    |sections| < U16_LIMIT && AlignUp(End(sections, Base(sections))) < U32_LIMIT
  }

  function PayloadBytes(sections: seq<Section>): (r: seq<byte>)
    requires Small(sections)
    ensures HEADER_SIZE + |r| == AlignUp(End(sections, Base(sections)))
  {
    var base, end := Base(sections), End(sections, Base(sections));
    TableBytes(sections, base) + (BodyBytes(sections, base) + Zeros(AlignUp(end) - end))
  }

  function PackBytes(crc: Crc, sections: seq<Section>): (r: seq<byte>)
    requires Small(sections)
    ensures |r| == AlignUp(End(sections, Base(sections)))
  {
    var payload := PayloadBytes(sections);
    HeaderBytes(HEADER_SIZE + |payload|, |sections|, crc(payload)) + payload
  }

  // ---------- a theme and its sections ----------

  /** A theme the compiler accepts: slots, background and scene bytes. */
  datatype Parts = Parts(id: seq<byte>, slots: seq<Slot>, background: Background, scene: Option<(seq<byte>, u32)>)

  function AcceptedSlotList(t: Theme): Result<seq<Slot>, ThemeError> {
    if t.slots.None? then Ok([])
    else if !(1 <= |t.slots.value| <= MAX_SLOTS) then Err(BadSlots)
    else
      var f := FirstSlotFault(t.slots.value);
      if f.Some? then Err(f.value) else AcceptedSlots(t.slots.value)
  }

  function AcceptedScene(t: Theme): (r: Result<Option<(seq<byte>, u32)>, ThemeError>)
    ensures r.Ok? && r.value.Some? ==>
              1 <= r.value.value.1 <= MAX_SCENE_NODES && |r.value.value.0| <= SceneBytes.SCENE_LIMIT
  {
    if t.nodes.None? then Ok(None)
    else
      match SceneBytes.Compiled(t.env, t.nodes.value)
      case Err(e) => Err(BadScene(e))
      case Ok(bytes) => Ok(Some((bytes, |t.nodes.value|)))
  }

  /** The checks that `compile_theme` makes on a theme, in its order. */
  function AcceptedTheme(t: Theme): Result<Parts, ThemeError> {
    if t.nodes.None? && t.slots.None? then Err(NothingToShow)
    else if t.nodes.None? && t.background.None? then Err(MissingPart)
    else if t.id == [] || 0 in t.id then Err(BadId)
    else
      match AcceptedSlotList(t)
      case Err(e) => Err(e)
      case Ok(slots) =>
        if |t.id| + 1 > MAX_STRINGS then Err(StringsTooLong)
        else
          match AcceptedScene(t)
          case Err(e) => Err(e)
          case Ok(scene) =>
            Ok(Parts(t.id, slots, if t.background.Some? then t.background.value else Zeros(BG_LEN), scene))
  }

  /** The sections, with an asset record that points to `dataOffset`. */
  function SectionsOf(p: Parts, dataOffset: u32): (r: seq<Section>)
    requires |p.slots| <= MAX_SLOTS
    ensures |r| == if p.scene.Some? then 6 else 5
  {
    [Section(META, MetaBytes(), 0),
     Section(STRINGS, p.id + [0], 0),
     Section(SLOTS, SlotsBytes(p.slots), |p.slots|),
     Section(ASSETS, AssetRecord(dataOffset), 1),
     Section(ASSET_DATA, p.background, 1)]
    + (if p.scene.Some? then [Section(SCENE, p.scene.value.0, p.scene.value.1)] else [])
  }

  /** Where the background goes: the layout with a placeholder record. */
  function BackgroundOffset(p: Parts): nat
    requires |p.slots| <= MAX_SLOTS
  {
    var sections := SectionsOf(p, 0);
    OffsetOf(sections, Base(sections), 4)
  }
}
