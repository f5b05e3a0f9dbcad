/**
 The byte layouts that devices and scripts share, offset by offset, as the sources write
 and document them: the theme pack, its scenes, the two font blobs, and the two stores.
 A reader and a writer that agreed with each other on some other layout would not do.
 */
module Layouts {

  import opened Wrappers
  import opened Bytes
  import opened Bits
  import PackedFields
  import Scene
  import SceneBytes
  import SceneRoundTrip
  import ThemePack
  import ThemeRoundTrip
  import ThemeValidity
  import RankedIndex
  import KernelBlob
  import NativeGridBlob
  import WifiCodec
  import RecentBooks
  import RecentBooksFile

  // ---------- numbers in bytes ----------

  predicate ByteAt(s: seq<byte>, off: nat, v: int) { off < |s| && s[off] as int == v }

  /** Two bytes, the low one first. */
  predicate WordAt(s: seq<byte>, off: nat, v: int) {
    off + 2 <= |s| && (s[off] as int) + 0x100 * (s[off + 1] as int) == v
  }

  predicate LongAt(s: seq<byte>, off: nat, v: int) {
    && off + 4 <= |s|
    && (s[off] as int) + 0x100 * (s[off + 1] as int) + 0x1_0000 * (s[off + 2] as int)
       + 0x100_0000 * (s[off + 3] as int) == v
  }

  predicate ZerosAt(s: seq<byte>, off: nat, n: nat) {
    off + n <= |s| && forall i :: off <= i < off + n ==> s[i] == 0
  }

  lemma WordStands(s: seq<byte>, off: nat, v: int)
    requires 0 <= v < U16_LIMIT && off + 2 <= |s| && s[off..off + 2] == U16(v)
    ensures WordAt(s, off, v)
  {
    assert s[off] == U16(v)[0] && s[off + 1] == U16(v)[1];
  }

  lemma LongStands(s: seq<byte>, off: nat, v: int)
    requires 0 <= v < U32_LIMIT && off + 4 <= |s| && s[off..off + 4] == U32(v)
    ensures LongAt(s, off, v)
  {
    LittleEndian(v);
    assert s[off] == U32(v)[0] && s[off + 1] == U32(v)[1] && s[off + 2] == U32(v)[2] && s[off + 3] == U32(v)[3];
  }

  /** What a bit and a two-bit field are. */
  lemma {:induction false} BitIs(v: nat, k: nat)
    ensures Bit(v, k) <==> v / Pow2(k) % 2 == 1
  {
    if k == 0 {
    } else {
      BitIs(v / 2, k - 1);
      HalfThenRest(v, Pow2(k - 1));
    }
  }

  lemma HalfThenRest(v: nat, p: nat)
    requires p > 0
    ensures v / 2 / p == v / (2 * p)
  {
    var q := v / (2 * p);
    var r := v % (2 * p);
    assert v == q * (2 * p) + r;
    assert v / 2 == q * p + r / 2;
    assert r / 2 < p;
    DivUnique(v / 2, p, q, r / 2);
  }

  lemma DivUnique(a: nat, p: nat, q: nat, r: nat)
    requires p > 0 && r < p && a == q * p + r
    ensures a / p == q
  {
    var k := a / p - q;
    assert a == a / p * p + a % p;
    assert k * p == a / p * p - q * p;
    AtLeastOnce(k, p);
  }

  lemma AtLeastOnce(k: int, p: nat)
    ensures k > 0 ==> k * p >= p
    ensures k < 0 ==> k * p + p <= 0
  {
  }

  // ---------- the theme pack ----------

  lemma PackHeader(total: u32, sectionCount: u16, crc: u32)
    ensures var h := ThemePack.HeaderBytes(total, sectionCount, crc);
            && |h| == 32 && h[..4] == ['M' as int, '4' as int, 'T' as int, 'H' as int]
            && WordAt(h, 4, 1) && WordAt(h, 6, 32) && LongAt(h, 8, total)
            && WordAt(h, 12, 480) && WordAt(h, 14, 800) && WordAt(h, 16, sectionCount) && WordAt(h, 18, 0)
            && LongAt(h, 20, crc) && ZerosAt(h, 24, 8)
  {
    hide U16, U32, WordAt, LongAt;
    var h := ThemePack.HeaderBytes(total, sectionCount, crc);
    ThemeValidity.HeaderPieces(h, total, sectionCount, crc);
    hide ThemePack.HeaderBytes;
    assert forall i :: 24 <= i < 32 ==> h[i] == h[24..32][i - 24];
    WordStands(h, 4, 1);
    WordStands(h, 6, 32);
    LongStands(h, 8, total);
    WordStands(h, 12, 480);
    WordStands(h, 14, 800);
    WordStands(h, 16, sectionCount);
    WordStands(h, 18, 0);
    LongStands(h, 20, crc);
  }

  lemma PackDescriptor(typ: u32, offset: u32, length: u32, count: u32)
    ensures var d := ThemePack.DescBytes(typ, offset, length, count);
            && |d| == 24 && LongAt(d, 0, typ) && LongAt(d, 4, 0) && LongAt(d, 8, offset)
            && LongAt(d, 12, length) && LongAt(d, 16, count) && LongAt(d, 20, 0)
  {
    hide U32, LongAt;
    var d := ThemePack.DescBytes(typ, offset, length, count);
    LongStands(d, 0, typ);
    LongStands(d, 4, 0);
    LongStands(d, 8, offset);
    LongStands(d, 12, length);
    LongStands(d, 16, count);
    LongStands(d, 20, 0);
  }

  lemma PackMeta()
    ensures var m := ThemePack.MetaBytes();
            && |m| == 16 && WordAt(m, 0, 1) && WordAt(m, 2, 32) && WordAt(m, 4, 480) && WordAt(m, 6, 800)
            && ZerosAt(m, 8, 8)
  {
  }

  lemma PackSlot(s: ThemePack.Slot)
    ensures var r := ThemePack.SlotBytes(s);
            && |r| == 32
            && r[..10] == [s.stype, s.binding, s.targetKind, s.targetIndex, s.targetAction, s.font, s.style, s.align,
                           s.flags, 0]
            && WordAt(r, 10, s.rect.x) && WordAt(r, 12, s.rect.y) && WordAt(r, 14, s.rect.w) && WordAt(r, 16, s.rect.h)
            && WordAt(r, 18, s.radius) && WordAt(r, 20, s.stroke) && WordAt(r, 22, s.focusInset)
            && WordAt(r, 24, s.focusOrder) && WordAt(r, 26, s.asset) && WordAt(r, 28, s.stringOff) && WordAt(r, 30, 0)
  {
    hide U16, WordAt;
    var r := ThemePack.SlotBytes(s);
    ThemeRoundTrip.SlotPieces(s, r);
    hide ThemePack.SlotBytes;
    WordStands(r, 10, s.rect.x);
    WordStands(r, 12, s.rect.y);
    WordStands(r, 14, s.rect.w);
    WordStands(r, 16, s.rect.h);
    WordStands(r, 18, s.radius);
    WordStands(r, 20, s.stroke);
    WordStands(r, 22, s.focusInset);
    WordStands(r, 24, s.focusOrder);
    WordStands(r, 26, s.asset);
    WordStands(r, 28, s.stringOff);
    WordStands(r, 30, 0);
  }

  /** The one asset: number 0, an 800 by 480 raster of 60 bytes a row, where it is and how long. */
  lemma PackAsset(dataOffset: u32)
    ensures var r := ThemePack.AssetRecord(dataOffset);
            && |r| == 24 && WordAt(r, 0, 0) && ByteAt(r, 2, 0) && ByteAt(r, 3, 0) && WordAt(r, 4, 480)
            && WordAt(r, 6, 800) && WordAt(r, 8, 60) && WordAt(r, 10, 0) && LongAt(r, 12, dataOffset)
            && LongAt(r, 16, 48000) && LongAt(r, 20, 0)
  {
    hide U16, U32, WordAt, LongAt;
    var r := ThemePack.AssetRecord(dataOffset);
    WordStands(r, 0, 0);
    WordStands(r, 4, 480);
    WordStands(r, 6, 800);
    WordStands(r, 8, 60);
    WordStands(r, 10, 0);
    LongStands(r, 12, dataOffset);
    LongStands(r, 16, 48000);
    LongStands(r, 20, 0);
  }

  // ---------- scenes ----------

  lemma SectionPieces(items: seq<Scene.Item>)
    requires |items| < U16_LIMIT
    ensures var s := SceneBytes.Section(items);
            && |s| >= 8 && s[0..2] == U16(1) && s[2..4] == U16(|items|) && s[4..6] == U16(0) && s[6..8] == U16(0)
            && s[8..] == SceneBytes.ItemsBytes(items)
  {
    hide SceneBytes.ItemsBytes, U16;
    assert Scene.Low16(|items|) == |items|;
    var front := U16(1) + U16(|items|) + U16(0) + U16(0);
    assert SceneBytes.Section(items) == front + SceneBytes.ItemsBytes(items);
    assert front[0..2] == U16(1) && front[2..4] == U16(|items|) && front[4..6] == U16(0) && front[6..8] == U16(0);
  }

  lemma SceneHeader(items: seq<Scene.Item>)
    requires |items| < U16_LIMIT
    ensures var s := SceneBytes.Section(items);
            && WordAt(s, 0, 1) && WordAt(s, 2, |items|) && WordAt(s, 4, 0) && WordAt(s, 6, 0)
            && s[8..] == SceneBytes.ItemsBytes(items)
  {
    hide SceneBytes.ItemsBytes, U16, WordAt;
    var s := SceneBytes.Section(items);
    SectionPieces(items);
    hide SceneBytes.Section;
    WordStands(s, 0, 1);
    WordStands(s, 2, |items|);
    WordStands(s, 4, 0);
    WordStands(s, 6, 0);
  }

  /** A command: type, flags, length, payload, zeros; in the payload the visibility, the
      action, a mark for its argument and the argument come before the fields. */
  lemma CommandLayout(i: Scene.Item)
    requires |SceneBytes.Payload(i)| < U16_LIMIT
    ensures var s, p := SceneBytes.ItemBytes(i), SceneBytes.Payload(i);
            && ByteAt(s, 0, SceneBytes.TypeOf(i.shape))
            && ByteAt(s, 1, (if i.visible.Some? then 1 else 0) + (if i.action.Some? then 2 else 0))
            && WordAt(s, 2, |p|) && |s| == (7 + |p|) / 4 * 4 && s[4..4 + |p|] == p && ZerosAt(s, 4 + |p|, |s| - 4 - |p|)
    ensures SceneBytes.Payload(i)
            == (if i.visible.Some? then [i.visible.value] else [])
               + (if i.action.None? then [] else if i.action.value.arg.None? then [i.action.value.id, 0]
                  else [i.action.value.id, 1, i.action.value.arg.value])
               + SceneBytes.ShapeBytes(i.shape)
  {
    hide SceneBytes.ShapeBytes, SceneBytes.TypeOf;
    var front := SceneBytes.VisibleBytes(i.visible);
    assert front + (SceneBytes.ActionBytes(i.action) + SceneBytes.ShapeBytes(i.shape))
        == front + SceneBytes.ActionBytes(i.action) + SceneBytes.ShapeBytes(i.shape);
    CommandPieces(i);
  }

  lemma CommandPieces(i: Scene.Item)
    requires |SceneBytes.Payload(i)| < U16_LIMIT
    ensures var s, p := SceneBytes.ItemBytes(i), SceneBytes.Payload(i);
            && s[0] == SceneBytes.TypeOf(i.shape) && s[1] == SceneBytes.FlagsOf(i)
            && WordAt(s, 2, |p|) && |s| == (7 + |p|) / 4 * 4 && s[4..4 + |p|] == p && ZerosAt(s, 4 + |p|, |s| - 4 - |p|)
  {
    hide SceneBytes.Payload, SceneBytes.TypeOf, SceneBytes.FlagsOf;
  }

  predicate RectAt(s: seq<byte>, r: Scene.Rect) {
    WordAt(s, 0, r.x) && WordAt(s, 2, r.y) && WordAt(s, 4, r.w) && WordAt(s, 6, r.h)
  }

  /** A text behind its length. */
  predicate LabelAt(s: seq<byte>, off: nat, text: seq<byte>) {
    WordAt(s, off, |text|) && off + 2 + |text| <= |s| && s[off + 2..off + 2 + |text|] == text
  }

  /** A mark and, if it is 1, a binding. */
  predicate OptionalAt(s: seq<byte>, off: nat, b: Option<byte>) {
    if b.None? then ByteAt(s, off, 0) else ByteAt(s, off, 1) && ByteAt(s, off + 1, b.value)
  }

  lemma RectStands(s: seq<byte>, r: Scene.Rect, rest: seq<byte>)
    requires s == SceneBytes.RectBytes(r) + rest
    ensures RectAt(s, r) && forall i :: 0 <= i < |rest| ==> s[8 + i] == rest[i]
  {
  }

  lemma LabelStands(s: seq<byte>, off: nat, text: Scene.Label, rest: seq<byte>)
    requires off <= |s| && s[off..] == SceneBytes.LabelBytes(text) + rest
    ensures off + 2 + |text| <= |s| && LabelAt(s, off, text) && s[off + 2 + |text|..] == rest
  {
    hide U16, WordAt;
    WordStands(s, off, |text|);
  }

  lemma OptionalStands(s: seq<byte>, off: nat, b: Option<byte>)
    requires off <= |s| && s[off..] == SceneBytes.OptionalByte(b)
    ensures OptionalAt(s, off, b)
  {
    assert s[off] == s[off..][0];
  }

  /** Fields of the kinds with a rectangle and fixed bytes. */
  lemma BoxLayout(s: Scene.Shape)
    ensures var t, b := SceneBytes.TypeOf(s), SceneBytes.ShapeBytes(s);
            match s
            case Clear(color) => t == 0 && b == [color]
            case Line(x, y, x2, y2, width, color) =>
              t == 2 && RectAt(b, Scene.Rect(x, y, x2, y2)) && ByteAt(b, 8, width) && ByteAt(b, 9, color)
            case Box(rect, stroke, fill) => t == 3 && RectAt(b, rect) && ByteAt(b, 8, stroke) && ByteAt(b, 9, fill)
            case RoundBox(rect, r, stroke, fill) =>
              t == 4 && RectAt(b, rect) && WordAt(b, 8, r) && ByteAt(b, 10, stroke) && ByteAt(b, 11, fill)
            case Progress(rect, r, value) => t == 7 && RectAt(b, rect) && WordAt(b, 8, r) && ByteAt(b, 10, value)
            case Battery(rect, value) => t == 9 && RectAt(b, rect) && ByteAt(b, 8, value)
            case _ => true
  {
    hide SceneBytes.ItemsBytes, SceneBytes.RectBytes, SceneBytes.LabelBytes, SceneBytes.OptionalByte;
    hide U16, RectAt, WordAt;
    var b := SceneBytes.ShapeBytes(s);
    match s
    case Clear(color) =>
    case Line(x, y, x2, y2, width, color) => RectStands(b, Scene.Rect(x, y, x2, y2), [width, color]);
    case Box(rect, stroke, fill) => RectStands(b, rect, [stroke, fill]);
    case RoundBox(rect, r, stroke, fill) =>
      RectStands(b, rect, U16(r) + [stroke, fill]);
      WordStands(b, 8, r);
    case Progress(rect, r, value) =>
      RectStands(b, rect, U16(r) + [value]);
      WordStands(b, 8, r);
    case Battery(rect, value) => RectStands(b, rect, [value]);
    case _ =>
  }

  /** Fields of the kinds with texts and bindings. */
  lemma LabelledLayout(s: Scene.Shape)
    ensures var t, b := SceneBytes.TypeOf(s), SceneBytes.ShapeBytes(s);
            match s
            case Bitmap(rect, source) => t == 1 && RectAt(b, rect) && LabelAt(b, 8, source)
            case Text(rect, font, style, align, ellipsis, text) =>
              && t == 5 && RectAt(b, rect) && ByteAt(b, 8, font) && ByteAt(b, 9, style) && ByteAt(b, 10, align)
              && ByteAt(b, 11, ellipsis)
              && (match text
                  case BoundText(id) => ByteAt(b, 12, 1) && ByteAt(b, 13, id) && WordAt(b, 14, 0)
                  case LiteralText(utf8) => ByteAt(b, 12, 0) && ByteAt(b, 13, 0) && LabelAt(b, 14, utf8))
            case Cover(rect, r, binding) => t == 6 && RectAt(b, rect) && WordAt(b, 8, r) && OptionalAt(b, 10, binding)
            case Icon(rect, name, binding) =>
              t == 8 && RectAt(b, rect) && LabelAt(b, 8, name) && OptionalAt(b, 10 + |name|, binding)
            case _ => true
  {
    hide SceneBytes.ItemsBytes, SceneBytes.RectBytes, SceneBytes.LabelBytes, SceneBytes.OptionalByte;
    hide U16, RectAt, WordAt;
    hide OptionalAt, LabelAt;
    var b := SceneBytes.ShapeBytes(s);
    match s
    case Bitmap(rect, source) =>
      RectStands(b, rect, SceneBytes.LabelBytes(source));
      LabelStands(b, 8, source, []);
    case Text(rect, font, style, align, ellipsis, text) =>
      RectStands(b, rect, [font, style, align, ellipsis] + SceneBytes.TextBytes(text));
      TextLayout(b, text);
    case Cover(rect, r, binding) =>
      RectStands(b, rect, U16(r) + SceneBytes.OptionalByte(binding));
      WordStands(b, 8, r);
      OptionalStands(b, 10, binding);
    case Icon(rect, name, binding) =>
      RectStands(b, rect, SceneBytes.LabelBytes(name) + SceneBytes.OptionalByte(binding));
      LabelStands(b, 8, name, SceneBytes.OptionalByte(binding));
      OptionalStands(b, 10 + |name|, binding);
    case _ =>
  }

  lemma TextLayout(b: seq<byte>, text: Scene.TextItem)
    requires |b| >= 12 && b[12..] == SceneBytes.TextBytes(text)
    ensures match text
            case BoundText(id) => ByteAt(b, 12, 1) && ByteAt(b, 13, id) && WordAt(b, 14, 0)
            case LiteralText(utf8) => ByteAt(b, 12, 0) && ByteAt(b, 13, 0) && LabelAt(b, 14, utf8)
  {
    hide U16, WordAt, LabelAt, SceneBytes.LabelBytes;
    var t := b[12..];
    assert b[12] == t[0] && b[13] == t[1];
    match text
    case BoundText(id) => WordStands(b, 14, 0);
    case LiteralText(utf8) =>
      assert b[14..] == t[2..] == SceneBytes.LabelBytes(utf8);
      LabelStands(b, 14, utf8, []);
  }

  lemma RepeatGap(s: Scene.Shape, b: seq<byte>)
    requires s.Repeat? && b == SceneBytes.ShapeBytes(s)
    ensures b[13] == 0
  {
    hide SceneBytes.ItemsBytes, U16;
  }

  /** Groups and repeats: their fields, the number of children, and the children. */
  lemma ParentLayout(s: Scene.Shape)
    requires (s.Group? || s.Repeat?) && |s.children| < U16_LIMIT
    ensures var t, b := SceneBytes.TypeOf(s), SceneBytes.ShapeBytes(s);
            if s.Group? then
              t == 10 && WordAt(b, 0, |s.children|) && b[2..] == SceneBytes.ItemsBytes(s.children)
            else
              && t == 11 && ByteAt(b, 0, s.list) && ByteAt(b, 1, s.limit) && WordAt(b, 2, s.x) && WordAt(b, 4, s.y)
              && WordAt(b, 6, s.itemWidth) && WordAt(b, 8, s.itemHeight) && WordAt(b, 10, s.gap) && ByteAt(b, 12, s.dir)
              && ByteAt(b, 13, 0) && WordAt(b, 14, |s.children|) && b[16..] == SceneBytes.ItemsBytes(s.children)
  {
    hide SceneBytes.ItemsBytes, U16, WordAt;
    var b := SceneBytes.ShapeBytes(s);
    if s.Group? {
      WordStands(b, 0, |s.children|);
    } else {
      SceneRoundTrip.RepeatPieces(s, b);
      RepeatGap(s, b);
      hide SceneBytes.ShapeBytes;
      WordStands(b, 2, s.x);
      WordStands(b, 4, s.y);
      WordStands(b, 6, s.itemWidth);
      WordStands(b, 8, s.itemHeight);
      WordStands(b, 10, s.gap);
      WordStands(b, 14, |s.children|);
    }
  }

  // ---------- font blobs ----------

  lemma WordIsRead(s: seq<byte>, off: nat)
    requires off + 4 <= |s|
    ensures WordAt(s, off, ReadU16(s, off)) && LongAt(s, off, ReadU32(s, off))
  {
  }

  lemma KernelHeader(glyphs: u16, leafCount: u16, bitmapsOff: u32, classesOff: u32, classBytes: u16)
    ensures var h := KernelBlob.Header(glyphs, leafCount, bitmapsOff, classesOff, classBytes);
            && |h| == 48 && h[..4] == ['M' as int, '4' as int, 'C' as int, 'K' as int]
            && WordAt(h, 4, 1) && WordAt(h, 6, 0) && WordAt(h, 8, glyphs) && WordAt(h, 10, leafCount)
            && h[12..16] == [16, 16, 16, 0]
            && LongAt(h, 16, 48) && LongAt(h, 20, 48 + 512) && LongAt(h, 24, bitmapsOff) && LongAt(h, 28, classesOff)
            && WordAt(h, 32, 32) && WordAt(h, 34, classBytes) && ZerosAt(h, 36, 12)
  {
    hide ReadU16, ReadU32, WordAt, LongAt;
    var h := KernelBlob.Header(glyphs, leafCount, bitmapsOff, classesOff, classBytes);
    KernelPieces(glyphs, leafCount, bitmapsOff, classesOff, classBytes, h);
    KernelBlob.FieldsReadBack(h, glyphs, leafCount, bitmapsOff, classesOff, classBytes);
    hide KernelBlob.Header;
    WordIsRead(h, 8);
    WordIsRead(h, 10);
    WordIsRead(h, 16);
    WordIsRead(h, 20);
    WordIsRead(h, 24);
    WordIsRead(h, 28);
    WordIsRead(h, 32);
    WordIsRead(h, 34);
  }

  lemma KernelPieces(glyphs: u16, leafCount: u16, bitmapsOff: u32, classesOff: u32, classBytes: u16, h: seq<byte>)
    requires h == KernelBlob.Header(glyphs, leafCount, bitmapsOff, classesOff, classBytes)
    ensures h[..4] == ['M' as int, '4' as int, 'C' as int, 'K' as int] && WordAt(h, 4, 1) && WordAt(h, 6, 0)
    ensures h[12..16] == [16, 16, 16, 0] && ZerosAt(h, 36, 12)
  {
    hide U32;
    assert h[..8] == [0x4D, 0x34, 0x43, 0x4B] + U16(1) + U16(0);
  }

  lemma GridHeader(outliers: u16, glyphs: u16, leafCount: u16, bitmapsOff: u32, cpsOff: u32, bmpsOff: u32)
    ensures var h := NativeGridBlob.Header(outliers, glyphs, leafCount, bitmapsOff, cpsOff, bmpsOff);
            && |h| == 48 && h[..4] == ['M' as int, '4' as int, 'N' as int, 'G' as int]
            && WordAt(h, 4, 1) && WordAt(h, 6, if outliers > 0 then 1 else 0) && WordAt(h, 8, glyphs)
            && WordAt(h, 10, outliers) && WordAt(h, 12, leafCount) && h[14..20] == [15, 16, 16, 16, 0, 0]
            && LongAt(h, 20, 48) && LongAt(h, 24, 48 + 512) && LongAt(h, 28, bitmapsOff) && LongAt(h, 32, cpsOff)
            && LongAt(h, 36, bmpsOff) && WordAt(h, 40, 30) && WordAt(h, 42, 32) && ZerosAt(h, 44, 4)
  {
    hide ReadU16, ReadU32, WordAt, LongAt, ZerosAt;
    var h := NativeGridBlob.Header(outliers, glyphs, leafCount, bitmapsOff, cpsOff, bmpsOff);
    GridFront(outliers, glyphs, leafCount, bitmapsOff, cpsOff, bmpsOff, h);
    GridMetrics(outliers, glyphs, leafCount, bitmapsOff, cpsOff, bmpsOff, h);
    NativeGridBlob.FieldsReadBack(h, outliers, glyphs, leafCount, bitmapsOff, cpsOff, bmpsOff);
    hide NativeGridBlob.Header;
    WordIsRead(h, 4);
    WordIsRead(h, 8);
    WordIsRead(h, 10);
    WordIsRead(h, 12);
    WordIsRead(h, 20);
    WordIsRead(h, 24);
    WordIsRead(h, 28);
    WordIsRead(h, 32);
    WordIsRead(h, 36);
    WordIsRead(h, 40);
    WordIsRead(h, 42);
  }

  lemma GridFront(outliers: u16, glyphs: u16, leafCount: u16, bitmapsOff: u32, cpsOff: u32, bmpsOff: u32, h: seq<byte>)
    requires h == NativeGridBlob.Header(outliers, glyphs, leafCount, bitmapsOff, cpsOff, bmpsOff)
    ensures h[..4] == ['M' as int, '4' as int, 'N' as int, 'G' as int] && WordAt(h, 6, if outliers > 0 then 1 else 0)
  {
    hide U32;
    assert h[..8] == [0x4D, 0x34, 0x4E, 0x47] + U16(1) + U16(if outliers > 0 then 1 else 0);
  }

  lemma GridMetrics(outliers: u16, glyphs: u16, leafCount: u16, bitmapsOff: u32, cpsOff: u32, bmpsOff: u32,
                    h: seq<byte>)
    requires h == NativeGridBlob.Header(outliers, glyphs, leafCount, bitmapsOff, cpsOff, bmpsOff)
    ensures h[14..20] == [15, 16, 16, 16, 0, 0] && ZerosAt(h, 44, 4)
  {
    hide U16;
    assert h[44..48] == U32(0);
    LastZeros(h);
  }

  lemma LastZeros(h: seq<byte>)
    requires |h| == 48 && h[44..48] == U32(0)
    ensures ZerosAt(h, 44, 4)
  {
    assert forall i :: 44 <= i < 48 ==> h[i] == h[44..48][i - 44];
  }

  // ---------- the index of a font blob ----------

  /** Pixels are read from the highest bit of a byte down. */
  lemma PixelIs(packed: seq<byte>, i: nat)
    requires i / 8 < |packed|
    ensures PackedFields.PixelOn(packed, i) <==> (packed[i / 8] as nat) / Pow2(7 - i % 8) % 2 == 1
  {
    BitIs(packed[i / 8], 7 - i % 8);
  }

  /** What a two-bit field of a byte is: the lowest two bits come first. */
  lemma {:induction false} FieldIs(v: nat, slot: nat)
    ensures PackedFields.FieldAt(v, slot) == v / PackedFields.Pow4(slot) % 4
  {
    if slot == 0 {
    } else {
      FieldIs(v / 4, slot - 1);
      QuarterThenRest(v, PackedFields.Pow4(slot - 1));
    }
  }

  lemma QuarterThenRest(v: nat, p: nat)
    requires p > 0
    ensures v / 4 / p == v / (4 * p)
  {
    HalfThenRest(v, 2 * p);
    HalfThenRest(v / 2, p);
    assert v / 2 / 2 == v / 4;
  }

  /** Bit `k` of byte `b` behind an offset, the lowest bit first. */
  predicate Lit(s: seq<byte>, off: nat, b: nat, k: nat) { off + b < |s| && (s[off + b] as nat) / Pow2(k) % 2 == 1 }

  /** 32 bytes from an offset on say which code points from `first` on are members. */
  ghost predicate BitsList(s: seq<byte>, off: nat, cps: seq<nat>, first: nat) {
    forall b: nat, k: nat :: b < 32 && k < 8 ==> (Lit(s, off, b, k) <==> first + 8 * b + k in cps)
  }

  /** A leaf is 34 bytes: the rank of its page, then one bit for each of its 256 code
      points, eight to a byte, the lowest bit first. */
  ghost predicate LeafAt(leaves: seq<byte>, leaf: nat, cps: seq<nat>, page: nat) {
    && 34 * leaf + 34 <= |leaves|
    && WordAt(leaves, 34 * leaf, RankedIndex.CountBelow(cps, 256 * page))
    && BitsList(leaves, 34 * leaf + 2, cps, 256 * page)
  }

  lemma LeafStands(leaves: seq<byte>, leaf: nat, cps: seq<nat>, page: nat)
    requires RankedIndex.LeafHolds(leaves, leaf, cps, page)
    ensures LeafAt(leaves, leaf, cps, page)
  {
    hide RankedIndex.CountBelow, Bit, Pow2;
    var off := 34 * leaf + 2;
    forall b: nat, k: nat | b < 32 && k < 8
      ensures Lit(leaves, off, b, k) <==> 256 * page + 8 * b + k in cps
    {
      var at := 8 * b + k;
      assert at / 8 == b && at % 8 == k;
      assert RankedIndex.OccupancyBit(leaves, leaf * 34 + 2, at) <==> RankedIndex.Join(page, at) in cps;
      BitIs(leaves[34 * leaf + 2 + b], k);
    }
  }

  /** The directory has two bytes a page: the number of its leaf, or 0xFFFF for a page
      without members. */
  lemma IndexLayout(pageDir: seq<byte>, leaves: seq<byte>, cps: seq<nat>, page: nat)
    requires RankedIndex.Indexes(pageDir, leaves, cps) && page < 256
    ensures |pageDir| == 512
    ensures if exists c :: c in cps && c / 256 == page
            then exists leaf: nat :: leaf < 256 && WordAt(pageDir, 2 * page, leaf) && LeafAt(leaves, leaf, cps, page)
            else WordAt(pageDir, 2 * page, 0xFFFF)
  {
    hide RankedIndex.LeafHolds, RankedIndex.PageUsed, LeafAt;
    assert RankedIndex.EntryHolds(pageDir, leaves, cps, page);
    PageUsedIff(cps, page);
    if RankedIndex.PageUsed(cps, page) {
      var leaf := ReadU16(pageDir, 2 * page);
      LeafStands(leaves, leaf, cps, page);
      assert WordAt(pageDir, 2 * page, leaf);
    }
  }

  lemma PageUsedIff(cps: seq<nat>, page: nat)
    ensures RankedIndex.PageUsed(cps, page) <==> exists c :: c in cps && c / 256 == page
  {
    if RankedIndex.PageUsed(cps, page) {
      var b := RankedIndex.LowBytes(cps, page)[0];
      RankedIndex.LowBytesMembers(cps, page, b);
      assert RankedIndex.Join(page, b) / 256 == page;
    }
    if c :| c in cps && c / 256 == page {
      RankedIndex.LowBytesMembers(cps, page, c % 256);
      assert RankedIndex.Join(page, c % 256) == c;
    }
  }

  // ---------- the stores ----------

  /** wifi.bin: version 1, the number of networks, and for each the name and the obfuscated
      password, each behind its length. */
  lemma NetworkFileOf(c: WifiCodec.Credential)
    ensures var f, n := WifiCodec.FileBytes([c]), |c.ssid|;
            && ByteAt(f, 0, 1) && ByteAt(f, 1, 1) && LongAt(f, 2, n) && f[6..6 + n] == c.ssid
            && LongAt(f, 6 + n, |c.password|) && f[10 + n..] == WifiCodec.Obfuscated(c.password)
  {
    hide U32, LongAt, WifiCodec.Obfuscated;
    var f, n, hidden := WifiCodec.FileBytes([c]), |c.ssid|, WifiCodec.Obfuscated(c.password);
    assert [c][..0] == [];
    assert WifiCodec.EntriesBytes([c]) == [] + WifiCodec.EntryBytes(c);
    assert f == [1, 1] + (U32(n) + c.ssid + (U32(|hidden|) + hidden));
    hide WifiCodec.FileBytes;
    assert f[2..6] == U32(n) && f[6 + n..10 + n] == U32(|hidden|);
    LongStands(f, 2, n);
    LongStands(f, 6 + n, |hidden|);
  }

  /** recent.bin: version 4, the number of books, and for each its path, title, author, cover
      and source, each behind its length. */
  lemma BookFileOf(b: RecentBooks.Book)
    ensures var f := RecentBooksFile.FileBytes([b]);
            && ByteAt(f, 0, 4) && ByteAt(f, 1, 1)
            && f[2..] == U32(|b.path|) + b.path + U32(|b.title|) + b.title + U32(|b.author|) + b.author
                         + U32(|b.cover|) + b.cover + U32(|b.source|) + b.source
  {
    hide U32;
    var f := RecentBooksFile.FileBytes([b]);
    assert [b][1..] == [];
    assert RecentBooksFile.BooksBytes([b]) == RecentBooksFile.BookBytes(b) + [];
    assert f == [4, 1] + RecentBooksFile.BookBytes(b);
  }
}
