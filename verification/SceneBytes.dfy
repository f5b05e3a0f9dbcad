/**
 The SCENE section: the command stream written by firmware/tools/compile_home_theme.py,
 the host decoder next to it, and the field and child reading of
 firmware/tools/preview_home_theme.py.
 */
module SceneBytes {

  import opened Wrappers
  import opened Bytes
  import opened Scene

  // ---------- writing ----------

  function TypeOf(s: Shape): byte {
    match s
    case Clear(_) => 0
    case Bitmap(_, _) => 1
    case Line(_, _, _, _, _, _) => 2
    case Box(_, _, _) => 3
    case RoundBox(_, _, _, _) => 4
    case Text(_, _, _, _, _, _) => 5
    case Cover(_, _, _) => 6
    case Progress(_, _, _) => 7
    case Icon(_, _, _) => 8
    case Battery(_, _) => 9
    case Group(_) => 10
    case Repeat(_, _, _, _, _, _, _, _, _) => 11
  }

  /** Bit 0: the visibility prefix; bit 1: the action prefix. */
  function PrefixFlags(visible: Option<byte>, action: Option<Action>): byte {
    (if visible.Some? then 1 else 0) + (if action.Some? then 2 else 0)
  }

  function FlagsOf(i: Item): byte { PrefixFlags(i.visible, i.action) }

  function OptionalByte(b: Option<byte>): seq<byte> {
    if b.None? then [0] else [1, b.value]
  }

  function VisibleBytes(visible: Option<byte>): seq<byte> {
    if visible.None? then [] else [visible.value]
  }

  function ActionBytes(action: Option<Action>): seq<byte> {
    if action.None? then [] else [action.value.id] + OptionalByte(action.value.arg)
  }

  function RectBytes(r: Rect): (s: seq<byte>)
    ensures |s| == 8
  {
    U16(r.x) + U16(r.y) + U16(r.w) + U16(r.h)
  }

  function LabelBytes(s: Label): seq<byte> { U16(|s|) + s }

  function TextBytes(t: TextItem): seq<byte> {
    match t
    case BoundText(id) => [1, id] + U16(0)
    case LiteralText(utf8) => [0, 0] + LabelBytes(utf8)
  }

  function ShapeBytes(s: Shape): seq<byte>
    decreases s, 0
  {
    match s
    case Clear(color) => [color]
    case Bitmap(rect, source) => RectBytes(rect) + LabelBytes(source)
    case Line(x, y, x2, y2, width, color) => RectBytes(Rect(x, y, x2, y2)) + [width, color]
    case Box(rect, stroke, fill) => RectBytes(rect) + [stroke, fill]
    case RoundBox(rect, r, stroke, fill) => RectBytes(rect) + (U16(r) + [stroke, fill])
    case Text(rect, font, style, align, ellipsis, text) =>
      RectBytes(rect) + ([font, style, align, ellipsis] + TextBytes(text))
    case Cover(rect, r, binding) => RectBytes(rect) + (U16(r) + OptionalByte(binding))
    case Progress(rect, r, value) => RectBytes(rect) + (U16(r) + [value])
    case Icon(rect, name, binding) => RectBytes(rect) + (LabelBytes(name) + OptionalByte(binding))
    case Battery(rect, value) => RectBytes(rect) + [value]
    case Group(children) => U16(Low16(|children|)) + ItemsBytes(children)
    case Repeat(list, limit, x, y, itemWidth, itemHeight, gap, dir, children) =>
      [list, limit] + (RectBytes(Rect(x, y, itemWidth, itemHeight))
                       + (U16(gap) + ([dir, 0] + (U16(Low16(|children|)) + ItemsBytes(children)))))
  }

  function Payload(i: Item): seq<byte>
    decreases i, 0
  {
    VisibleBytes(i.visible) + (ActionBytes(i.action) + ShapeBytes(i.shape))
  }

  /** A command: type, flags and the low 16 bits of the payload's length, the payload,
      and zeros up to a multiple of four. */
  function ItemBytes(i: Item): (s: seq<byte>)
    ensures |s| % 4 == 0 && |s| >= 4 + |Payload(i)|
    decreases i, 1
  {
    hide Payload, PadToFour;
    var payload := Payload(i);
    [TypeOf(i.shape), FlagsOf(i)] + U16(Low16(|payload|)) + payload + Zeros(PadToFour(4 + |payload|))
  }

  function ItemsBytes(items: seq<Item>): seq<byte>
    decreases items
  {
    if items == [] then [] else ItemBytes(items[0]) + ItemsBytes(items[1..])
  }

  const SCENE_VERSION := 1

  const SCENE_LIMIT := 32 * 1024

  function Section(items: seq<Item>): seq<byte> {
    U16(SCENE_VERSION) + U16(Low16(|items|)) + U16(0) + U16(0) + ItemsBytes(items)
  }

  /** The scene section of a theme, if the compiler takes the nodes. */
  function Compiled(env: Env, nodes: seq<Node>): Result<seq<byte>, SceneError> {
    if !(1 <= |nodes| <= MAX_SCENE_NODES) then Err(BadCount)
    else
      match AcceptedAll(env, nodes, 0)
      case Err(e) => Err(e)
      case Ok(items) => if |Section(items)| > SCENE_LIMIT then Err(TooLarge) else Ok(Section(items))
  }

  // ---------- walking ----------

  datatype Command = Command(ntype: byte, flags: byte, payload: seq<byte>)

  function CommandOf(i: Item): Command { Command(TypeOf(i.shape), FlagsOf(i), Payload(i)) }

  function CommandsOf(items: seq<Item>): (r: seq<Command>)
    ensures |r| == |items| && forall k :: 0 <= k < |items| ==> r[k] == CommandOf(items[k])
  {
    seq(|items|, k requires 0 <= k < |items| => CommandOf(items[k]))
  }

  datatype DecodeError = TooSmall | BadVersion | TruncatedHeader | TruncatedPayload

  /** The decoder's loop: `count` commands from `off`, and where the last one ends. */
  function Walk(data: seq<byte>, off: nat, count: nat): Result<(seq<Command>, nat), DecodeError>
    decreases count
  {
    if count == 0 then Ok(([], off))
    else if off + 4 > |data| then Err(TruncatedHeader)
    else
      var plen := ReadU16(data, off + 2);
      if off + 4 + plen > |data| then Err(TruncatedPayload)
      else
        match Walk(data, AlignUp(off + 4 + plen), count - 1)
        case Err(e) => Err(e)
        case Ok(rest) => Ok(([Command(data[off], data[off + 1], data[off + 4..off + 4 + plen])] + rest.0, rest.1))
  }

  function Decoded(data: seq<byte>): Result<seq<Command>, DecodeError> {
    if |data| < 8 then Err(TooSmall)
    else if ReadU16(data, 0) != SCENE_VERSION then Err(BadVersion)
    else
      match Walk(data, 8, ReadU16(data, 2))
      case Err(e) => Err(e)
      case Ok(r) => Ok(r.0)
  }

  /** The previewer's walk over children: it stops at a cut header and clips a cut payload. */
  function WalkChildren(data: seq<byte>, off: nat, count: nat): (r: seq<Command>)
    ensures forall k :: 0 <= k < |r| ==> |r[k].payload| < |data|
    decreases count
  {
    if count == 0 || off + 4 > |data| then []
    else
      var plen := ReadU16(data, off + 2);
      var end := if off + 4 + plen <= |data| then off + 4 + plen else |data|;
      [Command(data[off], data[off + 1], data[off + 4..end])] + WalkChildren(data, AlignUp(off + 4 + plen), count - 1)
  }

  // ---------- reading fields ----------

  function ReadRect(s: seq<byte>): Rect
    requires |s| >= 8
  {
    Rect(ReadU16(s, 0), ReadU16(s, 2), ReadU16(s, 4), ReadU16(s, 6))
  }

  function ReadOptional(s: seq<byte>): Option<Option<byte>> {
    if |s| < 1 then None
    else if s[0] == 0 then Some(None)
    else if |s| < 2 then None
    else Some(Some(s[1]))
  }

  /** A label and where it ends. */
  function ReadLabel(s: seq<byte>): (r: Option<(Label, nat)>)
    ensures r.Some? ==> r.value.1 <= |s|
  {
    if |s| < 2 then None
    else
      var n := ReadU16(s, 0);
      if n > MAX_LABEL || 2 + n > |s| then None else Some((s[2..2 + n], 2 + n))
  }

  function ReadText(s: seq<byte>): Option<TextItem> {
    if |s| < 4 then None
    else if s[0] != 0 then Some(BoundText(s[1]))
    else
      match ReadLabel(s[2..])
      case None => None
      case Some(t) => Some(LiteralText(t.0))
  }

  /** The shapes without children, after their rectangle. */
  function ReadBoxed(ntype: byte, rect: Rect, s: seq<byte>): Option<Shape> {
    match ntype
    case 1 => (match ReadLabel(s) case None => None case Some(t) => Some(Bitmap(rect, t.0)))
    case 2 => if |s| < 2 then None else Some(Line(rect.x, rect.y, rect.w, rect.h, s[0], s[1]))
    case 3 => if |s| < 2 then None else Some(Box(rect, s[0], s[1]))
    case 4 => if |s| < 4 then None else Some(RoundBox(rect, ReadU16(s, 0), s[2], s[3]))
    case 5 =>
      if |s| < 4 then None
      else (match ReadText(s[4..]) case None => None case Some(t) => Some(Text(rect, s[0], s[1], s[2], s[3], t)))
    case 6 =>
      if |s| < 2 then None
      else (match ReadOptional(s[2..]) case None => None case Some(b) => Some(Cover(rect, ReadU16(s, 0), b)))
    case 7 => if |s| < 3 then None else Some(Progress(rect, ReadU16(s, 0), s[2]))
    case 8 =>
      (match ReadLabel(s)
       case None => None
       case Some(t) => match ReadOptional(s[t.1..]) case None => None case Some(b) => Some(Icon(rect, t.0, b)))
    case 9 => if |s| < 1 then None else Some(Battery(rect, s[0]))
    case _ => None
  }

  function ReadShape(ntype: byte, s: seq<byte>): Option<Shape>
    decreases |s|, 1
  {
    if ntype == 0 then (if |s| < 1 then None else Some(Clear(s[0])))
    else if ntype == 10 then
      if |s| < 2 then None
      else
        match ReadItems(WalkChildren(s[2..], 0, ReadU16(s, 0)), |s| - 2)
        case None => None
        case Some(children) => Some(Group(children))
    else if ntype == 11 then
      if |s| < 16 then None
      else
        match ReadItems(WalkChildren(s[16..], 0, ReadU16(s, 14)), |s| - 16)
        case None => None
        case Some(children) =>
          Some(Repeat(s[0], s[1], ReadU16(s, 2), ReadU16(s, 4), ReadU16(s, 6), ReadU16(s, 8), ReadU16(s, 10), s[12],
                      children))
    else if |s| < 8 then None
    else ReadBoxed(ntype, ReadRect(s), s[8..])
  }

  /** A command read back into an item: the prefix, then the shape with all its children. */
  function ReadItem(c: Command): Option<Item>
    decreases |c.payload|, 2
  {
    var hasVisible, hasAction := c.flags % 2 == 1, c.flags / 2 % 2 == 1;
    if hasVisible && |c.payload| < 1 then None
    else
      var visible := if hasVisible then Some(c.payload[0]) else None;
      var s := if hasVisible then c.payload[1..] else c.payload;
      if !hasAction then ItemWith(visible, None, ReadShape(c.ntype, s))
      else if |s| < 1 then None
      else
        match ReadOptional(s[1..])
        case None => None
        case Some(arg) =>
          ItemWith(visible, Some(Action(s[0], arg)), ReadShape(c.ntype, s[if arg.Some? then 3 else 2..]))
  }

  function ItemWith(visible: Option<byte>, action: Option<Action>, shape: Option<Shape>): Option<Item> {
    if shape.None? then None else Some(Item(visible, action, shape.value))
  }

  function ReadItems(cs: seq<Command>, limit: nat): Option<seq<Item>>
    requires forall k :: 0 <= k < |cs| ==> |cs[k].payload| < limit
    decreases limit, 0, |cs|
  {
    if cs == [] then Some([])
    else
      match ReadItem(cs[0])
      case None => None
      case Some(item) =>
        match ReadItems(cs[1..], limit)
        case None => None
        case Some(rest) => Some([item] + rest)
  }
}
