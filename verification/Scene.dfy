/**
 Scene nodes of a home theme as the author writes them, and as
 firmware/tools/compile_home_theme.py accepts them: names looked up, ranges checked,
 numbers reduced to the width of their field.
 */
module Scene {

  import opened Wrappers
  import opened Bytes

  /** UTF-8 text that fits the format's limit. */
  type Label = s: seq<byte> | |s| <= MAX_LABEL witness []

  const MAX_LABEL := 255

  const SCREEN_W := 480
  const SCREEN_H := 800

  const MAX_SCENE_NODES := 128
  const MAX_SCENE_DEPTH := 3
  const MAX_REPEAT_LIMIT := 8
  const MAX_CHILDREN := 16

  // ---------- what the author writes ----------

  datatype NodeRect = NodeRect(x: int, y: int, w: int, h: int)

  /** A text value that starts with `$` names a binding. */
  datatype NodeText = Bound(name: string) | Literal(utf8: seq<byte>)

  datatype Node = Node(visibleIf: Option<string>, action: Option<string>, actionArg: Option<string>, body: Body)

  datatype Body =
    | ClearNode(color: string)
    | BitmapNode(rect: NodeRect, source: Option<seq<byte>>)
    | LineNode(x: int, y: int, x2: int, y2: int, width: int, color: string)
    | RectNode(rect: NodeRect, stroke: int, fill: bool)
    | RoundRectNode(rect: NodeRect, r: int, stroke: int, fill: bool)
    | TextNode(rect: NodeRect, font: string, align: string, ellipsis: bool, text: NodeText)
    | CoverNode(rect: NodeRect, r: int, binding: Option<string>)
    | ProgressNode(rect: NodeRect, r: int, value: string)
    | IconNode(rect: NodeRect, name: seq<byte>, binding: Option<string>)
    | BatteryNode(rect: NodeRect, value: string)
    | GroupNode(children: seq<Node>)
    | RepeatNode(list: string, limit: int, x: int, y: int, itemWidth: int, itemHeight: int, gap: int,
                 direction: string, children: seq<Node>)

  /** The vocabularies of one compilation. */
  datatype Env = Env(bindings: map<string, byte>, actions: map<string, byte>, fonts: map<string, byte>)

  // ---------- what the compiler accepts ----------

  datatype Rect = Rect(x: u16, y: u16, w: u16, h: u16)

  datatype TextItem = BoundText(id: byte) | LiteralText(utf8: Label)

  datatype Action = Action(id: byte, arg: Option<byte>)

  datatype Item = Item(visible: Option<byte>, action: Option<Action>, shape: Shape)

  datatype Shape =
    | Clear(color: byte)
    | Bitmap(rect: Rect, source: Label)
    | Line(x: u16, y: u16, x2: u16, y2: u16, width: byte, color: byte)
    | Box(rect: Rect, stroke: byte, fill: byte)
    | RoundBox(rect: Rect, r: u16, stroke: byte, fill: byte)
    | Text(rect: Rect, font: byte, style: byte, align: byte, ellipsis: byte, text: TextItem)
    | Cover(rect: Rect, r: u16, binding: Option<byte>)
    | Progress(rect: Rect, r: u16, value: byte)
    | Icon(rect: Rect, name: Label, binding: Option<byte>)
    | Battery(rect: Rect, value: byte)
    | Group(children: seq<Item>)
    | Repeat(list: byte, limit: byte, x: u16, y: u16, itemWidth: u16, itemHeight: u16, gap: u16,
             dir: byte, children: seq<Item>)

  datatype SceneError =
    TooDeep | UnknownName | ArgWithoutAction | BadRect | BadRange | TextTooLong | BadCount | TooLarge

  /** `v & 0xFFFF` on a Python integer. */
  function Low16(v: int): u16 { v % U16_LIMIT }

  function Flag(b: bool): byte { if b then 1 else 0 }

  function NameId(names: map<string, byte>, name: string): Result<byte, SceneError> {
    if name in names then Ok(names[name]) else Err(UnknownName)
  }

  function OptionalId(names: map<string, byte>, name: Option<string>): Result<Option<byte>, SceneError> {
    if name.None? then Ok(None)
    else
      match NameId(names, name.value)
      case Err(e) => Err(e)
      case Ok(id) => Ok(Some(id))
  }

  function Inside(r: NodeRect): Result<Rect, SceneError> {
    if r.w <= 0 || r.h <= 0 || r.x < 0 || r.y < 0 || r.x + r.w > SCREEN_W || r.y + r.h > SCREEN_H then Err(BadRect)
    else Ok(Rect(r.x, r.y, r.w, r.h))
  }

  function AsLabel(utf8: seq<byte>): Result<Label, SceneError> {
    if |utf8| > MAX_LABEL then Err(TextTooLong) else Ok(utf8)
  }

  function AlignId(align: string): Result<byte, SceneError> {
    if align == "left" then Ok(0)
    else if align == "center" || align == "centre" then Ok(1)
    else if align == "right" then Ok(2)
    else Err(UnknownName)
  }

  predicate EndsWith(s: string, suffix: string) {
    |s| >= |suffix| && s[|s| - |suffix|..] == suffix
  }

  function TextValue(env: Env, text: NodeText): Result<TextItem, SceneError> {
    match text
    case Bound(name) =>
      (match NameId(env.bindings, name)
       case Err(e) => Err(e)
       case Ok(id) => Ok(BoundText(id)))
    case Literal(utf8) =>
      match AsLabel(utf8)
      case Err(e) => Err(e)
      case Ok(label_) => Ok(LiteralText(label_))
  }

  function AcceptedAction(env: Env, n: Node): Result<Option<Action>, SceneError> {
    if n.action.None? then (if n.actionArg.Some? then Err(ArgWithoutAction) else Ok(None))
    else
      match NameId(env.actions, n.action.value)
      case Err(e) => Err(e)
      case Ok(id) =>
        match OptionalId(env.bindings, n.actionArg)
        case Err(e) => Err(e)
        case Ok(arg) => Ok(Some(Action(id, arg)))
  }

  /** The node kinds that have no children. */
  function AcceptedLeaf(env: Env, b: Body): Result<Shape, SceneError>
    requires !b.GroupNode? && !b.RepeatNode?
  {
    if b.ClearNode? then
      if b.color == "white" then Ok(Clear(0)) else if b.color == "black" then Ok(Clear(1)) else Err(UnknownName)
    else if b.LineNode? then
      if !(1 <= b.width <= 8) then Err(BadRange)
      else Ok(Line(Low16(b.x), Low16(b.y), Low16(b.x2), Low16(b.y2), b.width, Flag(b.color != "white")))
    else
      match Inside(b.rect)
      case Err(e) => Err(e)
      case Ok(rect) => AcceptedBox(env, b, rect)
  }

  function AcceptedBox(env: Env, b: Body, rect: Rect): Result<Shape, SceneError>
    requires !b.ClearNode? && !b.LineNode? && !b.GroupNode? && !b.RepeatNode?
  {
    match b
    case BitmapNode(_, source) =>
      (match AsLabel(if source.Some? then source.value else [])
       case Err(e) => Err(e)
       case Ok(s) => Ok(Bitmap(rect, s)))
    case RectNode(_, stroke, fill) =>
      if !(0 <= stroke <= 8) then Err(BadRange) else Ok(Box(rect, stroke, Flag(fill)))
    case RoundRectNode(_, r, stroke, fill) =>
      if !(0 <= r <= 64) || !(0 <= stroke <= 8) then Err(BadRange) else Ok(RoundBox(rect, r, stroke, Flag(fill)))
    case TextNode(_, font, align, ellipsis, text) =>
      (match NameId(env.fonts, font)
       case Err(e) => Err(e)
       case Ok(fid) =>
         match AlignId(align)
         case Err(e) => Err(e)
         case Ok(aid) =>
           match TextValue(env, text)
           case Err(e) => Err(e)
           case Ok(value) => Ok(Text(rect, fid, Flag(EndsWith(font, "_bold")), aid, Flag(ellipsis), value)))
    case CoverNode(_, r, binding) =>
      if !(0 <= r <= 64) then Err(BadRange)
      else (match OptionalId(env.bindings, binding)
            case Err(e) => Err(e)
            case Ok(id) => Ok(Cover(rect, r, id)))
    case ProgressNode(_, r, value) =>
      (match NameId(env.bindings, value)
       case Err(e) => Err(e)
       case Ok(id) => Ok(Progress(rect, Low16(r), id)))
    case IconNode(_, name, binding) =>
      (match AsLabel(name)
       case Err(e) => Err(e)
       case Ok(s) =>
         match OptionalId(env.bindings, binding)
         case Err(e) => Err(e)
         case Ok(id) => Ok(Icon(rect, s, id)))
    case BatteryNode(_, value) =>
      match NameId(env.bindings, value)
      case Err(e) => Err(e)
      case Ok(id) => Ok(Battery(rect, id))
  }

  function DirectionId(direction: string): Result<byte, SceneError> {
    if direction == "horizontal" then Ok(0) else if direction == "vertical" then Ok(1) else Err(UnknownName)
  }

  /** A repeat without its children. */
  function AcceptedRepeat(env: Env, b: Body): Result<Shape, SceneError>
    requires b.RepeatNode?
  {
    match NameId(env.bindings, b.list)
    case Err(e) => Err(e)
    case Ok(id) =>
      if !(1 <= b.limit <= MAX_REPEAT_LIMIT) then Err(BadRange)
      else
        match DirectionId(b.direction)
        case Err(e) => Err(e)
        case Ok(dir) =>
          Ok(Repeat(id, b.limit, Low16(b.x), Low16(b.y), Low16(b.itemWidth), Low16(b.itemHeight), Low16(b.gap),
                    dir, []))
  }

  /** What the compiler makes of a node at the given depth, before it is written out. */
  function Accepted(env: Env, n: Node, depth: nat): Result<Item, SceneError>
    decreases n, 1
  {
    if depth > MAX_SCENE_DEPTH then Err(TooDeep)
    else
      match OptionalId(env.bindings, n.visibleIf)
      case Err(e) => Err(e)
      case Ok(visible) =>
        match AcceptedAction(env, n)
        case Err(e) => Err(e)
        case Ok(action) =>
          match AcceptedShape(env, n, depth)
          case Err(e) => Err(e)
          case Ok(shape) => Ok(Item(visible, action, shape))
  }

  function AcceptedShape(env: Env, n: Node, depth: nat): Result<Shape, SceneError>
    decreases n, 0
  {
    match n.body
    case GroupNode(children) =>
      if !(1 <= |children| <= MAX_CHILDREN) then Err(BadCount)
      else (match AcceptedAll(env, children, depth + 1)
            case Err(e) => Err(e)
            case Ok(items) => Ok(Group(items)))
    case RepeatNode(_, _, _, _, _, _, _, _, children) =>
      (match AcceptedRepeat(env, n.body)
       case Err(e) => Err(e)
       case Ok(shape) =>
         if !(1 <= |children| <= MAX_CHILDREN) then Err(BadCount)
         else
           match AcceptedAll(env, children, depth + 1)
           case Err(e) => Err(e)
           case Ok(items) => Ok(shape.(children := items)))
    case _ => AcceptedLeaf(env, n.body)
  }

  function AcceptedAll(env: Env, nodes: seq<Node>, depth: nat): (r: Result<seq<Item>, SceneError>)
    ensures r.Ok? ==> |r.value| == |nodes|
    decreases nodes
  {
    if nodes == [] then Ok([])
    else
      match Accepted(env, nodes[0], depth)
      case Err(e) => Err(e)
      case Ok(item) =>
        match AcceptedAll(env, nodes[1..], depth)
        case Err(e) => Err(e)
        case Ok(rest) => Ok([item] + rest)
  }
}
