/**
 What the scene compiler of firmware/tools/compile_home_theme.py makes of a node, said
 about the node itself: which nodes it takes, how long they get, and what the command of
 a node shows when it is read back.
 */
module SceneMeaning {

  import opened Wrappers
  import opened Bytes
  import opened Scene
  import SceneBytes
  import SceneRoundTrip

  // ---------- what a node shows ----------

  /** A name that may be left out, and the number it stands for. */
  predicate NameShown(names: map<string, byte>, name: Option<string>, id: Option<byte>) {
    && (name.None? <==> id.None?)
    && (name.Some? ==> name.value in names && id.value == names[name.value])
  }

  /** The action's number; its argument exactly when one is given. */
  predicate ActionShown(env: Env, n: Node, a: Option<Action>) {
    && (n.action.None? <==> a.None?)
    && (n.action.None? ==> n.actionArg.None?)
    && (n.action.Some? ==>
          && n.action.value in env.actions && a.value.id == env.actions[n.action.value]
          && NameShown(env.bindings, n.actionArg, a.value.arg))
  }

  predicate SameRect(r: NodeRect, shown: Rect) {
    shown.x as int == r.x && shown.y as int == r.y && shown.w as int == r.w && shown.h as int == r.h
  }

  /** A coordinate that nobody checks is kept modulo 65536. */
  predicate SameLow(v: int, shown: u16) { (v - shown) % U16_LIMIT == 0 }

  predicate IsFlag(b: bool, shown: byte) { shown == (if b then 1 else 0) }

  predicate TextShown(env: Env, text: NodeText, shown: TextItem) {
    match text
    case Bound(name) => shown.BoundText? && name in env.bindings && shown.id == env.bindings[name]
    case Literal(utf8) => shown.LiteralText? && shown.utf8 == utf8
  }

  /** Every field of a node without children. */
  predicate LeafShown(env: Env, b: Body, s: Shape) {
    match b
    case ClearNode(color) => s.Clear? && s.color == (if color == "white" then 0 else 1)
    case LineNode(x, y, x2, y2, width, color) =>
      && s.Line? && SameLow(x, s.x) && SameLow(y, s.y) && SameLow(x2, s.x2) && SameLow(y2, s.y2)
      && s.width as int == width && IsFlag(color != "white", s.color)
    case BitmapNode(rect, source) =>
      s.Bitmap? && SameRect(rect, s.rect) && s.source == (if source.Some? then source.value else [])
    case RectNode(rect, stroke, fill) =>
      s.Box? && SameRect(rect, s.rect) && s.stroke as int == stroke && IsFlag(fill, s.fill)
    case RoundRectNode(rect, r, stroke, fill) =>
      s.RoundBox? && SameRect(rect, s.rect) && s.r as int == r && s.stroke as int == stroke && IsFlag(fill, s.fill)
    case TextNode(rect, font, align, ellipsis, text) =>
      && s.Text? && SameRect(rect, s.rect) && font in env.fonts && s.font == env.fonts[font]
      && IsFlag(EndsWith(font, "_bold"), s.style)
      && (s.align == 0 <==> align == "left") && (s.align == 2 <==> align == "right")
      && (s.align == 1 <==> align == "center" || align == "centre") && s.align <= 2
      && IsFlag(ellipsis, s.ellipsis) && TextShown(env, text, s.text)
    case CoverNode(rect, r, binding) =>
      s.Cover? && SameRect(rect, s.rect) && s.r as int == r && NameShown(env.bindings, binding, s.binding)
    case ProgressNode(rect, r, value) =>
      && s.Progress? && SameRect(rect, s.rect) && SameLow(r, s.r)
      && value in env.bindings && s.value == env.bindings[value]
    case IconNode(rect, name, binding) =>
      s.Icon? && SameRect(rect, s.rect) && s.name == name && NameShown(env.bindings, binding, s.binding)
    case BatteryNode(rect, value) =>
      s.Battery? && SameRect(rect, s.rect) && value in env.bindings && s.value == env.bindings[value]
    case GroupNode(_) => false
    case RepeatNode(_, _, _, _, _, _, _, _, _) => false
  }

  predicate RepeatShown(env: Env, b: Body, s: Shape)
    requires b.RepeatNode?
  {
    && s.Repeat? && b.list in env.bindings && s.list == env.bindings[b.list] && s.limit as int == b.limit
    && SameLow(b.x, s.x) && SameLow(b.y, s.y)
    && SameLow(b.itemWidth, s.itemWidth) && SameLow(b.itemHeight, s.itemHeight)
    && SameLow(b.gap, s.gap) && b.direction == (if s.dir == 0 then "horizontal" else "vertical") && s.dir <= 1
  }

  /** The whole node, its children included. */
  ghost predicate Shown(env: Env, n: Node, i: Item)
    decreases n
  {
    && NameShown(env.bindings, n.visibleIf, i.visible)
    && ActionShown(env, n, i.action)
    && match n.body
       case GroupNode(children) => i.shape.Group? && AllShown(env, children, i.shape.children)
       case RepeatNode(_, _, _, _, _, _, _, _, children) =>
         RepeatShown(env, n.body, i.shape) && AllShown(env, children, i.shape.children)
       case _ => LeafShown(env, n.body, i.shape)
  }

  /** One for each, in order. */
  ghost predicate AllShown(env: Env, nodes: seq<Node>, items: seq<Item>)
    decreases nodes
  {
    |nodes| == |items| && forall k :: 0 <= k < |nodes| ==> Shown(env, nodes[k], items[k])
  }

  // ---------- which nodes are taken ----------

  predicate Known(names: map<string, byte>, name: Option<string>) { name.Some? ==> name.value in names }

  predicate OnScreen(r: NodeRect) {
    r.x >= 0 && r.y >= 0 && r.w > 0 && r.h > 0 && r.x + r.w <= 480 && r.y + r.h <= 800
  }

  predicate LeafLegal(env: Env, b: Body) {
    match b
    case ClearNode(color) => color == "white" || color == "black"
    case LineNode(_, _, _, _, width, _) => 1 <= width <= 8
    case BitmapNode(rect, source) => OnScreen(rect) && (source.Some? ==> |source.value| <= 255)
    case RectNode(rect, stroke, _) => OnScreen(rect) && 0 <= stroke <= 8
    case RoundRectNode(rect, r, stroke, _) => OnScreen(rect) && 0 <= r <= 64 && 0 <= stroke <= 8
    case TextNode(rect, font, align, _, text) =>
      && OnScreen(rect) && font in env.fonts
      && (align == "left" || align == "center" || align == "centre" || align == "right")
      && (match text case Bound(name) => name in env.bindings case Literal(utf8) => |utf8| <= 255)
    case CoverNode(rect, r, binding) => OnScreen(rect) && 0 <= r <= 64 && Known(env.bindings, binding)
    case ProgressNode(rect, _, value) => OnScreen(rect) && value in env.bindings
    case IconNode(rect, name, binding) => OnScreen(rect) && |name| <= 255 && Known(env.bindings, binding)
    case BatteryNode(rect, value) => OnScreen(rect) && value in env.bindings
    case GroupNode(_) => false
    case RepeatNode(_, _, _, _, _, _, _, _, _) => false
  }

  predicate RepeatLegal(env: Env, b: Body)
    requires b.RepeatNode?
  {
    b.list in env.bindings && 1 <= b.limit <= 8 && (b.direction == "horizontal" || b.direction == "vertical")
  }

  ghost predicate Legal(env: Env, n: Node, depth: nat)
    decreases n
  {
    && depth <= 3
    && Known(env.bindings, n.visibleIf) && Known(env.actions, n.action) && Known(env.bindings, n.actionArg)
    && (n.actionArg.Some? ==> n.action.Some?)
    && match n.body
       case GroupNode(children) => 1 <= |children| <= 16 && AllLegal(env, children, depth + 1)
       case RepeatNode(_, _, _, _, _, _, _, _, children) =>
         RepeatLegal(env, n.body) && 1 <= |children| <= 16 && AllLegal(env, children, depth + 1)
       case _ => LeafLegal(env, n.body)
  }

  ghost predicate AllLegal(env: Env, nodes: seq<Node>, depth: nat)
    decreases nodes
  {
    forall k :: 0 <= k < |nodes| ==> Legal(env, nodes[k], depth)
  }

  lemma LeafAccepted(env: Env, b: Body)
    requires !b.GroupNode? && !b.RepeatNode?
    ensures AcceptedLeaf(env, b).Ok? <==> LeafLegal(env, b)
    ensures AcceptedLeaf(env, b).Ok? ==> LeafShown(env, b, AcceptedLeaf(env, b).value)
  {
  }

  lemma RepeatAccepted(env: Env, b: Body)
    requires b.RepeatNode?
    ensures AcceptedRepeat(env, b).Ok? <==> RepeatLegal(env, b)
    ensures AcceptedRepeat(env, b).Ok? ==> RepeatShown(env, b, AcceptedRepeat(env, b).value)
  {
  }

  lemma PrefixAccepted(env: Env, n: Node)
    ensures OptionalId(env.bindings, n.visibleIf).Ok? <==> Known(env.bindings, n.visibleIf)
    ensures OptionalId(env.bindings, n.visibleIf).Ok? ==>
              NameShown(env.bindings, n.visibleIf, OptionalId(env.bindings, n.visibleIf).value)
    ensures AcceptedAction(env, n).Ok?
       <==> Known(env.actions, n.action) && (n.actionArg.Some? ==> n.action.Some? && n.actionArg.value in env.bindings)
    ensures AcceptedAction(env, n).Ok? ==> ActionShown(env, n, AcceptedAction(env, n).value)
  {
  }

  /** A node is taken exactly when it is legal at its depth, and what is made of it shows
      every one of its fields. */
  lemma {:induction false} AcceptedShows(env: Env, n: Node, depth: nat)
    ensures Accepted(env, n, depth).Ok? <==> Legal(env, n, depth)
    ensures Accepted(env, n, depth).Ok? ==> Shown(env, n, Accepted(env, n, depth).value)
    decreases n, 1
  {
    hide AcceptedAll, AcceptedRepeat, AcceptedLeaf, AcceptedAction, OptionalId;
    hide LeafLegal, LeafShown, RepeatLegal, RepeatShown, Known, NameShown, ActionShown, AllLegal, AllShown;
    PrefixAccepted(env, n);
    ArgIsKnown(env, n);
    match n.body
    case GroupNode(children) => AllAcceptedShow(env, children, depth + 1);
    case RepeatNode(_, _, _, _, _, _, _, _, children) =>
      RepeatAccepted(env, n.body);
      AllAcceptedShow(env, children, depth + 1);
      if AcceptedRepeat(env, n.body).Ok? { WithChildren(env, n.body); }
    case _ => LeafAccepted(env, n.body);
  }

  lemma ArgIsKnown(env: Env, n: Node)
    ensures Known(env.bindings, n.actionArg) <==> n.actionArg.None? || n.actionArg.value in env.bindings
  {
  }

  lemma WithChildren(env: Env, b: Body)
    requires b.RepeatNode? && AcceptedRepeat(env, b).Ok?
    ensures AcceptedRepeat(env, b).value.Repeat?
    ensures forall items: seq<Item> ::
              RepeatShown(env, b, AcceptedRepeat(env, b).value)
              <==> RepeatShown(env, b, AcceptedRepeat(env, b).value.(children := items))
  {
  }

  lemma {:induction false} AllAcceptedShow(env: Env, nodes: seq<Node>, depth: nat)
    ensures AcceptedAll(env, nodes, depth).Ok? <==> AllLegal(env, nodes, depth)
    ensures AcceptedAll(env, nodes, depth).Ok? ==> AllShown(env, nodes, AcceptedAll(env, nodes, depth).value)
    decreases nodes
  {
    hide Accepted, Legal, Shown;
    if nodes == [] {
    } else {
      AcceptedShows(env, nodes[0], depth);
      AllAcceptedShow(env, nodes[1..], depth);
      assert nodes == [nodes[0]] + nodes[1..];
      assert forall k :: 0 < k < |nodes| ==> nodes[k] == nodes[1..][k - 1];
    }
  }

  // ---------- how long a scene gets ----------

  function MarkSize(name: Option<string>): nat { if name.None? then 1 else 2 }

  /** The bytes of a node's own fields. */
  function LeafSize(b: Body): nat {
    match b
    case ClearNode(_) => 1
    case LineNode(_, _, _, _, _, _) => 10
    case BitmapNode(_, source) => 10 + (if source.Some? then |source.value| else 0)
    case RectNode(_, _, _) => 10
    case RoundRectNode(_, _, _, _) => 12
    case TextNode(_, _, _, _, text) => 16 + (if text.Bound? then 0 else |text.utf8|)
    case CoverNode(_, _, binding) => 10 + MarkSize(binding)
    case ProgressNode(_, _, _) => 11
    case IconNode(_, name, binding) => 10 + |name| + MarkSize(binding)
    case BatteryNode(_, _) => 9
    case GroupNode(_) => 2
    case RepeatNode(_, _, _, _, _, _, _, _, _) => 16
  }

  /** Header, prefixes, fields and children, up to a multiple of four. */
  function NodeSize(n: Node): nat
    decreases n
  {
    var prefix := (if n.visibleIf.Some? then 1 else 0) + (if n.action.Some? then 1 + MarkSize(n.actionArg) else 0);
    var children := match n.body
      case GroupNode(children) => AllSize(children)
      case RepeatNode(_, _, _, _, _, _, _, _, children) => AllSize(children)
      case _ => 0;
    AlignUp(4 + prefix + LeafSize(n.body) + children)
  }

  function AllSize(nodes: seq<Node>): nat
    decreases nodes
  {
    if nodes == [] then 0 else NodeSize(nodes[0]) + AllSize(nodes[1..])
  }

  lemma LeafLength(env: Env, b: Body, s: Shape)
    requires LeafShown(env, b, s)
    ensures |SceneBytes.ShapeBytes(s)| == LeafSize(b)
  {
    hide SceneBytes.RectBytes, U16, SameRect, SameLow, IsFlag;
  }

  lemma PrefixLength(env: Env, n: Node, i: Item)
    requires NameShown(env.bindings, n.visibleIf, i.visible) && ActionShown(env, n, i.action)
    ensures |SceneBytes.VisibleBytes(i.visible)| + |SceneBytes.ActionBytes(i.action)|
            == (if n.visibleIf.Some? then 1 else 0) + (if n.action.Some? then 1 + MarkSize(n.actionArg) else 0)
  {
  }

  lemma PayloadLength(i: Item)
    ensures |SceneBytes.ItemBytes(i)|
            == AlignUp(4 + |SceneBytes.VisibleBytes(i.visible)| + |SceneBytes.ActionBytes(i.action)|
                       + |SceneBytes.ShapeBytes(i.shape)|)
  {
    hide SceneBytes.VisibleBytes, SceneBytes.ActionBytes, SceneBytes.ShapeBytes, SceneBytes.FlagsOf, SceneBytes.TypeOf;
  }

  lemma ParentLength(s: Shape)
    requires s.Group? || s.Repeat?
    ensures |SceneBytes.ShapeBytes(s)| == (if s.Group? then 2 else 16) + |SceneBytes.ItemsBytes(s.children)|
  {
    hide SceneBytes.ItemsBytes;
  }

  lemma {:induction false} ItemLength(env: Env, n: Node, i: Item)
    requires Shown(env, n, i)
    ensures |SceneBytes.ItemBytes(i)| == NodeSize(n)
    decreases n, 1
  {
    hide SceneBytes.ItemBytes, SceneBytes.ShapeBytes, SceneBytes.ItemsBytes, SceneBytes.VisibleBytes;
    hide SceneBytes.ActionBytes, LeafShown, RepeatShown, NameShown, ActionShown, AllShown, MarkSize, AlignUp;
    PayloadLength(i);
    PrefixLength(env, n, i);
    match n.body
    case GroupNode(children) =>
      AllLength(env, children, i.shape.children);
      ParentLength(i.shape);
    case RepeatNode(_, _, _, _, _, _, _, _, children) =>
      RepeatIsRepeat(env, n.body, i.shape);
      AllLength(env, children, i.shape.children);
      ParentLength(i.shape);
    case _ => LeafLength(env, n.body, i.shape);
  }

  lemma RepeatIsRepeat(env: Env, b: Body, s: Shape)
    requires b.RepeatNode? && RepeatShown(env, b, s)
    ensures s.Repeat?
  {
  }

  lemma {:induction false} AllLength(env: Env, nodes: seq<Node>, items: seq<Item>)
    requires AllShown(env, nodes, items)
    ensures |SceneBytes.ItemsBytes(items)| == AllSize(nodes)
    decreases nodes
  {
    hide SceneBytes.ItemBytes, Shown, NodeSize;
    if nodes == [] {
    } else {
      ItemLength(env, nodes[0], items[0]);
      assert forall k :: 0 <= k < |nodes| - 1 ==> nodes[1..][k] == nodes[k + 1] && items[1..][k] == items[k + 1];
      AllLength(env, nodes[1..], items[1..]);
    }
  }

  // ---------- the scene ----------

  /** A scene is compiled exactly when it has 1 to 128 nodes, all legal, and stays within 32 KiB. */
  lemma CompiledIff(env: Env, nodes: seq<Node>)
    ensures SceneBytes.Compiled(env, nodes).Ok?
       <==> 1 <= |nodes| <= 128 && AllLegal(env, nodes, 0) && 8 + AllSize(nodes) <= 32 * 1024
  {
    hide AcceptedAll, AllLegal, AllShown, AllSize, SceneBytes.ItemsBytes;
    AllAcceptedShow(env, nodes, 0);
    var all := AcceptedAll(env, nodes, 0);
    if all.Ok? { AllLength(env, nodes, all.value); }
  }

  /** The command at a place of the decoded scene reads back as something that shows the
      node at that place, whatever its depth of children. */
  ghost predicate CommandShows(env: Env, n: Node, c: SceneBytes.Command) {
    var i := SceneBytes.ReadItem(c);
    i.Some? && Shown(env, n, i.value)
  }

  /** The scene that is written shows the scene that was asked for: one command a node, in
      order, each reading back with the node's visibility, action, argument, and every
      field of it and of its children. */
  lemma SceneShowsNodes(env: Env, nodes: seq<Node>)
    requires SceneBytes.Compiled(env, nodes).Ok?
    ensures var d := SceneBytes.Decoded(SceneBytes.Compiled(env, nodes).value);
            && d.Ok? && |d.value| == |nodes|
            && forall k :: 0 <= k < |nodes| ==> CommandShows(env, nodes[k], d.value[k])
  {
    var items := SceneRoundTrip.SceneComesBack(env, nodes);
    hide AcceptedAll, SceneBytes.Compiled, SceneBytes.Decoded, SceneBytes.ReadItem, SceneBytes.CommandOf, Shown;
    AllAcceptedShow(env, nodes, 0);
    var cs := SceneBytes.CommandsOf(items);
    forall k | 0 <= k < |nodes| ensures CommandShows(env, nodes[k], cs[k]) {
      assert cs[k] == SceneBytes.CommandOf(items[k]);
    }
  }
}
