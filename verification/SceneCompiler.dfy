/**
 The loops of firmware/tools/compile_home_theme.py and preview_home_theme.py over scene
 bytes: the encoder that grows a payload node by node, and the decoders that advance an
 offset.  They are proved against the functions whose round trip is proved.
 */
module SceneCompiler {

  import opened Wrappers
  import opened Bytes
  import opened Scene
  import opened SceneBytes

  /** The two optional prefixes and the flags that announce them. */
  method EncodePrefix(env: Env, n: Node) returns (r: Result<(byte, seq<byte>), SceneError>)
    ensures match OptionalId(env.bindings, n.visibleIf)
            case Err(e) => r == Err(e)
            case Ok(visible) =>
              match AcceptedAction(env, n)
              case Err(e) => r == Err(e)
              case Ok(action) => r == Ok((PrefixFlags(visible, action), VisibleBytes(visible) + ActionBytes(action)))
  {
    var flags: byte, prefix: seq<byte> := 0, [];
    if n.visibleIf.Some? {
      if n.visibleIf.value !in env.bindings { return Err(UnknownName); }
      prefix := [env.bindings[n.visibleIf.value]];
      flags := 1;
    }
    if n.action.Some? {
      if n.action.value !in env.actions { return Err(UnknownName); }
      var id := env.actions[n.action.value];
      flags := flags + 2;
      if n.actionArg.Some? {
        if n.actionArg.value !in env.bindings { return Err(UnknownName); }
        prefix := prefix + ([id] + [1, env.bindings[n.actionArg.value]]);
      } else {
        prefix := prefix + ([id] + [0]);
      }
    } else if n.actionArg.Some? {
      return Err(ArgWithoutAction);
    }
    ghost var visible, action := OptionalId(env.bindings, n.visibleIf).value, AcceptedAction(env, n).value;
    assert prefix == VisibleBytes(visible) + ActionBytes(action);
    r := Ok((flags, prefix));
  }

  /** `_encode_scene_node` */
  method EncodeSceneNode(env: Env, n: Node, depth: nat) returns (r: Result<seq<byte>, SceneError>)
    ensures match Accepted(env, n, depth)
            case Err(e) => r == Err(e)
            case Ok(item) => r == Ok(ItemBytes(item))
    decreases n, 1
  {
    hide AcceptedShape, AcceptedLeaf, AcceptedAction, OptionalId, ShapeBytes, VisibleBytes, ActionBytes, PrefixFlags;
    if depth > MAX_SCENE_DEPTH { return Err(TooDeep); }
    var prefix := EncodePrefix(env, n);
    if prefix.Err? { return Err(prefix.error); }
    var body := EncodeBody(env, n, depth);
    if body.Err? { return Err(body.error); }
    var payload := prefix.value.1 + body.value.1;
    ghost var item := Accepted(env, n, depth).value;
    assert payload == VisibleBytes(item.visible) + (ActionBytes(item.action) + ShapeBytes(item.shape));
    var data := [body.value.0, prefix.value.0] + U16(Low16(|payload|)) + payload;
    r := Ok(data + Zeros(PadToFour(|data|)));
  }

  /** A binding that may be left out: a mark, and its number when it is given. */
  method EncodeOptional(env: Env, name: Option<string>) returns (r: Result<seq<byte>, SceneError>)
    ensures match OptionalId(env.bindings, name)
            case Err(e) => r == Err(e)
            case Ok(id) => r == Ok(OptionalByte(id))
  {
    if name.None? { return Ok([0]); }
    if name.value !in env.bindings { return Err(UnknownName); }
    r := Ok([1, env.bindings[name.value]]);
  }

  /** `_encode_scene_string` */
  method EncodeString(utf8: seq<byte>) returns (r: Result<seq<byte>, SceneError>)
    ensures match AsLabel(utf8)
            case Err(e) => r == Err(e)
            case Ok(text) => r == Ok(LabelBytes(text))
  {
    if |utf8| > MAX_LABEL { return Err(TextTooLong); }
    r := Ok(U16(|utf8|) + utf8);
  }

  /** The value of a text node: a binding, or the text itself. */
  method EncodeTextValue(env: Env, text: NodeText) returns (r: Result<seq<byte>, SceneError>)
    ensures match TextValue(env, text)
            case Err(e) => r == Err(e)
            case Ok(value) => r == Ok(TextBytes(value))
  {
    if text.Bound? {
      if text.name !in env.bindings { return Err(UnknownName); }
      return Ok([1, env.bindings[text.name]] + U16(0));
    }
    var literal := EncodeString(text.utf8);
    if literal.Err? { return literal; }
    r := Ok([0, 0] + literal.value);
  }

  /** The node kinds without children. */
  method EncodeLeaf(env: Env, b: Body) returns (r: Result<(byte, seq<byte>), SceneError>)
    requires !b.GroupNode? && !b.RepeatNode?
    ensures match AcceptedLeaf(env, b)
            case Err(e) => r == Err(e)
            case Ok(shape) => r == Ok((TypeOf(shape), ShapeBytes(shape)))
  {
    hide AcceptedBox, RectBytes, U16;
    if b.ClearNode? {
      if b.color != "white" && b.color != "black" { return Err(UnknownName); }
      return Ok((0, [if b.color == "white" then 0 else 1]));
    }
    if b.LineNode? {
      if !(1 <= b.width <= 8) { return Err(BadRange); }
      var ends := RectBytes(Rect(Low16(b.x), Low16(b.y), Low16(b.x2), Low16(b.y2)));
      return Ok((2, ends + [b.width, if b.color == "white" then 0 else 1]));
    }
    var x, y, w, h := b.rect.x, b.rect.y, b.rect.w, b.rect.h;
    if w <= 0 || h <= 0 { return Err(BadRect); }
    if x < 0 || y < 0 || x + w > SCREEN_W || y + h > SCREEN_H { return Err(BadRect); }
    r := EncodeBoxed(env, b, Rect(x, y, w, h));
  }

  method EncodeBoxed(env: Env, b: Body, rect: Rect) returns (r: Result<(byte, seq<byte>), SceneError>)
    requires !b.ClearNode? && !b.LineNode? && !b.GroupNode? && !b.RepeatNode?
    ensures match AcceptedBox(env, b, rect)
            case Err(e) => r == Err(e)
            case Ok(shape) => r == Ok((TypeOf(shape), ShapeBytes(shape)))
  {
    hide RectBytes, U16, AsLabel, OptionalId, TextValue, LabelBytes, TextBytes, OptionalByte;
    var head := RectBytes(rect);
    match b {
      case BitmapNode(_, source) =>
        var name := EncodeString(if source.Some? then source.value else []);
        if name.Err? { return Err(name.error); }
        r := Ok((1, head + name.value));
      case RectNode(_, stroke, fill) =>
        if !(0 <= stroke <= 8) { return Err(BadRange); }
        r := Ok((3, head + [stroke, if fill then 1 else 0]));
      case RoundRectNode(_, radius, stroke, fill) =>
        if !(0 <= radius <= 64) || !(0 <= stroke <= 8) { return Err(BadRange); }
        r := Ok((4, head + (U16(radius) + [stroke, if fill then 1 else 0])));
      case TextNode(_, font, align, ellipsis, text) =>
        if font !in env.fonts { return Err(UnknownName); }
        var style: byte := if EndsWith(font, "_bold") then 1 else 0;
        var aid := AlignId(align);
        if aid.Err? { return Err(aid.error); }
        var value := EncodeTextValue(env, text);
        if value.Err? { return Err(value.error); }
        r := Ok((5, head + ([env.fonts[font], style, aid.value, if ellipsis then 1 else 0] + value.value)));
      case CoverNode(_, radius, binding) =>
        if !(0 <= radius <= 64) { return Err(BadRange); }
        var source := EncodeOptional(env, binding);
        if source.Err? { return Err(source.error); }
        r := Ok((6, head + (U16(radius) + source.value)));
      case ProgressNode(_, radius, value) =>
        if value !in env.bindings { return Err(UnknownName); }
        r := Ok((7, head + (U16(Low16(radius)) + [env.bindings[value]])));
      case IconNode(_, name, binding) =>
        var text := EncodeString(name);
        if text.Err? { return Err(text.error); }
        var source := EncodeOptional(env, binding);
        if source.Err? { return Err(source.error); }
        r := Ok((8, head + (text.value + source.value)));
      case BatteryNode(_, value) =>
        if value !in env.bindings { return Err(UnknownName); }
        r := Ok((9, head + [env.bindings[value]]));
    }
  }

  /** The fields of a repeat before its children. */
  method EncodeRepeatHead(env: Env, b: Body) returns (r: Result<seq<byte>, SceneError>)
    requires b.RepeatNode?
    ensures match AcceptedRepeat(env, b)
            case Err(e) => r == Err(e)
            case Ok(s) => s.Repeat? && r == Ok(RepeatHead(s))
  {
    hide RectBytes, U16;
    if b.list !in env.bindings { return Err(UnknownName); }
    if !(1 <= b.limit <= MAX_REPEAT_LIMIT) { return Err(BadRange); }
    if b.direction != "horizontal" && b.direction != "vertical" { return Err(UnknownName); }
    var place := RectBytes(Rect(Low16(b.x), Low16(b.y), Low16(b.itemWidth), Low16(b.itemHeight)));
    var dir: byte := if b.direction == "horizontal" then 0 else 1;
    r := Ok([env.bindings[b.list], b.limit] + (place + (U16(Low16(b.gap)) + [dir, 0])));
  }

  function RepeatHead(s: Shape): seq<byte>
    requires s.Repeat?
  {
    [s.list, s.limit] + (RectBytes(Rect(s.x, s.y, s.itemWidth, s.itemHeight)) + (U16(s.gap) + [s.dir, 0]))
  }

  /** The type-specific part: the type and its bytes. */
  method EncodeBody(env: Env, n: Node, depth: nat) returns (r: Result<(byte, seq<byte>), SceneError>)
    ensures match AcceptedShape(env, n, depth)
            case Err(e) => r == Err(e)
            case Ok(shape) => r == Ok((TypeOf(shape), ShapeBytes(shape)))
    decreases n, 0
  {
    hide AcceptedLeaf, AcceptedRepeat, AcceptedAll, ItemsBytes, RectBytes, U16;
    if !n.body.GroupNode? && !n.body.RepeatNode? {
      r := EncodeLeaf(env, n.body);
      return;
    }
    var children := n.body.children;
    var ntype: byte, head: seq<byte> := 10, [];
    if n.body.RepeatNode? {
      var fields := EncodeRepeatHead(env, n.body);
      if fields.Err? { return Err(fields.error); }
      ntype, head := 11, fields.value;
    }
    if !(1 <= |children| <= MAX_CHILDREN) { return Err(BadCount); }
    var inner := EncodeAll(env, children, depth + 1);
    if inner.Err? { return Err(inner.error); }
    var bytes := head + (U16(Low16(|children|)) + inner.value);
    assert bytes == ShapeBytes(AcceptedShape(env, n, depth).value);
    r := Ok((ntype, bytes));
  }

  /** The nodes one after the other. */
  method EncodeAll(env: Env, nodes: seq<Node>, depth: nat) returns (r: Result<seq<byte>, SceneError>)
    ensures match AcceptedAll(env, nodes, depth)
            case Err(e) => r == Err(e)
            case Ok(items) => r == Ok(ItemsBytes(items))
    decreases nodes
  {
    hide Accepted, AcceptedAll, ItemBytes, ItemsBytes, After;
    var bytes: seq<byte>, k := [], 0;
    ghost var done: seq<Item> := [];
    NoneDone(env, nodes, depth);
    while k < |nodes|
      invariant k <= |nodes| && bytes == ItemsBytes(done)
      invariant AcceptedAll(env, nodes, depth) == After(done, AcceptedAll(env, nodes[k..], depth))
    {
      var one := EncodeSceneNode(env, nodes[k], depth);
      OneDone(env, nodes, depth, k, done);
      if one.Err? { return Err(one.error); }
      ghost var item := Accepted(env, nodes[k], depth).value;
      ItemsBytesSnoc(done, item);
      bytes := bytes + one.value;
      done := done + [item];
      k := k + 1;
    }
    AllDone(env, nodes, depth, done);
    r := Ok(bytes);
  }

  function After(done: seq<Item>, rest: Result<seq<Item>, SceneError>): Result<seq<Item>, SceneError> {
    if rest.Err? then rest else Ok(done + rest.value)
  }

  lemma NoneDone(env: Env, nodes: seq<Node>, depth: nat)
    ensures AcceptedAll(env, nodes, depth) == After([], AcceptedAll(env, nodes[0..], depth))
    ensures ItemsBytes([]) == []
  {
    hide AcceptedAll;
    assert nodes[0..] == nodes;
    var all := AcceptedAll(env, nodes, depth);
    if all.Ok? { assert [] + all.value == all.value; }
  }

  lemma OneDone(env: Env, nodes: seq<Node>, depth: nat, k: nat, done: seq<Item>)
    requires k < |nodes|
    ensures After(done, AcceptedAll(env, nodes[k..], depth))
            == match Accepted(env, nodes[k], depth)
               case Err(e) => Err(e)
               case Ok(item) => After(done + [item], AcceptedAll(env, nodes[k + 1..], depth))
  {
    hide Accepted;
    assert nodes[k..][1..] == nodes[k + 1..];
    var one, rest := Accepted(env, nodes[k], depth), AcceptedAll(env, nodes[k + 1..], depth);
    if one.Ok? && rest.Ok? {
      assert done + ([one.value] + rest.value) == (done + [one.value]) + rest.value;
    }
  }

  lemma AllDone(env: Env, nodes: seq<Node>, depth: nat, done: seq<Item>)
    ensures After(done, AcceptedAll(env, nodes[|nodes|..], depth)) == Ok(done)
  {
    assert done + [] == done;
  }

  lemma {:induction false} ItemsBytesSnoc(items: seq<Item>, last: Item)
    ensures ItemsBytes(items + [last]) == ItemsBytes(items) + ItemBytes(last)
  {
    hide ItemBytes;
    if items == [] {
      assert items + [last] == [last] && [last][1..] == [];
      assert ItemsBytes([last]) == ItemBytes(last) + ItemsBytes([]);
    } else {
      assert (items + [last])[1..] == items[1..] + [last];
      ItemsBytesSnoc(items[1..], last);
    }
  }

  /** `_compile_scene`, and the limit `compile_theme` puts on its result. */
  method CompileScene(env: Env, nodes: seq<Node>) returns (r: Result<seq<byte>, SceneError>)
    ensures r == Compiled(env, nodes)
  {
    hide AcceptedAll, ItemsBytes, U16;
    if !(1 <= |nodes| <= MAX_SCENE_NODES) { return Err(BadCount); }
    var cmds := EncodeAll(env, nodes, 0);
    if cmds.Err? { return Err(cmds.error); }
    var bytes := U16(SCENE_VERSION) + U16(Low16(|nodes|)) + U16(0) + U16(0) + cmds.value;
    if |bytes| > SCENE_LIMIT { return Err(TooLarge); }
    r := Ok(bytes);
  }

  function Extended(out: seq<Command>, r: Result<(seq<Command>, nat), DecodeError>):
    Result<(seq<Command>, nat), DecodeError>
  {
    if r.Err? then r else Ok((out + r.value.0, r.value.1))
  }

  /** `decode_scene`, without the per-type summaries it adds for display. */
  method DecodeScene(data: seq<byte>) returns (r: Result<seq<Command>, DecodeError>)
    ensures r == Decoded(data)
  {
    hide Extended, Walk, ReadU16, AlignUp;
    if |data| < 8 { return Err(TooSmall); }
    if ReadU16(data, 0) != SCENE_VERSION { return Err(BadVersion); }
    var count := ReadU16(data, 2);
    var off: nat, i, out := 8, 0, [];
    ExtendedByNone(Walk(data, 8, count));
    while i < count
      invariant 0 <= i <= count && off % 4 == 0
      invariant Walk(data, 8, count) == Extended(out, Walk(data, off, count - i))
    {
      WalkStep(data, off, count - i, out);
      if off + 4 > |data| { return Err(TruncatedHeader); }
      var ntype, flags, plen := data[off], data[off + 1], ReadU16(data, off + 2);
      off := off + 4;
      if off + plen > |data| { return Err(TruncatedPayload); }
      out := out + [Command(ntype, flags, data[off..off + plen])];
      off := off + plen;
      TwoAlignments(off, plen);
      off := if (4 + plen) % 4 != 0 then (off + 3) / 4 * 4 else off;
      i := i + 1;
    }
    WalkStop(data, off, out);
    r := Ok(out);
  }

  lemma ExtendedByNone(r: Result<(seq<Command>, nat), DecodeError>)
    ensures Extended([], r) == r
  {
    if r.Ok? { assert [] + r.value.0 == r.value.0; }
  }

  lemma WalkStop(data: seq<byte>, off: nat, out: seq<Command>)
    ensures Extended(out, Walk(data, off, 0)) == Ok((out, off))
  {
    assert out + [] == out;
  }

  /** Commands start at multiples of four, so the decoder's two ways of aligning agree. */
  lemma TwoAlignments(end: nat, plen: nat)
    requires end >= 4 + plen && (end - 4 - plen) % 4 == 0
    ensures AlignUp(end) == if (4 + plen) % 4 != 0 then (end + 3) / 4 * 4 else end
  {
  }

  lemma WalkStep(data: seq<byte>, off: nat, n: nat, out: seq<Command>)
    requires n > 0
    ensures off + 4 > |data| ==> Extended(out, Walk(data, off, n)) == Err(TruncatedHeader)
    ensures off + 4 <= |data| ==>
              var end := off + 4 + ReadU16(data, off + 2);
              Extended(out, Walk(data, off, n))
              == if end > |data| then Err(TruncatedPayload)
                 else
                   var c := Command(data[off], data[off + 1], data[off + 4..end]);
                   Extended(out + [c], Walk(data, AlignUp(end), n - 1))
  {
    hide ReadU16, AlignUp;
    if off + 4 <= |data| {
      var end := off + 4 + ReadU16(data, off + 2);
      if end <= |data| {
        ExtendedTwice(out, Command(data[off], data[off + 1], data[off + 4..end]), Walk(data, AlignUp(end), n - 1));
      }
    }
  }

  lemma ExtendedTwice(out: seq<Command>, c: Command, rest: Result<(seq<Command>, nat), DecodeError>)
    ensures Extended(out + [c], rest) == Extended(out, Extended([c], rest))
  {
    if rest.Ok? { assert out + ([c] + rest.value.0) == (out + [c]) + rest.value.0; }
  }

  /** The previewer's loop over the children of a group or a repeat. */
  method ReadChildren(data: seq<byte>, count: nat) returns (out: seq<Command>)
    ensures out == WalkChildren(data, 0, count)
  {
    hide WalkChildren, ReadU16, AlignUp;
    out := [];
    var off: nat, i := 0, 0;
    assert out + WalkChildren(data, 0, count) == WalkChildren(data, 0, count);
    while i < count
      invariant 0 <= i <= count
      invariant out + WalkChildren(data, off, count - i) == WalkChildren(data, 0, count)
    {
      ChildStep(data, off, count - i, out);
      if off + 4 > |data| { return; }
      var plen := ReadU16(data, off + 2);
      var end := if off + 4 + plen <= |data| then off + 4 + plen else |data|;
      out := out + [Command(data[off], data[off + 1], data[off + 4..end])];
      off := AlignUp(off + 4 + plen);
      i := i + 1;
    }
    NoChildren(data, off, out);
  }

  lemma NoChildren(data: seq<byte>, off: nat, out: seq<Command>)
    ensures out + WalkChildren(data, off, 0) == out
  {
  }

  lemma ChildStep(data: seq<byte>, off: nat, n: nat, out: seq<Command>)
    requires n > 0
    ensures off + 4 > |data| ==> out + WalkChildren(data, off, n) == out
    ensures off + 4 <= |data| ==>
              var plen := ReadU16(data, off + 2);
              var end := if off + 4 + plen <= |data| then off + 4 + plen else |data|;
              out + WalkChildren(data, off, n)
              == (out + [Command(data[off], data[off + 1], data[off + 4..end])])
                 + WalkChildren(data, AlignUp(off + 4 + plen), n - 1)
  {
    hide ReadU16, AlignUp;
    if off + 4 <= |data| {
      var plen := ReadU16(data, off + 2);
      var end := if off + 4 + plen <= |data| then off + 4 + plen else |data|;
      var c := Command(data[off], data[off + 1], data[off + 4..end]);
      var rest := WalkChildren(data, AlignUp(off + 4 + plen), n - 1);
      assert out + ([c] + rest) == (out + [c]) + rest;
    }
  }
}
