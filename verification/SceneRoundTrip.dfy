/**
 Everything the scene compiler accepts comes back from its bytes: the commands in
 order, every field, and the children at every depth.
 */
module SceneRoundTrip {

  import opened Wrappers
  import opened Bytes
  import opened Scene
  import opened SceneBytes

  // ---------- lengths ----------

  /** No length field of the item or of anything inside it wraps. */
  ghost predicate Fits(i: Item)
    decreases i, 1
  {
    |Payload(i)| < U16_LIMIT && FitsInside(i.shape)
  }

  ghost predicate FitsInside(s: Shape)
    decreases s, 0
  {
    match s
    case Group(children) => AllFit(children)
    case Repeat(_, _, _, _, _, _, _, _, children) => AllFit(children)
    case _ => true
  }

  ghost predicate AllFit(items: seq<Item>)
    decreases items
  {
    items == [] || (Fits(items[0]) && AllFit(items[1..]))
  }

  /** A wrapped length would need more bytes than the stream has. */
  lemma {:induction false} ShortStreamFits(items: seq<Item>)
    requires |ItemsBytes(items)| < U16_LIMIT
    ensures AllFit(items)
    decreases items
  {
    if items == [] {
    } else {
      hide Payload;
      ShortItemFits(items[0]);
      ShortStreamFits(items[1..]);
    }
  }

  lemma {:induction false} ShortItemFits(i: Item)
    requires |ItemBytes(i)| < U16_LIMIT
    ensures Fits(i)
    decreases i
  {
    hide ItemBytes, ItemsBytes, Payload;
    ChildrenInside(i);
    match i.shape
    case Group(children) => ShortStreamFits(children);
    case Repeat(_, _, _, _, _, _, _, _, children) => ShortStreamFits(children);
    case _ =>
  }

  lemma ChildrenInside(i: Item)
    ensures i.shape.Group? || i.shape.Repeat? ==> |ItemsBytes(i.shape.children)| <= |Payload(i)|
  {
    hide ItemsBytes, RectBytes, VisibleBytes, ActionBytes;
  }

  lemma {:induction false} CountFits(items: seq<Item>)
    ensures 4 * |items| <= |ItemsBytes(items)|
    decreases items
  {
    hide ItemBytes;
    if items == [] {
    } else {
      CountFits(items[1..]);
    }
  }

  // ---------- walking ----------

  lemma PadIsAlignment(off: nat, n: nat)
    requires off % 4 == 0
    ensures AlignUp(off + 4 + n) == off + 4 + n + PadToFour(4 + n)
  {
  }

  /** Where an item stands, its header reads back and the next one starts right after it. */
  lemma ItemStands(data: seq<byte>, off: nat, i: Item)
    requires HoldsAt(data, off, ItemBytes(i)) && off % 4 == 0 && |Payload(i)| < U16_LIMIT
    ensures off + 4 + |Payload(i)| <= |data| && ReadU16(data, off + 2) == |Payload(i)|
    ensures Command(data[off], data[off + 1], data[off + 4..off + 4 + |Payload(i)|]) == CommandOf(i)
    ensures AlignUp(off + 4 + |Payload(i)|) == off + |ItemBytes(i)| <= |data|
  {
    hide ItemBytes, Payload, AlignUp, HoldsAt, U16, ReadU16, TypeOf, FlagsOf, Zeros, PadToFour;
    var payload, pad := Payload(i), Zeros(PadToFour(4 + |Payload(i)|));
    var head, size := Head(i), U16(|payload|);
    PadIsAlignment(off, |payload|);
    ItemPieces(i);
    HoldsBoth(data, off, head, size + (payload + pad));
    HoldsBoth(data, off + 2, size, payload + pad);
    HoldsBoth(data, off + 4, payload, pad);
    HoldsSlice(data, off, head);
    HoldsSlice(data, off + 2, size);
    HoldsSlice(data, off + 4, payload);
    HoldsSlice(data, off, ItemBytes(i));
    U16ReadsBack(data, off + 2, |payload|);
    TwoBytes(data, off, head);
  }

  function Head(i: Item): (r: seq<byte>)
    ensures |r| == 2
  {
    [TypeOf(i.shape), FlagsOf(i)]
  }

  lemma ItemPieces(i: Item)
    requires |Payload(i)| < U16_LIMIT
    ensures ItemBytes(i) == Head(i) + (U16(|Payload(i)|) + (Payload(i) + Zeros(PadToFour(4 + |Payload(i)|))))
  {
    hide Payload, PadToFour, Zeros, U16;
  }

  lemma TwoBytes(data: seq<byte>, off: nat, pair: seq<byte>)
    requires |pair| == 2 && off + 2 <= |data| && data[off..off + 2] == pair
    ensures data[off] == pair[0] && data[off + 1] == pair[1]
  {
  }

  lemma HoldsSlice(data: seq<byte>, off: nat, chunk: seq<byte>)
    requires HoldsAt(data, off, chunk)
    ensures off + |chunk| <= |data| && data[off..off + |chunk|] == chunk
  {
  }

  lemma CommandsSplit(items: seq<Item>)
    requires items != []
    ensures CommandsOf(items) == [CommandOf(items[0])] + CommandsOf(items[1..])
  {
    hide CommandOf, CommandsOf;
    var whole, split := CommandsOf(items), [CommandOf(items[0])] + CommandsOf(items[1..]);
    forall k | 0 <= k < |whole| ensures whole[k] == split[k] {
      if k > 0 { assert items[1..][k - 1] == items[k]; }
    }
  }

  lemma {:induction false} WalkFindsItems(data: seq<byte>, off: nat, items: seq<Item>)
    requires HoldsAt(data, off, ItemsBytes(items)) && off % 4 == 0 && AllFit(items)
    ensures Walk(data, off, |items|) == Ok((CommandsOf(items), off + |ItemsBytes(items)|))
    decreases |items|
  {
    hide HoldsAt, ItemBytes, Payload, FitsInside, ReadU16, AlignUp, CommandOf, CommandsOf;
    if items == [] {
      assert CommandsOf(items) == [];
    } else {
      HoldsBoth(data, off, ItemBytes(items[0]), ItemsBytes(items[1..]));
      ItemStands(data, off, items[0]);
      CommandsSplit(items);
      WalkFindsItems(data, off + |ItemBytes(items[0])|, items[1..]);
    }
  }

  lemma ChildWalkStep(data: seq<byte>, off: nat, i: Item, n: nat)
    requires HoldsAt(data, off, ItemBytes(i)) && off % 4 == 0 && |Payload(i)| < U16_LIMIT
    ensures WalkChildren(data, off, n + 1) == [CommandOf(i)] + WalkChildren(data, off + |ItemBytes(i)|, n)
  {
    hide HoldsAt, ItemBytes, Payload, ReadU16, AlignUp, CommandOf;
    ItemStands(data, off, i);
  }

  lemma NoItems(data: seq<byte>, off: nat)
    ensures WalkChildren(data, off, 0) == CommandsOf([])
  {
  }

  lemma {:induction false} ChildWalkFindsItems(data: seq<byte>, off: nat, items: seq<Item>)
    requires HoldsAt(data, off, ItemsBytes(items)) && off % 4 == 0 && AllFit(items)
    ensures WalkChildren(data, off, |items|) == CommandsOf(items)
    decreases |items|
  {
    hide WalkChildren, HoldsAt, ItemBytes, Payload, FitsInside, CommandOf, CommandsOf;
    if items == [] {
      NoItems(data, off);
    } else {
      HoldsBoth(data, off, ItemBytes(items[0]), ItemsBytes(items[1..]));
      ChildWalkStep(data, off, items[0], |items| - 1);
      CommandsSplit(items);
      ChildWalkFindsItems(data, off + |ItemBytes(items[0])|, items[1..]);
    }
  }

  // ---------- fields ----------

  lemma U16AtFront(v: u16, rest: seq<byte>)
    ensures ReadU16(U16(v) + rest, 0) == v && (U16(v) + rest)[2..] == rest
  {
    U16ReadsBack(U16(v) + rest, 0, v);
  }

  lemma RectAtFront(r: Rect, rest: seq<byte>)
    ensures ReadRect(RectBytes(r) + rest) == r && (RectBytes(r) + rest)[8..] == rest
  {
    var s := RectBytes(r) + rest;
    assert s[0..2] == U16(r.x) && s[2..4] == U16(r.y) && s[4..6] == U16(r.w) && s[6..8] == U16(r.h);
    U16ReadsBack(s, 0, r.x);
    U16ReadsBack(s, 2, r.y);
    U16ReadsBack(s, 4, r.w);
    U16ReadsBack(s, 6, r.h);
  }

  lemma OptionalAtFront(b: Option<byte>, rest: seq<byte>)
    ensures ReadOptional(OptionalByte(b) + rest) == Some(b)
    ensures (OptionalByte(b) + rest)[if b.Some? then 2 else 1..] == rest
  {
  }

  lemma LabelAtFront(s: Label, rest: seq<byte>)
    ensures ReadLabel(LabelBytes(s) + rest) == Some((s, |LabelBytes(s)|))
    ensures (LabelBytes(s) + rest)[|LabelBytes(s)|..] == rest
  {
    assert LabelBytes(s) + rest == U16(|s|) + (s + rest);
    U16AtFront(|s|, s + rest);
    assert (s + rest)[..|s|] == s;
    assert (U16(|s|) + (s + rest))[2..2 + |s|] == s;
  }

  lemma TextReadsBack(t: TextItem)
    ensures ReadText(TextBytes(t)) == Some(t)
  {
    hide ReadLabel, LabelBytes, U16;
    if t.LiteralText? {
      assert TextBytes(t)[2..] == LabelBytes(t.utf8) + [];
      LabelAtFront(t.utf8, []);
      LabelSize(t.utf8);
    }
  }

  lemma LabelSize(s: Label)
    ensures |LabelBytes(s)| == 2 + |s|
  {
  }

  predicate Boxed(s: Shape) { !s.Clear? && !s.Group? && !s.Repeat? }

  /** What follows the rectangle of a shape without children. */
  function AfterRect(s: Shape): seq<byte>
    requires Boxed(s)
  {
    match s
    case Bitmap(_, source) => LabelBytes(source)
    case Line(_, _, _, _, width, color) => [width, color]
    case Box(_, stroke, fill) => [stroke, fill]
    case RoundBox(_, r, stroke, fill) => U16(r) + [stroke, fill]
    case Text(_, font, style, align, ellipsis, text) => [font, style, align, ellipsis] + TextBytes(text)
    case Cover(_, r, binding) => U16(r) + OptionalByte(binding)
    case Progress(_, r, value) => U16(r) + [value]
    case Icon(_, name, binding) => LabelBytes(name) + OptionalByte(binding)
    case Battery(_, value) => [value]
  }

  function RectOf(s: Shape): Rect
    requires Boxed(s)
  {
    if s.Line? then Rect(s.x, s.y, s.x2, s.y2) else s.rect
  }

  lemma BoxedReadsBack(s: Shape)
    requires Boxed(s)
    ensures ReadBoxed(TypeOf(s), RectOf(s), AfterRect(s)) == Some(s)
  {
    hide ReadLabel, LabelBytes, ReadOptional, OptionalByte, ReadText, TextBytes, U16, ReadU16;
    match s
    case Bitmap(_, source) =>
      LabelAtFront(source, []);
      assert AfterRect(s) == LabelBytes(source) + [];
    case RoundBox(_, r, stroke, fill) => U16AtFront(r, [stroke, fill]);
    case Text(_, font, style, align, ellipsis, text) =>
      TextReadsBack(text);
      assert AfterRect(s)[4..] == TextBytes(text);
    case Cover(_, r, binding) =>
      U16AtFront(r, OptionalByte(binding));
      OptionalAtFront(binding, []);
      assert OptionalByte(binding) == OptionalByte(binding) + [];
    case Progress(_, r, value) => U16AtFront(r, [value]);
    case Icon(_, name, binding) =>
      LabelAtFront(name, OptionalByte(binding));
      OptionalAtFront(binding, []);
      assert OptionalByte(binding) == OptionalByte(binding) + [];
    case _ =>
  }

  lemma {:induction false} ShapeReadsBack(s: Shape)
    requires FitsInside(s) && |ShapeBytes(s)| < U16_LIMIT
    ensures ReadShape(TypeOf(s), ShapeBytes(s)) == Some(s)
    decreases s, 1
  {
    match s
    case Clear(_) =>
    case Group(children) => GroupReadsBack(s);
    case Repeat(_, _, _, _, _, _, _, _, _) => RepeatReadsBack(s);
    case _ => PlainReadsBack(s);
  }

  lemma PlainReadsBack(s: Shape)
    requires Boxed(s)
    ensures ReadShape(TypeOf(s), ShapeBytes(s)) == Some(s)
  {
    hide ReadBoxed, AfterRect, ReadRect, RectBytes, RectOf, ShapeBytes;
    BoxedBytes(s);
    RectAtFront(RectOf(s), AfterRect(s));
    BoxedReadsBack(s);
  }

  lemma BoxedBytes(s: Shape)
    requires Boxed(s)
    ensures ShapeBytes(s) == RectBytes(RectOf(s)) + AfterRect(s)
  {
  }

  lemma {:induction false} GroupReadsBack(s: Shape)
    requires s.Group? && FitsInside(s) && |ShapeBytes(s)| < U16_LIMIT
    ensures ReadShape(TypeOf(s), ShapeBytes(s)) == Some(s)
    decreases s, 0
  {
    hide ItemsBytes, AllFit, ReadItems, WalkChildren, U16, ReadU16;
    var children, rest := s.children, ItemsBytes(s.children);
    var bytes := ShapeBytes(s);
    CountFits(children);
    U16AtFront(|children|, rest);
    assert bytes == U16(|children|) + rest;
    ChildrenReadBack(children, |bytes| - 2);
  }

  lemma {:induction false} RepeatReadsBack(s: Shape)
    requires s.Repeat? && FitsInside(s) && |ShapeBytes(s)| < U16_LIMIT
    ensures ReadShape(TypeOf(s), ShapeBytes(s)) == Some(s)
    decreases s, 0
  {
    hide ItemsBytes, AllFit, ReadItems, WalkChildren, FitsInside;
    var children, rest := s.children, ItemsBytes(s.children);
    var bytes := ShapeBytes(s);
    CountFits(children);
    FitsChildren(s);
    RepeatFields(s, bytes);
    ChildrenReadBack(children, |bytes| - 16);
  }

  lemma FitsChildren(s: Shape)
    requires s.Repeat? && FitsInside(s)
    ensures AllFit(s.children)
  {
  }

  lemma RepeatPieces(s: Shape, bytes: seq<byte>)
    requires s.Repeat? && bytes == ShapeBytes(s)
    ensures |bytes| >= 16 && bytes[0] == s.list && bytes[1] == s.limit && bytes[12] == s.dir
    ensures bytes[2..4] == U16(s.x) && bytes[4..6] == U16(s.y)
    ensures bytes[6..8] == U16(s.itemWidth) && bytes[8..10] == U16(s.itemHeight)
    ensures bytes[10..12] == U16(s.gap) && bytes[14..16] == U16(Low16(|s.children|))
    ensures bytes[16..] == ItemsBytes(s.children)
  {
    hide ItemsBytes, U16;
  }

  lemma RepeatFields(s: Shape, bytes: seq<byte>)
    requires s.Repeat? && bytes == ShapeBytes(s) && |s.children| < U16_LIMIT
    ensures |bytes| >= 16 && bytes[0] == s.list && bytes[1] == s.limit && bytes[12] == s.dir
    ensures ReadU16(bytes, 2) == s.x && ReadU16(bytes, 4) == s.y && ReadU16(bytes, 6) == s.itemWidth
    ensures ReadU16(bytes, 8) == s.itemHeight && ReadU16(bytes, 10) == s.gap && ReadU16(bytes, 14) == |s.children|
    ensures bytes[16..] == ItemsBytes(s.children)
  {
    hide ItemsBytes, ShapeBytes, U16, ReadU16;
    RepeatPieces(s, bytes);
    U16ReadsBack(bytes, 2, s.x);
    U16ReadsBack(bytes, 4, s.y);
    U16ReadsBack(bytes, 6, s.itemWidth);
    U16ReadsBack(bytes, 8, s.itemHeight);
    U16ReadsBack(bytes, 10, s.gap);
    U16ReadsBack(bytes, 14, |s.children|);
  }

  lemma {:induction false} ChildrenReadBack(children: seq<Item>, limit: nat)
    requires AllFit(children) && limit == |ItemsBytes(children)|
    ensures ReadItems(WalkChildren(ItemsBytes(children), 0, |children|), limit) == Some(children)
    decreases children, 2
  {
    hide ItemsBytes, AllFit, Payload;
    ChildWalkFindsItems(ItemsBytes(children), 0, children);
    assert forall k :: 0 <= k < |children| ==> |CommandsOf(children)[k].payload| < limit;
    ItemsReadBack(children, limit);
  }

  lemma {:induction false} ItemsReadBack(items: seq<Item>, limit: nat)
    requires AllFit(items) && forall k :: 0 <= k < |items| ==> |CommandsOf(items)[k].payload| < limit
    ensures ReadItems(CommandsOf(items), limit) == Some(items)
    decreases items, 1
  {
    hide ReadItem, Payload;
    if items == [] {
    } else {
      assert CommandsOf(items)[1..] == CommandsOf(items[1..]);
      assert items == [items[0]] + items[1..];
      ItemReadsBack(items[0]);
      ItemsReadBack(items[1..], limit);
    }
  }

  /** Every field of an item, and all its children, come back from its command. */
  lemma {:induction false} ItemReadsBack(i: Item)
    requires Fits(i)
    ensures ReadItem(CommandOf(i)) == Some(i)
    decreases i, 1
  {
    hide ShapeBytes, ReadShape, TypeOf, FitsInside, FlagsOf, ActionBytes, ReadOptional;
    var shape := ShapeBytes(i.shape);
    ShapeReadsBack(i.shape);
    FlagBits(i);
    ActionAtFront(i.action, shape);
    var rest := if i.visible.Some? then Payload(i)[1..] else Payload(i);
    assert rest == ActionBytes(i.action) + shape;
  }

  lemma FlagBits(i: Item)
    ensures FlagsOf(i) % 2 == 1 <==> i.visible.Some?
    ensures FlagsOf(i) / 2 % 2 == 1 <==> i.action.Some?
  {
  }

  lemma ActionAtFront(a: Option<Action>, shape: seq<byte>)
    ensures a.None? ==> ActionBytes(a) + shape == shape
    ensures a.Some? ==>
              var s := ActionBytes(a) + shape;
              && s != [] && s[0] == a.value.id && ReadOptional(s[1..]) == Some(a.value.arg)
              && |s| >= 3 - (if a.value.arg.None? then 1 else 0)
              && s[if a.value.arg.Some? then 3 else 2..] == shape
  {
    if a.Some? {
      var s := ActionBytes(a) + shape;
      assert s[1..] == OptionalByte(a.value.arg) + shape;
      OptionalAtFront(a.value.arg, shape);
    }
  }

  // ---------- the whole scene ----------

  /** Whatever the compiler accepts: no length wrapped; the decoder finds exactly one
      command a node, in order, with its type, flags and payload; its walk ends exactly
      at the last byte; and each command reads back into the accepted node with all its
      children. */
  lemma SceneComesBack(env: Env, nodes: seq<Node>) returns (items: seq<Item>)
    requires Compiled(env, nodes).Ok?
    ensures AcceptedAll(env, nodes, 0) == Ok(items) && |items| == |nodes| && AllFit(items)
    ensures var bytes := Compiled(env, nodes).value;
            && Decoded(bytes) == Ok(CommandsOf(items))
            && Walk(bytes, 8, |nodes|) == Ok((CommandsOf(items), |bytes|))
    ensures forall k :: 0 <= k < |items| ==> ReadItem(CommandOf(items[k])) == Some(items[k])
  {
    hide AcceptedAll, ItemsBytes, AllFit, Walk, WalkChildren, ReadItem, CommandOf, CommandsOf;
    items := AcceptedAll(env, nodes, 0).value;
    var bytes := Section(items);
    ShortStreamFits(items);
    assert bytes[0..2] == U16(SCENE_VERSION) && bytes[2..4] == U16(|items|) && bytes[8..] == ItemsBytes(items);
    U16ReadsBack(bytes, 0, SCENE_VERSION);
    U16ReadsBack(bytes, 2, |items|);
    WalkFindsItems(bytes, 8, items);
    forall k | 0 <= k < |items| ensures ReadItem(CommandOf(items[k])) == Some(items[k]) {
      EachFits(items, k);
      ItemReadsBack(items[k]);
    }
  }

  lemma {:induction false} EachFits(items: seq<Item>, k: nat)
    requires AllFit(items) && k < |items|
    ensures Fits(items[k])
    decreases k
  {
    hide Fits;
    if k == 0 {
    } else {
      EachFits(items[1..], k - 1);
    }
  }

  /** So two scenes with the same bytes accept the same items. */
  lemma BytesDetermineScene(env: Env, a: seq<Node>, b: seq<Node>)
    requires Compiled(env, a).Ok? && Compiled(env, a) == Compiled(env, b)
    ensures AcceptedAll(env, a, 0) == AcceptedAll(env, b, 0)
  {
    hide AcceptedAll, ItemsBytes, Walk, ReadItem, CommandOf, Compiled, Decoded;
    var x := SceneComesBack(env, a);
    var y := SceneComesBack(env, b);
    forall k | 0 <= k < |x| ensures x[k] == y[k] {
      assert CommandsOf(x)[k] == CommandsOf(y)[k];
    }
    assert x == y;
  }
}
