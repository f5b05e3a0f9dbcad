/**
 What firmware/tools/compile_home_theme.py makes of a theme, said about the theme itself:
 which themes it takes, and what the file it emits decodes to.
 */
module ThemeMeaning {

  import opened Wrappers
  import opened Bytes
  import opened Scene
  import opened ThemePack
  import opened ThemeReaders
  import opened ThemeLayout
  import opened ThemeRoundTrip
  import SceneMeaning

  // ---------- slots ----------

  predicate SlotLegal(s: SlotSpec) {
    && SceneMeaning.OnScreen(s.rect)
    && 0 <= s.radius <= 64 && 0 <= s.stroke <= 8 && 0 <= s.focusInset <= 8
    && (s.stype == 0 ==> s.font.Some?)
    && (s.asset.Some? ==> 0 <= s.asset.value <= 31)
    && (s.focusable <==> s.focusOrder.Some?) && (s.focusOrder.Some? ==> 0 <= s.focusOrder.value <= 63)
    && (s.target.RecentBook? ==> 0 <= s.target.index <= 3)
  }

  /** Names are given and used once, and so are the focus orders. */
  predicate NamesDiffer(specs: seq<SlotSpec>) {
    && (forall i :: 0 <= i < |specs| ==> specs[i].id != "")
    && (forall i, j :: 0 <= i < j < |specs| ==> specs[i].id != specs[j].id)
    && (forall i, j :: 0 <= i < j < |specs| && specs[i].focusable && specs[j].focusable ==>
          specs[i].focusOrder != specs[j].focusOrder)
  }

  /** 0xFFFF stands for none. */
  predicate NumberShown(v: Option<int>, shown: u16) {
    if v.None? then shown == 0xFFFF else shown as int == v.value
  }

  /** Every field of a slot, as it is read back. */
  predicate SlotShown(s: SlotSpec, slot: Slot) {
    && slot.stype == s.stype && slot.binding == s.binding
    && SceneMeaning.SameRect(s.rect, slot.rect)
    && slot.radius as int == s.radius && slot.stroke as int == s.stroke && slot.focusInset as int == s.focusInset
    && (if s.font.Some? then (slot.font, slot.style) == s.font.value else slot.font == 0xFF && slot.style == 0xFF)
    && slot.align == (if s.stype == 0 then s.align else 0)
    && SceneMeaning.IsFlag(s.focusable, slot.flags) && NumberShown(s.focusOrder, slot.focusOrder)
    && NumberShown(s.asset, slot.asset) && slot.stringOff == 0xFFFF
    && match s.target
       case NoTarget => slot.targetKind == 0 && slot.targetIndex == 0 && slot.targetAction == 0
       case RecentBook(index) => slot.targetKind == 1 && slot.targetIndex as int == index && slot.targetAction == 0
       case ActionTarget(action) => slot.targetKind == 2 && slot.targetIndex == 0 && slot.targetAction == action
  }

  lemma SlotAccepted(s: SlotSpec)
    ensures AcceptedSlot(s).Ok? <==> SlotLegal(s)
    ensures AcceptedSlot(s).Ok? ==> SlotShown(s, AcceptedSlot(s).value)
    ensures AcceptedFocus(s).Err? ==> !SlotLegal(s)
  {
  }

  lemma {:induction false} SlotsAccepted(specs: seq<SlotSpec>)
    ensures AcceptedSlots(specs).Ok? <==> forall i :: 0 <= i < |specs| ==> SlotLegal(specs[i])
    ensures AcceptedSlots(specs).Ok? ==>
              forall i :: 0 <= i < |specs| ==> SlotShown(specs[i], AcceptedSlots(specs).value[i])
  {
    hide AcceptedSlot, SlotLegal, SlotShown;
    if specs == [] {
    } else {
      SlotAccepted(specs[0]);
      SlotsAccepted(specs[1..]);
      assert forall i :: 0 < i < |specs| ==> specs[i] == specs[1..][i - 1];
      assert forall i :: 0 <= i < |specs| - 1 ==> specs[1..][i] == specs[i + 1];
    }
  }

  /** The first loop finds nothing exactly when names and orders differ and each order goes
      with being focusable. */
  lemma {:induction false} NoFaultIff(specs: seq<SlotSpec>)
    ensures FirstSlotFault(specs) == None
       <==> NamesDiffer(specs) && forall i :: 0 <= i < |specs| ==> AcceptedFocus(specs[i]).Ok?
  {
    hide AcceptedFocus;
    if specs == [] {
    } else {
      var init, last := specs[..|specs| - 1], specs[|specs| - 1];
      NoFaultIff(init);
      assert forall i :: 0 <= i < |init| ==> init[i] == specs[i];
    }
  }

  // ---------- themes ----------

  predicate SlotsLegal(specs: seq<SlotSpec>) {
    1 <= |specs| <= 64 && NamesDiffer(specs) && forall i :: 0 <= i < |specs| ==> SlotLegal(specs[i])
  }

  ghost predicate SceneLegal(env: Env, nodes: seq<Node>) {
    && 1 <= |nodes| <= 128 && SceneMeaning.AllLegal(env, nodes, 0)
    && 8 + SceneMeaning.AllSize(nodes) <= 32 * 1024
  }

  ghost predicate ThemeLegal(t: Theme) {
    && t.id != [] && 0 !in t.id && |t.id| < 8 * 1024
    && (t.nodes.Some? || (t.slots.Some? && t.background.Some?))
    && (t.slots.Some? ==> SlotsLegal(t.slots.value))
    && (t.nodes.Some? ==> SceneLegal(t.env, t.nodes.value))
  }

  lemma SlotListAccepted(t: Theme)
    ensures AcceptedSlotList(t).Ok? <==> (t.slots.Some? ==> SlotsLegal(t.slots.value))
    ensures AcceptedSlotList(t).Ok? ==> SlotsShown(t, AcceptedSlotList(t).value)
  {
    hide SlotLegal, SlotShown, AcceptedSlots, FirstSlotFault, NamesDiffer, AcceptedFocus;
    if t.slots.Some? {
      var specs := t.slots.value;
      SlotsAccepted(specs);
      NoFaultIff(specs);
      forall i | 0 <= i < |specs| ensures AcceptedFocus(specs[i]).Err? ==> !SlotLegal(specs[i]) {
        SlotAccepted(specs[i]);
      }
    }
  }

  /** One slot for each that the author wrote, in order. */
  predicate SlotsShown(t: Theme, slots: seq<Slot>) {
    && |slots| == (if t.slots.Some? then |t.slots.value| else 0)
    && forall i :: 0 <= i < |slots| ==> SlotShown(t.slots.value[i], slots[i])
  }

  /** A theme is compiled exactly when it is legal. */
  lemma CompiledIff(crc: Crc, t: Theme)
    ensures CompiledTheme(crc, t).Ok? <==> ThemeLegal(t)
  {
    hide CompiledTheme, SlotsLegal, AcceptedSlotList, SceneBytes.Compiled, SlotsShown;
    hide SceneMeaning.AllLegal, SceneMeaning.AllSize;
    SizeNeverRefuses(crc, t);
    SlotListAccepted(t);
    if t.nodes.Some? { SceneMeaning.CompiledIff(t.env, t.nodes.value); }
  }

  /** No scene when none is asked for, else one command a node, each showing its node. */
  ghost predicate SceneShown(t: Theme, scene: Option<SceneRead>) {
    && (t.nodes.None? <==> scene.None?)
    && (t.nodes.Some? ==>
          && scene.value.view.Commands? && |scene.value.view.commands| == |t.nodes.value|
          && forall k :: 0 <= k < |t.nodes.value| ==>
               SceneMeaning.CommandShows(t.env, t.nodes.value[k], scene.value.view.commands[k]))
  }

  /** The file of a legal theme decodes to the theme: its name, its background or a white
      one, one slot for every slot with all its fields, and one command for every node
      with all its fields and children. */
  lemma EmittedShowsTheme(crc: Crc, t: Theme)
    requires ThemeLegal(t)
    ensures CompiledTheme(crc, t).Ok?
    ensures var d := DecodedPack(crc, CompiledTheme(crc, t).value);
            && d.Ok? && d.value.id == t.id
            && d.value.background == (if t.background.Some? then t.background.value else Zeros(48000))
            && SlotsShown(t, d.value.slots) && SceneShown(t, d.value.scene)
  {
    CompiledIff(crc, t);
    EmittedPackDecodes(crc, t);
    hide DecodedPack, CompiledTheme, AcceptedSlotList, SceneBytes.Compiled, SceneBytes.Decoded, ThemeLegal, SlotsShown;
    hide SceneMeaning.CommandShows;
    SlotListAccepted(t);
    if t.nodes.Some? { SceneMeaning.SceneShowsNodes(t.env, t.nodes.value); }
  }
}
