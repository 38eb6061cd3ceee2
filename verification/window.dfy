/** The window helpers of `src/mate-ui-window.c`: four optional slots laid
    out in a vertical box in a fixed order, the setters that change one slot
    and rebuild the box, and the rules that persist the window's geometry to
    a settings object.

    Widgets are opaque values. Who holds a reference to a widget is modelled
    only as far as it decides whether a widget survives being taken out of
    the box. Settings writes are returned as a list; the settings store is a
    pair of maps. */
module Window {
  import opened Common

  /** The GTK types the setters check for. */
  datatype WidgetKind = MenuBarKind | ToolbarKind | OtherKind

  /** A widget pointer: an identity and the type it was created with. */
  datatype Widget = Widget(id: nat, kind: WidgetKind)

  /** The four slots of `MateUiWindowPrivate`; `None` is NULL. */
  datatype Slots = Slots(menubar: Option<Widget>, toolbar: Option<Widget>,
                         content: Option<Widget>, statusbar: Option<Widget>)

  datatype Slot = MenubarSlot | ToolbarSlot | ContentSlot | StatusbarSlot

  const Empty: Slots := Slots(None, None, None, None)

  function Get(s: Slots, slot: Slot): Option<Widget>
  {
    match slot
    case MenubarSlot => s.menubar
    case ToolbarSlot => s.toolbar
    case ContentSlot => s.content
    case StatusbarSlot => s.statusbar
  }

  function With(s: Slots, slot: Slot, v: Option<Widget>): (r: Slots)
    ensures Get(r, slot) == v
    ensures forall other: Slot :: other != slot ==> Get(r, other) == Get(s, other)
  {
    match slot
    case MenubarSlot => s.(menubar := v)
    case ToolbarSlot => s.(toolbar := v)
    case ContentSlot => s.(content := v)
    case StatusbarSlot => s.(statusbar := v)
  }

  /** The widgets the slots hold. */
  function SlotWidgets(s: Slots): set<Widget>
  {
    (if s.menubar.Some? then {s.menubar.value} else {})
    + (if s.toolbar.Some? then {s.toolbar.value} else {})
    + (if s.content.Some? then {s.content.value} else {})
    + (if s.statusbar.Some? then {s.statusbar.value} else {})
  }

  /** Which end of the box a child was packed at. */
  datatype PackType = PackStart | PackEnd

  /** A child of the main box: the widget, its end, and whether it expands. */
  datatype Child = Child(widget: Widget, pack: PackType, expand: bool)

  function BoxWidgets(box: seq<Child>): set<Widget>
  {
    set c | c in box :: c.widget
  }

  /** Packing a widget that is already a child is refused by GTK, so the
      box is unchanged. */
  function Pack(box: seq<Child>, w: Option<Widget>, pack: PackType, expand: bool): (r: seq<Child>)
    ensures BoxWidgets(r) == BoxWidgets(box) + (if w.Some? then {w.value} else {})
    ensures w.None? || w.value in BoxWidgets(box) ==> r == box
    ensures w.Some? && w.value !in BoxWidgets(box) ==> r == box + [Child(w.value, pack, expand)]
  {
    if w.None? || w.value in BoxWidgets(box) then box
    else
      assert BoxWidgets(box + [Child(w.value, pack, expand)]) == BoxWidgets(box) + {w.value} by {
        forall c | c in box + [Child(w.value, pack, expand)]
          ensures c in box || c == Child(w.value, pack, expand)
        {
        }
      }
      box + [Child(w.value, pack, expand)]
  }

  /** `mate_ui_window_rebuild_layout` after emptying the box: menubar,
      toolbar and content packed at the start in that order, the content
      expanding, and the statusbar packed at the end. */
  function Layout(s: Slots): (box: seq<Child>)
    ensures BoxWidgets(box) == SlotWidgets(s)
    ensures forall c :: c in box && c.expand ==> s.content == Some(c.widget)
    ensures forall c :: c in box && c.pack == PackEnd ==> s.statusbar == Some(c.widget)
  {
    var top := Pack(Pack([], s.menubar, PackStart, false), s.toolbar, PackStart, false);
    Pack(Pack(top, s.content, PackStart, true), s.statusbar, PackEnd, false)
  }

  /** No widget is a child twice. */
  predicate DistinctChildren(box: seq<Child>)
  {
    forall i, j :: 0 <= i < j < |box| ==> box[i].widget != box[j].widget
  }

  lemma PackDistinct(box: seq<Child>, w: Option<Widget>, pack: PackType, expand: bool)
    requires DistinctChildren(box)
    ensures DistinctChildren(Pack(box, w, pack, expand))
  {
    if w.Some? && w.value !in BoxWidgets(box) {
      var r := box + [Child(w.value, pack, expand)];
      forall i, j | 0 <= i < j < |r| ensures r[i].widget != r[j].widget {
        if j == |box| {
          assert box[i] in box;
        }
      }
    }
  }

  /** The box holds exactly the widgets in the slots, each once. */
  lemma LayoutHoldsSlots(s: Slots)
    ensures BoxWidgets(Layout(s)) == SlotWidgets(s)
    ensures DistinctChildren(Layout(s))
  {
    var b1 := Pack([], s.menubar, PackStart, false);
    var b2 := Pack(b1, s.toolbar, PackStart, false);
    var b3 := Pack(b2, s.content, PackStart, true);
    PackDistinct([], s.menubar, PackStart, false);
    PackDistinct(b1, s.toolbar, PackStart, false);
    PackDistinct(b2, s.content, PackStart, true);
    PackDistinct(b3, s.statusbar, PackEnd, false);
  }

  /** The child a slot contributes when its widget is in no other slot. */
  function SlotChild(w: Option<Widget>, pack: PackType, expand: bool): seq<Child>
  {
    if w.Some? then [Child(w.value, pack, expand)] else []
  }

  /** No widget sits in two slots. */
  predicate DistinctSlots(s: Slots)
  {
    && (s.menubar.Some? ==> s.menubar != s.toolbar && s.menubar != s.content && s.menubar != s.statusbar)
    && (s.toolbar.Some? ==> s.toolbar != s.content && s.toolbar != s.statusbar)
    && (s.content.Some? ==> s.content != s.statusbar)
  }

  /** With one widget per slot the box is menubar, toolbar and content at
      the start, in that order, then the statusbar at the end; an empty
      slot leaves no gap. */
  lemma LayoutOrder(s: Slots)
    requires DistinctSlots(s)
    ensures Layout(s) == SlotChild(s.menubar, PackStart, false) + SlotChild(s.toolbar, PackStart, false)
                         + SlotChild(s.content, PackStart, true) + SlotChild(s.statusbar, PackEnd, false)
  {
    var m, t, c := s.menubar, s.toolbar, s.content;
    var b1 := Pack([], m, PackStart, false);
    assert b1 == SlotChild(m, PackStart, false);
    var b2 := Pack(b1, t, PackStart, false);
    assert b2 == b1 + SlotChild(t, PackStart, false);
    var b3 := Pack(b2, c, PackStart, true);
    assert b3 == b2 + SlotChild(c, PackStart, true);
  }

  /** A widget in two slots is packed once, where its first slot puts it. */
  lemma SharedWidgetPackedOnce(w: Widget)
    ensures Layout(Slots(None, Some(w), None, Some(w))) == [Child(w, PackStart, false)]
  {
    assert BoxWidgets([Child(w, PackStart, false)]) == {w};
  }

  /** Which slot widgets the window itself holds a reference to. As
      written only the menubar setter takes one (`g_object_ref_sink`); the
      other setters store the pointer alone. */
  datatype Ownership = MenubarOnly | EverySlot

  function Held(s: Slots, own: Ownership): (r: set<Widget>)
    ensures r <= SlotWidgets(s)
    ensures s.menubar.Some? ==> s.menubar.value in r
  {
    match own
    case MenubarOnly => if s.menubar.Some? then {s.menubar.value} else {}
    case EverySlot => SlotWidgets(s)
  }

  /** The window: its slots and the children of its main box. */
  datatype Win = Win(slots: Slots, box: seq<Child>)

  /** The box shows the slots. */
  predicate Consistent(w: Win)
  {
    w.box == Layout(w.slots)
  }

  /** `mate_ui_window_init`: all slots empty, the box empty. */
  const Initial: Win := Win(Empty, [])

  lemma InitialConsistent()
    ensures Consistent(Initial)
  {
  }

  /** The result of a setter: the window after it, and whether the rebuild
      put back a widget that its removal from the box had already
      finalized (a use after free). */
  datatype SetResult = SetResult(win: Win, reusedFreed: bool)

  /** `mate_ui_window_rebuild_layout` with slots `s`. Removing a child drops
      the box's reference; a child nobody else holds (`callerRefs` are the
      widgets the application keeps a reference to) is finalized at that
      point, and re-packing it then reads freed memory. */
  function Rebuild(w: Win, s: Slots, own: Ownership, callerRefs: set<Widget>): (r: SetResult)
    ensures r.win == Win(s, Layout(s))
    ensures r.reusedFreed <==>
              exists x :: x in SlotWidgets(s) && x in BoxWidgets(w.box) && x !in Held(s, own) && x !in callerRefs
  {
    SetResult(Win(s, Layout(s)),
              exists x :: x in SlotWidgets(s) && x in BoxWidgets(w.box) && x !in Held(s, own) && x !in callerRefs)
  }

  /** What a setter's `g_return_if_fail` guards let through: a menubar or
      toolbar of the right type or NULL, any non-NULL content, and any
      statusbar. */
  predicate Accepts(slot: Slot, v: Option<Widget>)
  {
    match slot
    case MenubarSlot => v.None? || v.value.kind == MenuBarKind
    case ToolbarSlot => v.None? || v.value.kind == ToolbarKind
    case ContentSlot => v.Some?
    case StatusbarSlot => true
  }

  /** `mate_ui_window_set_menubar`, `_set_toolbar`, `_set_content` and
      `_set_statusbar`: a refused or unchanged value leaves the window as it
      is; otherwise the slot takes the value and the box is rebuilt. */
  function SetSlot(w: Win, slot: Slot, v: Option<Widget>, own: Ownership, callerRefs: set<Widget>): (r: SetResult)
    ensures !Accepts(slot, v) || Get(w.slots, slot) == v ==> r == SetResult(w, false)
    ensures Accepts(slot, v) && Get(w.slots, slot) != v ==>
              && Get(r.win.slots, slot) == v
              && (forall other: Slot :: other != slot ==> Get(r.win.slots, other) == Get(w.slots, other))
              && Consistent(r.win)
  {
    if !Accepts(slot, v) || Get(w.slots, slot) == v then SetResult(w, false)
    else Rebuild(w, With(w.slots, slot, v), own, callerRefs)
  }

  /** Every setter keeps the box in step with the slots. */
  lemma SetSlotPreservesConsistent(w: Win, slot: Slot, v: Option<Widget>, own: Ownership, callerRefs: set<Widget>)
    requires Consistent(w)
    ensures Consistent(SetSlot(w, slot, v, own, callerRefs).win)
  {
  }

  /** Setting the value a slot already holds a second time changes nothing. */
  lemma SetSlotIdempotent(w: Win, slot: Slot, v: Option<Widget>, own: Ownership, callerRefs: set<Widget>)
    ensures var once := SetSlot(w, slot, v, own, callerRefs).win;
            SetSlot(once, slot, v, own, callerRefs) == SetResult(once, false)
  {
  }

  /** When the window holds a reference to every slot widget, a rebuild
      never re-packs a finalized widget, whatever the application keeps. */
  lemma {:induction false} EverySlotNeverReusesFreed(w: Win, slot: Slot, v: Option<Widget>, callerRefs: set<Widget>)
    ensures !SetSlot(w, slot, v, EverySlot, callerRefs).reusedFreed
  {
    if Accepts(slot, v) && Get(w.slots, slot) != v {
      var s := With(w.slots, slot, v);
      assert Held(s, EverySlot) == SlotWidgets(s);
    }
  }

  /** As written, a toolbar set on a window (the box holding the only
      reference) is finalized by the rebuild that setting the content
      triggers, and then packed again. */
  lemma ToolbarFreedBySetContent()
    ensures var toolbar, content := Widget(1, ToolbarKind), Widget(2, OtherKind);
            var w := SetSlot(Initial, ToolbarSlot, Some(toolbar), MenubarOnly, {}).win;
            SetSlot(w, ContentSlot, Some(content), MenubarOnly, {}).reusedFreed
  {
    var toolbar, content := Widget(1, ToolbarKind), Widget(2, OtherKind);
    var w := SetSlot(Initial, ToolbarSlot, Some(toolbar), MenubarOnly, {}).win;
    assert w.box == [Child(toolbar, PackStart, false)];
    assert toolbar in BoxWidgets(w.box);
    var s := With(w.slots, ContentSlot, Some(content));
    assert toolbar in SlotWidgets(s) && toolbar !in Held(s, MenubarOnly);
  }

  /** As written, the menubar is the one slot that survives rebuilds. */
  lemma MenubarNeverReusedFreed(w: Win, slot: Slot, v: Option<Widget>, callerRefs: set<Widget>)
    requires SlotWidgets(With(w.slots, slot, v)) == Held(With(w.slots, slot, v), MenubarOnly)
    ensures !SetSlot(w, slot, v, MenubarOnly, callerRefs).reusedFreed
  {
  }

  /** `GDK_WINDOW_STATE_MAXIMIZED`. */
  const Maximized: bv32 := 4

  /** A GLib signal handler id; GLib never hands out 0. */
  type HandlerId = x: nat | x > 0 witness 1

  /** The settings binding: the settings object, the three nullable keys
      and the two connected handlers. */
  datatype Binding = Binding(settings: nat, widthKey: Option<string>, heightKey: Option<string>,
                             maximizedKey: Option<string>, configureHandler: HandlerId, stateHandler: HandlerId)

  /** A write to the settings object. */
  datatype Write = SetInt(key: string, n: int32) | SetBoolean(key: string, b: bool)

  /** `mate_ui_window_configure_event`: nothing without a binding or while
      the window (when it has a GDK window) is maximized; otherwise the new
      width and height, each under its key if that key is bound. */
  function ConfigureEvent(binding: Option<Binding>, gdkState: Option<bv32>, width: int32, height: int32): (writes: seq<Write>)
    ensures binding.None? || (gdkState.Some? && gdkState.value & Maximized != 0) ==> writes == []
    ensures binding.Some? && !(gdkState.Some? && gdkState.value & Maximized != 0) ==>
              && |writes| == (if binding.value.widthKey.Some? then 1 else 0) + (if binding.value.heightKey.Some? then 1 else 0)
              && (binding.value.widthKey.Some? ==> SetInt(binding.value.widthKey.value, width) in writes)
              && (binding.value.heightKey.Some? ==> SetInt(binding.value.heightKey.value, height) in writes)
    ensures binding.Some? && binding.value.widthKey.Some? && writes != [] ==>
              writes[0] == SetInt(binding.value.widthKey.value, width)
    ensures binding.Some? && binding.value.heightKey.Some? && writes != [] ==>
              writes[|writes| - 1] == SetInt(binding.value.heightKey.value, height)
    ensures forall i :: 0 <= i < |writes| ==>
              || (binding.value.widthKey.Some? && writes[i] == SetInt(binding.value.widthKey.value, width))
              || (binding.value.heightKey.Some? && writes[i] == SetInt(binding.value.heightKey.value, height))
  {
    if binding.None? then []
    else if gdkState.Some? && gdkState.value & Maximized != 0 then []
    else
      (if binding.value.widthKey.Some? then [SetInt(binding.value.widthKey.value, width)] else [])
      + (if binding.value.heightKey.Some? then [SetInt(binding.value.heightKey.value, height)] else [])
  }

  /** `mate_ui_window_state_event`: with a settings object and a maximized
      key bound, a change that involves the maximized bit records whether
      the window is now maximized; anything else writes nothing. */
  function StateEvent(binding: Option<Binding>, changedMask: bv32, newState: bv32): (writes: seq<Write>)
    ensures |writes| <= 1
    ensures |writes| == 1 <==>
              binding.Some? && binding.value.maximizedKey.Some? && changedMask & Maximized != 0
    ensures |writes| == 1 ==>
              writes[0] == SetBoolean(binding.value.maximizedKey.value, newState & Maximized != 0)
  {
    if binding.None? || binding.value.maximizedKey.None? then []
    else if changedMask & Maximized != 0 then
      [SetBoolean(binding.value.maximizedKey.value, newState & Maximized != 0)]
    else []
  }

  /** The settings store: integer and boolean keys. */
  datatype Store = Store(ints: map<string, int32>, bools: map<string, bool>)

  /** The store after a list of writes, in order. */
  function Apply(st: Store, writes: seq<Write>): Store
    decreases |writes|
  {
    if writes == [] then st
    else
      var st' := match writes[0]
        case SetInt(k, n) => st.(ints := st.ints[k := n])
        case SetBoolean(k, b) => st.(bools := st.bools[k := b]);
      Apply(st', writes[1..])
  }

  /** A configure event while maximized leaves the stored size alone. */
  lemma MaximizedKeepsStoredSize(st: Store, binding: Option<Binding>, gdkState: bv32, width: int32, height: int32)
    requires gdkState & Maximized != 0
    ensures Apply(st, ConfigureEvent(binding, Some(gdkState), width, height)) == st
  {
  }

  /** The width is written before the height, so when both dimensions are
      bound to one key the height is what the store keeps. */
  lemma ConfigureSameKeyKeepsHeight(st: Store, b: Binding, width: int32, height: int32)
    requires b.widthKey.Some? && b.widthKey == b.heightKey
    ensures var k := b.widthKey.value;
            var st' := Apply(st, ConfigureEvent(Some(b), None, width, height));
            k in st'.ints && st'.ints[k] == height
  {
    var writes := ConfigureEvent(Some(b), None, width, height);
    var k := b.widthKey.value;
    assert writes == [SetInt(k, width), SetInt(k, height)];
    var st1 := st.(ints := st.ints[k := width]);
    var st2 := st1.(ints := st1.ints[k := height]);
    assert writes[1..] == [SetInt(k, height)];
    assert [SetInt(k, height)][1..] == [];
    assert Apply(st1, [SetInt(k, height)]) == Apply(st2, []) == st2;
    assert Apply(st, writes) == Apply(st1, writes[1..]);
  }

  /** A state event stores exactly whether the window is now maximized. */
  lemma StateEventRecordsMaximized(st: Store, binding: Binding, changedMask: bv32, newState: bv32)
    requires binding.maximizedKey.Some? && changedMask & Maximized != 0
    ensures var k := binding.maximizedKey.value;
            var st' := Apply(st, StateEvent(Some(binding), changedMask, newState));
            k in st'.bools && (st'.bools[k] <==> newState & Maximized != 0)
  {
  }

  /** `mate_ui_window_set_default_size_from_settings`: each stored
      dimension is used when positive and replaced by its own default
      otherwise. A NULL settings object or key is refused and nothing
      happens. With all three given, reading a key the schema lacks
      aborts, hence the precondition. */
  function DefaultSizeFromSettings(st: Option<Store>, widthKey: Option<string>, heightKey: Option<string>,
                                   defaultWidth: int32, defaultHeight: int32): (r: Option<(int32, int32)>)
    requires st.Some? && widthKey.Some? && heightKey.Some? ==>
               widthKey.value in st.value.ints && heightKey.value in st.value.ints
    ensures r.None? <==> st.None? || widthKey.None? || heightKey.None?
    ensures r.Some? ==> r.value.0 == (if st.value.ints[widthKey.value] <= 0 then defaultWidth
                                      else st.value.ints[widthKey.value])
    ensures r.Some? ==> r.value.1 == (if st.value.ints[heightKey.value] <= 0 then defaultHeight
                                      else st.value.ints[heightKey.value])
  {
    if st.None? || widthKey.None? || heightKey.None? then None
    else
      var width := st.value.ints[widthKey.value];
      var height := st.value.ints[heightKey.value];
      Some((if width <= 0 then defaultWidth else width, if height <= 0 then defaultHeight else height))
  }

  /** The two fallbacks are independent: the width depends only on the
      stored width and the default width, and the height likewise. */
  lemma DefaultSizeFallsBackPerDimension(st: Store, widthKey: string, heightKey: string, defaultWidth: int32,
                                         defaultHeight: int32, otherHeight: int32, otherDefaultHeight: int32)
    requires widthKey in st.ints && heightKey in st.ints && widthKey != heightKey
    ensures var a := DefaultSizeFromSettings(Some(st), Some(widthKey), Some(heightKey), defaultWidth, defaultHeight);
            var st' := st.(ints := st.ints[heightKey := otherHeight]);
            var b := DefaultSizeFromSettings(Some(st'), Some(widthKey), Some(heightKey), defaultWidth, otherDefaultHeight);
            a.value.0 == b.value.0
    ensures st.ints[widthKey] > 0 ==>
              DefaultSizeFromSettings(Some(st), Some(widthKey), Some(heightKey), defaultWidth, defaultHeight).value.0
              == st.ints[widthKey]
    ensures st.ints[widthKey] <= 0 ==>
              DefaultSizeFromSettings(Some(st), Some(widthKey), Some(heightKey), defaultWidth, defaultHeight).value.0
              == defaultWidth
  {
  }

  /** The geometry round trip: a window resized to a positive size while
      not maximized, under a binding with both keys, opens next time at
      that size. */
  lemma {:induction false} SizeRoundTrip(st: Store, binding: Binding, gdkState: Option<bv32>, width: int32, height: int32,
                                         defaultWidth: int32, defaultHeight: int32)
    requires binding.widthKey.Some? && binding.heightKey.Some? && binding.widthKey != binding.heightKey
    requires !(gdkState.Some? && gdkState.value & Maximized != 0)
    requires width > 0 && height > 0
    ensures var st' := Apply(st, ConfigureEvent(Some(binding), gdkState, width, height));
            binding.widthKey.value in st'.ints && binding.heightKey.value in st'.ints
            && DefaultSizeFromSettings(Some(st'), binding.widthKey, binding.heightKey, defaultWidth, defaultHeight)
               == Some((width, height))
  {
    var wk, hk := binding.widthKey.value, binding.heightKey.value;
    var writes := ConfigureEvent(Some(binding), gdkState, width, height);
    assert writes == [SetInt(wk, width), SetInt(hk, height)];
    var st1 := st.(ints := st.ints[wk := width]);
    var st2 := st1.(ints := st1.ints[hk := height]);
    assert Apply(st, writes) == Apply(st1, writes[1..]);
    assert Apply(st1, writes[1..]) == Apply(st2, []);
  }

  /** The persistence side of the window: its binding, if any, and the
      signal handlers connected on it. */
  datatype Persistence = Persistence(binding: Option<Binding>, connected: set<HandlerId>)

  /** Exactly the current binding's two handlers are connected. */
  predicate OneBinding(p: Persistence)
  {
    && (p.binding.None? ==> p.connected == {})
    && (p.binding.Some? ==>
          p.binding.value.configureHandler != p.binding.value.stateHandler
          && p.connected == {p.binding.value.configureHandler, p.binding.value.stateHandler})
  }

  /** `mate_ui_window_bind_settings`: a NULL settings object is refused;
      otherwise the previous binding's handlers are disconnected, and the
      new settings, keys and two freshly connected handlers replace it. */
  function BindSettings(p: Persistence, settings: Option<nat>, widthKey: Option<string>, heightKey: Option<string>,
                        maximizedKey: Option<string>, configureId: HandlerId, stateId: HandlerId)
    : (r: (Persistence, seq<HandlerId>))
    requires configureId != stateId && configureId !in p.connected && stateId !in p.connected
    ensures settings.None? ==> r == (p, [])
    ensures settings.Some? ==>
              && r.0.binding == Some(Binding(settings.value, widthKey, heightKey, maximizedKey, configureId, stateId))
              && configureId in r.0.connected && stateId in r.0.connected
    ensures settings.Some? && p.binding.Some? ==>
              r.1 == [p.binding.value.configureHandler, p.binding.value.stateHandler]
    ensures p.binding.None? ==> r.1 == []
  {
    if settings.None? then (p, [])
    else
      var disconnected := if p.binding.Some? then [p.binding.value.configureHandler, p.binding.value.stateHandler] else [];
      var gone := set h | h in disconnected;
      (Persistence(Some(Binding(settings.value, widthKey, heightKey, maximizedKey, configureId, stateId)),
                   p.connected - gone + {configureId, stateId}),
       disconnected)
  }

  /** Rebinding leaves exactly one binding active: every handler of the
      previous one is disconnected and only the new two remain. */
  lemma BindKeepsOneBinding(p: Persistence, settings: Option<nat>, widthKey: Option<string>, heightKey: Option<string>,
                            maximizedKey: Option<string>, configureId: HandlerId, stateId: HandlerId)
    requires OneBinding(p)
    requires configureId != stateId && configureId !in p.connected && stateId !in p.connected
    ensures var r := BindSettings(p, settings, widthKey, heightKey, maximizedKey, configureId, stateId);
            OneBinding(r.0) && (settings.Some? ==> (set h | h in r.1) == p.connected)
  {
  }
}
