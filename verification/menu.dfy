/** Menu construction of `src/mate-ui-menu.c`: entries are classified as
    separators, icon items or plain items and turned into GTK menu items;
    submenus become a menubar; the same descriptions also become a
    `GMenuModel` whose labels lose their mnemonic underscores.

    Widgets are modelled by what the builders put into them. Parsing an
    accelerator string (`gtk_accelerator_parse`) is outside the model and
    comes in as a function. */
module Menu {
  import opened Common

  /** `MateUiMenuEntry`: every field may be NULL. */
  datatype MenuEntry = MenuEntry(text: Option<string>, actionName: Option<string>,
                                 accel: Option<string>, iconName: Option<string>)

  /** `MATE_UI_MENU_SEPARATOR`. */
  const Separator: MenuEntry := MenuEntry(None, None, None, None)

  /** `MateUiSubmenu`: a mnemonic label and its entries. */
  datatype Submenu = Submenu(text: string, entries: seq<MenuEntry>)

  /** The three ways `mate_ui_menu_new_from_entries` treats an entry. */
  datatype EntryKind = SeparatorEntry | IconEntry | PlainEntry

  /** A separator has neither label nor action; otherwise the icon name
      picks the path. Accelerator and icon do not make a separator. */
  function Classify(e: MenuEntry): (k: EntryKind)
    ensures k == SeparatorEntry <==> e.text.None? && e.actionName.None?
    ensures k == IconEntry <==> !(e.text.None? && e.actionName.None?) && e.iconName.Some?
  {
    if e.text.None? && e.actionName.None? then SeparatorEntry
    else if e.iconName.Some? then IconEntry
    else PlainEntry
  }

  /** The separator constant is classified as a separator. */
  lemma SeparatorIsSeparator(accel: Option<string>, iconName: Option<string>)
    ensures Classify(Separator) == SeparatorEntry
    ensures Classify(MenuEntry(None, None, accel, iconName)) == SeparatorEntry
  {
  }

  /** The key and modifiers `gtk_accelerator_parse` reports; key 0 means
      the string did not parse. */
  datatype KeyCombo = KeyCombo(key: nat, mods: nat)

  /** A menu item as the builders leave it: a separator, or an item with
      a mnemonic text, an action, possibly an icon and possibly an
      accelerator installed in the group. */
  datatype MenuItem =
    | SeparatorItem
    | ActionItem(mnemonic: string, action: string, icon: Option<string>, accel: Option<KeyCombo>)

  /** The accelerator an item gets: only with an accelerator string and a
      group, and only when the string parses to a non-zero key. */
  function InstalledAccel(accel: Option<string>, hasGroup: bool, parse: string -> KeyCombo): (r: Option<KeyCombo>)
    ensures r.Some? <==> accel.Some? && hasGroup && parse(accel.value).key != 0
    ensures r.Some? ==> r.value == parse(accel.value)
  {
    if accel.Some? && hasGroup && parse(accel.value).key != 0 then Some(parse(accel.value)) else None
  }

  /** `mate_ui_menu_item_new_with_action`: NULL for a missing label or
      action, otherwise a mnemonic item bound to the action. */
  function ItemNewWithAction(text: Option<string>, actionName: Option<string>, hasGroup: bool,
                             accel: Option<string>, parse: string -> KeyCombo): (r: Option<MenuItem>)
    ensures r.None? <==> text.None? || actionName.None?
    ensures r.Some? ==> r.value.ActionItem? && r.value.mnemonic == text.value
                        && r.value.action == actionName.value && r.value.icon.None?
    ensures r.Some? ==> r.value.accel == InstalledAccel(accel, hasGroup, parse)
  {
    if text.None? || actionName.None? then None
    else Some(ActionItem(text.value, actionName.value, None, InstalledAccel(accel, hasGroup, parse)))
  }

  /** `mate_ui_menu_item_new_with_icon`: NULL for a missing label or
      action, otherwise an item with the icon (when named) before the
      mnemonic text, bound to the action, without accelerator. */
  function ItemNewWithIcon(text: Option<string>, iconName: Option<string>, actionName: Option<string>): (r: Option<MenuItem>)
    ensures r.None? <==> text.None? || actionName.None?
    ensures r.Some? ==> r.value == ActionItem(text.value, actionName.value, iconName, None)
  {
    if text.None? || actionName.None? then None
    else Some(ActionItem(text.value, actionName.value, iconName, None))
  }

  /** The item one entry contributes to a GTK menu. An entry with only one
      of label and action yields no widget, and appending NULL to a menu
      shell is refused, so it contributes nothing. */
  function EntryItem(e: MenuEntry, hasGroup: bool, parse: string -> KeyCombo): (r: Option<MenuItem>)
    ensures r.Some? <==> WellFormed(e)
    ensures r == Some(SeparatorItem) <==> Classify(e) == SeparatorEntry
  {
    match Classify(e)
    case SeparatorEntry => Some(SeparatorItem)
    case IconEntry =>
      var item := ItemNewWithIcon(e.text, e.iconName, e.actionName);
      if item.None? then None
      else Some(item.value.(accel := InstalledAccel(e.accel, hasGroup, parse)))
    case PlainEntry => ItemNewWithAction(e.text, e.actionName, hasGroup, e.accel, parse)
  }

  /** An entry is usable when it is a separator or has both label and action. */
  predicate WellFormed(e: MenuEntry)
  {
    (e.text.None? && e.actionName.None?) || (e.text.Some? && e.actionName.Some?)
  }

  /** What an entry's item is, whichever path built it: a separator
      exactly for a separator entry; otherwise its text, action and icon
      name, and an accelerator under the same rule on both paths. */
  lemma EntryItemContents(e: MenuEntry, hasGroup: bool, parse: string -> KeyCombo)
    ensures EntryItem(e, hasGroup, parse).Some? <==> WellFormed(e)
    ensures EntryItem(e, hasGroup, parse) == Some(SeparatorItem) <==> Classify(e) == SeparatorEntry
    ensures WellFormed(e) && Classify(e) != SeparatorEntry ==>
              EntryItem(e, hasGroup, parse)
              == Some(ActionItem(e.text.value, e.actionName.value, e.iconName, InstalledAccel(e.accel, hasGroup, parse)))
  {
  }

  /** `mate_ui_menu_new_from_entries`: the items of the entries, appended
      in entry order. */
  function MenuNewFromEntries(entries: seq<MenuEntry>, hasGroup: bool, parse: string -> KeyCombo): (items: seq<MenuItem>)
    ensures |items| <= |entries|
    decreases |entries|
  {
    if entries == [] then []
    else
      var rest := MenuNewFromEntries(entries[1..], hasGroup, parse);
      match EntryItem(entries[0], hasGroup, parse)
      case Some(item) => [item] + rest
      case None => rest
  }

  /** With usable entries the menu has exactly one item per entry, the
      i-th item being the i-th entry's. */
  lemma {:induction false} OneItemPerEntry(entries: seq<MenuEntry>, hasGroup: bool, parse: string -> KeyCombo)
    requires forall i :: 0 <= i < |entries| ==> WellFormed(entries[i])
    ensures |MenuNewFromEntries(entries, hasGroup, parse)| == |entries|
    ensures forall i :: 0 <= i < |entries| ==>
              Some(MenuNewFromEntries(entries, hasGroup, parse)[i]) == EntryItem(entries[i], hasGroup, parse)
    decreases |entries|
  {
    if entries != [] {
      EntryItemContents(entries[0], hasGroup, parse);
      assert forall i :: 0 <= i < |entries[1..]| ==> WellFormed(entries[1..][i]) by {
        forall i | 0 <= i < |entries[1..]| ensures WellFormed(entries[1..][i]) {
          assert entries[1..][i] == entries[i + 1];
        }
      }
      OneItemPerEntry(entries[1..], hasGroup, parse);
    }
  }

  /** An entry with only one of label and action is dropped; the items of
      the entries around it are unaffected. */
  lemma MalformedEntryDropped(before: seq<MenuEntry>, e: MenuEntry, after: seq<MenuEntry>,
                              hasGroup: bool, parse: string -> KeyCombo)
    requires !WellFormed(e)
    ensures MenuNewFromEntries(before + [e] + after, hasGroup, parse)
            == MenuNewFromEntries(before + after, hasGroup, parse)
    decreases |before|
  {
    EntryItemContents(e, hasGroup, parse);
    if before == [] {
      assert before + [e] + after == [e] + after;
      assert before + after == after;
      assert ([e] + after)[1..] == after;
    } else {
      assert (before + [e] + after)[1..] == before[1..] + [e] + after;
      assert (before + after)[1..] == before[1..] + after;
      MalformedEntryDropped(before[1..], e, after, hasGroup, parse);
    }
  }

  /** A menubar entry: the mnemonic label and its dropdown menu. */
  datatype BarItem = BarItem(mnemonic: string, menu: seq<MenuItem>)

  /** `mate_ui_menu_bar_new_from_entries`: one item per submenu, in order,
      each holding the menu built from the submenu's entries. */
  function MenuBarNewFromEntries(submenus: seq<Submenu>, hasGroup: bool, parse: string -> KeyCombo): (bar: seq<BarItem>)
    ensures |bar| == |submenus|
    decreases |submenus|
  {
    if submenus == [] then []
    else
      [BarItem(submenus[0].text, MenuNewFromEntries(submenus[0].entries, hasGroup, parse))]
      + MenuBarNewFromEntries(submenus[1..], hasGroup, parse)
  }

  /** The i-th bar item is built from the i-th submenu alone. */
  lemma {:induction false} MenuBarItems(submenus: seq<Submenu>, hasGroup: bool, parse: string -> KeyCombo, i: nat)
    requires i < |submenus|
    ensures MenuBarNewFromEntries(submenus, hasGroup, parse)[i]
            == BarItem(submenus[i].text, MenuNewFromEntries(submenus[i].entries, hasGroup, parse))
    decreases i
  {
    if i > 0 {
      MenuBarItems(submenus[1..], hasGroup, parse, i - 1);
    }
  }

  /** The number of times `c` occurs in `s`. */
  function Occurrences(s: string, c: char): nat
    decreases |s|
  {
    if s == [] then 0
    else Occurrences(s[..|s| - 1], c) + (if s[|s| - 1] == c then 1 else 0)
  }

  /** `s` with every '_' deleted and every other character kept in order. */
  function WithoutUnderscores(s: string): string
    decreases |s|
  {
    if s == [] then []
    else WithoutUnderscores(s[..|s| - 1]) + (if s[|s| - 1] == '_' then [] else [s[|s| - 1]])
  }

  /** The mnemonic-stripping loop of `mate_ui_menu_model_new_from_entries`,
      copying every character other than '_' forward. */
  method StripMnemonic(text: string) returns (r: string)
    ensures r == WithoutUnderscores(text)
  {
    r := [];
    var p := 0;
    while p < |text|
      invariant 0 <= p <= |text|
      invariant r == WithoutUnderscores(text[..p])
    {
      assert text[..p + 1][..p] == text[..p];
      if text[p] != '_' {
        r := r + [text[p]];
      }
      p := p + 1;
    }
    assert text[..|text|] == text;
  }

  /** Stripping distributes over concatenation. */
  lemma {:induction false} WithoutUnderscoresAppend(a: string, b: string)
    ensures WithoutUnderscores(a + b) == WithoutUnderscores(a) + WithoutUnderscores(b)
    decreases |b|
  {
    if b != [] {
      var b' := b[..|b| - 1];
      assert (a + b)[..|a + b| - 1] == a + b';
      WithoutUnderscoresAppend(a, b');
    } else {
      assert a + b == a;
    }
  }

  /** Only underscores go: the result has none, and its length is the
      input's less the underscores. */
  lemma {:induction false} WithoutUnderscoresCount(s: string)
    ensures '_' !in WithoutUnderscores(s)
    ensures |WithoutUnderscores(s)| == |s| - Occurrences(s, '_')
    decreases |s|
  {
    if s != [] {
      WithoutUnderscoresCount(s[..|s| - 1]);
    }
  }

  /** A string without '_' is left alone, so stripping is idempotent. */
  lemma {:induction false} WithoutUnderscoresFixed(s: string)
    requires '_' !in s
    ensures WithoutUnderscores(s) == s
    decreases |s|
  {
    if s != [] {
      WithoutUnderscoresFixed(s[..|s| - 1]);
      assert s == s[..|s| - 1] + [s[|s| - 1]];
    }
  }

  lemma WithoutUnderscoresIdempotent(s: string)
    ensures WithoutUnderscores(WithoutUnderscores(s)) == WithoutUnderscores(s)
  {
    WithoutUnderscoresCount(s);
    WithoutUnderscoresFixed(WithoutUnderscores(s));
  }

  /** An item of a `GMenu`: an empty section standing for a separator, or
      a labelled item with an optional action, icon and "accel" attribute. */
  datatype ModelItem =
    | EmptySection
    | Item(text: string, action: Option<string>, icon: Option<string>, accelAttribute: Option<string>)

  /** A submenu of the model. */
  datatype ModelSubmenu = ModelSubmenu(text: string, items: seq<ModelItem>)

  /** The menu-model builder copies the label of every non-separator entry
      through `g_strdup` and then reads it, so a missing label with an
      action present would be a NULL dereference. */
  predicate ModelSafe(e: MenuEntry)
  {
    e.text.Some? || e.actionName.None?
  }

  /** The model item of one entry. */
  function ModelEntryItem(e: MenuEntry): (r: ModelItem)
    requires ModelSafe(e)
    ensures r.EmptySection? <==> Classify(e) == SeparatorEntry
    ensures r.Item? ==> r.text == WithoutUnderscores(e.text.value) && r.action == e.actionName
                        && r.icon == e.iconName && r.accelAttribute == e.accel
  {
    if e.text.None? && e.actionName.None? then EmptySection
    else Item(WithoutUnderscores(e.text.value), e.actionName, e.iconName, e.accel)
  }

  /** The items of one submenu of the model, one per entry. */
  function ModelItems(entries: seq<MenuEntry>): (items: seq<ModelItem>)
    requires forall i :: 0 <= i < |entries| ==> ModelSafe(entries[i])
    ensures |items| == |entries|
    ensures forall i :: 0 <= i < |entries| ==> items[i] == ModelEntryItem(entries[i])
    decreases |entries|
  {
    if entries == [] then []
    else [ModelEntryItem(entries[0])] + ModelItems(entries[1..])
  }

  /** `mate_ui_menu_model_new_from_entries`: one submenu per descriptor, in
      order, under its label without underscores. */
  function MenuModelNewFromEntries(submenus: seq<Submenu>): (model: seq<ModelSubmenu>)
    requires forall i, j :: 0 <= i < |submenus| && 0 <= j < |submenus[i].entries| ==> ModelSafe(submenus[i].entries[j])
    ensures |model| == |submenus|
    ensures forall i :: 0 <= i < |submenus| ==>
              model[i] == ModelSubmenu(WithoutUnderscores(submenus[i].text), ModelItems(submenus[i].entries))
    decreases |submenus|
  {
    if submenus == [] then []
    else
      [ModelSubmenu(WithoutUnderscores(submenus[0].text), ModelItems(submenus[0].entries))]
      + MenuModelNewFromEntries(submenus[1..])
  }

  /** For usable entries the GTK menu and the menu model agree item by
      item: a separator faces an empty section, and an item faces a model
      item with the same action, the same icon, and the label with its
      underscores removed. */
  lemma MenuAndModelAgree(entries: seq<MenuEntry>, hasGroup: bool, parse: string -> KeyCombo)
    requires forall i :: 0 <= i < |entries| ==> WellFormed(entries[i])
    ensures forall i :: 0 <= i < |entries| ==> ModelSafe(entries[i])
    ensures var menu, model := MenuNewFromEntries(entries, hasGroup, parse), ModelItems(entries);
            && |menu| == |model|
            && forall i :: 0 <= i < |menu| ==>
                 (menu[i].SeparatorItem? <==> model[i].EmptySection?)
                 && (menu[i].ActionItem? ==>
                       && model[i].text == WithoutUnderscores(menu[i].mnemonic)
                       && model[i].action == Some(menu[i].action)
                       && model[i].icon == menu[i].icon)
  {
    OneItemPerEntry(entries, hasGroup, parse);
    forall i | 0 <= i < |entries|
      ensures EntryItem(entries[i], hasGroup, parse) == Some(SeparatorItem) <==> Classify(entries[i]) == SeparatorEntry
    {
      EntryItemContents(entries[i], hasGroup, parse);
    }
  }
}
