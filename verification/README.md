# libmateui core, modelled in Dafny

This project models the core of libmateui, a helper library for MATE
desktop applications written in C on top of GTK 3 and GLib. It covers five
parts of the library:

- **Accelerator map** (`src/mate-ui-accel.c`, module `Accel`). A map from
  action name to accelerator string, with add, batch add, remove and lookup.
  It also has a text file format: load strips each line, skips blank and
  `#` lines, splits at the first `=` and keeps non-empty pairs; save writes a
  two-line header, a blank line, then one `action=accel` line per binding.
  The string helpers load relies on (`g_strstrip`, `g_strsplit`, C-string
  truncation) are in module `Text`.
- **Session integration** (`src/mate-ui-session.c`, modules `Session` and
  `Idle`):
  - inhibitors: the native GTK backend is tried first, with the
    session-manager bus as fallback;
  - the lazily connected bus proxy;
  - `is_inhibited`, `register`, `request_save`, and logout, shutdown and
    reboot;
  - the per-application restart command and save-callback slot;
  - the idle-time query with its once-a-second threshold check.
- **Menus** (`src/mate-ui-menu.c`, module `Menu`). Entry classification
  (separator, icon item or plain item), the GTK menu and menubar builders,
  the `GMenuModel` builder, and its underscore-stripping loop.
- **Time formatting and help URIs** (`src/mate-ui-util.c`, module `Util`):
  `format_time` ("5 sec", "2 min 5 sec", "1 hr 2 min 5 sec") and the
  `help:` URI built by `show_help`.
- **Window** (`src/mate-ui-window.c`, module `Window`):
  - the four optional slots (menubar, toolbar, content, statusbar) and the
    box layout rebuilt from them;
  - the slot setters;
  - the configure and window-state handlers that persist geometry;
  - `bind_settings` and `set_default_size_from_settings`.

Everything is modelled with immutable datatypes and pure functions. The one
exception is the underscore-stripping loop, which is a method with a loop
invariant. Module `Common` holds `Option`, which stands for a nullable
pointer (`None` is NULL), and the fixed-width integer types.

The outside world becomes parameters:

- Backend replies, bus connection success, the X11 idle time, the GLib
  source and handler ids, and the accelerator parser are inputs.
- Session operations return the list of backend calls they made.
- Window event handlers return the list of settings writes they made.

Properties are stated in three forms. Partner lemmas relate operations to
each other: save/load, format/parse, build-URI/parse-URI, inhibit/uninhibit,
and the GTK menu against the menu model. Invariants are shown to be kept:
valid session state, box consistent with slots, one active settings binding.
Scenario lemmas pin down concrete runs.

## Model

| member | source | states |
|---|---|---|
| `Accel.Add` | src/mate-ui-accel.c:59-69 | A NULL action or accelerator leaves the map unchanged. Otherwise the action is bound to the accelerator, replacing any old binding, and every other binding stays. |
| `Accel.Get` | src/mate-ui-accel.c:119-127 | Returns a value exactly when the action is non-NULL and bound, and that value is its accelerator. |
| `Accel.Remove` | src/mate-ui-accel.c:100-108 | Only the named action loses its binding; a NULL name changes nothing. |
| `Accel.AddEntries` | src/mate-ui-accel.c:79-91 | After a batch add the map's actions are the old ones plus exactly the actions of the entries with both fields non-NULL. |
| `Accel.AddEntriesLookup` | src/mate-ui-accel.c:79-91 | After a batch add, an action is bound to the accelerator of the last accepted entry that names it. Actions the batch does not name keep their old binding or stay absent. |
| `Accel.AddEntriesSnoc` | src/mate-ui-accel.c:87-90 | A batch is a sequence of single adds in array order: one more entry at the end is one more `Add`. |
| `Accel.RemoveThenAdd` | src/mate-ui-accel.c:100-108 | Removing a binding and adding it back gives the same map as adding it directly. |
| `Accel.LastBindingFrom` | src/mate-ui-accel.c:87-90 | The winning binding of a batch is the accelerator of one of the batch's accepted entries for that action. |
| `Accel.ParseLine` | src/mate-ui-accel.c:184-204 | A line yields a binding only with both sides non-empty. |
| `Accel.ParsePaddedLine` | src/mate-ui-accel.c:187-202 | A hand-written line with white space around it and around either side of its first `=` yields the two sides without the padding. A line with an empty side, such as " = b" or "a = ", yields nothing. |
| `Accel.VerticalTabKept` | src/mate-ui-accel.c:187-202 | `g_strstrip` does not treat vertical tab as white space, so a binding line ending in one keeps it in the accelerator. |
| `Accel.ParseLineSkips` | src/mate-ui-accel.c:187-194 | A line that is blank after stripping, starts with `#`, or has no `=` yields no binding. |
| `Accel.ParseLineSaveable` | src/mate-ui-accel.c:193-202 | A parsed pair has an unpadded, non-empty action without `=` and not starting with `#`, and an unpadded, non-empty accelerator. Both are made of characters of the line. |
| `Accel.ParseEntryLine` | src/mate-ui-accel.c:238 | The `key=value` line that save writes for a saveable binding parses back to exactly that binding. |
| `Accel.Load` | src/mate-ui-accel.c:168-209 | Loading merges into the map: its actions are the old ones plus exactly the actions the file's lines yield. |
| `Accel.LoadTwoBindings` | src/mate-ui-accel.c:182-205 | A file without header, holding two bindings with a comment line and a blank line between them, loads into an empty map as exactly those two bindings. |
| `Accel.LoadExample` | src/mate-ui-accel.c:182-205 | The file "app.quit=<Control>q\n# comment\n\napp.save=<Control>s\n" loads to exactly `app.quit` bound to `<Control>q` and `app.save` bound to `<Control>s`. |
| `Accel.LoadedIsSaveable` | src/mate-ui-accel.c:182-205 | Any file contents load into a map whose every binding can be saved and loaded again unchanged. |
| `Accel.Save` | src/mate-ui-accel.c:229-230 | The saved text starts with the fixed header. |
| `Accel.SplitSaved` | src/mate-ui-accel.c:229-239 | Split into lines, saved text is the two header lines, a blank line, then the body's lines. |
| `Accel.SaveLoadRoundTrip` | src/mate-ui-accel.c:221-245 | Loading the saved text of a saveable map into an empty map gives the map back, whatever order the hash table enumerates. |
| `Text.Strip` | src/mate-ui-accel.c:187 | The stripped line has no ASCII white space at either end and is no longer than the input. White space is `g_ascii_isspace`'s set: space, tab, newline, form feed and carriage return, but not vertical tab. |
| `Text.StripTrims` | src/mate-ui-accel.c:196-197 | The stripped string is the input with a prefix and a suffix of ASCII white space cut off. |
| `Text.StripPadded` | src/mate-ui-accel.c:187 | White space around a non-empty unpadded text is exactly what stripping removes. |
| `Text.StripIdempotent` | src/mate-ui-accel.c:196-197 | Stripping twice is stripping once. |
| `Text.CString` | src/mate-ui-accel.c:179-182 | The contents seen by `g_strsplit` are the file up to its first NUL: a NUL-free prefix followed by a NUL or the end; a file without NUL is seen whole. |
| `Text.Split` | src/mate-ui-accel.c:182 | Splitting at newlines yields no piece holding a newline, and yields nothing for the empty string. |
| `Text.JoinSplit` | src/mate-ui-accel.c:182 | Joining the pieces with newlines gives the contents back. |
| `Text.SplitOnce` | src/mate-ui-accel.c:193 | A split at the first `=` is found exactly when the line has one, and the line is the part before it, `=`, and the part after it. The first part has no `=`. |
| `Session.ConvertInhibitFlags` | src/mate-ui-session.c:65-80 | The wire flags are the four defined bits of the local flags and nothing else. |
| `Session.ConvertInhibitFlagsInjective` | src/mate-ui-session.c:65-80 | Two flag sets convert alike if and only if they agree on the defined bits. |
| `Session.NativeAndWireFlagsAgree` | src/mate-ui-session.c:107-116 | The GTK flags for the native backend and the wire flags for the bus name the same actions. |
| `Session.GetProxy` | src/mate-ui-session.c:38-62 | A proxy is available exactly when it was cached or the connection succeeds. A connection is attempted exactly when none is cached, and a failure leaves the cache unset. |
| `Session.FailedConnectIsRetried` | src/mate-ui-session.c:41-61 | Starting from no proxy, every request whose connection fails makes a new attempt. |
| `Session.ConnectStopsAtFirstSuccess` | src/mate-ui-session.c:41-61 | Starting from no proxy, the number of connection attempts equals the position of the first successful one. |
| `Session.Inhibit` | src/mate-ui-session.c:94-175 | A NULL reason yields nothing and calls nothing. Otherwise a handle is returned if and only if the native backend or the bus grants. A granted handle is fresh, keeps the flags and is the only new live one. Failure changes nothing but the proxy cache. The bus call carries the corrected application id (see Findings). |
| `Session.InhibitGrantRouting` | src/mate-ui-session.c:104-164 | A native grant holds the caller's application and its non-zero cookie, and the bus is not contacted. A bus grant follows a native refusal and holds the bus cookie after an `Inhibit` call with the corrected application id (see Findings), XID, reason and wire flags. |
| `Session.Uninhibit` | src/mate-ui-session.c:184-217 | A NULL handle does nothing. Otherwise the handle stops being live. A native grant is released with its own application and cookie. A bus grant sends `Uninhibit` with its cookie exactly when a proxy is available. |
| `Session.InhibitThenUninhibit` | src/mate-ui-session.c:94-217 | Releasing a granted handle restores the live set and goes to the granting backend with that backend's cookie. Afterwards the handle is no longer live. |
| `Session.InhibitPreservesValid` | src/mate-ui-session.c:101-124 | Inhibit keeps every live handle older than the next allocation, and a granted handle was not live before. |
| `Session.UninhibitPreservesValid` | src/mate-ui-session.c:184-217 | Uninhibit keeps the state valid. |
| `Session.IsInhibited` | src/mate-ui-session.c:228-258 | True exactly when a proxy is available and the daemon answers true. `IsInhibited` is sent with the wire flags exactly when a proxy is available. |
| `Session.Register` | src/mate-ui-session.c:270-307 | A NULL application is refused. Otherwise `RegisterClient` is sent with the resolved id and the client id (or "") exactly when a proxy is available, and the result is true exactly when it replies. |
| `Session.ResolveAppId` | src/mate-ui-session.c:279-281 | The application's id, or "mate-application" when it has none. |
| `Session.InhibitAppIdAsWritten` | src/mate-ui-session.c:131 | As written, the bus path uses the application's id unchecked when an application is given, and the default only without one. |
| `Session.InhibitAppIdAsWrittenCanBeNull` | src/mate-ui-session.c:131 | An application without an id yields NULL for the `s` argument of `Inhibit`. |
| `Session.InhibitAppId` | src/mate-ui-session.c:131 | The corrected id agrees with the as-written one whenever that is non-NULL, and with `register`'s resolution whenever an application is given. |
| `Session.InhibitAppIdIsAlwaysSent` | src/mate-ui-session.c:131 | With the correction, inhibit sends the same id as register, and sends the default exactly when the application has no id or has the default id. |
| `Session.RequestSave` | src/mate-ui-session.c:340-370 | A NULL application is refused. `RequestSave` is sent exactly when a proxy is available, and the result is true exactly when it replies. |
| `Session.FireAndForget` | src/mate-ui-session.c:381-401 | The method is sent exactly when a proxy is available, and only the proxy cache changes. |
| `Session.LogoutMode` | src/mate-ui-session.c:388 | Mode 0 if and only if the user is to be prompted, otherwise 1. |
| `Session.RequestLogout` | src/mate-ui-session.c:379-402 | `Logout` is sent exactly when a proxy is available, and every `Logout` sent carries the prompt's mode. |
| `Session.RequestShutdown` | src/mate-ui-session.c:411-434 | `Shutdown` is sent exactly when a proxy is available. |
| `Session.RequestReboot` | src/mate-ui-session.c:443-466 | `Reboot` is sent exactly when a proxy is available. |
| `Session.PromptOnlyAffectsLogout` | src/mate-ui-session.c:379-466 | Shutdown and reboot behave the same whatever the prompt flag; with a proxy, logout with and without prompt differ. |
| `Session.Release` | src/mate-ui-session.c:476-483 | Freeing a registration runs its destroy notify on its user data exactly when it has one. |
| `Session.SetSaveCallback` | src/mate-ui-session.c:495-510 | A NULL application is refused. Otherwise the registration replaces the slot and the previous registration is released. |
| `Session.SaveCallbackSingleSlot` | src/mate-ui-session.c:508-509 | Of two registrations in a row only the second is kept, and installing it releases the first. |
| `Session.SetRestartCommand` | src/mate-ui-session.c:317-329 | A NULL application or vector is refused. Otherwise the vector is stored and the save callback is untouched. |
| `Session.RestartAndSaveIndependent` | src/mate-ui-session.c:317-329 | `argc` has no effect, and setting the restart command and the save callback commute. |
| `Session.NativeInhibitExample` | src/mate-ui-session.c:104-124 | Suspend and idle for "org.mate.Demo" with the native backend granting give a native handle with the backend's cookie, wire flags 12, and one native call. |
| `Session.BusFallbackExample` | src/mate-ui-session.c:127-164 | The same request with the native backend refusing and the bus replying 42 gives a bus handle with cookie 42, after a connection and an `Inhibit` call. |
| `Idle.GetIdleTime` | src/mate-ui-session.c:519-546 | The idle time is the screen-saver's report when the query can be made, and 0 otherwise. |
| `Idle.IdleCheck` | src/mate-ui-session.c:558-571 | A tick fires exactly when the idle time has reached the threshold, and the source is always kept. |
| `Idle.RunTicks` | src/mate-ui-session.c:558-571 | Over a run of samples there is one tick per sample, and tick i fires exactly when sample i reaches the threshold. |
| `Idle.FiresOnEveryTickAboveThreshold` | src/mate-ui-session.c:564-570 | The check is level-triggered: consecutive samples over the threshold fire on consecutive ticks. |
| `Idle.ZeroThresholdAlwaysFires` | src/mate-ui-session.c:564-568 | A zero threshold fires on every tick. |
| `Idle.NoQueryFiresOnlyAtZero` | src/mate-ui-session.c:544-545 | Without a working screen-saver query, a watch fires on every tick if its threshold is 0 and never otherwise. |
| `Idle.ThresholdExample` | src/mate-ui-session.c:558-571 | A 5000 ms threshold over 1000, 3000, 6000 and 8000 ms fires on the third and fourth ticks only. |
| `Idle.SetIdleCallback` | src/mate-ui-session.c:594-616 | A NULL callback is refused with 0. Otherwise the returned id is the timer source's id, and the watch records the threshold, callback, user data and destroy notify. |
| `Idle.FreeWatch` | src/mate-ui-session.c:573-580 | Removing the source runs the destroy notify on the user data exactly when one was given. |
| `Idle.WatchFiresByItsThreshold` | src/mate-ui-session.c:595-616 | A registered watch fires by the threshold it was registered with, and a zero threshold fires on the first tick. |
| `Util.Decimal` | src/mate-ui-util.c:463 | `%u` printing gives at least one character, only digits, and no leading zero. |
| `Util.DecimalRoundTrip` | src/mate-ui-util.c:463 | Reading the printed digits back gives the number. |
| `Util.TimeFieldsSplit` | src/mate-ui-util.c:458-472 | The formatted time splits at spaces into its numbers and the unit words "hr", "min" and "sec". |
| `Util.FormatTime` | src/mate-ui-util.c:458-472 | The formatted text reads back as the duration under the canonical reading: "S sec", "M min S sec" or "H hr M min S sec", with a non-zero leading number in the minute and hour forms and minutes and seconds below 60. |
| `Util.DecimalOfParse` | src/mate-ui-util.c:462-470 | Every digit string without a leading zero is what `%u` prints for its value. |
| `Util.TimeFieldsOfParse` | src/mate-ui-util.c:461-471 | Fields in canonical form are exactly the fields the formatter prints for the duration they spell. |
| `Util.ParseTimeIsFormatted` | src/mate-ui-util.c:458-472 | Every text the canonical reading accepts, for a duration that fits a `guint`, is the formatted text of that duration. |
| `Util.FormatTimeRoundTrip` | src/mate-ui-util.c:458-472 | A text reads as a duration if and only if it is that duration's formatted text. So the tier, the bounds on minutes and seconds and the absence of leading zeros are all fixed by the format. |
| `Util.FormatTimeInjective` | src/mate-ui-util.c:458-472 | Different durations never format to the same text. |
| `Util.FormatTime59` | src/mate-ui-util.c:461-462 | 59 seconds format as "59 sec". |
| `Util.FormatTime60` | src/mate-ui-util.c:463-464 | 60 seconds format as "1 min 0 sec". |
| `Util.FormatTime3600` | src/mate-ui-util.c:465-471 | 3600 seconds format as "1 hr 0 min 0 sec". |
| `Util.HelpUri` | src/mate-ui-util.c:67-72 | A URI is built if and only if a document id is given. It is "help:" followed by the document id, then "/" and the section when a section is given, for any document id. |
| `Util.HelpUriRoundTrip` | src/mate-ui-util.c:67-71 | For a document id without `/`, the URI parses back to the document id and the optional link id. |
| `Util.ShowHelp` | src/mate-ui-util.c:59-80 | Without a document id the result is false. With one, the result is whether the URI was shown. |
| `Menu.Classify` | src/mate-ui-menu.c:133-161 | An entry is a separator if and only if both label and action are NULL. Otherwise it takes the icon path if and only if it names an icon. |
| `Menu.SeparatorIsSeparator` | src/mate-ui-menu.h:56 | The separator constant, and any entry without label and action whatever its icon and accelerator, is a separator. |
| `Menu.InstalledAccel` | src/mate-ui-menu.c:39-49 | An accelerator is installed if and only if there is an accelerator string and a group and the string parses to a non-zero key. |
| `Menu.ItemNewWithAction` | src/mate-ui-menu.c:27-52 | NULL exactly when the label or the action is NULL. Otherwise the item carries the label as mnemonic and the action, and gets an accelerator under the `InstalledAccel` rule. |
| `Menu.ItemNewWithIcon` | src/mate-ui-menu.c:64-103 | NULL exactly when the label or the action is NULL. Otherwise the item carries the label, the action and the icon when one is named. |
| `Menu.EntryItem` | src/mate-ui-menu.c:128-165 | An entry contributes an item exactly when it is a separator or has both label and action, and the item is a separator exactly for a separator entry. |
| `Menu.EntryItemContents` | src/mate-ui-menu.c:128-165 | An entry yields an item exactly when it is a separator or has both label and action. Its item is a separator exactly for a separator entry. Otherwise it carries label, action and icon, and the accelerator under the same rule on both paths. |
| `Menu.MenuNewFromEntries` | src/mate-ui-menu.c:115-168 | The menu has at most one item per entry. |
| `Menu.OneItemPerEntry` | src/mate-ui-menu.c:128-165 | With usable entries the menu has exactly one item per entry, in entry order. |
| `Menu.MalformedEntryDropped` | src/mate-ui-menu.c:157-163 | An entry with only one of label and action adds nothing and does not disturb its neighbours. |
| `Menu.MenuBarNewFromEntries` | src/mate-ui-menu.c:180-204 | The menubar has one item per submenu. |
| `Menu.MenuBarItems` | src/mate-ui-menu.c:189-201 | The i-th menubar item has the i-th submenu's label as mnemonic and the menu built from that submenu's entries. |
| `Menu.StripMnemonic` | src/mate-ui-menu.c:243-252 | The loop's output is the label with every `_` removed and every other character kept in order. |
| `Menu.WithoutUnderscoresAppend` | src/mate-ui-menu.c:246-251 | Stripping works character by character: the stripped concatenation is the concatenation of the stripped parts. |
| `Menu.WithoutUnderscoresCount` | src/mate-ui-menu.c:246-251 | The stripped label has no `_`, and its length is the label's length less its underscores. |
| `Menu.WithoutUnderscoresIdempotent` | src/mate-ui-menu.c:275-284 | Stripping twice is stripping once. |
| `Menu.ModelEntryItem` | src/mate-ui-menu.c:232-270 | A separator becomes an empty section. Any other entry becomes an item with the stripped label and the entry's action, icon and "accel" attribute, each present exactly when the entry has it. |
| `Menu.ModelItems` | src/mate-ui-menu.c:228-272 | The model submenu has one item per entry, in order, each the entry's model item. |
| `Menu.MenuModelNewFromEntries` | src/mate-ui-menu.c:215-292 | The model has one submenu per descriptor, in order, with the stripped label and that descriptor's items. |
| `Menu.MenuAndModelAgree` | src/mate-ui-menu.c:115-292 | For usable entries the GTK menu and the model match item by item. A separator faces an empty section. An item faces a model item with the same action and icon, whose label is the mnemonic without underscores. |
| `Window.Pack` | src/mate-ui-window.c:50-72 | Packing appends the widget as the box's last child, with its end and expand flag, or leaves the box as it is when the widget is NULL or already a child. |
| `Window.Layout` | src/mate-ui-window.c:49-72 | The rebuilt box holds exactly the slot widgets. Only the content can be a child that expands, and only the statusbar can be a child packed at the end. |
| `Window.Rebuild` | src/mate-ui-window.c:36-73 | After a rebuild the window holds the new slots and the box laid out from them. The rebuild re-packs a freed widget exactly when some slot widget was a child of the old box and is held neither by the window nor by the application. |
| `Window.LayoutHoldsSlots` | src/mate-ui-window.c:36-73 | After a rebuild the box holds exactly the widgets in the slots, each once. |
| `Window.LayoutOrder` | src/mate-ui-window.c:49-72 | With distinct widgets the box is menubar, toolbar and content (expanding) at the start in that order, then the statusbar at the end. Empty slots are skipped. |
| `Window.SharedWidgetPackedOnce` | src/mate-ui-window.c:56-72 | A widget set as both toolbar and statusbar is packed once, at the toolbar's place. |
| `Window.InitialConsistent` | src/mate-ui-window.c:125-145 | A new window has empty slots and an empty box, which agree. |
| `Window.Held` | src/mate-ui-window.c:230-236 | The widgets the window references are slot widgets, and always include the menubar. |
| `Window.SetSlot` | src/mate-ui-window.c:218-358 | A value the setter's type guard refuses, or the current value, leaves the window unchanged. Otherwise only that slot changes and the box is rebuilt to match. |
| `Window.SetSlotPreservesConsistent` | src/mate-ui-window.c:218-358 | Every setter keeps the box in step with the slots. |
| `Window.SetSlotIdempotent` | src/mate-ui-window.c:227-228 | Setting the same value a second time changes nothing. |
| `Window.ToolbarFreedBySetContent` | src/mate-ui-window.c:265-279 | As written, setting content after a toolbar re-packs the toolbar after the rebuild has finalized it. |
| `Window.EverySlotNeverReusesFreed` | src/mate-ui-window.c:230-236 | If every setter takes a reference as the menubar setter does, no rebuild re-packs a freed widget. |
| `Window.MenubarNeverReusedFreed` | src/mate-ui-window.c:227-238 | As written, a window whose only slot widget is its menubar never re-packs a freed widget. |
| `Window.ConfigureEvent` | src/mate-ui-window.c:75-102 | Without a binding, or while maximized, nothing is written. Otherwise exactly the new width and height are written, each under its key when that key is bound, the width first and the height last. |
| `Window.ConfigureSameKeyKeepsHeight` | src/mate-ui-window.c:95-99 | The width is written before the height, so when both dimensions share one key the store keeps the height. |
| `Window.MaximizedKeepsStoredSize` | src/mate-ui-window.c:86-93 | A configure event while maximized leaves the stored settings unchanged. |
| `Window.StateEvent` | src/mate-ui-window.c:104-122 | One write happens exactly when a maximized key is bound and the change involves the maximized bit, and it records whether the new state is maximized. |
| `Window.StateEventRecordsMaximized` | src/mate-ui-window.c:115-119 | After such an event the stored flag says whether the window is now maximized. |
| `Window.DefaultSizeFromSettings` | src/mate-ui-window.c:440-462 | Nothing happens without settings or keys. Otherwise the width is the stored width when positive and the default width otherwise, and the height likewise with the stored height and the default height. |
| `Window.DefaultSizeFallsBackPerDimension` | src/mate-ui-window.c:456-459 | The width depends only on the stored width and the default width, whatever the stored height and the default height. |
| `Window.SizeRoundTrip` | src/mate-ui-window.c:95-99 | After a non-maximized configure event with positive size and both keys bound, the default size read back is that size. |
| `Window.BindSettings` | src/mate-ui-window.c:387-427 | A NULL settings object is refused. Otherwise the new settings, keys and handlers replace the old binding, whose two handlers are disconnected. |
| `Window.BindKeepsOneBinding` | src/mate-ui-window.c:399-426 | After any bind, exactly the current binding's two handlers are connected, and the ones disconnected are exactly those connected before. |

## Left out

- File I/O in accelerator load and save. Load works on the file's contents and save returns them. A failed read returns FALSE before the map is touched, and a failed write is only reported; neither is modelled.
- The hash table's enumeration order in save. It is a parameter: any listing of the keys, each once.
- `apply_to_app`, the accelerator-group helpers, `mate_ui_accel_parse`, `to_string`, `label_set_accel` and `connect_to_widget`. These are thin calls into GTK.
- `gtk_accelerator_parse`. Its result is a function parameter of the menu builders.
- D-Bus marshalling, the synchronous call machinery and `g_warning` logging. Each bus reply is an input, and each operation returns the backend calls it made.
- The X11 toplevel-window id and the XScreenSaver query. The id is an input, and the idle query's outcome is an `IdleSource` value.
- The GLib one-second timer. One tick is one `IdleCheck`, a run of ticks is `RunTicks`, and the source id is an input. Calling the user's callback is shown only as the tick's `fired` flag.
- `g_return_if_fail` critical warnings. Each guard is modelled only by its effect: the call returns early.
- Widget visuals: show/hide, margins, alignment, the image-and-label box inside an icon item, and the headerbar and title in `mate_ui_window_new`. Also left out are `center_on_parent`, the slot getters (plain field reads of the model's state) and `finalize`.
- The configure and window-state handlers' return value. Both always return FALSE, so the event propagates.
- The GTK type checks. `GTK_IS_MENU_BAR` and `GTK_IS_TOOLBAR` are modelled by a widget kind, and subclasses are not modelled.
- Window reference counting, which is modelled only as the set of widgets the window or the application holds. A widget held twice is not distinguished from one held once.
- Strings are C strings without embedded NUL, seen as sequences of characters. UTF-8 encoding is not modelled; `_` is a single byte in UTF-8, so stripping it byte by byte or character by character agrees.
- Session.Uninhibit: requires the handle to be live. Releasing a handle twice frees it twice in the code, so a second release is excluded by the precondition rather than modelled as a no-op.
- Session.Inhibit: the code rejects only a NULL reason. An empty reason is passed on to the backends, and the model follows the code.
- Session.GetProxy: after a failed connection the cached proxy stays NULL, so the next request tries to connect again. The model follows the code and does not short-circuit later requests.
- Menu.MenuModelNewFromEntries: requires every non-separator entry to have a label. An entry with an action but no label makes the model builder read through a NULL copy of the label, which crashes.
- Menu.MenuModelNewFromEntries: a submenu's label is a string, not nullable. A NULL submenu label crashes the model builder the same way.
- Menu.MenuNewFromEntries: its own contract only bounds the item count. The exact item-per-entry correspondence is `Menu.OneItemPerEntry`, which requires usable entries, because an entry with only one of label and action adds nothing.
- Accel.Load: its own contract states which actions end up in the map, not their accelerators. The accelerators are stated by `Accel.AddEntriesLookup` for every parsed batch, by `Accel.ParsePaddedLine` for each hand-written line, by `Accel.LoadTwoBindings` and `Accel.LoadExample` for files without a header, and by `Accel.SaveLoadRoundTrip` for files that save wrote.
- Session.Inhibit: the bus call sends the corrected application id `Session.InhibitAppId`, which is "mate-application" for an application without an id. The code sends NULL there (first row of Findings); that as-written id is modelled by `Session.InhibitAppIdAsWritten`, and the rest of the model uses the correction.
- Window.DefaultSizeFromSettings: when the settings object and both keys are non-NULL, requires both keys to be in the settings store. That is the only path that reads them, and `g_settings_get_int` on a key the schema lacks aborts the program, which is not modelled. A call with a NULL settings object or key is modelled whatever the keys are.
- A concrete `is_inhibited` example. Its answer is whatever the daemon replies, which is an input here, so `Session.IsInhibited` states it for every reply.

## Findings

| source | as written | input that shows it | evidently intended | confidence | as-written member | corrected member |
|---|---|---|---|---|---|---|
| src/mate-ui-session.c:131 | The bus fallback of `inhibit` uses `g_application_get_application_id(app)` unchecked when an application is given. | An application without an application id, whose native inhibit is refused, while the session bus is available: a NULL string is passed for the `s` argument of `Inhibit`. | The default "mate-application", as `register` applies at lines 279-281. | not executed; high | `Session.InhibitAppIdAsWrittenCanBeNull` | `Session.InhibitAppIdIsAlwaysSent` |
| src/mate-ui-window.c:265-279 | `set_toolbar` stores the widget without taking a reference, and so do `set_content` (305-319) and `set_statusbar` (345-358). `rebuild_layout` first removes every child of the box, which drops the box's reference. | Set a newly created toolbar, keeping no reference of its own, then set the content. Removing the toolbar drops its last reference, and it is then packed again after being finalized. | Hold a reference to every slot widget, as `set_menubar` does at lines 230-236. | not executed; medium (assumes the application keeps no reference of its own) | `Window.ToolbarFreedBySetContent` | `Window.EverySlotNeverReusesFreed` |
