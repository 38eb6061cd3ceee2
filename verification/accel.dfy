/** The accelerator map of `src/mate-ui-accel.c`: a finite map from action
    name to accelerator string, its batch insertion, and its text file
    format (load parses, save serialises). File I/O is left out: load works
    on the file's contents and save produces them. */
module Accel {
  import opened Common
  import Text

  /** The hash table `action_name -> accel`. */
  type AccelMap = map<string, string>

  /** `MateUiAccelEntry`: either field may be NULL in a caller's array. */
  datatype AccelEntry = AccelEntry(actionName: Option<string>, accel: Option<string>)

  /** An entry that `mate_ui_accel_map_add` accepts (both fields non-NULL). */
  predicate Accepted(e: AccelEntry) {
    e.actionName.Some? && e.accel.Some?
  }

  /** `mate_ui_accel_map_add`: bind `action` to `accel`, overwriting any
      previous binding; a NULL argument fails the guard and leaves the map alone. */
  function Add(m: AccelMap, action: Option<string>, accel: Option<string>): (r: AccelMap)
    ensures action.None? || accel.None? ==> r == m
    ensures action.Some? && accel.Some? ==>
              && r.Keys == m.Keys + {action.value}
              && r[action.value] == accel.value
              && (forall k :: k in m && k != action.value ==> r[k] == m[k])
  {
    if action.Some? && accel.Some? then m[action.value := accel.value] else m
  }

  /** `mate_ui_accel_map_get`: the bound accelerator, or NULL. */
  function Get(m: AccelMap, action: Option<string>): (r: Option<string>)
    ensures r.Some? <==> action.Some? && action.value in m
    ensures r.Some? ==> r.value == m[action.value]
  {
    if action.Some? && action.value in m then Some(m[action.value]) else None
  }

  /** `mate_ui_accel_map_remove`: drop the binding, a no-op when absent or NULL. */
  function Remove(m: AccelMap, action: Option<string>): (r: AccelMap)
    ensures action.None? ==> r == m
    ensures action.Some? ==> r.Keys == m.Keys - {action.value}
    ensures forall k :: k in r ==> r[k] == m[k]
  {
    if action.Some? then m - {action.value} else m
  }

  /** `mate_ui_accel_map_add_entries`: `Add` applied to each entry in array order. */
  function AddEntries(m: AccelMap, entries: seq<AccelEntry>): (r: AccelMap)
    ensures r.Keys == m.Keys + AcceptedActions(entries)
    decreases |entries|
  {
    if entries == [] then m
    else
      AcceptedActionsCons(entries);
      AddEntries(Add(m, entries[0].actionName, entries[0].accel), entries[1..])
  }

  /** The actions of a batch's accepted entries. */
  function AcceptedActions(entries: seq<AccelEntry>): set<string>
  {
    set i | 0 <= i < |entries| && Accepted(entries[i]) :: entries[i].actionName.value
  }

  /** The accepted actions of a batch: those of its first entry and of the rest. */
  lemma AcceptedActionsCons(entries: seq<AccelEntry>)
    requires entries != []
    ensures AcceptedActions(entries)
            == (if Accepted(entries[0]) then {entries[0].actionName.value} else {}) + AcceptedActions(entries[1..])
  {
    var rest := entries[1..];
    forall k | k in AcceptedActions(rest)
      ensures k in AcceptedActions(entries)
    {
      var i :| 0 <= i < |rest| && Accepted(rest[i]) && rest[i].actionName.value == k;
      assert entries[i + 1] == rest[i];
    }
    forall k | k in AcceptedActions(entries)
      ensures k in (if Accepted(entries[0]) then {entries[0].actionName.value} else {}) + AcceptedActions(rest)
    {
      var i :| 0 <= i < |entries| && Accepted(entries[i]) && entries[i].actionName.value == k;
      if i > 0 {
        assert rest[i - 1] == entries[i];
      }
    }
  }

  /** Reference semantics of a batch: the accelerator of the LAST accepted
      entry for `action`, if any. */
  function LastBinding(entries: seq<AccelEntry>, action: string): Option<string>
  {
    if entries == [] then None
    else
      var e := entries[|entries| - 1];
      if Accepted(e) && e.actionName.value == action then e.accel
      else LastBinding(entries[..|entries| - 1], action)
  }

  /** The batch grows by one entry at the end: one more `Add` at the end. */
  lemma {:induction false} AddEntriesSnoc(m: AccelMap, entries: seq<AccelEntry>, e: AccelEntry)
    ensures AddEntries(m, entries + [e]) == Add(AddEntries(m, entries), e.actionName, e.accel)
    decreases |entries|
  {
    if entries == [] {
      assert [e][1..] == [];
    } else {
      assert (entries + [e])[1..] == entries[1..] + [e];
      AddEntriesSnoc(Add(m, entries[0].actionName, entries[0].accel), entries[1..], e);
    }
  }

  /** A batch agrees with its reference semantics: each action maps to its
      last accepted binding in the batch, and actions the batch never binds
      keep their previous value (or stay absent). So duplicates resolve to
      the last entry. */
  lemma {:induction false} AddEntriesLookup(m: AccelMap, entries: seq<AccelEntry>, action: string)
    ensures LastBinding(entries, action).Some? ==>
              action in AddEntries(m, entries)
              && AddEntries(m, entries)[action] == LastBinding(entries, action).value
    ensures LastBinding(entries, action).None? ==>
              (action in AddEntries(m, entries) <==> action in m)
              && (action in m ==> AddEntries(m, entries)[action] == m[action])
    decreases |entries|
  {
    if entries != [] {
      var init := entries[..|entries| - 1];
      var e := entries[|entries| - 1];
      assert entries == init + [e];
      AddEntriesSnoc(m, init, e);
      AddEntriesLookup(m, init, action);
    }
  }

  /** `Add` is one-entry `AddEntries`. */
  lemma AddIsSingletonBatch(m: AccelMap, e: AccelEntry)
    ensures AddEntries(m, [e]) == Add(m, e.actionName, e.accel)
  {
    assert [e][1..] == [];
  }

  /** Removing then adding the same action is the same as adding it. */
  lemma RemoveThenAdd(m: AccelMap, action: string, accel: string)
    ensures Add(Remove(m, Some(action)), Some(action), Some(accel)) == Add(m, Some(action), Some(accel))
  {
  }

  // ---------------------------------------------------------------------
  // Text format

  /** `mate_ui_accel_map_load`, one line: strip it; a blank line or one
      starting with `#` is skipped; otherwise split at the FIRST `=`, strip
      both sides, and yield the pair when neither side is empty. */
  function ParseLine(line: string): (r: Option<(string, string)>)
    ensures r.Some? ==> r.value.0 != [] && r.value.1 != []
  {
    ParseStripped(Text.Strip(line))
  }

  /** A stripped line: blank and comment lines are skipped, the rest split at the first `=`. */
  function ParseStripped(t: string): (r: Option<(string, string)>)
    ensures r.Some? ==> r.value.0 != [] && r.value.1 != []
  {
    if t == [] || t[0] == '#' then None
    else
      var (found, before, after) := Text.SplitOnce(t, '=');
      if !found then None else Binding(Text.Strip(before), Text.Strip(after))
  }

  /** Both stripped sides must be non-empty. */
  function Binding(action: string, accel: string): (r: Option<(string, string)>)
    ensures r.Some? <==> action != [] && accel != []
  {
    if action == [] || accel == [] then None else Some((action, accel))
  }

  /** A parsed pair is unpadded, its key holds no `=` and does not start
      with `#`, and neither side holds a character the line does not. */
  lemma ParseLineSaveable(line: string)
    requires ParseLine(line).Some?
    ensures SaveableKeyUpToLines(ParseLine(line).value.0)
    ensures SaveableValueUpToLines(ParseLine(line).value.1)
    ensures forall c :: c in ParseLine(line).value.0 ==> c in line
    ensures forall c :: c in ParseLine(line).value.1 ==> c in line
  {
    var t := Text.Strip(line);
    var (found, before, after) := Text.SplitOnce(t, '=');
    assert found && t == before + ['='] + after;
    var a := Text.Strip(before);
    var v := Text.Strip(after);
    assert ParseLine(line) == Some((a, v));
    assert before != [] && t[0] == before[0];
    assert Text.StripLeading(before) == before;
    Text.StripTrailingPrefix(before);
    Text.StripChars(line);
    Text.StripChars(before);
    Text.StripChars(after);
  }

  /** Blank lines, comment lines (also indented ones) and lines without `=`
      yield nothing. */
  lemma ParseLineSkips(line: string)
    requires var t := Text.Strip(line); t == [] || t[0] == '#' || '=' !in t
    ensures ParseLine(line).None?
  {
  }

  /** A hand-written line: white space may surround the whole line and
      either side of the first `=`. The pair is the two sides without that
      padding, and a line with an empty side yields nothing. */
  lemma ParsePaddedLine(p1: string, k: string, p2: string, p3: string, v: string, p4: string)
    requires Text.AllSpace(p1) && Text.AllSpace(p2) && Text.AllSpace(p3) && Text.AllSpace(p4)
    requires Text.NoEdgeSpace(k) && Text.NoEdgeSpace(v)
    requires '=' !in k && (k == [] || k[0] != '#')
    ensures ParseLine(p1 + k + p2 + "=" + p3 + v + p4) == (if k == [] || v == [] then None else Some((k, v)))
  {
    var kp := if k != [] then k + p2 else [];
    var pv := if v != [] then p3 + v else [];
    var a := p1 + (if k == [] then p2 else []);
    var b := (if v == [] then p3 else []) + p4;
    PaddedLineShape(p1, k, p2, p3, v, p4);
    SpaceConcat(p1, if k == [] then p2 else []);
    SpaceConcat(if v == [] then p3 else [], p4);
    SideEdges(k, p2, p3, v);
    StrippedSide(k, p2, true);
    StrippedSide(v, p3, false);
    ParseStrippedSides(kp, pv);
    ParseLinePadded(a, kp + ['='] + pv, b);
  }
  /** A trailing vertical tab is not white space to `g_strstrip`, so it
      stays part of the accelerator. */
  lemma VerticalTabKept(k: string, v: string)
    requires SaveableKey(k) && SaveableValue(v)
    ensures ParseLine(k + "=" + (v + "\U{B}")) == Some((k, v + "\U{B}"))
  {
    var e: string := [];
    var v' := v + "\U{B}";
    assert Text.NoEdgeSpace(v') by {
      assert v'[0] == v[0] && v'[|v'| - 1] == '\U{B}';
    }
    assert e + k + e + "=" + e + v' + e == k + "=" + v' by {
      assert e + k + e == k;
    }
    ParsePaddedLine(e, k, e, e, v', e);
  }


  /** The edges of the two sides of a hand-written line once the outer
      padding is gone. */
  lemma SideEdges(k: string, p2: string, p3: string, v: string)
    requires Text.AllSpace(p2) && Text.NoEdgeSpace(k) && Text.NoEdgeSpace(v) && '=' !in k
    ensures var kp := if k != [] then k + p2 else [];
            '=' !in kp && (kp == [] || kp[0] == k[0])
    ensures var pv := if v != [] then p3 + v else [];
            pv == [] || pv[|pv| - 1] == v[|v| - 1]
  {
    assert forall i :: 0 <= i < |p2| ==> p2[i] != '=';
  }

  /** White space around a non-blank line does not change how it parses. */
  lemma ParseLinePadded(a: string, t: string, b: string)
    requires Text.AllSpace(a) && Text.AllSpace(b) && t != [] && Text.NoEdgeSpace(t)
    ensures ParseLine(a + t + b) == ParseStripped(t)
  {
    Text.StripPadded(a, t, b);
  }

  /** Where the padding of a hand-written line goes: around the whole
      line, or next to the `=`. */
  lemma PaddedLineShape(p1: string, k: string, p2: string, p3: string, v: string, p4: string)
    ensures p1 + k + p2 + "=" + p3 + v + p4
            == (p1 + (if k == [] then p2 else []))
               + ((if k != [] then k + p2 else []) + ['='] + (if v != [] then p3 + v else []))
               + ((if v == [] then p3 else []) + p4)
  {
  }

  /** White space followed by white space. */
  lemma SpaceConcat(a: string, b: string)
    requires Text.AllSpace(a) && Text.AllSpace(b)
    ensures Text.AllSpace(a + b)
  {
    assert forall i :: 0 <= i < |a + b| ==> (a + b)[i] == (if i < |a| then a[i] else b[i - |a|]);
  }

  /** One side of the `=` with the white space next to the `=` strips to
      the side; an empty side contributes nothing. */
  lemma StrippedSide(x: string, pad: string, padAfter: bool)
    requires Text.AllSpace(pad) && Text.NoEdgeSpace(x)
    ensures Text.Strip(if x != [] then (if padAfter then x + pad else pad + x) else []) == x
  {
    if x != [] {
      if padAfter {
        Text.StripPadded([], x, pad);
        assert [] + x + pad == x + pad;
      } else {
        Text.StripPadded(pad, x, []);
        assert pad + x + [] == pad + x;
      }
    }
  }

  /** An unpadded line around its first `=` parses to its stripped sides. */
  lemma ParseStrippedSides(kp: string, pv: string)
    requires '=' !in kp && (kp == [] || kp[0] != '#')
    requires (kp == [] || !Text.IsAsciiSpace(kp[0])) && (pv == [] || !Text.IsAsciiSpace(pv[|pv| - 1]))
    ensures Text.NoEdgeSpace(kp + ['='] + pv)
    ensures ParseStripped(kp + ['='] + pv) == Binding(Text.Strip(kp), Text.Strip(pv))
  {
    EqualsLineEdges(kp, pv);
    Text.SplitOnceAt(kp, '=', pv);
    ParseStrippedAt(kp + ['='] + pv, kp, pv);
  }

  /** The first and last characters of `kp=pv`. */
  lemma EqualsLineEdges(kp: string, pv: string)
    ensures var t := kp + ['='] + pv;
            t[0] == (if kp != [] then kp[0] else '=') && t[|t| - 1] == (if pv != [] then pv[|pv| - 1] else '=')
  {
  }

  /** A line that is not a comment parses to the stripped sides of its first `=`. */
  lemma ParseStrippedAt(t: string, before: string, after: string)
    requires t != [] && t[0] != '#' && Text.SplitOnce(t, '=') == (true, before, after)
    ensures ParseStripped(t) == Binding(Text.Strip(before), Text.Strip(after))
  {
  }

  /** The accepted entries of a sequence of lines, in order. */
  function ParseLines(lines: seq<string>): (r: seq<AccelEntry>)
    ensures |r| <= |lines|
  {
    if lines == [] then []
    else
      var p := ParseLine(lines[0]);
      var rest := ParseLines(lines[1..]);
      if p.None? then rest else [AccelEntry(Some(p.value.0), Some(p.value.1))] + rest
  }

  /** The entries a file's contents yield. The contents are read as a C
      string (nothing after a NUL is seen) and split at every newline. */
  function Parse(contents: string): seq<AccelEntry>
  {
    ParseLines(Text.Split(Text.CString(contents), '\n'))
  }

  /** `mate_ui_accel_map_load` after the file is read: the parsed entries are
      merged into the existing map, in file order. */
  function Load(m: AccelMap, contents: string): (r: AccelMap)
    ensures r.Keys == m.Keys + AcceptedActions(Parse(contents))
  {
    AddEntries(m, Parse(contents))
  }

  /** What `Load` may yield as a key, apart from line and NUL freedom, which
      come from the splitting: non-empty, unpadded, no `=`, no leading `#`. */
  predicate SaveableKeyUpToLines(k: string) {
    k != [] && Text.NoEdgeSpace(k) && '=' !in k && k[0] != '#'
  }

  /** What `Load` may yield as a value, apart from line and NUL freedom. */
  predicate SaveableValueUpToLines(v: string) {
    v != [] && Text.NoEdgeSpace(v)
  }

  /** A key that survives a save/load cycle. */
  predicate SaveableKey(k: string) {
    SaveableKeyUpToLines(k) && '\n' !in k && '\0' !in k
  }

  /** A value that survives a save/load cycle. */
  predicate SaveableValue(v: string) {
    SaveableValueUpToLines(v) && '\n' !in v && '\0' !in v
  }

  /** A map every binding of which survives a save/load cycle. */
  predicate Saveable(m: AccelMap) {
    forall k :: k in m ==> SaveableKey(k) && SaveableValue(m[k])
  }

  /** `order` lists each key of `m` exactly once: a hash-table iteration order. */
  predicate IsListing(order: seq<string>, m: AccelMap) {
    && (forall i, j :: 0 <= i < j < |order| ==> order[i] != order[j])
    && (forall k :: k in m ==> k in order)
    && (forall i :: 0 <= i < |order| ==> order[i] in m)
  }

  const HeaderLine1: string := "# MATE UI Accelerator Map"
  const HeaderLine2: string := "# Format: action_name=accelerator"

  /** The fixed header: two comment lines and a blank line. */
  const Header: string := HeaderLine1 + "\n" + HeaderLine2 + "\n" + "\n"

  /** The `key=value\n` line of one binding. */
  function EntryLine(k: string, v: string): string {
    k + "=" + v + "\n"
  }

  /** The bindings of `m` listed in `order`, one line each. */
  function Body(m: AccelMap, order: seq<string>): string
    requires forall k :: k in order ==> k in m
  {
    if order == [] then [] else EntryLine(order[0], m[order[0]]) + Body(m, order[1..])
  }

  /** `mate_ui_accel_map_save` before the file is written: the header, then
      one line per binding in hash-table iteration order. */
  function Save(m: AccelMap, order: seq<string>): (r: string)
    requires IsListing(order, m)
    ensures Header <= r
  {
    Header + Body(m, order)
  }

  // ---------------------------------------------------------------------
  // Round trip

  /** One saved line parses back to its binding. */
  lemma ParseEntryLine(k: string, v: string)
    requires SaveableKeyUpToLines(k) && SaveableValueUpToLines(v)
    ensures ParseLine(k + "=" + v) == Some((k, v))
  {
    var line := k + ['='] + v;
    assert k + "=" + v == line;
    assert Text.NoEdgeSpace(line);
    Text.StripFixed(line);
    Text.SplitOnceAt(k, '=', v);
    Text.StripFixed(k);
    Text.StripFixed(v);
    assert ParseStripped(line) == Binding(k, v);
  }

  /** The bindings `order` lists, as the entries a file would yield. */
  function Listed(m: AccelMap, order: seq<string>): (r: seq<AccelEntry>)
    requires forall k :: k in order ==> k in m
  {
    if order == [] then [] else [AccelEntry(Some(order[0]), Some(m[order[0]]))] + Listed(m, order[1..])
  }

  /** The body lines parse back to the listed bindings (the final empty
      piece after the last newline is skipped). */
  lemma {:induction false} ParseBody(m: AccelMap, order: seq<string>)
    requires forall k :: k in order ==> k in m
    requires Saveable(m)
    ensures ParseLines(Text.Pieces(Body(m, order), '\n')) == Listed(m, order)
  {
    if order == [] {
      assert Text.Pieces([], '\n') == [[]];
    } else {
      var k := order[0];
      var line := k + "=" + m[k];
      assert Body(m, order) == line + ['\n'] + Body(m, order[1..]);
      Text.PiecesCons(line, '\n', Body(m, order[1..]));
      ParseEntryLine(k, m[k]);
      ParseBody(m, order[1..]);
    }
  }

  /** The bindings `order` lists, read from `m`. */
  function Restrict(m: AccelMap, order: seq<string>): AccelMap
    requires forall k :: k in order ==> k in m
  {
    map k | k in order :: m[k]
  }

  /** Reading back every key of a listing gives the whole map. */
  lemma RestrictListing(m: AccelMap, order: seq<string>)
    requires IsListing(order, m)
    ensures map[] + Restrict(m, order) == m
  {
    var r := Restrict(m, order);
    assert r.Keys == m.Keys;
    assert map[] + r == r;
  }

  /** Updating `acc` at the first listed key, then overriding with the rest
      of the listing, is overriding with the whole listing. */
  lemma UnionShift(acc: AccelMap, m: AccelMap, order: seq<string>)
    requires order != [] && forall k :: k in order ==> k in m
    ensures acc[order[0] := m[order[0]]] + Restrict(m, order[1..]) == acc + Restrict(m, order)
  {
    var l := acc[order[0] := m[order[0]]] + Restrict(m, order[1..]);
    var r := acc + Restrict(m, order);
    assert forall k :: k in order <==> k == order[0] || k in order[1..];
    assert l.Keys == r.Keys;
    forall k | k in l
      ensures l[k] == r[k]
    {
    }
  }

  /** Merging the listed bindings into `acc` overrides exactly the listed keys. */
  lemma {:induction false} AddListed(acc: AccelMap, m: AccelMap, order: seq<string>)
    requires forall k :: k in order ==> k in m
    ensures AddEntries(acc, Listed(m, order)) == acc + Restrict(m, order)
    decreases |order|
  {
    if order == [] {
      assert Restrict(m, order) == map[];
    } else {
      var k := order[0];
      var es := Listed(m, order);
      assert es[1..] == Listed(m, order[1..]);
      AddListed(acc[k := m[k]], m, order[1..]);
      UnionShift(acc, m, order);
    }
  }

  /** No NUL anywhere in the body. */
  lemma {:induction false} BodyHasNoNul(m: AccelMap, order: seq<string>)
    requires forall k :: k in order ==> k in m
    requires Saveable(m)
    ensures '\0' !in Body(m, order)
  {
    if order != [] {
      BodyHasNoNul(m, order[1..]);
    }
  }

  /** Two newline-free lines and a blank line split off the front of a text. */
  lemma {:induction false} SplitAfterTwoLines(h1: string, h2: string, body: string)
    requires '\n' !in h1 && '\n' !in h2
    ensures Text.Pieces(h1 + "\n" + h2 + "\n" + "\n" + body, '\n') == [h1, h2, []] + Text.Pieces(body, '\n')
  {
    var p := Text.Pieces(body, '\n');
    var r2 := [] + ['\n'] + body;
    var r1 := h2 + ['\n'] + r2;
    var text := h1 + ['\n'] + r1;
    assert h1 + "\n" + h2 + "\n" + "\n" + body == text;
    Text.PiecesCons([], '\n', body);
    Text.PiecesCons(h2, '\n', r2);
    Text.PiecesCons(h1, '\n', r1);
    assert Text.Pieces(text, '\n') == [h1] + ([h2] + ([[]] + p));
    Text.ConsThree(h1, h2, [], p);
  }

  /** The header lines hold no newline. */
  lemma HeaderLinesOneLine()
    ensures '\n' !in HeaderLine1 && '\n' !in HeaderLine2
  {
  }

  /** The lines of a saved file: the two header comments, the blank line,
      then the pieces of the body. */
  lemma SplitSaved(m: AccelMap, order: seq<string>)
    requires IsListing(order, m)
    ensures Text.Split(Save(m, order), '\n') == [HeaderLine1, HeaderLine2, []] + Text.Pieces(Body(m, order), '\n')
  {
    var body := Body(m, order);
    var text := Save(m, order);
    assert text == HeaderLine1 + "\n" + HeaderLine2 + "\n" + "\n" + body;
    HeaderLinesOneLine();
    SplitAfterTwoLines(HeaderLine1, HeaderLine2, body);
  }

  /** A line that yields nothing adds no entry. */
  lemma ParseLinesSkip(line: string, rest: seq<string>)
    requires ParseLine(line).None?
    ensures ParseLines([line] + rest) == ParseLines(rest)
  {
    assert ([line] + rest)[1..] == rest;
  }

  /** An unpadded line starting with `#` is a comment. */
  lemma CommentSkipped(line: string)
    requires line != [] && line[0] == '#' && Text.NoEdgeSpace(line)
    ensures ParseLine(line).None?
  {
    Text.StripFixed(line);
  }

  /** The header lines yield no entries. */
  lemma ParseHeader(rest: seq<string>)
    ensures ParseLines([HeaderLine1, HeaderLine2, []] + rest) == ParseLines(rest)
  {
    assert HeaderLine1[0] == '#' && HeaderLine1[|HeaderLine1| - 1] == 'p';
    assert HeaderLine2[0] == '#' && HeaderLine2[|HeaderLine2| - 1] == 'r';
    CommentSkipped(HeaderLine1);
    CommentSkipped(HeaderLine2);
    assert ParseLine([]).None?;
    ParseLinesSkip([], rest);
    ParseLinesSkip(HeaderLine2, [[]] + rest);
    ParseLinesSkip(HeaderLine1, [HeaderLine2] + ([[]] + rest));
    Text.ConsThree(HeaderLine1, HeaderLine2, [], rest);
  }

  /** Save then load into an empty map gives the map back, for every
      iteration order, provided every binding is saveable. */
  lemma SaveLoadRoundTrip(m: AccelMap, order: seq<string>)
    requires Saveable(m) && IsListing(order, m)
    ensures Load(map[], Save(m, order)) == m
  {
    var text := Save(m, order);
    BodyHasNoNul(m, order);
    assert '\0' !in text;
    SplitSaved(m, order);
    ParseHeader(Text.Pieces(Body(m, order), '\n'));
    ParseBody(m, order);
    assert Parse(text) == Listed(m, order);
    AddListed(map[], m, order);
    RestrictListing(m, order);
  }

  /** A hand-written file of two bindings with a comment line and a blank
      line between them loads to exactly those two bindings. */
  lemma LoadTwoBindings(k1: string, v1: string, c: string, k2: string, v2: string)
    requires SaveableKey(k1) && SaveableValue(v1) && SaveableKey(k2) && SaveableValue(v2)
    requires c != [] && c[0] == '#' && Text.NoEdgeSpace(c) && '\n' !in c && '\0' !in c
    ensures Load(map[], k1 + "=" + v1 + "\n" + c + "\n" + "\n" + k2 + "=" + v2 + "\n") == map[k1 := v1][k2 := v2]
  {
    var l1, l2 := k1 + "=" + v1, k2 + "=" + v2;
    var text := l1 + "\n" + c + "\n" + "\n" + l2 + "\n";
    assert k1 + "=" + v1 + "\n" + c + "\n" + "\n" + k2 + "=" + v2 + "\n" == text;
    assert '\0' !in text;
    assert '\n' !in l1 && '\n' !in l2;
    FiveLines(l1, c, l2);
    ParseTwoBindings(k1, v1, c, k2, v2);
    var e1, e2 := AccelEntry(Some(k1), Some(v1)), AccelEntry(Some(k2), Some(v2));
    assert Parse(text) == [e1, e2];
    AddEntriesSnoc(map[], [e1], e2);
    AddIsSingletonBatch(map[], e1);
    assert [e1] + [e2] == [e1, e2];
  }

  /** Three newline-free lines around a blank one, each ended by a newline. */
  lemma FiveLines(l1: string, c: string, l2: string)
    requires '\n' !in l1 && '\n' !in c && '\n' !in l2
    ensures Text.Split(l1 + "\n" + c + "\n" + "\n" + l2 + "\n", '\n') == [l1, c, [], l2, []]
  {
    var r3 := l2 + ['\n'] + [];
    var r2 := [] + ['\n'] + r3;
    var r1 := c + ['\n'] + r2;
    var text := l1 + ['\n'] + r1;
    assert l1 + "\n" + c + "\n" + "\n" + l2 + "\n" == text;
    Text.PiecesCons(l2, '\n', []);
    Text.PiecesCons([], '\n', r3);
    Text.PiecesCons(c, '\n', r2);
    Text.PiecesCons(l1, '\n', r1);
    var e: string := [];
    assert Text.Pieces(e, '\n') == [e] + [];
    assert Text.Pieces(text, '\n') == [l1] + ([c] + ([e] + ([l2] + ([e] + []))));
    Text.ConsFive(l1, c, e, l2, e);
  }

  /** The lines of such a file yield the two bindings, in order. */
  lemma ParseTwoBindings(k1: string, v1: string, c: string, k2: string, v2: string)
    requires SaveableKey(k1) && SaveableValue(v1) && SaveableKey(k2) && SaveableValue(v2)
    requires c != [] && c[0] == '#' && Text.NoEdgeSpace(c)
    ensures ParseLines([k1 + "=" + v1, c, [], k2 + "=" + v2, []])
            == [AccelEntry(Some(k1), Some(v1)), AccelEntry(Some(k2), Some(v2))]
  {
    ParseEntryLine(k1, v1);
    ParseEntryLine(k2, v2);
    CommentSkipped(c);
    ParseLineSkips([]);
    ParseKeepSkipSkipKeepSkip(k1 + "=" + v1, c, [], k2 + "=" + v2, []);
    Text.ConsFive(k1 + "=" + v1, c, [], k2 + "=" + v2, []);
  }

  /** Lines that yield, skip, skip, yield and skip give two entries. */
  lemma ParseKeepSkipSkipKeepSkip(a: string, b: string, c: string, d: string, e: string)
    requires ParseLine(a).Some? && ParseLine(b).None? && ParseLine(c).None?
    requires ParseLine(d).Some? && ParseLine(e).None?
    ensures ParseLines([a] + ([b] + ([c] + ([d] + ([e] + [])))))
            == [AccelEntry(Some(ParseLine(a).value.0), Some(ParseLine(a).value.1))]
               + [AccelEntry(Some(ParseLine(d).value.0), Some(ParseLine(d).value.1))]
  {
    ParseLinesSkip(e, []);
    ParseLinesKeep(d, [e] + []);
    ParseLinesSkip(c, [d] + ([e] + []));
    ParseLinesSkip(b, [c] + ([d] + ([e] + [])));
    ParseLinesKeep(a, [b] + ([c] + ([d] + ([e] + []))));
  }

  /** A line that yields a binding adds its entry in front. */
  lemma ParseLinesKeep(line: string, rest: seq<string>)
    requires ParseLine(line).Some?
    ensures ParseLines([line] + rest)
            == [AccelEntry(Some(ParseLine(line).value.0), Some(ParseLine(line).value.1))] + ParseLines(rest)
  {
    assert ([line] + rest)[1..] == rest;
  }

  /** The two bindings of the small example file below are saveable. */
  lemma ExampleSaveable()
    ensures SaveableKey("app.quit") && SaveableValue("<Control>q")
    ensures SaveableKey("app.save") && SaveableValue("<Control>s")
    ensures var c := "# comment"; c[0] == '#' && Text.NoEdgeSpace(c) && '\n' !in c && '\0' !in c
  {
  }

  /** A small file with two bindings separated by a comment line and a
      blank line, and no header:
      "app.quit=<Control>q\n# comment\n\napp.save=<Control>s\n".
      It loads to exactly its two bindings. */
  lemma LoadExample()
    ensures Load(map[], "app.quit" + "=" + "<Control>q" + "\n" + "# comment" + "\n" + "\n"
                        + "app.save" + "=" + "<Control>s" + "\n")
            == map["app.quit" := "<Control>q", "app.save" := "<Control>s"]
  {
    ExampleSaveable();
    LoadTwoBindings("app.quit", "<Control>q", "# comment", "app.save", "<Control>s");
  }

  /** Whatever `Load` adds to an empty map can be saved and loaded again. */
  lemma {:induction false} LoadedIsSaveable(contents: string)
    ensures Saveable(Load(map[], contents))
  {
    var text := Text.CString(contents);
    var lines := Text.Split(text, '\n');
    if text != [] {
      Text.PiecesLack(text, '\n', '\0');
    }
    LinesParseSaveable(lines);
    forall k | k in Load(map[], contents)
      ensures SaveableKey(k) && SaveableValue(Load(map[], contents)[k])
    {
      AddEntriesLookup(map[], Parse(contents), k);
      LastBindingFrom(Parse(contents), k);
      var i :| 0 <= i < |Parse(contents)| && Accepted(Parse(contents)[i])
               && Parse(contents)[i].actionName.value == k
               && Parse(contents)[i].accel == LastBinding(Parse(contents), k);
    }
  }

  /** A batch every entry of which is accepted and saveable. */
  predicate SaveableEntries(es: seq<AccelEntry>) {
    forall i :: 0 <= i < |es| ==> Accepted(es[i]) && SaveableKey(es[i].actionName.value) && SaveableValue(es[i].accel.value)
  }

  /** One more saveable entry in front keeps a batch saveable. */
  lemma SaveableCons(e: AccelEntry, rest: seq<AccelEntry>)
    requires SaveableEntries(rest)
    requires Accepted(e) && SaveableKey(e.actionName.value) && SaveableValue(e.accel.value)
    ensures SaveableEntries([e] + rest)
  {
    var es := [e] + rest;
    forall i | 0 <= i < |es|
      ensures Accepted(es[i]) && SaveableKey(es[i].actionName.value) && SaveableValue(es[i].accel.value)
    {
      if i > 0 {
        assert es[i] == rest[i - 1];
      }
    }
  }

  /** Every key and value parsed from newline- and NUL-free lines is saveable. */
  lemma {:induction false} LinesParseSaveable(lines: seq<string>)
    requires forall i :: 0 <= i < |lines| ==> '\n' !in lines[i] && '\0' !in lines[i]
    ensures SaveableEntries(ParseLines(lines))
  {
    if lines != [] {
      var rest := ParseLines(lines[1..]);
      LinesParseSaveable(lines[1..]);
      var p := ParseLine(lines[0]);
      if p.Some? {
        ParseLineSaveable(lines[0]);
        var e := AccelEntry(Some(p.value.0), Some(p.value.1));
        assert ParseLines(lines) == [e] + rest;
        SaveableCons(e, rest);
      } else {
        assert ParseLines(lines) == rest;
      }
    }
  }

  /** The last binding of a batch, when present, comes from one of its entries. */
  lemma {:induction false} LastBindingFrom(entries: seq<AccelEntry>, action: string)
    ensures LastBinding(entries, action).Some? ==>
              exists i :: 0 <= i < |entries| && Accepted(entries[i])
                          && entries[i].actionName.value == action
                          && entries[i].accel == LastBinding(entries, action)
  {
    if entries != [] {
      LastBindingFrom(entries[..|entries| - 1], action);
    }
  }
}
