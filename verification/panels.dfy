/** The side panels that list the loose and committed annotations of the
    active image and edit them: `TextSettings` (text.settings.tsx) and
    `DotSettings` (dot.settings.tsx). A panel lists the store's own elements
    first, then those of the visible layers with an undefined `visible`
    read as shown. Edits go to the selected element when the list has one,
    otherwise to the settings new elements are created with. The 150 ms
    throttle before an element update is not modelled: an edit here is the
    update the timer eventually performs. */
module Panels {
  import opened Wrappers
  import opened Elements
  import opened Layers
  import Collections
  import Compositing

  // ---------------------------------------------------------------------
  // The listed elements

  /** `visible: text.visible !== undefined ? text.visible : true`. */
  function ListedText(t: Text): Text {
    t.(visible := Some(t.visible.GetOr(true)))
  }

  function ListedDot(d: Dot): Dot {
    d.(visible := Some(d.visible.GetOr(true)))
  }

  function ListedTexts(ts: seq<Text>): (r: seq<Text>)
    ensures |r| == |ts|
    ensures forall i :: 0 <= i < |ts| ==> r[i] == ListedText(ts[i])
  {
    if |ts| == 0 then [] else [ListedText(ts[0])] + ListedTexts(ts[1..])
  }

  function ListedDots(ds: seq<Dot>): (r: seq<Dot>)
    ensures |r| == |ds|
    ensures forall i :: 0 <= i < |ds| ==> r[i] == ListedDot(ds[i])
  {
    if |ds| == 0 then [] else [ListedDot(ds[0])] + ListedDots(ds[1..])
  }

  /** `allTexts`: the store's texts, then the texts of the visible layers. */
  function AllTexts(store: Store<Text>, h: seq<Layer>): (r: seq<Text>)
    ensures |r| >= |store.items| && r[..|store.items|] == store.items
    ensures forall i :: |store.items| <= i < |r| ==> r[i].visible.Some?
  {
    store.items + ListedTexts(Compositing.VisibleTexts(h))
  }

  /** `allDots`: the loose dots, then the standalone dots of the visible
      layers. */
  function AllDots(store: Store<Dot>, h: seq<Layer>): (r: seq<Dot>)
    ensures |r| >= |store.items| && r[..|store.items|] == store.items
    ensures forall i :: |store.items| <= i < |r| ==> r[i].visible.Some?
  {
    store.items + ListedDots(Compositing.VisibleStandaloneDots(h))
  }

  /** The rows of the panel: every loose element as it is, and every element
      of a visible layer, in history order, with a defined visibility; a
      hidden layer contributes no row. */
  lemma AllTextsRows(store: Store<Text>, h: seq<Layer>)
    ensures var all := AllTexts(store, h);
            && all[..|store.items|] == store.items
            && (forall t :: t in all[|store.items|..] <==>
                  exists k, i :: 0 <= k < |h| && h[k].visible && 0 <= i < |h[k].texts|
                    && t == ListedText(h[k].texts[i]))
            && (forall i :: |store.items| <= i < |all| ==> all[i].visible.Some?)
  {
    var all := AllTexts(store, h);
    var vis := Compositing.VisibleTexts(h);
    assert all[|store.items|..] == ListedTexts(vis);
    forall t | t in ListedTexts(vis)
      ensures exists k, i :: 0 <= k < |h| && h[k].visible && 0 <= i < |h[k].texts|
                && t == ListedText(h[k].texts[i])
    {
      var j :| 0 <= j < |vis| && ListedTexts(vis)[j] == t;
      assert vis[j] in vis;
      var k :| 0 <= k < |h| && h[k].visible && vis[j] in h[k].texts;
      var i :| 0 <= i < |h[k].texts| && h[k].texts[i] == vis[j];
    }
    forall k, i | 0 <= k < |h| && h[k].visible && 0 <= i < |h[k].texts|
      ensures ListedText(h[k].texts[i]) in ListedTexts(vis)
    {
      assert h[k].texts[i] in h[k].texts;
      assert h[k].texts[i] in vis;
      var j :| 0 <= j < |vis| && vis[j] == h[k].texts[i];
      assert ListedTexts(vis)[j] == ListedText(h[k].texts[i]);
    }
  }

  /** The same for the dot rows, a layer's missing dot list counting as
      empty. */
  lemma AllDotsRows(store: Store<Dot>, h: seq<Layer>)
    ensures var all := AllDots(store, h);
            && all[..|store.items|] == store.items
            && (forall d :: d in all[|store.items|..] <==>
                  exists k, i :: 0 <= k < |h| && h[k].visible && 0 <= i < |Compositing.LayerDots(h[k])|
                    && d == ListedDot(Compositing.LayerDots(h[k])[i]))
            && (forall i :: |store.items| <= i < |all| ==> all[i].visible.Some?)
  {
    var all := AllDots(store, h);
    var vis := Compositing.VisibleStandaloneDots(h);
    assert all[|store.items|..] == ListedDots(vis);
    forall d | d in ListedDots(vis)
      ensures exists k, i :: 0 <= k < |h| && h[k].visible && 0 <= i < |Compositing.LayerDots(h[k])|
                && d == ListedDot(Compositing.LayerDots(h[k])[i])
    {
      var j :| 0 <= j < |vis| && ListedDots(vis)[j] == d;
      assert vis[j] in vis;
      var k :| 0 <= k < |h| && h[k].visible && vis[j] in Compositing.LayerDots(h[k]);
      var i :| 0 <= i < |Compositing.LayerDots(h[k])| && Compositing.LayerDots(h[k])[i] == vis[j];
    }
    forall k, i | 0 <= k < |h| && h[k].visible && 0 <= i < |Compositing.LayerDots(h[k])|
      ensures ListedDot(Compositing.LayerDots(h[k])[i]) in ListedDots(vis)
    {
      assert Compositing.LayerDots(h[k])[i] in Compositing.LayerDots(h[k]);
      assert Compositing.LayerDots(h[k])[i] in vis;
      var j :| 0 <= j < |vis| && vis[j] == Compositing.LayerDots(h[k])[i];
      assert ListedDots(vis)[j] == ListedDot(Compositing.LayerDots(h[k])[i]);
    }
  }

  /** Reading an undefined visibility as shown hides nothing and shows
      nothing new: the layer rows that are not hidden draw exactly the
      layer texts the export draws, in the same order. */
  lemma {:induction false} ListedLayerTextsDrawAsExport(ts: seq<Text>)
    ensures Compositing.Labels(ListedTexts(ts)) == Compositing.Labels(ts)
  {
    if |ts| > 0 {
      assert ListedTexts(ts)[1..] == ListedTexts(ts[1..]);
      ListedLayerTextsDrawAsExport(ts[1..]);
    }
  }

  // ---------------------------------------------------------------------
  // Selection

  /** `selectedLayer`: the first listed element with the selected id. */
  function SelectedText(store: Store<Text>, h: seq<Layer>): (r: Option<Text>)
    ensures r.Some? ==> store.selected == Some(r.value.id) && r.value in AllTexts(store, h)
    ensures store.selected.Some? && store.selected.value in (set t | t in AllTexts(store, h) :: t.id)
            ==> r.Some?
  {
    match store.selected
    case None => None
    case Some(id) => Collections.FindById(AllTexts(store, h), id, TextId)
  }

  function SelectedDot(store: Store<Dot>, h: seq<Layer>): (r: Option<Dot>)
    ensures r.Some? ==> store.selected == Some(r.value.id) && r.value in AllDots(store, h)
    ensures store.selected.Some? && store.selected.value in (set d | d in AllDots(store, h) :: d.id)
            ==> r.Some?
  {
    match store.selected
    case None => None
    case Some(id) => Collections.FindById(AllDots(store, h), id, DotId)
  }

  /** Clicking a row: the selected row is deselected, any other row is
      selected. */
  function RowClick(selected: Option<string>, id: string): (r: Option<string>)
    ensures r == Some(id) <==> selected != Some(id)
    ensures r.None? <==> selected == Some(id)
  {
    if selected == Some(id) then None else Some(id)
  }

  /** Two clicks on the same row give back the selection, whenever that row
      was selected or nothing was. */
  lemma RowClickTwice(selected: Option<string>, id: string)
    requires selected.None? || selected == Some(id)
    ensures RowClick(RowClick(selected, id), id) == selected
  {
  }

  // ---------------------------------------------------------------------
  // Editing

  /** The three controls of the text panel. */
  datatype TextEdit = NewText(value: string) | NewFontSize(size: real) | NewFontFamily(family: string)

  /** The placeholder an emptied text of an element becomes. */
  const PlaceholderText := "Текст"

  const NoTextPatch := TextPatch(None, None, None, None, None, None, None, None)
  const NoDotPatch := DotPatch(None, None, None, None, None, None)

  /** The update sent to a selected text: `text: value || 'Текст'`. */
  function TextPatchFor(e: TextEdit): TextPatch {
    match e
    case NewText(v) => NoTextPatch.(text := Some(if v == "" then PlaceholderText else v))
    case NewFontSize(s) => NoTextPatch.(fontSize := Some(s))
    case NewFontFamily(f) => NoTextPatch.(fontFamily := Some(f))
  }

  /** The same edit of the settings for new texts (no placeholder there). */
  function TextSettingsFor(st: TextSettings, e: TextEdit): TextSettings {
    match e
    case NewText(v) => st.(text := v)
    case NewFontSize(s) => st.(fontSize := s)
    case NewFontFamily(f) => st.(fontFamily := f)
  }

  /** `handleTextChange` and its siblings. */
  function EditText(store: Store<Text>, h: seq<Layer>, st: TextSettings, e: TextEdit)
    : (r: (Store<Text>, TextSettings))
    ensures r.0.selected == store.selected && |r.0.items| == |store.items|
    ensures SelectedText(store, h).None? ==> r.0 == store
    ensures SelectedText(store, h).Some? ==> r.1 == st
  {
    match SelectedText(store, h)
    case Some(t) => (UpdateText(store, t.id, TextPatchFor(e)), st)
    case None => (store, TextSettingsFor(st, e))
  }

  /** With a selected row the edit lands on the store's elements with that
      id, never leaves one without text, and the settings stay; without one
      only the settings change. */
  lemma EditTextRouting(store: Store<Text>, h: seq<Layer>, st: TextSettings, e: TextEdit)
    ensures var (s', st') := EditText(store, h, st, e);
            && s'.selected == store.selected && |s'.items| == |store.items|
            && (SelectedText(store, h).None? ==>
                  (&& s' == store
                   && st'.color == st.color
                   && (e.NewText? ==> st'.text == e.value && st'.fontSize == st.fontSize)
                   && (e.NewFontSize? ==> st'.fontSize == e.size && st'.text == st.text)
                   && (e.NewFontFamily? ==> st'.fontFamily == e.family && st'.text == st.text)))
            && (SelectedText(store, h).Some? ==>
                  (&& st' == st
                   && forall i :: 0 <= i < |store.items| ==>
                        if store.items[i].id == store.selected.value then
                          && (e.NewText? ==>
                                (s'.items[i].text != "" && (e.value != "" ==> s'.items[i].text == e.value)))
                          && (e.NewFontSize? ==> s'.items[i].fontSize == e.size)
                          && (e.NewFontFamily? ==> s'.items[i].fontFamily == e.family)
                          && s'.items[i].id == store.items[i].id
                          && s'.items[i].visible == store.items[i].visible
                        else s'.items[i] == store.items[i]))
  {
  }

  /** A selected row that belongs to a layer, not to the store, cannot be
      edited from the panel: the update finds no such id in the store. */
  lemma EditLayerTextIgnored(store: Store<Text>, h: seq<Layer>, st: TextSettings, e: TextEdit)
    requires SelectedText(store, h).Some?
    requires forall i :: 0 <= i < |store.items| ==> store.items[i].id != store.selected.value
    ensures EditText(store, h, st, e) == (store, st)
  {
    UpdateUnknownText(store, store.selected.value, TextPatchFor(e));
  }

  /** `handleDotSizeChange`. */
  function EditDotSize(store: Store<Dot>, h: seq<Layer>, st: DotSettings, size: real)
    : (r: (Store<Dot>, DotSettings))
    ensures r.0.selected == store.selected && |r.0.items| == |store.items|
    ensures SelectedDot(store, h).None? ==> r.0 == store && r.1.size == size
    ensures SelectedDot(store, h).Some? ==> r.1 == st
  {
    match SelectedDot(store, h)
    case Some(d) => (UpdateDot(store, d.id, NoDotPatch.(size := Some(size))), st)
    case None => (store, st.(size := size))
  }

  lemma EditDotSizeRouting(store: Store<Dot>, h: seq<Layer>, st: DotSettings, size: real)
    ensures var (s', st') := EditDotSize(store, h, st, size);
            && s'.selected == store.selected && |s'.items| == |store.items|
            && (SelectedDot(store, h).None? ==> s' == store && st' == DotSettings(size, st.color))
            && (SelectedDot(store, h).Some? ==>
                  (&& st' == st
                   && forall i :: 0 <= i < |store.items| ==>
                        if store.items[i].id == store.selected.value
                        then s'.items[i] == store.items[i].(size := size)
                        else s'.items[i] == store.items[i]))
  {
  }

  // ---------------------------------------------------------------------
  // Visibility and deletion

  /** `!element.visible`, with JavaScript's `!undefined` being true. */
  function Flip(v: Option<bool>): bool {
    match v
    case None => true
    case Some(b) => !b
  }

  /** `toggleTextVisibility(id)`: the first listed element with the id
      decides the new flag, which is sent to the store. */
  function ToggleText(store: Store<Text>, h: seq<Layer>, id: string): (r: Store<Text>)
    ensures r.selected == store.selected && |r.items| == |store.items|
    ensures forall i :: 0 <= i < |store.items| ==>
              r.items[i].(visible := store.items[i].visible) == store.items[i]
    ensures forall i :: 0 <= i < |store.items| && store.items[i].id != id ==> r.items[i] == store.items[i]
  {
    match Collections.FindById(AllTexts(store, h), id, TextId)
    case Some(t) => UpdateText(store, id, NoTextPatch.(visible := Some(Flip(t.visible))))
    case None => store
  }

  function ToggleDot(store: Store<Dot>, h: seq<Layer>, id: string): (r: Store<Dot>)
    ensures r.selected == store.selected && |r.items| == |store.items|
    ensures forall i :: 0 <= i < |store.items| ==>
              r.items[i].(visible := store.items[i].visible) == store.items[i]
    ensures forall i :: 0 <= i < |store.items| && store.items[i].id != id ==> r.items[i] == store.items[i]
  {
    match Collections.FindById(AllDots(store, h), id, DotId)
    case Some(d) => UpdateDot(store, id, NoDotPatch.(visible := Some(Flip(d.visible))))
    case None => store
  }

  /** The element with its flag replaced by the toggled one. */
  function Toggled(t: Text): Text {
    t.(visible := Some(Flip(t.visible)))
  }

  function ToggledDot(d: Dot): Dot {
    d.(visible := Some(Flip(d.visible)))
  }

  /** On a store with unique ids, toggling the id of element j rewrites
      that element's flag and nothing else. */
  lemma ToggleTextAt(store: Store<Text>, h: seq<Layer>, j: nat, id: string)
    requires Collections.UniqueIds(store.items, TextId) && j < |store.items|
    requires store.items[j].id == id
    ensures ToggleText(store, h, id) == Store(store.items[j := Toggled(store.items[j])], store.selected)
  {
    Collections.FindUnique(store.items, j, TextId);
    Collections.FindInPrefix(store.items, ListedTexts(Compositing.VisibleTexts(h)), id, TextId);
    forall i | 0 <= i < |store.items| && i != j
      ensures store.items[i].id != id
    {
      assert TextId(store.items[i]) != TextId(store.items[j]);
    }
  }

  lemma ToggleDotAt(store: Store<Dot>, h: seq<Layer>, j: nat, id: string)
    requires Collections.UniqueIds(store.items, DotId) && j < |store.items|
    requires store.items[j].id == id
    ensures ToggleDot(store, h, id) == Store(store.items[j := ToggledDot(store.items[j])], store.selected)
  {
    Collections.FindUnique(store.items, j, DotId);
    Collections.FindInPrefix(store.items, ListedDots(Compositing.VisibleStandaloneDots(h)), id, DotId);
    forall i | 0 <= i < |store.items| && i != j
      ensures store.items[i].id != id
    {
      assert DotId(store.items[i]) != DotId(store.items[j]);
    }
  }

  /** Replacing an element by one with the same id keeps ids unique. */
  lemma UniqueAfterReplace<E>(items: seq<E>, j: nat, e: E, idOf: E -> string)
    requires Collections.UniqueIds(items, idOf) && j < |items| && idOf(e) == idOf(items[j])
    ensures Collections.UniqueIds(items[j := e], idOf)
  {
    var r := items[j := e];
    forall a, b | 0 <= a < b < |r|
      ensures idOf(r[a]) != idOf(r[b])
    {
      assert idOf(r[a]) == idOf(items[a]) && idOf(r[b]) == idOf(items[b]);
    }
  }

  /** A store text with a defined flag is hidden by the callback exactly
      when it was shown; one whose flag is undefined (shown) becomes
      explicitly shown, so its first call changes nothing in how the text is
      drawn. */
  lemma ToggleTextFlips(store: Store<Text>, h: seq<Layer>, j: nat)
    requires Collections.UniqueIds(store.items, TextId) && j < |store.items|
    ensures var r := ToggleText(store, h, store.items[j].id).items[j];
            && r.id == store.items[j].id && r.text == store.items[j].text
            && (store.items[j].visible.Some? ==>
                  (Compositing.NotHidden(r.visible) <==> !Compositing.NotHidden(store.items[j].visible)))
            && (store.items[j].visible.None? ==> r.visible == Some(true))
  {
    ToggleTextAt(store, h, j, store.items[j].id);
  }

  lemma ToggleDotFlips(store: Store<Dot>, h: seq<Layer>, j: nat)
    requires Collections.UniqueIds(store.items, DotId) && j < |store.items|
    ensures var r := ToggleDot(store, h, store.items[j].id).items[j];
            && r.id == store.items[j].id && r.size == store.items[j].size
            && (store.items[j].visible.Some? ==>
                  (Compositing.NotHidden(r.visible) <==> !Compositing.NotHidden(store.items[j].visible)))
            && (store.items[j].visible.None? ==> r.visible == Some(true))
  {
    ToggleDotAt(store, h, j, store.items[j].id);
  }

  /** Two calls of the callback on a store text with a defined flag
      restore the store. */
  lemma ToggleTextTwice(store: Store<Text>, h: seq<Layer>, j: nat)
    requires Collections.UniqueIds(store.items, TextId) && j < |store.items|
    requires store.items[j].visible.Some?
    ensures var id := store.items[j].id;
            ToggleText(ToggleText(store, h, id), h, id) == store
  {
    var t := store.items[j];
    var once := Store(store.items[j := Toggled(t)], store.selected);
    ToggleTextAt(store, h, j, t.id);
    UniqueAfterReplace(store.items, j, Toggled(t), TextId);
    ToggleTextAt(once, h, j, t.id);
    assert Toggled(Toggled(t)) == t;
    assert once.items[j := t] == store.items;
  }

  lemma ToggleDotTwice(store: Store<Dot>, h: seq<Layer>, j: nat)
    requires Collections.UniqueIds(store.items, DotId) && j < |store.items|
    requires store.items[j].visible.Some?
    ensures var id := store.items[j].id;
            ToggleDot(ToggleDot(store, h, id), h, id) == store
  {
    var d := store.items[j];
    var once := Store(store.items[j := ToggledDot(d)], store.selected);
    ToggleDotAt(store, h, j, d.id);
    UniqueAfterReplace(store.items, j, ToggledDot(d), DotId);
    ToggleDotAt(once, h, j, d.id);
    assert ToggledDot(ToggledDot(d)) == d;
    assert once.items[j := d] == store.items;
  }

  /** A row that comes from a layer cannot be hidden from the panel: the
      store holds no element with its id, so the callback changes nothing.
      (The text panel's click still changes the selection: see
      EyeClickLayerText.) */
  lemma ToggleLayerTextIgnored(store: Store<Text>, h: seq<Layer>, id: string)
    requires forall i :: 0 <= i < |store.items| ==> store.items[i].id != id
    ensures ToggleText(store, h, id) == store
  {
    UpdateUnknownText(store, id, NoTextPatch.(visible := Some(false)));
    UpdateUnknownText(store, id, NoTextPatch.(visible := Some(true)));
  }

  lemma ToggleLayerDotIgnored(store: Store<Dot>, h: seq<Layer>, id: string)
    requires forall i :: 0 <= i < |store.items| ==> store.items[i].id != id
    ensures ToggleDot(store, h, id) == store
  {
    UpdateUnknownDot(store, id, NoDotPatch.(visible := Some(false)));
    UpdateUnknownDot(store, id, NoDotPatch.(visible := Some(true)));
  }

  // ---------------------------------------------------------------------
  // The text panel's eye button as written

  /** A click on the eye button of a text row. The button's handler calls
      `toggleTextVisibility` without `stopPropagation`, so the click bubbles
      to the row, whose handler selects the row or deselects it. The dot
      panel's eye button and the text panel's trash button both stop the
      click; ToggleText alone is what those buttons do. */
  function EyeClickText(store: Store<Text>, h: seq<Layer>, id: string): (r: Store<Text>)
    ensures r.selected == RowClick(store.selected, id)
    ensures r.items == ToggleText(store, h, id).items
  {
    ToggleText(store, h, id).(selected := RowClick(store.selected, id))
  }

  /** On a store with unique ids, the eye click on store text j flips that
      text's flag, and also selects the row, or deselects it when it was
      the selected one. */
  lemma EyeClickTextAt(store: Store<Text>, h: seq<Layer>, j: nat)
    requires Collections.UniqueIds(store.items, TextId) && j < |store.items|
    ensures var id := store.items[j].id;
            EyeClickText(store, h, id)
            == Store(store.items[j := Toggled(store.items[j])], RowClick(store.selected, id))
  {
    ToggleTextAt(store, h, j, store.items[j].id);
  }

  /** Even when the flag only goes from undefined to explicitly shown, the
      click changes the screen: the selection always moves. */
  lemma EyeClickTextChangesSelection(store: Store<Text>, h: seq<Layer>, id: string)
    ensures EyeClickText(store, h, id).selected != store.selected
    ensures EyeClickText(store, h, id).selected == Some(id) <==> store.selected != Some(id)
  {
  }

  /** Two eye clicks on a store text with a defined flag restore the store
      exactly when nothing, or that row, was selected. */
  lemma EyeClickTextTwice(store: Store<Text>, h: seq<Layer>, j: nat)
    requires Collections.UniqueIds(store.items, TextId) && j < |store.items|
    requires store.items[j].visible.Some?
    ensures var id := store.items[j].id;
            EyeClickText(EyeClickText(store, h, id), h, id) == store
            <==> (store.selected.None? || store.selected == Some(id))
  {
    var t := store.items[j];
    var back := RowClick(RowClick(store.selected, t.id), t.id);
    var once := Store(store.items[j := Toggled(t)], RowClick(store.selected, t.id));
    EyeClickTextAt(store, h, j);
    UniqueAfterReplace(store.items, j, Toggled(t), TextId);
    EyeClickTextAt(once, h, j);
    assert Toggled(Toggled(t)) == t;
    assert once.items[j := t] == store.items;
    assert EyeClickText(EyeClickText(store, h, t.id), h, t.id) == Store(store.items, back);
    assert back == store.selected <==> (store.selected.None? || store.selected == Some(t.id));
  }

  /** When another row was selected, two eye clicks leave nothing selected. */
  lemma EyeClickTwiceDropsOtherSelection(store: Store<Text>, h: seq<Layer>, id: string, other: string)
    requires store.selected == Some(other) && other != id
    ensures EyeClickText(EyeClickText(store, h, id), h, id).selected.None?
  {
  }

  /** The eye click on a layer's text leaves every text as it was, yet
      selects that row, or deselects it. */
  lemma EyeClickLayerText(store: Store<Text>, h: seq<Layer>, id: string)
    requires forall i :: 0 <= i < |store.items| ==> store.items[i].id != id
    ensures EyeClickText(store, h, id) == store.(selected := RowClick(store.selected, id))
  {
    ToggleLayerTextIgnored(store, h, id);
  }

  /** `deleteTextLayer` / `deleteDotLayer`: delete from the store, then clear
      the selection if it was that id. */
  function PanelDelete<E>(store: Store<E>, id: string, idOf: E -> string): (r: Store<E>)
    ensures r.selected != Some(id)
  {
    var s := Delete(store, id, idOf);
    if store.selected == Some(id) then s.(selected := None) else s
  }

  /** The panel's own clearing of the selection repeats what the store's
      delete already does. */
  lemma PanelDeleteIsStoreDelete<E>(store: Store<E>, id: string, idOf: E -> string)
    ensures PanelDelete(store, id, idOf) == Delete(store, id, idOf)
  {
  }
}
