/** The per-image layer history (`PointsHistory[]`) and the editing session
    that fills it: committing the current area as a new layer or over the
    layer being edited, loading a layer back for editing, toggling its
    visibility, deleting it, and resetting the session. */
module Layers {
  import opened Wrappers
  import opened Geometry
  import opened Elements
  import Amount

  /** The eight label positions of `hashPosition`. */
  datatype Position = Top | TopLeft | TopRight | Right | BottomRight | Bottom | BottomLeft | Left

  /** A generated dot of a layer with its optional numbering overrides. */
  datatype GridDot = GridDot(
    cx: real, cy: real,
    hashFontSize: Option<real>, hashOffset: Option<real>,
    hashColor: Option<string>, hashPosition: Option<Position>)

  /** The parameters a layer was generated with, plus its numbering settings. */
  datatype LayerSettings = LayerSettings(
    points: seq<Point>, size: real, gap: real, padding: real, rotation: real,
    hashEnabled: Option<bool>, hashFontSize: Option<real>, hashOffset: Option<real>,
    hashColor: Option<string>, hashPosition: Option<Position>)

  /** One committed layer. `standaloneDots` is declared a list, but every
      reader guards it with `|| []`; the `Option` models that defensive
      read. */
  datatype Layer = Layer(
    dots: seq<GridDot>, texts: seq<Text>, standaloneDots: Option<seq<Dot>>,
    visible: bool, size: real, settings: LayerSettings)

  /** The editing session of the canvas: the area being drawn, the slider
      values, the generated `results`, the loose texts and dots, and which
      layer (if any, -1 otherwise) is being edited. */
  datatype Editor = Editor(
    area: bool, textMode: bool, dotMode: bool, points: seq<Point>, amount: string,
    size: real, gap: real, padding: real, rotation: real,
    editIndex: int, results: seq<Point>,
    texts: Store<Text>, dots: Store<Dot>)

  /** An editor together with the active image's history. */
  datatype Session = Session(editor: Editor, history: seq<Layer>)

  /** `editIndex` is -1 or names an existing layer. */
  predicate EditIndexValid(s: Session) {
    s.editor.editIndex == -1 || 0 <= s.editor.editIndex < |s.history|
  }

  predicate HashFree(st: LayerSettings) {
    st.hashEnabled.None? && st.hashFontSize.None? && st.hashOffset.None?
    && st.hashColor.None? && st.hashPosition.None?
  }

  function Positions(dots: seq<GridDot>): (ps: seq<Point>)
    ensures |ps| == |dots|
    ensures forall i :: 0 <= i < |dots| ==> ps[i] == Point(dots[i].cx, dots[i].cy)
  {
    seq(|dots|, i requires 0 <= i < |dots| => Point(dots[i].cx, dots[i].cy))
  }

  function PlainDot(p: Point): GridDot {
    GridDot(p.x, p.y, None, None, None, None)
  }

  /** The layer a commit stores: visible, the generated dots with no
      numbering overrides, the session's loose texts and dots, and exactly
      the five generation settings. */
  function NewLayer(e: Editor): (l: Layer)
    ensures l.visible && Positions(l.dots) == e.results
    ensures forall i :: 0 <= i < |l.dots| ==> l.dots[i] == PlainDot(e.results[i])
    ensures HashFree(l.settings)
    ensures l.settings.points == e.points && l.settings.size == e.size && l.size == e.size
    ensures l.settings.gap == e.gap && l.settings.padding == e.padding
    ensures l.settings.rotation == e.rotation
    ensures l.texts == e.texts.items && l.standaloneDots == Some(e.dots.items)
  {
    Layer(seq(|e.results|, i requires 0 <= i < |e.results| => PlainDot(e.results[i])),
          e.texts.items, Some(e.dots.items), true, e.size,
          LayerSettings(e.points, e.size, e.gap, e.padding, e.rotation, None, None, None, None, None))
  }

  /** The commit button. Nothing happens outside area and text mode.
      Otherwise the new layer is appended when no layer is being edited,
      or written over the edited one, and the session's area, texts and
      loose dots are cleared. A write one past the end appends, as an
      assignment to `newHistory[history.length]` does; a negative index
      other than -1 is not an array position and leaves the layers alone. */
  function Commit(s: Session): (r: Session)
    requires s.editor.editIndex <= |s.history|
    ensures !s.editor.area && !s.editor.textMode ==> r == s
    ensures (s.editor.area || s.editor.textMode) ==>
              && r.editor.editIndex == -1 && !r.editor.area
              && r.editor.points == [] && r.editor.texts.items == [] && r.editor.dots.items == []
              && r.editor.texts.selected == s.editor.texts.selected && r.editor.dots.selected == s.editor.dots.selected
              && r.editor.textMode == s.editor.textMode && r.editor.results == s.editor.results
              && r.editor.dotMode == s.editor.dotMode && r.editor.amount == s.editor.amount
              && r.editor.size == s.editor.size && r.editor.gap == s.editor.gap
              && r.editor.padding == s.editor.padding && r.editor.rotation == s.editor.rotation
    ensures (s.editor.area || s.editor.textMode) && s.editor.editIndex == -1 ==>
              r.history == s.history + [NewLayer(s.editor)]
    ensures (s.editor.area || s.editor.textMode) && 0 <= s.editor.editIndex < |s.history| ==>
              && |r.history| == |s.history|
              && r.history[s.editor.editIndex] == NewLayer(s.editor)
              && (forall j :: 0 <= j < |s.history| && j != s.editor.editIndex ==> r.history[j] == s.history[j])
    ensures EditIndexValid(r) || r == s
  {
    var e := s.editor;
    if !e.area && !e.textMode then s
    else
      var item := NewLayer(e);
      var history :=
        if e.editIndex == -1 || e.editIndex == |s.history| then s.history + [item]
        else if e.editIndex < -1 then s.history
        else s.history[e.editIndex := item];
      Session(e.(editIndex := -1, points := [], area := false,
                 texts := e.texts.(items := []), dots := e.dots.(items := [])), history)
  }

  /** The edit button of layer `index`: load its generation settings back
      into the session, set the amount to its dot count, and mark it as
      being edited. An index with no layer changes nothing. */
  function Edit(s: Session, index: nat): (r: Session)
    ensures index >= |s.history| ==> r == s
    ensures index < |s.history| ==>
              && r.history == s.history && r.editor.area && r.editor.editIndex == index
              && Amount.AllDigits(r.editor.amount)
              && Amount.ParseDigits(r.editor.amount) == |s.history[index].dots|
              && r.editor.points == s.history[index].settings.points
              && r.editor.size == s.history[index].settings.size
              && r.editor.gap == s.history[index].settings.gap
              && r.editor.padding == s.history[index].settings.padding
              && r.editor.rotation == s.history[index].settings.rotation
    ensures EditIndexValid(s) ==> EditIndexValid(r)
  {
    if index >= |s.history| then s
    else
      var st := s.history[index].settings;
      Amount.ParseNatToString(|s.history[index].dots|);
      Session(s.editor.(amount := Amount.NatToString(|s.history[index].dots|),
                        size := st.size, gap := st.gap, padding := st.padding,
                        rotation := st.rotation, points := st.points,
                        area := true, editIndex := index),
              s.history)
  }

  /** The eye button of layer `index`: flip its visibility, nothing else. */
  function ToggleVisibility(history: seq<Layer>, index: nat): (r: seq<Layer>)
    requires index < |history|
    ensures |r| == |history| && r[index].visible == !history[index].visible
    ensures r[index].(visible := history[index].visible) == history[index]
    ensures forall j :: 0 <= j < |history| && j != index ==> r[j] == history[j]
  {
    history[index := history[index].(visible := !history[index].visible)]
  }

  /** Toggling twice restores the history. */
  lemma ToggleTwice(history: seq<Layer>, index: nat)
    requires index < |history|
    ensures ToggleVisibility(ToggleVisibility(history, index), index) == history
  {
    var r := ToggleVisibility(ToggleVisibility(history, index), index);
    assert forall j :: 0 <= j < |history| ==> r[j] == history[j];
  }

  /** The delete button as written: `[...history.slice(0, index),
      ...history.slice(index + 1)]`. The edited position is not adjusted. */
  function DeleteLayer(history: seq<Layer>, index: nat): (r: seq<Layer>)
    ensures index >= |history| ==> r == history
    ensures index < |history| ==> |r| == |history| - 1
    ensures forall j :: 0 <= j < |r| ==> r[j] == history[if j < index then j else j + 1]
  {
    if index < |history| then history[..index] + history[index + 1..] else history
  }

  /** Deleting an earlier layer while another is being edited, then
      committing: the commit lands on the layer that moved into the edited
      position. With layers a, b, c and b being edited, deleting a and
      committing keeps b and loses c. */
  lemma DeleteThenCommitHitsWrongLayer(e: Editor, a: Layer, b: Layer, c: Layer)
    requires e.area && e.editIndex == 1
    ensures Commit(Session(e, DeleteLayer([a, b, c], 0))).history == [b, NewLayer(e)]
  {
    var h := DeleteLayer([a, b, c], 0);
    assert h == [b, c];
  }

  /** Delete with the edited position kept on the edited layer: an earlier
      deletion shifts it down by one, deleting the edited layer itself ends
      the edit, and a later deletion leaves it. */
  function DeleteLayerKeepingEdit(s: Session, index: nat): (r: Session)
    requires EditIndexValid(s)
    ensures r.history == DeleteLayer(s.history, index)
    ensures EditIndexValid(r)
    ensures r.editor.editIndex == -1 <==> s.editor.editIndex == -1 || s.editor.editIndex == index
    ensures r.editor.editIndex != -1 ==> r.history[r.editor.editIndex] == s.history[s.editor.editIndex]
    ensures r.editor.(editIndex := s.editor.editIndex) == s.editor
  {
    var ei := s.editor.editIndex;
    var ei' :=
      if index >= |s.history| || ei == -1 || index > ei then ei
      else if index == ei then -1
      else ei - 1;
    Session(s.editor.(editIndex := ei'), DeleteLayer(s.history, index))
  }

  /** With the corrected delete, committing after deleting a different
      layer overwrites the layer that was loaded for editing. */
  lemma DeleteKeepingEditThenCommit(s: Session, index: nat)
    requires EditIndexValid(s) && s.editor.area && s.editor.editIndex != -1
    requires index != s.editor.editIndex && index < |s.history|
    ensures var d := DeleteLayerKeepingEdit(s, index);
            var r := Commit(d);
            && |r.history| == |s.history| - 1
            && NewLayer(s.editor.(editIndex := d.editor.editIndex)) in r.history
            && (forall j :: 0 <= j < |s.history| && j != index && j != s.editor.editIndex ==>
                  s.history[j] in r.history)
  {
    var d := DeleteLayerKeepingEdit(s, index);
    var r := Commit(d);
    assert r.history[d.editor.editIndex] == NewLayer(d.editor);
    forall j | 0 <= j < |s.history| && j != index && j != s.editor.editIndex
      ensures s.history[j] in r.history
    {
      var k := if j < index then j else j - 1;
      assert d.history[k] == s.history[j];
      assert k != d.editor.editIndex;
      assert r.history[k] == s.history[j];
    }
  }

  /** The reset (cancel) button: in text mode drop the loose texts and their
      selection, otherwise drop the area; either way stop editing. The
      layers are not touched. */
  function Reset(e: Editor): (r: Editor)
    ensures r.editIndex == -1
    ensures e.textMode ==> r.texts.items == [] && r.texts.selected.None? && r.points == e.points && r.area == e.area
    ensures !e.textMode ==> r.points == [] && !r.area && r.texts == e.texts
    ensures r.(editIndex := e.editIndex, texts := e.texts, points := e.points, area := e.area) == e
  {
    if e.textMode then e.(texts := Clear(e.texts), editIndex := -1)
    else e.(points := [], area := false, editIndex := -1)
  }

  /** Editing a layer whose settings carry no numbering and committing again
      with the same generated dots restores that layer's settings and dots
      and leaves every other layer alone. */
  lemma EditCommitRoundTrip(s: Session, index: nat)
    requires index < |s.history|
    requires HashFree(s.history[index].settings)
    requires s.editor.results == Positions(s.history[index].dots)
    ensures var r := Commit(Edit(s, index));
            && |r.history| == |s.history|
            && r.history[index].settings == s.history[index].settings
            && Positions(r.history[index].dots) == Positions(s.history[index].dots)
            && r.history[index].visible
            && (forall j :: 0 <= j < |s.history| && j != index ==> r.history[j] == s.history[j])
            && r.editor.editIndex == -1
  {
    var ed := Edit(s, index);
    assert ed.editor.results == s.editor.results;
    var r := Commit(ed);
    assert r.history[index] == NewLayer(ed.editor);
  }

  /** Every generated dot is a bare position, with no numbering override. */
  predicate PlainDots(dots: seq<GridDot>) {
    forall i :: 0 <= i < |dots| ==> dots[i] == PlainDot(Point(dots[i].cx, dots[i].cy))
  }

  /** The round trip gives back the very same history when nothing it drops
      or replaces was there: the layer is visible, carries no numbering and
      no per-dot overrides, its size is its settings' size, and the session
      still holds exactly the layer's texts and loose dots (the edit button
      does not load those back). */
  lemma EditCommitRestores(s: Session, index: nat)
    requires index < |s.history|
    requires var l := s.history[index];
             && l.visible && HashFree(l.settings) && PlainDots(l.dots) && l.size == l.settings.size
             && s.editor.results == Positions(l.dots)
             && s.editor.texts.items == l.texts && l.standaloneDots == Some(s.editor.dots.items)
    ensures Commit(Edit(s, index)).history == s.history
  {
    var l := s.history[index];
    var ed := Edit(s, index);
    var n := NewLayer(ed.editor);
    assert n.dots == l.dots;
    assert n.settings == l.settings;
    assert n == l;
    assert Commit(ed).history == s.history[index := l];
    assert s.history[index := l] == s.history;
  }
}
