/** Canvas input that changes the editor: the lasso reporting its outline
    while drawing and on completion, and the keyboard moving or deleting the
    selected text (in text mode) or standalone dot (in dot mode). */
module Interaction {
  import opened Wrappers
  import opened Geometry
  import opened Elements
  import opened Layers
  import Collections

  // ---------------------------------------------------------------------
  // Lasso

  /** `handleLassoChange`: the outline follows the lasso, and an empty one
      drops the area. */
  function LassoChange(e: Editor, value: seq<Point>): (r: Editor)
    ensures r.points == value
    ensures r.area == (e.area && |value| > 0)
    ensures r.(points := e.points, area := e.area) == e
  {
    if |value| == 0 then e.(points := value, area := false) else e.(points := value)
  }

  /** `handleLassoComplete`: an outline of at least three corners becomes
      the area; anything shorter clears the outline and the results. */
  function LassoComplete(e: Editor, value: seq<Point>): (r: Editor)
    ensures r.area <==> |value| >= 3
    ensures r.area ==> r.points == value && r.results == e.results
    ensures !r.area ==> r.points == [] && r.results == []
    ensures r.(points := e.points, area := e.area, results := e.results) == e
  {
    if |value| >= 3 then e.(points := value, area := true)
    else e.(area := false, points := [], results := [])
  }

  /** After completion an area always has an outline that can hold dots. */
  lemma CompletedAreaIsPolygon(e: Editor, value: seq<Point>)
    ensures var r := LassoComplete(e, value);
            r.area <==> |r.points| >= 3
  {
  }

  /** What the lasso reported while drawing is irrelevant once it completes. */
  lemma CompleteOverridesChange(e: Editor, partial: seq<Point>, value: seq<Point>)
    ensures LassoComplete(LassoChange(e, partial), value) == LassoComplete(e, value)
  {
  }

  // ---------------------------------------------------------------------
  // Keyboard

  datatype Key = DeleteKey | ArrowUp | ArrowDown | ArrowLeft | ArrowRight | OtherKey(name: string)

  predicate IsArrow(k: Key) {
    k.ArrowUp? || k.ArrowDown? || k.ArrowLeft? || k.ArrowRight?
  }

  /** One press moves by 1, or by 10 with shift held. */
  function MoveDistance(shift: bool): real {
    if shift then 10.0 else 1.0
  }

  /** The displacement of an arrow key, screen coordinates growing downward. */
  function Displacement(k: Key, shift: bool): (d: (real, real))
    ensures IsArrow(k) ==> (d.0 == 0.0) != (d.1 == 0.0)
    ensures k.ArrowUp? ==> d == (0.0, -MoveDistance(shift))
    ensures k.ArrowDown? ==> d == (0.0, MoveDistance(shift))
    ensures k.ArrowLeft? ==> d == (-MoveDistance(shift), 0.0)
    ensures k.ArrowRight? ==> d == (MoveDistance(shift), 0.0)
    ensures !IsArrow(k) ==> d == (0.0, 0.0)
  {
    var m := MoveDistance(shift);
    match k
    case ArrowUp => (0.0, -m)
    case ArrowDown => (0.0, m)
    case ArrowLeft => (-m, 0.0)
    case ArrowRight => (m, 0.0)
    case _ => (0.0, 0.0)
  }

  /** The arrow key that moves back. */
  function Opposite(k: Key): Key {
    match k
    case ArrowUp => ArrowDown
    case ArrowDown => ArrowUp
    case ArrowLeft => ArrowRight
    case ArrowRight => ArrowLeft
    case _ => k
  }

  function TextMove(x: real, y: real): TextPatch {
    TextPatch(None, Some(x), Some(y), None, None, None, None, None)
  }

  function DotMove(x: real, y: real): DotPatch {
    DotPatch(None, Some(x), Some(y), None, None, None)
  }

  /** `selectedTextId && textMode`: the empty id counts as no selection. */
  predicate TextKeys(e: Editor) {
    e.textMode && e.texts.selected.Some? && e.texts.selected.value != ""
  }

  predicate DotKeys(e: Editor) {
    e.dotMode && e.dots.selected.Some? && e.dots.selected.value != ""
  }

  /** The keyboard handler on the text store. */
  function TextKey(s: Store<Text>, id: string, k: Key, shift: bool): (r: Store<Text>)
    ensures Collections.CountId(s.items, id, TextId) == 0 || k.OtherKey? ==> r == s
  {
    match Collections.FindById(s.items, id, TextId)
    case None => s
    case Some(t) =>
      if k.DeleteKey? then Delete(s, id, TextId)
      else if k.OtherKey? then s
      else
        var d := Displacement(k, shift);
        UpdateText(s, id, TextMove(t.x + d.0, t.y + d.1))
  }
  /** Delete on a text that exists removes every text with its id, keeps
      the others, and ends the selection of that id. */
  lemma TextKeyDeletes(s: Store<Text>, id: string, shift: bool)
    requires Collections.CountId(s.items, id, TextId) > 0
    ensures var r := TextKey(s, id, DeleteKey, shift);
            && (forall i :: 0 <= i < |r.items| ==> r.items[i].id != id)
            && (forall i :: 0 <= i < |s.items| && s.items[i].id != id ==> s.items[i] in r.items)
            && (r.selected == if s.selected == Some(id) then None else s.selected)
  {
  }

  /** An arrow on a text that exists sets every text with its id to the
      first one's position moved by the key's displacement, and leaves the
      rest and the selection alone. */
  lemma TextKeyMoves(s: Store<Text>, id: string, k: Key, shift: bool)
    requires Collections.CountId(s.items, id, TextId) > 0 && IsArrow(k)
    ensures var r := TextKey(s, id, k, shift);
            && r.selected == s.selected
            && TextsMoved(s.items, r.items, id, Collections.FindById(s.items, id, TextId).value, Displacement(k, shift))
  {
  }

  /** `b` is `a` with every text carrying `id` set to `t`'s position moved by
      `d`. */
  predicate TextsMoved(a: seq<Text>, b: seq<Text>, id: string, t: Text, d: (real, real)) {
    && |b| == |a|
    && forall i :: 0 <= i < |a| ==>
         b[i] == if a[i].id == id then a[i].(x := t.x + d.0, y := t.y + d.1) else a[i]
  }

  /** A move keeps every id, so unique ids stay unique. */
  lemma TextsMovedIds(a: seq<Text>, b: seq<Text>, id: string, t: Text, d: (real, real))
    requires TextsMoved(a, b, id, t, d)
    ensures forall i :: 0 <= i < |a| ==> b[i].id == a[i].id
    ensures Collections.UniqueIds(a, TextId) ==> Collections.UniqueIds(b, TextId)
  {
    assert forall i :: 0 <= i < |a| ==> b[i].id == a[i].id;
  }

  /** Moving the only text carrying `id` by `d` and then by the opposite
      of `d` restores the list. */
  lemma TextsMoveBack(a: seq<Text>, b: seq<Text>, c: seq<Text>, id: string, j: nat, d: (real, real), e: (real, real))
    requires Collections.UniqueIds(a, TextId) && j < |a| && a[j].id == id
    requires TextsMoved(a, b, id, a[j], d) && TextsMoved(b, c, id, b[j], e)
    requires e.0 == -d.0 && e.1 == -d.1
    ensures c == a
  {
    forall i | 0 <= i < |a|
      ensures c[i] == a[i]
    {
      if a[i].id == id {
        assert i == j;
      }
    }
  }


  /** The keyboard handler on the standalone-dot store. */
  function DotKey(s: Store<Dot>, id: string, k: Key, shift: bool): (r: Store<Dot>)
    ensures Collections.CountId(s.items, id, DotId) == 0 || k.OtherKey? ==> r == s
  {
    match Collections.FindById(s.items, id, DotId)
    case None => s
    case Some(t) =>
      if k.DeleteKey? then Delete(s, id, DotId)
      else if k.OtherKey? then s
      else
        var d := Displacement(k, shift);
        UpdateDot(s, id, DotMove(t.x + d.0, t.y + d.1))
  }
  /** Delete on a dot that exists removes every dot with its id, keeps
      the others, and ends the selection of that id. */
  lemma DotKeyDeletes(s: Store<Dot>, id: string, shift: bool)
    requires Collections.CountId(s.items, id, DotId) > 0
    ensures var r := DotKey(s, id, DeleteKey, shift);
            && (forall i :: 0 <= i < |r.items| ==> r.items[i].id != id)
            && (forall i :: 0 <= i < |s.items| && s.items[i].id != id ==> s.items[i] in r.items)
            && (r.selected == if s.selected == Some(id) then None else s.selected)
  {
  }

  /** An arrow on a dot that exists sets every dot with its id to the
      first one's position moved by the key's displacement, and leaves the
      rest and the selection alone. */
  lemma DotKeyMoves(s: Store<Dot>, id: string, k: Key, shift: bool)
    requires Collections.CountId(s.items, id, DotId) > 0 && IsArrow(k)
    ensures var r := DotKey(s, id, k, shift);
            && r.selected == s.selected
            && DotsMoved(s.items, r.items, id, Collections.FindById(s.items, id, DotId).value, Displacement(k, shift))
  {
  }

  /** `b` is `a` with every dot carrying `id` set to `t`'s position moved by
      `d`. */
  predicate DotsMoved(a: seq<Dot>, b: seq<Dot>, id: string, t: Dot, d: (real, real)) {
    && |b| == |a|
    && forall i :: 0 <= i < |a| ==>
         b[i] == if a[i].id == id then a[i].(x := t.x + d.0, y := t.y + d.1) else a[i]
  }

  /** A move keeps every id, so unique ids stay unique. */
  lemma DotsMovedIds(a: seq<Dot>, b: seq<Dot>, id: string, t: Dot, d: (real, real))
    requires DotsMoved(a, b, id, t, d)
    ensures forall i :: 0 <= i < |a| ==> b[i].id == a[i].id
    ensures Collections.UniqueIds(a, DotId) ==> Collections.UniqueIds(b, DotId)
  {
    assert forall i :: 0 <= i < |a| ==> b[i].id == a[i].id;
  }

  /** Moving the only dot carrying `id` by `d` and then by the opposite
      of `d` restores the list. */
  lemma DotsMoveBack(a: seq<Dot>, b: seq<Dot>, c: seq<Dot>, id: string, j: nat, d: (real, real), e: (real, real))
    requires Collections.UniqueIds(a, DotId) && j < |a| && a[j].id == id
    requires DotsMoved(a, b, id, a[j], d) && DotsMoved(b, c, id, b[j], e)
    requires e.0 == -d.0 && e.1 == -d.1
    ensures c == a
  {
    forall i | 0 <= i < |a|
      ensures c[i] == a[i]
    {
      if a[i].id == id {
        assert i == j;
      }
    }
  }


  /** The `keydown` listener. The text branch takes precedence: once a text
      is selected in text mode, the dots are left alone even when the text
      is not found. Nothing but the two stores ever changes. */
  function KeyDown(e: Editor, k: Key, shift: bool): (r: Editor)
    ensures r.(texts := e.texts, dots := e.dots) == e
    ensures TextKeys(e) ==> r.dots == e.dots && r.texts == TextKey(e.texts, e.texts.selected.value, k, shift)
    ensures !TextKeys(e) ==> r.texts == e.texts
    ensures !TextKeys(e) && DotKeys(e) ==> r.dots == DotKey(e.dots, e.dots.selected.value, k, shift)
    ensures !TextKeys(e) && !DotKeys(e) ==> r == e
  {
    if TextKeys(e) then e.(texts := TextKey(e.texts, e.texts.selected.value, k, shift))
    else if DotKeys(e) then e.(dots := DotKey(e.dots, e.dots.selected.value, k, shift))
    else e
  }

  /** Keys other than Delete and the arrows are ignored. */
  lemma OtherKeysIgnored(e: Editor, name: string, shift: bool)
    ensures KeyDown(e, OtherKey(name), shift) == e
  {
  }

  /** The opposite arrow moves by the opposite displacement. */
  lemma OppositeDisplacement(k: Key, shift: bool)
    requires IsArrow(k)
    ensures IsArrow(Opposite(k))
    ensures Displacement(Opposite(k), shift).0 == -Displacement(k, shift).0
    ensures Displacement(Opposite(k), shift).1 == -Displacement(k, shift).1
  {
  }

  /** An arrow press keeps the selection, the order and every id, and
      touches only the elements carrying the selected id. */
  lemma TextArrowKeepsShape(s: Store<Text>, id: string, k: Key, shift: bool)
    requires IsArrow(k)
    ensures var r := TextKey(s, id, k, shift);
            && r.selected == s.selected && |r.items| == |s.items|
            && (forall i :: 0 <= i < |s.items| ==> r.items[i].id == s.items[i].id)
            && (forall i :: 0 <= i < |s.items| && s.items[i].id != id ==> r.items[i] == s.items[i])
            && (Collections.UniqueIds(s.items, TextId) ==> Collections.UniqueIds(r.items, TextId))
  {
    if Collections.CountId(s.items, id, TextId) > 0 {
      TextKeyMoves(s, id, k, shift);
      TextsMovedIds(s.items, TextKey(s, id, k, shift).items, id,
                  Collections.FindById(s.items, id, TextId).value, Displacement(k, shift));
    }
  }

  /** With unique ids, an arrow press moves the selected text by exactly
      the key's displacement. */
  lemma TextMovedBy(s: Store<Text>, id: string, k: Key, shift: bool, i: nat)
    requires IsArrow(k) && Collections.UniqueIds(s.items, TextId)
    requires i < |s.items| && s.items[i].id == id
    ensures var d := Displacement(k, shift);
            TextKey(s, id, k, shift).items[i] == s.items[i].(x := s.items[i].x + d.0, y := s.items[i].y + d.1)
  {
    Collections.FindUnique(s.items, i, TextId);
    TextKeyMoves(s, id, k, shift);
  }

  /** With unique ids, an arrow press followed by the opposite one, with
      the same shift state, puts the selected text back where it was. */
  lemma TextArrowRoundTrip(s: Store<Text>, id: string, k: Key, shift: bool)
    requires IsArrow(k) && Collections.UniqueIds(s.items, TextId)
    ensures TextKey(TextKey(s, id, k, shift), id, Opposite(k), shift) == s
  {
    if Collections.CountId(s.items, id, TextId) > 0 {
      TextArrowAndBack(s, id, k, shift);
    }
  }

  lemma TextArrowAndBack(s: Store<Text>, id: string, k: Key, shift: bool)
    requires IsArrow(k) && Collections.UniqueIds(s.items, TextId)
    requires Collections.CountId(s.items, id, TextId) > 0
    ensures TextKey(TextKey(s, id, k, shift), id, Opposite(k), shift) == s
  {
    var once := TextKey(s, id, k, shift);
    var t := Collections.FindById(s.items, id, TextId).value;
    var j :| 0 <= j < |s.items| && s.items[j] == t;
    var d, e := Displacement(k, shift), Displacement(Opposite(k), shift);
    TextKeyMoves(s, id, k, shift);
    TextsMovedIds(s.items, once.items, id, t, d);
    Collections.FindUnique(once.items, j, TextId);
    OppositeDisplacement(k, shift);
    TextKeyMoves(once, id, Opposite(k), shift);
    TextsMoveBack(s.items, once.items, TextKey(once, id, Opposite(k), shift).items, id, j, d, e);
  }


  /** An arrow press keeps the selection, the order and every id, and
      touches only the elements carrying the selected id. */
  lemma DotArrowKeepsShape(s: Store<Dot>, id: string, k: Key, shift: bool)
    requires IsArrow(k)
    ensures var r := DotKey(s, id, k, shift);
            && r.selected == s.selected && |r.items| == |s.items|
            && (forall i :: 0 <= i < |s.items| ==> r.items[i].id == s.items[i].id)
            && (forall i :: 0 <= i < |s.items| && s.items[i].id != id ==> r.items[i] == s.items[i])
            && (Collections.UniqueIds(s.items, DotId) ==> Collections.UniqueIds(r.items, DotId))
  {
    if Collections.CountId(s.items, id, DotId) > 0 {
      DotKeyMoves(s, id, k, shift);
      DotsMovedIds(s.items, DotKey(s, id, k, shift).items, id,
                  Collections.FindById(s.items, id, DotId).value, Displacement(k, shift));
    }
  }

  /** With unique ids, an arrow press moves the selected dot by exactly the
      key's displacement. */
  lemma DotMovedBy(s: Store<Dot>, id: string, k: Key, shift: bool, i: nat)
    requires IsArrow(k) && Collections.UniqueIds(s.items, DotId)
    requires i < |s.items| && s.items[i].id == id
    ensures var d := Displacement(k, shift);
            DotKey(s, id, k, shift).items[i] == s.items[i].(x := s.items[i].x + d.0, y := s.items[i].y + d.1)
  {
    Collections.FindUnique(s.items, i, DotId);
    DotKeyMoves(s, id, k, shift);
  }

  /** The same round trip for the selected dot. */
  lemma DotArrowRoundTrip(s: Store<Dot>, id: string, k: Key, shift: bool)
    requires IsArrow(k) && Collections.UniqueIds(s.items, DotId)
    ensures DotKey(DotKey(s, id, k, shift), id, Opposite(k), shift) == s
  {
    if Collections.CountId(s.items, id, DotId) > 0 {
      DotArrowAndBack(s, id, k, shift);
    }
  }

  lemma DotArrowAndBack(s: Store<Dot>, id: string, k: Key, shift: bool)
    requires IsArrow(k) && Collections.UniqueIds(s.items, DotId)
    requires Collections.CountId(s.items, id, DotId) > 0
    ensures DotKey(DotKey(s, id, k, shift), id, Opposite(k), shift) == s
  {
    var once := DotKey(s, id, k, shift);
    var t := Collections.FindById(s.items, id, DotId).value;
    var j :| 0 <= j < |s.items| && s.items[j] == t;
    var d, e := Displacement(k, shift), Displacement(Opposite(k), shift);
    DotKeyMoves(s, id, k, shift);
    DotsMovedIds(s.items, once.items, id, t, d);
    Collections.FindUnique(once.items, j, DotId);
    OppositeDisplacement(k, shift);
    DotKeyMoves(once, id, Opposite(k), shift);
    DotsMoveBack(s.items, once.items, DotKey(once, id, Opposite(k), shift).items, id, j, d, e);
  }
}
