/** Dragging a text or a standalone dot with the mouse (`useTextDrag`,
    `useDotDrag`). A press selects the element and, when it sits in an SVG
    and exists, starts a drag from its position; each pointer move schedules
    one animation frame, replacing the one still pending; a frame writes the
    element's new position; the release cancels any pending frame.
    The two hooks differ only in the element type, so the element is
    generic here: `idOf` reads its id, `posOf` its position and `place`
    writes a new one. */
module Drag {
  import opened Wrappers
  import opened Elements
  import Collections

  /** The SVG's on-screen size (`getBoundingClientRect`) and its viewBox. */
  datatype Svg = Svg(rectWidth: real, rectHeight: real, viewWidth: real, viewHeight: real)

  /** An SVG that can receive a press has an on-screen area. */
  predicate Hittable(svg: Svg) {
    svg.rectWidth > 0.0 && svg.rectHeight > 0.0
  }

  /** The drag listener state: the pointer and element position at the press,
      and the pointer of the animation frame still pending, if any. */
  datatype DragState =
    | Idle
    | Dragging(id: string, clientX: real, clientY: real, startX: real, startY: real,
               svg: Svg, pending: Option<(real, real)>)

  predicate Ready(d: DragState) {
    d.Dragging? ==> Hittable(d.svg)
  }

  /** A screen displacement converted into viewBox units. */
  function ToViewBox(svg: Svg, dx: real, dy: real): (r: (real, real))
    requires Hittable(svg)
    ensures dx == 0.0 && dy == 0.0 ==> r == (0.0, 0.0)
    ensures svg.rectWidth == svg.viewWidth ==> r.0 == dx
    ensures svg.rectHeight == svg.viewHeight ==> r.1 == dy
  {
    UnitScale(dx, svg.rectWidth, svg.viewWidth);
    UnitScale(dy, svg.rectHeight, svg.viewHeight);
    ((dx / svg.rectWidth) * svg.viewWidth, (dy / svg.rectHeight) * svg.viewHeight)
  }

  /** A viewBox as large as the SVG's on-screen box scales by one. */
  lemma UnitScale(a: real, w: real, v: real)
    requires w > 0.0
    ensures v == w ==> (a / w) * v == a
  {
  }

  /** The position the element is drawn at for pointer `(px, py)`: its
      position at the press plus the pointer's displacement since then. */
  function Target(d: DragState, px: real, py: real): (r: (real, real))
    requires d.Dragging? && Hittable(d.svg)
    ensures px == d.clientX && py == d.clientY ==> r == (d.startX, d.startY)
  {
    var delta := ToViewBox(d.svg, px - d.clientX, py - d.clientY);
    (d.startX + delta.0, d.startY + delta.1)
  }

  /** The mouse-down handler: select the element, and start dragging it
      when the press landed inside an SVG and the element exists. */
  function MouseDown<E>(s: Store<E>, id: string, clientX: real, clientY: real, svg: Option<Svg>,
                        idOf: E -> string, posOf: E -> (real, real)): (r: (Store<E>, DragState))
    requires svg.Some? ==> Hittable(svg.value)
    ensures r.0 == Select(s, id)
    ensures r.1.Dragging? <==> svg.Some? && Collections.CountId(s.items, id, idOf) > 0
    ensures r.1.Dragging? ==>
              var e := Collections.FindById(s.items, id, idOf).value;
              && r.1 == Dragging(id, clientX, clientY, posOf(e).0, posOf(e).1, svg.value, None)
    ensures Ready(r.1)
  {
    var selected := Select(s, id);
    if svg.None? then (selected, Idle)
    else match Collections.FindById(s.items, id, idOf)
      case None => (selected, Idle)
      case Some(e) => (selected, Dragging(id, clientX, clientY, posOf(e).0, posOf(e).1, svg.value, None))
  }

  /** A pointer move: while dragging, it replaces the pending frame; after
      the release no listener is left. */
  function MouseMove(d: DragState, px: real, py: real): (r: DragState)
    ensures d.Idle? ==> r == Idle
    ensures d.Dragging? ==> r.Dragging? && r.pending == Some((px, py))
    ensures d.Dragging? ==> r.(pending := d.pending) == d
  {
    if d.Idle? then d else d.(pending := Some((px, py)))
  }

  /** Only the latest pointer of a burst of moves is ever drawn. */
  lemma LatestMoveWins(d: DragState, px1: real, py1: real, px2: real, py2: real)
    ensures MouseMove(MouseMove(d, px1, py1), px2, py2) == MouseMove(d, px2, py2)
  {
  }

  /** The pending animation frame runs: every element with the dragged id
      is placed at the target of the pending pointer. */
  function Frame<E>(s: Store<E>, d: DragState, idOf: E -> string, place: (E, real, real) -> E): (r: (Store<E>, DragState))
    requires Ready(d)
    ensures !(d.Dragging? && d.pending.Some?) ==> r == (s, d)
    ensures d.Dragging? && d.pending.Some? ==>
              var t := Target(d, d.pending.value.0, d.pending.value.1);
              && r.1 == d.(pending := None)
              && r.0.selected == s.selected && |r.0.items| == |s.items|
              && forall i :: 0 <= i < |s.items| ==>
                   r.0.items[i] == if idOf(s.items[i]) == d.id then place(s.items[i], t.0, t.1) else s.items[i]
    ensures Ready(r.1)
  {
    if d.Dragging? && d.pending.Some? then
      var t := Target(d, d.pending.value.0, d.pending.value.1);
      (Store(Collections.UpdateById(s.items, d.id, idOf, e => place(e, t.0, t.1)), s.selected),
       d.(pending := None))
    else (s, d)
  }

  /** The release: the pending frame is cancelled and the listeners go. */
  function MouseUp(d: DragState): (r: DragState)
    ensures r.Idle?
  {
    Idle
  }

  /** A move released before its frame ran never reaches the element. */
  lemma ReleaseDropsPendingMove<E>(s: Store<E>, d: DragState, px: real, py: real,
                                   idOf: E -> string, place: (E, real, real) -> E)
    requires Ready(d)
    ensures var u := MouseUp(MouseMove(d, px, py));
            Frame(s, u, idOf, place) == (s, Idle)
  {
  }

  /** Laws a position writer obeys: it keeps the id, a later write replaces
      an earlier one, and writing the current position changes nothing. */
  ghost predicate PlaceLaws<E(!new)>(idOf: E -> string, posOf: E -> (real, real), place: (E, real, real) -> E) {
    && (forall e, x, y :: idOf(place(e, x, y)) == idOf(e))
    && (forall e, x, y, x', y' :: place(place(e, x, y), x', y') == place(e, x', y'))
    && (forall e :: place(e, posOf(e).0, posOf(e).1) == e)
  }

  /** Dragging is absolute: after a frame for one pointer and a frame for a
      second, the store is as if only the second had been drawn. */
  lemma DragIsAbsolute<E(!new)>(s: Store<E>, d: DragState, px1: real, py1: real, px2: real, py2: real,
                          idOf: E -> string, posOf: E -> (real, real), place: (E, real, real) -> E)
    requires Ready(d) && d.Dragging? && PlaceLaws(idOf, posOf, place)
    ensures var first := Frame(s, MouseMove(d, px1, py1), idOf, place);
            Frame(first.0, MouseMove(first.1, px2, py2), idOf, place)
            == Frame(s, MouseMove(d, px2, py2), idOf, place)
  {
    var first := Frame(s, MouseMove(d, px1, py1), idOf, place);
    var second := Frame(first.0, MouseMove(first.1, px2, py2), idOf, place);
    var direct := Frame(s, MouseMove(d, px2, py2), idOf, place);
    var m := MouseMove(d, px2, py2);
    assert MouseMove(first.1, px2, py2) == m;
    var t := Target(m, px2, py2);
    assert |second.0.items| == |direct.0.items| == |s.items|;
    forall i | 0 <= i < |s.items|
      ensures second.0.items[i] == direct.0.items[i]
    {
      assert idOf(first.0.items[i]) == idOf(s.items[i]);
    }
    assert second.0.items == direct.0.items;
  }

  /** Moving the pointer back to where it was pressed and letting the frame
      run returns the element to its place: with unique ids the store ends
      as the press left it. */
  lemma BackToStart<E(!new)>(s: Store<E>, id: string, cx: real, cy: real, svg: Svg,
                       idOf: E -> string, posOf: E -> (real, real), place: (E, real, real) -> E)
    requires Hittable(svg) && PlaceLaws(idOf, posOf, place)
    requires Collections.UniqueIds(s.items, idOf)
    ensures var down := MouseDown(s, id, cx, cy, Some(svg), idOf, posOf);
            Frame(down.0, MouseMove(down.1, cx, cy), idOf, place).0 == Select(s, id)
  {
    var down := MouseDown(s, id, cx, cy, Some(svg), idOf, posOf);
    if down.1.Dragging? {
      var r := Frame(down.0, MouseMove(down.1, cx, cy), idOf, place).0;
      forall i | 0 <= i < |s.items|
        ensures r.items[i] == s.items[i]
      {
        if idOf(s.items[i]) == id {
          Collections.FindUnique(s.items, i, idOf);
        }
      }
    }
  }

  /** The text instance: a drag writes `{ x, y }` into the text. */
  function TextPos(t: Text): (real, real) { (t.x, t.y) }
  function TextPlace(t: Text, x: real, y: real): Text { t.(x := x, y := y) }

  function DotPos(d: Dot): (real, real) { (d.x, d.y) }
  function DotPlace(d: Dot, x: real, y: real): Dot { d.(x := x, y := y) }

  /** Both element kinds obey the position laws, and writing a position is
      the store's own `{ x, y }` update. */
  lemma ElementsObeyPlaceLaws(t: Text, d: Dot, x: real, y: real)
    ensures PlaceLaws(TextId, TextPos, TextPlace) && PlaceLaws(DotId, DotPos, DotPlace)
    ensures TextPlace(t, x, y) == MergeText(t, TextPatch(None, Some(x), Some(y), None, None, None, None, None))
    ensures DotPlace(d, x, y) == MergeDot(d, DotPatch(None, Some(x), Some(y), None, None, None))
  {
  }
}
