/** Freeform annotations placed on an image (`TextElement`, `DotElement`) and
    the two stores that hold them with a selected id (`TextProvider`,
    `DotProvider`). */
module Elements {
  import opened Wrappers
  import Collections

  /** A text label. `visible` is declared a boolean, but the readers test it
      defensively (`!== false`, truthiness, `!== undefined ? visible : true`) and
      those tests disagree on a missing value; the `Option` keeps a missing
      value apart from `false` so that each read can be modelled as written. */
  datatype Text = Text(
    id: string, x: real, y: real, text: string,
    fontSize: real, fontFamily: string, color: string, visible: Option<bool>)

  /** A standalone dot. */
  datatype Dot = Dot(id: string, x: real, y: real, size: real, color: string, visible: Option<bool>)

  /** `Partial<TextElement>`: a present field overrides, an absent one keeps. */
  datatype TextPatch = TextPatch(
    id: Option<string>, x: Option<real>, y: Option<real>, text: Option<string>,
    fontSize: Option<real>, fontFamily: Option<string>, color: Option<string>,
    visible: Option<bool>)

  /** `Partial<DotElement>`. */
  datatype DotPatch = DotPatch(
    id: Option<string>, x: Option<real>, y: Option<real>, size: Option<real>,
    color: Option<string>, visible: Option<bool>)

  /** The settings new texts are created with, and their initial values. */
  datatype TextSettings = TextSettings(fontSize: real, fontFamily: string, color: string, text: string)
  const DefaultTextSettings := TextSettings(75.0, "Arial", "#000000", "")

  /** The settings new dots are created with, and their initial values. */
  datatype DotSettings = DotSettings(size: real, color: string)
  const DefaultDotSettings := DotSettings(13.0, "#000000")

  /** A list of elements with at most one selected id. */
  datatype Store<E> = Store(items: seq<E>, selected: Option<string>)

  const EmptyTextStore: Store<Text> := Store([], None)
  const EmptyDotStore: Store<Dot> := Store([], None)

  function TextId(t: Text): string { t.id }
  function DotId(d: Dot): string { d.id }

  /** `{ ...t, ...p }`. */
  function MergeText(t: Text, p: TextPatch): Text {
    Text(p.id.GetOr(t.id), p.x.GetOr(t.x), p.y.GetOr(t.y), p.text.GetOr(t.text),
         p.fontSize.GetOr(t.fontSize), p.fontFamily.GetOr(t.fontFamily),
         p.color.GetOr(t.color), p.visible.Or(t.visible))
  }

  /** `{ ...d, ...p }`. */
  function MergeDot(d: Dot, p: DotPatch): Dot {
    Dot(p.id.GetOr(d.id), p.x.GetOr(d.x), p.y.GetOr(d.y), p.size.GetOr(d.size),
        p.color.GetOr(d.color), p.visible.Or(d.visible))
  }

  /** The patch `{ ...p, ...q }`: applying it equals applying `p` then `q`. */
  function ThenText(p: TextPatch, q: TextPatch): (r: TextPatch)
    ensures forall t :: MergeText(MergeText(t, p), q) == MergeText(t, r)
  {
    TextPatch(q.id.Or(p.id), q.x.Or(p.x), q.y.Or(p.y), q.text.Or(p.text),
              q.fontSize.Or(p.fontSize), q.fontFamily.Or(p.fontFamily),
              q.color.Or(p.color), q.visible.Or(p.visible))
  }

  /** The dot patch `{ ...p, ...q }`. */
  function ThenDot(p: DotPatch, q: DotPatch): (r: DotPatch)
    ensures forall d :: MergeDot(MergeDot(d, p), q) == MergeDot(d, r)
  {
    DotPatch(q.id.Or(p.id), q.x.Or(p.x), q.y.Or(p.y), q.size.Or(p.size),
             q.color.Or(p.color), q.visible.Or(p.visible))
  }

  /** `updateTextElement(id, p)`: every text with that id gets `p` merged in;
      the others, the order, the length and the selection stay. */
  function UpdateText(s: Store<Text>, id: string, p: TextPatch): (r: Store<Text>)
    ensures r.selected == s.selected && |r.items| == |s.items|
    ensures forall i :: 0 <= i < |s.items| ==>
      r.items[i] == (if s.items[i].id == id then MergeText(s.items[i], p) else s.items[i])
  {
    Store(Collections.UpdateById(s.items, id, TextId, t => MergeText(t, p)), s.selected)
  }

  /** `updateDotElement(id, p)`. */
  function UpdateDot(s: Store<Dot>, id: string, p: DotPatch): (r: Store<Dot>)
    ensures r.selected == s.selected && |r.items| == |s.items|
    ensures forall i :: 0 <= i < |s.items| ==>
      r.items[i] == (if s.items[i].id == id then MergeDot(s.items[i], p) else s.items[i])
  {
    Store(Collections.UpdateById(s.items, id, DotId, d => MergeDot(d, p)), s.selected)
  }

  /** `deleteTextElement` / `deleteDotElement`: drop every element with that id,
      and clear the selection exactly when it was that id. */
  function Delete<E>(s: Store<E>, id: string, idOf: E -> string): (r: Store<E>)
    ensures forall i :: 0 <= i < |r.items| ==> idOf(r.items[i]) != id
    ensures forall i :: 0 <= i < |s.items| && idOf(s.items[i]) != id ==> s.items[i] in r.items
    ensures |r.items| == |s.items| - Collections.CountId(s.items, id, idOf)
    ensures r.selected == (if s.selected == Some(id) then None else s.selected)
  {
    Store(Collections.RemoveById(s.items, id, idOf),
          if s.selected == Some(id) then None else s.selected)
  }

  /** `selectTextElement` / `selectDotElement`: only the selection changes. */
  function Select<E>(s: Store<E>, id: string): (r: Store<E>)
    ensures r.items == s.items && r.selected == Some(id)
  {
    Store(s.items, Some(id))
  }

  /** `clearTexts` / `clearDots`. */
  function Clear<E>(s: Store<E>): (r: Store<E>)
    ensures |r.items| == 0 && r.selected.None?
  {
    Store([], None)
  }

  /** Updating an unknown id leaves the store as it was. */
  lemma UpdateUnknownText(s: Store<Text>, id: string, p: TextPatch)
    requires forall i :: 0 <= i < |s.items| ==> s.items[i].id != id
    ensures UpdateText(s, id, p) == s
  {
    assert forall i :: 0 <= i < |s.items| ==> TextId(s.items[i]) != id;
    Collections.UpdateUnknownId(s.items, id, TextId, t => MergeText(t, p));
  }

  /** Updating an unknown dot id leaves the store as it was. */
  lemma UpdateUnknownDot(s: Store<Dot>, id: string, p: DotPatch)
    requires forall i :: 0 <= i < |s.items| ==> s.items[i].id != id
    ensures UpdateDot(s, id, p) == s
  {
    assert forall i :: 0 <= i < |s.items| ==> DotId(s.items[i]) != id;
    Collections.UpdateUnknownId(s.items, id, DotId, d => MergeDot(d, p));
  }

  /** Two updates of the same text merge like one update with both patches,
      as long as the first does not rename the element. */
  lemma UpdateTextTwice(s: Store<Text>, id: string, p: TextPatch, q: TextPatch)
    requires p.id.None?
    ensures UpdateText(UpdateText(s, id, p), id, q) == UpdateText(s, id, ThenText(p, q))
  {
    var a := UpdateText(UpdateText(s, id, p), id, q).items;
    var b := UpdateText(s, id, ThenText(p, q)).items;
    forall i | 0 <= i < |s.items|
      ensures a[i] == b[i]
    {
      if s.items[i].id == id {
        assert MergeText(s.items[i], p).id == id;
      }
    }
  }

  /** Deleting a text after updating it is the same as deleting it outright. */
  lemma DeleteAfterUpdateText(s: Store<Text>, id: string, p: TextPatch)
    requires p.id.None?
    ensures Delete(UpdateText(s, id, p), id, TextId) == Delete(s, id, TextId)
  {
    Collections.RemoveAfterUpdate(s.items, id, TextId, t => MergeText(t, p));
  }

  /** Deleting a dot after updating it is the same as deleting it outright. */
  lemma DeleteAfterUpdateDot(s: Store<Dot>, id: string, p: DotPatch)
    requires p.id.None?
    ensures Delete(UpdateDot(s, id, p), id, DotId) == Delete(s, id, DotId)
  {
    Collections.RemoveAfterUpdate(s.items, id, DotId, d => MergeDot(d, p));
  }

  /** Deleting an id nobody carries only affects the selection. */
  lemma DeleteUnknown<E>(s: Store<E>, id: string, idOf: E -> string)
    requires forall i :: 0 <= i < |s.items| ==> idOf(s.items[i]) != id
    ensures Delete(s, id, idOf).items == s.items
  {
    Collections.RemoveUnknownId(s.items, id, idOf);
  }
}
