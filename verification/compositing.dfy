/** What gets drawn for an image, as a list of draw commands rather than
    pixels: the export (`processImageWithDots`) and the on-screen preview of
    committed layers (`HistoryRenderer`). The two agree on visible layers
    whose elements have a defined visibility, and differ otherwise: export
    drops hidden layers entirely and keeps dots of undefined visibility,
    while the preview keeps a hidden layer's texts and dots, skips the
    layer being edited, and drops dots of undefined visibility. */
module Compositing {
  import opened Wrappers
  import opened Elements
  import opened Layers
  import opened Workspace

  /** One drawing step: the image itself, a filled circle, or a text. */
  datatype Draw =
    | Backdrop
    | Circle(cx: real, cy: real, radius: real, fill: string)
    | Label(text: string, x: real, y: real, fontSize: real, fontFamily: string, color: string)

  /** A generated dot is a black circle of half the layer's size. */
  function GridCircle(g: GridDot, size: real): Draw {
    Circle(g.cx, g.cy, size / 2.0, "black")
  }

  function TextLabel(t: Text): Draw {
    Label(t.text, t.x, t.y, t.fontSize, t.fontFamily, t.color)
  }

  function DotCircle(d: Dot): Draw {
    Circle(d.x, d.y, d.size / 2.0, d.color)
  }

  /** `visible === false` hides; `true` and undefined show. */
  predicate NotHidden(v: Option<bool>) {
    v.None? || v.value
  }

  /** A truthiness test on `visible`: only `true` shows. */
  predicate Truthy(v: Option<bool>) {
    v.Some? && v.value
  }

  /** `historyItem.standaloneDots || []`. */
  function LayerDots(l: Layer): seq<Dot> {
    l.standaloneDots.GetOr([])
  }

  /** The generated dots of a layer, in order. */
  function GridCircles(dots: seq<GridDot>, size: real): (r: seq<Draw>)
    ensures |r| == |dots|
    ensures forall i :: 0 <= i < |dots| ==> r[i] == GridCircle(dots[i], size)
  {
    seq(|dots|, i requires 0 <= i < |dots| => GridCircle(dots[i], size))
  }

  /** The texts that are not hidden, in order. */
  function Labels(ts: seq<Text>): (r: seq<Draw>)
    ensures |r| <= |ts|
    ensures forall i :: 0 <= i < |r| ==> r[i].Label?
  {
    if |ts| == 0 then []
    else (if NotHidden(ts[0].visible) then [TextLabel(ts[0])] else []) + Labels(ts[1..])
  }

  /** The dots that `shows` keeps, in order. */
  function DotCircles(ds: seq<Dot>, shows: Option<bool> -> bool): (r: seq<Draw>)
    ensures |r| <= |ds|
    ensures forall i :: 0 <= i < |r| ==> r[i].Circle?
  {
    if |ds| == 0 then []
    else (if shows(ds[0].visible) then [DotCircle(ds[0])] else []) + DotCircles(ds[1..], shows)
  }

  /** Which texts are drawn: every text that is not hidden, and no other. */
  lemma {:induction false} LabelsShowExactly(ts: seq<Text>)
    ensures forall i :: 0 <= i < |ts| && NotHidden(ts[i].visible) ==> TextLabel(ts[i]) in Labels(ts)
    ensures forall c :: c in Labels(ts) ==> exists i :: 0 <= i < |ts| && NotHidden(ts[i].visible) && c == TextLabel(ts[i])
    decreases |ts|
  {
    if |ts| > 0 {
      LabelsShowExactly(ts[1..]);
      assert forall i :: 1 <= i < |ts| ==> ts[i] == ts[1..][i - 1];
    }
  }

  /** When no text is hidden, every text is drawn, in order. */
  lemma {:induction false} LabelsAllShown(ts: seq<Text>)
    requires forall i :: 0 <= i < |ts| ==> NotHidden(ts[i].visible)
    ensures |Labels(ts)| == |ts|
    ensures forall i :: 0 <= i < |ts| ==> Labels(ts)[i] == TextLabel(ts[i])
    decreases |ts|
  {
    if |ts| > 0 {
      LabelsAllShown(ts[1..]);
    }
  }

  /** Which dots are drawn: those `shows` keeps, and no other. */
  lemma {:induction false} DotCirclesShowExactly(ds: seq<Dot>, shows: Option<bool> -> bool)
    ensures forall i :: 0 <= i < |ds| && shows(ds[i].visible) ==> DotCircle(ds[i]) in DotCircles(ds, shows)
    ensures forall c :: c in DotCircles(ds, shows) ==>
              exists i :: 0 <= i < |ds| && shows(ds[i].visible) && c == DotCircle(ds[i])
    decreases |ds|
  {
    if |ds| > 0 {
      DotCirclesShowExactly(ds[1..], shows);
      assert forall i :: 1 <= i < |ds| ==> ds[i] == ds[1..][i - 1];
    }
  }

  // ---------------------------------------------------------------------
  // Export

  /** One layer on export: nothing when hidden; otherwise its generated dots,
      then its texts, then its standalone dots. */
  function ExportLayer(l: Layer): (r: seq<Draw>)
    ensures !l.visible ==> r == []
  {
    if !l.visible then []
    else GridCircles(l.dots, l.size) + Labels(l.texts) + DotCircles(LayerDots(l), NotHidden)
  }

  /** Every layer of the history is hidden. */
  predicate AllHidden(h: seq<Layer>) {
    forall j :: 0 <= j < |h| ==> !h[j].visible
  }

  /** The layers in history order. */
  function ExportLayers(h: seq<Layer>): (r: seq<Draw>)
    ensures AllHidden(h) ==> r == []
  {
    if |h| == 0 then [] else ExportLayer(h[0]) + ExportLayers(h[1..])
  }

  /** The whole export of an image: the image, its layers, then its current
      texts and dots. The editor's own texts and dots are passed in by the
      caller and not used. */
  function ExportCommands(img: Image, editorTexts: seq<Text>, editorDots: seq<Dot>): (r: seq<Draw>)
    ensures |r| >= 1 && r[0] == Backdrop
    ensures forall i :: 1 <= i < |r| ==> r[i] != Backdrop
  {
    var tail := ExportLayers(img.history) + Labels(img.currentTexts) + DotCircles(img.currentDots, NotHidden);
    NoBackdropInLayers(img.history);
    [Backdrop] + tail
  }

  lemma {:induction false} NoBackdropInLayers(h: seq<Layer>)
    ensures forall i :: 0 <= i < |ExportLayers(h)| ==> ExportLayers(h)[i] != Backdrop
    decreases |h|
  {
    if |h| > 0 {
      NoBackdropInLayers(h[1..]);
    }
  }

  /** The export layers of a concatenation are the concatenated exports. */
  lemma {:induction false} ExportLayersConcat(a: seq<Layer>, b: seq<Layer>)
    ensures ExportLayers(a + b) == ExportLayers(a) + ExportLayers(b)
    decreases |a|
  {
    if |a| == 0 {
      assert a + b == b;
    } else {
      var t := a[1..];
      ConsSplit(a, b);
      ExportLayersCons(a[0], t + b);
      ExportLayersCons(a[0], t);
      ExportLayersConcat(t, b);
      ShiftHead(ExportLayers(a + b), ExportLayers(t + b), ExportLayers(a),
                ExportLayer(a[0]), ExportLayers(t), ExportLayers(b));
    }
  }

  lemma ExportLayersCons(l: Layer, rest: seq<Layer>)
    ensures ExportLayers([l] + rest) == ExportLayer(l) + ExportLayers(rest)
  {
    assert ([l] + rest)[0] == l && ([l] + rest)[1..] == rest;
  }

  /** Each layer contributes its own commands, in history order. */
  lemma ExportSplitsAt(h: seq<Layer>, k: nat)
    requires k < |h|
    ensures ExportLayers(h) == ExportLayers(h[..k]) + ExportLayer(h[k]) + ExportLayers(h[k + 1..])
  {
    SplitAt(h, k);
    ExportAround(h[..k], h[k], h[k + 1..]);
  }

  /** Hiding one layer removes exactly that layer's commands from the export
      and leaves the rest as they were. */
  lemma HidingRemovesLayer(h: seq<Layer>, k: nat)
    requires k < |h|
    ensures ExportLayers(h[k := h[k].(visible := false)]) == ExportLayers(h[..k]) + ExportLayers(h[k + 1..])
  {
    var l := h[k].(visible := false);
    assert h[k := l] == h[..k] + ([l] + h[k + 1..]) by {
      SplitAt(h[k := l], k);
      assert h[k := l][..k] == h[..k] && h[k := l][k + 1..] == h[k + 1..];
    }
    HiddenAround(h[..k], l, h[k + 1..]);
  }

  lemma HiddenAround(pre: seq<Layer>, l: Layer, post: seq<Layer>)
    requires !l.visible
    ensures ExportLayers(pre + ([l] + post)) == ExportLayers(pre) + ExportLayers(post)
  {
    var a, b, c := ExportLayers(pre), ExportLayer(l), ExportLayers(post);
    assert b == [];
    assert ExportLayers(pre + ([l] + post)) == a + b + c by { ExportAround(pre, l, post); }
    DropEmpty(a, b, c);
  }

  lemma DropEmpty<T>(a: seq<T>, b: seq<T>, c: seq<T>)
    requires b == []
    ensures a + b + c == a + c
  {
  }

  /** A non-empty list is its first element in front of the rest, also
      when something follows it. */
  lemma ConsSplit<T>(a: seq<T>, b: seq<T>)
    requires |a| > 0
    ensures a == [a[0]] + a[1..] && a + b == [a[0]] + (a[1..] + b)
  {
  }

  /** A head in front of two pieces may be grouped with the first. */
  lemma ShiftHead<T>(x: seq<T>, y: seq<T>, z: seq<T>, h: seq<T>, p: seq<T>, q: seq<T>)
    requires x == h + y && y == p + q && z == h + p
    ensures x == z + q
  {
    Regroup3(h, p, q);
  }

  /** Three pieces found one after another make up the whole. */
  lemma Chain3<T>(x: seq<T>, y: seq<T>, z: seq<T>, a: seq<T>, b: seq<T>, c: seq<T>)
    requires x == a + y && y == b + z && z == c
    ensures x == a + b + c
  {
    Regroup3(a, b, c);
  }

  /** Regrouping a three-part concatenation. */
  lemma Regroup3<T>(a: seq<T>, b: seq<T>, c: seq<T>)
    ensures a + (b + c) == a + b + c
  {
  }

  lemma ExportAround(pre: seq<Layer>, l: Layer, post: seq<Layer>)
    ensures ExportLayers(pre + ([l] + post)) == ExportLayers(pre) + ExportLayer(l) + ExportLayers(post)
  {
    var a, b, c := ExportLayers(pre), ExportLayer(l), ExportLayers(post);
    assert ExportLayers(pre + ([l] + post)) == a + ExportLayers([l] + post) by {
      ExportLayersConcat(pre, [l] + post);
    }
    assert ExportLayers([l] + post) == b + c by { ExportLayersCons(l, post); }
    Regroup3(a, b, c);
  }

  /** The export does not depend on the texts and dots the caller passes. */
  lemma ExportIgnoresEditorElements(img: Image, t1: seq<Text>, d1: seq<Dot>, t2: seq<Text>, d2: seq<Dot>)
    ensures ExportCommands(img, t1, d1) == ExportCommands(img, t2, d2)
  {
  }

  // ---------------------------------------------------------------------
  // The visible-element lists (`getVisible*ForImage`)

  /** The generated dots of the visible layers, in history order. */
  function VisibleGridDots(h: seq<Layer>): (r: seq<GridDot>)
    ensures forall g :: g in r <==> exists k :: 0 <= k < |h| && h[k].visible && g in h[k].dots
  {
    if |h| == 0 then []
    else
      var rest := VisibleGridDots(h[1..]);
      assert forall k :: 1 <= k < |h| ==> h[k] == h[1..][k - 1];
      (if h[0].visible then h[0].dots else []) + rest
  }

  /** The texts of the visible layers, in history order. */
  function VisibleTexts(h: seq<Layer>): (r: seq<Text>)
    ensures forall t :: t in r <==> exists k :: 0 <= k < |h| && h[k].visible && t in h[k].texts
  {
    if |h| == 0 then []
    else
      var rest := VisibleTexts(h[1..]);
      assert forall k :: 1 <= k < |h| ==> h[k] == h[1..][k - 1];
      (if h[0].visible then h[0].texts else []) + rest
  }

  /** The standalone dots of the visible layers, a missing list counting as
      empty. */
  function VisibleStandaloneDots(h: seq<Layer>): (r: seq<Dot>)
    ensures forall d :: d in r <==> exists k :: 0 <= k < |h| && h[k].visible && d in LayerDots(h[k])
  {
    if |h| == 0 then []
    else
      var rest := VisibleStandaloneDots(h[1..]);
      assert forall k :: 1 <= k < |h| ==> h[k] == h[1..][k - 1];
      (if h[0].visible then LayerDots(h[0]) else []) + rest
  }

  /** The text commands of a list of commands. */
  function LabelsOf(cs: seq<Draw>): (r: seq<Draw>)
    ensures forall i :: 0 <= i < |r| ==> r[i].Label?
    ensures |r| <= |cs|
  {
    if |cs| == 0 then []
    else (if cs[0].Label? then [cs[0]] else []) + LabelsOf(cs[1..])
  }

  /** The circle commands of a list of commands. */
  function CirclesOf(cs: seq<Draw>): (r: seq<Draw>)
    ensures forall i :: 0 <= i < |r| ==> r[i].Circle?
    ensures |r| <= |cs|
  {
    if |cs| == 0 then []
    else (if cs[0].Circle? then [cs[0]] else []) + CirclesOf(cs[1..])
  }

  lemma {:induction false} LabelsOfConcat(a: seq<Draw>, b: seq<Draw>)
    ensures LabelsOf(a + b) == LabelsOf(a) + LabelsOf(b)
    decreases |a|
  {
    if |a| == 0 {
      assert a + b == b;
    } else {
      assert (a + b)[0] == a[0] && (a + b)[1..] == a[1..] + b;
      LabelsOfConcat(a[1..], b);
    }
  }

  lemma {:induction false} CirclesOfConcat(a: seq<Draw>, b: seq<Draw>)
    ensures CirclesOf(a + b) == CirclesOf(a) + CirclesOf(b)
    decreases |a|
  {
    if |a| == 0 {
      assert a + b == b;
    } else {
      assert (a + b)[0] == a[0] && (a + b)[1..] == a[1..] + b;
      CirclesOfConcat(a[1..], b);
    }
  }

  lemma {:induction false} LabelsConcat(a: seq<Text>, b: seq<Text>)
    ensures Labels(a + b) == Labels(a) + Labels(b)
    decreases |a|
  {
    if |a| == 0 {
      assert a + b == b;
    } else {
      assert (a + b)[0] == a[0] && (a + b)[1..] == a[1..] + b;
      LabelsConcat(a[1..], b);
    }
  }

  lemma {:induction false} DotCirclesConcat(a: seq<Dot>, b: seq<Dot>, shows: Option<bool> -> bool)
    ensures DotCircles(a + b, shows) == DotCircles(a, shows) + DotCircles(b, shows)
    decreases |a|
  {
    if |a| == 0 {
      assert a + b == b;
    } else {
      assert (a + b)[0] == a[0] && (a + b)[1..] == a[1..] + b;
      DotCirclesConcat(a[1..], b, shows);
    }
  }

  /** Filtering a uniform list: all texts or no texts. */
  lemma {:induction false} OnlyLabels(cs: seq<Draw>)
    requires forall i :: 0 <= i < |cs| ==> cs[i].Label?
    ensures LabelsOf(cs) == cs && CirclesOf(cs) == []
    decreases |cs|
  {
    if |cs| > 0 {
      OnlyLabels(cs[1..]);
    }
  }

  lemma {:induction false} OnlyCircles(cs: seq<Draw>)
    requires forall i :: 0 <= i < |cs| ==> cs[i].Circle?
    ensures LabelsOf(cs) == [] && CirclesOf(cs) == cs
    decreases |cs|
  {
    if |cs| > 0 {
      OnlyCircles(cs[1..]);
    }
  }

  /** Circles, then labels, then circles: the two filters take the parts
      apart again. */
  lemma CirclesLabelsCircles(g: seq<Draw>, t: seq<Draw>, d: seq<Draw>)
    requires forall i :: 0 <= i < |g| ==> g[i].Circle?
    requires forall i :: 0 <= i < |t| ==> t[i].Label?
    requires forall i :: 0 <= i < |d| ==> d[i].Circle?
    ensures CirclesOf(g + t + d) == g + d && LabelsOf(g + t + d) == t
  {
    var gt := g + t;
    OnlyCircles(g);
    OnlyLabels(t);
    OnlyCircles(d);
    CirclesOfConcat(g, t);
    LabelsOfConcat(g, t);
    assert CirclesOf(gt) == g by { assert g + [] == g; }
    assert LabelsOf(gt) == t by { assert [] + t == t; }
    CirclesOfConcat(gt, d);
    LabelsOfConcat(gt, d);
    assert LabelsOf(gt + d) == t by { assert t + [] == t; }
  }

  /** The texts drawn by one layer's export are the layer's shown texts when
      it is visible, and none otherwise. */
  lemma LayerLabels(l: Layer)
    ensures LabelsOf(ExportLayer(l)) == Labels(if l.visible then l.texts else [])
  {
    if l.visible {
      CirclesLabelsCircles(GridCircles(l.dots, l.size), Labels(l.texts), DotCircles(LayerDots(l), NotHidden));
    }
  }

  /** The circles of one layer's export are its generated dots followed by
      its shown standalone dots when it is visible, and none otherwise. */
  lemma LayerCircles(l: Layer)
    ensures CirclesOf(ExportLayer(l))
            == if l.visible then GridCircles(l.dots, l.size) + DotCircles(LayerDots(l), NotHidden) else []
  {
    if l.visible {
      CirclesLabelsCircles(GridCircles(l.dots, l.size), Labels(l.texts), DotCircles(LayerDots(l), NotHidden));
    }
  }

  /** The texts the export draws from the layers are exactly the shown
      texts of `getVisibleTextsForImage`, in the same order. */
  lemma {:induction false} LayerLabelsAreVisibleTexts(h: seq<Layer>)
    ensures LabelsOf(ExportLayers(h)) == Labels(VisibleTexts(h))
    decreases |h|
  {
    if |h| > 0 {
      LayerLabelsAreVisibleTexts(h[1..]);
      LabelsOfConcat(ExportLayer(h[0]), ExportLayers(h[1..]));
      LayerLabels(h[0]);
      LabelsConcat(if h[0].visible then h[0].texts else [], VisibleTexts(h[1..]));
    }
  }

  /** Every text of the export, in order: the shown texts of the visible
      layers followed by the image's shown current texts. */
  lemma ExportLabels(img: Image, editorTexts: seq<Text>, editorDots: seq<Dot>)
    ensures LabelsOf(ExportCommands(img, editorTexts, editorDots)) == Labels(VisibleTexts(img.history) + img.currentTexts)
  {
    var layers := ExportLayers(img.history);
    var t := Labels(img.currentTexts);
    var d := DotCircles(img.currentDots, NotHidden);
    assert ExportCommands(img, editorTexts, editorDots) == [Backdrop] + (layers + t + d);
    LabelsOfConcat([Backdrop], layers + t + d);
    LabelsOfConcat(layers + t, d);
    LabelsOfConcat(layers, t);
    OnlyLabels(t);
    OnlyCircles(d);
    LayerLabelsAreVisibleTexts(img.history);
    LabelsConcat(VisibleTexts(img.history), img.currentTexts);
  }

  /** The export draws one circle per generated dot of a visible layer and
      one per shown standalone dot of a visible layer. */
  lemma {:induction false} LayerCircleCount(h: seq<Layer>)
    ensures |CirclesOf(ExportLayers(h))|
            == |VisibleGridDots(h)| + |DotCircles(VisibleStandaloneDots(h), NotHidden)|
    decreases |h|
  {
    if |h| > 0 {
      LayerCircleCount(h[1..]);
      CirclesOfConcat(ExportLayer(h[0]), ExportLayers(h[1..]));
      LayerCircles(h[0]);
      DotCirclesConcat(if h[0].visible then LayerDots(h[0]) else [], VisibleStandaloneDots(h[1..]), NotHidden);
    }
  }

  // ---------------------------------------------------------------------
  // Preview

  /** No command redraws the image itself. */
  predicate NoBackdrop(r: seq<Draw>) {
    forall i :: 0 <= i < |r| ==> !r[i].Backdrop?
  }

  /** Every text that is not hidden has its label among the commands. */
  predicate ShowsTexts(ts: seq<Text>, r: seq<Draw>) {
    forall i :: 0 <= i < |ts| && NotHidden(ts[i].visible) ==> TextLabel(ts[i]) in r
  }

  /** One committed layer on screen: its generated dots only when visible,
      its texts and standalone dots whatever the layer's visibility. */
  function PreviewLayer(l: Layer): seq<Draw> {
    (if l.visible then GridCircles(l.dots, l.size) else [])
    + Labels(l.texts) + DotCircles(LayerDots(l), Truthy)
  }

  /** The layers in history order, except the one at `editIndex`; the
      index counts down as the list is walked. */
  function Preview(h: seq<Layer>, editIndex: int): seq<Draw> {
    if |h| == 0 then []
    else (if editIndex == 0 then [] else PreviewLayer(h[0])) + Preview(h[1..], editIndex - 1)
  }

  lemma {:induction false} PreviewConcat(a: seq<Layer>, b: seq<Layer>, editIndex: int)
    ensures Preview(a + b, editIndex) == Preview(a, editIndex) + Preview(b, editIndex - |a|)
    decreases |a|
  {
    if |a| == 0 {
      assert a + b == b;
    } else {
      var t := a[1..];
      ConsSplit(a, b);
      var head: seq<Draw> := if editIndex == 0 then [] else PreviewLayer(a[0]);
      PreviewCons(a[0], t + b, editIndex);
      PreviewCons(a[0], t, editIndex);
      PreviewConcat(t, b, editIndex - 1);
      assert editIndex - 1 - |t| == editIndex - |a|;
      ShiftHead(Preview(a + b, editIndex), Preview(t + b, editIndex - 1), Preview(a, editIndex),
                head, Preview(t, editIndex - 1), Preview(b, editIndex - |a|));
    }
  }

  /** On screen every text of a layer that is not hidden is drawn, whatever
      the layer's own visibility, and the image itself is never redrawn. */
  lemma PreviewLayerShows(l: Layer)
    ensures ShowsTexts(l.texts, PreviewLayer(l))
    ensures NoBackdrop(PreviewLayer(l))
  {
    var g: seq<Draw> := if l.visible then GridCircles(l.dots, l.size) else [];
    var t := Labels(l.texts);
    var d := DotCircles(LayerDots(l), Truthy);
    assert PreviewLayer(l) == g + t + d;
    LabelsShowExactly(l.texts);
    forall i | 0 <= i < |l.texts| && NotHidden(l.texts[i].visible)
      ensures TextLabel(l.texts[i]) in PreviewLayer(l)
    {
      assert TextLabel(l.texts[i]) in t;
    }
    forall i | 0 <= i < |g + t + d|
      ensures !(g + t + d)[i].Backdrop?
    {
      if i < |g| {
      } else if i < |g| + |t| {
        assert (g + t + d)[i] == t[i - |g|];
      } else {
        assert (g + t + d)[i] == d[i - |g| - |t|];
      }
    }
  }

  /** The preview of a history never redraws the image itself. */
  lemma {:induction false} PreviewNoBackdrop(h: seq<Layer>, editIndex: int)
    ensures NoBackdrop(Preview(h, editIndex))
    decreases |h|
  {
    if |h| > 0 {
      var head: seq<Draw> := if editIndex == 0 then [] else PreviewLayer(h[0]);
      if editIndex != 0 {
        PreviewLayerShows(h[0]);
      }
      PreviewNoBackdrop(h[1..], editIndex - 1);
      assert Preview(h, editIndex) == head + Preview(h[1..], editIndex - 1);
      ConcatNoBackdrop(head, Preview(h[1..], editIndex - 1));
    }
  }

  /** Two command lists that leave the image alone leave it alone together. */
  lemma ConcatNoBackdrop(a: seq<Draw>, b: seq<Draw>)
    requires NoBackdrop(a) && NoBackdrop(b)
    ensures NoBackdrop(a + b)
  {
    forall i | 0 <= i < |a + b|
      ensures !(a + b)[i].Backdrop?
    {
      if i >= |a| {
        assert (a + b)[i] == b[i - |a|];
      }
    }
  }

  /** Every layer on screen, none skipped. */
  function PreviewAll(h: seq<Layer>): seq<Draw> {
    if |h| == 0 then [] else PreviewLayer(h[0]) + PreviewAll(h[1..])
  }

  /** An index that names no layer skips nothing. */
  lemma {:induction false} SkipsNone(h: seq<Layer>, e: int)
    requires e < 0 || e >= |h|
    ensures Preview(h, e) == PreviewAll(h)
    decreases |h|
  {
    if |h| > 0 {
      ConsSplit(h, []);
      PreviewCons(h[0], h[1..], e);
      SkipsNone(h[1..], e - 1);
    }
  }

  /** An index that names no layer (-1, or past the end) skips nothing. */
  lemma PreviewSkipsNothing(h: seq<Layer>, e: int, e': int)
    requires e < 0 || e >= |h|
    requires e' < 0 || e' >= |h|
    ensures Preview(h, e) == Preview(h, e')
  {
    SkipsNone(h, e);
    SkipsNone(h, e');
  }

  lemma PreviewCons(l: Layer, rest: seq<Layer>, editIndex: int)
    ensures Preview([l] + rest, editIndex)
            == (if editIndex == 0 then [] else PreviewLayer(l)) + Preview(rest, editIndex - 1)
  {
    assert ([l] + rest)[0] == l && ([l] + rest)[1..] == rest;
  }

  /** A list is what comes before position `k`, the element at `k`, and
      what comes after. */
  lemma SplitAt<T>(h: seq<T>, k: nat)
    requires k < |h|
    ensures h == h[..k] + ([h[k]] + h[k + 1..])
  {
  }

  /** The layer being edited is left out. */
  lemma PreviewSkipsEdited(h: seq<Layer>, k: nat)
    requires k < |h|
    ensures Preview(h, k) == Preview(h[..k], -1) + Preview(h[k + 1..], -1)
  {
    var pre, post := h[..k], h[k + 1..];
    var m := [h[k]] + post;
    SplitAt(h, k);
    assert Preview(h, k) == Preview(pre, k) + Preview(m, 0) by { PreviewConcat(pre, m, k); }
    assert Preview(m, 0) == Preview(post, -1) by {
      PreviewCons(h[k], post, 0);
      assert [] + Preview(post, -1) == Preview(post, -1);
    }
    assert Preview(pre, k) == Preview(pre, -1) by { PreviewSkipsNothing(pre, k, -1); }
  }

  /** With nothing being edited, every layer is drawn: the edited layer's
      commands are exactly what the skip leaves out. */
  lemma PreviewKeepsAll(h: seq<Layer>, k: nat)
    requires k < |h|
    ensures Preview(h, -1) == Preview(h[..k], -1) + PreviewLayer(h[k]) + Preview(h[k + 1..], -1)
  {
    SplitAt(h, k);
    PreviewAround(h[..k], h[k], h[k + 1..]);
  }

  lemma PreviewAround(pre: seq<Layer>, l: Layer, post: seq<Layer>)
    ensures Preview(pre + ([l] + post), -1) == Preview(pre, -1) + PreviewLayer(l) + Preview(post, -1)
  {
    var m, e := [l] + post, -1 - |pre|;
    var a, b, c := Preview(pre, -1), PreviewLayer(l), Preview(post, -1);
    PreviewConcat(pre, m, -1);
    PreviewCons(l, post, e);
    PreviewSkipsNothing(post, -1, e - 1);
    Chain3(Preview(pre + m, -1), Preview(m, e), Preview(post, e - 1), a, b, c);
  }

  /** Where the two renderers agree: on visible layers whose standalone dots
      all have a defined visibility, the preview with nothing being edited
      draws exactly what the export draws for the layers. */
  lemma {:induction false} PreviewMatchesExport(h: seq<Layer>)
    requires forall k :: 0 <= k < |h| ==> h[k].visible
    requires forall k, i :: 0 <= k < |h| && 0 <= i < |LayerDots(h[k])| ==> LayerDots(h[k])[i].visible.Some?
    ensures Preview(h, -1) == ExportLayers(h)
    decreases |h|
  {
    if |h| > 0 {
      var ds := LayerDots(h[0]);
      SameDotFilter(ds);
      assert forall k :: 1 <= k < |h| ==> h[1..][k - 1] == h[k];
      PreviewSkipsNothing(h[1..], -2, -1);
      PreviewMatchesExport(h[1..]);
    }
  }

  /** On dots of defined visibility the two dot filters agree. */
  lemma {:induction false} SameDotFilter(ds: seq<Dot>)
    requires forall i :: 0 <= i < |ds| ==> ds[i].visible.Some?
    ensures DotCircles(ds, Truthy) == DotCircles(ds, NotHidden)
    decreases |ds|
  {
    if |ds| > 0 {
      SameDotFilter(ds[1..]);
    }
  }

  /** Where they differ: a hidden layer exports nothing, yet its texts stay
      on screen. */
  lemma HiddenLayerTextsStayOnScreen(l: Layer)
    requires !l.visible
    ensures ExportLayer(l) == []
    ensures LabelsOf(PreviewLayer(l)) == Labels(l.texts)
  {
    var t := Labels(l.texts);
    var d := DotCircles(LayerDots(l), Truthy);
    var g: seq<Draw> := [];
    assert PreviewLayer(l) == g + t + d;
    assert g + t == t;
    OnlyLabels(t);
    OnlyCircles(d);
    LabelsOfConcat(t, d);
  }

  /** A dot of undefined visibility is exported but not shown on screen. */
  lemma UndefinedDotVisibility(d: Dot)
    requires d.visible.None?
    ensures DotCircles([d], NotHidden) == [DotCircle(d)]
    ensures DotCircles([d], Truthy) == []
  {
  }
}
