/** Numbering-label settings of a layer's dots (the hash panel): per-layer
    values in the layer settings, per-dot overrides on the dots, how the
    panel resolves the value it shows, and the edits it writes back into the
    active image's history. Only the data is modelled; no label is drawn. */
module Numbering {
  import opened Wrappers
  import opened Layers

  const DefaultFontSize := 12.0
  const DefaultOffset := 5.0
  const DefaultColor := "#000000"
  const DefaultPosition := Top

  /** One numbering control of the panel, with its new value. */
  datatype HashEdit =
    | FontSize(size: real)
    | Offset(offset: real)
    | Color(color: string)
    | Place(position: Position)

  /** The value shown for a dot: its override, else the layer's (`??`),
      else the default. */
  function DotFontSize(d: GridDot, st: LayerSettings): real {
    d.hashFontSize.GetOr(st.hashFontSize.GetOr(DefaultFontSize))
  }
  function DotOffset(d: GridDot, st: LayerSettings): real {
    d.hashOffset.GetOr(st.hashOffset.GetOr(DefaultOffset))
  }
  function DotColor(d: GridDot, st: LayerSettings): string {
    d.hashColor.GetOr(st.hashColor.GetOr(DefaultColor))
  }
  function DotPosition(d: GridDot, st: LayerSettings): Position {
    d.hashPosition.GetOr(st.hashPosition.GetOr(DefaultPosition))
  }

  /** The values shown for the layer itself use `||`, so a zero size or
      offset and an empty colour also fall back to the default. */
  function LayerFontSize(st: LayerSettings): real {
    if st.hashFontSize.None? || st.hashFontSize.value == 0.0 then DefaultFontSize else st.hashFontSize.value
  }
  function LayerOffset(st: LayerSettings): real {
    if st.hashOffset.None? || st.hashOffset.value == 0.0 then DefaultOffset else st.hashOffset.value
  }
  function LayerColor(st: LayerSettings): string {
    if st.hashColor.None? || st.hashColor.value == "" then DefaultColor else st.hashColor.value
  }
  function LayerEnabled(st: LayerSettings): bool {
    st.hashEnabled.GetOr(false)
  }

  /** A zero layer offset is where the two fallbacks part: the layer view
      shows the default 5 while a dot without its own offset resolves to 0. */
  lemma ZeroOffsetFallbacks(d: GridDot, st: LayerSettings)
    requires st.hashOffset == Some(0.0) && d.hashOffset.None?
    ensures LayerOffset(st) == DefaultOffset && DotOffset(d, st) == 0.0
  {
  }

  /** Wherever the layer has a non-zero value, the two fallbacks agree for
      dots without an override. */
  lemma FallbacksAgree(d: GridDot, st: LayerSettings)
    requires d.hashOffset.None? && d.hashFontSize.None?
    requires st.hashOffset != Some(0.0) && st.hashFontSize != Some(0.0)
    ensures DotOffset(d, st) == LayerOffset(st) && DotFontSize(d, st) == LayerFontSize(st)
  {
  }

  /** The dot row's highlight: a dot is customised when it overrides the
      size, the offset or the colour; its position does not count. */
  predicate HasCustomSettings(d: GridDot)
    ensures HasCustomSettings(d) <==> d != d.(hashFontSize := None, hashOffset := None, hashColor := None)
  {
    d.hashFontSize.Some? || d.hashOffset.Some? || d.hashColor.Some?
  }

  /** Clicking a dot row: clicking the selected row deselects it. */
  function SelectDot(current: Option<nat>, clicked: nat): (r: Option<nat>)
    ensures r.Some? <==> current != Some(clicked)
    ensures r.Some? ==> r.value == clicked
  {
    if current == Some(clicked) then None else Some(clicked)
  }

  /** Clicking the same row twice returns to the start whenever the row was
      selected or nothing was. */
  lemma SelectDotTwice(current: Option<nat>, clicked: nat)
    requires current.None? || current == Some(clicked)
    ensures SelectDot(SelectDot(current, clicked), clicked) == current
  {
  }

  function SetDotField(d: GridDot, e: HashEdit): GridDot {
    match e
    case FontSize(v) => d.(hashFontSize := Some(v))
    case Offset(v) => d.(hashOffset := Some(v))
    case Color(v) => d.(hashColor := Some(v))
    case Place(v) => d.(hashPosition := Some(v))
  }

  function SetLayerField(st: LayerSettings, e: HashEdit): LayerSettings {
    match e
    case FontSize(v) => st.(hashFontSize := Some(v))
    case Offset(v) => st.(hashOffset := Some(v))
    case Color(v) => st.(hashColor := Some(v))
    case Place(v) => st.(hashPosition := Some(v))
  }

  /** Whether `d` shows the value `e` writes, once resolved against `st`. */
  predicate Shows(d: GridDot, st: LayerSettings, e: HashEdit) {
    match e
    case FontSize(v) => DotFontSize(d, st) == v
    case Offset(v) => DotOffset(d, st) == v
    case Color(v) => DotColor(d, st) == v
    case Place(v) => DotPosition(d, st) == v
  }

  /** Whether `d` overrides the field `e` writes. */
  predicate Overrides(d: GridDot, e: HashEdit) {
    match e
    case FontSize(_) => d.hashFontSize.Some?
    case Offset(_) => d.hashOffset.Some?
    case Color(_) => d.hashColor.Some?
    case Place(_) => d.hashPosition.Some?
  }

  /** The dot selection of the panel names an existing dot of the layer
      whenever both exist. */
  predicate DotInRange(history: seq<Layer>, layer: nat, dot: Option<nat>) {
    dot.Some? && layer < |history| ==> dot.value < |history[layer].dots|
  }

  /** A size, offset, colour or position change. With a dot selected it
      writes that dot's override, which the dot then shows; without one it
      writes the layer setting, which every dot without its own override
      then shows. Only layer `layer` changes, and nothing at all when it
      does not exist. */
  function ApplyHashEdit(history: seq<Layer>, layer: nat, dot: Option<nat>, e: HashEdit): (r: seq<Layer>)
    requires DotInRange(history, layer, dot)
    ensures |r| == |history|
    ensures forall j :: 0 <= j < |history| && j != layer ==> r[j] == history[j]
    ensures layer >= |history| ==> r == history
    ensures layer < |history| ==>
              r[layer].(dots := history[layer].dots, settings := history[layer].settings) == history[layer]
              && |r[layer].dots| == |history[layer].dots|
    ensures layer < |history| && dot.Some? ==>
              && r[layer].settings == history[layer].settings
              && Shows(r[layer].dots[dot.value], r[layer].settings, e)
              && (forall k :: 0 <= k < |history[layer].dots| && k != dot.value ==>
                    r[layer].dots[k] == history[layer].dots[k])
    ensures layer < |history| && dot.None? ==>
              && r[layer].dots == history[layer].dots
              && (forall k :: 0 <= k < |r[layer].dots| && !Overrides(r[layer].dots[k], e) ==>
                    Shows(r[layer].dots[k], r[layer].settings, e))
  {
    if layer >= |history| then history
    else
      var l := history[layer];
      if dot.Some? then
        history[layer := l.(dots := l.dots[dot.value := SetDotField(l.dots[dot.value], e)])]
      else
        history[layer := l.(settings := SetLayerField(l.settings, e))]
  }

  /** The numbering switch: writes the layer's `hashEnabled` and nothing else. */
  function ToggleHash(history: seq<Layer>, layer: nat, enabled: bool): (r: seq<Layer>)
    ensures |r| == |history|
    ensures forall j :: 0 <= j < |history| && j != layer ==> r[j] == history[j]
    ensures layer < |history| ==>
              && LayerEnabled(r[layer].settings) == enabled
              && r[layer].settings.(hashEnabled := history[layer].settings.hashEnabled) == history[layer].settings
              && r[layer].(settings := history[layer].settings) == history[layer]
  {
    if layer >= |history| then history
    else
      var l := history[layer];
      history[layer := l.(settings := l.settings.(hashEnabled := Some(enabled)))]
  }

  /** Drop a dot's size, offset and colour overrides; keep its position and
      coordinates. */
  function StripOverrides(d: GridDot): (r: GridDot)
    ensures !HasCustomSettings(r)
    ensures r.cx == d.cx && r.cy == d.cy && r.hashPosition == d.hashPosition
  {
    d.(hashFontSize := None, hashOffset := None, hashColor := None)
  }

  /** After stripping, a dot shows the layer's size, offset and colour. */
  lemma StrippedDotFollowsLayer(d: GridDot, st: LayerSettings)
    ensures var s := StripOverrides(d);
            && DotFontSize(s, st) == st.hashFontSize.GetOr(DefaultFontSize)
            && DotOffset(s, st) == st.hashOffset.GetOr(DefaultOffset)
            && DotColor(s, st) == st.hashColor.GetOr(DefaultColor)
            && DotPosition(s, st) == DotPosition(d, st)
  {
  }

  /** The trash button of dot row `dot` (`removeDotHash`). */
  function RemoveDotHash(history: seq<Layer>, layer: nat, dot: nat): (r: seq<Layer>)
    requires layer < |history| ==> dot < |history[layer].dots|
    ensures |r| == |history|
    ensures forall j :: 0 <= j < |history| && j != layer ==> r[j] == history[j]
    ensures layer < |history| ==>
              && r[layer].settings == history[layer].settings
              && |r[layer].dots| == |history[layer].dots|
              && !HasCustomSettings(r[layer].dots[dot])
              && (forall k :: 0 <= k < |r[layer].dots| && k != dot ==> r[layer].dots[k] == history[layer].dots[k])
  {
    if layer >= |history| then history
    else
      var l := history[layer];
      history[layer := l.(dots := l.dots[dot := StripOverrides(l.dots[dot])])]
  }

  /** The panel's own selection: the layer and the dot it edits. */
  datatype Panel = Panel(layer: nat, dot: Option<nat>)

  /** "Clear dot settings": strip the selected dot and deselect it. Without
      a selected dot, or without the layer, nothing happens. */
  function ClearDotSettings(history: seq<Layer>, p: Panel): (r: (seq<Layer>, Panel))
    requires DotInRange(history, p.layer, p.dot)
    ensures p.dot.None? || p.layer >= |history| ==> r == (history, p)
    ensures p.dot.Some? && p.layer < |history| ==>
              r.0 == RemoveDotHash(history, p.layer, p.dot.value) && r.1 == Panel(p.layer, None)
  {
    if p.dot.None? || p.layer >= |history| then (history, p)
    else (RemoveDotHash(history, p.layer, p.dot.value), Panel(p.layer, None))
  }

  /** Switching layers drops the dot selection. */
  function ChangeLayer(p: Panel, layer: nat): (r: Panel)
    ensures r.layer == layer && r.dot.None?
  {
    Panel(layer, None)
  }

  /** A dot-level edit followed by removing that dot's overrides leaves the
      dot showing the layer's values again, for size, offset and colour. */
  lemma EditThenRemove(history: seq<Layer>, layer: nat, dot: nat, e: HashEdit)
    requires layer < |history| && dot < |history[layer].dots|
    requires !e.Place?
    ensures var r := RemoveDotHash(ApplyHashEdit(history, layer, Some(dot), e), layer, dot);
            && r[layer].dots[dot] == StripOverrides(history[layer].dots[dot])
            && r[layer].settings == history[layer].settings
  {
  }
}
