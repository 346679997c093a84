/** The percentages and dot counts the history panels display: per layer of
    the active image (the local tab) and per image (the global tab). Both
    measure layers by the shoelace area of their outline, hidden layers
    included. */
module Shares {
  import opened Wrappers
  import opened Geometry
  import opened Layers
  import Allocation
  import Amount

  /** The outline area of every layer, in history order. */
  function LayerAreas(history: seq<Layer>): (areas: seq<real>)
    ensures |areas| == |history|
    ensures forall i :: 0 <= i < |history| ==> areas[i] == PolygonArea(history[i].settings.points)
    ensures forall i :: 0 <= i < |areas| ==> areas[i] >= 0.0
  {
    seq(|history|, i requires 0 <= i < |history| => PolygonArea(history[i].settings.points))
  }

  /** The local tab's `getPercentage(points)`: the outline's share of all the
      layers' area; `None` stands for the NaN a zero total produces. */
  function AreaPercentage(points: seq<Point>, history: seq<Layer>): (r: Option<int>)
    ensures r.None? <==> Allocation.SumReal(LayerAreas(history)) == 0.0
    ensures r.Some? ==>
              var share := PolygonArea(points) * 100.0 / Allocation.SumReal(LayerAreas(history));
              r.value as real - 0.5 <= share < r.value as real + 0.5
    ensures r.Some? ==> r.value >= 0
  {
    Allocation.SumRealNonNegative(LayerAreas(history));
    Allocation.Percentage(PolygonArea(points), LayerAreas(history))
  }

  /** A layer's own percentage lies between 0 and 100 whenever the total is
      positive, and is undefined exactly when the total is zero. */
  lemma LayerPercentageInRange(history: seq<Layer>, index: nat)
    requires index < |history|
    ensures AreaPercentage(history[index].settings.points, history).None?
            <==> Allocation.SumReal(LayerAreas(history)) == 0.0
    ensures Allocation.SumReal(LayerAreas(history)) != 0.0 ==>
              0 <= AreaPercentage(history[index].settings.points, history).value <= 100
  {
    var areas := LayerAreas(history);
    Allocation.SumRealNonNegative(areas);
    if Allocation.SumReal(areas) != 0.0 {
      Allocation.PercentageOfPartInRange(areas, index);
    }
  }

  /** Hiding or showing a layer changes no percentage. */
  lemma PercentageIgnoresVisibility(points: seq<Point>, history: seq<Layer>, k: nat)
    requires k < |history|
    ensures AreaPercentage(points, ToggleVisibility(history, k)) == AreaPercentage(points, history)
  {
    assert LayerAreas(ToggleVisibility(history, k)) == LayerAreas(history);
  }

  /** The percentages of all layers, defined when the total area is not zero. */
  function LayerPercentages(history: seq<Layer>): (r: Option<seq<int>>)
    ensures r.None? <==> Allocation.SumReal(LayerAreas(history)) == 0.0
    ensures r.Some? ==>
              && |r.value| == |history|
              && forall i :: 0 <= i < |history| ==>
                   Some(r.value[i]) == AreaPercentage(history[i].settings.points, history)
  {
    var areas := LayerAreas(history);
    if Allocation.SumReal(areas) == 0.0 then None
    else Some(seq(|history|, i requires 0 <= i < |history| =>
                  AreaPercentage(history[i].settings.points, history).value))
  }

  /** The count shown while hovering layer `index`:
      `calculateProportions(Number(amount), percentages)[index]`. */
  function HoverCount(amount: string, history: seq<Layer>, index: nat): (r: Option<int>)
    requires Amount.AllDigits(amount) && index < |history|
    ensures r.None? <==> LayerPercentages(history).None?
    ensures r.Some? ==>
              r.value == Allocation.Proportions(Amount.ParseDigits(amount), LayerPercentages(history).value)[index]
  {
    var ps := LayerPercentages(history);
    if ps.None? then None else Some(Allocation.Proportions(Amount.ParseDigits(amount), ps.value)[index])
  }

  /** Whenever the rounded percentages happen to add up to at most 100, the
      hover counts of all layers add up to the requested amount. */
  lemma HoverCountsAddUp(amount: string, history: seq<Layer>)
    requires Amount.AllDigits(amount) && |history| > 0
    requires LayerPercentages(history).Some?
    requires Allocation.Sum(LayerPercentages(history).value) <= 100
    ensures Allocation.Sum(Allocation.Proportions(Amount.ParseDigits(amount), LayerPercentages(history).value))
            == Amount.ParseDigits(amount)
  {
    var ps := LayerPercentages(history).value;
    forall i | 0 <= i < |ps|
      ensures ps[i] >= 0
    {
      LayerPercentageInRange(history, i);
    }
    Allocation.ProportionsWithinHundred(Amount.ParseDigits(amount), ps);
  }

  // ---------------------------------------------------------------------
  // The global tab

  /** An image's area: the sum of its layers' areas, hidden ones included. */
  function ImageArea(history: seq<Layer>): (a: real)
    ensures a >= 0.0
  {
    Allocation.SumRealNonNegative(LayerAreas(history));
    Allocation.SumReal(LayerAreas(history))
  }

  function ImageAreas(histories: seq<seq<Layer>>): (areas: seq<real>)
    ensures |areas| == |histories|
    ensures forall i :: 0 <= i < |histories| ==> areas[i] == ImageArea(histories[i])
  {
    seq(|histories|, i requires 0 <= i < |histories| => ImageArea(histories[i]))
  }

  /** Each image's rounded share of the area of all images; all zero when
      there is no area at all. */
  function ImagePercentages(histories: seq<seq<Layer>>): (ps: seq<int>)
    ensures |ps| == |histories|
    ensures forall i :: 0 <= i < |ps| ==> 0 <= ps[i] <= 100
    ensures Allocation.SumReal(ImageAreas(histories)) <= 0.0 ==> forall i :: 0 <= i < |ps| ==> ps[i] == 0
  {
    var areas := ImageAreas(histories);
    Allocation.ImageSharesInRange(areas);
    Allocation.ImageShares(areas)
  }

  /** The count shown for image `index`:
      `calculateProportions(Number(amount) || 0, percentages)[index]`. */
  function ImageCount(amount: string, histories: seq<seq<Layer>>, index: nat): (r: int)
    requires Amount.AllDigits(amount) && index < |histories|
    ensures r >= Allocation.Floors(Amount.ParseDigits(amount), ImagePercentages(histories))[index]
  {
    Allocation.Proportions(Amount.ParseDigits(amount), ImagePercentages(histories))[index]
  }

  /** The counts of every image, in image order. */
  function ImageCounts(amount: string, histories: seq<seq<Layer>>): (r: seq<int>)
    requires Amount.AllDigits(amount)
    ensures |r| == |histories|
    ensures forall i :: 0 <= i < |histories| ==> r[i] == ImageCount(amount, histories, i)
  {
    seq(|histories|, i requires 0 <= i < |histories| => ImageCount(amount, histories, i))
  }

  /** Whenever the rounded image percentages add up to at most 100, the
      counts of all images add up to the requested amount. */
  lemma ImageCountsAddUp(amount: string, histories: seq<seq<Layer>>)
    requires Amount.AllDigits(amount) && |histories| > 0
    requires Allocation.Sum(ImagePercentages(histories)) <= 100
    ensures Allocation.Sum(ImageCounts(amount, histories)) == Amount.ParseDigits(amount)
  {
    var ps := ImagePercentages(histories);
    Allocation.ProportionsWithinHundred(Amount.ParseDigits(amount), ps);
    assert ImageCounts(amount, histories) == Allocation.Proportions(Amount.ParseDigits(amount), ps);
  }

  /** Toggling a layer's visibility changes no image's area. */
  lemma ImageAreaIgnoresVisibility(history: seq<Layer>, k: nat)
    requires k < |history|
    ensures ImageArea(ToggleVisibility(history, k)) == ImageArea(history)
  {
    assert LayerAreas(ToggleVisibility(history, k)) == LayerAreas(history);
  }

  /** With no area anywhere, the whole amount is shown on the first image. */
  lemma NoAreaGoesToFirstImage(amount: string, histories: seq<seq<Layer>>)
    requires Amount.AllDigits(amount) && |histories| > 0
    requires Allocation.SumReal(ImageAreas(histories)) <= 0.0
    ensures ImageCount(amount, histories, 0) == Amount.ParseDigits(amount)
    ensures forall i :: 1 <= i < |histories| ==> ImageCount(amount, histories, i) == 0
  {
    Allocation.ProportionsOfZeros(Amount.ParseDigits(amount), ImagePercentages(histories));
  }
}
