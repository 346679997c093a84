/** Splitting a requested number of dots between the areas of an image in
    proportion to their size (`calculatePercentage` and
    `calculateProportions` of src/lib/utils.ts), and the per-image shares
    of the overview panel.

    Percentages are whole numbers (they come out of `Math.round`), so the
    share of percentage p in `amount` dots is exactly p·amount/100: its
    floor is `(p * amount) / 100` and its fractional part, scaled by 100,
    is `(p * amount) % 100` (Dafny's division by a positive constant
    rounds down, as `Math.floor` does). */
module Allocation {
  import opened Wrappers
  import Geometry

  /** `Math.round`: the nearest integer, halves rounded up. */
  function Round(x: real): (r: int)
    ensures r as real - 0.5 <= x < r as real + 0.5
  {
    (x + 0.5).Floor
  }

  function SumReal(s: seq<real>): real {
    if |s| == 0 then 0.0 else SumReal(s[..|s| - 1]) + s[|s| - 1]
  }

  function Sum(s: seq<int>): int {
    if |s| == 0 then 0 else Sum(s[..|s| - 1]) + s[|s| - 1]
  }

  // ---------------------------------------------------------------------
  // Percentages

  /** `calculatePercentage(area, areas)`: the rounded percentage of the
      total. A zero total makes the source divide by zero and yield NaN or
      Infinity; that is `None` here. */
  function Percentage(area: real, areas: seq<real>): (r: Option<int>)
    ensures r.None? <==> SumReal(areas) == 0.0
    ensures r.Some? ==>
              r.value as real - 0.5 <= area * 100.0 / SumReal(areas) < r.value as real + 0.5
  {
    var total := SumReal(areas);
    if total == 0.0 then None else Some(Round(area * 100.0 / total))
  }

  lemma {:induction false} SumRealNonNegative(s: seq<real>)
    requires forall i :: 0 <= i < |s| ==> s[i] >= 0.0
    ensures SumReal(s) >= 0.0
  {
    if |s| > 0 {
      var init := s[..|s| - 1];
      assert forall i :: 0 <= i < |init| ==> init[i] == s[i];
      SumRealNonNegative(init);
    }
  }

  /** A part is at most the sum of non-negative parts. */
  lemma {:induction false} PartAtMostSum(s: seq<real>, k: nat)
    requires forall i :: 0 <= i < |s| ==> s[i] >= 0.0
    requires k < |s|
    ensures s[k] <= SumReal(s)
  {
    var init := s[..|s| - 1];
    assert forall i :: 0 <= i < |init| ==> init[i] == s[i];
    SumRealNonNegative(init);
    if k < |s| - 1 {
      PartAtMostSum(init, k);
    }
  }

  lemma RatioPercentBetween(a: real, t: real)
    requires t > 0.0 && 0.0 <= a <= t
    ensures 0.0 <= a * 100.0 / t <= 100.0
  {
    Geometry.QuotientBetween(a * 100.0, t, 0.0, 100.0);
  }

  /** The percentage of one of the areas of a non-empty drawing lies
      between 0 and 100. */
  lemma PercentageOfPartInRange(areas: seq<real>, k: nat)
    requires forall i :: 0 <= i < |areas| ==> areas[i] >= 0.0
    requires k < |areas| && SumReal(areas) > 0.0
    ensures Percentage(areas[k], areas).Some?
    ensures 0 <= Percentage(areas[k], areas).value <= 100
  {
    PartAtMostSum(areas, k);
    RatioPercentBetween(areas[k], SumReal(areas));
  }

  /** The overview panel's share of one image: `Math.round(area / total *
      100)` when the total is positive, 0 otherwise. */
  function ImageShare(area: real, total: real): (r: int)
    ensures total <= 0.0 ==> r == 0
    ensures 0.0 <= area <= total && total > 0.0 ==> 0 <= r <= 100
  {
    if total > 0.0 then
      if area >= 0.0 && area <= total then
        RatioPercentBetween(area, total);
        assert area / total * 100.0 == area * 100.0 / total;
        Round(area / total * 100.0)
      else Round(area / total * 100.0)
    else 0
  }

  /** The percentages the overview panel hands to `calculateProportions`:
      one per image, each the image's summed area against the sum over all
      images. */
  function ImageShares(imageAreas: seq<real>): (r: seq<int>)
    ensures |r| == |imageAreas|
    ensures forall i :: 0 <= i < |r| ==> r[i] == ImageShare(imageAreas[i], SumReal(imageAreas))
  {
    seq(|imageAreas|, i requires 0 <= i < |imageAreas| =>
      ImageShare(imageAreas[i], SumReal(imageAreas)))
  }

  /** Every image's share lies between 0 and 100. */
  lemma ImageSharesInRange(imageAreas: seq<real>)
    requires forall i :: 0 <= i < |imageAreas| ==> imageAreas[i] >= 0.0
    ensures forall i :: 0 <= i < |imageAreas| ==> 0 <= ImageShares(imageAreas)[i] <= 100
  {
    forall i | 0 <= i < |imageAreas|
      ensures 0 <= ImageShares(imageAreas)[i] <= 100
    {
      PartAtMostSum(imageAreas, i);
    }
  }

  // ---------------------------------------------------------------------
  // Largest-remainder allocation

  /** `(p / 100) * amount` scaled by 100, per percentage. */
  function Scaled(amount: int, ps: seq<int>): (s: seq<int>)
    ensures |s| == |ps|
    ensures forall i :: 0 <= i < |ps| ==> s[i] == ps[i] * amount
  {
    seq(|ps|, i requires 0 <= i < |ps| => ps[i] * amount)
  }

  /** `floored`: the whole dots of every share. */
  function Floors(amount: int, ps: seq<int>): (f: seq<int>)
    ensures |f| == |ps|
    ensures forall i :: 0 <= i < |ps| ==>
              100 * f[i] <= ps[i] * amount < 100 * f[i] + 100
  {
    seq(|ps|, i requires 0 <= i < |ps| => (ps[i] * amount) / 100)
  }

  /** `remainders`, scaled by 100: the fractional part of every share. */
  function Remainders(amount: int, ps: seq<int>): (r: seq<int>)
    ensures |r| == |ps|
    ensures forall i :: 0 <= i < |ps| ==> 0 <= r[i] < 100
    ensures forall i :: 0 <= i < |ps| ==>
              r[i] == ps[i] * amount - 100 * Floors(amount, ps)[i]
  {
    seq(|ps|, i requires 0 <= i < |ps| => (ps[i] * amount) % 100)
  }

  /** `remainders.indexOf(Math.max(...remainders))`: the first position
      holding the largest value. */
  function ArgMax(s: seq<int>): (m: nat)
    requires |s| > 0
    ensures m < |s|
    ensures forall j :: 0 <= j < |s| ==> s[j] <= s[m]
    ensures forall j :: 0 <= j < m ==> s[j] < s[m]
  {
    if |s| == 1 then 0
    else
      var m := ArgMax(s[..|s| - 1]);
      if s[|s| - 1] > s[m] then |s| - 1 else m
  }

  /** The `while (remainingDots > 0)` loop: hand one more dot to the share
      with the largest remaining fraction and clear that fraction. With no
      shares at all the source's `indexOf` yields -1 and the writes miss
      the array, so the dots are returned unchanged. */
  function Distribute(dots: seq<int>, rems: seq<int>, remaining: int): (r: seq<int>)
    requires |dots| == |rems|
    ensures |r| == |dots|
    decreases if remaining > 0 then remaining else 0
  {
    if remaining <= 0 || |dots| == 0 then dots
    else
      var m := ArgMax(rems);
      Distribute(dots[m := dots[m] + 1], rems[m := 0], remaining - 1)
  }

  /** `calculateProportions(amount, percentages)`. */
  function Proportions(amount: int, ps: seq<int>): (dots: seq<int>)
    ensures |dots| == |ps|
    ensures forall i :: 0 <= i < |ps| ==> dots[i] >= Floors(amount, ps)[i]
  {
    var floors := Floors(amount, ps);
    DistributeGrows(floors, Remainders(amount, ps), amount - Sum(floors));
    Distribute(floors, Remainders(amount, ps), amount - Sum(floors))
  }

  // ---------------------------------------------------------------------
  // What the allocation promises

  lemma {:induction false} SumUpdate(s: seq<int>, i: nat, v: int)
    requires i < |s|
    ensures Sum(s[i := v]) == Sum(s) - s[i] + v
  {
    var t := s[i := v];
    if i < |s| - 1 {
      assert t[..|t| - 1] == s[..|s| - 1][i := v];
      SumUpdate(s[..|s| - 1], i, v);
    } else {
      assert t[..|t| - 1] == s[..|s| - 1];
    }
  }

  /** Every extra dot lands somewhere: the loop adds exactly the missing
      dots, or nothing when none are missing. */
  lemma {:induction false} DistributeSum(dots: seq<int>, rems: seq<int>, remaining: int)
    requires |dots| == |rems| && |dots| > 0
    ensures Sum(Distribute(dots, rems, remaining))
            == Sum(dots) + (if remaining > 0 then remaining else 0)
    decreases if remaining > 0 then remaining else 0
  {
    if remaining > 0 {
      var m := ArgMax(rems);
      SumUpdate(dots, m, dots[m] + 1);
      DistributeSum(dots[m := dots[m] + 1], rems[m := 0], remaining - 1);
    }
  }

  /** The loop only ever adds. */
  lemma {:induction false} DistributeGrows(dots: seq<int>, rems: seq<int>, remaining: int)
    requires |dots| == |rems|
    ensures forall i :: 0 <= i < |dots| ==> Distribute(dots, rems, remaining)[i] >= dots[i]
    decreases if remaining > 0 then remaining else 0
  {
    if remaining > 0 && |dots| > 0 {
      var m := ArgMax(rems);
      DistributeGrows(dots[m := dots[m] + 1], rems[m := 0], remaining - 1);
    }
  }

  /** The number of positive entries. */
  function CountPos(s: seq<int>): (c: nat)
    ensures c <= |s|
  {
    if |s| == 0 then 0
    else CountPos(s[..|s| - 1]) + (if s[|s| - 1] > 0 then 1 else 0)
  }

  lemma {:induction false} CountPosClear(s: seq<int>, m: nat)
    requires m < |s| && s[m] > 0
    ensures CountPos(s[m := 0]) == CountPos(s) - 1
  {
    var t := s[m := 0];
    if m < |s| - 1 {
      assert t[..|t| - 1] == s[..|s| - 1][m := 0];
      CountPosClear(s[..|s| - 1], m);
    } else {
      assert t[..|t| - 1] == s[..|s| - 1];
    }
  }

  /** Some entry is positive when the count is. */
  lemma {:induction false} CountPosWitness(s: seq<int>)
    requires CountPos(s) > 0
    ensures exists i :: 0 <= i < |s| && s[i] > 0
  {
    if s[|s| - 1] <= 0 {
      CountPosWitness(s[..|s| - 1]);
      var i :| 0 <= i < |s| - 1 && s[..|s| - 1][i] > 0;
      assert s[i] > 0;
    }
  }

  /** Under the largest-remainder rule each share gains at most one dot,
      and only a share with a positive fraction gains. */
  lemma {:induction false} DistributeGainsOne(dots: seq<int>, rems: seq<int>, k: int)
    requires |dots| == |rems|
    requires 0 <= k <= CountPos(rems)
    ensures var r := Distribute(dots, rems, k);
            forall i :: 0 <= i < |r| ==> r[i] == dots[i] || (r[i] == dots[i] + 1 && rems[i] > 0)
    decreases k
  {
    if k > 0 {
      var m := ArgMax(rems);
      CountPosWitness(rems);
      assert rems[m] > 0;
      CountPosClear(rems, m);
      var dots', rems' := dots[m := dots[m] + 1], rems[m := 0];
      DistributeGainsOne(dots', rems', k - 1);
      var r := Distribute(dots, rems, k);
      assert r == Distribute(dots', rems', k - 1);
      forall i | 0 <= i < |r|
        ensures r[i] == dots[i] || (r[i] == dots[i] + 1 && rems[i] > 0)
      {
        if i == m {
          assert r[i] == dots'[i];
        }
      }
    }
  }

  /** Every share that gained (r over dots) has a larger fraction than
      every share that did not, ties going to the earlier share. */
  predicate LargestFirst(r: seq<int>, dots: seq<int>, rems: seq<int>)
    requires |r| == |dots| == |rems|
  {
    forall i, j :: 0 <= i < |r| && 0 <= j < |r| && r[i] == dots[i] + 1 && r[j] == dots[j] ==>
      rems[j] < rems[i] || (rems[j] == rems[i] && i < j)
  }

  /** One round of the loop keeps the order: the share it serves has the
      first largest fraction. */
  lemma LargestFirstStep(r: seq<int>, dots: seq<int>, rems: seq<int>, m: nat)
    requires |r| == |dots| == |rems| && m < |r|
    requires forall j :: 0 <= j < |rems| ==> rems[j] <= rems[m]
    requires forall j :: 0 <= j < m ==> rems[j] < rems[m]
    requires r[m] > dots[m]
    requires LargestFirst(r, dots[m := dots[m] + 1], rems[m := 0])
    ensures LargestFirst(r, dots, rems)
  {
    var dots', rems' := dots[m := dots[m] + 1], rems[m := 0];
    forall i, j | 0 <= i < |r| && 0 <= j < |r| && r[i] == dots[i] + 1 && r[j] == dots[j]
      ensures rems[j] < rems[i] || (rems[j] == rems[i] && i < j)
    {
      if i != m {
        assert r[i] == dots'[i] + 1 && r[j] == dots'[j];
        assert rems'[i] == rems[i] && rems'[j] == rems[j];
      }
    }
  }

  /** Every share that gains has a larger fraction than every share that
      does not, ties going to the earlier share. */
  lemma {:induction false} DistributeOrdersByFraction(dots: seq<int>, rems: seq<int>, k: int)
    requires |dots| == |rems|
    requires 0 <= k <= CountPos(rems)
    ensures LargestFirst(Distribute(dots, rems, k), dots, rems)
    decreases k
  {
    if k > 0 {
      var m := ArgMax(rems);
      CountPosWitness(rems);
      CountPosClear(rems, m);
      var dots', rems' := dots[m := dots[m] + 1], rems[m := 0];
      assert Distribute(dots, rems, k) == Distribute(dots', rems', k - 1);
      var r' := Distribute(dots', rems', k - 1);
      DistributeOrdersByFraction(dots', rems', k - 1);
      DistributeGrows(dots', rems', k - 1);
      LargestFirstStep(r', dots, rems, m);
    }
  }

  /** The largest-remainder rule: while there are at least as many positive
      fractions as missing dots, each share gains at most one dot, only
      shares with a positive fraction gain, and every share that gains has
      a larger fraction than every share that does not (ties going to the
      earlier share). */
  lemma DistributeLargestRemainders(dots: seq<int>, rems: seq<int>, k: int)
    requires |dots| == |rems|
    requires 0 <= k <= CountPos(rems)
    ensures var r := Distribute(dots, rems, k);
            && (forall i :: 0 <= i < |r| ==>
                  r[i] == dots[i] || (r[i] == dots[i] + 1 && rems[i] > 0))
            && LargestFirst(r, dots, rems)
  {
    DistributeGainsOne(dots, rems, k);
    DistributeOrdersByFraction(dots, rems, k);
  }

  lemma {:induction false} SumScaled(amount: int, ps: seq<int>)
    ensures Sum(Scaled(amount, ps)) == amount * Sum(ps)
  {
    if |ps| > 0 {
      var init := ps[..|ps| - 1];
      assert Scaled(amount, ps)[..|ps| - 1] == Scaled(amount, init);
      SumScaled(amount, init);
      assert amount * Sum(ps) == amount * Sum(init) + amount * ps[|ps| - 1];
    }
  }

  /** Summing share by share: Σ(p·amount) = 100·Σfloor + Σremainder. */
  lemma {:induction false} SharesSplit(amount: int, ps: seq<int>)
    ensures Sum(Scaled(amount, ps))
            == 100 * Sum(Floors(amount, ps)) + Sum(Remainders(amount, ps))
  {
    if |ps| > 0 {
      var init := ps[..|ps| - 1];
      assert Scaled(amount, ps)[..|ps| - 1] == Scaled(amount, init);
      assert Floors(amount, ps)[..|ps| - 1] == Floors(amount, init);
      assert Remainders(amount, ps)[..|ps| - 1] == Remainders(amount, init);
      SharesSplit(amount, init);
    }
  }

  /** Fractions below 100 each sum to less than 100 per positive one. */
  lemma {:induction false} SumBelowCount(s: seq<int>)
    requires forall i :: 0 <= i < |s| ==> 0 <= s[i] < 100
    ensures Sum(s) <= 99 * CountPos(s)
  {
    if |s| > 0 {
      var init := s[..|s| - 1];
      assert forall i :: 0 <= i < |init| ==> init[i] == s[i];
      SumBelowCount(init);
    }
  }

  /** With percentages summing to exactly 100, the dots handed out sum to
      the amount asked for, every share gets its floor or one more, and the
      extra dots go to the largest fractions. */
  lemma ProportionsOfWholeHundred(amount: nat, ps: seq<int>)
    requires |ps| > 0 && Sum(ps) == 100
    ensures var dots := Proportions(amount, ps);
            var floors := Floors(amount, ps);
            var rems := Remainders(amount, ps);
            && Sum(dots) == amount
            && (forall i :: 0 <= i < |ps| ==>
                  dots[i] == floors[i] || (dots[i] == floors[i] + 1 && rems[i] > 0))
            && (forall i, j ::
                  (0 <= i < |ps| && 0 <= j < |ps| && dots[i] == floors[i] + 1 && dots[j] == floors[j]) ==>
                  rems[j] < rems[i] || (rems[j] == rems[i] && i < j))
  {
    var floors := Floors(amount, ps);
    var rems := Remainders(amount, ps);
    var missing := amount - Sum(floors);
    WholeHundredMissing(amount, ps);
    DistributeSum(floors, rems, missing);
    DistributeLargestRemainders(floors, rems, missing);
  }

  /** With percentages summing to 100 the floors fall short of the amount
      by exactly the sum of the fractions over 100, which is no more than
      the number of positive fractions. */
  lemma WholeHundredMissing(amount: nat, ps: seq<int>)
    requires Sum(ps) == 100
    ensures var missing := amount - Sum(Floors(amount, ps));
            0 <= missing <= CountPos(Remainders(amount, ps))
  {
    var floors := Sum(Floors(amount, ps));
    var rems := Remainders(amount, ps);
    SumScaled(amount, ps);
    SharesSplit(amount, ps);
    var fractions := Sum(rems);
    assert 100 * amount == 100 * floors + fractions;
    SumBelowCount(rems);
    SumRemaindersNonNegative(rems);
    MissingFromFractions(amount, floors, fractions, CountPos(rems));
  }

  lemma MissingFromFractions(amount: int, floors: int, fractions: int, positives: int)
    requires 100 * amount == 100 * floors + fractions
    requires 0 <= fractions <= 99 * positives
    ensures 0 <= amount - floors <= positives
  {}

  lemma {:induction false} SumRemaindersNonNegative(s: seq<int>)
    requires forall i :: 0 <= i < |s| ==> s[i] >= 0
    ensures Sum(s) >= 0
  {
    if |s| > 0 {
      var init := s[..|s| - 1];
      assert forall i :: 0 <= i < |init| ==> init[i] == s[i];
      SumRemaindersNonNegative(init);
    }
  }

  /** For any shares at all, the result holds the floors plus whatever was
      missing: never fewer dots than the floors, and exactly the amount
      whenever the floors do not already exceed it. */
  lemma ProportionsTotal(amount: int, ps: seq<int>)
    requires |ps| > 0
    ensures var dots := Proportions(amount, ps);
            var floors := Floors(amount, ps);
            && (forall i :: 0 <= i < |ps| ==> dots[i] >= floors[i])
            && Sum(dots) == (if Sum(floors) < amount then amount else Sum(floors))
  {
    var floors := Floors(amount, ps);
    DistributeSum(floors, Remainders(amount, ps), amount - Sum(floors));
    DistributeGrows(floors, Remainders(amount, ps), amount - Sum(floors));
  }

  /** With non-negative percentages summing to at most 100 and a
      non-negative amount, the floors never exceed the amount, so the
      result sums to exactly the amount, and, while there are enough
      positive fractions, the extra dots follow the largest-remainder rule. */
  lemma ProportionsWithinHundred(amount: nat, ps: seq<int>)
    requires |ps| > 0 && Sum(ps) <= 100
    requires forall i :: 0 <= i < |ps| ==> ps[i] >= 0
    ensures var dots := Proportions(amount, ps);
            var floors := Floors(amount, ps);
            var rems := Remainders(amount, ps);
            && Sum(dots) == amount
            && (forall i :: 0 <= i < |ps| ==> dots[i] >= floors[i])
            && (amount - Sum(floors) <= CountPos(rems) ==>
                  forall i, j ::
                    (0 <= i < |ps| && 0 <= j < |ps| && dots[i] == floors[i] + 1 && dots[j] == floors[j]) ==>
                    rems[j] < rems[i] || (rems[j] == rems[i] && i < j))
  {
    var floors := Floors(amount, ps);
    var rems := Remainders(amount, ps);
    FloorsAtMostAmount(amount, ps);
    ProportionsTotal(amount, ps);
    if amount - Sum(floors) <= CountPos(rems) {
      DistributeLargestRemainders(floors, rems, amount - Sum(floors));
    }
  }

  /** The floors of shares summing to at most 100 % never exceed the amount. */
  lemma FloorsAtMostAmount(amount: nat, ps: seq<int>)
    requires Sum(ps) <= 100
    requires forall i :: 0 <= i < |ps| ==> ps[i] >= 0
    ensures Sum(Floors(amount, ps)) <= amount
  {
    var rems := Remainders(amount, ps);
    SumScaled(amount, ps);
    SharesSplit(amount, ps);
    SumRemaindersNonNegative(rems);
    var total, floors, fractions := Sum(ps), Sum(Floors(amount, ps)), Sum(rems);
    assert amount * total == 100 * floors + fractions;
    ScaleMonotone(amount, total, 100);
  }

  lemma ScaleMonotone(a: nat, x: int, y: int)
    requires x <= y
    ensures a * x <= a * y
  {
    assert a * y - a * x == a * (y - x);
  }

  /** With all-zero fractions, every missing dot lands on the first share:
      `indexOf` of the maximum finds index 0 each time. */
  lemma {:induction false} DistributeToFirst(dots: seq<int>, rems: seq<int>, k: nat)
    requires |dots| == |rems| && |dots| > 0
    requires forall i :: 0 <= i < |rems| ==> rems[i] == 0
    ensures Distribute(dots, rems, k) == dots[0 := dots[0] + k]
    decreases k
  {
    if k > 0 {
      assert rems[0] == 0;
      assert ArgMax(rems) == 0;
      assert rems[0 := 0] == rems;
      DistributeToFirst(dots[0 := dots[0] + 1], rems, k - 1);
    }
  }

  /** All-zero percentages hand the whole amount to index 0. */
  lemma ProportionsOfZeros(amount: nat, ps: seq<int>)
    requires |ps| > 0 && forall i :: 0 <= i < |ps| ==> ps[i] == 0
    ensures var dots := Proportions(amount, ps);
            dots[0] == amount && forall i :: 1 <= i < |ps| ==> dots[i] == 0
  {
    var floors := Floors(amount, ps);
    assert forall i :: 0 <= i < |ps| ==> floors[i] == 0;
    SumRemaindersNonNegative(floors);
    assert Sum(floors) == 0 by {
      SumZeros(floors);
    }
    DistributeToFirst(floors, Remainders(amount, ps), amount);
  }

  lemma {:induction false} SumZeros(s: seq<int>)
    requires forall i :: 0 <= i < |s| ==> s[i] == 0
    ensures Sum(s) == 0
  {
    if |s| > 0 {
      SumZeros(s[..|s| - 1]);
    }
  }

  /** With no shares the source returns an empty list, however many dots
      were asked for. */
  lemma ProportionsOfNothing(amount: int)
    ensures Proportions(amount, []) == []
  {}

  // ---------------------------------------------------------------------
  // The source's loop

  method IndexOfMax(s: seq<int>) returns (m: nat)
    requires |s| > 0
    ensures m == ArgMax(s)
  {
    m := 0;
    var i := 1;
    while i < |s|
      invariant 1 <= i <= |s|
      invariant m == ArgMax(s[..i])
    {
      assert s[..i + 1][..i] == s[..i];
      if s[i] > s[m] {
        m := i;
      }
      i := i + 1;
    }
    assert s[..|s|] == s;
  }

  /** One turn of the loop: the largest remainder takes a dot and is spent. */
  lemma DistributeOnce(dots: seq<int>, rems: seq<int>, remaining: int)
    requires |dots| == |rems| > 0 && remaining > 0
    ensures Distribute(dots, rems, remaining)
            == Distribute(dots[ArgMax(rems) := dots[ArgMax(rems)] + 1], rems[ArgMax(rems) := 0], remaining - 1)
  {
  }

  /** `calculateProportions` as written: floors, remainders, then the
      `while (remainingDots > 0)` loop over the remainders. */
  method CalculateProportions(amount: int, ps: seq<int>) returns (dots: seq<int>)
    ensures dots == Proportions(amount, ps)
  {
    var floored := Floors(amount, ps);
    var rems := Remainders(amount, ps);
    dots := floored;
    var remaining := amount - Sum(floored);
    ghost var target := Proportions(amount, ps);
    while remaining > 0
      invariant |dots| == |rems| == |ps|
      invariant Distribute(dots, rems, remaining) == target
    {
      if |rems| > 0 {
        var m := IndexOfMax(rems);
        DistributeOnce(dots, rems, remaining);
        dots := dots[m := dots[m] + 1];
        rems := rems[m := 0];
      } else {
        assert Distribute(dots, rems, remaining - 1) == Distribute(dots, rems, remaining);
      }
      remaining := remaining - 1;
    }
  }
}
