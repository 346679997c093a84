/** The geometry kernel of src/lib/utils.ts: point-to-segment distance,
    ray-casting containment, bounding box, vertex mean, rotation and the
    shoelace area. Coordinates are exact reals; `Math.sqrt` is avoided by
    working with squared distances, and `Math.cos`/`Math.sin` become the
    parameters `cos`/`sin` of a rotation. */
module Geometry {

  datatype Point = Point(x: real, y: real)

  /** `{minX, minY, maxX, maxY}` as returned by `getPolygonBounds`. */
  datatype Bounds = Bounds(minX: real, minY: real, maxX: real, maxY: real)

  function Abs(a: real): real { if a < 0.0 then -a else a }
  function Min(a: real, b: real): real { if a <= b then a else b }
  function Max(a: real, b: real): real { if a >= b then a else b }

  /** Squared Euclidean distance. */
  function DistSq(p: Point, q: Point): real {
    (p.x - q.x) * (p.x - q.x) + (p.y - q.y) * (p.y - q.y)
  }

  lemma SquareNonNegative(a: real)
    ensures a * a >= 0.0
  {}

  lemma DistSqNonNegative(p: Point, q: Point)
    ensures DistSq(p, q) >= 0.0
  {
    SquareNonNegative(p.x - q.x);
    SquareNonNegative(p.y - q.y);
  }

  /** The point `a + t·(b - a)` of the line through a and b. */
  function Along(a: Point, b: Point, t: real): Point {
    Point(a.x + t * (b.x - a.x), a.y + t * (b.y - a.y))
  }

  /** `param` of `pointToLineDistance`: the projection parameter of p on the
      line a→b, left at -1 for a zero-length segment. */
  function ProjectionParam(p: Point, a: Point, b: Point): real {
    var lenSq := (b.x - a.x) * (b.x - a.x) + (b.y - a.y) * (b.y - a.y);
    if lenSq != 0.0 then
      ((p.x - a.x) * (b.x - a.x) + (p.y - a.y) * (b.y - a.y)) / lenSq
    else -1.0
  }

  /** The point of segment [a, b] that `pointToLineDistance` measures to:
      the projection clamped to the segment's end points. */
  function NearestOnSegment(p: Point, a: Point, b: Point): Point {
    var param := ProjectionParam(p, a, b);
    if param < 0.0 then a
    else if param > 1.0 then b
    else Along(a, b, param)
  }

  /** The square of `pointToLineDistance(p, a, b)`. */
  function SegmentDistSq(p: Point, a: Point, b: Point): (d: real)
    ensures d >= 0.0
    ensures a == b ==> d == DistSq(p, a)
  {
    DistSqNonNegative(p, NearestOnSegment(p, a, b));
    DistSq(p, NearestOnSegment(p, a, b))
  }

  lemma Expand(A: real, B: real, C: real, D: real, t: real)
    ensures (A - t * C) * (A - t * C) + (B - t * D) * (B - t * D)
         == (A * A + B * B) - 2.0 * t * (A * C + B * D) + t * t * (C * C + D * D)
  {
    assert (A - t * C) * (A - t * C) == A * A - 2.0 * t * (A * C) + t * t * (C * C);
    assert (B - t * D) * (B - t * D) == B * B - 2.0 * t * (B * D) + t * t * (D * D);
  }

  /** Along the line a→b the squared distance from p is the quadratic
      W - 2·t·dot + t²·L, with W the squared distance to a, dot the
      projection numerator and L the squared length (see AlongQuadratic). */
  function Quad(W: real, dot: real, L: real, t: real): real {
    W - 2.0 * t * dot + t * t * L
  }

  /** When the projection falls before the segment, its start is nearest. */
  lemma QuadraticClampLow(W: real, dot: real, L: real, t: real)
    requires L > 0.0 && dot < 0.0 && t >= 0.0
    ensures Quad(W, dot, L, t) >= Quad(W, dot, L, 0.0) == W
  {
    assert t * L >= 0.0;
    assert t * (t * L - 2.0 * dot) >= 0.0;
  }

  /** When the projection falls past the segment, its end is nearest. */
  lemma QuadraticClampHigh(W: real, dot: real, L: real, t: real)
    requires L > 0.0 && dot > L && 0.0 <= t <= 1.0
    ensures Quad(W, dot, L, t) >= Quad(W, dot, L, 1.0)
  {
    var u := 1.0 - t;
    assert u >= 0.0;
    assert (t + 1.0) * L - 2.0 * dot < 0.0;
    assert u * (2.0 * dot - (t + 1.0) * L) >= 0.0;
    assert (W - 2.0 * t * dot + t * t * L) - (W - 2.0 * dot + L)
        == u * (2.0 * dot - (t + 1.0) * L);
  }

  /** Inside the segment the quadratic is least at the projection. */
  lemma QuadraticInterior(W: real, dot: real, L: real, t: real, param: real)
    requires L > 0.0 && param * L == dot
    ensures Quad(W, dot, L, t) >= Quad(W, dot, L, param)
  {
    SquareNonNegative(t - param);
    assert L * ((t - param) * (t - param)) >= 0.0;
    assert (W - 2.0 * t * dot + t * t * L) - (W - 2.0 * param * dot + param * param * L)
        == L * ((t - param) * (t - param));
  }

  /** Squared length and projection numerator of p on segment [a, b]. */
  function SegLenSq(a: Point, b: Point): real {
    (b.x - a.x) * (b.x - a.x) + (b.y - a.y) * (b.y - a.y)
  }

  function SegDot(p: Point, a: Point, b: Point): real {
    (p.x - a.x) * (b.x - a.x) + (p.y - a.y) * (b.y - a.y)
  }

  lemma DistSqOfDiffs(p: Point, q: Point, u: real, v: real)
    requires p.x - q.x == u && p.y - q.y == v
    ensures DistSq(p, q) == u * u + v * v
  {}

  /** Along the line a→b, the squared distance is a quadratic in t. */
  lemma AlongQuadratic(p: Point, a: Point, b: Point, t: real)
    ensures DistSq(p, Along(a, b, t)) == Quad(DistSq(p, a), SegDot(p, a, b), SegLenSq(a, b), t)
  {
    var A := p.x - a.x;
    var B := p.y - a.y;
    var C := b.x - a.x;
    var D := b.y - a.y;
    DistSqOfDiffs(p, Along(a, b, t), A - t * C, B - t * D);
    DistSqOfDiffs(p, a, A, B);
    Expand(A, B, C, D, t);
  }

  /** Multiplication behind a function, so that sign facts about a product
      of a term with itself stay atomic for the solver. */
  function Mul(u: real, v: real): real { u * v }

  lemma MulPos(u: real, v: real)
    requires (u > 0.0 && v > 0.0) || (u < 0.0 && v < 0.0)
    ensures Mul(u, v) > 0.0
  {}

  lemma MulNonNeg(u: real, v: real)
    requires (u >= 0.0 && v >= 0.0) || (u <= 0.0 && v <= 0.0)
    ensures Mul(u, v) >= 0.0
  {}

  /** Distinct end points make a segment of positive squared length. */
  lemma NonZeroLength(a: Point, b: Point)
    requires a != b
    ensures SegLenSq(a, b) > 0.0
  {
    var dx, dy := b.x - a.x, b.y - a.y;
    assert SegLenSq(a, b) == Mul(dx, dx) + Mul(dy, dy);
    MulNonNeg(dx, dx);
    MulNonNeg(dy, dy);
    if dx != 0.0 {
      MulPos(dx, dx);
      assert Mul(dx, dx) > 0.0;
    } else {
      assert dy != 0.0;
      MulPos(dy, dy);
      assert Mul(dy, dy) > 0.0;
    }
  }

  /** So the source's `lenSq === 0` test singles out exactly the
      degenerate segments. */
  lemma ZeroLengthSegment(a: Point, b: Point, t: real)
    requires SegLenSq(a, b) == 0.0
    ensures a == b && Along(a, b, t) == a
  {
    if a != b {
      NonZeroLength(a, b);
    }
  }

  lemma LengthNonNegative(a: Point, b: Point)
    ensures SegLenSq(a, b) >= 0.0
  {
    SquareNonNegative(b.x - a.x);
    SquareNonNegative(b.y - a.y);
  }

  lemma ParamSign(dot: real, L: real, param: real)
    requires L > 0.0 && param == dot / L
    ensures param < 0.0 ==> dot < 0.0
    ensures param > 1.0 ==> dot > L
    ensures param * L == dot
  {}

  lemma NearestCases(p: Point, a: Point, b: Point)
    requires SegLenSq(a, b) > 0.0
    ensures var param := SegDot(p, a, b) / SegLenSq(a, b);
            && param * SegLenSq(a, b) == SegDot(p, a, b)
            && (param < 0.0 ==>
                  SegDot(p, a, b) < 0.0 && SegmentDistSq(p, a, b) == DistSq(p, a))
            && (param > 1.0 ==>
                  SegDot(p, a, b) > SegLenSq(a, b)
                  && SegmentDistSq(p, a, b) == DistSq(p, Along(a, b, 1.0)))
            && (0.0 <= param <= 1.0 ==> SegmentDistSq(p, a, b) == DistSq(p, Along(a, b, param)))
  {
    var L := SegLenSq(a, b);
    var dot := SegDot(p, a, b);
    var param := dot / L;
    assert ProjectionParam(p, a, b) == param;
    ParamSign(dot, L, param);
    assert Along(a, b, 1.0) == b;
  }

  /** The measured distance is no more than the distance from p to any
      point of the segment. In particular it is at most the distance to
      either end point. */
  lemma SegmentDistIsMinimum(p: Point, a: Point, b: Point, t: real)
    requires 0.0 <= t <= 1.0
    ensures SegmentDistSq(p, a, b) <= DistSq(p, Along(a, b, t))
  {
    LengthNonNegative(a, b);
    if SegLenSq(a, b) == 0.0 {
      ZeroLengthSegment(a, b, t);
    } else {
      var param := SegDot(p, a, b) / SegLenSq(a, b);
      if param < 0.0 {
        MinimumBefore(p, a, b, t);
      } else if param > 1.0 {
        MinimumAfter(p, a, b, t);
      } else {
        MinimumInside(p, a, b, t);
      }
    }
  }

  /** The measured distance is attained on the segment: together with
      `SegmentDistIsMinimum`, it is the least distance from p to a point of
      the segment. */
  lemma SegmentDistAttained(p: Point, a: Point, b: Point)
    ensures exists t :: 0.0 <= t <= 1.0 && SegmentDistSq(p, a, b) == DistSq(p, Along(a, b, t))
  {
    var param := ProjectionParam(p, a, b);
    if param < 0.0 {
      assert Along(a, b, 0.0) == a;
    } else if param > 1.0 {
      assert Along(a, b, 1.0) == b;
    } else {
      assert SegmentDistSq(p, a, b) == DistSq(p, Along(a, b, param));
    }
  }

  /** The projection falls before `a`: the nearest point is `a`. */
  lemma MinimumBefore(p: Point, a: Point, b: Point, t: real)
    requires 0.0 <= t <= 1.0 && SegLenSq(a, b) > 0.0
    requires SegDot(p, a, b) / SegLenSq(a, b) < 0.0
    ensures SegmentDistSq(p, a, b) <= DistSq(p, Along(a, b, t))
  {
    NearestCases(p, a, b);
    AlongQuadratic(p, a, b, t);
    QuadraticClampLow(DistSq(p, a), SegDot(p, a, b), SegLenSq(a, b), t);
  }

  /** The projection falls past `b`: the nearest point is `b`. */
  lemma MinimumAfter(p: Point, a: Point, b: Point, t: real)
    requires 0.0 <= t <= 1.0 && SegLenSq(a, b) > 0.0
    requires SegDot(p, a, b) / SegLenSq(a, b) > 1.0
    ensures SegmentDistSq(p, a, b) <= DistSq(p, Along(a, b, t))
  {
    AfterEnd(p, a, b);
    AlongQuadratic(p, a, b, t);
    QuadraticClampHigh(DistSq(p, a), SegDot(p, a, b), SegLenSq(a, b), t);
  }

  lemma AfterEnd(p: Point, a: Point, b: Point)
    requires SegLenSq(a, b) > 0.0
    requires SegDot(p, a, b) / SegLenSq(a, b) > 1.0
    ensures SegDot(p, a, b) > SegLenSq(a, b)
    ensures SegmentDistSq(p, a, b) == Quad(DistSq(p, a), SegDot(p, a, b), SegLenSq(a, b), 1.0)
  {
    NearestCases(p, a, b);
    AlongQuadratic(p, a, b, 1.0);
  }

  /** The projection falls on the segment: the nearest point is the
      projection. */
  lemma MinimumInside(p: Point, a: Point, b: Point, t: real)
    requires 0.0 <= t <= 1.0 && SegLenSq(a, b) > 0.0
    requires 0.0 <= SegDot(p, a, b) / SegLenSq(a, b) <= 1.0
    ensures SegmentDistSq(p, a, b) <= DistSq(p, Along(a, b, t))
  {
    var param := SegDot(p, a, b) / SegLenSq(a, b);
    AtProjection(p, a, b);
    AlongQuadratic(p, a, b, t);
    QuadraticInterior(DistSq(p, a), SegDot(p, a, b), SegLenSq(a, b), t, param);
  }

  lemma AtProjection(p: Point, a: Point, b: Point)
    requires SegLenSq(a, b) > 0.0
    requires 0.0 <= SegDot(p, a, b) / SegLenSq(a, b) <= 1.0
    ensures var param := SegDot(p, a, b) / SegLenSq(a, b);
            && param * SegLenSq(a, b) == SegDot(p, a, b)
            && SegmentDistSq(p, a, b) == Quad(DistSq(p, a), SegDot(p, a, b), SegLenSq(a, b), param)
  {
    NearestCases(p, a, b);
    AlongQuadratic(p, a, b, SegDot(p, a, b) / SegLenSq(a, b));
  }

  lemma SegmentDistAtMostEndpoints(p: Point, a: Point, b: Point)
    ensures SegmentDistSq(p, a, b) <= DistSq(p, a)
    ensures SegmentDistSq(p, a, b) <= DistSq(p, b)
  {
    SegmentDistIsMinimum(p, a, b, 0.0);
    assert Along(a, b, 0.0) == a;
    SegmentDistIsMinimum(p, a, b, 1.0);
    assert Along(a, b, 1.0) == b;
  }

  /** `pointToLineDistance(p, a, b) >= padding`, stated without the square
      root: a distance is never negative, so a non-positive padding is
      always met. */
  predicate ClearOf(p: Point, a: Point, b: Point, padding: real) {
    padding <= 0.0 || SegmentDistSq(p, a, b) >= padding * padding
  }

  // ---------------------------------------------------------------------
  // Ray casting

  /** Index of the vertex before i, wrapping: the `j` of the source loop. */
  function Prev(i: nat, n: nat): nat
    requires i < n
  {
    if i == 0 then n - 1 else i - 1
  }

  /** The test of one edge (a = polygon[i], b = polygon[j]) against the
      horizontal ray from p towards +x. */
  predicate Crosses(p: Point, a: Point, b: Point) {
    ((a.y > p.y) != (b.y > p.y))
    && p.x < (b.x - a.x) * (p.y - a.y) / (b.y - a.y) + a.x
  }

  /** The `inside` flag after the loop has visited edges 0..k-1. */
  function InsideAfter(p: Point, poly: seq<Point>, k: nat): bool
    requires k <= |poly|
  {
    if k == 0 then false
    else
      var i := k - 1;
      var j := Prev(i, |poly|);
      if Crosses(p, poly[i], poly[j]) then !InsideAfter(p, poly, k - 1)
      else InsideAfter(p, poly, k - 1)
  }

  /** `isPointInPolygon`. */
  predicate InPolygon(p: Point, poly: seq<Point>) {
    |poly| >= 3 && InsideAfter(p, poly, |poly|)
  }

  /** How many of edges 0..k-1 the ray crosses. */
  function CrossingCount(p: Point, poly: seq<Point>, k: nat): nat
    requires k <= |poly|
  {
    if k == 0 then 0
    else CrossingCount(p, poly, k - 1)
         + (if Crosses(p, poly[k - 1], poly[Prev(k - 1, |poly|)]) then 1 else 0)
  }

  lemma {:induction false} InsideIsParity(p: Point, poly: seq<Point>, k: nat)
    requires k <= |poly|
    ensures InsideAfter(p, poly, k) <==> CrossingCount(p, poly, k) % 2 == 1
  {
    if k > 0 {
      InsideIsParity(p, poly, k - 1);
    }
  }

  /** A point is inside exactly when the polygon has at least three
      vertices and the ray crosses an odd number of its edges, the wrap
      edge from the last vertex back to the first included. */
  lemma InPolygonIsOddCrossings(p: Point, poly: seq<Point>)
    ensures InPolygon(p, poly) <==>
            |poly| >= 3 && CrossingCount(p, poly, |poly|) % 2 == 1
  {
    InsideIsParity(p, poly, |poly|);
  }

  lemma NoPointInDegeneratePolygon(p: Point, poly: seq<Point>)
    requires |poly| < 3
    ensures !InPolygon(p, poly)
  {}

  /** The loop of `isPointInPolygon`, with `j` trailing `i` by one. */
  method IsPointInPolygon(p: Point, poly: seq<Point>) returns (inside: bool)
    ensures inside <==> |poly| >= 3 && CrossingCount(p, poly, |poly|) % 2 == 1
  {
    if |poly| < 3 {
      return false;
    }
    inside := false;
    var i := 0;
    var j := |poly| - 1;
    while i < |poly|
      invariant 0 <= i <= |poly|
      invariant i < |poly| ==> j == Prev(i, |poly|)
      invariant inside <==> CrossingCount(p, poly, i) % 2 == 1
    {
      if Crosses(p, poly[i], poly[j]) {
        inside := !inside;
      }
      j := i;
      i := i + 1;
    }
  }

  // ---------------------------------------------------------------------
  // Bounds and centre

  /** The bounds of the non-empty prefix poly[..k], folded left to right as
      the source loop does. */
  function BoundsOfPrefix(poly: seq<Point>, k: nat): (b: Bounds)
    requires 0 < k <= |poly|
    ensures forall i :: 0 <= i < k ==>
              b.minX <= poly[i].x <= b.maxX && b.minY <= poly[i].y <= b.maxY
    ensures exists i :: 0 <= i < k && poly[i].x == b.minX
    ensures exists i :: 0 <= i < k && poly[i].x == b.maxX
    ensures exists i :: 0 <= i < k && poly[i].y == b.minY
    ensures exists i :: 0 <= i < k && poly[i].y == b.maxY
  {
    if k == 1 then Bounds(poly[0].x, poly[0].y, poly[0].x, poly[0].y)
    else
      var b := BoundsOfPrefix(poly, k - 1);
      var q := poly[k - 1];
      Bounds(Min(b.minX, q.x), Min(b.minY, q.y), Max(b.maxX, q.x), Max(b.maxY, q.y))
  }

  /** `getPolygonBounds`: all zeros for the empty polygon; otherwise the
      tightest box around the vertices, every side touching a vertex. */
  function PolygonBounds(poly: seq<Point>): (b: Bounds)
    ensures |poly| == 0 ==> b == Bounds(0.0, 0.0, 0.0, 0.0)
    ensures forall i :: 0 <= i < |poly| ==>
              b.minX <= poly[i].x <= b.maxX && b.minY <= poly[i].y <= b.maxY
    ensures |poly| > 0 ==> exists i :: 0 <= i < |poly| && poly[i].x == b.minX
    ensures |poly| > 0 ==> exists i :: 0 <= i < |poly| && poly[i].x == b.maxX
    ensures |poly| > 0 ==> exists i :: 0 <= i < |poly| && poly[i].y == b.minY
    ensures |poly| > 0 ==> exists i :: 0 <= i < |poly| && poly[i].y == b.maxY
  {
    if |poly| == 0 then Bounds(0.0, 0.0, 0.0, 0.0) else BoundsOfPrefix(poly, |poly|)
  }

  predicate InBounds(p: Point, b: Bounds) {
    b.minX <= p.x <= b.maxX && b.minY <= p.y <= b.maxY
  }

  function SumX(poly: seq<Point>): real {
    if |poly| == 0 then 0.0 else SumX(poly[..|poly| - 1]) + poly[|poly| - 1].x
  }

  function SumY(poly: seq<Point>): real {
    if |poly| == 0 then 0.0 else SumY(poly[..|poly| - 1]) + poly[|poly| - 1].y
  }

  /** `getPolygonCenter`: the arithmetic mean of the vertices (not the area
      centroid); the origin for the empty polygon. The mean lies inside the
      bounding box. */
  function PolygonCenter(poly: seq<Point>): (c: Point)
    ensures |poly| == 0 ==> c == Point(0.0, 0.0)
    ensures |poly| > 0 ==> InBounds(c, PolygonBounds(poly))
  {
    if |poly| == 0 then Point(0.0, 0.0)
    else
      MeanInBounds(poly);
      Point(SumX(poly) / (|poly| as real), SumY(poly) / (|poly| as real))
  }

  lemma {:induction false} SumXBetween(poly: seq<Point>, lo: real, hi: real)
    requires forall i :: 0 <= i < |poly| ==> lo <= poly[i].x <= hi
    ensures (|poly| as real) * lo <= SumX(poly) <= (|poly| as real) * hi
  {
    if |poly| > 0 {
      var init := poly[..|poly| - 1];
      assert forall i :: 0 <= i < |init| ==> init[i] == poly[i];
      SumXBetween(init, lo, hi);
      StepBounds(|init| as real, lo, hi);
    }
  }

  lemma {:induction false} SumYBetween(poly: seq<Point>, lo: real, hi: real)
    requires forall i :: 0 <= i < |poly| ==> lo <= poly[i].y <= hi
    ensures (|poly| as real) * lo <= SumY(poly) <= (|poly| as real) * hi
  {
    if |poly| > 0 {
      var init := poly[..|poly| - 1];
      assert forall i :: 0 <= i < |init| ==> init[i] == poly[i];
      SumYBetween(init, lo, hi);
      StepBounds(|init| as real, lo, hi);
    }
  }

  lemma StepBounds(m: real, lo: real, hi: real)
    ensures (m + 1.0) * lo == m * lo + lo && (m + 1.0) * hi == m * hi + hi
  {}

  lemma QuotientBetween(s: real, n: real, lo: real, hi: real)
    requires n > 0.0 && n * lo <= s <= n * hi
    ensures lo <= s / n <= hi
  {
    assert s / n - lo == (s - n * lo) / n;
    assert hi - s / n == (n * hi - s) / n;
  }

  lemma MeanXInBounds(poly: seq<Point>, lo: real, hi: real)
    requires |poly| > 0
    requires forall i :: 0 <= i < |poly| ==> lo <= poly[i].x <= hi
    ensures lo <= SumX(poly) / (|poly| as real) <= hi
  {
    SumXBetween(poly, lo, hi);
    QuotientBetween(SumX(poly), |poly| as real, lo, hi);
  }

  lemma MeanYInBounds(poly: seq<Point>, lo: real, hi: real)
    requires |poly| > 0
    requires forall i :: 0 <= i < |poly| ==> lo <= poly[i].y <= hi
    ensures lo <= SumY(poly) / (|poly| as real) <= hi
  {
    SumYBetween(poly, lo, hi);
    QuotientBetween(SumY(poly), |poly| as real, lo, hi);
  }

  lemma MeanInBounds(poly: seq<Point>)
    requires |poly| > 0
    ensures InBounds(Point(SumX(poly) / (|poly| as real), SumY(poly) / (|poly| as real)),
                     PolygonBounds(poly))
  {
    var b := PolygonBounds(poly);
    MeanXInBounds(poly, b.minX, b.maxX);
    MeanYInBounds(poly, b.minY, b.maxY);
  }

  // ---------------------------------------------------------------------
  // Rotation

  /** `rotatePoint`, with the cosine and sine of the angle given. */
  function RotatePoint(p: Point, center: Point, cos: real, sin: real): (r: Point)
    ensures p == center ==> r == center
  {
    var tx := p.x - center.x;
    var ty := p.y - center.y;
    Point(tx * cos - ty * sin + center.x, tx * sin + ty * cos + center.y)
  }

  /** For a true rotation (cos² + sin² = 1) the distance to the centre is
      preserved. */
  lemma RotationPreservesDistance(p: Point, center: Point, cos: real, sin: real)
    requires cos * cos + sin * sin == 1.0
    ensures DistSq(RotatePoint(p, center, cos, sin), center) == DistSq(p, center)
  {
    var tx := p.x - center.x;
    var ty := p.y - center.y;
    var r := RotatePoint(p, center, cos, sin);
    assert r.x - center.x == tx * cos - ty * sin;
    assert r.y - center.y == tx * sin + ty * cos;
    assert (tx * cos - ty * sin) * (tx * cos - ty * sin) + (tx * sin + ty * cos) * (tx * sin + ty * cos)
        == (tx * tx + ty * ty) * (cos * cos + sin * sin);
  }

  /** Rotating by the opposite angle (same cosine, negated sine) undoes a
      rotation. */
  lemma RotationRoundTrip(p: Point, center: Point, cos: real, sin: real)
    requires cos * cos + sin * sin == 1.0
    ensures RotatePoint(RotatePoint(p, center, cos, sin), center, cos, -sin) == p
  {
    var tx := p.x - center.x;
    var ty := p.y - center.y;
    var r := RotatePoint(p, center, cos, sin);
    var u := r.x - center.x;
    var v := r.y - center.y;
    assert u == tx * cos - ty * sin;
    assert v == tx * sin + ty * cos;
    assert u * cos - v * (-sin) == tx * (cos * cos + sin * sin);
    assert u * (-sin) + v * cos == ty * (cos * cos + sin * sin);
  }

  // ---------------------------------------------------------------------
  // Shoelace area

  /** One term of the shoelace sum: `a.x·b.y - b.x·a.y`. */
  function Cross(a: Point, b: Point): real {
    a.x * b.y - b.x * a.y
  }

  /** The source loop's sum after i = 0..k-1, with j = (i + 1) % n. */
  function ShoelaceSum(poly: seq<Point>, k: nat): real
    requires k <= |poly|
  {
    if k == 0 then 0.0
    else ShoelaceSum(poly, k - 1) + Cross(poly[k - 1], poly[k % |poly|])
  }

  /** `getPolygonArea`: 0 below three vertices, else |sum / 2|. */
  function PolygonArea(poly: seq<Point>): (area: real)
    ensures area >= 0.0
    ensures |poly| < 3 ==> area == 0.0
  {
    if |poly| < 3 then 0.0 else Abs(ShoelaceSum(poly, |poly|) / 2.0)
  }

  /** The sum of the terms of the open chain poly[0] → … → poly[n-1]. */
  function ChainSum(s: seq<Point>): real {
    if |s| <= 1 then 0.0 else Cross(s[0], s[1]) + ChainSum(s[1..])
  }

  /** The closed sum: the open chain plus the wrap edge last → first. */
  function ClosedSum(s: seq<Point>): real
    requires |s| > 0
  {
    ChainSum(s) + Cross(s[|s| - 1], s[0])
  }

  lemma {:induction false} ChainSumConcat(a: seq<Point>, b: seq<Point>)
    requires |a| > 0 && |b| > 0
    ensures ChainSum(a + b) == ChainSum(a) + Cross(a[|a| - 1], b[0]) + ChainSum(b)
  {
    if |a| == 1 {
      assert (a + b)[1..] == b;
    } else {
      assert (a + b)[1..] == a[1..] + b;
      ChainSumConcat(a[1..], b);
    }
  }

  lemma {:induction false} ChainPrefix(poly: seq<Point>, k: nat)
    requires 0 < k < |poly|
    ensures ShoelaceSum(poly, k) == ChainSum(poly[..k + 1])
  {
    var n := |poly|;
    assert k % n == k;
    assert ShoelaceSum(poly, k) == ShoelaceSum(poly, k - 1) + Cross(poly[k - 1], poly[k]);
    if k == 1 {
      assert ShoelaceSum(poly, 0) == 0.0;
      var two := poly[..2];
      assert two[1..] == [poly[1]];
      assert ChainSum(two) == Cross(poly[0], poly[1]) + ChainSum([poly[1]]);
    } else {
      ChainPrefix(poly, k - 1);
      var init := poly[..k];
      assert poly[..k + 1] == init + [poly[k]];
      ChainSumConcat(init, [poly[k]]);
      assert init[|init| - 1] == poly[k - 1];
      assert ChainSum([poly[k]]) == 0.0;
    }
  }

  /** The source's modular sum is the open chain plus the wrap edge. */
  lemma ShoelaceIsClosedSum(poly: seq<Point>)
    requires |poly| >= 2
    ensures ShoelaceSum(poly, |poly|) == ClosedSum(poly)
  {
    var n := |poly|;
    ChainPrefix(poly, n - 1);
    assert poly[..n] == poly;
  }

  /** Starting the vertex list at another vertex leaves the area unchanged. */
  lemma AreaRotationInvariant(poly: seq<Point>, k: nat)
    requires k <= |poly|
    ensures PolygonArea(poly[k..] + poly[..k]) == PolygonArea(poly)
  {
    var rotated := poly[k..] + poly[..k];
    if |poly| >= 3 && 0 < k < |poly| {
      var P := poly[..k];
      var Q := poly[k..];
      assert poly == P + Q;
      ShoelaceIsClosedSum(poly);
      ShoelaceIsClosedSum(rotated);
      ChainSumConcat(P, Q);
      ChainSumConcat(Q, P);
      assert ClosedSum(poly) == ClosedSum(rotated);
    } else if k == 0 {
      assert rotated == poly;
    } else if k == |poly| {
      assert rotated == poly;
    }
  }

  function Reverse(s: seq<Point>): (r: seq<Point>)
    ensures |r| == |s|
    ensures forall i :: 0 <= i < |s| ==> r[i] == s[|s| - 1 - i]
  {
    if |s| == 0 then [] else Reverse(s[1..]) + [s[0]]
  }

  lemma {:induction false} ChainSumReverse(s: seq<Point>)
    ensures ChainSum(Reverse(s)) == -ChainSum(s)
  {
    if |s| >= 2 {
      ChainSumReverse(s[1..]);
      var r := Reverse(s[1..]);
      assert Reverse(s) == r + [s[0]];
      ChainSumConcat(r, [s[0]]);
      assert r[|r| - 1] == s[1];
    }
  }

  /** Reversing the winding order leaves the area unchanged. */
  lemma AreaReversalInvariant(poly: seq<Point>)
    ensures PolygonArea(Reverse(poly)) == PolygonArea(poly)
  {
    if |poly| >= 3 {
      var r := Reverse(poly);
      ShoelaceIsClosedSum(poly);
      ShoelaceIsClosedSum(r);
      ClosedSumReverse(poly);
      AbsHalfNegated(ClosedSum(poly));
    }
  }

  /** Reversal negates the closed sum: the chain part by `ChainSumReverse`,
      the wrap edge because its two ends swap. */
  lemma ClosedSumReverse(s: seq<Point>)
    requires |s| > 0
    ensures ClosedSum(Reverse(s)) == -ClosedSum(s)
  {
    var r := Reverse(s);
    ChainSumReverse(s);
    assert r[|r| - 1] == s[0] && r[0] == s[|s| - 1];
    CrossAntisymmetric(s[0], s[|s| - 1]);
  }

  lemma CrossAntisymmetric(a: Point, b: Point)
    ensures Cross(a, b) == -Cross(b, a)
  {}

  lemma AbsHalfNegated(x: real)
    ensures Abs(-x / 2.0) == Abs(x / 2.0)
  {}
}
