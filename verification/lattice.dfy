/** The dot lattice of the canvas (the `dots` memo of
    src/components/features/canvas.component.tsx): a square grid of pitch
    `size + gap`, turned by the rotation angle and laid over the lasso
    polygon, from which the first `amount` points that fall inside the
    polygon and keep `padding` away from its edges become dots.

    The cosine and sine of the rotation angle are parameters, and so are
    the `Math.random()` offsets of the jitter option: `offsets[k]` is the
    pair drawn for the k-th accepted dot (missing entries count as no
    offset). */
module Lattice {
  import opened Geometry

  /** The sliders and switches the memo depends on. */
  datatype Settings = Settings(
    amount: nat,
    size: real,
    gap: real,
    padding: real,
    cos: real,
    sin: real,
    randomJitter: bool)

  /** Where the grid starts, its two step vectors and how many rows and
      columns it has. */
  datatype Frame = Frame(start: Point, colStep: Point, rowStep: Point, maxSteps: nat)

  /** `Math.ceil`. */
  function Ceil(x: real): (c: int)
    ensures x <= c as real < x + 1.0
  {
    -((-x).Floor)
  }

  /** `maxRadius`: the largest distance, along either axis, from the vertex
      mean to a side of the bounding box. */
  function MaxRadius(b: Bounds, c: Point): (r: real)
    ensures r >= 0.0
    ensures r >= Abs(b.maxX - c.x) && r >= Abs(b.minX - c.x)
    ensures r >= Abs(b.maxY - c.y) && r >= Abs(b.minY - c.y)
    ensures r == Abs(b.maxX - c.x) || r == Abs(b.minX - c.x)
            || r == Abs(b.maxY - c.y) || r == Abs(b.minY - c.y)
  {
    Max(Max(Abs(b.maxX - c.x), Abs(b.minX - c.x)), Max(Abs(b.maxY - c.y), Abs(b.minY - c.y)))
  }

  lemma NonNegQuotient(a: real, b: real)
    requires a >= 0.0 && b > 0.0
    ensures a / b >= 0.0
  {}

  /** `Math.ceil(2 * maxRadius / step)`: enough steps to cover the radius
      twice over. */
  function HalfSteps(r: real, step: real): (h: nat)
    requires r >= 0.0 && step > 0.0
    ensures h as real >= 2.0 * r / step
  {
    NonNegQuotient(2.0 * r, step);
    Ceil(2.0 * r / step)
  }

  /** The grid of the memo: `dirX = (cos, sin)`, `dirY = (-sin, cos)`, the
      start `maxRadius` back along both directions from the centre, and
      `Math.ceil(2 * maxRadius / step) * 2` rows and columns. */
  function MakeFrame(poly: seq<Point>, s: Settings): (f: Frame)
    requires s.size + s.gap > 0.0
  {
    var step := s.size + s.gap;
    var center := PolygonCenter(poly);
    var r := MaxRadius(PolygonBounds(poly), center);
    var dirX := Point(s.cos, s.sin);
    var dirY := Point(-s.sin, s.cos);
    var start := Point(center.x - r * dirX.x - r * dirY.x, center.y - r * dirX.y - r * dirY.y);
    var half := HalfSteps(r, step);
    Frame(start, Point(step * dirX.x, step * dirX.y), Point(step * dirY.x, step * dirY.y), half * 2)
  }

  /** The world position of grid cell (row, col):
      `start + col * step * dirX + row * step * dirY`. */
  function Candidate(f: Frame, row: nat, col: nat): Point {
    Point(f.start.x + (col as real) * f.colStep.x + (row as real) * f.rowStep.x,
          f.start.y + (col as real) * f.colStep.y + (row as real) * f.rowStep.y)
  }

  /** The cheap rejection of the memo: outside the bounding box grown by
      `padding`. */
  predicate OutsidePadded(p: Point, b: Bounds, padding: real) {
    p.x < b.minX - padding || p.x > b.maxX + padding
    || p.y < b.minY - padding || p.y > b.maxY + padding
  }

  /** `points.every(...)`: p keeps `padding` away from every edge, the
      closing edge from the last vertex to the first included. */
  predicate ClearOfEdges(p: Point, poly: seq<Point>, padding: real) {
    forall i :: 0 <= i < |poly| ==> ClearOfEdge(p, poly, i, padding)
  }

  /** Edge i runs from vertex i to vertex (i + 1) % n. */
  predicate ClearOfEdge(p: Point, poly: seq<Point>, i: nat, padding: real)
    requires i < |poly|
  {
    ClearOf(p, poly[i], poly[(i + 1) % |poly|], padding)
  }

  /** A grid point becomes a dot when it passes the box test, lies inside
      the polygon, and keeps clear of the edges (waived when `padding` is
      exactly 0). */
  predicate Accept(p: Point, poly: seq<Point>, padding: real) {
    !OutsidePadded(p, PolygonBounds(poly), padding)
    && InPolygon(p, poly)
    && (ClearOfEdges(p, poly, padding) || padding == 0.0)
  }

  /** Cells (row, 0) .. (row, n-1). */
  function RowCells(f: Frame, row: nat, n: nat): (s: seq<Point>)
    ensures |s| == n
    ensures forall c :: 0 <= c < n ==> s[c] == Candidate(f, row, c)
  {
    seq(n, c requires 0 <= c < n => Candidate(f, row, c))
  }

  /** Rows 0 .. rows-1 of the grid, each of f.maxSteps cells, in the order
      the nested loops visit them. */
  function GridRows(f: Frame, rows: nat): seq<Point> {
    if rows == 0 then [] else GridRows(f, rows - 1) + RowCells(f, rows - 1, f.maxSteps)
  }

  /** The accepted points of a run of candidates, in order. */
  function Accepted(s: seq<Point>, poly: seq<Point>, padding: real): (a: seq<Point>)
    ensures |a| <= |s|
  {
    if |s| == 0 then []
    else
      var init := Accepted(s[..|s| - 1], poly, padding);
      if Accept(s[|s| - 1], poly, padding) then init + [s[|s| - 1]] else init
  }

  /** Every accepted point passes the tests. */
  lemma {:induction false} AcceptedPass(s: seq<Point>, poly: seq<Point>, padding: real)
    ensures forall k :: 0 <= k < |Accepted(s, poly, padding)| ==> Accept(Accepted(s, poly, padding)[k], poly, padding)
  {
    if |s| > 0 {
      AcceptedPass(s[..|s| - 1], poly, padding);
    }
  }

  /** The first n entries (all of them when there are fewer). */
  function Take(s: seq<Point>, n: nat): (t: seq<Point>)
    ensures |t| == if |s| <= n then |s| else n
    ensures t <= s
  {
    if |s| <= n then s else s[..n]
  }

  /** The k-th jitter offset, zero when none was drawn. */
  function Offset(offsets: seq<Point>, k: nat): Point {
    if k < |offsets| then offsets[k] else Point(0.0, 0.0)
  }

  /** `{cx: worldX + jitterX, cy: worldY + jitterY}` for the k-th
      accepted point. */
  function JitterOne(p: Point, k: nat, jitter: bool, offsets: seq<Point>): Point {
    var jx := if jitter then Offset(offsets, k).x else 0.0;
    var jy := if jitter then Offset(offsets, k).y else 0.0;
    Point(p.x + jx, p.y + jy)
  }

  function Jittered(pts: seq<Point>, jitter: bool, offsets: seq<Point>): (r: seq<Point>)
    ensures |r| == |pts|
    ensures forall k :: 0 <= k < |pts| ==> r[k] == JitterOne(pts[k], k, jitter, offsets)
  {
    seq(|pts|, k requires 0 <= k < |pts| => JitterOne(pts[k], k, jitter, offsets))
  }

  lemma JitteredSnoc(pts: seq<Point>, p: Point, jitter: bool, offsets: seq<Point>)
    ensures Jittered(pts + [p], jitter, offsets)
            == Jittered(pts, jitter, offsets) + [JitterOne(p, |pts|, jitter, offsets)]
  {
    assert forall k :: 0 <= k < |pts| ==> (pts + [p])[k] == pts[k];
  }

  /** The memo's result: nothing without a closed area of at least three
      vertices, otherwise the first `amount` accepted grid points in
      row-major order, jittered. */
  function Dots(area: bool, poly: seq<Point>, s: Settings, offsets: seq<Point>): (r: seq<Point>)
    requires s.size + s.gap > 0.0
    ensures |r| <= s.amount
    ensures !area || |poly| < 3 ==> r == []
    // The memo stops at `amount` only when the grid has that many points
    // to offer.
    ensures area && |poly| >= 3 ==>
              var f := MakeFrame(poly, s);
              var n := |Accepted(GridRows(f, f.maxSteps), poly, s.padding)|;
              |r| == if n < s.amount then n else s.amount
  {
    if !area || |poly| < 3 then []
    else
      var f := MakeFrame(poly, s);
      Jittered(Take(Accepted(GridRows(f, f.maxSteps), poly, s.padding), s.amount),
               s.randomJitter, offsets)
  }

  /** Every dot passed the three tests: inside the padded box, inside the
      polygon, clear of the edges unless the padding is zero; with jitter,
      taking the k-th offset back off gives such a point. */
  lemma DotsPass(area: bool, poly: seq<Point>, s: Settings, offsets: seq<Point>)
    requires s.size + s.gap > 0.0
    ensures var r := Dots(area, poly, s, offsets);
            && (!s.randomJitter ==> forall k :: 0 <= k < |r| ==> Accept(r[k], poly, s.padding))
            && (s.randomJitter ==> forall k :: 0 <= k < |r| ==>
                  Accept(Point(r[k].x - Offset(offsets, k).x, r[k].y - Offset(offsets, k).y), poly, s.padding))
  {
    if area && |poly| >= 3 {
      var f := MakeFrame(poly, s);
      AcceptedPass(GridRows(f, f.maxSteps), poly, s.padding);
    }
  }

  /** A point lies in the half-open 2 × 2 square above and to the right
      of some point that passed the three tests. */
  ghost predicate NearOne(p: Point, poly: seq<Point>, padding: real) {
    exists q :: Accept(q, poly, padding) && q.x <= p.x < q.x + 2.0 && q.y <= p.y < q.y + 2.0
  }

  /** Every dot lies near an accepted point in the sense of `NearOne`. */
  ghost predicate NearAccepted(r: seq<Point>, poly: seq<Point>, padding: real) {
    forall k :: 0 <= k < |r| ==> NearOne(r[k], poly, padding)
  }

  /** One dot: an offset in [0, 2) taken back off gives an accepted point,
      or without jitter the dot is accepted itself. */
  lemma NearFromOffset(p: Point, o: Point, jitter: bool, poly: seq<Point>, padding: real)
    requires 0.0 <= o.x < 2.0 && 0.0 <= o.y < 2.0
    requires jitter ==> Accept(Point(p.x - o.x, p.y - o.y), poly, padding)
    requires !jitter ==> Accept(p, poly, padding)
    ensures NearOne(p, poly, padding)
  {
    var q := if jitter then Point(p.x - o.x, p.y - o.y) else p;
    assert Accept(q, poly, padding) && q.x <= p.x < q.x + 2.0 && q.y <= p.y < q.y + 2.0;
  }

  /** With `Math.random() * 2` offsets, each in [0, 2), every dot lies in
      the half-open square [q.x, q.x + 2) × [q.y, q.y + 2) of a point q
      that passed the three tests; without jitter q is the dot itself. */
  lemma DotsNearAccepted(area: bool, poly: seq<Point>, s: Settings, offsets: seq<Point>)
    requires s.size + s.gap > 0.0
    requires forall k :: 0 <= k < |offsets| ==>
               0.0 <= offsets[k].x < 2.0 && 0.0 <= offsets[k].y < 2.0
    ensures NearAccepted(Dots(area, poly, s, offsets), poly, s.padding)
  {
    var r := Dots(area, poly, s, offsets);
    DotsPass(area, poly, s, offsets);
    forall k | 0 <= k < |r|
      ensures NearOne(r[k], poly, s.padding)
    {
      NearFromOffset(r[k], Offset(offsets, k), s.randomJitter, poly, s.padding);
    }
  }

  /** The first `rows` rows hold `rows · maxSteps` candidates. */
  lemma {:induction false} GridRowsLength(f: Frame, rows: nat)
    ensures |GridRows(f, rows)| == rows * f.maxSteps
  {
    if rows > 0 {
      GridRowsLength(f, rows - 1);
      assert (rows - 1) * f.maxSteps + f.maxSteps == rows * f.maxSteps;
    }
  }

  /** The nested loops examine at most maxSteps² candidates, so the area
      never gets more dots than that, whatever amount was asked for. */
  lemma CandidatesExamined(area: bool, poly: seq<Point>, s: Settings, offsets: seq<Point>)
    requires s.size + s.gap > 0.0 && area && |poly| >= 3
    ensures var f := MakeFrame(poly, s);
            && |GridRows(f, f.maxSteps)| == f.maxSteps * f.maxSteps
            && |Dots(area, poly, s, offsets)| <= f.maxSteps * f.maxSteps
  {
    var f := MakeFrame(poly, s);
    GridRowsLength(f, f.maxSteps);
  }

  // ---------------------------------------------------------------------
  // Facts about the reference

  lemma {:induction false} AcceptedConcat(a: seq<Point>, b: seq<Point>, poly: seq<Point>, padding: real)
    ensures Accepted(a + b, poly, padding) == Accepted(a, poly, padding) + Accepted(b, poly, padding)
    decreases |b|
  {
    if |b| == 0 {
      assert a + b == a;
    } else {
      var b' := b[..|b| - 1];
      assert (a + b)[..|a + b| - 1] == a + b';
      assert (a + b)[|a + b| - 1] == b[|b| - 1];
      AcceptedConcat(a, b', poly, padding);
    }
  }

  lemma TakeOfLonger(a: seq<Point>, b: seq<Point>, n: nat)
    requires |a| >= n
    ensures Take(a + b, n) == Take(a, n)
  {
    assert (a + b)[..n] == a[..n];
  }

  /** Every accepted point is one of the candidates. */
  lemma {:induction false} AcceptedSubset(s: seq<Point>, poly: seq<Point>, padding: real)
    ensures forall k :: 0 <= k < |Accepted(s, poly, padding)| ==> Accepted(s, poly, padding)[k] in s
  {
    if |s| > 0 {
      AcceptedSubset(s[..|s| - 1], poly, padding);
      assert forall q :: q in s[..|s| - 1] ==> q in s;
    }
  }

  /** Every cell of the first `rows` rows is a grid position within the
      `maxSteps` × `maxSteps` square. */
  lemma {:induction false} GridRowsCells(f: Frame, rows: nat, p: Point)
    requires p in GridRows(f, rows)
    ensures exists row: nat, col: nat :: row < rows && col < f.maxSteps && p == Candidate(f, row, col)
  {
    var prev := GridRows(f, rows - 1);
    var last := RowCells(f, rows - 1, f.maxSteps);
    assert GridRows(f, rows) == prev + last;
    if p in prev {
      GridRowsCells(f, rows - 1, p);
    } else {
      var c :| 0 <= c < |last| && last[c] == p;
      assert p == Candidate(f, rows - 1, c);
    }
  }

  /** Without jitter, every dot sits exactly on the rotated grid: it is
      `start + col·step·dirX + row·step·dirY` for a row and a column below
      `maxSteps`. */
  lemma DotsOnGrid(poly: seq<Point>, s: Settings, offsets: seq<Point>)
    requires s.size + s.gap > 0.0 && |poly| >= 3 && !s.randomJitter
    ensures var f := MakeFrame(poly, s);
            forall k :: 0 <= k < |Dots(true, poly, s, offsets)| ==>
              exists row: nat, col: nat :: row < f.maxSteps && col < f.maxSteps
                && Dots(true, poly, s, offsets)[k] == Candidate(f, row, col)
  {
    var f := MakeFrame(poly, s);
    var cells := GridRows(f, f.maxSteps);
    var acc := Accepted(cells, poly, s.padding);
    AcceptedSubset(cells, poly, s.padding);
    var r := Dots(true, poly, s, offsets);
    forall k | 0 <= k < |r|
      ensures exists row: nat, col: nat :: row < f.maxSteps && col < f.maxSteps
                && r[k] == Candidate(f, row, col)
    {
      assert r[k] == acc[k];
      GridRowsCells(f, f.maxSteps, acc[k]);
    }
  }

  // ---------------------------------------------------------------------
  // The nested loops

  /** `points.every(...)` over the edges (i, (i + 1) % n). */
  method EdgesClear(p: Point, poly: seq<Point>, padding: real) returns (ok: bool)
    ensures ok <==> ClearOfEdges(p, poly, padding)
  {
    var i := 0;
    while i < |poly|
      invariant 0 <= i <= |poly|
      invariant forall k :: 0 <= k < i ==> ClearOfEdge(p, poly, k, padding)
    {
      if !ClearOf(p, poly[i], poly[(i + 1) % |poly|], padding) {
        assert !ClearOfEdge(p, poly, i, padding);
        return false;
      }
      i := i + 1;
    }
    return true;
  }

  /** The decision the loop body takes for one cell. */
  method Test(p: Point, poly: seq<Point>, padding: real) returns (accept: bool)
    ensures accept <==> Accept(p, poly, padding)
  {
    if OutsidePadded(p, PolygonBounds(poly), padding) {
      return false;
    }
    var inside := IsPointInPolygon(p, poly);
    InPolygonIsOddCrossings(p, poly);
    if !inside {
      return false;
    }
    var clear := EdgesClear(p, poly, padding);
    accept := clear || padding == 0.0;
  }

  /** The cells the loops have visited before cell (row, col). */
  function Visited(f: Frame, row: nat, col: nat): seq<Point> {
    GridRows(f, row) + RowCells(f, row, col)
  }

  /** The accepted points collected by then (at most `amount`). */
  function Chosen(f: Frame, row: nat, col: nat, poly: seq<Point>, padding: real, amount: nat): seq<Point> {
    Take(Accepted(Visited(f, row, col), poly, padding), amount)
  }

  /** Visiting one more cell appends it when it is accepted and room is
      left. */
  lemma ChosenStep(f: Frame, row: nat, col: nat, poly: seq<Point>, padding: real, amount: nat)
    requires |Chosen(f, row, col, poly, padding, amount)| < amount
    ensures var p := Candidate(f, row, col);
            Chosen(f, row, col + 1, poly, padding, amount)
            == Chosen(f, row, col, poly, padding, amount) + (if Accept(p, poly, padding) then [p] else [])
  {
    var p := Candidate(f, row, col);
    assert Visited(f, row, col) + [p] == Visited(f, row, col + 1);
    AcceptedConcat(Visited(f, row, col), [p], poly, padding);
  }

  /** Once `amount` points are chosen from a prefix of the cells, the
      cells after it change nothing. */
  lemma PrefixSaturated(seen: seq<Point>, all: seq<Point>, poly: seq<Point>, padding: real, amount: nat)
    requires seen <= all
    requires |Take(Accepted(seen, poly, padding), amount)| == amount
    ensures Take(Accepted(all, poly, padding), amount) == Take(Accepted(seen, poly, padding), amount)
  {
    var rest := all[|seen|..];
    assert seen + rest == all;
    AcceptedConcat(seen, rest, poly, padding);
    TakeOfLonger(Accepted(seen, poly, padding), Accepted(rest, poly, padding), amount);
  }

  /** A row scan that ran to the end of the row, or stopped with `amount`
      points, leaves what the first row + 1 rows give. */
  lemma RowStep(f: Frame, row: nat, col: nat, poly: seq<Point>, padding: real, amount: nat)
    requires col <= f.maxSteps
    requires col == f.maxSteps || |Chosen(f, row, col, poly, padding, amount)| == amount
    ensures Chosen(f, row, col, poly, padding, amount) == Chosen(f, row + 1, 0, poly, padding, amount)
  {
    assert Visited(f, row + 1, 0) == GridRows(f, row + 1);
    if col == f.maxSteps {
      assert Visited(f, row, col) == GridRows(f, row + 1);
    } else {
      assert RowCells(f, row, col) <= RowCells(f, row, f.maxSteps);
      assert Visited(f, row, col) <= GridRows(f, row + 1);
      PrefixSaturated(Visited(f, row, col), GridRows(f, row + 1), poly, padding, amount);
    }
  }

  /** The inner loop over the columns of one row. */
  method ScanRow(f: Frame, row: nat, poly: seq<Point>, s: Settings, offsets: seq<Point>,
                 dots0: seq<Point>) returns (dots: seq<Point>, col: nat)
    requires dots0 == Jittered(Chosen(f, row, 0, poly, s.padding, s.amount), s.randomJitter, offsets)
    ensures col <= f.maxSteps
    ensures dots == Jittered(Chosen(f, row, col, poly, s.padding, s.amount), s.randomJitter, offsets)
    ensures col == f.maxSteps || |dots| == s.amount
  {
    ghost var acc := Chosen(f, row, 0, poly, s.padding, s.amount);
    dots := dots0;
    var count := |dots0|;
    col := 0;
    while col < f.maxSteps && count < s.amount
      invariant 0 <= col <= f.maxSteps
      invariant acc == Chosen(f, row, col, poly, s.padding, s.amount)
      invariant count == |acc| == |dots|
      invariant dots == Jittered(acc, s.randomJitter, offsets)
    {
      var p := Candidate(f, row, col);
      ChosenStep(f, row, col, poly, s.padding, s.amount);
      var ok := Test(p, poly, s.padding);
      if ok {
        JitteredSnoc(acc, p, s.randomJitter, offsets);
        dots := dots + [JitterOne(p, count, s.randomJitter, offsets)];
        acc := acc + [p];
        count := count + 1;
      }
      col := col + 1;
    }
  }

  /** The outer loop over the rows of a grid. */
  method ScanGrid(f: Frame, poly: seq<Point>, s: Settings, offsets: seq<Point>)
    returns (dots: seq<Point>)
    ensures dots == Jittered(Take(Accepted(GridRows(f, f.maxSteps), poly, s.padding), s.amount),
                             s.randomJitter, offsets)
  {
    dots := [];
    var row := 0;
    while row < f.maxSteps && |dots| < s.amount
      invariant row <= f.maxSteps
      invariant dots == Jittered(Chosen(f, row, 0, poly, s.padding, s.amount), s.randomJitter, offsets)
    {
      var col;
      dots, col := ScanRow(f, row, poly, s, offsets, dots);
      RowStep(f, row, col, poly, s.padding, s.amount);
      row := row + 1;
    }
    GridStops(f, row, poly, s.padding, s.amount);
  }

  /** The outer loop ends on the last row, or earlier with `amount` points
      already chosen; either way it has chosen what the whole grid gives. */
  lemma GridStops(f: Frame, row: nat, poly: seq<Point>, padding: real, amount: nat)
    requires row <= f.maxSteps
    requires row == f.maxSteps || |Chosen(f, row, 0, poly, padding, amount)| >= amount
    ensures Chosen(f, row, 0, poly, padding, amount)
            == Take(Accepted(GridRows(f, f.maxSteps), poly, padding), amount)
  {
    assert Visited(f, row, 0) == GridRows(f, row);
    if row < f.maxSteps {
      GridRowsPrefix(f, row, f.maxSteps);
      PrefixSaturated(GridRows(f, row), GridRows(f, f.maxSteps), poly, padding, amount);
    }
  }

  /** The memo as written: rows outside, columns inside, both loops
      stopping as soon as `amount` dots have been collected. */
  method GenerateDots(area: bool, poly: seq<Point>, s: Settings, offsets: seq<Point>)
    returns (dots: seq<Point>)
    requires s.size + s.gap > 0.0
    ensures dots == Dots(area, poly, s, offsets)
  {
    if !area || |poly| < 3 {
      return [];
    }
    var f := MakeFrame(poly, s);
    dots := ScanGrid(f, poly, s, offsets);
  }

  lemma {:induction false} GridRowsPrefix(f: Frame, r: nat, r': nat)
    requires r <= r'
    ensures GridRows(f, r) <= GridRows(f, r')
    decreases r' - r
  {
    if r < r' {
      GridRowsPrefix(f, r, r' - 1);
    }
  }
}
