/** `draw_line_between_contours`: the boundary between two contours.

    Crossing lines are drawn from every vertex of one contour to its
    closest point on the other, those that cross their own contour are
    dropped, crossing pairs are removed by `FilterCrossingLines`, the rest
    are ordered along the contours and closed off with connectors between
    the contour ends.  Each crossing line then gets a normalised height in
    `last_pos .. current_pos`; the output vertex of a line is the point at
    that fraction of its length. */
module Interpolator {
  import opened Errors
  import opened Geometry
  import StableSort
  import CrossingFilter

  // ------------------------------------------------------ crossing lines

  /** A two-vertex crossing line. */
  function Connector(a: Point, b: Point): (l: Line)
    ensures First(l) == a && Last(l) == b && |l.vertices| == 2
  {
    Polyline([a, b])
  }

  /** `x_lines1`: from each vertex of the low contour to its closest point
      on the high contour. */
  function LowToHigh(g: Geo, low: Line, high: Line): (r: seq<Line>)
    ensures |r| == |low.vertices|
    ensures forall i :: 0 <= i < |r| ==>
      r[i] == Connector(low.vertices[i], Snap(g, high, low.vertices[i]))
  {
    seq(|low.vertices|, i requires 0 <= i < |low.vertices| =>
      Connector(low.vertices[i], Snap(g, high, low.vertices[i])))
  }

  /** `x_lines2`: from the closest point on the low contour to each vertex
      of the high contour. */
  function HighToLow(g: Geo, low: Line, high: Line): (r: seq<Line>)
    ensures |r| == |high.vertices|
    ensures forall i :: 0 <= i < |r| ==>
      r[i] == Connector(Snap(g, low, high.vertices[i]), high.vertices[i])
  {
    seq(|high.vertices|, i requires 0 <= i < |high.vertices| =>
      Connector(Snap(g, low, high.vertices[i]), high.vertices[i]))
  }

  function NotCrossing(g: Geo, contour: Line): Line -> bool {
    (l: Line) => !g.crosses(l, contour)
  }

  /** `_remove_intersecting_lines`: despite its name it keeps exactly the
      lines that do NOT cross the contour, in their original order. */
  method RemoveIntersectingLines(g: Geo, lines: seq<Line>, contour: Line) returns (r: seq<Line>)
    ensures r == StableSort.Filter(lines, NotCrossing(g, contour))
    ensures forall i :: 0 <= i < |r| ==> r[i] in lines && !g.crosses(r[i], contour)
    ensures forall i :: 0 <= i < |lines| && !g.crosses(lines[i], contour) ==> lines[i] in r
  {
    r := [];
    for i := 0 to |lines|
      invariant r == StableSort.Filter(lines[..i], NotCrossing(g, contour))
    {
      assert lines[..i + 1] == lines[..i] + [lines[i]];
      StableSort.FilterSnoc(lines[..i], lines[i], NotCrossing(g, contour));
      if !g.crosses(lines[i], contour) {
        r := r + [lines[i]];
      }
    }
    assert lines[..|lines|] == lines;
  }

  // ----------------------------------------------------------- ordering

  /** Sort keys of `_sort_lines`: where a line starts along the low
      contour and where it ends along the high contour. */
  function LowKey(g: Geo, low: Line): Line -> real {
    (l: Line) => g.project(low, First(l))
  }

  function HighKey(g: Geo, high: Line): Line -> real {
    (l: Line) => g.project(high, Last(l))
  }

  /** `_sort_lines`: the crossing filter applied to `x_lines1 + x_lines2`,
      then a stable sort by low-contour station followed by one by
      high-contour station. */
  function SortLines(g: Geo, x1: seq<Line>, x2: seq<Line>, low: Line, high: Line): (r: Result<seq<Line>>)
    ensures r.Err? <==> CrossingFilter.FilterLines(g, x1 + x2).Err?
    ensures r.Err? ==> r == CrossingFilter.FilterLines(g, x1 + x2)
    ensures r.Ok? ==> multiset(r.value) == multiset(CrossingFilter.FilterLines(g, x1 + x2).value)
    ensures r.Ok? ==> StableSort.SortedBy(r.value, HighKey(g, high))
    ensures r.Ok? ==> forall i, j :: 0 <= i < j < |r.value| && HighKey(g, high)(r.value[i]) == HighKey(g, high)(r.value[j]) ==>
      LowKey(g, low)(r.value[i]) <= LowKey(g, low)(r.value[j])
  {
    var kept :- CrossingFilter.FilterLines(g, x1 + x2);
    StableSort.SortTwiceLexicographic(kept, LowKey(g, low), HighKey(g, high));
    Ok(StableSort.SortBy(StableSort.SortBy(kept, LowKey(g, low)), HighKey(g, high)))
  }

  // -------------------------------------------------------- connectors

  /** The lines open with one the same as the connector between the
      contours' first vertices and close with one the same as the
      connector between their last vertices. */
  predicate Framed(xs: seq<Line>, low: Line, high: Line) {
    && |xs| > 0
    && PolylineSameAs(xs[0], Connector(First(low), First(high)))
    && PolylineSameAs(xs[|xs| - 1], Connector(Last(low), Last(high)))
  }

  /** The end connectors: `[low.last, high.last]` is appended unless it is
      "the same as" the last line, then `[low.first, high.first]` is
      inserted in front unless it is the same as the first line. */
  function AddEndConnectors(low: Line, high: Line, xs: seq<Line>): (r: Result<seq<Line>>)
    ensures |xs| == 0 <==> r == Err(IndexError)
    ensures r.Ok? ==> |xs| <= |r.value| <= |xs| + 2
    ensures r.Ok? ==> r.value[..|xs|] == xs || (|r.value| > |xs| && r.value[1..|xs| + 1] == xs)
    ensures r.Ok? ==> Framed(r.value, low, high)
  {
    if |xs| == 0 then Err(IndexError)
    else
      var tail := Connector(Last(low), Last(high));
      var a := if PolylineSameAs(tail, xs[|xs| - 1]) then xs else xs + [tail];
      var head := Connector(First(low), First(high));
      PolylineSameAsSymmetric(tail, xs[|xs| - 1]);
      PolylineSameAsSymmetric(head, a[0]);
      PolylineSameAsReflexive(head);
      PolylineSameAsReflexive(tail);
      var r := if PolylineSameAs(head, a[0]) then a else [head] + a;
      assert r[|r| - 1] == a[|a| - 1];
      assert r[..|xs|] == xs || r[1..|xs| + 1] == xs by {
        if PolylineSameAs(head, a[0]) {
          assert r[..|xs|] == a[..|xs|];
        } else {
          assert r[1..|xs| + 1] == a[..|xs|];
        }
      }
      Ok(r)
  }

  lemma PolylineSameAsSymmetric(a: Polyline, b: Polyline)
    ensures PolylineSameAs(a, b) == PolylineSameAs(b, a)
  {
  }

  lemma PolylineSameAsReflexive(a: Polyline)
    ensures PolylineSameAs(a, a)
  {
  }

  /** Two ends away from each other: the sorted lines are kept and both
      connectors are added. */
  lemma ConnectorsBothAdded(low: Line, high: Line, xs: seq<Line>)
    requires |xs| > 0
    requires !PolylineSameAs(Connector(Last(low), Last(high)), xs[|xs| - 1])
    requires !PolylineSameAs(Connector(First(low), First(high)), xs[0])
    ensures AddEndConnectors(low, high, xs)
      == Ok([Connector(First(low), First(high))] + xs + [Connector(Last(low), Last(high))])
  {
    var head := Connector(First(low), First(high));
    var tail := Connector(Last(low), Last(high));
    assert (xs + [tail])[0] == xs[0];
    assert [head] + (xs + [tail]) == [head] + xs + [tail];
  }

  // ---------------------------------------------------------- heights

  /** The normalisation step: every line's distance `d` becomes
      `m * d + last_pos` with `m = (current_pos - last_pos) / total`, then
      the first line is pinned to `last_pos` and the last one to
      `current_pos` (in that order, so a single line gets `current_pos`).
      A zero total divides by zero. */
  function Heights(d: seq<real>, total: real, lastPos: real, curPos: real): (r: Result<seq<real>>)
    requires |d| > 0
    ensures total == 0.0 <==> r == Err(ZeroDivisionError)
    ensures r.Ok? ==> |r.value| == |d|
    ensures r.Ok? ==> r.value[|d| - 1] == curPos && (|d| > 1 ==> r.value[0] == lastPos)
    ensures r.Ok? ==> forall i :: 0 < i < |d| - 1 ==>
      (r.value[i] - lastPos) * total == (curPos - lastPos) * d[i]
  {
    if total == 0.0 then Err(ZeroDivisionError)
    else
      var m := (curPos - lastPos) / total;
      var h := seq(|d|, i requires 0 <= i < |d| => m * d[i] + lastPos);
      Ok(h[0 := lastPos][|d| - 1 := curPos])
  }

  /** `h` starts at `a`, ends at `b`, and runs monotonically from one to
      the other without leaving the range between them. */
  predicate MonotoneFromTo(h: seq<real>, a: real, b: real) {
    && |h| > 0 && h[0] == a && h[|h| - 1] == b
    && (a <= b ==> forall i, j :: 0 <= i <= j < |h| ==> a <= h[i] <= h[j] <= b)
    && (b <= a ==> forall i, j :: 0 <= i <= j < |h| ==> b <= h[j] <= h[i] <= a)
  }

  /** Heights lie between the two positions and move monotonically from
      `last_pos` to `current_pos` whenever the interior distances are
      non-decreasing and within `0 .. total`. */
  lemma HeightsMonotone(d: seq<real>, total: real, lastPos: real, curPos: real)
    requires |d| > 1 && total > 0.0
    requires forall i :: 0 < i < |d| - 1 ==> 0.0 <= d[i] <= total
    requires forall i, j :: 0 < i <= j < |d| - 1 ==> d[i] <= d[j]
    ensures Heights(d, total, lastPos, curPos).Ok?
    ensures MonotoneFromTo(Heights(d, total, lastPos, curPos).value, lastPos, curPos)
  {
    var h := Heights(d, total, lastPos, curPos).value;
    forall i, j | 0 <= i <= j < |d|
      ensures lastPos <= curPos ==> lastPos <= h[i] <= h[j] <= curPos
      ensures curPos <= lastPos ==> curPos <= h[j] <= h[i] <= lastPos
    {
      HeightPair(d, total, lastPos, curPos, i, j);
    }
  }

  lemma HeightPair(d: seq<real>, total: real, lastPos: real, curPos: real, i: nat, j: nat)
    requires i <= j < |d| && |d| > 1 && total > 0.0
    requires forall k :: 0 < k < |d| - 1 ==> 0.0 <= d[k] <= total
    requires forall k, l :: 0 < k <= l < |d| - 1 ==> d[k] <= d[l]
    ensures var h := Heights(d, total, lastPos, curPos).value;
      && (lastPos <= curPos ==> lastPos <= h[i] <= h[j] <= curPos)
      && (curPos <= lastPos ==> curPos <= h[j] <= h[i] <= lastPos)
  {
    var h := Heights(d, total, lastPos, curPos).value;
    if i == 0 {
      HeightBetween(d, total, lastPos, curPos, j);
      assert h[i] == lastPos;
    } else if j == |d| - 1 {
      HeightBetween(d, total, lastPos, curPos, i);
      assert h[j] == curPos;
    } else {
      HeightBetween(d, total, lastPos, curPos, i);
      HeightBetween(d, total, lastPos, curPos, j);
      assert d[i] <= d[j];
      HeightAt(d, total, lastPos, curPos, i);
      HeightAt(d, total, lastPos, curPos, j);
      AffineMonotone(lastPos, curPos, total, d[i], d[j], h[i], h[j]);
    }
  }

  /** An interior height is the affine image of its distance. */
  lemma HeightAt(d: seq<real>, total: real, lastPos: real, curPos: real, i: nat)
    requires 0 < i < |d| - 1 && total != 0.0
    ensures Heights(d, total, lastPos, curPos).value[i] == (curPos - lastPos) / total * d[i] + lastPos
  {
  }

  lemma HeightBetween(d: seq<real>, total: real, lastPos: real, curPos: real, i: nat)
    requires i < |d| && |d| > 1 && total > 0.0
    requires forall k :: 0 < k < |d| - 1 ==> 0.0 <= d[k] <= total
    ensures var h := Heights(d, total, lastPos, curPos).value;
      && (lastPos <= curPos ==> lastPos <= h[i] <= curPos)
      && (curPos <= lastPos ==> curPos <= h[i] <= lastPos)
  {
    var h := Heights(d, total, lastPos, curPos).value;
    if 0 < i < |d| - 1 {
      HeightAt(d, total, lastPos, curPos, i);
      AffineBetween(lastPos, curPos, total, d[i], h[i]);
    } else if i == 0 {
      assert h[i] == lastPos;
    } else {
      assert h[i] == curPos;
    }
  }

  /** `y = (b - a) / t * x + a` with `x` in `0 .. t` lies between `a`
      and `b`. */
  lemma AffineBetween(a: real, b: real, t: real, x: real, y: real)
    requires t > 0.0 && 0.0 <= x <= t && y == (b - a) / t * x + a
    ensures a <= b ==> a <= y <= b
    ensures b <= a ==> b <= y <= a
  {
    var m := (b - a) / t;
    SlopeSign(a, b, t);
    ScaleBetween(m, x, t);
  }

  /** The same affine map is monotone, rising or falling with `b - a`. */
  lemma AffineMonotone(a: real, b: real, t: real, x: real, x': real, y: real, y': real)
    requires t > 0.0 && x <= x'
    requires y == (b - a) / t * x + a && y' == (b - a) / t * x' + a
    ensures a <= b ==> y <= y'
    ensures b <= a ==> y' <= y
  {
    var m := (b - a) / t;
    SlopeSign(a, b, t);
    ScaleMonotone(m, x, x');
  }

  lemma SlopeSign(a: real, b: real, t: real)
    requires t > 0.0
    ensures (b - a) / t * t == b - a
    ensures a <= b ==> (b - a) / t >= 0.0
    ensures b <= a ==> (b - a) / t <= 0.0
  {
  }

  lemma ScaleBetween(m: real, x: real, total: real)
    requires 0.0 <= x <= total
    ensures m >= 0.0 ==> 0.0 <= m * x <= m * total
    ensures m <= 0.0 ==> m * total <= m * x <= 0.0
  {
    assert m * total - m * x == m * (total - x);
  }

  lemma ScaleMonotone(m: real, x: real, y: real)
    requires x <= y
    ensures m >= 0.0 ==> m * x <= m * y
    ensures m <= 0.0 ==> m * y <= m * x
  {
    assert m * y - m * x == m * (y - x);
  }

  // ------------------------------------------------------ refinement

  /** The distance from the previous test point, summed along the lines. */
  function Cumulative(g: Geo, pts: seq<Point>): (c: seq<real>)
    requires |pts| > 0
    ensures |c| == |pts| && c[0] == 0.0
    ensures forall k :: 0 < k < |pts| ==> c[k] == c[k - 1] + g.dist(pts[k - 1], pts[k])
  {
    if |pts| == 1 then [0.0]
    else
      var p := Cumulative(g, pts[..|pts| - 1]);
      p + [p[|p| - 1] + g.dist(pts[|pts| - 2], pts[|pts| - 1])]
  }

  lemma {:induction false} CumulativeAscends(g: Geo, pts: seq<Point>)
    requires |pts| > 0 && NonNegativeDistances(g)
    ensures forall i, j :: 0 <= i <= j < |pts| ==> 0.0 <= Cumulative(g, pts)[i] <= Cumulative(g, pts)[j]
  {
    var c := Cumulative(g, pts);
    if |pts| > 1 {
      CumulativeAscends(g, pts[..|pts| - 1]);
      var p := Cumulative(g, pts[..|pts| - 1]);
      forall k | 0 <= k < |p|
        ensures c[k] == p[k]
      {
        if k > 0 {
          assert c[k] == c[k - 1] + g.dist(pts[k - 1], pts[k]);
        }
      }
      assert c[|pts| - 1] == p[|p| - 1] + g.dist(pts[|pts| - 2], pts[|pts| - 1]);
    }
  }

  /** The point at fraction `h[i]` of each crossing line. */
  function TestPoints(g: Geo, xs: seq<Line>, h: seq<real>): (pts: seq<Point>)
    requires |h| == |xs|
    ensures |pts| == |xs|
    ensures forall i :: 0 <= i < |xs| ==> pts[i] == g.interpolateNormalized(xs[i], h[i])
  {
    seq(|xs|, i requires 0 <= i < |xs| => g.interpolateNormalized(xs[i], h[i]))
  }

  /** Distances and heights of the crossing lines. */
  datatype Attrs = Attrs(dist: seq<real>, height: seq<real>)

  /** One pass of the refinement loop: new test points, distances summed
      from the second line on (the first line keeps its old distance), the
      last sum as total, and the heights renormalised and pinned. */
  function Refine(g: Geo, xs: seq<Line>, at: Attrs, lastPos: real, curPos: real): (r: Result<Attrs>)
    requires |xs| > 0 && |at.dist| == |xs| && |at.height| == |xs|
    ensures |xs| == 1 ==> r == Err(ZeroDivisionError)
    ensures r.Ok? ==> |r.value.dist| == |xs| && |r.value.height| == |xs|
    ensures r.Ok? ==> r.value.dist[0] == at.dist[0]
    ensures r.Ok? ==> forall i :: 0 < i < |xs| ==>
      r.value.dist[i] == Cumulative(g, TestPoints(g, xs, at.height))[i]
    ensures r.Ok? <==> Cumulative(g, TestPoints(g, xs, at.height))[|xs| - 1] != 0.0
    ensures r.Ok? ==> r.value.height == Heights(r.value.dist, r.value.dist[|xs| - 1], lastPos, curPos).value
  {
    var c := Cumulative(g, TestPoints(g, xs, at.height));
    var d := [at.dist[0]] + c[1..];
    var total := c[|xs| - 1];
    assert |xs| > 1 ==> d[|xs| - 1] == total;
    var h :- Heights(d, total, lastPos, curPos);
    Ok(Attrs(d, h))
  }

  /** `for i in range(3)`: `k` refinement passes. */
  function Refinements(g: Geo, xs: seq<Line>, at: Attrs, lastPos: real, curPos: real, k: nat): (r: Result<Attrs>)
    requires |xs| > 0 && |at.dist| == |xs| && |at.height| == |xs|
    ensures r.Ok? ==> |r.value.dist| == |xs| && |r.value.height| == |xs|
    ensures k > 0 && |xs| == 1 ==> r == Err(ZeroDivisionError)
    ensures k > 0 && r.Ok? ==> |xs| > 1
    ensures r.Err? ==> r == Err(ZeroDivisionError)
    decreases k
  {
    if k == 0 then Ok(at)
    else
      var at' :- Refine(g, xs, at, lastPos, curPos);
      Refinements(g, xs, at', lastPos, curPos, k - 1)
  }

  /** After any refinement pass the heights run monotonically from
      `last_pos` to `current_pos`, whatever the geometry, as long as
      distances are non-negative. */
  lemma RefinedHeightsMonotone(g: Geo, xs: seq<Line>, at: Attrs, lastPos: real, curPos: real)
    requires NonNegativeDistances(g)
    requires |xs| > 0 && |at.dist| == |xs| && |at.height| == |xs|
    requires Refine(g, xs, at, lastPos, curPos).Ok?
    ensures MonotoneFromTo(Refine(g, xs, at, lastPos, curPos).value.height, lastPos, curPos)
  {
    var c := Cumulative(g, TestPoints(g, xs, at.height));
    var d := Refine(g, xs, at, lastPos, curPos).value.dist;
    var total := d[|xs| - 1];
    CumulativeAscends(g, TestPoints(g, xs, at.height));
    assert total == c[|xs| - 1] && total != 0.0;
    assert total > 0.0 by {
      assert 0.0 <= c[|xs| - 1];
    }
    HeightsMonotone(d, total, lastPos, curPos);
  }

  lemma {:induction false} RefinementsMonotone(g: Geo, xs: seq<Line>, at: Attrs, lastPos: real, curPos: real, k: nat)
    requires NonNegativeDistances(g) && k > 0
    requires |xs| > 0 && |at.dist| == |xs| && |at.height| == |xs|
    requires Refinements(g, xs, at, lastPos, curPos, k).Ok?
    ensures MonotoneFromTo(Refinements(g, xs, at, lastPos, curPos, k).value.height, lastPos, curPos)
    decreases k
  {
    var at' := Refine(g, xs, at, lastPos, curPos).value;
    if k == 1 {
      RefinedHeightsMonotone(g, xs, at, lastPos, curPos);
      assert Refinements(g, xs, at', lastPos, curPos, 0) == Ok(at');
    } else {
      assert Refinements(g, xs, at, lastPos, curPos, k) == Refinements(g, xs, at', lastPos, curPos, k - 1);
      RefinementsMonotone(g, xs, at', lastPos, curPos, k - 1);
    }
  }

  // ----------------------------------------------------------- driver

  /** The crossing lines that survive both contour filters and the
      crossing filter, in contour order.  The two `assert x_lines != []`
      fail when every line from one contour crosses that contour. */
  function KeptLines(g: Geo, low: Line, high: Line): (r: Result<seq<Line>>)
    ensures StableSort.Filter(LowToHigh(g, low, high), NotCrossing(g, low)) == [] ==> r == Err(AssertionFailed)
    ensures StableSort.Filter(HighToLow(g, low, high), NotCrossing(g, high)) == [] ==> r == Err(AssertionFailed)
    ensures var x1 := StableSort.Filter(LowToHigh(g, low, high), NotCrossing(g, low));
      var x2 := StableSort.Filter(HighToLow(g, low, high), NotCrossing(g, high));
      x1 != [] && x2 != [] ==> r == SortLines(g, x1, x2, low, high)
  {
    var x1 := StableSort.Filter(LowToHigh(g, low, high), NotCrossing(g, low));
    if x1 == [] then Err(AssertionFailed)
    else
      var x2 := StableSort.Filter(HighToLow(g, low, high), NotCrossing(g, high));
      if x2 == [] then Err(AssertionFailed)
      else SortLines(g, x1, x2, low, high)
  }

  /** The crossing lines after filtering, ordering and the end connectors:
      never empty, and opening and closing with lines the same as the
      connectors between the contours' ends. */
  function CrossingLines(g: Geo, low: Line, high: Line): (r: Result<seq<Line>>)
    ensures StableSort.Filter(LowToHigh(g, low, high), NotCrossing(g, low)) == [] ==> r == Err(AssertionFailed)
    ensures r.Ok? ==> Framed(r.value, low, high)
  {
    var sorted :- KeptLines(g, low, high);
    AddEndConnectors(low, high, sorted)
  }

  /** The station along the low contour where each crossing line starts. */
  function Distances(g: Geo, low: Line, xs: seq<Line>): (d: seq<real>)
    ensures |d| == |xs| && forall i :: 0 <= i < |xs| ==> d[i] == g.project(low, First(xs[i]))
  {
    seq(|xs|, i requires 0 <= i < |xs| => g.project(low, First(xs[i])))
  }

  /** Distances and heights after the first normalisation and the three
      refinement passes. */
  function FinalAttrs(g: Geo, low: Line, xs: seq<Line>, lastPos: real, curPos: real): (r: Result<Attrs>)
    requires |xs| > 0
    ensures r.Ok? ==> |xs| > 1 && |r.value.height| == |xs|
    ensures r.Err? ==> r == Err(ZeroDivisionError)
  {
    var d := Distances(g, low, xs);
    var h :- Heights(d, d[|xs| - 1], lastPos, curPos);
    Refinements(g, xs, Attrs(d, h), lastPos, curPos, 3)
  }

  /** `draw_line_between_contours(low, high, last_pos, current_pos)`: one
      vertex per crossing line, at its final height. */
  function DrawLineBetweenContours(g: Geo, low: Line, high: Line, lastPos: real, curPos: real): (r: Result<Line>)
    ensures CrossingLines(g, low, high).Err? ==> r.Err? && r.exc == CrossingLines(g, low, high).exc
    ensures r.Ok? ==>
      && CrossingLines(g, low, high).Ok?
      && |r.value.vertices| == |CrossingLines(g, low, high).value|
    ensures r.Ok? ==> var xs := CrossingLines(g, low, high).value;
      && FinalAttrs(g, low, xs, lastPos, curPos).Ok?
      && forall i :: 0 <= i < |xs| ==>
        r.value.vertices[i] == g.interpolateNormalized(xs[i], FinalAttrs(g, low, xs, lastPos, curPos).value.height[i])
  {
    var xs :- CrossingLines(g, low, high);
    var at :- FinalAttrs(g, low, xs, lastPos, curPos);
    var pts := TestPoints(g, xs, at.height);
    Ok(Polyline(pts))
  }

  /** The boundary starts at `last_pos` of the way along the first
      crossing line, ends at `current_pos` along the last one, and, with
      non-negative distances, every vertex's height lies between the two
      and moves monotonically from one to the other. */
  lemma DrawLineHeights(g: Geo, low: Line, high: Line, lastPos: real, curPos: real)
    requires NonNegativeDistances(g)
    requires DrawLineBetweenContours(g, low, high, lastPos, curPos).Ok?
    ensures var xs := CrossingLines(g, low, high).value;
      var h := FinalAttrs(g, low, xs, lastPos, curPos).value.height;
      var l := DrawLineBetweenContours(g, low, high, lastPos, curPos).value;
      && First(l) == g.interpolateNormalized(xs[0], lastPos)
      && Last(l) == g.interpolateNormalized(xs[|xs| - 1], curPos)
      && MonotoneFromTo(h, lastPos, curPos)
  {
    var xs := CrossingLines(g, low, high).value;
    var d := Distances(g, low, xs);
    var h0 := Heights(d, d[|xs| - 1], lastPos, curPos).value;
    assert FinalAttrs(g, low, xs, lastPos, curPos) == Refinements(g, xs, Attrs(d, h0), lastPos, curPos, 3);
    RefinementsMonotone(g, xs, Attrs(d, h0), lastPos, curPos, 3);
  }

  /** With a symmetric crossing relation neither the crossing filter's
      raises nor the `IndexError` of an empty line list can happen: the
      only failures left are the two asserts and a zero total distance. */
  lemma DrawLineErrors(g: Geo, low: Line, high: Line, lastPos: real, curPos: real)
    requires SymmetricCrossing(g)
    ensures DrawLineBetweenContours(g, low, high, lastPos, curPos).Err? ==>
      (DrawLineBetweenContours(g, low, high, lastPos, curPos).exc == AssertionFailed ||
       DrawLineBetweenContours(g, low, high, lastPos, curPos).exc == ZeroDivisionError)
  {
    var x1 := StableSort.Filter(LowToHigh(g, low, high), NotCrossing(g, low));
    var x2 := StableSort.Filter(HighToLow(g, low, high), NotCrossing(g, high));
    if x1 != [] && x2 != [] {
      KeptLinesNonEmpty(g, low, high);
      assert CrossingLines(g, low, high).Ok?;
    } else {
      assert CrossingLines(g, low, high) == Err(AssertionFailed);
    }
  }

  /** With a symmetric crossing relation, once both contour filters keep
      something the crossing filter keeps something too. */
  lemma KeptLinesNonEmpty(g: Geo, low: Line, high: Line)
    requires SymmetricCrossing(g)
    requires StableSort.Filter(LowToHigh(g, low, high), NotCrossing(g, low)) != []
    requires StableSort.Filter(HighToLow(g, low, high), NotCrossing(g, high)) != []
    ensures KeptLines(g, low, high).Ok? && |KeptLines(g, low, high).value| > 0
  {
    var x1 := StableSort.Filter(LowToHigh(g, low, high), NotCrossing(g, low));
    var x2 := StableSort.Filter(HighToLow(g, low, high), NotCrossing(g, high));
    assert CrossingFilter.SymmetricOn(g, x1 + x2);
    CrossingFilter.FilterLinesCorrect(g, x1 + x2);
    var sorted := SortLines(g, x1, x2, low, high);
    assert |multiset(sorted.value)| == |multiset(CrossingFilter.FilterLines(g, x1 + x2).value)|;
    assert KeptLines(g, low, high) == sorted;
  }
}
