/** Points, polylines and the geometry oracle.

    Every numeric geometry operation of the Python code (shapely's
    `distance`, `project`, `interpolate`, `intersection`, `crosses`,
    `length`) is a field of `Geo`, an arbitrary but fixed bundle of total
    functions.  Facts such as "distances are non-negative" or "crossing is
    symmetric" are stated only as hypotheses of the lemmas that need them. */
module Geometry {
  import opened Errors
  import StableSort

  datatype Point = Point(x: real, y: real)

  /** An `ADPolyline`: its vertex list.  `first_point`/`last_point` are the
      ends of that list and are therefore derived, not stored. */
  datatype Polyline = Polyline(vertices: seq<Point>)

  /** A polyline shapely accepts as a `LineString`: at least two vertices. */
  type Line = p: Polyline | |p.vertices| >= 2 witness Polyline([Point(0.0, 0.0), Point(0.0, 0.0)])

  function First(l: Line): Point {
    l.vertices[0]
  }

  function Last(l: Line): Point {
    l.vertices[|l.vertices| - 1]
  }

  /** What `ADPolyline.intersection` returns: `None`, one `ADPoint`, or the
      list of points of a `MultiPoint`. */
  datatype Ix = NoPoint | OnePoint(p: Point) | ManyPoints(ps: seq<Point>)

  datatype Geo = Geo(
    dist: (Point, Point) -> real,             // ADPoint.distance / distance_to
    lineDist: (Line, Point) -> real,          // ADPolyline.distance_to(point)
    project: (Line, Point) -> real,           // ADPolyline.project
    interpolate: (Line, real) -> Point,       // point_at_distance(d)
    interpolateNormalized: (Line, real) -> Point, // point_at_distance(d, normalize=True)
    intersection: (Line, Line) -> Ix,         // ADPolyline.intersection
    crosses: (Line, Line) -> bool,            // ADPolyline.crosses
    length: Line -> real)                     // ADPolyline.length

  ghost predicate NonNegativeDistances(g: Geo) {
    forall a: Point, b: Point :: g.dist(a, b) >= 0.0
  }

  ghost predicate SymmetricCrossing(g: Geo) {
    forall a: Line, b: Line :: g.crosses(a, b) == g.crosses(b, a)
  }

  // ------------------------------------------------------------ rounding

  const PRECISION_SCALE: real := 100000.0   // 10^PRECISION with PRECISION = 5

  /** `round(v, 5)` scaled by 10^5: the nearest integer to `v * 10^5`,
      halves rounded away from zero (Python 2 `round`). */
  function Round5(v: real): (r: int)
    ensures v * PRECISION_SCALE - 0.5 <= r as real <= v * PRECISION_SCALE + 0.5
    ensures v >= 0.0 ==> v * PRECISION_SCALE - 0.5 < r as real
    ensures v < 0.0 ==> r as real < v * PRECISION_SCALE + 0.5
  {
    if v >= 0.0 then (v * PRECISION_SCALE + 0.5).Floor
    else -((-v * PRECISION_SCALE + 0.5).Floor)
  }

  /** `ADPoint.is_same_as`: both coordinates agree after rounding to five
      decimals. */
  function PointSameAs(a: Point, b: Point): (r: bool)
    ensures a == b ==> r
    ensures r ==> -1.0 <= (a.x - b.x) * PRECISION_SCALE <= 1.0 && -1.0 <= (a.y - b.y) * PRECISION_SCALE <= 1.0
  {
    Round5(a.x) == Round5(b.x) && Round5(a.y) == Round5(b.y)
  }

  /** `ADPolyline.is_same_as`: `zip` stops at the shorter vertex list, so
      only the common prefix is compared, and a line is the same as any
      line that extends it. */
  function PolylineSameAs(a: Polyline, b: Polyline): (r: bool)
    ensures a.vertices <= b.vertices || b.vertices <= a.vertices ==> r
    ensures r && |a.vertices| > 0 && |b.vertices| > 0 ==> PointSameAs(a.vertices[0], b.vertices[0])
  {
    forall i :: 0 <= i < |a.vertices| && i < |b.vertices| ==>
      PointSameAs(a.vertices[i], b.vertices[i])
  }

  // ------------------------------------------------------------- flip

  function Reverse<T>(s: seq<T>): (r: seq<T>)
    ensures |r| == |s|
    ensures forall i :: 0 <= i < |s| ==> r[i] == s[|s| - 1 - i]
  {
    if |s| == 0 then [] else Reverse(s[1..]) + [s[0]]
  }

  /** `ADPolyline.flip`: the vertex list reversed (`vertices[::-1]`); the
      end points are recomputed from the new list. */
  function Flip(l: Line): (r: Line)
    ensures |r.vertices| == |l.vertices|
    ensures forall i :: 0 <= i < |l.vertices| ==> r.vertices[i] == l.vertices[|l.vertices| - 1 - i]
    ensures First(r) == Last(l) && Last(r) == First(l)
  {
    Polyline(Reverse(l.vertices))
  }

  // ------------------------------------------------------ intersections

  /** `ADPolyline.num_intersects`: how many points the intersection has. */
  function NumIntersects(g: Geo, a: Line, b: Line): (n: nat)
    ensures g.intersection(a, b).NoPoint? <==> n == 0 && !g.intersection(a, b).ManyPoints?
    ensures g.intersection(a, b).OnePoint? ==> n == 1
    ensures g.intersection(a, b).ManyPoints? ==> n == |g.intersection(a, b).ps|
  {
    match g.intersection(a, b)
    case NoPoint => 0
    case OnePoint(_) => 1
    case ManyPoints(ps) => |ps|
  }

  function Abs(v: real): (r: real)
    ensures r >= 0.0 && (r == v || r == -v)
  {
    if v < 0.0 then -v else v
  }

  /** Distance along `l` between a point and `test`, the sort key of
      `nearest_intersection`. */
  function AlongFrom(g: Geo, l: Line, test: Point): Point -> real {
    p => Abs(g.project(l, p) - g.project(l, test))
  }

  /** `ADPolyline.nearest_intersection(line, test_point)`.  `None` fails the
      `type(...) is not list` test, so it raises UnknownIntersection as any
      other non-point result would; a point list is sorted by distance
      along `l` from `test` and its head is returned. */
  function NearestIntersection(g: Geo, l: Line, other: Line, test: Point): (r: Result<Point>)
    ensures g.intersection(l, other).NoPoint? <==> r == Err(UnknownIntersection)
    ensures g.intersection(l, other).OnePoint? ==> r == Ok(g.intersection(l, other).p)
    ensures g.intersection(l, other).ManyPoints? ==>
      var ps := g.intersection(l, other).ps;
      var key := AlongFrom(g, l, test);
      if |ps| == 0 then r == Err(IndexError)
      else r.Ok? && r.value == ps[StableSort.ArgMin(StableSort.Keys(ps, key))]
  {
    match g.intersection(l, other)
    case NoPoint => Err(UnknownIntersection)
    case OnePoint(p) => Ok(p)
    case ManyPoints(ps) =>
      if |ps| == 0 then Err(IndexError)
      else
        var key := AlongFrom(g, l, test);
        StableSort.SortedHeadIsFirstMin(ps, key);
        Ok(StableSort.SortBy(ps, key)[0])
  }

  /** `ADPolyline(vertices=...)` and `ADPolyline(shapely_geo=...)`: an
      empty coordinate list fails at its first index, a single coordinate
      is rejected by shapely's `LineString`. */
  function MakeLine(vs: seq<Point>): (r: Result<Line>)
    ensures |vs| == 0 <==> r == Err(IndexError)
    ensures |vs| == 1 <==> r == Err(ValueError)
    ensures r.Ok? <==> |vs| >= 2
    ensures r.Ok? ==> r.value.vertices == vs
  {
    if |vs| == 0 then Err(IndexError)
    else if |vs| == 1 then Err(ValueError)
    else Ok(Polyline(vs))
  }

  /** `ADPoint.closest_point(line)` and the snapping in `_clip_to_bfe`: the
      point of `l` at the projected distance of `p`. */
  function Snap(g: Geo, l: Line, p: Point): Point {
    g.interpolate(l, g.project(l, p))
  }

  // ------------------------------------------------------------- lemmas

  lemma {:induction false} ReverseReverse<T>(s: seq<T>)
    ensures Reverse(Reverse(s)) == s
  {
    var r := Reverse(Reverse(s));
    assert |r| == |s|;
    forall i | 0 <= i < |s|
      ensures r[i] == s[i]
    {
      assert r[i] == Reverse(s)[|s| - 1 - i];
    }
  }

  /** Flipping twice restores the original vertex sequence. */
  lemma FlipFlip(l: Line)
    ensures Flip(Flip(l)) == l
  {
    ReverseReverse(l.vertices);
  }

  /** Rounding to five decimals is a function of the value, so "same as"
      on points is an equivalence relation. */
  lemma PointSameAsEquivalence(a: Point, b: Point, c: Point)
    ensures PointSameAs(a, a)
    ensures PointSameAs(a, b) ==> PointSameAs(b, a)
    ensures PointSameAs(a, b) && PointSameAs(b, c) ==> PointSameAs(a, c)
  {
  }

  /** Points closer than half a unit of the fifth decimal in both
      coordinates and on the same side of a rounding boundary are the same;
      in particular a point differing only by less than 5e-6 from an
      integer-grid point of that precision is the same as it. */
  lemma PointSameAsNear(a: Point, k: int, m: int)
    requires Abs(a.x * PRECISION_SCALE - k as real) < 0.5
    requires Abs(a.y * PRECISION_SCALE - m as real) < 0.5
    ensures PointSameAs(a, Point(k as real / PRECISION_SCALE, m as real / PRECISION_SCALE))
  {
    var b := Point(k as real / PRECISION_SCALE, m as real / PRECISION_SCALE);
    assert b.x * PRECISION_SCALE == k as real;
    assert b.y * PRECISION_SCALE == m as real;
    assert Round5(b.x) == k;
    assert Round5(b.y) == m;
  }

  /** Polyline "same as" compares only the common prefix of the vertex
      lists, so it is not transitive: `[a, b]` and `[a, c]` are both the
      same as `[a, b]`'s one-vertex prefix `[a]` but not as each other. */
  lemma PolylineSameAsNotTransitive()
    ensures var a := Point(0.0, 0.0);
      var p := Polyline([a, Point(1.0, 0.0)]);
      var q := Polyline([a]);
      var r := Polyline([a, Point(2.0, 0.0)]);
      PolylineSameAs(p, q) && PolylineSameAs(q, r) && !PolylineSameAs(p, r)
  {
    var p := Polyline([Point(0.0, 0.0), Point(1.0, 0.0)]);
    var r := Polyline([Point(0.0, 0.0), Point(2.0, 0.0)]);
    assert Round5(1.0) == 100000;
    assert Round5(2.0) == 200000;
    assert !PointSameAs(p.vertices[1], r.vertices[1]);
  }

  /** For two-vertex lines (the crossing lines of the interpolator) "same
      as" means both end points are the same. */
  lemma SegmentSameAs(a: Line, b: Line)
    requires |a.vertices| == 2 && |b.vertices| == 2
    ensures PolylineSameAs(a, b) <==> PointSameAs(First(a), First(b)) && PointSameAs(Last(a), Last(b))
  {
    if PointSameAs(First(a), First(b)) && PointSameAs(Last(a), Last(b)) {
      forall i | 0 <= i < 2
        ensures PointSameAs(a.vertices[i], b.vertices[i])
      {
        if i == 1 {
          assert a.vertices[i] == Last(a);
        }
      }
    }
  }
}
