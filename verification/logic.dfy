/** The helpers of `delineate` (autodelin/logic.py): choosing the part of a
    contour nearest a point, placing a cross-section extent between two
    contours, clipping a contour between two points, orienting it, and
    the "boundary crosses a contour" status test.

    A Python local that may hold `None` is an `Option<Point>`; using
    `None` where a point is needed raises AttributeError (`.shapely_geo`
    or `.X` of `None`). */
module Logic {
  import opened Errors
  import opened Geometry
  import StableSort
  import opened ContourCache
  import Clip
  import opened Markers

  function Need(p: Option<Point>): (r: Result<Point>)
    ensures p.None? <==> r == Err(AttributeError)
    ensures p.Some? ==> r == Ok(p.value)
  {
    if p.None? then Err(AttributeError) else Ok(p.value)
  }

  /** `math.floor` and `math.ceil` of an elevation, as contour keys. */
  function Floor(x: real): (r: int)
    ensures r as real <= x < r as real + 1.0
  {
    x.Floor
  }

  function Ceil(x: real): (r: int)
    ensures r as real - 1.0 < x <= r as real
  {
    -((-x).Floor)
  }

  // ------------------------------------------------ nearest contour part

  /** The loop of `_closest_segment_by_index` from index `i` on, with
      `best` the index kept so far: only a strictly smaller distance
      replaces it. */
  function ClosestFrom(g: Geo, parts: seq<Line>, p: Point, i: nat, best: nat): (r: nat)
    requires best < i <= |parts|
    requires forall j :: 0 <= j < i ==> g.lineDist(parts[best], p) <= g.lineDist(parts[j], p)
    requires forall j :: 0 <= j < best ==> g.lineDist(parts[best], p) < g.lineDist(parts[j], p)
    ensures r < |parts|
    ensures forall j :: 0 <= j < |parts| ==> g.lineDist(parts[r], p) <= g.lineDist(parts[j], p)
    ensures forall j :: 0 <= j < r ==> g.lineDist(parts[r], p) < g.lineDist(parts[j], p)
    decreases |parts| - i
  {
    if i == |parts| then best
    else if g.lineDist(parts[i], p) < g.lineDist(parts[best], p) then ClosestFrom(g, parts, p, i + 1, i)
    else ClosestFrom(g, parts, p, i + 1, best)
  }

  /** `_closest_segment_by_index(line_list, point)`: the first index of a
      part at minimal distance.  `line_list[0]` of an empty list raises
      IndexError before the point is looked at. */
  function ClosestSegmentByIndex(g: Geo, parts: seq<Line>, p: Option<Point>): (r: Result<nat>)
    ensures |parts| == 0 <==> r == Err(IndexError)
    ensures |parts| > 0 && p.None? <==> r == Err(AttributeError)
    ensures r.Ok? ==> p.Some? && r.value < |parts|
    ensures r.Ok? ==> forall j :: 0 <= j < |parts| ==>
      g.lineDist(parts[r.value], p.value) <= g.lineDist(parts[j], p.value)
    ensures r.Ok? ==> forall j :: 0 <= j < r.value ==>
      g.lineDist(parts[r.value], p.value) < g.lineDist(parts[j], p.value)
  {
    if |parts| == 0 then Err(IndexError)
    else if p.None? then Err(AttributeError)
    else Ok(ClosestFrom(g, parts, p.value, 1, 0))
  }

  /** `_closest_contour_segment(contour, point)`: that part itself. */
  function ClosestContourSegment(g: Geo, c: Contour, p: Option<Point>): (r: Result<Line>)
    ensures |c.lineList| == 0 <==> r == Err(IndexError)
    ensures |c.lineList| > 0 && p.None? <==> r == Err(AttributeError)
    ensures r.Ok? ==> exists i :: 0 <= i < |c.lineList| && r.value == c.lineList[i] && ClosestSegmentByIndex(g, c.lineList, p) == Ok(i)
    ensures r.Ok? ==> p.Some? && r.value in c.lineList
    ensures r.Ok? ==> forall j :: 0 <= j < |c.lineList| ==>
      g.lineDist(r.value, p.value) <= g.lineDist(c.lineList[j], p.value)
  {
    var i :- ClosestSegmentByIndex(g, c.lineList, p);
    Ok(c.lineList[i])
  }

  // ------------------------------------------------ the extent position

  datatype Position = Position(pos: real, high: Option<Point>, low: Option<Point>)

  function DistTo(g: Geo, extent: Point): Point -> real {
    q => g.dist(q, extent)
  }

  /** `simplify(points)` inside `_calc_extent_position`: a point stays, a
      point list is sorted by distance to the extent and its head taken
      (IndexError when empty), anything else becomes `None`. */
  function Simplify(g: Geo, ix: Ix, extent: Point): (r: Result<Option<Point>>)
    ensures ix.NoPoint? <==> r == Ok(None)
    ensures ix.OnePoint? ==> r == Ok(Some(ix.p))
    ensures ix.ManyPoints? && |ix.ps| == 0 <==> r == Err(IndexError)
    ensures ix.ManyPoints? && |ix.ps| > 0 ==>
      && r.Ok? && r.value.Some? && r.value.value in ix.ps
      && (forall j :: 0 <= j < |ix.ps| ==> g.dist(r.value.value, extent) <= g.dist(ix.ps[j], extent))
    ensures ix.ManyPoints? && |ix.ps| > 0 ==>
      r == Ok(Some(ix.ps[StableSort.ArgMin(StableSort.Keys(ix.ps, DistTo(g, extent)))]))
  {
    match ix
    case NoPoint => Ok(None)
    case OnePoint(p) => Ok(Some(p))
    case ManyPoints(ps) =>
      if |ps| == 0 then Err(IndexError)
      else
        var key := DistTo(g, extent);
        StableSort.SortedHeadIsFirstMin(ps, key);
        Ok(Some(StableSort.SortBy(ps, key)[0]))
  }

  /** The tail of `_calc_extent_position`: -2 when a contour point is
      missing, -1 when the extent is farther from either point than the
      points are from each other, otherwise the low point's share of that
      distance (ZeroDivisionError when the points coincide). */
  function Classify(g: Geo, hp: Option<Point>, lp: Option<Point>, extent: Point): (r: Result<Position>)
    ensures (hp.None? || lp.None?) <==> r == Ok(Position(-2.0, None, None))
    ensures r.Ok? ==> (r.value.high.Some? <==> r.value.low.Some?)
    ensures r.Ok? && r.value.high.None? ==> r.value.pos == -2.0 || r.value.pos == -1.0
    ensures hp.Some? && lp.Some? ==>
      var cd := g.dist(hp.value, lp.value);
      var hd := g.dist(hp.value, extent);
      var ld := g.dist(lp.value, extent);
      && (hd > cd || ld > cd <==> r == Ok(Position(-1.0, None, None)))
      && (r.Err? <==> hd <= cd && ld <= cd && cd == 0.0)
      && (r.Err? ==> r.exc == ZeroDivisionError)
      && (r.Ok? && r.value.high.Some? ==>
            && r.value.high == hp && r.value.low == lp
            && cd != 0.0 && hd <= cd && ld <= cd
            && r.value.pos * cd == ld)
  {
    if hp.None? || lp.None? then Ok(Position(-2.0, None, None))
    else
      var hd := g.dist(hp.value, extent);
      var ld := g.dist(lp.value, extent);
      var cd := g.dist(hp.value, lp.value);
      if hd > cd || ld > cd then Ok(Position(-1.0, None, None))
      else if cd == 0.0 then Err(ZeroDivisionError)
      else Ok(Position(ld / cd, hp, lp))
  }

  /** The lookups of `_calc_extent_position`: the ceiling contour and
      then the floor contour are fetched, the part of each nearest the
      extent chosen and intersected with the cut line, and each
      intersection simplified.  The store as left by the lookups is
      returned with the outcome. */
  function ExtentPoints<S>(g: Geo, get: (S, int) -> (S, Result<Contour>), s: S, cut: Line, elevation: real, extent: Point): (r: (S, Result<(Option<Point>, Option<Point>)>))
    ensures get(s, Ceil(elevation)).1.Err? ==>
      r == (get(s, Ceil(elevation)).0, Err(get(s, Ceil(elevation)).1.exc))
    ensures r.1.Ok? ==>
      && get(s, Ceil(elevation)).1.Ok?
      && get(get(s, Ceil(elevation)).0, Floor(elevation)).1.Ok?
      && r.0 == get(get(s, Ceil(elevation)).0, Floor(elevation)).0
  {
    var h := get(s, Ceil(elevation));
    if h.1.Err? then (h.0, Err(h.1.exc))
    else match ClosestContourSegment(g, h.1.value, Some(extent))
    case Err(x) => (h.0, Err(x))
    case Ok(hs) =>
      var l := get(h.0, Floor(elevation));
      if l.1.Err? then (l.0, Err(l.1.exc))
      else (l.0, CutPoints(g, hs, l.1.value, cut, extent))
  }

  /** The rest of `_calc_extent_position` once the floor contour is at
      hand: its part nearest the extent, then both intersections with the
      cut line, the ceiling's first. */
  function CutPoints(g: Geo, hs: Line, lowC: Contour, cut: Line, extent: Point): (r: Result<(Option<Point>, Option<Point>)>)
    ensures |lowC.lineList| == 0 ==> r == Err(IndexError)
    ensures r.Ok? ==> Simplify(g, g.intersection(hs, cut), extent) == Ok(r.value.0)
    ensures r.Ok? ==>
      var ls := ClosestContourSegment(g, lowC, Some(extent));
      ls.Ok? && Simplify(g, g.intersection(ls.value, cut), extent) == Ok(r.value.1)
  {
    var ls :- ClosestContourSegment(g, lowC, Some(extent));
    var hp :- Simplify(g, g.intersection(hs, cut), extent);
    var lp :- Simplify(g, g.intersection(ls, cut), extent);
    Ok((hp, lp))
  }

  /** `_calc_extent_position(xs, extent, contours)` over any contour
      store: `get` is `contours.get` here and `_get_contour` in the older
      copy, and `onBfe` is what a BFE argument raises. */
  function ExtentPosition<S>(g: Geo, get: (S, int) -> (S, Result<Contour>), s: S, m: Marker, extent: Point, onBfe: Exc): (r: (S, Result<Position>))
    ensures m.BFE? ==> r == (s, Err(onBfe))
    ensures m.XS? && get(s, Ceil(m.elevation)).1.Err? ==>
      r == (get(s, Ceil(m.elevation)).0, Err(get(s, Ceil(m.elevation)).1.exc))
    ensures r.1.Ok? ==> m.XS?
    ensures r.1.Ok? ==>
      var pts := ExtentPoints(g, get, s, m.geo, m.elevation, extent).1;
      pts.Ok? && r.1 == Classify(g, pts.value.0, pts.value.1, extent)
  {
    if m.BFE? then (s, Err(onBfe))
    else
      var pts := ExtentPoints(g, get, s, m.geo, m.elevation, extent);
      if pts.1.Err? then (pts.0, Err(pts.1.exc))
      else (pts.0, Classify(g, pts.1.value.0, pts.1.value.1, extent))
  }

  function CacheGet(cs: Contours, e: int): (Contours, Result<Contour>) {
    Get(cs, e)
  }

  /** `_calc_extent_position` with the contour cache: a BFE raises
      ValueError, an elevation whose ceiling is not stored raises
      KeyError. */
  function CalcExtentPosition(g: Geo, cs: Contours, m: Marker, extent: Point): (r: (Contours, Result<Position>))
    ensures m.BFE? ==> r == (cs, Err(ValueError))
    ensures m.XS? && Ceil(m.elevation) !in cs.contours ==> r == (cs, Err(KeyError))
    ensures r.1.Ok? ==> m.XS? && Ceil(m.elevation) in cs.contours
  {
    ExtentPosition(g, CacheGet, cs, m, extent, ValueError)
  }

  // ------------------------------------------------------------ clipping

  /** Snap both points onto the chosen part and clip it between them. */
  function SnapAndClip(g: Geo, l: Line, p1: Option<Point>, p2: Option<Point>): (r: Result<Line>)
    ensures p1.None? || p2.None? <==> r == Err(AttributeError)
    ensures p1.Some? && p2.Some? ==> r == Clip.ClipLine(g, l, Snap(g, l, p1.value), Snap(g, l, p2.value))
  {
    var a :- Need(p1);
    var b :- Need(p2);
    ClipLineNeverAttributeError(g, l, Snap(g, l, a), Snap(g, l, b));
    Clip.ClipLine(g, l, Snap(g, l, a), Snap(g, l, b))
  }

  lemma ClipLineNeverAttributeError(g: Geo, l: Line, p1: Point, p2: Point)
    ensures Clip.ClipLine(g, l, p1, p2) != Err(AttributeError)
  {
    var r := Clip.ClipLine(g, l, p1, p2);
    if r.Err? {
      assert r == MakeLine(Clip.Outside(g, l, p1, p2));
    }
  }

  /** Both points are nearest part `i`. */
  predicate ChosenPart(g: Geo, c: Contour, p1: Option<Point>, p2: Option<Point>, i: nat) {
    && i < |c.lineList|
    && ClosestSegmentByIndex(g, c.lineList, p1) == Ok(i)
    && ClosestSegmentByIndex(g, c.lineList, p2) == Ok(i)
  }

  /** `_clip_to_bfe(contour, point1, point2)` as written: a multipart
      contour is clipped on the part nearest both points (ComplexContourError
      when they are nearest different parts); a single-part contour is
      indexed as `contour[0]`, and a `Contour` supports no indexing, so
      that branch raises TypeError. */
  function ClipToBfe(g: Geo, c: Contour, p1: Option<Point>, p2: Option<Point>): (r: Result<Line>)
    ensures !c.multipart ==> r == Err(TypeError)
    ensures c.multipart && |c.lineList| == 0 ==> r == Err(IndexError)
    ensures r == Err(ComplexContourError) <==>
      && c.multipart
      && ClosestSegmentByIndex(g, c.lineList, p1).Ok?
      && ClosestSegmentByIndex(g, c.lineList, p2).Ok?
      && ClosestSegmentByIndex(g, c.lineList, p1) != ClosestSegmentByIndex(g, c.lineList, p2)
    ensures r.Ok? ==>
      && c.multipart && p1.Some? && p2.Some?
      && (exists i: nat :: ChosenPart(g, c, p1, p2, i) && r == SnapAndClip(g, c.lineList[i], p1, p2))
  {
    if c.multipart then
      var i1 :- ClosestSegmentByIndex(g, c.lineList, p1);
      var i2 :- ClosestSegmentByIndex(g, c.lineList, p2);
      if i1 != i2 then Err(ComplexContourError)
      else
        ClipLineNeverComplex(g, c.lineList[i1], p1, p2);
        SnapAndClip(g, c.lineList[i1], p1, p2)
    else Err(TypeError)
  }

  lemma ClipLineNeverComplex(g: Geo, l: Line, p1: Option<Point>, p2: Option<Point>)
    ensures SnapAndClip(g, l, p1, p2) != Err(ComplexContourError)
  {
    if p1.Some? && p2.Some? {
      var a := Snap(g, l, p1.value);
      var b := Snap(g, l, p2.value);
      var r := Clip.ClipLine(g, l, a, b);
      if r.Err? {
        assert r == MakeLine(Clip.Outside(g, l, a, b));
      }
    }
  }

  /** `_clip_to_bfe` with the single-part branch reading
      `contour.line_list[0]`, as its comment and the multipart branch
      intend. */
  function ClipToBfeFixed(g: Geo, c: Contour, p1: Option<Point>, p2: Option<Point>): (r: Result<Line>)
    ensures c.multipart ==> r == ClipToBfe(g, c, p1, p2)
    ensures !c.multipart && |c.lineList| == 0 ==> r == Err(IndexError)
    ensures !c.multipart && |c.lineList| > 0 ==> r == SnapAndClip(g, c.lineList[0], p1, p2)
  {
    if c.multipart then ClipToBfe(g, c, p1, p2)
    else if |c.lineList| == 0 then Err(IndexError)
    else SnapAndClip(g, c.lineList[0], p1, p2)
  }

  // --------------------------------------------------------- orientation

  /** `_orient_contours(point, contour)`: flip the line when its first
      vertex is strictly farther from the point than its last. */
  function OrientContours(g: Geo, p: Point, l: Line): (r: Line)
    ensures r == l || r == Flip(l)
    ensures g.dist(p, First(r)) <= g.dist(p, Last(r))
    ensures g.dist(p, First(l)) <= g.dist(p, Last(l)) ==> r == l
  {
    if g.dist(p, First(l)) > g.dist(p, Last(l)) then Flip(l) else l
  }

  // -------------------------------------------------------------- status

  /** Some part meets the boundary in more than one point. */
  function MeetsTwice(g: Geo, parts: seq<Line>, b: Line): (r: bool)
    ensures r <==> exists i :: 0 <= i < |parts| && NumIntersects(g, parts[i], b) > 1
  {
    if |parts| == 0 then false
    else NumIntersects(g, parts[0], b) > 1 || MeetsTwice(g, parts[1..], b)
  }

  /** `_contour_crosses_boundary(boundary, contour1, contour2)`. */
  function ContourCrossesBoundary(g: Geo, b: Line, c1: Contour, c2: Contour): (r: bool)
    ensures r <==>
      || (exists i :: 0 <= i < |c1.lineList| && NumIntersects(g, c1.lineList[i], b) > 1)
      || (exists i :: 0 <= i < |c2.lineList| && NumIntersects(g, c2.lineList[i], b) > 1)
  {
    MeetsTwice(g, c1.lineList, b) || MeetsTwice(g, c2.lineList, b)
  }

  // ------------------------------------------------------------- lemmas

  /** With non-negative distances a resolved extent position is one of the
      two sentinels or a ratio in [0, 1] that comes with both points. */
  lemma ClassifyRange(g: Geo, hp: Option<Point>, lp: Option<Point>, extent: Point)
    requires NonNegativeDistances(g)
    ensures var r := Classify(g, hp, lp, extent);
      r.Ok? ==>
        || (r.value.pos == -2.0 && r.value.high.None? && r.value.low.None?)
        || (r.value.pos == -1.0 && r.value.high.None? && r.value.low.None?)
        || (0.0 <= r.value.pos <= 1.0 && r.value.high.Some? && r.value.low.Some?)
  {
    var r := Classify(g, hp, lp, extent);
    if r.Ok? && r.value.high.Some? {
      var cd := g.dist(hp.value, lp.value);
      var ld := g.dist(lp.value, extent);
      RatioBetween(r.value.pos, cd, ld);
    }
  }

  lemma ExtentPositionRange<S>(g: Geo, get: (S, int) -> (S, Result<Contour>), s: S, m: Marker, extent: Point, onBfe: Exc)
    requires NonNegativeDistances(g)
    ensures var r := ExtentPosition(g, get, s, m, extent, onBfe).1;
      r.Ok? ==>
        || (r.value.pos == -2.0 && r.value.high.None? && r.value.low.None?)
        || (r.value.pos == -1.0 && r.value.high.None? && r.value.low.None?)
        || (0.0 <= r.value.pos <= 1.0 && r.value.high.Some? && r.value.low.Some?)
  {
    if m.XS? {
      var pts := ExtentPoints(g, get, s, m.geo, m.elevation, extent).1;
      if pts.Ok? {
        ClassifyRange(g, pts.value.0, pts.value.1, extent);
      }
    }
  }

  lemma RatioBetween(x: real, cd: real, ld: real)
    requires cd > 0.0 && 0.0 <= ld <= cd && x * cd == ld
    ensures 0.0 <= x <= 1.0
  {
    if x < 0.0 {
      MulNegative(x, cd);
      assert false;
    }
    if x > 1.0 {
      MulAboveOne(x, cd);
      assert false;
    }
  }

  lemma MulNegative(x: real, c: real)
    requires x < 0.0 && c > 0.0
    ensures x * c < 0.0
  {
  }

  lemma MulAboveOne(x: real, c: real)
    requires x > 1.0 && c > 0.0
    ensures x * c > c
  {
    assert x * c - c == (x - 1.0) * c;
  }

  /** With non-negative distances the division by zero happens exactly
      when both contour points and the extent coincide (all three
      distances are zero). */
  lemma ClassifyZeroDivision(g: Geo, hp: Point, lp: Point, extent: Point)
    requires NonNegativeDistances(g)
    ensures Classify(g, Some(hp), Some(lp), extent).Err? <==>
      g.dist(hp, lp) == 0.0 && g.dist(hp, extent) == 0.0 && g.dist(lp, extent) == 0.0
  {
  }

  /** Orienting twice is orienting once. */
  lemma OrientContoursTwice(g: Geo, p: Point, l: Line)
    ensures OrientContours(g, p, OrientContours(g, p, l)) == OrientContours(g, p, l)
  {
  }

  /** The single-part branch of `_clip_to_bfe` always raises, so with the
      code as written only multipart contours are ever clipped. */
  lemma ClipToBfeSinglePartFails(g: Geo, lines: seq<Line>, e: int, p1: Point, p2: Point)
    requires |lines| == 1
    ensures ClipToBfe(g, NewContour(lines, e), Some(p1), Some(p2)) == Err(TypeError)
  {
  }

  /** The corrected clip of a single-part contour is the clip of its one
      line between the two snapped points, and never TypeError. */
  lemma ClipToBfeFixedSinglePart(g: Geo, l: Line, e: int, p1: Point, p2: Point)
    ensures var r := ClipToBfeFixed(g, NewContour([l], e), Some(p1), Some(p2));
      && r == Clip.ClipLine(g, l, Snap(g, l, p1), Snap(g, l, p2))
      && r != Err(TypeError)
      && (!Clip.IsLoop(l) ==> r.Ok? && r.value.vertices == Clip.Inside(g, l, Snap(g, l, p1), Snap(g, l, p2)))
  {
    var a := Snap(g, l, p1);
    var b := Snap(g, l, p2);
    var r := Clip.ClipLine(g, l, a, b);
    if r.Err? {
      assert r == MakeLine(Clip.Outside(g, l, a, b));
    }
  }
}
