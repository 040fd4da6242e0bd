/** `ADPolyline.clip(point1, point2)`: the part of a line between two
    points, choosing the shorter way round on a closed (loop) line.

    The line's own vertices are tagged unflagged and stationed by
    cumulative vertex distance; the two clip points are tagged flagged and
    stationed by projection.  After a stable sort by station a three-state
    scan splits the list into the run before the first flagged point
    (`start`), the run from it to the second flagged point (`middle`) and
    the rest (`end`). */
module Clip {
  import opened Errors
  import opened Geometry
  import StableSort

  datatype Tagged = Tagged(pt: Point, flag: bool, station: real)

  function Station(t: Tagged): real { t.station }

  function IsFlagged(t: Tagged): bool { t.flag }

  function IsVertex(t: Tagged): bool { !t.flag }

  function Points(ts: seq<Tagged>): (ps: seq<Point>)
    ensures |ps| == |ts|
    ensures forall i :: 0 <= i < |ts| ==> ps[i] == ts[i].pt
  {
    if |ts| == 0 then [] else [ts[0].pt] + Points(ts[1..])
  }

  /** Cumulative vertex-to-vertex distance: 0 at the first vertex, and each
      later vertex adds its distance to the one before it. */
  function Stations(g: Geo, vs: seq<Point>): (st: seq<real>)
    requires |vs| > 0
    ensures |st| == |vs| && st[0] == 0.0
    ensures forall i :: 0 < i < |vs| ==> st[i] == st[i - 1] + g.dist(vs[i], vs[i - 1])
  {
    if |vs| == 1 then [0.0]
    else
      var p := Stations(g, vs[..|vs| - 1]);
      p + [p[|p| - 1] + g.dist(vs[|vs| - 1], vs[|vs| - 2])]
  }

  /** The tagged list before sorting: the vertices, then the two clip
      points stationed by projection onto the line. */
  function Tags(g: Geo, l: Line, p1: Point, p2: Point): (ts: seq<Tagged>)
    ensures |ts| == |l.vertices| + 2
    ensures forall i :: 0 <= i < |l.vertices| ==> !ts[i].flag && ts[i].pt == l.vertices[i]
    ensures ts[0].station == 0.0
    ensures forall i :: 0 < i < |l.vertices| ==>
      ts[i].station == ts[i - 1].station + g.dist(l.vertices[i], l.vertices[i - 1])
    ensures ts[|l.vertices|] == Tagged(p1, true, g.project(l, p1))
    ensures ts[|l.vertices| + 1] == Tagged(p2, true, g.project(l, p2))
  {
    var st := Stations(g, l.vertices);
    seq(|l.vertices|, i requires 0 <= i < |l.vertices| => Tagged(l.vertices[i], false, st[i]))
      + [Tagged(p1, true, g.project(l, p1)), Tagged(p2, true, g.project(l, p2))]
  }

  datatype Phase = Start | In | End

  datatype Parts = Parts(phase: Phase, start: seq<Tagged>, middle: seq<Tagged>, end: seq<Tagged>)

  /** One step of the `'start'`/`'in'`/`'end'` state machine: the point
      goes to the end of exactly one run, and the runs keep their shape. */
  function Step(p: Parts, t: Tagged): (q: Parts)
    ensures Shaped(p) ==> Shaped(q)
    ensures Shaped(p) ==> q.start + q.middle + q.end == p.start + p.middle + p.end + [t]
  {
    match p.phase
    case Start =>
      if !t.flag then p.(start := p.start + [t])
      else p.(phase := In, middle := p.middle + [t])
    case In =>
      if !t.flag then p.(middle := p.middle + [t])
      else p.(phase := End, middle := p.middle + [t])
    case End => p.(end := p.end + [t])
  }

  /** The shape of the three runs: `start` holds no flagged point,
      `middle` opens with a flagged point and (once the scan has left it)
      closes with one, with only unflagged points in between. */
  predicate Shaped(r: Parts) {
    && (forall k :: 0 <= k < |r.start| ==> !r.start[k].flag)
    && (r.phase == Start ==> r.middle == [])
    && (r.phase != End ==> r.end == [])
    && (r.phase != Start ==> |r.middle| > 0 && r.middle[0].flag)
    && (r.phase == In ==> forall k :: 0 < k < |r.middle| ==> !r.middle[k].flag)
    && (r.phase == End ==> |r.middle| >= 2 && r.middle[|r.middle| - 1].flag)
    && (r.phase == End ==> forall k :: 0 < k < |r.middle| - 1 ==> !r.middle[k].flag)
  }

  /** The scan over a sorted tagged list: the three runs concatenate to
      the input and have the shape above. */
  function Partition(ts: seq<Tagged>): (r: Parts)
    ensures r.start + r.middle + r.end == ts
    ensures Shaped(r)
  {
    if |ts| == 0 then Parts(Start, [], [], [])
    else
      var p := Partition(ts[..|ts| - 1]);
      assert ts == ts[..|ts| - 1] + [ts[|ts| - 1]];
      Step(p, ts[|ts| - 1])
  }

  /** `start[1:]`, which is empty for an empty list. */
  function DropFirst<T>(s: seq<T>): (r: seq<T>)
    ensures |s| > 0 ==> r == s[1..]
    ensures |s| == 0 ==> r == []
  {
    if |s| == 0 then [] else s[1..]
  }

  /** The sorted tagged list that `clip` scans. */
  function SortedTags(g: Geo, l: Line, p1: Point, p2: Point): seq<Tagged> {
    StableSort.SortBy(Tags(g, l, p1, p2), Station)
  }

  /** A line is closed when its last vertex is the same as its first. */
  function IsLoop(l: Line): (r: bool)
    ensures Last(l) == First(l) ==> r
    ensures r ==> -1.0 <= (Last(l).x - First(l).x) * PRECISION_SCALE <= 1.0
    ensures r ==> -1.0 <= (Last(l).y - First(l).y) * PRECISION_SCALE <= 1.0
  {
    PointSameAs(Last(l), First(l))
  }

  /** The middle run: from one clip point to the other, with only the
      line's own vertices in between. */
  function Inside(g: Geo, l: Line, p1: Point, p2: Point): (r: seq<Point>)
    ensures ClipRun(r, l, p1, p2)
  {
    MiddleRunPoints(g, l, p1, p2);
    Points(Partition(SortedTags(g, l, p1, p2)).middle)
  }

  /** A run from one clip point to the other (in either order) through
      the line's own vertices. */
  predicate ClipRun(ps: seq<Point>, l: Line, p1: Point, p2: Point) {
    && |ps| >= 2
    && (ps[0] == p1 || ps[0] == p2)
    && (ps[|ps| - 1] == p1 || ps[|ps| - 1] == p2)
    && forall k :: 0 < k < |ps| - 1 ==> ps[k] in l.vertices
  }

  /** Every point is one of the line's own vertices. */
  predicate AllVertices(ps: seq<Point>, l: Line) {
    forall k :: 0 <= k < |ps| ==> ps[k] in l.vertices
  }

  function OuterPoints(parts: Parts): seq<Point> {
    Points(parts.end + DropFirst(parts.start))
  }

  /** `end_vertices + start_vertices[1:]`: the rest of a loop, joined
      across its closing vertex (the first vertex is dropped because the
      last one duplicates it). */
  function Outside(g: Geo, l: Line, p1: Point, p2: Point): (r: seq<Point>)
    ensures AllVertices(r, l)
  {
    OuterRunsPoints(g, l, p1, p2);
    OuterPoints(Partition(SortedTags(g, l, p1, p2)))
  }

  /** `ADPolyline.clip(point1, point2)`.  The inside run always has at
      least two points (both clip points), so only the outside line of a
      loop can fail to build. */
  function ClipLine(g: Geo, l: Line, p1: Point, p2: Point): (r: Result<Line>)
    ensures |Inside(g, l, p1, p2)| >= 2
    ensures !IsLoop(l) ==> r.Ok? && r.value.vertices == Inside(g, l, p1, p2)
    ensures IsLoop(l) ==> r.Ok? || r == MakeLine(Outside(g, l, p1, p2))
    ensures IsLoop(l) && r.Ok? ==>
      && |Outside(g, l, p1, p2)| >= 2
      && r.value.vertices ==
           if g.length(Polyline(Outside(g, l, p1, p2))) < g.length(Polyline(Inside(g, l, p1, p2)))
           then Outside(g, l, p1, p2) else Inside(g, l, p1, p2)
  {
    var inside: Line := Polyline(Inside(g, l, p1, p2));
    if IsLoop(l) then
      var outside :- MakeLine(Outside(g, l, p1, p2));
      if g.length(outside) < g.length(inside) then Ok(outside) else Ok(inside)
    else Ok(inside)
  }

  // ------------------------------------------------------------- lemmas

  function CountFlagged(ts: seq<Tagged>): (n: nat)
    ensures n <= |ts|
  {
    if |ts| == 0 then 0 else (if ts[0].flag then 1 else 0) + CountFlagged(ts[1..])
  }

  lemma {:induction false} CountFlaggedAppend(a: seq<Tagged>, b: seq<Tagged>)
    ensures CountFlagged(a + b) == CountFlagged(a) + CountFlagged(b)
  {
    if |a| == 0 {
      assert a + b == b;
    } else {
      assert (a + b)[1..] == a[1..] + b;
      CountFlaggedAppend(a[1..], b);
    }
  }

  lemma {:induction false} CountFlaggedNone(ts: seq<Tagged>)
    requires forall k :: 0 <= k < |ts| ==> !ts[k].flag
    ensures CountFlagged(ts) == 0
  {
    if |ts| > 0 {
      CountFlaggedNone(ts[1..]);
    }
  }

  lemma {:induction false} CountFlaggedMultiset(a: seq<Tagged>, b: seq<Tagged>)
    requires multiset(a) == multiset(b)
    ensures CountFlagged(a) == CountFlagged(b)
    decreases |a|
  {
    if |a| > 0 {
      var x := a[0];
      assert x in multiset(b);
      var j :| 0 <= j < |b| && b[j] == x;
      assert b == b[..j] + [x] + b[j + 1..];
      var b' := b[..j] + b[j + 1..];
      assert a == [x] + a[1..];
      assert multiset(b) == multiset(b[..j]) + multiset{x} + multiset(b[j + 1..]);
      assert multiset(b') == multiset(b[..j]) + multiset(b[j + 1..]);
      assert multiset(a) == multiset{x} + multiset(a[1..]);
      assert multiset(a[1..]) == multiset(a) - multiset{x};
      assert multiset(b') == multiset(b) - multiset{x};
      CountFlaggedMultiset(a[1..], b');
      CountFlaggedAppend(b[..j] + [x], b[j + 1..]);
      CountFlaggedAppend(b[..j], [x]);
      CountFlaggedAppend(b[..j], b[j + 1..]);
      assert CountFlagged([x]) == (if x.flag then 1 else 0) + CountFlagged([x][1..]);
    }
  }

  lemma FlaggedHeadCount(t: Tagged, rest: seq<Tagged>)
    requires t.flag
    requires forall k :: 0 <= k < |rest| ==> !rest[k].flag
    ensures CountFlagged([t] + rest) == 1
  {
    assert ([t] + rest)[1..] == rest;
    CountFlaggedNone(rest);
  }

  /** A scan still inside the middle run has seen exactly one flagged
      point; a scan that never left `start` has seen none. */
  lemma PartitionCountBeforeEnd(ts: seq<Tagged>)
    ensures Partition(ts).phase == Start ==> CountFlagged(ts) == 0
    ensures Partition(ts).phase == In ==> CountFlagged(ts) == 1
  {
    ShapedCount(Partition(ts));
  }

  lemma ShapedCount(r: Parts)
    requires Shaped(r)
    ensures r.phase == Start ==> CountFlagged(r.start + r.middle + r.end) == 0
    ensures r.phase == In ==> CountFlagged(r.start + r.middle + r.end) == 1
  {
    if r.phase != End {
      assert r.start + r.middle + r.end == r.start + r.middle;
      CountFlaggedAppend(r.start, r.middle);
      CountFlaggedNone(r.start);
      if r.phase == In {
        assert r.middle == [r.middle[0]] + r.middle[1..];
        FlaggedHeadCount(r.middle[0], r.middle[1..]);
      }
    }
  }

  /** The scan of a list holding exactly two flagged points ends in the
      `'end'` state, with a middle run of at least two points. */
  lemma PartitionOfTwoFlagged(ts: seq<Tagged>)
    requires CountFlagged(ts) == 2
    ensures Partition(ts).phase == End
  {
    PartitionCountBeforeEnd(ts);
  }

  /** The unsorted tagged list holds exactly two flagged entries. */
  lemma TagsCountFlagged(g: Geo, l: Line, p1: Point, p2: Point)
    ensures CountFlagged(Tags(g, l, p1, p2)) == 2
  {
    var ts := Tags(g, l, p1, p2);
    var n := |l.vertices|;
    assert ts == ts[..n] + [ts[n], ts[n + 1]];
    CountFlaggedAppend(ts[..n], [ts[n], ts[n + 1]]);
    CountFlaggedNone(ts[..n]);
    assert [ts[n], ts[n + 1]] == [ts[n]] + [ts[n + 1]];
    FlaggedHeadCount(ts[n], [ts[n + 1]][1..]);
    assert [ts[n]] + [ts[n + 1]][1..] == [ts[n]];
    FlaggedHeadCount(ts[n + 1], []);
    assert [ts[n + 1]] + [] == [ts[n + 1]];
    CountFlaggedAppend([ts[n]], [ts[n + 1]]);
  }

  /** The sorted tagged list holds exactly the two clip points as flagged
      entries, so the scan ends in the `'end'` state and `middle` is a run
      from one clip point to the other with only vertices in between. */
  lemma SortedTagsPartition(g: Geo, l: Line, p1: Point, p2: Point)
    ensures var parts := Partition(SortedTags(g, l, p1, p2));
      && parts.phase == End
      && |parts.middle| >= 2
      && parts.middle[0].flag && parts.middle[|parts.middle| - 1].flag
      && (forall k :: 0 < k < |parts.middle| - 1 ==> !parts.middle[k].flag)
      && parts.start + parts.middle + parts.end == SortedTags(g, l, p1, p2)
  {
    SortedTagsCountFlagged(g, l, p1, p2);
    TwoFlaggedShape(SortedTags(g, l, p1, p2));
  }

  lemma TwoFlaggedShape(ts: seq<Tagged>)
    requires CountFlagged(ts) == 2
    ensures var parts := Partition(ts);
      && parts.phase == End
      && |parts.middle| >= 2
      && parts.middle[0].flag && parts.middle[|parts.middle| - 1].flag
      && (forall k :: 0 < k < |parts.middle| - 1 ==> !parts.middle[k].flag)
      && parts.start + parts.middle + parts.end == ts
  {
    PartitionOfTwoFlagged(ts);
    assert Shaped(Partition(ts));
  }

  /** Sorting keeps the two flagged entries. */
  lemma SortedTagsCountFlagged(g: Geo, l: Line, p1: Point, p2: Point)
    ensures CountFlagged(SortedTags(g, l, p1, p2)) == 2
  {
    var ts := Tags(g, l, p1, p2);
    TagsCountFlagged(g, l, p1, p2);
    CountFlaggedMultiset(StableSort.SortBy(ts, Station), ts);
  }

  /** Every entry of the sorted list came from the unsorted one: a
      flagged entry is a clip point, an unflagged one a vertex. */
  lemma SortedTagPoints(g: Geo, l: Line, p1: Point, p2: Point)
    ensures forall t :: t in SortedTags(g, l, p1, p2) ==>
      && (t.flag ==> t.pt == p1 || t.pt == p2)
      && (!t.flag ==> t.pt in l.vertices)
  {
    var ts := Tags(g, l, p1, p2);
    var ss := SortedTags(g, l, p1, p2);
    forall t | t in ss
      ensures t.flag ==> t.pt == p1 || t.pt == p2
      ensures !t.flag ==> t.pt in l.vertices
    {
      assert t in multiset(ss);
      assert t in ts;
      var i :| 0 <= i < |ts| && ts[i] == t;
      if i < |l.vertices| {
        assert t.pt == l.vertices[i];
      }
    }
  }

  /** The middle run opens and closes on a clip point and holds only
      vertices in between. */
  lemma MiddleRunPoints(g: Geo, l: Line, p1: Point, p2: Point)
    ensures ClipRun(Points(Partition(SortedTags(g, l, p1, p2)).middle), l, p1, p2)
  {
    SortedTagsPartition(g, l, p1, p2);
    SortedTagPoints(g, l, p1, p2);
    MiddleClipRun(SortedTags(g, l, p1, p2), l, p1, p2);
  }

  lemma MiddleClipRun(ss: seq<Tagged>, l: Line, p1: Point, p2: Point)
    requires Partition(ss).phase == End
    requires forall t :: t in ss ==>
      && (t.flag ==> t.pt == p1 || t.pt == p2)
      && (!t.flag ==> t.pt in l.vertices)
    ensures ClipRun(Points(Partition(ss).middle), l, p1, p2)
  {
    var m := Partition(ss).middle;
    MiddleMembers(ss);
    assert m[0] in ss && m[|m| - 1] in ss;
  }

  /** The runs before and after the middle one hold only vertices. */
  lemma OuterRunsPoints(g: Geo, l: Line, p1: Point, p2: Point)
    ensures AllVertices(OuterPoints(Partition(SortedTags(g, l, p1, p2))), l)
  {
    SortedTagsCountFlagged(g, l, p1, p2);
    SortedTagPoints(g, l, p1, p2);
    OuterMembers(SortedTags(g, l, p1, p2));
  }

  lemma MiddleMembers(ss: seq<Tagged>)
    ensures var m := Partition(ss).middle;
      forall k :: 0 <= k < |m| ==> m[k] in ss
  {
    var parts := Partition(ss);
    RunMembers(parts.start, parts.middle, parts.end);
  }

  /** With two flagged entries, the outer runs hold only unflagged
      entries of the list. */
  lemma OuterMembers(ss: seq<Tagged>)
    requires CountFlagged(ss) == 2
    ensures var parts := Partition(ss);
      var u := parts.end + DropFirst(parts.start);
      forall k :: 0 <= k < |u| ==> u[k] in ss && !u[k].flag
  {
    var parts := Partition(ss);
    RunMembers(parts.start, parts.middle, parts.end);
    EndUnflagged(ss);
    var u := parts.end + DropFirst(parts.start);
    forall k | 0 <= k < |u|
      ensures u[k] in ss && !u[k].flag
    {
      if k < |parts.end| {
        assert u[k] == parts.end[k];
      } else {
        assert u[k] == parts.start[k - |parts.end| + 1];
      }
    }
  }

  lemma RunMembers(a: seq<Tagged>, b: seq<Tagged>, c: seq<Tagged>)
    ensures forall k :: 0 <= k < |a| ==> a[k] in a + b + c
    ensures forall k :: 0 <= k < |b| ==> b[k] in a + b + c
    ensures forall k :: 0 <= k < |c| ==> c[k] in a + b + c
  {
    forall k | 0 <= k < |b|
      ensures b[k] in a + b + c
    {
      assert (a + b + c)[|a| + k] == b[k];
    }
    forall k | 0 <= k < |c|
      ensures c[k] in a + b + c
    {
      assert (a + b + c)[|a| + |b| + k] == c[k];
    }
  }

  /** With exactly two flagged entries, both open and close the middle
      run, so the run after it holds only vertices. */
  lemma EndUnflagged(ts: seq<Tagged>)
    requires CountFlagged(ts) == 2
    ensures forall k :: 0 <= k < |Partition(ts).end| ==> !Partition(ts).end[k].flag
  {
    var parts := Partition(ts);
    TwoFlaggedShape(ts);
    var m := parts.middle;
    var inner := m[1..|m| - 1];
    assert m == [m[0]] + inner + [m[|m| - 1]];
    CountFlaggedAppend([m[0]] + inner, [m[|m| - 1]]);
    CountFlaggedAppend([m[0]], inner);
    assert forall k :: 0 <= k < |inner| ==> !inner[k].flag;
    FlaggedHeadCount(m[0], inner);
    FlaggedHeadCount(m[|m| - 1], []);
    assert [m[|m| - 1]] + [] == [m[|m| - 1]];
    CountFlaggedAppend(parts.start + m, parts.end);
    CountFlaggedAppend(parts.start, m);
    CountFlaggedNone(parts.start);
    CountFlaggedZero(parts.end);
  }

  lemma {:induction false} CountFlaggedZero(ts: seq<Tagged>)
    requires CountFlagged(ts) == 0
    ensures forall k :: 0 <= k < |ts| ==> !ts[k].flag
  {
    if |ts| > 0 {
      CountFlaggedZero(ts[1..]);
      assert forall k :: 1 <= k < |ts| ==> ts[k] == ts[1..][k - 1];
    }
  }

  /** Cumulative stations never decrease when distances are non-negative. */
  lemma StationsAscend(g: Geo, vs: seq<Point>)
    requires |vs| > 0 && NonNegativeDistances(g)
    ensures forall i, j :: 0 <= i <= j < |vs| ==> Stations(g, vs)[i] <= Stations(g, vs)[j]
  {
    var st := Stations(g, vs);
    forall i, j | 0 <= i <= j < |vs|
      ensures st[i] <= st[j]
    {
      var k := i;
      while k < j
        invariant i <= k <= j
        invariant st[i] <= st[k]
      {
        assert g.dist(vs[k + 1], vs[k]) >= 0.0;
        k := k + 1;
      }
    }
  }

  /** The line's own vertices keep their relative order in the sorted
      list: their stations ascend and the sort is stable, so the unflagged
      entries of the sorted list are exactly the vertices, in order. */
  lemma ClipKeepsVertexOrder(g: Geo, l: Line, p1: Point, p2: Point)
    requires NonNegativeDistances(g)
    ensures Points(StableSort.Filter(SortedTags(g, l, p1, p2), IsVertex)) == l.vertices
  {
    var ts := Tags(g, l, p1, p2);
    TagsVertices(g, l, p1, p2);
    TagsVerticesAscend(g, l, p1, p2);
    StableSort.StableSortKeepsSortedSubsequence(ts, Station, IsVertex);
    TagsVertexPoints(g, l, p1, p2);
  }

  lemma TagsVertexPoints(g: Geo, l: Line, p1: Point, p2: Point)
    ensures Points(Tags(g, l, p1, p2)[..|l.vertices|]) == l.vertices
  {
    var vs := Tags(g, l, p1, p2)[..|l.vertices|];
    var ps := Points(vs);
    forall i | 0 <= i < |ps|
      ensures ps[i] == l.vertices[i]
    {
      assert ps[i] == vs[i].pt;
    }
  }

  /** The unflagged entries of the unsorted list are its first `n`. */
  lemma TagsVertices(g: Geo, l: Line, p1: Point, p2: Point)
    ensures var ts := Tags(g, l, p1, p2);
      StableSort.Filter(ts, IsVertex) == ts[..|l.vertices|]
  {
    var ts := Tags(g, l, p1, p2);
    var n := |l.vertices|;
    assert ts == ts[..n] + [ts[n], ts[n + 1]];
    StableSort.FilterAppend(ts[..n], [ts[n], ts[n + 1]], IsVertex);
    StableSort.FilterAll(ts[..n], IsVertex);
    assert StableSort.Filter([ts[n], ts[n + 1]], IsVertex) == [];
  }

  /** The vertices' entries are in station order. */
  lemma TagsVerticesAscend(g: Geo, l: Line, p1: Point, p2: Point)
    requires NonNegativeDistances(g)
    ensures StableSort.SortedBy(Tags(g, l, p1, p2)[..|l.vertices|], Station)
  {
    var ts := Tags(g, l, p1, p2);
    var n := |l.vertices|;
    var st := Stations(g, l.vertices);
    StationsAscend(g, l.vertices);
    forall i | 0 <= i < n
      ensures ts[i].station == st[i]
    {
    }
  }
}
