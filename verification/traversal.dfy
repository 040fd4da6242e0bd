/** `delineate(bfe_cross_sections, contours)` (autodelin/logic.py and the
    older copy in autodelin.py): the per-side walk along the marker list.

    Each side first looks for an anchor (the first BFE, or the first cross
    section whose extent resolves to a non-negative position), then steps
    pair by pair from the anchor on.  A pair's body runs inside a
    `try` that catches every exception; afterwards the "last" state is
    reset from the `current_*` locals, unless the pair was skipped by
    `continue`.  Those locals belong to the whole function: a pair whose
    body raised before assigning them resets from whatever an earlier
    pair (or the other side) left there, and from nothing at all on the
    first pair, which is an UnboundLocalError that escapes `delineate`.

    What differs between the two copies of the code is a `Flavour`: how
    contours are fetched (`contours.get` or `_get_contour`), how a contour
    is clipped, whether a boundary is tagged with a status, and what
    `_calc_extent_position` raises for a BFE.  `recover` selects the
    corrected walk, in which a pair whose reset would read an unassigned
    local is skipped instead of aborting. */
module Traversal {
  import opened Errors
  import opened Geometry
  import opened ContourCache
  import opened Markers
  import opened Logic
  import Interpolator

  datatype Side = Left | Right

  /** The end of a BFE line a side works from: the first vertex on the
      left, the last on the right. */
  function End(l: Line, side: Side): Point {
    if side == Left then First(l) else Last(l)
  }

  function Extent(m: Marker, side: Side): Point
    requires m.XS?
  {
    if side == Left then m.leftExtent else m.rightExtent
  }

  /** A Python local that may not have been assigned yet. */
  datatype Local<T> = Unbound | Bound(v: T)

  function Read<T>(x: Local<T>): (r: Result<T>)
    ensures x.Unbound? <==> r == Err(UnboundLocal)
    ensures x.Bound? ==> r == Ok(x.v)
  {
    if x.Unbound? then Err(UnboundLocal) else Ok(x.v)
  }

  /** `current_position`, `current_high_pt`, `current_low_pt`. */
  datatype Current = Current(pos: Local<real>, high: Local<Option<Point>>, low: Local<Option<Point>>)

  const Fresh := Current(Unbound, Unbound, Unbound)

  /** `last_bfe_xs`, `last_position`, `last_high_pt`, `last_low_pt`. */
  datatype LastState = LastState(marker: Marker, pos: real, high: Option<Point>, low: Option<Point>)

  datatype Status = Crosses | OK

  /** A drawn boundary and its `status` attribute (absent in the older
      copy). */
  datatype Boundary = Boundary(line: Line, status: Option<Status>)

  /** How the `try` block of one pair ends. */
  datatype Outcome = Skipped | Drawn(b: Boundary) | Caught(exc: Exc)

  datatype Flavour<!S> = Flavour(
    get: (S, int) -> (S, Result<Contour>),
    clip: (Geo, Contour, Option<Point>, Option<Point>) -> Result<Line>,
    tagStatus: bool,
    onBfe: Exc,
    recover: bool)

  /** The store, the `current_*` locals and the outcome after one pair's
      `try` block. */
  datatype Attempt<S> = Attempt(store: S, cur: Current, out: Outcome)

  // ----------------------------------------------------------- one pair

  /** Clip both contours between the last and current points, orient
      them from the last points, draw the boundary and tag it. */
  function Draw<S(!new)>(g: Geo, f: Flavour<S>, lowC: Contour, highC: Contour, last: LastState,
                   pos: real, high: Option<Point>, low: Option<Point>): (r: Outcome)
    ensures r != Skipped
    ensures r.Drawn? ==> (r.b.status.Some? <==> f.tagStatus)
    ensures r.Drawn? && f.tagStatus ==>
      (r.b.status == Some(Crosses) <==> ContourCrossesBoundary(g, r.b.line, highC, lowC))
    ensures f.clip(g, lowC, last.low, low).Err? ==> r == Caught(f.clip(g, lowC, last.low, low).exc)
    ensures r.Drawn? ==>
      && f.clip(g, lowC, last.low, low).Ok? && f.clip(g, highC, last.high, high).Ok?
      && last.low.Some? && last.high.Some?
    ensures var lc := f.clip(g, lowC, last.low, low);
      var hc := f.clip(g, highC, last.high, high);
      lc.Ok? && hc.Ok? && last.low.Some? && last.high.Some? ==>
        var d := Interpolator.DrawLineBetweenContours(g, OrientContours(g, last.low.value, lc.value),
                                                      OrientContours(g, last.high.value, hc.value), last.pos, pos);
        && (r.Drawn? <==> d.Ok?)
        && (d.Ok? ==> r.b.line == d.value)
        && (d.Err? ==> r == Caught(d.exc))
  {
    match f.clip(g, lowC, last.low, low)
    case Err(x) => Caught(x)
    case Ok(lowLine) =>
      match f.clip(g, highC, last.high, high)
      case Err(x) => Caught(x)
      case Ok(highLine) =>
        match Need(last.low)
        case Err(x) => Caught(x)
        case Ok(lastLow) =>
          match Need(last.high)
          case Err(x) => Caught(x)
          case Ok(lastHigh) =>
            var lowO := OrientContours(g, lastLow, lowLine);
            var highO := OrientContours(g, lastHigh, highLine);
            match Interpolator.DrawLineBetweenContours(g, lowO, highO, last.pos, pos)
            case Err(x) => Caught(x)
            case Ok(b) =>
              var status := if ContourCrossesBoundary(g, b, highC, lowC) then Crosses else OK;
              Drawn(Boundary(b, if f.tagStatus then Some(status) else None))
  }

  /** The `try` block for the pair (`last`, `m`): the floor contour of
      the last marker and the ceiling contour of the current one are
      fetched first. */
  function Try<S(!new)>(g: Geo, f: Flavour<S>, side: Side, s: S, last: LastState, cur: Current, m: Marker): (r: Attempt<S>)
    ensures r.out.Skipped? ==> m.XS? && r.cur.pos.Bound? && r.cur.pos.v < 0.0
    ensures r.out.Drawn? ==> r.cur.pos.Bound? && r.cur.high.Bound? && r.cur.low.Bound?
    ensures m.BFE? && r.out.Drawn? ==> r.cur.pos == Bound(1.0) && r.cur.high == Bound(Some(End(m.geo, side)))
    ensures r.out.Drawn? ==> (r.out.b.status.Some? <==> f.tagStatus)
    ensures var lo := f.get(s, Floor(last.marker.elevation));
      lo.1.Err? ==> r == Attempt(lo.0, cur, Caught(lo.1.exc))
    ensures var lo := f.get(s, Floor(last.marker.elevation));
      var hi := f.get(lo.0, Ceil(m.elevation));
      lo.1.Ok? && hi.1.Err? ==> r == Attempt(hi.0, cur, Caught(hi.1.exc))
    ensures var lo := f.get(s, Floor(last.marker.elevation));
      var hi := f.get(lo.0, Ceil(m.elevation));
      lo.1.Ok? && hi.1.Ok? && m.BFE? ==>
        r.store == hi.0 && r.cur.pos == Bound(1.0) && r.cur.high == Bound(Some(End(m.geo, side)))
    ensures var lo := f.get(s, Floor(last.marker.elevation));
      var hi := f.get(lo.0, Ceil(m.elevation));
      lo.1.Ok? && hi.1.Ok? && m.XS? ==> Resolved(g, f, side, hi.0, cur, m, r)
  {
    var lo := f.get(s, Floor(last.marker.elevation));
    if lo.1.Err? then Attempt(lo.0, cur, Caught(lo.1.exc))
    else
      var hi := f.get(lo.0, Ceil(m.elevation));
      if hi.1.Err? then Attempt(hi.0, cur, Caught(hi.1.exc))
      else Step(g, f, side, hi.0, last, cur, m, lo.1.value, hi.1.value)
  }

  /** The rest of the `try` block once both contours are at hand.  A BFE
      sets the current position to 1 and the high point to its end
      before looking for the low point; a cross section's extent is
      resolved, and a negative position skips the pair. */
  function Step<S(!new)>(g: Geo, f: Flavour<S>, side: Side, s: S, last: LastState, cur: Current, m: Marker,
                   lowC: Contour, highC: Contour): (r: Attempt<S>)
    ensures r.out.Skipped? ==> m.XS? && r.cur.pos.Bound? && r.cur.pos.v < 0.0
    ensures r.out.Drawn? ==> r.cur.pos.Bound? && r.cur.high.Bound? && r.cur.low.Bound?
    ensures m.BFE? ==> r.cur.pos == Bound(1.0) && r.cur.high == Bound(Some(End(m.geo, side))) && r.store == s
    ensures r.out.Drawn? ==> (r.out.b.status.Some? <==> f.tagStatus)
    ensures m.XS? ==> Resolved(g, f, side, s, cur, m, r)
  {
    if m.BFE? then BfeStep(g, f, side, s, last, cur, m, lowC, highC)
    else XsStep(g, f, side, s, last, cur, m, lowC, highC)
  }

  function BfeStep<S(!new)>(g: Geo, f: Flavour<S>, side: Side, s: S, last: LastState, cur: Current, m: Marker,
                      lowC: Contour, highC: Contour): (r: Attempt<S>)
    requires m.BFE?
    ensures r.out != Skipped && r.store == s
    ensures r.out.Drawn? ==> r.cur.low.Bound?
    ensures r.cur.pos == Bound(1.0) && r.cur.high == Bound(Some(End(m.geo, side)))
    ensures r.out.Drawn? ==> (r.out.b.status.Some? <==> f.tagStatus)
  {
    var end := End(m.geo, side);
    var cur1 := cur.(pos := Bound(1.0), high := Bound(Some(end)));
    match ClosestContourSegment(g, lowC, Some(end))
    case Err(x) => Attempt(s, cur1, Caught(x))
    case Ok(temp) =>
      match NearestIntersection(g, m.geo, temp, end)
      case Err(x) => Attempt(s, cur1, Caught(x))
      case Ok(lowPt) =>
        var cur2 := cur1.(low := Bound(Some(lowPt)));
        Attempt(s, cur2, Draw(g, f, lowC, highC, last, 1.0, Some(end), Some(lowPt)))
  }

  /** How a cross-section pair ends once its extent has been resolved
      against store `s`: a failing resolution leaves the locals alone; a
      successful one sets all three, and the pair is skipped exactly when
      the position is negative. */
  ghost predicate Resolved<S(!new)>(g: Geo, f: Flavour<S>, side: Side, s: S, cur: Current, m: Marker, r: Attempt<S>)
    requires m.XS?
  {
    var ep := ExtentPosition(g, f.get, s, m, Extent(m, side), f.onBfe);
    && r.store == ep.0
    && (ep.1.Err? ==> r.cur == cur && r.out == Caught(ep.1.exc))
    && (ep.1.Ok? ==>
          && r.cur == Current(Bound(ep.1.value.pos), Bound(ep.1.value.high), Bound(ep.1.value.low))
          && (r.out.Skipped? <==> ep.1.value.pos < 0.0))
  }

  function XsStep<S(!new)>(g: Geo, f: Flavour<S>, side: Side, s: S, last: LastState, cur: Current, m: Marker,
                     lowC: Contour, highC: Contour): (r: Attempt<S>)
    requires m.XS?
    ensures r.out.Skipped? ==> r.cur.pos.Bound? && r.cur.pos.v < 0.0
    ensures r.out.Drawn? ==> r.cur.pos.Bound? && r.cur.high.Bound? && r.cur.low.Bound?
    ensures r.out.Drawn? ==> (r.out.b.status.Some? <==> f.tagStatus)
    ensures Resolved(g, f, side, s, cur, m, r)
    ensures var ep := ExtentPosition(g, f.get, s, m, Extent(m, side), f.onBfe).1;
      ep.Ok? && ep.value.pos >= 0.0 ==> r.out == Draw(g, f, lowC, highC, last, ep.value.pos, ep.value.high, ep.value.low)
  {
    var ep := ExtentPosition(g, f.get, s, m, Extent(m, side), f.onBfe);
    match ep.1
    case Err(x) => Attempt(ep.0, cur, Caught(x))
    case Ok(p) =>
      var cur1 := Current(Bound(p.pos), Bound(p.high), Bound(p.low));
      if p.pos < 0.0 then Attempt(ep.0, cur1, Skipped)
      else Attempt(ep.0, cur1, Draw(g, f, lowC, highC, last, p.pos, p.high, p.low))
  }

  /** The reset after a pair that was not skipped.  A BFE's high point
      becomes both last points; a cross section passes on both of its
      points; a position of 1 becomes 0. */
  function Reset(cur: Current, m: Marker): (r: Result<LastState>)
    ensures r.Ok? ==> r.value.marker == m && r.value.pos != 1.0
    ensures r.Ok? && m.BFE? ==> r.value.high == r.value.low
    ensures r.Err? ==> r.exc == UnboundLocal
    ensures r.Err? <==> cur.pos.Unbound? || cur.high.Unbound? || (m.XS? && cur.low.Unbound?)
    ensures r.Ok? ==>
      && cur.pos.Bound? && cur.high.Bound? && (m.XS? ==> cur.low.Bound?)
      && r.value.pos == (if cur.pos.v == 1.0 then 0.0 else cur.pos.v)
      && r.value.high == cur.high.v
      && r.value.low == (if m.BFE? then cur.high.v else cur.low.v)
  {
    var low :- if m.BFE? then Read(cur.high) else Read(cur.low);
    var high :- Read(cur.high);
    var pos :- Read(cur.pos);
    Ok(LastState(m, if pos == 1.0 then 0.0 else pos, high, low))
  }

  // ---------------------------------------------------------- one side

  datatype Walk<S> = Walk(store: S, cur: Current, out: seq<Boundary>)

  /** The `for current_bfe_xs in remaining_bfe_xs` loop. */
  function Pairs<S(!new)>(g: Geo, f: Flavour<S>, side: Side, s: S, last: LastState, cur: Current, ms: seq<Marker>): (r: Result<Walk<S>>)
    ensures r.Ok? ==> |r.value.out| <= |ms|
    ensures r.Ok? ==> forall i :: 0 <= i < |r.value.out| ==> (r.value.out[i].status.Some? <==> f.tagStatus)
    ensures r.Err? ==> r.exc == UnboundLocal
    decreases |ms|
  {
    if |ms| == 0 then Ok(Walk(s, cur, []))
    else
      var a := Try(g, f, side, s, last, cur, ms[0]);
      if a.out.Skipped? then Pairs(g, f, side, a.store, last, a.cur, ms[1..])
      else if f.recover && Reset(a.cur, ms[0]).Err? then Pairs(g, f, side, a.store, last, a.cur, ms[1..])
      else
        var next :- Reset(a.cur, ms[0]);
        var rest :- Pairs(g, f, side, a.store, next, a.cur, ms[1..]);
        var mine := if a.out.Drawn? then [a.out.b] else [];
        Ok(Walk(rest.store, rest.cur, mine + rest.out))
  }

  /** No contour lookup of the flavour raises a bare `raise`; both
      `contours.get` and `_get_contour` raise named exceptions. */
  ghost predicate LookupsNeverBare<S(!new)>(f: Flavour<S>) {
    forall s: S, e: int :: f.get(s, e).1 != Err(BareRaise)
  }

  /** Resolving a cross section's extent raises a bare `raise` only if a
      lookup does. */
  lemma ExtentPositionNeverBare<S(!new)>(g: Geo, f: Flavour<S>, s: S, m: Marker, extent: Point)
    requires m.XS?
    ensures LookupsNeverBare(f) ==> ExtentPosition(g, f.get, s, m, extent, f.onBfe).1 != Err(BareRaise)
  {
    if LookupsNeverBare(f) {
      var h := f.get(s, Ceil(m.elevation));
      assert h.1 != Err(BareRaise);
      if h.1.Ok? {
        var hs := ClosestContourSegment(g, h.1.value, Some(extent));
        if hs.Ok? {
          var l := f.get(h.0, Floor(m.elevation));
          assert l.1 != Err(BareRaise);
        }
      }
    }
  }

  datatype Anchor = Anchor(index: nat, last: LastState)

  /** The anchor search from index `i`: a BFE is taken at position 0 with
      both points at its side's end; a cross section is taken when its
      extent resolves to a non-negative position.  An exception while
      resolving escapes; running out of markers is a bare `raise`. */
  function FindAnchor<S(!new)>(g: Geo, f: Flavour<S>, side: Side, s: S, ms: seq<Marker>, i: nat): (r: (S, Result<Anchor>))
    requires i <= |ms|
    ensures r.1.Ok? ==>
      var a := r.1.value;
      && i <= a.index < |ms| && a.last.marker == ms[a.index]
      && (ms[a.index].BFE? ==>
            a.last == LastState(ms[a.index], 0.0, Some(End(ms[a.index].geo, side)), Some(End(ms[a.index].geo, side))))
      && (ms[a.index].XS? ==> a.last.pos >= 0.0)
      && (forall k :: i <= k < a.index ==> ms[k].XS?)
    ensures (forall k :: i <= k < |ms| ==> ms[k].XS?) && r.1.Ok? ==> r.1.value.last.pos >= 0.0
    ensures i == |ms| ==> r.1 == Err(BareRaise)
    ensures LookupsNeverBare(f) && r.1 == Err(BareRaise) ==> forall k :: i <= k < |ms| ==> ms[k].XS?
    decreases |ms| - i
  {
    if i == |ms| then (s, Err(BareRaise))
    else
      var m := ms[i];
      if m.BFE? then
        var end := End(m.geo, side);
        (s, Ok(Anchor(i, LastState(m, 0.0, Some(end), Some(end)))))
      else
        var ep := ExtentPosition(g, f.get, s, m, Extent(m, side), f.onBfe);
        match ep.1
        case Err(x) =>
          ExtentPositionNeverBare(g, f, s, m, Extent(m, side));
          (ep.0, Err(x))
        case Ok(p) =>
          if p.pos >= 0.0 then (ep.0, Ok(Anchor(i, LastState(m, p.pos, p.high, p.low))))
          else FindAnchor(g, f, side, ep.0, ms, i + 1)
  }

  /** One side: the anchor, then the pairs after it. */
  function DoSide<S(!new)>(g: Geo, f: Flavour<S>, side: Side, s: S, cur: Current, ms: seq<Marker>): (r: Result<Walk<S>>)
    ensures r.Ok? ==> |r.value.out| < |ms|
    ensures |ms| == 0 ==> r == Err(BareRaise)
  {
    var a := FindAnchor(g, f, side, s, ms, 0);
    var anchor :- a.1;
    Pairs(g, f, side, a.0, anchor.last, cur, ms[anchor.index + 1..])
  }

  datatype Boundaries<S> = Boundaries(store: S, left: seq<Boundary>, right: seq<Boundary>)

  /** `delineate`: put the list in rising-elevation order, then the left
      side, then the right side with the same store and the same
      `current_*` locals. */
  function Delineate<S(!new)>(g: Geo, f: Flavour<S>, s: S, ms: seq<Marker>): (r: Result<Boundaries<S>>)
    ensures |ms| == 0 ==> r == Err(IndexError)
    ensures r.Ok? ==> |r.value.left| < |ms| && |r.value.right| < |ms|
    ensures r.Ok? ==> forall i :: 0 <= i < |r.value.left| ==> (r.value.left[i].status.Some? <==> f.tagStatus)
    ensures r.Ok? ==> forall i :: 0 <= i < |r.value.right| ==> (r.value.right[i].status.Some? <==> f.tagStatus)
  {
    var ordered :- Orient(ms);
    var left :- DoSide(g, f, Left, s, Fresh, ordered);
    var right :- DoSide(g, f, Right, left.store, left.cur, ordered);
    Ok(Boundaries(right.store, left.out, right.out))
  }

  // ------------------------------------------------------------ flavours

  /** `contours.get` with the cache state ignored: what the elevation
      stands for. */
  function PureGet(t: Contours, e: int): (r: (Contours, Result<Contour>))
    ensures r.0 == t && r.1 == Lookup(t, e)
  {
    (t, Lookup(t, e))
  }

  /** autodelin/logic.py as written. */
  function LogicFlavour(): Flavour<Contours> {
    Flavour(CacheGet, ClipToBfe, true, ValueError, false)
  }

  /** autodelin/logic.py with the single-part clip and the reset after a
      failed first pair corrected. */
  function IntendedFlavour(): Flavour<Contours> {
    Flavour(CacheGet, ClipToBfeFixed, true, ValueError, true)
  }

  /** The contour cache raises only named exceptions, so the anchor search
      of autodelin/logic.py raises a bare `raise` only when no BFE is left. */
  lemma CacheLookupsNeverBare()
    ensures LookupsNeverBare(LogicFlavour()) && LookupsNeverBare(IntendedFlavour())
  {
    forall cs: Contours, e: int
      ensures CacheGet(cs, e).1 != Err(BareRaise)
    {
      if e in cs.contours && cs.contours[e].RawEntry? {
        var raw := cs.contours[e].raw;
        if raw.MultiLineGeo? {
          assert Parse(raw) == PartsToLines(raw.parts);
        }
      }
    }
  }

  /** A flavour with the cache replaced by its contents. */
  function Frozen(f: Flavour<Contours>): Flavour<Contours> {
    f.(get := PureGet)
  }

  // -------------------------------------------------------------- lemmas

  /** A BFE pair whose two contour lookups succeed hands on the BFE's end
      point as both last points at position 0, whether or not drawing
      succeeds. */
  lemma BfePairResets<S(!new)>(g: Geo, f: Flavour<S>, side: Side, s: S, last: LastState, cur: Current, m: Marker)
    requires m.BFE?
    requires f.get(s, Floor(last.marker.elevation)).1.Ok?
    requires f.get(f.get(s, Floor(last.marker.elevation)).0, Ceil(m.elevation)).1.Ok?
    ensures var a := Try(g, f, side, s, last, cur, m);
      && !a.out.Skipped?
      && Reset(a.cur, m) == Ok(LastState(m, 0.0, Some(End(m.geo, side)), Some(End(m.geo, side))))
  {
  }

  /** A cross-section pair whose extent resolves to a non-negative
      position hands on its own two contour points and that position (0
      in place of 1). */
  lemma XsPairResets<S(!new)>(g: Geo, f: Flavour<S>, side: Side, s: S, last: LastState, cur: Current, m: Marker)
    requires m.XS?
    requires f.get(s, Floor(last.marker.elevation)).1.Ok?
    ensures var lo := f.get(s, Floor(last.marker.elevation));
      var hi := f.get(lo.0, Ceil(m.elevation));
      var ep := ExtentPosition(g, f.get, hi.0, m, Extent(m, side), f.onBfe).1;
      hi.1.Ok? && ep.Ok? && ep.value.pos >= 0.0 ==>
        var a := Try(g, f, side, s, last, cur, m);
        && !a.out.Skipped?
        && Reset(a.cur, m) == Ok(LastState(m, if ep.value.pos == 1.0 then 0.0 else ep.value.pos, ep.value.high, ep.value.low))
  {
  }

  /** A cross section whose extent resolves to a negative position is
      skipped: it draws nothing and never becomes the last marker. */
  lemma NegativeExtentSkipped<S(!new)>(g: Geo, f: Flavour<S>, side: Side, s: S, last: LastState, cur: Current, m: Marker, rest: seq<Marker>)
    requires m.XS?
    requires var lo := f.get(s, Floor(last.marker.elevation));
      var hi := f.get(lo.0, Ceil(m.elevation));
      var ep := ExtentPosition(g, f.get, hi.0, m, Extent(m, side), f.onBfe).1;
      lo.1.Ok? && hi.1.Ok? && ep.Ok? && ep.value.pos < 0.0
    ensures var a := Try(g, f, side, s, last, cur, m);
      && a.out.Skipped?
      && Pairs(g, f, side, s, last, cur, [m] + rest) == Pairs(g, f, side, a.store, last, a.cur, rest)
  {
    assert ([m] + rest)[1..] == rest;
  }

  /** When a contour lookup of a pair fails, the `current_*` locals keep
      whatever they held before the pair. */
  lemma FailedLookupLeavesLocals<S(!new)>(g: Geo, f: Flavour<S>, side: Side, s: S, last: LastState, cur: Current, m: Marker)
    ensures var lo := f.get(s, Floor(last.marker.elevation));
      lo.1.Err? ==> Try(g, f, side, s, last, cur, m) == Attempt(lo.0, cur, Caught(lo.1.exc))
    ensures var lo := f.get(s, Floor(last.marker.elevation));
      var hi := f.get(lo.0, Ceil(m.elevation));
      lo.1.Ok? && hi.1.Err? ==> Try(g, f, side, s, last, cur, m) == Attempt(hi.0, cur, Caught(hi.1.exc))
  {
  }

  /** With the code as written, a failing lookup on the very first pair
      leaves the reset nothing to read: `delineate` ends with
      UnboundLocalError instead of skipping the pair. */
  lemma FirstPairFailureAborts<S(!new)>(g: Geo, f: Flavour<S>, side: Side, s: S, last: LastState, m: Marker, rest: seq<Marker>)
    requires !f.recover
    requires f.get(s, Floor(last.marker.elevation)).1.Err?
    ensures Pairs(g, f, side, s, last, Fresh, [m] + rest) == Err(UnboundLocal)
  {
    FailedLookupLeavesLocals(g, f, side, s, last, Fresh, m);
  }

  /** The corrected walk never aborts. */
  lemma {:induction false} RecoveringPairsSucceed<S(!new)>(g: Geo, f: Flavour<S>, side: Side, s: S, last: LastState, cur: Current, ms: seq<Marker>)
    requires f.recover
    ensures Pairs(g, f, side, s, last, cur, ms).Ok?
    decreases |ms|
  {
    if |ms| > 0 {
      var a := Try(g, f, side, s, last, cur, ms[0]);
      if a.out.Skipped? || Reset(a.cur, ms[0]).Err? {
        RecoveringPairsSucceed(g, f, side, a.store, last, a.cur, ms[1..]);
      } else {
        RecoveringPairsSucceed(g, f, side, a.store, Reset(a.cur, ms[0]).value, a.cur, ms[1..]);
      }
    }
  }

  /** Where the walk as written does not abort, the corrected walk does
      exactly the same. */
  lemma {:induction false} RecoveringPairsAgree<S(!new)>(g: Geo, f: Flavour<S>, side: Side, s: S, last: LastState, cur: Current, ms: seq<Marker>)
    requires !f.recover && Pairs(g, f, side, s, last, cur, ms).Ok?
    ensures Pairs(g, f.(recover := true), side, s, last, cur, ms) == Pairs(g, f, side, s, last, cur, ms)
    decreases |ms|
  {
    if |ms| > 0 {
      var f' := f.(recover := true);
      var a := Try(g, f, side, s, last, cur, ms[0]);
      assert Try(g, f', side, s, last, cur, ms[0]) == a by {
        TrySameForRecover(g, f, side, s, last, cur, ms[0]);
      }
      if a.out.Skipped? {
        RecoveringPairsAgree(g, f, side, a.store, last, a.cur, ms[1..]);
      } else {
        RecoveringPairsAgree(g, f, side, a.store, Reset(a.cur, ms[0]).value, a.cur, ms[1..]);
      }
    }
  }

  /** In the corrected walk a side fails only when it finds no anchor. */
  lemma RecoveringSideNeedsOnlyAnchor<S(!new)>(g: Geo, f: Flavour<S>, side: Side, s: S, cur: Current, ms: seq<Marker>)
    requires f.recover
    ensures DoSide(g, f, side, s, cur, ms).Ok? <==> FindAnchor(g, f, side, s, ms, 0).1.Ok?
  {
    var a := FindAnchor(g, f, side, s, ms, 0);
    if a.1.Ok? {
      RecoveringPairsSucceed(g, f, side, a.0, a.1.value.last, cur, ms[a.1.value.index + 1..]);
    }
  }

  /** `delineate` of autodelin/logic.py with both corrections fails only
      for an empty list or when one side finds no anchor. */
  lemma IntendedFailsOnlyWithoutAnchor(g: Geo, cs: Contours, ms: seq<Marker>)
    ensures var f := IntendedFlavour();
      var r := Delineate(g, f, cs, ms);
      r.Err? && |ms| > 0 ==>
        var o := Orient(ms).value;
        var left := DoSide(g, f, Left, cs, Fresh, o);
        || FindAnchor(g, f, Left, cs, o, 0).1.Err?
        || (left.Ok? && FindAnchor(g, f, Right, left.value.store, o, 0).1.Err?)
  {
    var f := IntendedFlavour();
    if |ms| > 0 {
      var o := Orient(ms).value;
      RecoveringSideNeedsOnlyAnchor(g, f, Left, cs, Fresh, o);
      var left := DoSide(g, f, Left, cs, Fresh, o);
      if left.Ok? {
        RecoveringSideNeedsOnlyAnchor(g, f, Right, left.value.store, left.value.cur, o);
      }
    }
  }

  lemma TrySameForRecover<S(!new)>(g: Geo, f: Flavour<S>, side: Side, s: S, last: LastState, cur: Current, m: Marker)
    ensures Try(g, f.(recover := true), side, s, last, cur, m) == Try(g, f, side, s, last, cur, m)
  {
    var f' := f.(recover := true);
    var lo := f.get(s, Floor(last.marker.elevation));
    if lo.1.Ok? {
      var hi := f.get(lo.0, Ceil(m.elevation));
      if hi.1.Ok? {
        StepSameForRecover(g, f, side, hi.0, last, cur, m, lo.1.value, hi.1.value);
        assert Try(g, f, side, s, last, cur, m) == Step(g, f, side, hi.0, last, cur, m, lo.1.value, hi.1.value);
        assert Try(g, f', side, s, last, cur, m) == Step(g, f', side, hi.0, last, cur, m, lo.1.value, hi.1.value);
      }
    }
  }

  lemma StepSameForRecover<S(!new)>(g: Geo, f: Flavour<S>, side: Side, s: S, last: LastState, cur: Current,
                              m: Marker, lowC: Contour, highC: Contour)
    ensures Step(g, f.(recover := true), side, s, last, cur, m, lowC, highC) == Step(g, f, side, s, last, cur, m, lowC, highC)
  {
    var f' := f.(recover := true);
    if m.BFE? {
      var end := End(m.geo, side);
      var temp := ClosestContourSegment(g, lowC, Some(end));
      if temp.Ok? {
        var lowPt := NearestIntersection(g, m.geo, temp.value, end);
        if lowPt.Ok? {
          DrawIgnoresGet(g, f, f', lowC, highC, last, 1.0, Some(end), Some(lowPt.value));
        }
      }
    } else {
      var ep := ExtentPosition(g, f.get, s, m, Extent(m, side), f.onBfe);
      if ep.1.Ok? {
        var p := ep.1.value;
        DrawIgnoresGet(g, f, f', lowC, highC, last, p.pos, p.high, p.low);
      }
    }
  }

  /** With `_clip_to_bfe` as written, a pair draws a boundary only when
      both of its contours are multipart. */
  lemma DrawnOnlyForMultipart<S(!new)>(g: Geo, f: Flavour<S>, lowC: Contour, highC: Contour, last: LastState,
                                 pos: real, high: Option<Point>, low: Option<Point>)
    requires f.clip == ClipToBfe
    ensures Draw(g, f, lowC, highC, last, pos, high, low).Drawn? ==> lowC.multipart && highC.multipart
  {
    if !lowC.multipart {
      assert ClipToBfe(g, lowC, last.low, low) == Err(TypeError);
    } else if !highC.multipart {
      assert ClipToBfe(g, highC, last.high, high) == Err(TypeError);
    }
  }

  // ------------------------------------------------ the anchor search

  /** Fetching a contour from store `s` leaves the store as it is. */
  ghost predicate Keeps<S(!new)>(f: Flavour<S>, s: S) {
    forall e: int :: f.get(s, e).0 == s
  }

  /** The marker is a cross section whose extent resolves to a negative
      position: the anchor search passes over it. */
  ghost predicate PassedOver<S(!new)>(g: Geo, f: Flavour<S>, side: Side, s: S, m: Marker) {
    && m.XS?
    && var ep := ExtentPosition(g, f.get, s, m, Extent(m, side), f.onBfe).1;
       ep.Ok? && ep.value.pos < 0.0
  }

  lemma ExtentPointsKeeps<S(!new)>(g: Geo, f: Flavour<S>, s: S, cut: Line, elevation: real, extent: Point)
    requires Keeps(f, s)
    ensures ExtentPoints(g, f.get, s, cut, elevation, extent).0 == s
  {
    var h := f.get(s, Ceil(elevation));
    assert h.0 == s;
    assert f.get(h.0, Floor(elevation)).0 == s;
  }

  lemma ExtentPositionKeeps<S(!new)>(g: Geo, f: Flavour<S>, s: S, m: Marker, extent: Point)
    requires Keeps(f, s)
    ensures ExtentPosition(g, f.get, s, m, extent, f.onBfe).0 == s
  {
    if m.XS? {
      ExtentPointsKeeps(g, f, s, m.geo, m.elevation, extent);
    }
  }

  /** With a store that does not change, the anchor is the first marker
      from `i` on that is a BFE or a cross section resolving to a
      non-negative position, every marker before it is passed over, and a
      cross-section anchor carries its own resolution.  When every marker
      is passed over the search ends in a bare `raise`. */
  lemma {:induction false} AnchorIsFirstUsable<S(!new)>(g: Geo, f: Flavour<S>, side: Side, s: S, ms: seq<Marker>, i: nat)
    requires Keeps(f, s) && i <= |ms|
    ensures var r := FindAnchor(g, f, side, s, ms, i);
      && r.0 == s
      && (r.1.Ok? ==> forall k :: i <= k < r.1.value.index ==> PassedOver(g, f, side, s, ms[k]))
      && (r.1.Ok? && ms[r.1.value.index].XS? ==>
            var m := ms[r.1.value.index];
            ExtentPosition(g, f.get, s, m, Extent(m, side), f.onBfe).1 == Ok(Position(r.1.value.last.pos, r.1.value.last.high, r.1.value.last.low)))
    ensures (forall k :: i <= k < |ms| ==> PassedOver(g, f, side, s, ms[k])) ==> FindAnchor(g, f, side, s, ms, i).1 == Err(BareRaise)
    decreases |ms| - i
  {
    var r := FindAnchor(g, f, side, s, ms, i);
    if i < |ms| {
      FindAnchorUnfold(g, f, side, s, ms, i);
      if PassedOver(g, f, side, s, ms[i]) {
        AnchorIsFirstUsable(g, f, side, s, ms, i + 1);
        assert r == FindAnchor(g, f, side, s, ms, i + 1);
        if r.1.Ok? {
          assert forall k :: i + 1 <= k < r.1.value.index ==> PassedOver(g, f, side, s, ms[k]);
        }
      } else {
        assert r.0 == s;
        assert !(forall k :: i <= k < |ms| ==> PassedOver(g, f, side, s, ms[k]));
      }
    }
  }

  /** One step of the anchor search with a store that does not change. */
  lemma FindAnchorUnfold<S(!new)>(g: Geo, f: Flavour<S>, side: Side, s: S, ms: seq<Marker>, i: nat)
    requires Keeps(f, s) && i < |ms|
    ensures PassedOver(g, f, side, s, ms[i]) ==> FindAnchor(g, f, side, s, ms, i) == FindAnchor(g, f, side, s, ms, i + 1)
    ensures !PassedOver(g, f, side, s, ms[i]) ==>
      var r := FindAnchor(g, f, side, s, ms, i);
      && r.0 == s && (r.1.Ok? ==> r.1.value.index == i)
      && (r.1.Ok? && ms[i].XS? ==>
            ExtentPosition(g, f.get, s, ms[i], Extent(ms[i], side), f.onBfe).1 == Ok(Position(r.1.value.last.pos, r.1.value.last.high, r.1.value.last.low)))
  {
    if ms[i].XS? {
      ExtentPositionKeeps(g, f, s, ms[i], Extent(ms[i], side));
    }
  }

  // ------------------------------------------- the cache is transparent

  /** `cs` is a well-formed cache that answers every lookup as `t` does. */
  ghost predicate Mirrors(cs: Contours, t: Contours) {
    Valid(cs) && Coherent(cs) && forall x :: Lookup(cs, x) == Lookup(t, x)
  }

  lemma GetMirrors(cs: Contours, t: Contours, e: int)
    requires Mirrors(cs, t)
    ensures Mirrors(CacheGet(cs, e).0, t) && CacheGet(cs, e).1 == PureGet(t, e).1
  {
    GetTransparent(cs, e);
  }

  lemma ExtentPointsMirrors(g: Geo, cs: Contours, t: Contours, cut: Line, elevation: real, extent: Point)
    requires Mirrors(cs, t)
    ensures var a := ExtentPoints(g, CacheGet, cs, cut, elevation, extent);
      Mirrors(a.0, t) && a.1 == ExtentPoints(g, PureGet, t, cut, elevation, extent).1
  {
    GetMirrors(cs, t, Ceil(elevation));
    GetMirrors(CacheGet(cs, Ceil(elevation)).0, t, Floor(elevation));
  }

  lemma ExtentPositionMirrors(g: Geo, cs: Contours, t: Contours, m: Marker, extent: Point, onBfe: Exc)
    requires Mirrors(cs, t)
    ensures var a := ExtentPosition(g, CacheGet, cs, m, extent, onBfe);
      Mirrors(a.0, t) && a.1 == ExtentPosition(g, PureGet, t, m, extent, onBfe).1
  {
    if m.XS? {
      ExtentPointsMirrors(g, cs, t, m.geo, m.elevation, extent);
    }
  }

  lemma StepMirrors(g: Geo, f: Flavour<Contours>, side: Side, cs: Contours, t: Contours, last: LastState, cur: Current,
                    m: Marker, lowC: Contour, highC: Contour)
    requires f.get == CacheGet && Mirrors(cs, t)
    ensures var a := Step(g, f, side, cs, last, cur, m, lowC, highC);
      var b := Step(g, Frozen(f), side, t, last, cur, m, lowC, highC);
      Mirrors(a.store, t) && b.store == t && a.cur == b.cur && a.out == b.out
  {
    if m.BFE? {
      BfeStepIgnoresStore(g, f, Frozen(f), side, cs, t, last, cur, m, lowC, highC);
    } else {
      XsStepMirrors(g, f, side, cs, t, last, cur, m, lowC, highC);
    }
  }

  /** A BFE pair neither reads nor changes the store. */
  lemma BfeStepIgnoresStore<S(!new)>(g: Geo, f: Flavour<S>, f': Flavour<S>, side: Side, s: S, s': S, last: LastState, cur: Current,
                               m: Marker, lowC: Contour, highC: Contour)
    requires m.BFE? && f.clip == f'.clip && f.tagStatus == f'.tagStatus
    ensures var a := BfeStep(g, f, side, s, last, cur, m, lowC, highC);
      var b := BfeStep(g, f', side, s', last, cur, m, lowC, highC);
      a.store == s && b.store == s' && a.cur == b.cur && a.out == b.out
  {
    var end := End(m.geo, side);
    var temp := ClosestContourSegment(g, lowC, Some(end));
    if temp.Ok? {
      var lowPt := NearestIntersection(g, m.geo, temp.value, end);
      if lowPt.Ok? {
        DrawIgnoresGet(g, f, f', lowC, highC, last, 1.0, Some(end), Some(lowPt.value));
      }
    }
  }

  lemma XsStepMirrors(g: Geo, f: Flavour<Contours>, side: Side, cs: Contours, t: Contours, last: LastState, cur: Current,
                      m: Marker, lowC: Contour, highC: Contour)
    requires f.get == CacheGet && Mirrors(cs, t) && m.XS?
    ensures var a := XsStep(g, f, side, cs, last, cur, m, lowC, highC);
      var b := XsStep(g, Frozen(f), side, t, last, cur, m, lowC, highC);
      Mirrors(a.store, t) && b.store == t && a.cur == b.cur && a.out == b.out
  {
    var x := Extent(m, side);
    ExtentPositionMirrors(g, cs, t, m, x, f.onBfe);
    ExtentPositionKeeps(g, Frozen(f), t, m, x);
    var ep := ExtentPosition(g, f.get, cs, m, x, f.onBfe);
    var ep' := ExtentPosition(g, Frozen(f).get, t, m, x, f.onBfe);
    assert ep'.0 == t && ep'.1 == ep.1;
    if ep.1.Ok? {
      var p := ep.1.value;
      DrawIgnoresGet(g, f, Frozen(f), lowC, highC, last, p.pos, p.high, p.low);
      var cur1 := Current(Bound(p.pos), Bound(p.high), Bound(p.low));
      if p.pos < 0.0 {
        assert XsStep(g, f, side, cs, last, cur, m, lowC, highC) == Attempt(ep.0, cur1, Skipped);
        assert XsStep(g, Frozen(f), side, t, last, cur, m, lowC, highC) == Attempt(t, cur1, Skipped);
      } else {
        var o := Draw(g, f, lowC, highC, last, p.pos, p.high, p.low);
        assert XsStep(g, f, side, cs, last, cur, m, lowC, highC) == Attempt(ep.0, cur1, o);
        assert XsStep(g, Frozen(f), side, t, last, cur, m, lowC, highC) == Attempt(t, cur1, o);
      }
    } else {
      assert XsStep(g, f, side, cs, last, cur, m, lowC, highC) == Attempt(ep.0, cur, Caught(ep.1.exc));
      assert XsStep(g, Frozen(f), side, t, last, cur, m, lowC, highC) == Attempt(t, cur, Caught(ep.1.exc));
    }
  }

  /** Drawing does not look at how contours are fetched. */
  lemma DrawIgnoresGet<S(!new)>(g: Geo, f: Flavour<S>, f': Flavour<S>, lowC: Contour, highC: Contour, last: LastState,
                          pos: real, high: Option<Point>, low: Option<Point>)
    requires f.clip == f'.clip && f.tagStatus == f'.tagStatus
    ensures Draw(g, f, lowC, highC, last, pos, high, low) == Draw(g, f', lowC, highC, last, pos, high, low)
  {
  }

  lemma TryMirrors(g: Geo, f: Flavour<Contours>, side: Side, cs: Contours, t: Contours, last: LastState, cur: Current, m: Marker)
    requires f.get == CacheGet && Mirrors(cs, t)
    ensures var a := Try(g, f, side, cs, last, cur, m);
      var b := Try(g, Frozen(f), side, t, last, cur, m);
      Mirrors(a.store, t) && b.store == t && a.cur == b.cur && a.out == b.out
  {
    var lo := CacheGet(cs, Floor(last.marker.elevation));
    GetMirrors(cs, t, Floor(last.marker.elevation));
    if lo.1.Err? {
      assert Try(g, f, side, cs, last, cur, m) == Attempt(lo.0, cur, Caught(lo.1.exc));
      assert Try(g, Frozen(f), side, t, last, cur, m) == Attempt(t, cur, Caught(lo.1.exc));
    } else {
      var hi := CacheGet(lo.0, Ceil(m.elevation));
      GetMirrors(lo.0, t, Ceil(m.elevation));
      if hi.1.Err? {
        assert Try(g, f, side, cs, last, cur, m) == Attempt(hi.0, cur, Caught(hi.1.exc));
        assert Try(g, Frozen(f), side, t, last, cur, m) == Attempt(t, cur, Caught(hi.1.exc));
      } else {
        StepMirrors(g, f, side, hi.0, t, last, cur, m, lo.1.value, hi.1.value);
        assert Try(g, f, side, cs, last, cur, m) == Step(g, f, side, hi.0, last, cur, m, lo.1.value, hi.1.value);
        assert Try(g, Frozen(f), side, t, last, cur, m) == Step(g, Frozen(f), side, t, last, cur, m, lo.1.value, hi.1.value);
      }
    }
  }

  /** Two walks agree on everything but the store, and the first one's
      store mirrors `t`, which the second one's is. */
  ghost predicate SameWalk(a: Result<Walk<Contours>>, b: Result<Walk<Contours>>, t: Contours) {
    && (a.Err? <==> b.Err?)
    && (a.Err? ==> a.exc == b.exc)
    && (a.Ok? ==> a.value.cur == b.value.cur && a.value.out == b.value.out && Mirrors(a.value.store, t) && b.value.store == t)
  }

  lemma {:induction false} PairsMirror(g: Geo, f: Flavour<Contours>, side: Side, cs: Contours, t: Contours, last: LastState, cur: Current, ms: seq<Marker>)
    requires f.get == CacheGet && Mirrors(cs, t)
    ensures SameWalk(Pairs(g, f, side, cs, last, cur, ms), Pairs(g, Frozen(f), side, t, last, cur, ms), t)
    decreases |ms|
  {
    if |ms| > 0 {
      TryMirrors(g, f, side, cs, t, last, cur, ms[0]);
      var a := Try(g, f, side, cs, last, cur, ms[0]);
      var next := Reset(a.cur, ms[0]);
      if a.out.Skipped? || (f.recover && next.Err?) {
        PairsMirror(g, f, side, a.store, t, last, a.cur, ms[1..]);
      } else if next.Ok? {
        PairsMirror(g, f, side, a.store, t, next.value, a.cur, ms[1..]);
      }
    }
  }

  lemma {:induction false} FindAnchorMirrors(g: Geo, f: Flavour<Contours>, side: Side, cs: Contours, t: Contours, ms: seq<Marker>, i: nat)
    requires f.get == CacheGet && Mirrors(cs, t) && i <= |ms|
    ensures var a := FindAnchor(g, f, side, cs, ms, i);
      Mirrors(a.0, t) && a.1 == FindAnchor(g, Frozen(f), side, t, ms, i).1
    ensures FindAnchor(g, Frozen(f), side, t, ms, i).0 == t
    decreases |ms| - i
  {
    if i < |ms| && ms[i].XS? {
      var m := ms[i];
      ExtentPositionMirrors(g, cs, t, m, Extent(m, side), f.onBfe);
      ExtentPositionKeeps(g, Frozen(f), t, m, Extent(m, side));
      var ep := ExtentPosition(g, f.get, cs, m, Extent(m, side), f.onBfe);
      if ep.1.Ok? && ep.1.value.pos < 0.0 {
        FindAnchorMirrors(g, f, side, ep.0, t, ms, i + 1);
        assert FindAnchor(g, f, side, cs, ms, i) == FindAnchor(g, f, side, ep.0, ms, i + 1);
        assert FindAnchor(g, Frozen(f), side, t, ms, i) == FindAnchor(g, Frozen(f), side, t, ms, i + 1);
      }
    }
  }

  lemma DoSideMirrors(g: Geo, f: Flavour<Contours>, side: Side, cs: Contours, t: Contours, cur: Current, ms: seq<Marker>)
    requires f.get == CacheGet && Mirrors(cs, t)
    ensures SameWalk(DoSide(g, f, side, cs, cur, ms), DoSide(g, Frozen(f), side, t, cur, ms), t)
  {
    FindAnchorMirrors(g, f, side, cs, t, ms, 0);
    var a := FindAnchor(g, f, side, cs, ms, 0);
    if a.1.Ok? {
      var rest := ms[a.1.value.index + 1..];
      PairsMirror(g, f, side, a.0, t, a.1.value.last, cur, rest);
      assert DoSide(g, f, side, cs, cur, ms) == Pairs(g, f, side, a.0, a.1.value.last, cur, rest);
      assert DoSide(g, Frozen(f), side, t, cur, ms) == Pairs(g, Frozen(f), side, t, a.1.value.last, cur, rest);
    } else {
      assert DoSide(g, f, side, cs, cur, ms) == Err(a.1.exc);
      assert DoSide(g, Frozen(f), side, t, cur, ms) == Err(a.1.exc);
    }
  }

  /** The contour cache of autodelin/interface.py changes nothing about
      what `delineate` draws or raises: starting from a well-formed cache,
      the walk gives the same boundaries and the same exception as a walk
      that looks every elevation up in the cache's contents directly. */
  lemma DelineateIgnoresCache(g: Geo, f: Flavour<Contours>, cs: Contours, ms: seq<Marker>)
    requires f.get == CacheGet && Valid(cs) && Coherent(cs)
    ensures var a := Delineate(g, f, cs, ms);
      var b := Delineate(g, Frozen(f), cs, ms);
      && (a.Err? <==> b.Err?)
      && (a.Err? ==> a.exc == b.exc)
      && (a.Ok? ==> a.value.left == b.value.left && a.value.right == b.value.right)
  {
    if |ms| > 0 {
      var o := Orient(ms).value;
      DoSideMirrors(g, f, Left, cs, cs, Fresh, o);
      var l := DoSide(g, f, Left, cs, Fresh, o);
      if l.Ok? {
        DoSideMirrors(g, f, Right, l.value.store, cs, l.value.cur, o);
      }
    }
  }

  // ---------------------------------- two stores with the same contours

  /** Two answers that succeed together and agree when they do; the
      exceptions may differ. */
  predicate Like<T(==)>(a: Result<T>, b: Result<T>) {
    (a.Ok? <==> b.Ok?) && (a.Ok? ==> a.value == b.value)
  }

  /** Two flavours over stores that never change and hold the same
      contours, clipping alike and walking alike. */
  ghost predicate Alike<S1(!new), S2(!new)>(f1: Flavour<S1>, s1: S1, f2: Flavour<S2>, s2: S2) {
    && Keeps(f1, s1) && Keeps(f2, s2)
    && f1.clip == f2.clip && f1.recover == f2.recover
    && forall e: int :: Like(f1.get(s1, e).1, f2.get(s2, e).1)
  }

  /** The lines of a boundary list, without their status tags. */
  function Lines(bs: seq<Boundary>): (r: seq<Line>)
    ensures |r| == |bs| && forall i :: 0 <= i < |bs| ==> r[i] == bs[i].line
  {
    if |bs| == 0 then [] else [bs[0].line] + Lines(bs[1..])
  }

  /** Two outcomes of the same kind, drawing the same line if any. */
  predicate OutLike(a: Outcome, b: Outcome) {
    && (a.Skipped? <==> b.Skipped?)
    && (a.Drawn? <==> b.Drawn?)
    && (a.Drawn? ==> a.b.line == b.b.line)
  }

  lemma ExtentPointsAlike<S1(!new), S2(!new)>(g: Geo, f1: Flavour<S1>, s1: S1, f2: Flavour<S2>, s2: S2, cut: Line, elevation: real, extent: Point)
    requires Alike(f1, s1, f2, s2)
    ensures Like(ExtentPoints(g, f1.get, s1, cut, elevation, extent).1, ExtentPoints(g, f2.get, s2, cut, elevation, extent).1)
  {
    assert Like(f1.get(s1, Ceil(elevation)).1, f2.get(s2, Ceil(elevation)).1);
    assert Like(f1.get(s1, Floor(elevation)).1, f2.get(s2, Floor(elevation)).1);
    assert f1.get(s1, Ceil(elevation)).0 == s1 && f2.get(s2, Ceil(elevation)).0 == s2;
  }

  lemma ExtentPositionAlike<S1(!new), S2(!new)>(g: Geo, f1: Flavour<S1>, s1: S1, f2: Flavour<S2>, s2: S2, m: Marker, extent: Point)
    requires Alike(f1, s1, f2, s2) && m.XS?
    ensures Like(ExtentPosition(g, f1.get, s1, m, extent, f1.onBfe).1, ExtentPosition(g, f2.get, s2, m, extent, f2.onBfe).1)
  {
    ExtentPointsAlike(g, f1, s1, f2, s2, m.geo, m.elevation, extent);
  }

  lemma DrawAlike<S1(!new), S2(!new)>(g: Geo, f1: Flavour<S1>, f2: Flavour<S2>, lowC: Contour, highC: Contour, last: LastState,
                          pos: real, high: Option<Point>, low: Option<Point>)
    requires f1.clip == f2.clip
    ensures OutLike(Draw(g, f1, lowC, highC, last, pos, high, low), Draw(g, f2, lowC, highC, last, pos, high, low))
  {
  }

  lemma StepAlike<S1(!new), S2(!new)>(g: Geo, f1: Flavour<S1>, s1: S1, f2: Flavour<S2>, s2: S2, side: Side, last: LastState, cur: Current,
                          m: Marker, lowC: Contour, highC: Contour)
    requires Alike(f1, s1, f2, s2)
    ensures var a := Step(g, f1, side, s1, last, cur, m, lowC, highC);
      var b := Step(g, f2, side, s2, last, cur, m, lowC, highC);
      a.store == s1 && b.store == s2 && a.cur == b.cur && OutLike(a.out, b.out)
  {
    if m.BFE? {
      var end := End(m.geo, side);
      var temp := ClosestContourSegment(g, lowC, Some(end));
      if temp.Ok? {
        var lowPt := NearestIntersection(g, m.geo, temp.value, end);
        if lowPt.Ok? {
          DrawAlike(g, f1, f2, lowC, highC, last, 1.0, Some(end), Some(lowPt.value));
        }
      }
    } else {
      ExtentPositionAlike(g, f1, s1, f2, s2, m, Extent(m, side));
      ExtentPositionKeeps(g, f1, s1, m, Extent(m, side));
      ExtentPositionKeeps(g, f2, s2, m, Extent(m, side));
      var ep := ExtentPosition(g, f1.get, s1, m, Extent(m, side), f1.onBfe);
      if ep.1.Ok? {
        var p := ep.1.value;
        DrawAlike(g, f1, f2, lowC, highC, last, p.pos, p.high, p.low);
      }
    }
  }

  lemma TryAlike<S1(!new), S2(!new)>(g: Geo, f1: Flavour<S1>, s1: S1, f2: Flavour<S2>, s2: S2, side: Side, last: LastState, cur: Current, m: Marker)
    requires Alike(f1, s1, f2, s2)
    ensures var a := Try(g, f1, side, s1, last, cur, m);
      var b := Try(g, f2, side, s2, last, cur, m);
      a.store == s1 && b.store == s2 && a.cur == b.cur && OutLike(a.out, b.out)
  {
    var lo1 := f1.get(s1, Floor(last.marker.elevation));
    var lo2 := f2.get(s2, Floor(last.marker.elevation));
    assert Like(lo1.1, lo2.1) && lo1.0 == s1 && lo2.0 == s2;
    if lo1.1.Ok? {
      var hi1 := f1.get(s1, Ceil(m.elevation));
      var hi2 := f2.get(s2, Ceil(m.elevation));
      assert Like(hi1.1, hi2.1) && hi1.0 == s1 && hi2.0 == s2;
      if hi1.1.Ok? {
        StepAlike(g, f1, s1, f2, s2, side, last, cur, m, lo1.1.value, hi1.1.value);
        assert Try(g, f1, side, s1, last, cur, m) == Step(g, f1, side, s1, last, cur, m, lo1.1.value, hi1.1.value);
        assert Try(g, f2, side, s2, last, cur, m) == Step(g, f2, side, s2, last, cur, m, lo1.1.value, hi1.1.value);
      }
    }
  }

  /** Two walks that both abort or both finish, drawing the same lines. */
  predicate WalkLike<S1(!new), S2(!new)>(a: Result<Walk<S1>>, b: Result<Walk<S2>>) {
    && (a.Ok? <==> b.Ok?)
    && (a.Ok? ==> a.value.cur == b.value.cur && Lines(a.value.out) == Lines(b.value.out))
  }

  lemma {:induction false} PairsAlike<S1(!new), S2(!new)>(g: Geo, f1: Flavour<S1>, s1: S1, f2: Flavour<S2>, s2: S2, side: Side,
                                              last: LastState, cur: Current, ms: seq<Marker>)
    requires Alike(f1, s1, f2, s2)
    ensures WalkLike(Pairs(g, f1, side, s1, last, cur, ms), Pairs(g, f2, side, s2, last, cur, ms))
    ensures Pairs(g, f1, side, s1, last, cur, ms).Ok? ==> Pairs(g, f1, side, s1, last, cur, ms).value.store == s1
    ensures Pairs(g, f2, side, s2, last, cur, ms).Ok? ==> Pairs(g, f2, side, s2, last, cur, ms).value.store == s2
    decreases |ms|
  {
    if |ms| > 0 {
      TryAlike(g, f1, s1, f2, s2, side, last, cur, ms[0]);
      var a := Try(g, f1, side, s1, last, cur, ms[0]);
      var next := Reset(a.cur, ms[0]);
      if a.out.Skipped? || (f1.recover && next.Err?) {
        PairsAlike(g, f1, s1, f2, s2, side, last, a.cur, ms[1..]);
      } else if next.Ok? {
        PairsAlike(g, f1, s1, f2, s2, side, next.value, a.cur, ms[1..]);
        var b := Try(g, f2, side, s2, last, cur, ms[0]);
        var r1 := Pairs(g, f1, side, s1, next.value, a.cur, ms[1..]);
        var r2 := Pairs(g, f2, side, s2, next.value, a.cur, ms[1..]);
        if r1.Ok? {
          var mine1 := if a.out.Drawn? then [a.out.b] else [];
          var mine2 := if b.out.Drawn? then [b.out.b] else [];
          LinesAppend(mine1, r1.value.out);
          LinesAppend(mine2, r2.value.out);
        }
      }
    }
  }

  lemma LinesAppend(a: seq<Boundary>, b: seq<Boundary>)
    ensures Lines(a + b) == Lines(a) + Lines(b)
  {
    var l, r := Lines(a + b), Lines(a) + Lines(b);
    assert |l| == |r|;
    forall i | 0 <= i < |l|
      ensures l[i] == r[i]
    {
      if i < |a| {
        assert r[i] == Lines(a)[i];
      } else {
        assert r[i] == Lines(b)[i - |a|];
      }
    }
  }

  lemma {:induction false} FindAnchorAlike<S1(!new), S2(!new)>(g: Geo, f1: Flavour<S1>, s1: S1, f2: Flavour<S2>, s2: S2, side: Side, ms: seq<Marker>, i: nat)
    requires Alike(f1, s1, f2, s2) && i <= |ms|
    ensures Like(FindAnchor(g, f1, side, s1, ms, i).1, FindAnchor(g, f2, side, s2, ms, i).1)
    ensures FindAnchor(g, f1, side, s1, ms, i).0 == s1 && FindAnchor(g, f2, side, s2, ms, i).0 == s2
    decreases |ms| - i
  {
    if i < |ms| && ms[i].XS? {
      var m := ms[i];
      ExtentPositionAlike(g, f1, s1, f2, s2, m, Extent(m, side));
      ExtentPositionKeeps(g, f1, s1, m, Extent(m, side));
      ExtentPositionKeeps(g, f2, s2, m, Extent(m, side));
      var ep := ExtentPosition(g, f1.get, s1, m, Extent(m, side), f1.onBfe);
      if ep.1.Ok? && ep.1.value.pos < 0.0 {
        FindAnchorAlike(g, f1, s1, f2, s2, side, ms, i + 1);
        assert FindAnchor(g, f1, side, s1, ms, i) == FindAnchor(g, f1, side, s1, ms, i + 1);
        assert FindAnchor(g, f2, side, s2, ms, i) == FindAnchor(g, f2, side, s2, ms, i + 1);
      }
    }
  }

  lemma DoSideAlike<S1(!new), S2(!new)>(g: Geo, f1: Flavour<S1>, s1: S1, f2: Flavour<S2>, s2: S2, side: Side, cur: Current, ms: seq<Marker>)
    requires Alike(f1, s1, f2, s2)
    ensures WalkLike(DoSide(g, f1, side, s1, cur, ms), DoSide(g, f2, side, s2, cur, ms))
    ensures DoSide(g, f1, side, s1, cur, ms).Ok? ==> DoSide(g, f1, side, s1, cur, ms).value.store == s1
    ensures DoSide(g, f2, side, s2, cur, ms).Ok? ==> DoSide(g, f2, side, s2, cur, ms).value.store == s2
  {
    FindAnchorAlike(g, f1, s1, f2, s2, side, ms, 0);
    var a := FindAnchor(g, f1, side, s1, ms, 0);
    if a.1.Ok? {
      var rest := ms[a.1.value.index + 1..];
      PairsAlike(g, f1, s1, f2, s2, side, a.1.value.last, cur, rest);
      assert DoSide(g, f1, side, s1, cur, ms) == Pairs(g, f1, side, s1, a.1.value.last, cur, rest);
      assert DoSide(g, f2, side, s2, cur, ms) == Pairs(g, f2, side, s2, a.1.value.last, cur, rest);
    }
  }

  /** Two flavours that hold the same contours and clip alike draw the
      same lines on both sides, and succeed or fail together; only the
      status tags and the exception raised may differ. */
  lemma DelineateAlike<S1(!new), S2(!new)>(g: Geo, f1: Flavour<S1>, s1: S1, f2: Flavour<S2>, s2: S2, ms: seq<Marker>)
    requires Alike(f1, s1, f2, s2)
    ensures var a := Delineate(g, f1, s1, ms);
      var b := Delineate(g, f2, s2, ms);
      && (a.Ok? <==> b.Ok?)
      && (a.Ok? ==> Lines(a.value.left) == Lines(b.value.left) && Lines(a.value.right) == Lines(b.value.right))
  {
    if |ms| > 0 {
      var o := Orient(ms).value;
      DoSideAlike(g, f1, s1, f2, s2, Left, Fresh, o);
      var l := DoSide(g, f1, Left, s1, Fresh, o);
      if l.Ok? {
        DoSideAlike(g, f1, s1, f2, s2, Right, l.value.cur, o);
      }
    }
  }
}
