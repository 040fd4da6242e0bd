/** The older, single-file copy of the delineation code (autodelin.py).
    Its `Contour` class and `merge_bfe_and_xs` behave as
    `ContourCache.NewContour` and `Markers.Merge`; its `_clip_to_bfe`,
    `_closest_segment_by_index`, `_closest_contour_segment` and
    `_orient_contours` as the ones in `Logic`.  What differs: contours
    live in a plain list searched by `_get_contour`, `_calc_extent_position`
    answers a BFE with a bare `raise`, and boundaries carry no status. */
module Legacy {
  import opened Errors
  import opened Geometry
  import opened ContourCache
  import opened Markers
  import opened Logic
  import Traversal

  /** `_get_contour(contours, elevation)`: the first contour of the list
      at that elevation, or ContourNotFound. */
  function GetContour(cs: seq<Contour>, e: int): (r: Result<Contour>)
    ensures r.Err? <==> forall k :: 0 <= k < |cs| ==> cs[k].elevation != e
    ensures r.Err? ==> r.exc == ContourNotFound
    ensures r.Ok? ==> exists i: nat :: FirstAt(cs, e, i) && r.value == cs[i]
  {
    if |cs| == 0 then Err(ContourNotFound)
    else if cs[0].elevation == e then
      assert FirstAt(cs, e, 0);
      Ok(cs[0])
    else
      var r := GetContour(cs[1..], e);
      if r.Ok? then
        var i: nat :| FirstAt(cs[1..], e, i) && r.value == cs[1..][i];
        assert FirstAt(cs, e, i + 1);
        r
      else r
  }

  /** Index `i` holds the first contour of the list at elevation `e`. */
  predicate FirstAt(cs: seq<Contour>, e: int, i: nat) {
    i < |cs| && cs[i].elevation == e && forall k :: 0 <= k < i ==> cs[k].elevation != e
  }

  /** The list as a contour store: looking up never changes it. */
  function ListGet(cs: seq<Contour>, e: int): (r: (seq<Contour>, Result<Contour>))
    ensures r.0 == cs && r.1 == GetContour(cs, e)
  {
    (cs, GetContour(cs, e))
  }

  /** How the older `delineate` differs from the one in autodelin/logic.py. */
  function LegacyFlavour(): Traversal.Flavour<seq<Contour>> {
    Traversal.Flavour(ListGet, ClipToBfe, false, BareRaise, false)
  }

  /** `_get_contour` raises only ContourNotFound, so the older anchor
      search raises a bare `raise` only when no BFE is left. */
  lemma ListLookupsNeverBare()
    ensures Traversal.LookupsNeverBare(LegacyFlavour())
  {
  }

  /** The older `_calc_extent_position(xs, extent, contours)`. */
  function CalcExtentPosition(g: Geo, cs: seq<Contour>, m: Marker, extent: Point): (r: Result<Position>)
    ensures m.BFE? ==> r == Err(BareRaise)
    ensures m.XS? && GetContour(cs, Ceil(m.elevation)).Err? ==> r == Err(ContourNotFound)
    ensures r.Ok? ==> m.XS? && GetContour(cs, Ceil(m.elevation)).Ok? && GetContour(cs, Floor(m.elevation)).Ok?
  {
    ExtentPosition(g, ListGet, cs, m, extent, BareRaise).1
  }

  /** The older `delineate(bfe_cross_sections, contours)`: the left and
      right boundary lines. */
  function Delineate(g: Geo, cs: seq<Contour>, ms: seq<Marker>): (r: Result<(seq<Line>, seq<Line>)>)
    ensures |ms| == 0 ==> r == Err(IndexError)
    ensures r.Ok? ==> |r.value.0| < |ms| && |r.value.1| < |ms|
  {
    var b :- Traversal.Delineate(g, LegacyFlavour(), cs, ms);
    Ok((Traversal.Lines(b.left), Traversal.Lines(b.right)))
  }

  // ------------------------------------------------------------ lemmas

  /** No contour at the ceiling elevation of any cross section means no
      anchor: every cross section ends the search with ContourNotFound
      before a BFE is reached, and a list of cross sections only cannot
      be delineated at all. */
  lemma NoContoursNoBoundaries(g: Geo, ms: seq<Marker>)
    requires |ms| > 0 && forall k :: 0 <= k < |ms| ==> ms[k].XS?
    ensures Delineate(g, [], ms) == Err(ContourNotFound)
  {
    var o := Orient(ms).value;
    assert o[0].XS? by {
      if o != ms {
        assert o[0] == ms[|ms| - 1];
      }
    }
  }

  /** The two copies of `delineate` agree: given a contour list and a
      well-formed cache that hold the same contour at every elevation
      (each may raise its own exception for a missing one), both succeed
      or both fail, and they draw the same left and right lines.  Only
      the newer copy tags the lines with a status. */
  lemma LegacyAgreesWithLogic(g: Geo, list: seq<Contour>, cache: Contours, ms: seq<Marker>)
    requires Valid(cache) && Coherent(cache)
    requires forall e: int :: Traversal.Like(GetContour(list, e), Lookup(cache, e))
    ensures var a := Delineate(g, list, ms);
      var b := Traversal.Delineate(g, Traversal.LogicFlavour(), cache, ms);
      && (a.Ok? <==> b.Ok?)
      && (a.Ok? ==> a.value.0 == Traversal.Lines(b.value.left) && a.value.1 == Traversal.Lines(b.value.right))
  {
    var logic := Traversal.LogicFlavour();
    var frozen := Traversal.Frozen(logic);
    Traversal.DelineateIgnoresCache(g, logic, cache, ms);
    assert Traversal.Alike(LegacyFlavour(), list, frozen, cache) by {
      forall e: int
        ensures Traversal.Like(LegacyFlavour().get(list, e).1, frozen.get(cache, e).1)
      {
        assert Traversal.Like(GetContour(list, e), Lookup(cache, e));
      }
    }
    Traversal.DelineateAlike(g, LegacyFlavour(), list, frozen, cache, ms);
  }
}
