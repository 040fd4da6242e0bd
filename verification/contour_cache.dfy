/** `Contours` and `Contour` (autodelin/interface.py): contours keyed by
    elevation, kept as raw shapefile geometry until first asked for, and
    then converted and cached for a limited number of further misses.

    The raw geometry is what `shape(feature)` yields: a line, a multi-line
    or something else; its coordinates are already two-dimensional. */
module ContourCache {
  import opened Errors
  import opened Geometry

  datatype Raw =
    | LineGeo(coords: seq<Point>)
    | MultiLineGeo(parts: seq<seq<Point>>)
    | OtherGeo

  /** `Contour(line_list, elevation)` with its `multipart` flag. */
  datatype Contour = Contour(lineList: seq<Line>, elevation: int, multipart: bool)

  /** `Contour.__init__`: a contour is multipart unless it has exactly one
      part (an empty part list counts as multipart). */
  function NewContour(lines: seq<Line>, elevation: int): (c: Contour)
    ensures c.lineList == lines && c.elevation == elevation
    ensures c.multipart <==> |lines| != 1
  {
    Contour(lines, elevation, |lines| != 1)
  }

  /** A `contours` value: still raw, or converted. */
  datatype Entry = RawEntry(raw: Raw) | Cached(contour: Contour)

  /** `CacheTracker(age, geo)`: `geo` is the raw value the contour was
      converted from, restored when the entry is evicted. */
  datatype Tracker = Tracker(age: int, geo: Raw)

  datatype Contours = Contours(contours: map<int, Entry>, tracker: map<int, Tracker>, cacheAge: int)

  /** `Contours(cache_age)`: nothing stored, nothing tracked. */
  function Empty(cacheAge: int): (cs: Contours)
    ensures cs.contours == map[] && cs.tracker == map[] && cs.cacheAge == cacheAge
  {
    Contours(map[], map[], cacheAge)
  }

  // ------------------------------------------------------------ parsing

  function PartsToLines(parts: seq<seq<Point>>): (r: Result<seq<Line>>)
    ensures r.Ok? <==> forall i :: 0 <= i < |parts| ==> |parts[i]| >= 2
    ensures r.Ok? ==> |r.value| == |parts| && forall i :: 0 <= i < |parts| ==> r.value[i].vertices == parts[i]
    ensures r.Err? ==> r.exc == IndexError || r.exc == ValueError
  {
    if |parts| == 0 then Ok([])
    else
      var l :- MakeLine(parts[0]);
      var ls :- PartsToLines(parts[1..]);
      Ok([l] + ls)
  }

  /** The conversion in `get`: a line becomes a one-part list, a
      multi-line its list of parts, anything else raises `ShapefileError`. */
  function Parse(raw: Raw): (r: Result<seq<Line>>)
    ensures raw.OtherGeo? <==> r == Err(ShapefileError)
    ensures raw.LineGeo? && r.Ok? ==> |r.value| == 1 && r.value[0].vertices == raw.coords
    ensures raw.MultiLineGeo? && r.Ok? ==> |r.value| == |raw.parts|
  {
    match raw
    case OtherGeo => Err(ShapefileError)
    case LineGeo(coords) => var l :- MakeLine(coords); Ok([l])
    case MultiLineGeo(parts) => PartsToLines(parts)
  }

  // ---------------------------------------------------------- the cache

  /** One step older: the tracker entry of a contour that survives aging. */
  function Older(t: Tracker): (r: Tracker)
    ensures r.age + 1 == t.age && r.geo == t.geo
  {
    t.(age := t.age - 1)
  }

  /** The raw entry an evicted contour is restored to. */
  function Restored(t: Tracker): (r: Entry)
    ensures r.RawEntry? && r.raw == t.geo
  {
    RawEntry(t.geo)
  }

  /** `_age_cache`: entries of age 0 get their raw geometry back and are
      no longer tracked; every other tracked age drops by one. */
  function AgeCache(cs: Contours): (r: Contours)
    ensures r.cacheAge == cs.cacheAge
    ensures forall e :: e in r.tracker <==> e in cs.tracker && cs.tracker[e].age != 0
    ensures forall e :: e in r.tracker ==> r.tracker[e] == cs.tracker[e].(age := cs.tracker[e].age - 1)
    ensures forall e :: e in r.contours <==> e in cs.contours || (e in cs.tracker && cs.tracker[e].age == 0)
    ensures forall e :: e in cs.tracker && cs.tracker[e].age == 0 ==> r.contours[e] == RawEntry(cs.tracker[e].geo)
    ensures forall e :: e in cs.contours && !(e in cs.tracker && cs.tracker[e].age == 0) ==> r.contours[e] == cs.contours[e]
  {
    var evicted := set e | e in cs.tracker && cs.tracker[e].age == 0;
    var contours := map e | e in cs.contours.Keys + evicted ::
      if e in evicted then Restored(cs.tracker[e]) else cs.contours[e];
    var tracker := map e | e in cs.tracker && cs.tracker[e].age != 0 :: Older(cs.tracker[e]);
    Contours(contours, tracker, cs.cacheAge)
  }

  /** `Contours.get(elevation)`: the new state together with the contour
      or the exception.  The state changes of a miss (aging, the new
      tracker) persist even when the conversion raises. */
  function Get(cs: Contours, e: int): (r: (Contours, Result<Contour>))
    ensures e !in cs.contours ==> r == (cs, Err(KeyError))
    ensures e in cs.contours && cs.contours[e].Cached? ==> r == (cs, Ok(cs.contours[e].contour))
    ensures r.1.Ok? ==> e in r.0.contours && r.0.contours[e] == Cached(r.1.value)
    ensures e in cs.contours && cs.contours[e].RawEntry? ==>
      && e in r.0.tracker && r.0.tracker[e] == Tracker(cs.cacheAge, cs.contours[e].raw)
      && (r.1.Ok? <==> Parse(cs.contours[e].raw).Ok?)
      && (r.1.Ok? ==> r.1.value == NewContour(Parse(cs.contours[e].raw).value, e))
      && (r.1.Err? ==> r.1.exc == Parse(cs.contours[e].raw).exc)
  {
    if e !in cs.contours then (cs, Err(KeyError))
    else match cs.contours[e]
      case Cached(c) => (cs, Ok(c))
      case RawEntry(raw) =>
        var aged := AgeCache(cs);
        var tracked := aged.(tracker := aged.tracker[e := Tracker(cs.cacheAge, raw)]);
        match Parse(raw)
        case Err(x) => (tracked, Err(x))
        case Ok(lines) =>
          var c := NewContour(lines, e);
          (tracked.(contours := tracked.contours[e := Cached(c)]), Ok(c))
  }

  /** `Contours.add(geo, elev)`: stores raw geometry, replacing whatever
      was there; the tracker is left alone. */
  function Add(cs: Contours, raw: Raw, e: int): (r: Contours)
    ensures r.contours == cs.contours[e := RawEntry(raw)]
    ensures r.tracker == cs.tracker && r.cacheAge == cs.cacheAge
  {
    cs.(contours := cs.contours[e := RawEntry(raw)])
  }

  /** `Contours.length()`: the number of stored elevations. */
  function Length(cs: Contours): (n: nat)
    ensures n == |cs.contours.Keys|
  {
    |cs.contours|
  }

  // --------------------------------------------------------- invariant

  function Materialized(cs: Contours): set<int> {
    set e | e in cs.contours && cs.contours[e].Cached?
  }

  /** Converted entries are tracked and were converted from the raw value
      their tracker keeps; tracked elevations are stored; ages are
      distinct and lie in `0 .. cache_age`. */
  ghost predicate Valid(cs: Contours) {
    && cs.cacheAge >= 0
    && (forall e :: e in cs.tracker ==> e in cs.contours)
    && (forall e :: e in cs.tracker ==> 0 <= cs.tracker[e].age <= cs.cacheAge)
    && (forall e1, e2 :: e1 in cs.tracker && e2 in cs.tracker && e1 != e2 ==> cs.tracker[e1].age != cs.tracker[e2].age)
    && (forall e :: e in cs.contours && cs.contours[e].Cached? ==>
          && e in cs.tracker
          && Parse(cs.tracker[e].geo) == Ok(cs.contours[e].contour.lineList)
          && cs.contours[e].contour == NewContour(cs.contours[e].contour.lineList, e))
  }

  lemma EmptyValid(cacheAge: nat)
    ensures Valid(Empty(cacheAge)) && Coherent(Empty(cacheAge))
  {
  }

  lemma AddValid(cs: Contours, raw: Raw, e: int)
    requires Valid(cs)
    ensures Valid(Add(cs, raw, e))
  {
  }

  /** Aging keeps every invariant, and leaves every remaining age strictly
      below `cache_age`, so a new tracker at `cache_age` collides with
      none. */
  lemma AgeCacheValid(cs: Contours)
    requires Valid(cs)
    ensures Valid(AgeCache(cs))
    ensures forall e :: e in AgeCache(cs).tracker ==> AgeCache(cs).tracker[e].age < cs.cacheAge
  {
    var r := AgeCache(cs);
    forall e | e in r.contours && r.contours[e].Cached?
      ensures e in r.tracker
    {
      assert !(e in cs.tracker && cs.tracker[e].age == 0);
    }
  }

  /** Every call of `get` keeps the invariant, on every path. */
  lemma GetValid(cs: Contours, e: int)
    requires Valid(cs)
    ensures Valid(Get(cs, e).0)
  {
    if e in cs.contours && cs.contours[e].RawEntry? {
      var raw := cs.contours[e].raw;
      AgeCacheValid(cs);
      var aged := AgeCache(cs);
      assert aged.contours[e].RawEntry?;
      TrackValid(aged, e, raw);
      var tracked := aged.(tracker := aged.tracker[e := Tracker(cs.cacheAge, raw)]);
      if Parse(raw).Ok? {
        CacheValid(tracked, e, Parse(raw).value);
      }
    }
  }

  /** A new tracker at `cache_age` for a raw entry, after aging. */
  lemma TrackValid(aged: Contours, e: int, raw: Raw)
    requires Valid(aged) && e in aged.contours && aged.contours[e].RawEntry?
    requires forall x :: x in aged.tracker ==> aged.tracker[x].age < aged.cacheAge
    ensures Valid(aged.(tracker := aged.tracker[e := Tracker(aged.cacheAge, raw)]))
  {
    var tracked := aged.(tracker := aged.tracker[e := Tracker(aged.cacheAge, raw)]);
    forall e1, e2 | e1 in tracked.tracker && e2 in tracked.tracker && e1 != e2
      ensures tracked.tracker[e1].age != tracked.tracker[e2].age
    {
      if e1 != e && e2 != e {
        assert aged.tracker[e1].age != aged.tracker[e2].age;
      }
    }
  }

  /** Caching what the tracked geometry converts to. */
  lemma CacheValid(cs: Contours, e: int, lines: seq<Line>)
    requires Valid(cs) && e in cs.tracker && Parse(cs.tracker[e].geo) == Ok(lines)
    ensures Valid(cs.(contours := cs.contours[e := Cached(NewContour(lines, e))]))
  {
  }

  // ----------------------------------------------------- transparency

  /** What an elevation stands for, whatever the cache's state: the
      converted contour, or what converting the raw geometry gives. */
  function Lookup(cs: Contours, e: int): Result<Contour> {
    if e !in cs.contours then Err(KeyError)
    else match cs.contours[e]
      case Cached(c) => Ok(c)
      case RawEntry(raw) =>
        match Parse(raw)
        case Err(x) => Err(x)
        case Ok(lines) => Ok(NewContour(lines, e))
  }

  /** A tracked elevation is stored, and if it is raw it holds exactly the
      geometry its tracker would restore.  `add` on an untracked
      elevation keeps this; `add` on a tracked one breaks it (see
      AddWhileTrackedIsUndone). */
  ghost predicate Coherent(cs: Contours) {
    forall e :: e in cs.tracker ==>
      e in cs.contours && (cs.contours[e].RawEntry? ==> cs.contours[e].raw == cs.tracker[e].geo)
  }

  lemma AgeCacheTransparent(cs: Contours)
    requires Valid(cs) && Coherent(cs)
    ensures Coherent(AgeCache(cs))
    ensures forall x :: Lookup(AgeCache(cs), x) == Lookup(cs, x)
  {
    var r := AgeCache(cs);
    forall x
      ensures Lookup(r, x) == Lookup(cs, x)
    {
      if x in cs.tracker && cs.tracker[x].age == 0 {
        assert r.contours[x] == RawEntry(cs.tracker[x].geo);
      }
    }
  }

  /** The cache is invisible: on a valid, coherent cache `get` returns what
      the elevation stands for, and afterwards every elevation still
      stands for the same thing. */
  lemma GetTransparent(cs: Contours, e: int)
    requires Valid(cs) && Coherent(cs)
    ensures Get(cs, e).1 == Lookup(cs, e)
    ensures Valid(Get(cs, e).0) && Coherent(Get(cs, e).0)
    ensures forall x :: Lookup(Get(cs, e).0, x) == Lookup(cs, x)
  {
    GetValid(cs, e);
    if e in cs.contours && cs.contours[e].RawEntry? {
      AgeCacheTransparent(cs);
      var aged := AgeCache(cs);
      assert Lookup(aged, e) == Lookup(cs, e);
    }
  }

  /** `add` on an untracked elevation keeps the cache coherent. */
  lemma AddCoherent(cs: Contours, raw: Raw, e: int)
    requires Coherent(cs) && e !in cs.tracker
    ensures Coherent(Add(cs, raw, e))
  {
  }

  /** `add` leaves the tracker alone, so geometry added for an elevation
      that is still tracked is overwritten by the old tracked geometry at
      its eviction: the next miss evicts an age-0 entry. */
  lemma AddWhileTrackedIsUndone(cs: Contours, raw: Raw, e: int, x: int)
    requires e in cs.tracker && cs.tracker[e].age == 0
    requires x != e && x in cs.contours && cs.contours[x].RawEntry?
    ensures Get(Add(cs, raw, e), x).0.contours[e] == RawEntry(cs.tracker[e].geo)
  {
  }

  /** Distinct ages in `0 .. n-1` admit at most `n` tracked elevations. */
  lemma {:induction false} DistinctAgesBound(tr: map<int, Tracker>, n: nat)
    requires forall e :: e in tr ==> 0 <= tr[e].age < n
    requires forall e1, e2 :: e1 in tr && e2 in tr && e1 != e2 ==> tr[e1].age != tr[e2].age
    ensures |tr.Keys| <= n
  {
    if n == 0 {
      assert forall e :: e !in tr;
      assert tr.Keys == {};
    } else if e :| e in tr && tr[e].age == n - 1 {
      var rest := tr - {e};
      DistinctAgesBound(rest, n - 1);
      assert tr.Keys == rest.Keys + {e};
    } else {
      DistinctAgesBound(tr, n - 1);
    }
  }

  /** At most `cache_age + 1` contours are converted at any time. */
  lemma MaterializedBound(cs: Contours)
    requires Valid(cs)
    ensures |Materialized(cs)| <= cs.cacheAge + 1
  {
    DistinctAgesBound(cs.tracker, cs.cacheAge + 1);
    forall e | e in Materialized(cs)
      ensures e in cs.tracker.Keys
    {
    }
    SubsetCardinality(Materialized(cs), cs.tracker.Keys);
  }

  lemma SubsetCardinality(a: set<int>, b: set<int>)
    requires a <= b
    ensures |a| <= |b|
  {
    assert b == a + (b - a);
  }

  /** A miss ages every other tracked entry: age-0 entries are evicted and
      get back exactly the raw value they were converted from, whose
      conversion gives the evicted contour's parts again; the others are
      one step older and keep their contour. */
  lemma MissEvicts(cs: Contours, e: int, x: int)
    requires Valid(cs) && e in cs.contours && cs.contours[e].RawEntry?
    requires x != e && x in cs.tracker
    ensures var r := Get(cs, e).0;
      && (cs.tracker[x].age == 0 ==>
            && x !in r.tracker && r.contours[x] == RawEntry(cs.tracker[x].geo)
            && (cs.contours[x].Cached? ==> Parse(r.contours[x].raw) == Ok(cs.contours[x].contour.lineList)))
      && (cs.tracker[x].age != 0 ==>
            && x in r.tracker && r.tracker[x].age == cs.tracker[x].age - 1
            && r.contours[x] == cs.contours[x])
  {
  }

  /** Raw geometry that is not a line: the cache has still been aged and
      the elevation tracked at `cache_age`, but it stays raw. */
  lemma ShapefileErrorAfterAging(cs: Contours, e: int)
    requires e in cs.contours && cs.contours[e] == RawEntry(OtherGeo)
    ensures Get(cs, e).1 == Err(ShapefileError)
    ensures Get(cs, e).0.tracker == AgeCache(cs).tracker[e := Tracker(cs.cacheAge, OtherGeo)]
    ensures e in cs.tracker && cs.tracker[e].age == 0 ==> Get(cs, e).0.contours[e] == RawEntry(cs.tracker[e].geo)
    ensures !(e in cs.tracker && cs.tracker[e].age == 0) ==> Get(cs, e).0.contours[e] == RawEntry(OtherGeo)
  {
  }

  /** Asking for the same elevation twice: the second call is a hit that
      returns the same contour and changes nothing. */
  lemma GetTwice(cs: Contours, e: int)
    requires Get(cs, e).1.Ok?
    ensures Get(Get(cs, e).0, e) == (Get(cs, e).0, Get(cs, e).1)
  {
  }

  /** Two raw line contours under `cache_age = 0`. */
  function TwoLines(a: seq<Point>, b: seq<Point>): Contours {
    Add(Add(Empty(0), LineGeo(a), 1), LineGeo(b), 2)
  }

  /** With `cache_age = 0` a contour lives through exactly one other miss:
      converting 1 and then 2 evicts 1 and restores its raw geometry. */
  lemma ZeroAgeEvictsAtNextMiss(a: seq<Point>, b: seq<Point>)
    requires |a| >= 2 && |b| >= 2
    ensures Get(TwoLines(a, b), 1).0.contours[1].Cached?
    ensures Get(TwoLines(a, b), 1).0.tracker.Keys == {1}
    ensures Get(Get(TwoLines(a, b), 1).0, 2).0.contours[1] == RawEntry(LineGeo(a))
    ensures Get(Get(TwoLines(a, b), 1).0, 2).0.contours[2].Cached?
    ensures Get(Get(TwoLines(a, b), 1).0, 2).0.tracker.Keys == {2}
  {
    var s1 := Get(TwoLines(a, b), 1).0;
    assert s1.tracker.Keys == {1};
    assert s1.contours[2] == RawEntry(LineGeo(b));
  }

  /** `get` at each elevation of `es` in turn. */
  function GetAll(cs: Contours, es: seq<int>): (r: Contours)
    ensures |es| == 0 ==> r == cs
    decreases |es|
  {
    if |es| == 0 then cs else GetAll(Get(cs, es[0]).0, es[1..])
  }

  /** Every lookup of `es`, made in turn, is a miss on an elevation other
      than `x`. */
  ghost predicate OtherMisses(cs: Contours, es: seq<int>, x: int)
    decreases |es|
  {
    |es| == 0 ||
    (&& es[0] != x && es[0] in cs.contours && cs.contours[es[0]].RawEntry?
     && OtherMisses(Get(cs, es[0]).0, es[1..], x))
  }

  /** A contour tracked at age `k` survives `k` misses on other elevations
      unchanged, one age younger at each, and the next miss evicts it back
      to its raw geometry, which later misses leave alone. */
  lemma {:induction false} TrackedEntryLifetime(cs: Contours, es: seq<int>, x: int)
    requires Valid(cs) && x in cs.tracker && OtherMisses(cs, es, x)
    ensures var r := GetAll(cs, es);
      && (|es| <= cs.tracker[x].age ==>
            x in r.tracker && r.tracker[x].age == cs.tracker[x].age - |es|
            && x in r.contours && x in cs.contours && r.contours[x] == cs.contours[x])
      && (|es| > cs.tracker[x].age ==>
            x !in r.tracker && x in r.contours && r.contours[x] == RawEntry(cs.tracker[x].geo))
    decreases |es|
  {
    if |es| > 0 {
      var s1 := Get(cs, es[0]).0;
      MissEvicts(cs, es[0], x);
      GetValid(cs, es[0]);
      if cs.tracker[x].age == 0 {
        UntrackedStays(s1, es[1..], x);
      } else {
        TrackedEntryLifetime(s1, es[1..], x);
      }
    }
  }

  /** Misses on other elevations leave an untracked entry alone. */
  lemma {:induction false} UntrackedStays(cs: Contours, es: seq<int>, x: int)
    requires x !in cs.tracker && x in cs.contours && OtherMisses(cs, es, x)
    ensures x !in GetAll(cs, es).tracker && x in GetAll(cs, es).contours
    ensures GetAll(cs, es).contours[x] == cs.contours[x]
    decreases |es|
  {
    if |es| > 0 {
      var s1 := Get(cs, es[0]).0;
      assert x !in s1.tracker && x in s1.contours && s1.contours[x] == cs.contours[x];
      UntrackedStays(s1, es[1..], x);
    }
  }

  /** `length` counts elevations: adding a new one adds one, replacing
      one adds nothing, and `get` never changes it on a valid cache. */
  lemma LengthAdd(cs: Contours, raw: Raw, e: int)
    ensures Length(Add(cs, raw, e)) == if e in cs.contours then Length(cs) else Length(cs) + 1
  {
    if e in cs.contours {
      assert Add(cs, raw, e).contours.Keys == cs.contours.Keys;
    } else {
      assert Add(cs, raw, e).contours.Keys == cs.contours.Keys + {e};
    }
  }

  lemma LengthGet(cs: Contours, e: int)
    requires Valid(cs)
    ensures Length(Get(cs, e).0) == Length(cs)
  {
    if e in cs.contours && cs.contours[e].RawEntry? {
      var aged := AgeCache(cs);
      assert forall x :: x in cs.tracker ==> x in cs.contours;
      assert aged.contours.Keys == cs.contours.Keys;
      assert Get(cs, e).0.contours.Keys == aged.contours.Keys;
    }
  }
}
