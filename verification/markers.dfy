/** BFEs and cross sections as one marker list (autodelin/logic.py `BFE`,
    autodelin/interface.py `CrossSection`): merging by river station,
    putting the list in rising-elevation order and trimming it to the
    markers between two names. */
module Markers {
  import opened Errors
  import opened Geometry
  import StableSort

  /** A marker's `name`: a BFE is named by its elevation, a cross section
      by its id.  Python compares an int id equal to the same float, so
      numeric ids are `Num`. */
  datatype Name = Num(v: real) | Label(s: string)

  /** A base flood elevation line or a cross section cut line.  The station
      and, for a cross section, the elevation and the two water-surface
      extents are filled in by the import step before any of the code here
      runs. */
  datatype Marker =
    | BFE(geo: Line, elevation: real, station: real)
    | XS(geo: Line, id: Name, elevation: real, station: real, leftExtent: Point, rightExtent: Point)

  function NameOf(m: Marker): Name {
    if m.BFE? then Num(m.elevation) else m.id
  }

  function Station(m: Marker): real {
    m.station
  }

  /** `x.name == start` where `start` may be `None`, which no name equals. */
  predicate Named(m: Marker, n: Option<Name>) {
    n.Some? && NameOf(m) == n.value
  }

  // ---------------------------------------------------------- ordering

  /** `_merge_bfe_and_xs` (and the older `merge_bfe_and_xs`): the
      concatenation `bfes + cross_sections` sorted by station with a
      stable sort. */
  function Merge(bfes: seq<Marker>, xss: seq<Marker>): (r: seq<Marker>)
    ensures multiset(r) == multiset(bfes + xss)
    ensures StableSort.SortedBy(r, Station)
  {
    StableSort.SortBy(bfes + xss, Station)
  }

  /** The check both `trim_bfe_xs` and `delineate` start with: a list whose
      first elevation exceeds its last is reversed.  `list[0]` of an empty
      list raises IndexError. */
  function Orient(ms: seq<Marker>): (r: Result<seq<Marker>>)
    ensures |ms| == 0 <==> r == Err(IndexError)
    ensures r.Ok? ==> |r.value| == |ms|
    ensures r.Ok? ==> r.value[0].elevation <= r.value[|ms| - 1].elevation
    ensures r.Ok? ==> r.value == ms || r.value == Reverse(ms)
    ensures r.Ok? && ms[0].elevation <= ms[|ms| - 1].elevation ==> r.value == ms
  {
    if |ms| == 0 then Err(IndexError)
    else if ms[0].elevation > ms[|ms| - 1].elevation then Ok(Reverse(ms))
    else Ok(ms)
  }

  // -------------------------------------------------------------- trim

  /** The `for` loop of `trim_bfe_xs` with its `flag`: a marker named
      `start` switches the flag on and is kept; while on, everything but
      a marker named `end` is kept; a marker named `end` is kept and stops
      the loop.  The `start` test comes first, so when `start == end` the
      loop never stops early. */
  function Scan(ms: seq<Marker>, start: Option<Name>, end: Option<Name>, inside: bool): (r: seq<Marker>)
    ensures |r| <= |ms|
    ensures inside && |ms| > 0 ==> |r| > 0
    ensures !inside && |r| > 0 ==> Named(r[0], start) || Named(r[0], end)
    ensures |r| > 0 ==> Named(r[|r| - 1], end) || r[|r| - 1] == ms[|ms| - 1]
  {
    if |ms| == 0 then []
    else if Named(ms[0], start) then [ms[0]] + Scan(ms[1..], start, end, true)
    else if inside && !Named(ms[0], end) then [ms[0]] + Scan(ms[1..], start, end, true)
    else if Named(ms[0], end) then [ms[0]]
    else Scan(ms[1..], start, end, inside)
  }

  /** `trim_bfe_xs(list, start, end)`. */
  function Trim(ms: seq<Marker>, start: Option<Name>, end: Option<Name>): (r: Result<seq<Marker>>)
    ensures |ms| == 0 <==> r == Err(IndexError)
    ensures r.Ok? ==> r.value == TrimSpec(Orient(ms).value, start, end)
  {
    var ordered :- Orient(ms);
    ScanOutside(ordered, start, end);
    Ok(Scan(ordered, start, end, false))
  }

  // ------------------------------------- the reference definition of trim

  /** Index of the first marker satisfying `p`, or `|ms|` when none does. */
  function Find(ms: seq<Marker>, p: Marker -> bool): (i: nat)
    ensures i <= |ms|
    ensures forall k :: 0 <= k < i ==> !p(ms[k])
    ensures i < |ms| ==> p(ms[i])
  {
    if |ms| == 0 || p(ms[0]) then 0 else 1 + Find(ms[1..], p)
  }

  /** The prefix of `ms` up to and including the first marker satisfying
      `p`; all of `ms` when there is none. */
  function UpToFirst(ms: seq<Marker>, p: Marker -> bool): (r: seq<Marker>)
    ensures var i := Find(ms, p); r == if i == |ms| then ms else ms[..i + 1]
  {
    var i := Find(ms, p);
    if i == |ms| then ms else ms[..i + 1]
  }

  function StartOrEnd(start: Option<Name>, end: Option<Name>): Marker -> bool {
    m => Named(m, start) || Named(m, end)
  }

  /** A marker that stops the run: named `end` but not `start`. */
  function Stopper(start: Option<Name>, end: Option<Name>): Marker -> bool {
    m => Named(m, end) && !Named(m, start)
  }

  /** What trimming keeps, read off the list: nothing if neither name
      occurs; just the marker if `end` comes first; otherwise the run from
      the first `start` through the first later marker named `end` (and not
      `start`), or to the end of the list. */
  function TrimSpec(ms: seq<Marker>, start: Option<Name>, end: Option<Name>): seq<Marker> {
    TrimFrom(ms, Find(ms, StartOrEnd(start, end)), start, end)
  }

  /** The part of TrimSpec after the first marker named either way, found
      at `i`. */
  function TrimFrom(ms: seq<Marker>, i: nat, start: Option<Name>, end: Option<Name>): seq<Marker>
    requires i <= |ms|
  {
    if i == |ms| then []
    else if !Named(ms[i], start) then [ms[i]]
    else [ms[i]] + UpToFirst(ms[i + 1..], Stopper(start, end))
  }

  // ------------------------------------------------------------ lemmas

  /** Once the flag is on, the loop keeps everything up to the first
      stopper. */
  lemma {:induction false} ScanInside(ms: seq<Marker>, start: Option<Name>, end: Option<Name>)
    ensures Scan(ms, start, end, true) == UpToFirst(ms, Stopper(start, end))
  {
    if |ms| > 0 {
      ScanInside(ms[1..], start, end);
      if !Stopper(start, end)(ms[0]) {
        assert Find(ms, Stopper(start, end)) == 1 + Find(ms[1..], Stopper(start, end));
        assert ms == [ms[0]] + ms[1..];
      }
    }
  }

  /** The loop started with the flag off computes the reference definition. */
  lemma {:induction false} ScanOutside(ms: seq<Marker>, start: Option<Name>, end: Option<Name>)
    ensures Scan(ms, start, end, false) == TrimSpec(ms, start, end)
  {
    if |ms| > 0 {
      var p := StartOrEnd(start, end);
      if Named(ms[0], start) {
        ScanInside(ms[1..], start, end);
        assert Find(ms, p) == 0;
      } else if Named(ms[0], end) {
        assert Find(ms, p) == 0;
      } else {
        ScanOutside(ms[1..], start, end);
        TrimSpecSkipsUnnamed(ms, start, end);
      }
    }
  }

  /** A leading marker named neither `start` nor `end` plays no part. */
  lemma TrimSpecSkipsUnnamed(ms: seq<Marker>, start: Option<Name>, end: Option<Name>)
    requires |ms| > 0 && !Named(ms[0], start) && !Named(ms[0], end)
    ensures TrimSpec(ms, start, end) == TrimSpec(ms[1..], start, end)
  {
    var p := StartOrEnd(start, end);
    assert !p(ms[0]);
    assert Find(ms, p) == 1 + Find(ms[1..], p);
    TrimFromTail(ms, Find(ms[1..], p), start, end);
  }

  lemma TrimFromTail(ms: seq<Marker>, i: nat, start: Option<Name>, end: Option<Name>)
    requires i < |ms|
    ensures TrimFrom(ms, i + 1, start, end) == TrimFrom(ms[1..], i, start, end)
  {
    if i + 1 < |ms| {
      assert ms[i + 1] == ms[1..][i];
      assert ms[i + 2..] == ms[1..][i + 1..];
    }
  }

  /** Trimming keeps a contiguous run of the ordered list. */
  lemma TrimIsRun(ms: seq<Marker>, start: Option<Name>, end: Option<Name>)
    ensures var r := TrimSpec(ms, start, end);
      exists i, j :: 0 <= i <= j <= |ms| && r == ms[i..j]
  {
    var r := TrimSpec(ms, start, end);
    var i := Find(ms, StartOrEnd(start, end));
    if i == |ms| {
      assert r == ms[0..0];
    } else if !Named(ms[i], start) {
      assert r == ms[i..i + 1];
    } else {
      var hi := RunFrom(ms, i, Stopper(start, end));
      assert r == ms[i..hi];
    }
  }

  /** A marker followed by the prefix up to the first later stopper is
      a slice of the list. */
  lemma RunFrom(ms: seq<Marker>, i: nat, p: Marker -> bool) returns (hi: nat)
    requires i < |ms|
    ensures i < hi <= |ms| && [ms[i]] + UpToFirst(ms[i + 1..], p) == ms[i..hi]
  {
    var rest := ms[i + 1..];
    var j := Find(rest, p);
    if j == |rest| {
      hi := |ms|;
      assert ms[i..hi] == [ms[i]] + rest;
    } else {
      hi := i + j + 2;
      assert rest[..j + 1] == ms[i + 1..hi];
      assert ms[i..hi] == [ms[i]] + ms[i + 1..hi];
    }
  }

  /** If neither name occurs, nothing is kept. */
  lemma TrimNeither(ms: seq<Marker>, start: Option<Name>, end: Option<Name>)
    requires |ms| > 0
    requires forall k :: 0 <= k < |ms| ==> !Named(ms[k], start) && !Named(ms[k], end)
    ensures Trim(ms, start, end) == Ok([])
  {
    var o := Orient(ms).value;
    assert forall k :: 0 <= k < |o| ==> !StartOrEnd(start, end)(o[k]) by {
      forall k | 0 <= k < |o|
        ensures !StartOrEnd(start, end)(o[k])
      {
        if o != ms {
          assert o[k] == ms[|ms| - 1 - k];
        }
      }
    }
  }

  /** Orienting is idempotent. */
  lemma OrientTwice(ms: seq<Marker>)
    requires |ms| > 0
    ensures Orient(Orient(ms).value) == Orient(ms)
  {
  }

  /** Among markers at one station, the merged list holds the BFEs first,
      in their input order, and then the cross sections, in theirs. */
  lemma MergeStable(bfes: seq<Marker>, xss: seq<Marker>, v: real)
    ensures StableSort.WithKey(Merge(bfes, xss), Station, v)
         == StableSort.WithKey(bfes, Station, v) + StableSort.WithKey(xss, Station, v)
  {
    StableSort.SortByStable(bfes + xss, Station, v);
    StableSort.WithKeyAppend(bfes, xss, Station, v);
  }

  /** A list already in station order is left as it is. */
  lemma MergeSorted(bfes: seq<Marker>, xss: seq<Marker>)
    requires StableSort.SortedBy(bfes + xss, Station)
    ensures Merge(bfes, xss) == bfes + xss
  {
    StableSort.SortBySorted(bfes + xss, Station);
  }
}
