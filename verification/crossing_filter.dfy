/** `FilterCrossingLines`: greedy removal of crossing lines.

    Each line keeps a count of the lines it crosses (`num_crosses`) and the
    list of those lines (`crossing_lines`).  While some count is positive
    the list is stably sorted by count and its last line is popped; every
    line the popped line crossed loses one from its count and drops the
    popped line from its list.

    Lines are identified by their index in the input list (the Python code
    compares them with `is`).  Crossing is the oracle `Geo.crosses`; the
    correctness lemmas assume only that it is symmetric on the input. */
module CrossingFilter {
  import opened Errors
  import opened Geometry
  import StableSort

  /** `num` and `nbrs` are the `num_crosses` and `crossing_lines`
      attributes, indexed by line; `cur` is `self.lines`. */
  datatype FState = FState(cur: seq<nat>, num: seq<int>, nbrs: seq<seq<nat>>)

  /** Every index names one of the `n` input lines. */
  predicate WellFormed(n: nat, st: FState) {
    && |st.num| == n && |st.nbrs| == n
    && (forall k :: 0 <= k < |st.cur| ==> st.cur[k] < n)
    && (forall a, k :: 0 <= a < n && 0 <= k < |st.nbrs[a]| ==> st.nbrs[a][k] < n)
  }

  function Range(n: nat): (r: seq<nat>)
    ensures |r| == n && forall i :: 0 <= i < n ==> r[i] == i
  {
    if n == 0 then [] else Range(n - 1) + [n - 1]
  }

  /** The lines among the first `m` that line `a` crosses, restricted to
      the set `alive`, in input order. */
  function NbrsUpTo(g: Geo, ls: seq<Line>, a: nat, alive: set<nat>, m: nat): (r: seq<nat>)
    requires a < |ls| && m <= |ls|
    ensures forall k :: 0 <= k < |r| ==> r[k] < m
  {
    if m == 0 then []
    else
      var j := m - 1;
      NbrsUpTo(g, ls, a, alive, j)
        + (if j != a && j in alive && g.crosses(ls[a], ls[j]) then [j] else [])
  }

  function AllIds(n: nat): set<nat> {
    Alive(Range(n))
  }

  /** `_calc_intersections`: each line's count and list of the other input
      lines it crosses, scanned in input order. */
  function Init(g: Geo, ls: seq<Line>): (st: FState)
    ensures WellFormed(|ls|, st)
    ensures st.cur == Range(|ls|)
    ensures forall a :: 0 <= a < |ls| ==>
      st.nbrs[a] == NbrsUpTo(g, ls, a, AllIds(|ls|), |ls|) && st.num[a] == |st.nbrs[a]|
  {
    var n := |ls|;
    var nbrs := seq(n, a requires 0 <= a < n => NbrsUpTo(g, ls, a, AllIds(n), n));
    FState(Range(n), seq(n, a requires 0 <= a < n => |nbrs[a]|), nbrs)
  }

  /** `_lines_cross`: some line still in the list has a positive count. */
  predicate AnyCross(n: nat, st: FState)
    requires WellFormed(n, st)
  {
    exists k :: 0 <= k < |st.cur| && st.num[st.cur[k]] > 0
  }

  /** The sort key `num_crosses`. */
  function Key(st: FState): nat -> real {
    id => if 0 <= id < |st.num| then st.num[id] as real else 0.0
  }

  /** Removes the first occurrence of `x`, or reports that there is none
      (the `for ... else` of `_remove_last_line`). */
  function RemoveFirst(s: seq<nat>, x: nat): (r: Option<seq<nat>>)
    ensures r.Some? <==> x in s
    ensures r.Some? ==> |r.value| == |s| - 1 && forall y :: y in r.value ==> y in s
  {
    if |s| == 0 then None
    else if s[0] == x then Some(s[1..])
    else match RemoveFirst(s[1..], x)
      case None => None
      case Some(t) => Some([s[0]] + t)
  }

  /** The update loop of `_remove_last_line` over the popped line's
      crossing list `todo`. */
  function Unlink(n: nat, st: FState, last: nat, todo: seq<nat>): (r: Result<FState>)
    requires WellFormed(n, st)
    requires forall k :: 0 <= k < |todo| ==> todo[k] < n
    ensures r.Ok? ==> WellFormed(n, r.value) && r.value.cur == st.cur
    ensures r.Err? ==> r.exc == AssertionFailed || r.exc == ShouldNeverGetHere
    decreases |todo|
  {
    if |todo| == 0 then Ok(st)
    else
      var c := todo[0];
      var num := st.num[c := st.num[c] - 1];
      if num[c] < 0 then Err(AssertionFailed)
      else match RemoveFirst(st.nbrs[c], last)
        case None => Err(ShouldNeverGetHere)
        case Some(t) =>
          WellFormedUpdate(n, st, c, num, t);
          Unlink(n, st.(num := num, nbrs := st.nbrs[c := t]), last, todo[1..])
  }

  lemma WellFormedUpdate(n: nat, st: FState, c: nat, num: seq<int>, t: seq<nat>)
    requires WellFormed(n, st) && c < n && |num| == n
    requires forall y :: y in t ==> y in st.nbrs[c]
    ensures WellFormed(n, st.(num := num, nbrs := st.nbrs[c := t]))
  {
    var nb := st.nbrs[c := t];
    forall a, k | 0 <= a < n && 0 <= k < |nb[a]|
      ensures nb[a][k] < n
    {
      if a == c {
        assert t[k] in st.nbrs[c];
      }
    }
  }

  /** One iteration of the `while` loop: sort by count, pop the last line,
      update its neighbours. */
  function Round(n: nat, st: FState): (r: Result<FState>)
    requires WellFormed(n, st) && |st.cur| > 0
    ensures r.Ok? ==> WellFormed(n, r.value) && |r.value.cur| == |st.cur| - 1
    ensures r.Ok? ==> r.value.cur == StableSort.SortBy<nat>(st.cur, Key(st))[..|st.cur| - 1]
  {
    var sorted := StableSort.SortBy<nat>(st.cur, Key(st));
    SortedIdsInRange(n, st.cur, Key(st));
    var last := sorted[|sorted| - 1];
    if st.num[last] == 0 || st.nbrs[last] == [] then Err(NoIntersection)
    else Unlink(n, FState(sorted[..|sorted| - 1], st.num, st.nbrs), last, st.nbrs[last])
  }

  lemma SortedIdsInRange(n: nat, cur: seq<nat>, key: nat -> real)
    requires forall k :: 0 <= k < |cur| ==> cur[k] < n
    ensures forall k :: 0 <= k < |StableSort.SortBy<nat>(cur, key)| ==> StableSort.SortBy<nat>(cur, key)[k] < n
  {
    var sorted := StableSort.SortBy<nat>(cur, key);
    forall k | 0 <= k < |sorted|
      ensures sorted[k] < n
    {
      assert sorted[k] in multiset(cur);
    }
  }

  function FilterLoop(n: nat, st: FState): (r: Result<FState>)
    requires WellFormed(n, st)
    ensures r.Ok? ==> WellFormed(n, r.value) && !AnyCross(n, r.value)
    decreases |st.cur|
  {
    if !AnyCross(n, st) then Ok(st)
    else
      var st' :- Round(n, st);
      FilterLoop(n, st')
  }

  /** `FilterCrossingLines(lines).filter()`, as line indices. */
  function Filter(g: Geo, ls: seq<Line>): (r: Result<seq<nat>>)
    ensures r.Ok? ==> |r.value| > 0 && forall k :: 0 <= k < |r.value| ==> r.value[k] < |ls|
  {
    var st :- FilterLoop(|ls|, Init(g, ls));
    if st.cur == [] then Err(AssertionFailed) else Ok(st.cur)
  }

  /** `FilterCrossingLines(lines).filter()`, as lines. */
  function FilterLines(g: Geo, ls: seq<Line>): (r: Result<seq<Line>>)
    ensures Filter(g, ls).Err? <==> r.Err?
    ensures r.Ok? ==>
      && |r.value| == |Filter(g, ls).value|
      && forall k :: 0 <= k < |r.value| ==> r.value[k] == ls[Filter(g, ls).value[k]]
  {
    var ids :- Filter(g, ls);
    Ok(seq(|ids|, k requires 0 <= k < |ids| => ls[ids[k]]))
  }

  // ------------------------------------------------------------- invariant

  ghost predicate SymmetricOn(g: Geo, ls: seq<Line>) {
    forall a, b :: 0 <= a < |ls| && 0 <= b < |ls| ==> g.crosses(ls[a], ls[b]) == g.crosses(ls[b], ls[a])
  }

  ghost predicate NoDup(s: seq<nat>) {
    forall x :: multiset(s)[x] <= 1
  }

  function Alive(s: seq<nat>): set<nat> {
    set k | k in s
  }

  function Nbrs(g: Geo, ls: seq<Line>, a: nat, alive: set<nat>): seq<nat>
    requires a < |ls|
  {
    NbrsUpTo(g, ls, a, alive, |ls|)
  }

  /** Every remaining line's crossing list is exactly the remaining lines
      it crosses, in input order, and its count is that list's length. */
  ghost predicate Inv(g: Geo, ls: seq<Line>, st: FState) {
    && WellFormed(|ls|, st)
    && NoDup(st.cur)
    && forall a :: a in st.cur ==> UpToDate(g, ls, st, a, Alive(st.cur))
  }

  ghost predicate NonCrossing(g: Geo, ls: seq<Line>, ids: seq<nat>) {
    forall i, j :: 0 <= i < |ids| && 0 <= j < |ids| && ids[i] < |ls| && ids[j] < |ls| && ids[i] != ids[j] ==>
      !g.crosses(ls[ids[i]], ls[ids[j]])
  }

  // ------------------------------------------------------------- lemmas

  /** The list holds exactly the crossed lines of `alive` below `m`. */
  lemma {:induction false} NbrsMembers(g: Geo, ls: seq<Line>, a: nat, alive: set<nat>, m: nat)
    requires a < |ls| && m <= |ls|
    ensures forall x :: x in NbrsUpTo(g, ls, a, alive, m) <==>
      x < m && x != a && x in alive && g.crosses(ls[a], ls[x])
  {
    if m > 0 {
      NbrsMembers(g, ls, a, alive, m - 1);
    }
  }

  /** A line that crosses nothing has an empty list. */
  lemma {:induction false} NbrsNone(g: Geo, ls: seq<Line>, a: nat, alive: set<nat>, m: nat)
    requires a < |ls| && m <= |ls|
    requires forall j :: 0 <= j < m ==> !g.crosses(ls[a], ls[j])
    ensures NbrsUpTo(g, ls, a, alive, m) == []
  {
    if m > 0 {
      NbrsNone(g, ls, a, alive, m - 1);
    }
  }

  /** The list is in input order, without repetitions. */
  lemma {:induction false} NbrsAscending(g: Geo, ls: seq<Line>, a: nat, alive: set<nat>, m: nat)
    requires a < |ls| && m <= |ls|
    ensures forall i, j :: 0 <= i < j < |NbrsUpTo(g, ls, a, alive, m)| ==>
      NbrsUpTo(g, ls, a, alive, m)[i] < NbrsUpTo(g, ls, a, alive, m)[j]
  {
    if m > 0 {
      NbrsAscending(g, ls, a, alive, m - 1);
      var p := NbrsUpTo(g, ls, a, alive, m - 1);
      var r := NbrsUpTo(g, ls, a, alive, m);
      forall i, j | 0 <= i < j < |r|
        ensures r[i] < r[j]
      {
        assert r == p + (if m - 1 != a && m - 1 in alive && g.crosses(ls[a], ls[m - 1]) then [m - 1] else []);
        if j >= |p| {
          assert r[j] == m - 1;
          assert r[i] == p[i] && p[i] < m - 1;
        } else {
          assert r[i] == p[i] && r[j] == p[j];
          assert p[i] < p[j];
        }
      }
    }
  }

  lemma {:induction false} NbrsAgreeBelow(g: Geo, ls: seq<Line>, a: nat, A: set<nat>, B: set<nat>, m: nat)
    requires a < |ls| && m <= |ls|
    requires forall j :: j < m ==> (j in A <==> j in B)
    ensures NbrsUpTo(g, ls, a, A, m) == NbrsUpTo(g, ls, a, B, m)
  {
    if m > 0 {
      NbrsAgreeBelow(g, ls, a, A, B, m - 1);
    }
  }

  /** Removing a line that `a` does not cross leaves `a`'s list unchanged. */
  lemma {:induction false} NbrsRemoveNonNeighbour(g: Geo, ls: seq<Line>, a: nat, A: set<nat>, x: nat, m: nat)
    requires a < |ls| && m <= |ls| && x < |ls|
    requires !g.crosses(ls[a], ls[x])
    ensures NbrsUpTo(g, ls, a, A, m) == NbrsUpTo(g, ls, a, A - {x}, m)
  {
    if m > 0 {
      NbrsRemoveNonNeighbour(g, ls, a, A, x, m - 1);
    }
  }

  lemma {:induction false} RemoveFirstAppendFound(s: seq<nat>, t: seq<nat>, x: nat)
    requires x in s
    ensures RemoveFirst(s + t, x) == Some(RemoveFirst(s, x).value + t)
  {
    assert (s + t)[1..] == s[1..] + t;
    if s[0] != x {
      RemoveFirstAppendFound(s[1..], t, x);
      assert [s[0]] + (RemoveFirst(s[1..], x).value + t) == ([s[0]] + RemoveFirst(s[1..], x).value) + t;
    }
  }

  lemma {:induction false} RemoveFirstAppendLast(s: seq<nat>, x: nat)
    requires x !in s
    ensures RemoveFirst(s + [x], x) == Some(s)
  {
    if |s| > 0 {
      assert (s + [x])[1..] == s[1..] + [x];
      RemoveFirstAppendLast(s[1..], x);
      assert s == [s[0]] + s[1..];
    }
  }

  /** Removing a crossed line from `a`'s list gives the list over the
      smaller set. */
  lemma {:induction false} NbrsRemoveNeighbour(g: Geo, ls: seq<Line>, a: nat, A: set<nat>, x: nat, m: nat)
    requires a < |ls| && m <= |ls| && x < m
    requires x in A && x != a && g.crosses(ls[a], ls[x])
    ensures RemoveFirst(NbrsUpTo(g, ls, a, A, m), x) == Some(NbrsUpTo(g, ls, a, A - {x}, m))
  {
    var j := m - 1;
    var tail := if j != a && j in A && g.crosses(ls[a], ls[j]) then [j] else [];
    if x < j {
      NbrsRemoveNeighbour(g, ls, a, A, x, j);
      RemoveFirstAppendFound(NbrsUpTo(g, ls, a, A, j), tail, x);
      assert NbrsUpTo(g, ls, a, A, m) == NbrsUpTo(g, ls, a, A, j) + tail;
      assert NbrsUpTo(g, ls, a, A - {x}, m) == NbrsUpTo(g, ls, a, A - {x}, j) + tail;
      assert RemoveFirst(NbrsUpTo(g, ls, a, A, j), x).value == NbrsUpTo(g, ls, a, A - {x}, j);
      assert RemoveFirst(NbrsUpTo(g, ls, a, A, j) + tail, x) == Some(NbrsUpTo(g, ls, a, A - {x}, j) + tail);
    } else {
      var p := NbrsUpTo(g, ls, a, A, j);
      assert x == j && tail == [x];
      assert x !in p by {
        forall k | 0 <= k < |p|
          ensures p[k] != x
        {
          assert p[k] < j;
        }
      }
      NbrsAgreeBelow(g, ls, a, A, A - {x}, j);
      RemoveFirstAppendLast(p, x);
      assert NbrsUpTo(g, ls, a, A, m) == p + [x];
      assert NbrsUpTo(g, ls, a, A - {x}, m) == NbrsUpTo(g, ls, a, A - {x}, j) + [];
      assert NbrsUpTo(g, ls, a, A - {x}, j) == p;
      assert RemoveFirst(p + [x], x) == Some(p);
      assert NbrsUpTo(g, ls, a, A - {x}, m) == p;
      assert RemoveFirst(NbrsUpTo(g, ls, a, A, m), x) == Some(p);
    }
  }

  lemma {:induction false} RangeNoDup(n: nat)
    ensures NoDup(Range(n))
  {
    if n > 0 {
      RangeNoDup(n - 1);
      var x: nat := n - 1;
      assert x !in Range(n - 1);
      assert multiset(Range(n)) == multiset(Range(n - 1)) + multiset{x};
      forall y
        ensures multiset(Range(n))[y] <= 1
      {
        if y == x {
          assert multiset(Range(n - 1))[y] == 0;
        }
      }
    }
  }

  lemma InitInv(g: Geo, ls: seq<Line>)
    ensures Inv(g, ls, Init(g, ls))
  {
    RangeNoDup(|ls|);
  }

  /** Line `c`'s list and count describe the lines of `alive` it crosses. */
  ghost predicate UpToDate(g: Geo, ls: seq<Line>, st: FState, c: nat, alive: set<nat>)
    requires WellFormed(|ls|, st) && c < |ls|
  {
    st.nbrs[c] == Nbrs(g, ls, c, alive) && st.num[c] == |st.nbrs[c]|
  }

  /** The state `Unlink` works on: lines still to visit are up to date for
      the set that includes the popped line, the others for the set
      without it. */
  ghost predicate Unlinking(g: Geo, ls: seq<Line>, st: FState, last: nat, todo: seq<nat>) {
    && WellFormed(|ls|, st)
    && last < |ls| && last !in st.cur
    && (forall i, j :: 0 <= i < j < |todo| ==> todo[i] < todo[j])
    && (forall k :: 0 <= k < |todo| ==> todo[k] in st.cur && g.crosses(ls[todo[k]], ls[last]))
    && (forall c :: c in st.cur ==>
          UpToDate(g, ls, st, c, if c in todo then Alive(st.cur) + {last} else Alive(st.cur)))
  }

  /** The first line of `todo` crosses the popped line, so its count is
      positive and the popped line is in its list. */
  lemma UnlinkHead(g: Geo, ls: seq<Line>, st: FState, last: nat, todo: seq<nat>)
    requires Unlinking(g, ls, st, last, todo) && |todo| > 0
    ensures var c := todo[0];
      && st.num[c] >= 1
      && RemoveFirst(st.nbrs[c], last) == Some(Nbrs(g, ls, c, Alive(st.cur)))
  {
    var c := todo[0];
    var A := Alive(st.cur) + {last};
    assert c in st.cur && c != last;
    assert c in todo;
    assert UpToDate(g, ls, st, c, A);
    NbrsMembers(g, ls, c, A, |ls|);
    assert last in Nbrs(g, ls, c, A);
    NbrsRemoveNeighbour(g, ls, c, A, last, |ls|);
    assert A - {last} == Alive(st.cur);
  }

  /** Visiting the first line of `todo` brings it up to date. */
  lemma UnlinkStep(g: Geo, ls: seq<Line>, st: FState, last: nat, todo: seq<nat>)
    requires Unlinking(g, ls, st, last, todo) && |todo| > 0
    requires RemoveFirst(st.nbrs[todo[0]], last) == Some(Nbrs(g, ls, todo[0], Alive(st.cur)))
    ensures var c := todo[0];
      Unlinking(g, ls, st.(num := st.num[c := st.num[c] - 1],
                           nbrs := st.nbrs[c := Nbrs(g, ls, c, Alive(st.cur))]), last, todo[1..])
  {
    var c := todo[0];
    var A := Alive(st.cur) + {last};
    var t := Nbrs(g, ls, c, Alive(st.cur));
    var st1 := st.(num := st.num[c := st.num[c] - 1], nbrs := st.nbrs[c := t]);
    WellFormedUpdate(|ls|, st, c, st1.num, t);
    assert todo == [c] + todo[1..];
    forall k | 0 <= k < |todo[1..]|
      ensures todo[1..][k] != c
    {
      assert todo[1..][k] == todo[k + 1];
    }
    assert UpToDate(g, ls, st, c, A);
    assert UpToDate(g, ls, st1, c, Alive(st.cur));
    forall d | d in st1.cur && d != c
      ensures UpToDate(g, ls, st1, d, if d in todo[1..] then Alive(st1.cur) + {last} else Alive(st1.cur))
    {
      assert d in todo[1..] <==> d in todo;
      assert UpToDate(g, ls, st, d, if d in todo then A else Alive(st.cur));
    }
  }

  /** The neighbour update after popping `last` brings every remaining
      line's list and count up to date, and its assert and "should never
      get here" raise cannot fire. */
  lemma {:induction false} UnlinkCorrect(g: Geo, ls: seq<Line>, st: FState, last: nat, todo: seq<nat>)
    requires Unlinking(g, ls, st, last, todo)
    ensures Unlink(|ls|, st, last, todo).Ok?
    ensures Unlink(|ls|, st, last, todo).value.cur == st.cur
    ensures forall c :: c in st.cur ==> UpToDate(g, ls, Unlink(|ls|, st, last, todo).value, c, Alive(st.cur))
    decreases |todo|
  {
    if |todo| == 0 {
      UnlinkingDone(g, ls, st, last);
    } else {
      var c := todo[0];
      UnlinkHead(g, ls, st, last, todo);
      UnlinkStep(g, ls, st, last, todo);
      var t := Nbrs(g, ls, c, Alive(st.cur));
      var st1 := st.(num := st.num[c := st.num[c] - 1], nbrs := st.nbrs[c := t]);
      UnlinkUnfold(|ls|, st, last, todo, t);
      UnlinkCorrect(g, ls, st1, last, todo[1..]);
    }
  }

  /** With nothing left to visit, every line is up to date. */
  lemma UnlinkingDone(g: Geo, ls: seq<Line>, st: FState, last: nat)
    requires Unlinking(g, ls, st, last, [])
    ensures forall c :: c in st.cur ==> UpToDate(g, ls, st, c, Alive(st.cur))
  {
    forall c | c in st.cur
      ensures UpToDate(g, ls, st, c, Alive(st.cur))
    {
      assert c !in [];
    }
  }

  /** One iteration of the update loop that neither asserts nor raises. */
  lemma UnlinkUnfold(n: nat, st: FState, last: nat, todo: seq<nat>, t: seq<nat>)
    requires WellFormed(n, st) && (forall k :: 0 <= k < |todo| ==> todo[k] < n) && |todo| > 0
    requires st.num[todo[0]] >= 1 && RemoveFirst(st.nbrs[todo[0]], last) == Some(t)
    ensures var c := todo[0];
      var st1 := st.(num := st.num[c := st.num[c] - 1], nbrs := st.nbrs[c := t]);
      WellFormed(n, st1) && Unlink(n, st, last, todo) == Unlink(n, st1, last, todo[1..])
  {
    var c := todo[0];
    WellFormedUpdate(n, st, c, st.num[c := st.num[c] - 1], t);
  }

  /** Popping the last element of a permutation of a duplicate-free
      list removes exactly that element from the set of live lines. */
  lemma PopLast(cur: seq<nat>, sorted: seq<nat>)
    requires NoDup(cur) && |cur| > 0 && multiset(sorted) == multiset(cur)
    ensures |sorted| == |cur|
    ensures var last := sorted[|sorted| - 1];
      var rest := sorted[..|sorted| - 1];
      && last in Alive(cur) && last !in rest && NoDup(rest)
      && Alive(rest) == Alive(cur) - {last}
  {
    assert |sorted| == |multiset(sorted)| == |multiset(cur)| == |cur|;
    var last := sorted[|sorted| - 1];
    var rest := sorted[..|sorted| - 1];
    assert sorted == rest + [last];
    assert last in multiset(cur);
    assert multiset(cur) == multiset(rest) + multiset{last};
    assert multiset(rest)[last] == 0;
    forall x
      ensures multiset(rest)[x] <= 1
    {
      assert multiset(rest)[x] <= multiset(cur)[x];
    }
    forall x
      ensures x in rest <==> x in cur && x != last
    {
      if x in cur && x != last {
        assert x in multiset(cur);
        assert x in multiset(rest);
      }
      if x in rest {
        assert x in multiset(rest);
        assert x in multiset(cur);
      }
    }
  }

  /** While some live line has a positive count, the line a round pops
      has one too (it has the largest count). */
  lemma PoppedHasCrossings(n: nat, st: FState)
    requires WellFormed(n, st) && AnyCross(n, st)
    ensures var sorted := StableSort.SortBy<nat>(st.cur, Key(st));
      |sorted| > 0 && sorted[|sorted| - 1] < n && st.num[sorted[|sorted| - 1]] > 0
  {
    var k0 :| 0 <= k0 < |st.cur| && st.num[st.cur[k0]] > 0;
    var sorted := StableSort.SortBy<nat>(st.cur, Key(st));
    SortedIdsInRange(n, st.cur, Key(st));
    StableSort.SortedLastIsMax<nat>(st.cur, Key(st), k0);
    var last := sorted[|sorted| - 1];
    assert Key(st)(st.cur[k0]) == st.num[st.cur[k0]] as real;
    assert Key(st)(last) == st.num[last] as real;
  }

  /** Taking a line with a positive count out of the live list leaves a
      state the neighbour update can finish. */
  lemma PopStartsUnlinking(g: Geo, ls: seq<Line>, st: FState, rest: seq<nat>, last: nat)
    requires SymmetricOn(g, ls) && Inv(g, ls, st)
    requires last in st.cur && last < |ls| && st.num[last] > 0
    requires last !in rest && Alive(rest) == Alive(st.cur) - {last}
    ensures |st.nbrs[last]| > 0
    ensures Unlinking(g, ls, FState(rest, st.num, st.nbrs), last, st.nbrs[last])
  {
    var n := |ls|;
    var A := Alive(st.cur);
    assert A == Alive(rest) + {last};
    assert UpToDate(g, ls, st, last, A);
    var todo := st.nbrs[last];
    var st0 := FState(rest, st.num, st.nbrs);
    forall k | 0 <= k < |rest|
      ensures rest[k] < n
    {
      assert rest[k] in Alive(rest);
    }
    assert WellFormed(n, st0);
    NbrsMembers(g, ls, last, A, n);
    NbrsAscending(g, ls, last, A, n);
    forall k | 0 <= k < |todo|
      ensures todo[k] in rest && g.crosses(ls[todo[k]], ls[last])
    {
      assert todo[k] in Nbrs(g, ls, last, A);
    }
    forall c | c in rest
      ensures UpToDate(g, ls, st0, c, if c in todo then Alive(rest) + {last} else Alive(rest))
    {
      assert c in Alive(rest);
      assert c in st.cur;
      assert UpToDate(g, ls, st, c, A);
      if c !in todo {
        assert !g.crosses(ls[last], ls[c]);
        NbrsRemoveNonNeighbour(g, ls, c, A, last, n);
      }
    }
  }

  /** After the pop, the neighbour update starts from a state it can
      finish. */
  lemma RoundStartsUnlinking(g: Geo, ls: seq<Line>, st: FState)
    requires SymmetricOn(g, ls) && Inv(g, ls, st) && AnyCross(|ls|, st)
    ensures |st.cur| > 0
    ensures var sorted := StableSort.SortBy<nat>(st.cur, Key(st));
      var last := sorted[|sorted| - 1];
      && last < |ls| && |st.nbrs[last]| > 0 && st.num[last] != 0
      && Unlinking(g, ls, FState(sorted[..|sorted| - 1], st.num, st.nbrs), last, st.nbrs[last])
  {
    var sorted := StableSort.SortBy<nat>(st.cur, Key(st));
    PoppedHasCrossings(|ls|, st);
    PopSortedStartsUnlinking(g, ls, st, sorted);
  }

  lemma PopSortedStartsUnlinking(g: Geo, ls: seq<Line>, st: FState, sorted: seq<nat>)
    requires SymmetricOn(g, ls) && Inv(g, ls, st) && |st.cur| > 0
    requires multiset(sorted) == multiset(st.cur) && |sorted| > 0
    requires sorted[|sorted| - 1] < |ls| && st.num[sorted[|sorted| - 1]] > 0
    ensures var last := sorted[|sorted| - 1];
      && |st.nbrs[last]| > 0
      && Unlinking(g, ls, FState(sorted[..|sorted| - 1], st.num, st.nbrs), last, st.nbrs[last])
  {
    PopLast(st.cur, sorted);
    var last := sorted[|sorted| - 1];
    var rest := sorted[..|sorted| - 1];
    assert last in st.cur by {
      assert last in Alive(st.cur);
    }
    PopStartsUnlinking(g, ls, st, rest, last);
  }

  /** Unlinking after a pop ends in a state that satisfies the
      invariant again. */
  lemma PopCorrect(g: Geo, ls: seq<Line>, st: FState, last: nat, todo: seq<nat>)
    requires Unlinking(g, ls, st, last, todo) && NoDup(st.cur) && |todo| > 0
    ensures Unlink(|ls|, st, last, todo).Ok?
    ensures Unlink(|ls|, st, last, todo).value.cur == st.cur && |st.cur| > 0
    ensures Inv(g, ls, Unlink(|ls|, st, last, todo).value)
  {
    UnlinkCorrect(g, ls, st, last, todo);
    assert todo[0] in st.cur;
  }

  /** One round keeps the invariant, removes exactly one line, and never
      removes the last remaining line. */
  lemma RoundCorrect(g: Geo, ls: seq<Line>, st: FState)
    requires SymmetricOn(g, ls) && Inv(g, ls, st) && AnyCross(|ls|, st)
    ensures |st.cur| > 0 && Round(|ls|, st).Ok?
    ensures Inv(g, ls, Round(|ls|, st).value)
    ensures |Round(|ls|, st).value.cur| > 0
    ensures Alive(Round(|ls|, st).value.cur) < Alive(st.cur)
  {
    var sorted := StableSort.SortBy<nat>(st.cur, Key(st));
    RoundStartsUnlinking(g, ls, st);
    PopLast(st.cur, sorted);
    var last := sorted[|sorted| - 1];
    var st0 := FState(sorted[..|sorted| - 1], st.num, st.nbrs);
    PopCorrect(g, ls, st0, last, st.nbrs[last]);
    RoundUnfold(|ls|, st);
    var r := Unlink(|ls|, st0, last, st.nbrs[last]);
    assert Round(|ls|, st) == r;
    assert Alive(r.value.cur) == Alive(st.cur) - {last};
  }

  /** A round whose popped line has crossings goes on to the update loop. */
  lemma RoundUnfold(n: nat, st: FState)
    requires WellFormed(n, st) && |st.cur| > 0
    ensures var sorted := StableSort.SortBy<nat>(st.cur, Key(st));
      var last := sorted[|sorted| - 1];
      && last < n
      && WellFormed(n, FState(sorted[..|sorted| - 1], st.num, st.nbrs))
      && (st.num[last] != 0 && st.nbrs[last] != [] ==>
            Round(n, st) == Unlink(n, FState(sorted[..|sorted| - 1], st.num, st.nbrs), last, st.nbrs[last]))
  {
    var sorted := StableSort.SortBy<nat>(st.cur, Key(st));
    var rest := sorted[..|sorted| - 1];
    SortedIdsInRange(n, st.cur, Key(st));
    forall k | 0 <= k < |rest|
      ensures rest[k] < n
    {
      assert rest[k] == sorted[k];
    }
    assert WellFormed(n, FState(rest, st.num, st.nbrs));
  }

  /** At the end no remaining line has a positive count, so no two
      remaining lines cross. */
  lemma NoCountNoCrossing(g: Geo, ls: seq<Line>, st: FState)
    requires Inv(g, ls, st) && !AnyCross(|ls|, st)
    ensures NonCrossing(g, ls, st.cur)
  {
    forall i, j | 0 <= i < |st.cur| && 0 <= j < |st.cur| && st.cur[i] != st.cur[j]
      ensures !g.crosses(ls[st.cur[i]], ls[st.cur[j]])
    {
      var a := st.cur[i];
      assert st.num[a] <= 0;
      assert a in st.cur && st.cur[j] in Alive(st.cur);
      assert UpToDate(g, ls, st, a, Alive(st.cur));
      NbrsMembers(g, ls, a, Alive(st.cur), |ls|);
      assert st.cur[j] !in Nbrs(g, ls, a, Alive(st.cur));
    }
  }

  lemma {:induction false} FilterLoopCorrect(g: Geo, ls: seq<Line>, st: FState)
    requires SymmetricOn(g, ls) && Inv(g, ls, st) && |st.cur| > 0
    ensures FilterLoop(|ls|, st).Ok?
    ensures var st' := FilterLoop(|ls|, st).value;
      Inv(g, ls, st') && |st'.cur| > 0 && Alive(st'.cur) <= Alive(st.cur)
      && NonCrossing(g, ls, st'.cur)
    decreases |st.cur|
  {
    if !AnyCross(|ls|, st) {
      NoCountNoCrossing(g, ls, st);
    } else {
      RoundCorrect(g, ls, st);
      FilterLoopCorrect(g, ls, Round(|ls|, st).value);
    }
  }

  /** Given a symmetric crossing relation the filter succeeds on every
      non-empty input (none of `NoIntersection`, the "should never get
      here" raise or the `>= 0` assert can fire) and returns a non-empty,
      duplicate-free list of input lines no two of which cross.  An empty
      input fails the final `assert self.lines != []`. */
  lemma FilterCorrect(g: Geo, ls: seq<Line>)
    requires SymmetricOn(g, ls)
    ensures |ls| == 0 ==> Filter(g, ls) == Err(AssertionFailed)
    ensures |ls| > 0 ==> Filter(g, ls).Ok?
    ensures Filter(g, ls).Ok? ==>
      NoDup(Filter(g, ls).value) && NonCrossing(g, ls, Filter(g, ls).value)
  {
    InitInv(g, ls);
    if |ls| > 0 {
      FilterLoopCorrect(g, ls, Init(g, ls));
    }
  }

  /** The same guarantee for the returned lines: every one is an input
      line, and two different lines of the result do not cross. */
  lemma FilterLinesCorrect(g: Geo, ls: seq<Line>)
    requires SymmetricOn(g, ls) && |ls| > 0
    ensures FilterLines(g, ls).Ok? && |FilterLines(g, ls).value| > 0
    ensures forall i :: 0 <= i < |FilterLines(g, ls).value| ==> FilterLines(g, ls).value[i] in ls
    ensures forall i, j ::
      (0 <= i < |FilterLines(g, ls).value| && 0 <= j < |FilterLines(g, ls).value|
       && FilterLines(g, ls).value[i] != FilterLines(g, ls).value[j]) ==>
        !g.crosses(FilterLines(g, ls).value[i], FilterLines(g, ls).value[j])
  {
    FilterCorrect(g, ls);
    var ids := Filter(g, ls).value;
    var r := FilterLines(g, ls).value;
    forall i, j | 0 <= i < |r| && 0 <= j < |r| && r[i] != r[j]
      ensures !g.crosses(r[i], r[j])
    {
      assert r[i] == ls[ids[i]] && r[j] == ls[ids[j]];
    }
  }

  /** Without crossing pairs every initial count is zero. */
  lemma InitNoCross(g: Geo, ls: seq<Line>)
    requires forall a, b :: 0 <= a < |ls| && 0 <= b < |ls| ==> !g.crosses(ls[a], ls[b])
    ensures !AnyCross(|ls|, Init(g, ls))
  {
    var st := Init(g, ls);
    forall k | 0 <= k < |st.cur|
      ensures st.num[st.cur[k]] == 0
    {
      var a := st.cur[k];
      NbrsNone(g, ls, a, AllIds(|ls|), |ls|);
    }
  }

  /** An input with no crossing pair is returned unchanged and in order. */
  lemma NoCrossingsUnchanged(g: Geo, ls: seq<Line>)
    requires |ls| > 0
    requires forall a, b :: 0 <= a < |ls| && 0 <= b < |ls| ==> !g.crosses(ls[a], ls[b])
    ensures Filter(g, ls) == Ok(Range(|ls|))
  {
    InitNoCross(g, ls);
    assert FilterLoop(|ls|, Init(g, ls)) == Ok(Init(g, ls));
  }

  /** Each round pops the line with the largest count, and among equal
      counts the one latest in the current order. */
  lemma RoundRemovesLatestMax(n: nat, st: FState)
    requires WellFormed(n, st) && |st.cur| > 0
    ensures var i := StableSort.LastArgMax(StableSort.Keys<nat>(st.cur, Key(st)));
      Round(n, st).Ok? ==>
        Round(n, st).value.cur + [st.cur[i]] == StableSort.SortBy<nat>(st.cur, Key(st))
  {
    var sorted := StableSort.SortBy<nat>(st.cur, Key(st));
    var i := StableSort.LastArgMax(StableSort.Keys<nat>(st.cur, Key(st)));
    StableSort.SortedLastIsLatestMax<nat>(st.cur, Key(st));
    assert sorted[|sorted| - 1] == st.cur[i];
    SplitLast(sorted);
  }

  lemma SplitLast(s: seq<nat>)
    requires |s| > 0
    ensures s[..|s| - 1] + [s[|s| - 1]] == s
  {
  }
}
