/** Python's `list.sort(key=...)` and the "first minimum" scan.

    Python's sort is stable: elements with equal keys keep their relative
    order.  `SortBy` is an insertion sort with exactly that behaviour, and
    `SortByUnique` shows that a sorted sequence which keeps, for every key,
    the input's subsequence of elements with that key IS `SortBy`'s result,
    so modelling timsort by this insertion sort loses nothing. */
module StableSort {

  ghost predicate SortedBy<T>(s: seq<T>, key: T -> real) {
    forall i, j :: 0 <= i < j < |s| ==> key(s[i]) <= key(s[j])
  }

  /** The elements of `s` whose key is `v`, in their order in `s`. */
  function WithKey<T>(s: seq<T>, key: T -> real, v: real): (r: seq<T>)
    ensures |r| <= |s|
    ensures forall i :: 0 <= i < |r| ==> r[i] in s && key(r[i]) == v
  {
    if |s| == 0 then []
    else (if key(s[0]) == v then [s[0]] else []) + WithKey(s[1..], key, v)
  }

  /** Inserts `x` behind every element whose key does not exceed `x`'s key,
      which is where a stable sort puts an element that came last. */
  function InsertBy<T>(s: seq<T>, x: T, key: T -> real): (r: seq<T>)
    ensures |r| == |s| + 1
    ensures multiset(r) == multiset(s) + multiset{x}
  {
    if |s| == 0 then [x]
    else if key(x) < key(s[0]) then [x] + s
    else
      assert s == [s[0]] + s[1..];
      [s[0]] + InsertBy(s[1..], x, key)
  }

  /** `list.sort(key=key)`: a stable ascending sort. */
  function SortBy<T>(s: seq<T>, key: T -> real): (r: seq<T>)
    ensures |r| == |s|
    ensures multiset(r) == multiset(s)
    ensures SortedBy(r, key)
  {
    if |s| == 0 then []
    else
      assert s == s[..|s| - 1] + [s[|s| - 1]];
      var p := SortBy(s[..|s| - 1], key);
      InsertBySorted(p, s[|s| - 1], key);
      InsertBy(p, s[|s| - 1], key)
  }

  function Keys<T>(s: seq<T>, key: T -> real): (ks: seq<real>)
    ensures |ks| == |s|
    ensures forall i :: 0 <= i < |s| ==> ks[i] == key(s[i])
  {
    seq(|s|, i requires 0 <= i < |s| => key(s[i]))
  }

  /** Index of the first smallest value, found by the scan
      `if d < current: current, index = d, i` over indices 1.. */
  function ArgMin(ds: seq<real>): (i: nat)
    requires |ds| > 0
    ensures i < |ds|
    ensures forall j :: 0 <= j < |ds| ==> ds[i] <= ds[j]
    ensures forall j :: 0 <= j < i ==> ds[i] < ds[j]
  {
    ArgMinFrom(ds, 1, 0)
  }

  function ArgMinFrom(ds: seq<real>, k: nat, best: nat): (i: nat)
    requires best < k <= |ds|
    requires forall j :: 0 <= j < k ==> ds[best] <= ds[j]
    requires forall j :: 0 <= j < best ==> ds[best] < ds[j]
    ensures i < |ds|
    ensures forall j :: 0 <= j < |ds| ==> ds[i] <= ds[j]
    ensures forall j :: 0 <= j < i ==> ds[i] < ds[j]
    decreases |ds| - k
  {
    if k == |ds| then best
    else if ds[k] < ds[best] then ArgMinFrom(ds, k + 1, k)
    else ArgMinFrom(ds, k + 1, best)
  }

  /** Index of the last largest value (a reference definition only). */
  ghost function LastArgMax(ds: seq<real>): (i: nat)
    requires |ds| > 0
    ensures i < |ds|
    ensures forall j :: 0 <= j < |ds| ==> ds[j] <= ds[i]
    ensures forall j :: i < j < |ds| ==> ds[j] < ds[i]
  {
    if |ds| == 1 then 0
    else
      var i := LastArgMax(ds[..|ds| - 1]);
      if ds[|ds| - 1] >= ds[i] then |ds| - 1 else i
  }

  // ---------------------------------------------------------------- lemmas

  /** Inserting into a sorted sequence keeps it sorted; every key of the
      result is at least the smaller of `x`'s key and the old head's key. */
  lemma {:induction false} InsertBySorted<T>(s: seq<T>, x: T, key: T -> real)
    requires SortedBy(s, key)
    ensures SortedBy(InsertBy(s, x, key), key)
    ensures forall k :: 0 <= k < |s| + 1 ==>
      key(x) <= key(InsertBy(s, x, key)[k]) || (|s| > 0 && key(s[0]) <= key(InsertBy(s, x, key)[k]))
  {
    if |s| == 0 {
    } else if key(x) < key(s[0]) {
    } else {
      assert SortedBy(s[1..], key);
      InsertBySorted(s[1..], x, key);
      var r' := InsertBy(s[1..], x, key);
      assert key(s[0]) <= key(x);
      if |s| > 1 {
        assert s[1..][0] == s[1] && key(s[0]) <= key(s[1]);
      }
      forall k | 0 <= k < |r'|
        ensures key(s[0]) <= key(r'[k])
      {
        assert key(x) <= key(r'[k]) || (|s[1..]| > 0 && key(s[1..][0]) <= key(r'[k]));
        assert |s[1..]| > 0 ==> key(s[0]) <= key(s[1..][0]);
      }
    }
  }

  lemma {:induction false} WithKeyAppend<T>(a: seq<T>, b: seq<T>, key: T -> real, v: real)
    ensures WithKey(a + b, key, v) == WithKey(a, key, v) + WithKey(b, key, v)
  {
    if |a| == 0 {
      assert a + b == b;
    } else {
      assert (a + b)[1..] == a[1..] + b;
      WithKeyAppend(a[1..], b, key, v);
    }
  }

  lemma {:induction false} WithKeyNone<T>(s: seq<T>, key: T -> real, v: real)
    requires forall k :: 0 <= k < |s| ==> key(s[k]) != v
    ensures WithKey(s, key, v) == []
  {
    if |s| > 0 {
      WithKeyNone(s[1..], key, v);
    }
  }

  /** The insertion point keeps `x` behind the elements of its own key. */
  lemma {:induction false} InsertByWithKey<T>(s: seq<T>, x: T, key: T -> real, v: real)
    requires SortedBy(s, key)
    ensures WithKey(InsertBy(s, x, key), key, v)
         == WithKey(s, key, v) + (if key(x) == v then [x] else [])
  {
    if |s| == 0 {
    } else if key(x) < key(s[0]) {
      if key(x) == v {
        WithKeyNone(s, key, v);
      }
      assert ([x] + s)[1..] == s;
    } else {
      assert SortedBy(s[1..], key);
      InsertByWithKey(s[1..], x, key, v);
      var r' := InsertBy(s[1..], x, key);
      assert InsertBy(s, x, key) == [s[0]] + r';
      assert ([s[0]] + r')[1..] == r';
      assert WithKey([s[0]] + r', key, v)
          == (if key(s[0]) == v then [s[0]] else []) + WithKey(r', key, v);
    }
  }

  /** Stability: for every key, the sort keeps the input's subsequence of
      elements with that key. */
  lemma {:induction false} SortByStable<T>(s: seq<T>, key: T -> real, v: real)
    ensures WithKey(SortBy(s, key), key, v) == WithKey(s, key, v)
  {
    if |s| > 0 {
      var p, x := s[..|s| - 1], s[|s| - 1];
      assert s == p + [x];
      SortByStable(p, key, v);
      InsertByWithKey(SortBy(p, key), x, key, v);
      WithKeyAppend(p, [x], key, v);
    }
  }

  lemma WithKeyMember<T>(s: seq<T>, key: T -> real, k: nat)
    requires k < |s|
    ensures |WithKey(s, key, key(s[k]))| > 0
  {
    assert s == s[..k] + [s[k]] + s[k + 1..];
    WithKeyAppend(s[..k] + [s[k]], s[k + 1..], key, key(s[k]));
    WithKeyAppend(s[..k], [s[k]], key, key(s[k]));
  }

  /** Two sorted sequences that agree on every key's subsequence are equal. */
  lemma {:induction false} SortedWithSameKeysEqual<T>(a: seq<T>, b: seq<T>, key: T -> real)
    requires SortedBy(a, key) && SortedBy(b, key)
    requires forall v :: WithKey(a, key, v) == WithKey(b, key, v)
    ensures a == b
    decreases |a| + |b|
  {
    if |a| == 0 && |b| == 0 {
    } else if |a| == 0 {
      assert false;
    } else if |b| == 0 {
      WithKeyMember(a, key, 0);
      assert false;
    } else {
      var ka, kb := key(a[0]), key(b[0]);
      WithKeyMember(a, key, 0);
      var wb := WithKey(b, key, ka);
      assert |wb| > 0 && wb[0] in b && key(wb[0]) == ka;
      WithKeyMember(b, key, 0);
      var wa := WithKey(a, key, kb);
      assert |wa| > 0 && wa[0] in a && key(wa[0]) == kb;
      assert ka == kb;
      var A, B := WithKey(a[1..], key, ka), WithKey(b[1..], key, ka);
      assert WithKey(a, key, ka) == [a[0]] + A;
      assert WithKey(b, key, ka) == [b[0]] + B;
      assert a[0] == b[0];
      forall v
        ensures WithKey(a[1..], key, v) == WithKey(b[1..], key, v)
      {
        assert WithKey(a, key, v) == WithKey(b, key, v);
        if v == ka {
          assert ([a[0]] + A)[1..] == A;
          assert ([b[0]] + B)[1..] == B;
        } else {
          assert WithKey(a, key, v) == WithKey(a[1..], key, v);
          assert WithKey(b, key, v) == WithKey(b[1..], key, v);
        }
      }
      SortedWithSameKeysEqual(a[1..], b[1..], key);
      assert a == [a[0]] + a[1..] && b == [b[0]] + b[1..];
    }
  }

  /** Every stable sort of `s` by `key` is `SortBy(s, key)`. */
  lemma SortByUnique<T>(s: seq<T>, r: seq<T>, key: T -> real)
    requires SortedBy(r, key)
    requires forall v :: WithKey(r, key, v) == WithKey(s, key, v)
    ensures r == SortBy(s, key)
  {
    forall v
      ensures WithKey(r, key, v) == WithKey(SortBy(s, key), key, v)
    {
      SortByStable(s, key, v);
    }
    SortedWithSameKeysEqual(r, SortBy(s, key), key);
  }

  /** Sorting an already sorted sequence leaves it as it is. */
  lemma SortBySorted<T>(s: seq<T>, key: T -> real)
    requires SortedBy(s, key)
    ensures SortBy(s, key) == s
  {
    SortByUnique(s, s, key);
  }

  lemma {:induction false} WithKeyFirst<T>(s: seq<T>, key: T -> real, v: real, i: nat)
    requires i < |s| && key(s[i]) == v
    requires forall j :: 0 <= j < i ==> key(s[j]) != v
    ensures |WithKey(s, key, v)| > 0 && WithKey(s, key, v)[0] == s[i]
  {
    if i > 0 {
      WithKeyFirst(s[1..], key, v, i - 1);
    }
  }

  lemma WithKeyLast<T>(s: seq<T>, key: T -> real, v: real, i: nat)
    requires i < |s| && key(s[i]) == v
    requires forall j :: i < j < |s| ==> key(s[j]) != v
    ensures |WithKey(s, key, v)| > 0
    ensures WithKey(s, key, v)[|WithKey(s, key, v)| - 1] == s[i]
  {
    assert s == s[..i + 1] + s[i + 1..];
    WithKeyAppend(s[..i + 1], s[i + 1..], key, v);
    WithKeyNone(s[i + 1..], key, v);
    assert s[..i + 1] == s[..i] + [s[i]];
    WithKeyAppend(s[..i], [s[i]], key, v);
  }

  lemma SortedPermutationHeadKey<T>(s: seq<T>, r: seq<T>, key: T -> real, i: nat)
    requires SortedBy(r, key) && multiset(r) == multiset(s)
    requires i < |s| && forall j :: 0 <= j < |s| ==> key(s[i]) <= key(s[j])
    ensures |r| > 0 && key(r[0]) == key(s[i])
  {
    assert s[i] in multiset(r);
    var k :| 0 <= k < |r| && r[k] == s[i];
    assert r[0] in multiset(s);
    var j :| 0 <= j < |s| && s[j] == r[0];
  }

  lemma SortedPermutationLastKey<T>(s: seq<T>, r: seq<T>, key: T -> real, i: nat)
    requires SortedBy(r, key) && multiset(r) == multiset(s)
    requires i < |s| && forall j :: 0 <= j < |s| ==> key(s[j]) <= key(s[i])
    ensures |r| > 0 && key(r[|r| - 1]) == key(s[i])
  {
    assert s[i] in multiset(r);
    var k :| 0 <= k < |r| && r[k] == s[i];
    assert r[|r| - 1] in multiset(s);
    var j :| 0 <= j < |s| && s[j] == r[|r| - 1];
  }

  /** Sorting and taking the head (`points.sort(key=...); points[0]`) picks
      the first element of least key. */
  lemma SortedHeadIsFirstMin<T>(s: seq<T>, key: T -> real)
    requires |s| > 0
    ensures SortBy(s, key)[0] == s[ArgMin(Keys(s, key))]
  {
    var i := ArgMin(Keys(s, key));
    ArgMinKeys(s, key);
    SortByStable(s, key, key(s[i]));
    StableHead(s, SortBy(s, key), key, i);
  }

  /** The first least entry of the key list is the first element of least key. */
  lemma ArgMinKeys<T>(s: seq<T>, key: T -> real)
    requires |s| > 0
    ensures var i := ArgMin(Keys(s, key));
      && i < |s|
      && (forall j :: 0 <= j < |s| ==> key(s[i]) <= key(s[j]))
      && (forall j :: 0 <= j < i ==> key(s[i]) < key(s[j]))
  {
    var ks := Keys(s, key);
    var i := ArgMin(ks);
    forall j | 0 <= j < |s|
      ensures key(s[i]) <= key(s[j])
    {
      assert ks[i] <= ks[j];
    }
    forall j | 0 <= j < i
      ensures key(s[i]) < key(s[j])
    {
      assert ks[i] < ks[j];
    }
  }

  lemma StableHead<T>(s: seq<T>, r: seq<T>, key: T -> real, i: nat)
    requires SortedBy(r, key) && multiset(r) == multiset(s)
    requires i < |s|
    requires forall j :: 0 <= j < |s| ==> key(s[i]) <= key(s[j])
    requires forall j :: 0 <= j < i ==> key(s[i]) < key(s[j])
    requires WithKey(r, key, key(s[i])) == WithKey(s, key, key(s[i]))
    ensures |r| > 0 && r[0] == s[i]
  {
    var m := key(s[i]);
    SortedPermutationHeadKey(s, r, key, i);
    HeadOfWithKeys(s, r, key, m, i);
  }

  lemma HeadOfWithKeys<T>(s: seq<T>, r: seq<T>, key: T -> real, m: real, i: nat)
    requires i < |s| && key(s[i]) == m
    requires forall j :: 0 <= j < i ==> key(s[j]) != m
    requires |r| > 0 && key(r[0]) == m
    requires WithKey(r, key, m) == WithKey(s, key, m)
    ensures r[0] == s[i]
  {
    WithKeyFirst(s, key, m, i);
    WithKeyFirst(r, key, m, 0);
  }

  /** Sorting ascending and popping the tail (`lines.sort(key=...);
      lines.pop(-1)`) removes the LAST element of greatest key. */
  lemma SortedLastIsLatestMax<T>(s: seq<T>, key: T -> real)
    requires |s| > 0
    ensures SortBy(s, key)[|s| - 1] == s[LastArgMax(Keys(s, key))]
  {
    var ks := Keys(s, key);
    var i := LastArgMax(ks);
    var r := SortBy(s, key);
    SortByStable(s, key, key(s[i]));
    StableLast(s, r, key, i);
  }

  lemma StableLast<T>(s: seq<T>, r: seq<T>, key: T -> real, i: nat)
    requires SortedBy(r, key) && multiset(r) == multiset(s)
    requires i < |s|
    requires forall j :: 0 <= j < |s| ==> key(s[j]) <= key(s[i])
    requires forall j :: i < j < |s| ==> key(s[j]) < key(s[i])
    requires WithKey(r, key, key(s[i])) == WithKey(s, key, key(s[i]))
    ensures |r| > 0 && r[|r| - 1] == s[i]
  {
    var m := key(s[i]);
    SortedPermutationLastKey(s, r, key, i);
    LastOfWithKeys(s, r, key, m, i);
  }

  lemma LastOfWithKeys<T>(s: seq<T>, r: seq<T>, key: T -> real, m: real, i: nat)
    requires i < |s| && key(s[i]) == m
    requires forall j :: i < j < |s| ==> key(s[j]) != m
    requires |r| > 0 && key(r[|r| - 1]) == m
    requires WithKey(r, key, m) == WithKey(s, key, m)
    ensures r[|r| - 1] == s[i]
  {
    WithKeyLast(s, key, m, i);
    WithKeyLast(r, key, m, |r| - 1);
  }

  lemma {:induction false} WithKeySorted<T>(s: seq<T>, key: T -> real, v: real, k1: T -> real)
    requires SortedBy(s, k1)
    ensures SortedBy(WithKey(s, key, v), k1)
  {
    if |s| > 0 {
      WithKeySorted(s[1..], key, v, k1);
      var w := WithKey(s[1..], key, v);
      assert forall i :: 0 <= i < |w| ==> k1(s[0]) <= k1(w[i]);
    }
  }

  lemma WithKeyIndex<T>(s: seq<T>, key: T -> real, i: nat)
    requires i < |s|
    ensures var p := |WithKey(s[..i], key, key(s[i]))|;
      p < |WithKey(s, key, key(s[i]))| && WithKey(s, key, key(s[i]))[p] == s[i]
  {
    var v := key(s[i]);
    assert s == s[..i] + [s[i]] + s[i + 1..];
    WithKeyAppend(s[..i] + [s[i]], s[i + 1..], key, v);
    WithKeyAppend(s[..i], [s[i]], key, v);
  }

  lemma WithKeyPrefixGrows<T>(s: seq<T>, key: T -> real, i: nat, j: nat)
    requires i < j <= |s|
    ensures |WithKey(s[..i], key, key(s[i]))| < |WithKey(s[..j], key, key(s[i]))|
  {
    var v := key(s[i]);
    assert s[..j] == s[..i] + [s[i]] + s[i + 1..j];
    WithKeyAppend(s[..i] + [s[i]], s[i + 1..j], key, v);
    WithKeyAppend(s[..i], [s[i]], key, v);
  }

  /** Two consecutive stable sorts, first by `k1` and then by `k2`, order
      by `k2` and break `k2` ties by `k1`. */
  lemma SortTwiceLexicographic<T>(s: seq<T>, k1: T -> real, k2: T -> real)
    ensures var r := SortBy(SortBy(s, k1), k2);
      && SortedBy(r, k2)
      && multiset(r) == multiset(s)
      && forall i, j :: 0 <= i < j < |r| && k2(r[i]) == k2(r[j]) ==> k1(r[i]) <= k1(r[j])
  {
    var mid := SortBy(s, k1);
    var r := SortBy(mid, k2);
    forall i, j | 0 <= i < j < |r| && k2(r[i]) == k2(r[j])
      ensures k1(r[i]) <= k1(r[j])
    {
      var v := k2(r[i]);
      SortByStable(mid, k2, v);
      WithKeySorted(mid, k2, v, k1);
      WithKeyIndex(r, k2, i);
      WithKeyIndex(r, k2, j);
      WithKeyPrefixGrows(r, k2, i, j);
    }
  }

  /** The elements of `s` satisfying `p`, in order (a list comprehension
      `[x for x in s if p(x)]`). */
  function Filter<T>(s: seq<T>, p: T -> bool): (r: seq<T>)
    ensures |r| <= |s|
    ensures forall i :: 0 <= i < |r| ==> r[i] in s && p(r[i])
    ensures forall i :: 0 <= i < |s| && p(s[i]) ==> s[i] in r
  {
    if |s| == 0 then []
    else (if p(s[0]) then [s[0]] else []) + Filter(s[1..], p)
  }

  lemma {:induction false} FilterAppend<T>(a: seq<T>, b: seq<T>, p: T -> bool)
    ensures Filter(a + b, p) == Filter(a, p) + Filter(b, p)
  {
    if |a| == 0 {
      assert a + b == b;
    } else {
      assert (a + b)[1..] == a[1..] + b;
      FilterAppend(a[1..], b, p);
    }
  }

  /** Filtering a list extended by one element. */
  lemma FilterSnoc<T>(s: seq<T>, x: T, p: T -> bool)
    ensures Filter(s + [x], p) == Filter(s, p) + (if p(x) then [x] else [])
  {
    FilterAppend(s, [x], p);
    assert [x][1..] == [];
  }

  lemma {:induction false} FilterAll<T>(s: seq<T>, p: T -> bool)
    requires forall i :: 0 <= i < |s| ==> p(s[i])
    ensures Filter(s, p) == s
  {
    if |s| > 0 {
      FilterAll(s[1..], p);
    }
  }

  lemma {:induction false} FilterWithKeyCommute<T>(s: seq<T>, p: T -> bool, key: T -> real, v: real)
    ensures WithKey(Filter(s, p), key, v) == Filter(WithKey(s, key, v), p)
  {
    if |s| > 0 {
      var h := if p(s[0]) then [s[0]] else [];
      FilterWithKeyCommute(s[1..], p, key, v);
      WithKeyAppend(h, Filter(s[1..], p), key, v);
      FilterAppend(if key(s[0]) == v then [s[0]] else [], WithKey(s[1..], key, v), p);
    }
  }

  lemma {:induction false} FilterSorted<T>(s: seq<T>, p: T -> bool, key: T -> real)
    requires SortedBy(s, key)
    ensures SortedBy(Filter(s, p), key)
  {
    if |s| > 0 {
      FilterSorted(s[1..], p, key);
      var t := Filter(s[1..], p);
      forall k | 0 <= k < |t|
        ensures key(s[0]) <= key(t[k])
      {
        var j :| 0 <= j < |s[1..]| && s[1..][j] == t[k];
        assert s[1..][j] == s[j + 1];
      }
    }
  }

  /** A stable sort does not reorder a subsequence that is already sorted:
      the elements picked out by `p` appear in the sorted result in their
      original order whenever that order was ascending. */
  lemma StableSortKeepsSortedSubsequence<T>(s: seq<T>, key: T -> real, p: T -> bool)
    requires SortedBy(Filter(s, p), key)
    ensures Filter(SortBy(s, key), p) == Filter(s, p)
  {
    var r := SortBy(s, key);
    FilterSorted(r, p, key);
    forall v
      ensures WithKey(Filter(r, p), key, v) == WithKey(Filter(s, p), key, v)
    {
      FilterWithKeyCommute(r, p, key, v);
      FilterWithKeyCommute(s, p, key, v);
      SortByStable(s, key, v);
    }
    SortedWithSameKeysEqual(Filter(r, p), Filter(s, p), key);
  }

  /** The last element of the sorted list has the largest key. */
  lemma SortedLastIsMax<T>(s: seq<T>, key: T -> real, k: nat)
    requires k < |s|
    ensures key(s[k]) <= key(SortBy(s, key)[|s| - 1])
  {
    var ks := Keys(s, key);
    SortedLastIsLatestMax(s, key);
    assert ks[k] <= ks[LastArgMax(ks)];
  }
}
