/** The list operations the analytics lean on, stated once for every element
    type: Python's stable `sorted`/`list.sort` (ascending or with
    `reverse=True`), comprehension filters, first-appearance de-duplication
    (the key order of a Python dict) and sums. */
module Lists {

  /** `le` is a total preorder: any two values compare, and comparison chains. */
  ghost predicate TotalPreorder<T(!new)>(le: (T, T) -> bool)
  {
    && (forall x, y :: le(x, y) || le(y, x))
    && (forall x, y, z :: le(x, y) && le(y, z) ==> le(x, z))
  }

  ghost predicate SortedBy<T>(s: seq<T>, le: (T, T) -> bool)
  {
    forall i, j :: 0 <= i < j < |s| ==> le(s[i], s[j])
  }

  /** Places `x` in front of the first element it does not exceed, so `x`
      stays ahead of the elements that compare equal to it. */
  function Insert<T>(x: T, s: seq<T>, le: (T, T) -> bool): (r: seq<T>)
    ensures multiset(r) == multiset(s) + multiset{x}
    ensures |r| == |s| + 1
  {
    if s == [] || le(x, s[0]) then [x] + s
    else
      assert s == [s[0]] + s[1..];
      [s[0]] + Insert(x, s[1..], le)
  }

  /** Stable insertion sort. With `le(a, b) == key(a) <= key(b)` it is
      Python's `sorted(s, key=key)`; with `key(a) >= key(b)` it is
      `sorted(s, key=key, reverse=True)`, which also keeps equal keys in
      their original order. */
  function Sort<T>(s: seq<T>, le: (T, T) -> bool): (r: seq<T>)
    ensures multiset(r) == multiset(s)
    ensures |r| == |s|
  {
    if s == [] then []
    else
      assert s == [s[0]] + s[1..];
      Insert(s[0], Sort(s[1..], le), le)
  }

  lemma {:induction false} InsertSorted<T(!new)>(x: T, s: seq<T>, le: (T, T) -> bool)
    requires TotalPreorder(le) && SortedBy(s, le)
    ensures SortedBy(Insert(x, s, le), le)
  {
    if s == [] || le(x, s[0]) {
    } else {
      var rest := Insert(x, s[1..], le);
      InsertSorted(x, s[1..], le);
      forall j | 0 <= j < |rest|
        ensures le(s[0], rest[j])
      {
        assert rest[j] in multiset(rest);
        assert rest[j] == x || rest[j] in multiset(s[1..]);
        if rest[j] != x {
          var k :| 0 <= k < |s[1..]| && s[1..][k] == rest[j];
          assert s[k + 1] == rest[j];
        }
      }
    }
  }

  /** The sort orders its output. */
  lemma {:induction false} SortSorted<T(!new)>(s: seq<T>, le: (T, T) -> bool)
    requires TotalPreorder(le)
    ensures SortedBy(Sort(s, le), le)
  {
    if s != [] {
      SortSorted(s[1..], le);
      InsertSorted(s[0], Sort(s[1..], le), le);
    }
  }

  /** Sorting an ordered list changes nothing. */
  lemma {:induction false} SortOfSorted<T>(s: seq<T>, le: (T, T) -> bool)
    requires SortedBy(s, le)
    ensures Sort(s, le) == s
  {
    if s != [] {
      SortOfSorted(s[1..], le);
      assert s == [s[0]] + s[1..];
    }
  }

  /** `[x for x in s if p(x)]`. */
  function Filter<T>(s: seq<T>, p: T -> bool): (r: seq<T>)
    ensures |r| <= |s|
    ensures forall i :: 0 <= i < |r| ==> r[i] in s && p(r[i])
    ensures forall i :: 0 <= i < |s| && p(s[i]) ==> s[i] in r
  {
    if s == [] then []
    else
      assert s == [s[0]] + s[1..];
      (if p(s[0]) then [s[0]] else []) + Filter(s[1..], p)
  }

  /** Filtering keeps the order of what it keeps. */
  lemma {:induction false} FilterSorted<T>(s: seq<T>, p: T -> bool, le: (T, T) -> bool)
    requires SortedBy(s, le)
    ensures SortedBy(Filter(s, p), le)
  {
    if s != [] {
      FilterSorted(s[1..], p, le);
      var r := Filter(s, p);
      if p(s[0]) {
        forall j | 0 < j < |r|
          ensures le(s[0], r[j])
        {
          assert r[j] in Filter(s[1..], p);
          var k :| 0 <= k < |s[1..]| && s[1..][k] == r[j];
          assert s[k + 1] == r[j];
        }
      }
    }
  }

  /** The filter keeps nothing exactly when no element passes. */
  lemma {:induction false} FilterAllOrNone<T>(s: seq<T>, p: T -> bool)
    ensures (forall i :: 0 <= i < |s| ==> !p(s[i])) <==> Filter(s, p) == []
  {
    if s != [] {
      FilterAllOrNone(s[1..], p);
    }
  }

  /** The elements of `s` in order of first appearance, each once. */
  function Distinct<T(==)>(s: seq<T>): (r: seq<T>)
    ensures forall i :: 0 <= i < |r| ==> r[i] in s
    ensures forall i :: 0 <= i < |s| ==> s[i] in r
    ensures forall i, j :: 0 <= i < j < |r| ==> r[i] != r[j]
    ensures |r| <= |s|
  {
    if s == [] then []
    else
      var d := Distinct(s[..|s| - 1]);
      assert s == s[..|s| - 1] + [s[|s| - 1]];
      if s[|s| - 1] in d then d else d + [s[|s| - 1]]
  }

  function SumReal<T>(s: seq<T>, f: T -> real): real
  {
    if s == [] then 0.0 else f(s[0]) + SumReal(s[1..], f)
  }

  function SumInt<T>(s: seq<T>, f: T -> int): int
  {
    if s == [] then 0 else f(s[0]) + SumInt(s[1..], f)
  }

  lemma {:induction false} SumRealInsert<T>(x: T, s: seq<T>, le: (T, T) -> bool, f: T -> real)
    ensures SumReal(Insert(x, s, le), f) == f(x) + SumReal(s, f)
  {
    if s != [] && !le(x, s[0]) {
      SumRealInsert(x, s[1..], le, f);
      assert Insert(x, s, le)[1..] == Insert(x, s[1..], le);
    } else {
      assert ([x] + s)[1..] == s;
    }
  }

  /** Reordering by the sort leaves a sum unchanged. */
  lemma {:induction false} SumRealSort<T>(s: seq<T>, le: (T, T) -> bool, f: T -> real)
    ensures SumReal(Sort(s, le), f) == SumReal(s, f)
  {
    if s != [] {
      SumRealSort(s[1..], le, f);
      SumRealInsert(s[0], Sort(s[1..], le), le, f);
    }
  }

  lemma {:induction false} SumRealAppend<T>(a: seq<T>, b: seq<T>, f: T -> real)
    ensures SumReal(a + b, f) == SumReal(a, f) + SumReal(b, f)
  {
    if a != [] {
      SumRealAppend(a[1..], b, f);
      assert (a + b)[1..] == a[1..] + b;
    } else {
      assert a + b == b;
    }
  }

  lemma {:induction false} SumIntAppend<T>(a: seq<T>, b: seq<T>, f: T -> int)
    ensures SumInt(a + b, f) == SumInt(a, f) + SumInt(b, f)
  {
    if a != [] {
      SumIntAppend(a[1..], b, f);
      assert (a + b)[1..] == a[1..] + b;
    } else {
      assert a + b == b;
    }
  }

  /** `sum(f(x) for x in s) / len(s)`, 0 for the empty list (every caller
      guards that case). */
  function MeanOf<T>(s: seq<T>, f: T -> real): real
  {
    if s == [] then 0.0 else SumReal(s, f) / (|s| as real)
  }

  lemma {:induction false} SumRealBounds<T>(s: seq<T>, f: T -> real, lo: real, hi: real)
    requires forall i :: 0 <= i < |s| ==> lo <= f(s[i]) <= hi
    ensures (|s| as real) * lo <= SumReal(s, f) <= (|s| as real) * hi
  {
    if s != [] {
      SumRealBounds(s[1..], f, lo, hi);
      assert (|s| as real) * lo == lo + (|s[1..]| as real) * lo;
      assert (|s| as real) * hi == hi + (|s[1..]| as real) * hi;
    }
  }

  /** A mean lies between any bounds its values lie between. */
  lemma MeanBounds<T>(s: seq<T>, f: T -> real, lo: real, hi: real)
    requires s != []
    requires forall i :: 0 <= i < |s| ==> lo <= f(s[i]) <= hi
    ensures lo <= MeanOf(s, f) <= hi
  {
    SumRealBounds(s, f, lo, hi);
    var n := |s| as real;
    assert MeanOf(s, f) * n == SumReal(s, f);
  }

  lemma {:induction false} SumRealPositive<T>(s: seq<T>, f: T -> real)
    requires s != []
    requires forall i :: 0 <= i < |s| ==> f(s[i]) > 0.0
    ensures SumReal(s, f) > 0.0
  {
    if |s| > 1 {
      SumRealPositive(s[1..], f);
    } else {
      assert s[1..] == [];
    }
  }

  /** The mean of positive values is positive. */
  lemma MeanPositive<T>(s: seq<T>, f: T -> real)
    requires s != []
    requires forall i :: 0 <= i < |s| ==> f(s[i]) > 0.0
    ensures MeanOf(s, f) > 0.0
  {
    SumRealPositive(s, f);
  }

  /** The first `n` elements, or all of them when there are fewer:
      `s[:n]`. */
  function Take<T>(s: seq<T>, n: nat): (r: seq<T>)
    ensures |r| == if |s| <= n then |s| else n
    ensures r == s[..|r|]
  {
    if |s| <= n then s else s[..n]
  }

  function MinOf(s: seq<int>): (m: int)
    requires s != []
    ensures m in s && forall i :: 0 <= i < |s| ==> m <= s[i]
  {
    if |s| == 1 then s[0]
    else
      var m := MinOf(s[1..]);
      assert m in s;
      if s[0] <= m then s[0] else m
  }

  function MaxOf(s: seq<int>): (m: int)
    requires s != []
    ensures m in s && forall i :: 0 <= i < |s| ==> s[i] <= m
  {
    if |s| == 1 then s[0]
    else
      var m := MaxOf(s[1..]);
      assert m in s;
      if s[0] >= m then s[0] else m
  }

  function Map<T, U>(s: seq<T>, f: T -> U): (r: seq<U>)
    ensures |r| == |s| && forall i :: 0 <= i < |s| ==> r[i] == f(s[i])
  {
    seq(|s|, i requires 0 <= i < |s| => f(s[i]))
  }

  /** An element of one list is found in any reordering of it. */
  lemma PermutationIndex<T>(a: seq<T>, b: seq<T>, m: int) returns (i: int)
    requires multiset(a) == multiset(b) && 0 <= m < |a|
    ensures 0 <= i < |b| && b[i] == a[m]
  {
    assert a[m] in multiset(b);
    i :| 0 <= i < |b| && b[i] == a[m];
  }

  /** No value occurs twice. */
  ghost predicate NoDup<T>(s: seq<T>)
  {
    forall i, j :: 0 <= i < j < |s| ==> s[i] != s[j]
  }

  lemma {:induction false} NoDupCount<T>(s: seq<T>, x: T)
    requires NoDup(s)
    ensures multiset(s)[x] <= 1
  {
    if s != [] {
      assert s == [s[0]] + s[1..];
      NoDupCount(s[1..], x);
      if x == s[0] {
        assert x !in s[1..];
      }
    }
  }

  lemma {:induction false} CountNoDup<T>(s: seq<T>)
    requires forall x :: multiset(s)[x] <= 1
    ensures NoDup(s)
  {
    if s != [] {
      assert s == [s[0]] + s[1..];
      forall x
        ensures multiset(s[1..])[x] <= 1
      {
        assert multiset(s)[x] == multiset([s[0]])[x] + multiset(s[1..])[x];
      }
      CountNoDup(s[1..]);
      assert multiset(s)[s[0]] == multiset([s[0]])[s[0]] + multiset(s[1..])[s[0]];
      assert s[0] !in multiset(s[1..]);
      forall j | 0 < j < |s|
        ensures s[0] != s[j]
      {
        assert s[j] == s[1..][j - 1];
      }
    }
  }

  /** Reordering keeps a list free of duplicates. */
  lemma NoDupPermutation<T>(a: seq<T>, b: seq<T>)
    requires NoDup(a) && multiset(a) == multiset(b)
    ensures NoDup(b)
  {
    forall x
      ensures multiset(b)[x] <= 1
    {
      NoDupCount(a, x);
    }
    CountNoDup(b);
  }

  /** The elements of `s` whose key is `k`, in order: one group of a
      `defaultdict(list)` filled by key. */
  function Group<T, K(==)>(s: seq<T>, key: T -> K, k: K): seq<T>
  {
    Filter(s, x => key(x) == k)
  }

  /** A group of filtered elements holds elements that pass the filter
      and have the group's key. */
  lemma GroupFilterMember<T, K>(s: seq<T>, p: T -> bool, key: T -> K, k: K, i: int)
    requires 0 <= i < |Group(Filter(s, p), key, k)|
    ensures p(Group(Filter(s, p), key, k)[i]) && key(Group(Filter(s, p), key, k)[i]) == k
  {
    var f := Filter(s, p);
    var x := Group(f, key, k)[i];
    assert x in f;
    var t :| 0 <= t < |f| && f[t] == x;
  }

  /** The sum of `f` over one group. */
  function GroupSum<T, K(==)>(s: seq<T>, key: T -> K, f: T -> real, k: K): real
  {
    SumReal(Group(s, key, k), f)
  }

  /** The group sums over the keys `ks`, added up. */
  function SumGroups<T, K(==)>(ks: seq<K>, s: seq<T>, key: T -> K, f: T -> real): real
  {
    if ks == [] then 0.0 else GroupSum(s, key, f, ks[0]) + SumGroups(ks[1..], s, key, f)
  }

  lemma {:induction false} SumGroupsEmpty<T, K>(ks: seq<K>, key: T -> K, f: T -> real)
    ensures SumGroups(ks, [], key, f) == 0.0
  {
    if ks != [] {
      SumGroupsEmpty(ks[1..], key, f);
    }
  }

  lemma GroupSumCons<T, K>(x: T, s: seq<T>, key: T -> K, f: T -> real, k: K)
    ensures GroupSum([x] + s, key, f, k) == (if key(x) == k then f(x) else 0.0) + GroupSum(s, key, f, k)
  {
    assert ([x] + s)[0] == x && ([x] + s)[1..] == s;
    var g := Group(s, key, k);
    if key(x) == k {
      assert Group([x] + s, key, k) == [x] + g;
      assert ([x] + g)[0] == x && ([x] + g)[1..] == g;
    } else {
      assert Group([x] + s, key, k) == [] + g;
      assert [] + g == g;
    }
  }

  lemma {:induction false} SumGroupsCons<T, K>(ks: seq<K>, x: T, s: seq<T>, key: T -> K, f: T -> real)
    requires NoDup(ks)
    ensures SumGroups(ks, [x] + s, key, f)
         == (if key(x) in ks then f(x) else 0.0) + SumGroups(ks, s, key, f)
  {
    if ks != [] {
      assert NoDup(ks[1..]);
      SumGroupsCons(ks[1..], x, s, key, f);
      GroupSumCons(x, s, key, f, ks[0]);
      assert ks == [ks[0]] + ks[1..];
      assert key(x) == ks[0] ==> key(x) !in ks[1..];
    }
  }

  /** Splitting a list into groups by key and adding the group sums gives
      the sum over the whole list, provided every element's key is listed
      exactly once. */
  lemma {:induction false} PartitionSum<T, K>(ks: seq<K>, s: seq<T>, key: T -> K, f: T -> real)
    requires NoDup(ks)
    requires forall i :: 0 <= i < |s| ==> key(s[i]) in ks
    ensures SumGroups(ks, s, key, f) == SumReal(s, f)
  {
    if s == [] {
      SumGroupsEmpty(ks, key, f);
    } else {
      assert s == [s[0]] + s[1..];
      PartitionSum(ks, s[1..], key, f);
      SumGroupsCons(ks, s[0], s[1..], key, f);
    }
  }

  /** The distinct keys of `s` in `le` order: `sorted` over the keys of a
      dict filled from `s`. */
  function SortedKeys<T, K(==)>(s: seq<T>, key: T -> K, le: (K, K) -> bool): seq<K>
  {
    Sort(Distinct(Map(s, key)), le)
  }

  /** The keys are sorted and distinct, and a key is listed exactly when
      its group is non-empty. */
  lemma SortedKeysSpec<T, K(!new)>(s: seq<T>, key: T -> K, le: (K, K) -> bool)
    requires TotalPreorder(le)
    ensures SortedBy(SortedKeys(s, key, le), le)
    ensures NoDup(SortedKeys(s, key, le))
    ensures forall i :: 0 <= i < |s| ==> key(s[i]) in SortedKeys(s, key, le)
    ensures forall i :: 0 <= i < |SortedKeys(s, key, le)| ==> Group(s, key, SortedKeys(s, key, le)[i]) != []
  {
    var m := Map(s, key);
    var d := Distinct(m);
    var ks := SortedKeys(s, key, le);
    SortSorted(d, le);
    NoDupPermutation(d, ks);
    forall i | 0 <= i < |s|
      ensures key(s[i]) in ks
    {
      assert m[i] == key(s[i]);
      assert m[i] in multiset(d);
    }
    forall i | 0 <= i < |ks|
      ensures Group(s, key, ks[i]) != []
    {
      assert ks[i] in multiset(d);
      var j :| 0 <= j < |m| && m[j] == ks[i];
      assert s[j] in Group(s, key, ks[i]);
    }
  }

  /** The keys of the elements that pass a filter: each passing element's
      key is listed, and each listed key belongs to a passing element. */
  lemma FilteredKeysSpec<T, K(!new)>(s: seq<T>, p: T -> bool, key: T -> K, le: (K, K) -> bool)
    requires TotalPreorder(le)
    ensures SortedBy(SortedKeys(Filter(s, p), key, le), le)
    ensures NoDup(SortedKeys(Filter(s, p), key, le))
    ensures forall k :: 0 <= k < |s| && p(s[k]) ==> key(s[k]) in SortedKeys(Filter(s, p), key, le)
    ensures forall i :: 0 <= i < |SortedKeys(Filter(s, p), key, le)| ==>
              exists k :: 0 <= k < |s| && p(s[k]) && key(s[k]) == SortedKeys(Filter(s, p), key, le)[i]
  {
    SortedKeysSpec(Filter(s, p), key, le);
    FilteredKeysComplete(s, p, key, le);
    FilteredKeysSound(s, p, key, le);
  }

  lemma FilteredKeysComplete<T, K(!new)>(s: seq<T>, p: T -> bool, key: T -> K, le: (K, K) -> bool)
    requires TotalPreorder(le)
    ensures forall k :: 0 <= k < |s| && p(s[k]) ==> key(s[k]) in SortedKeys(Filter(s, p), key, le)
  {
    var f := Filter(s, p);
    var ks := SortedKeys(f, key, le);
    SortedKeysSpec(f, key, le);
    forall k | 0 <= k < |s| && p(s[k])
      ensures key(s[k]) in ks
    {
      assert s[k] in f;
      var m :| 0 <= m < |f| && f[m] == s[k];
    }
  }

  lemma FilteredKeysSound<T, K(!new)>(s: seq<T>, p: T -> bool, key: T -> K, le: (K, K) -> bool)
    requires TotalPreorder(le)
    ensures forall i :: 0 <= i < |SortedKeys(Filter(s, p), key, le)| ==>
              exists k :: 0 <= k < |s| && p(s[k]) && key(s[k]) == SortedKeys(Filter(s, p), key, le)[i]
  {
    var f := Filter(s, p);
    var ks := SortedKeys(f, key, le);
    SortedKeysSpec(f, key, le);
    forall i | 0 <= i < |ks|
      ensures exists k :: 0 <= k < |s| && p(s[k]) && key(s[k]) == ks[i]
    {
      var g := Group(f, key, ks[i]);
      assert g[0] in f && key(g[0]) == ks[i];
      var m :| 0 <= m < |f| && f[m] == g[0];
      assert f[m] in s;
      var k :| 0 <= k < |s| && s[k] == f[m];
    }
  }
}
