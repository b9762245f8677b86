/** Interval algebra of the utilisation calculator: `_merge_intervals` sorts
    `(start, end)` pairs by start and folds every pair whose start is at or
    before the running end into it. */
module Intervals {
  import opened Lists

  /** A `(start, end)` pair; it stands for the instants `lo <= t < hi`. */
  datatype Interval = Interval(lo: int, hi: int)

  function Max(a: int, b: int): int
  {
    if a >= b then a else b
  }

  function Min(a: int, b: int): int
  {
    if a <= b then a else b
  }

  predicate Covers(iv: Interval, t: int)
  {
    iv.lo <= t < iv.hi
  }

  /** Instant `t` lies in some interval of `s`. */
  ghost predicate InUnion(s: seq<Interval>, t: int)
  {
    exists i :: 0 <= i < |s| && Covers(s[i], t)
  }

  /** The sort key of `sorted(ranges, key=lambda x: x[0])`. */
  predicate StartLe(a: Interval, b: Interval)
  {
    a.lo <= b.lo
  }

  ghost predicate SortedByStart(s: seq<Interval>)
  {
    forall i, j :: 0 <= i < j < |s| ==> s[i].lo <= s[j].lo
  }

  /** Each interval starts strictly after the previous one ends. */
  ghost predicate Separated(s: seq<Interval>)
  {
    forall i :: 0 < i < |s| ==> s[i - 1].hi < s[i].lo
  }

  /** The shape `_merge_intervals` produces. */
  ghost predicate IsMerged(s: seq<Interval>)
  {
    SortedByStart(s) && Separated(s)
  }

  /** Every interval has positive length. */
  ghost predicate Proper(s: seq<Interval>)
  {
    forall i :: 0 <= i < |s| ==> s[i].lo < s[i].hi
  }

  ghost predicate Within(s: seq<Interval>, a: int, b: int)
  {
    forall i :: 0 <= i < |s| ==> a <= s[i].lo && s[i].hi <= b
  }

  function Len(iv: Interval): int
  {
    iv.hi - iv.lo
  }

  /** Sum of the interval lengths. */
  function Length(s: seq<Interval>): int
  {
    SumInt(s, Len)
  }

  function SortByStart(ranges: seq<Interval>): (r: seq<Interval>)
    ensures multiset(r) == multiset(ranges)
    ensures SortedByStart(r)
  {
    StartLeTotal();
    SortSorted(ranges, StartLe);
    Sort(ranges, StartLe)
  }

  lemma StartLeTotal()
    ensures TotalPreorder(StartLe)
  {
  }

  /** One step of the loop: fold `iv` into the last output interval when it
      starts at or before that interval's end, else append it. */
  function Absorb(out: seq<Interval>, iv: Interval): (r: seq<Interval>)
    requires IsMerged(out)
    requires out != [] ==> out[|out| - 1].lo <= iv.lo
    ensures IsMerged(r)
    ensures r != [] && r[|r| - 1].lo <= iv.lo
    ensures |out| <= |r| <= |out| + 1
  {
    if out == [] then [iv]
    else
      var last := out[|out| - 1];
      if iv.lo <= last.hi then out[..|out| - 1] + [Interval(last.lo, Max(last.hi, iv.hi))]
      else out + [iv]
  }

  /** The loop `for s, e in sorted_r[1:]` from a given output list. */
  function Fold(out: seq<Interval>, rest: seq<Interval>): (r: seq<Interval>)
    requires IsMerged(out) && SortedByStart(rest)
    requires out != [] && rest != [] ==> out[|out| - 1].lo <= rest[0].lo
    ensures IsMerged(r)
    ensures |r| <= |out| + |rest|
    ensures out != [] || rest != [] ==> r != []
    decreases |rest|
  {
    if rest == [] then out else Fold(Absorb(out, rest[0]), rest[1..])
  }

  /** `_merge_intervals(ranges)`: empty for no input, otherwise sorted by
      start with every interval starting strictly after its predecessor's
      end, and never longer than the input. */
  function Merge(ranges: seq<Interval>): (r: seq<Interval>)
    ensures IsMerged(r)
    ensures r == [] <==> ranges == []
    ensures |r| <= |ranges|
  {
    if ranges == [] then []
    else
      var sorted := SortByStart(ranges);
      Fold([sorted[0]], sorted[1..])
  }

  lemma InUnionAppend(a: seq<Interval>, x: Interval, t: int)
    ensures InUnion(a + [x], t) <==> InUnion(a, t) || Covers(x, t)
  {
    if InUnion(a, t) {
      var i :| 0 <= i < |a| && Covers(a[i], t);
      assert (a + [x])[i] == a[i];
    }
    if Covers(x, t) {
      assert (a + [x])[|a|] == x;
    }
    if InUnion(a + [x], t) {
      var i :| 0 <= i < |a + [x]| && Covers((a + [x])[i], t);
      if i < |a| {
        assert (a + [x])[i] == a[i];
      }
    }
  }

  /** A step keeps the covered instants: those of the output so far plus
      those of the absorbed interval. */
  lemma AbsorbUnion(out: seq<Interval>, iv: Interval, t: int)
    requires IsMerged(out)
    requires out != [] ==> out[|out| - 1].lo <= iv.lo
    ensures InUnion(Absorb(out, iv), t) <==> InUnion(out, t) || Covers(iv, t)
  {
    if out == [] {
      InUnionAppend([], iv, t);
      assert [] + [iv] == [iv];
    } else {
      var last := out[|out| - 1];
      var init := out[..|out| - 1];
      assert out == init + [last];
      InUnionAppend(init, last, t);
      if iv.lo <= last.hi {
        InUnionAppend(init, Interval(last.lo, Max(last.hi, iv.hi)), t);
      } else {
        InUnionAppend(out, iv, t);
      }
    }
  }

  lemma {:induction false} FoldUnion(out: seq<Interval>, rest: seq<Interval>, t: int)
    requires IsMerged(out) && SortedByStart(rest)
    requires out != [] && rest != [] ==> out[|out| - 1].lo <= rest[0].lo
    ensures InUnion(Fold(out, rest), t) <==> InUnion(out, t) || InUnion(rest, t)
    decreases |rest|
  {
    if rest != [] {
      AbsorbUnion(out, rest[0], t);
      FoldUnion(Absorb(out, rest[0]), rest[1..], t);
      assert rest == [rest[0]] + rest[1..];
      InUnionCons(rest[0], rest[1..], t);
    }
  }

  lemma InUnionCons(x: Interval, s: seq<Interval>, t: int)
    ensures InUnion([x] + s, t) <==> Covers(x, t) || InUnion(s, t)
  {
    if InUnion(s, t) {
      var i :| 0 <= i < |s| && Covers(s[i], t);
      assert ([x] + s)[i + 1] == s[i];
    }
    if InUnion([x] + s, t) {
      var i :| 0 <= i < |[x] + s| && Covers(([x] + s)[i], t);
      if i > 0 {
        assert ([x] + s)[i] == s[i - 1];
      }
    }
    assert ([x] + s)[0] == x;
  }

  /** Reordering keeps the covered instants. */
  lemma PermutationUnion(a: seq<Interval>, b: seq<Interval>, t: int)
    requires multiset(a) == multiset(b)
    ensures InUnion(a, t) <==> InUnion(b, t)
  {
    if InUnion(a, t) {
      var i :| 0 <= i < |a| && Covers(a[i], t);
      assert a[i] in multiset(b);
      var j :| 0 <= j < |b| && b[j] == a[i];
    }
    if InUnion(b, t) {
      var i :| 0 <= i < |b| && Covers(b[i], t);
      assert b[i] in multiset(a);
      var j :| 0 <= j < |a| && a[j] == b[i];
    }
  }

  /** Union preservation: an instant is covered by the merged list exactly
      when some input interval covers it. */
  lemma MergeUnion(ranges: seq<Interval>, t: int)
    ensures InUnion(Merge(ranges), t) <==> InUnion(ranges, t)
  {
    if ranges != [] {
      var sorted := SortByStart(ranges);
      PermutationUnion(ranges, sorted, t);
      assert sorted == [sorted[0]] + sorted[1..];
      InUnionCons(sorted[0], sorted[1..], t);
      FoldUnion([sorted[0]], sorted[1..], t);
      InUnionAppend([], sorted[0], t);
      assert [] + [sorted[0]] == [sorted[0]];
    }
  }

  /** Both halves of a merged list are merged, and the first half ends
      before the second begins. */
  lemma MergedSplit(out: seq<Interval>, rest: seq<Interval>)
    requires IsMerged(out + rest)
    ensures IsMerged(out) && IsMerged(rest)
    ensures out != [] && rest != [] ==> out[|out| - 1].lo <= rest[0].lo
    ensures out != [] && rest != [] ==> out[|out| - 1].hi < rest[0].lo
  {
    var whole := out + rest;
    assert forall i :: 0 <= i < |out| ==> out[i] == whole[i];
    assert forall i :: 0 <= i < |rest| ==> rest[i] == whole[|out| + i];
    if out != [] && rest != [] {
      assert whole[|out| - 1].hi < whole[|out|].lo;
      assert whole[|out| - 1].lo <= whole[|out|].lo;
    }
  }

  /** Folding a list that is already merged appends it unchanged. */
  lemma {:induction false} FoldOfMerged(out: seq<Interval>, rest: seq<Interval>)
    requires out != [] && IsMerged(out + rest)
    ensures IsMerged(out) && SortedByStart(rest)
    ensures rest != [] ==> out[|out| - 1].lo <= rest[0].lo
    ensures Fold(out, rest) == out + rest
    decreases |rest|
  {
    MergedSplit(out, rest);
    if rest != [] {
      assert Absorb(out, rest[0]) == out + [rest[0]];
      assert (out + [rest[0]]) + rest[1..] == out + rest;
      FoldOfMerged(out + [rest[0]], rest[1..]);
    } else {
      assert out + rest == out;
    }
  }

  /** Idempotence: merging a merged list returns it unchanged. */
  lemma MergeOfMerged(m: seq<Interval>)
    requires IsMerged(m)
    ensures Merge(m) == m
  {
    if m != [] {
      SortOfSorted(m, StartLe);
      assert [m[0]] + m[1..] == m;
      FoldOfMerged([m[0]], m[1..]);
    }
  }

  lemma MergeIdempotent(ranges: seq<Interval>)
    ensures Merge(Merge(ranges)) == Merge(ranges)
  {
    MergeOfMerged(Merge(ranges));
  }

  /** Members of a permutation are members of the original. */
  lemma PermutationMembers(a: seq<Interval>, b: seq<Interval>)
    requires multiset(a) == multiset(b)
    ensures forall i :: 0 <= i < |b| ==> b[i] in a
  {
    forall i | 0 <= i < |b|
      ensures b[i] in a
    {
      assert b[i] in multiset(a);
    }
  }

  lemma AbsorbBounds(out: seq<Interval>, iv: Interval, a: int, b: int)
    requires IsMerged(out)
    requires out != [] ==> out[|out| - 1].lo <= iv.lo
    ensures Proper(out) && iv.lo < iv.hi ==> Proper(Absorb(out, iv))
    ensures Within(out, a, b) && a <= iv.lo && iv.hi <= b ==> Within(Absorb(out, iv), a, b)
  {
  }

  lemma {:induction false} FoldBounds(out: seq<Interval>, rest: seq<Interval>, a: int, b: int)
    requires IsMerged(out) && SortedByStart(rest)
    requires out != [] && rest != [] ==> out[|out| - 1].lo <= rest[0].lo
    ensures Proper(out) && Proper(rest) ==> Proper(Fold(out, rest))
    ensures Within(out, a, b) && Within(rest, a, b) ==> Within(Fold(out, rest), a, b)
    decreases |rest|
  {
    if rest != [] {
      AbsorbBounds(out, rest[0], a, b);
      FoldBounds(Absorb(out, rest[0]), rest[1..], a, b);
    }
  }

  /** Merging never creates an empty interval. */
  lemma MergeProper(ranges: seq<Interval>)
    requires Proper(ranges)
    ensures Proper(Merge(ranges))
  {
    if ranges != [] {
      var sorted := SortByStart(ranges);
      PermutationMembers(ranges, sorted);
      assert Proper(sorted);
      assert Proper([sorted[0]]) && Proper(sorted[1..]);
      FoldBounds([sorted[0]], sorted[1..], 0, 0);
    }
  }

  /** Merging never leaves the range `[a, b]` its input lies in. */
  lemma MergeWithin(ranges: seq<Interval>, a: int, b: int)
    requires Within(ranges, a, b)
    ensures Within(Merge(ranges), a, b)
  {
    if ranges != [] {
      var sorted := SortByStart(ranges);
      PermutationMembers(ranges, sorted);
      assert Within(sorted, a, b);
      assert Within([sorted[0]], a, b) && Within(sorted[1..], a, b);
      FoldBounds([sorted[0]], sorted[1..], a, b);
    }
  }

  lemma SortPair(a: Interval, b: Interval)
    requires a.lo <= b.lo
    ensures SortByStart([a, b]) == [a, b]
  {
    assert Sort([b], StartLe) == Insert(b, Sort([], StartLe), StartLe) == [b];
    assert Sort([a, b], StartLe) == Insert(a, Sort([b], StartLe), StartLe);
  }

  /** The fold rule on two intervals: a second interval starting at or
      before the first one's end, exact touching included, joins it. */
  lemma MergeOverlappingPair(a: Interval, b: Interval)
    requires a.lo <= b.lo <= a.hi
    ensures Merge([a, b]) == [Interval(a.lo, Max(a.hi, b.hi))]
  {
    SortPair(a, b);
    assert [a, b][1..] == [b];
    assert Fold([a], [b]) == Fold(Absorb([a], b), []);
  }

  /** Two intervals with a gap between them stay apart. */
  lemma MergeDisjointPair(a: Interval, b: Interval)
    requires a.hi < b.lo
    requires a.lo <= a.hi
    ensures Merge([a, b]) == [a, b]
  {
    SortPair(a, b);
    assert [a, b][1..] == [b];
    assert Fold([a], [b]) == Fold(Absorb([a], b), []);
  }
}
