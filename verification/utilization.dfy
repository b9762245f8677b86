/** `calculate_and_store`: split every usable job over the calendar days it
    touches, clip it to each day, merge the pieces per (date, robot key),
    derive runtime, idle time and utilisation on a 24-hour basis, and
    upsert one row per (date, robot key). */
module Utilization {
  import opened Jobs
  import opened Intervals
  import opened Lists

  /** The part of one job that falls on one calendar day, for one robot key. */
  datatype Piece = Piece(date: Date, key: string, span: Interval)

  /** The grouping key of `by_day_robot` and the unique key of the
      daily utilisation table. */
  type GroupKey = (Date, string)

  function KeyOf(p: Piece): GroupKey
  {
    (p.date, p.key)
  }

  /** The body of the day loop for day `d`: the clip of `[start, end)` to
      `[00:00, 23:59:59.999999]` of `d`, kept only when it is non-empty. */
  function ClipToDay(start: Time, end: Time, key: string, d: Date): (ps: seq<Piece>)
    ensures |ps| <= 1
    ensures ps != [] ==>
              && ps[0].date == d && ps[0].key == key
              && DayStart(d) <= ps[0].span.lo < ps[0].span.hi <= DayEnd(d)
              && start <= ps[0].span.lo && ps[0].span.hi <= end
  {
    var ds := DayStart(d);
    var de := DayEnd(d);
    if start >= de || end <= ds then []
    else
      var cs := Max(start, ds);
      var ce := Min(end, de);
      if ce > cs then [Piece(d, key, Interval(cs, ce))] else []
  }

  /** A piece lies within its own day, before the 23:59:59.999999 anchor,
      and has positive length. */
  predicate InDay(p: Piece)
  {
    DayStart(p.date) <= p.span.lo < p.span.hi <= DayEnd(p.date)
  }

  /** Piece `p` lies on a day in `[d, last]`, inside that day and inside `[start, end)`. */
  predicate PieceInRange(p: Piece, start: Time, end: Time, key: string, d: Date, last: Date)
  {
    && d <= p.date <= last
    && p.key == key
    && InDay(p)
    && start <= p.span.lo && p.span.hi <= end
  }

  /** `p` can come from job `j`: `j` is usable, `p` has its robot key, lies
      on a day from its start date to its end date, and inside the job. */
  predicate FromJob(j: Job, p: Piece)
  {
    && Usable(j)
    && p.key == RobotKey(j)
    && DateOf(j.start.value) <= p.date <= DateOf(j.end.value)
    && j.start.value <= p.span.lo && p.span.hi <= j.end.value
  }

  /** The day loop from day `d` to day `last`. */
  function PiecesFrom(start: Time, end: Time, key: string, d: Date, last: Date): (ps: seq<Piece>)
    ensures forall i :: 0 <= i < |ps| ==> PieceInRange(ps[i], start, end, key, d, last)
    ensures forall i :: 0 < i < |ps| ==> ps[i - 1].date < ps[i].date
    decreases last - d
  {
    if d > last then []
    else
      var here := ClipToDay(start, end, key, d);
      var rest := PiecesFrom(start, end, key, d + 1, last);
      assert forall i :: 0 <= i < |rest| ==> PieceInRange(rest[i], start, end, key, d, last);
      here + rest
  }

  /** The pieces one job contributes: none unless it is usable; otherwise
      one per day from its start date to its end date on which it has
      positive length, each inside that day and inside the job. */
  function DayPieces(j: Job): (ps: seq<Piece>)
    ensures !Usable(j) ==> ps == []
    ensures forall i :: 0 <= i < |ps| ==> InDay(ps[i]) && FromJob(j, ps[i])
    ensures forall i :: 0 < i < |ps| ==> ps[i - 1].date < ps[i].date
  {
    if !Usable(j) then []
    else
      var start := j.start.value;
      var end := j.end.value;
      PiecesFrom(start, end, RobotKey(j), DateOf(start), DateOf(end))
  }

  ghost predicate PieceCovers(ps: seq<Piece>, t: int)
  {
    exists i :: 0 <= i < |ps| && Covers(ps[i].span, t)
  }

  lemma PieceCoversAppend(a: seq<Piece>, b: seq<Piece>, t: int)
    ensures PieceCovers(a + b, t) <==> PieceCovers(a, t) || PieceCovers(b, t)
  {
    if PieceCovers(a, t) {
      var i :| 0 <= i < |a| && Covers(a[i].span, t);
      assert (a + b)[i] == a[i];
    }
    if PieceCovers(b, t) {
      var i :| 0 <= i < |b| && Covers(b[i].span, t);
      assert (a + b)[|a| + i] == b[i];
    }
    if PieceCovers(a + b, t) {
      var i :| 0 <= i < |a + b| && Covers((a + b)[i].span, t);
      if i < |a| {
        assert (a + b)[i] == a[i];
      } else {
        assert (a + b)[i] == b[i - |a|];
      }
    }
  }

  /** One day's clip covers exactly the instants of the job on that day
      before its 23:59:59.999999 anchor. */
  lemma ClipCovers(start: Time, end: Time, key: string, d: Date, t: int)
    ensures PieceCovers(ClipToDay(start, end, key, d), t) <==>
              start <= t < end && DayStart(d) <= t < DayEnd(d)
  {
    var ps := ClipToDay(start, end, key, d);
    if start <= t < end && DayStart(d) <= t < DayEnd(d) {
      assert Covers(ps[0].span, t);
    }
  }

  lemma {:induction false} PiecesFromCover(start: Time, end: Time, key: string, d: Date, last: Date, t: int)
    ensures PieceCovers(PiecesFrom(start, end, key, d, last), t) <==>
              start <= t < end && t != DayEnd(DateOf(t)) && d <= DateOf(t) <= last
    decreases last - d
  {
    if d <= last {
      PiecesFromCover(start, end, key, d + 1, last, t);
      ClipCovers(start, end, key, d, t);
      PieceCoversAppend(ClipToDay(start, end, key, d), PiecesFrom(start, end, key, d + 1, last), t);
      if DayStart(d) <= t <= DayEnd(d) {
        DateOfUnique(t, d);
      }
    }
  }

  /** A usable job's pieces cover exactly its own instants except the last
      microsecond of each day, which the inclusive 23:59:59.999999 anchor
      leaves out. */
  lemma DayPiecesCover(j: Job, t: int)
    requires Usable(j)
    ensures PieceCovers(DayPieces(j), t) <==>
              j.start.value <= t < j.end.value && t != DayEnd(DateOf(t))
  {
    var start := j.start.value;
    var end := j.end.value;
    PiecesFromCover(start, end, RobotKey(j), DateOf(start), DateOf(end), t);
    if start <= t < end {
      assert DateOf(start) <= DateOf(t) <= DateOf(end);
    }
  }

  /** A job from 23:00 on day `d` to 01:00 on day `d + 1` yields one piece
      per day: 60 minutes less one microsecond on `d` (cut at the inclusive
      day-end anchor) and a full 60 minutes on `d + 1`; no other day. */
  lemma MidnightSplit(j: Job, d: Date)
    requires j.start == Some(DayStart(d) + 23 * HOUR_US)
    requires j.end == Some(DayStart(d + 1) + HOUR_US)
    ensures DayPieces(j) == [
              Piece(d, RobotKey(j), Interval(DayStart(d) + 23 * HOUR_US, DayEnd(d))),
              Piece(d + 1, RobotKey(j), Interval(DayStart(d + 1), DayStart(d + 1) + HOUR_US))]
    ensures Len(DayPieces(j)[0].span) == HOUR_US - 1
    ensures Len(DayPieces(j)[1].span) == HOUR_US
  {
    var start := j.start.value;
    var end := j.end.value;
    DateOfUnique(start, d);
    DateOfUnique(end, d + 1);
    var k := RobotKey(j);
    assert ClipToDay(start, end, k, d) == [Piece(d, k, Interval(start, DayEnd(d)))];
    assert ClipToDay(start, end, k, d + 1) == [Piece(d + 1, k, Interval(DayStart(d + 1), end))];
    assert PiecesFrom(start, end, k, d + 2, d + 1) == [];
    assert PiecesFrom(start, end, k, d + 1, d + 1) == ClipToDay(start, end, k, d + 1) + [];
    assert DayPieces(j) == ClipToDay(start, end, k, d) + PiecesFrom(start, end, k, d + 1, d + 1);
  }

  /** The pieces of all jobs, in job order. */
  function AllPieces(jobs: seq<Job>): seq<Piece>
  {
    if jobs == [] then [] else DayPieces(jobs[0]) + AllPieces(jobs[1..])
  }

  /** `by_day_robot[(d, robot_key)].append(...)` for one piece. */
  function AddPiece(m: map<GroupKey, seq<Interval>>, p: Piece): map<GroupKey, seq<Interval>>
  {
    var k := KeyOf(p);
    m[k := (if k in m then m[k] else []) + [p.span]]
  }

  function AddPieces(m: map<GroupKey, seq<Interval>>, ps: seq<Piece>): map<GroupKey, seq<Interval>>
    decreases |ps|
  {
    if ps == [] then m else AddPieces(AddPiece(m, ps[0]), ps[1..])
  }

  /** `by_day_robot` after the job loop. */
  function ByDayRobot(jobs: seq<Job>): map<GroupKey, seq<Interval>>
  {
    AddPieces(map[], AllPieces(jobs))
  }

  /** The spans of the pieces with key `k`, in order: the reference
      definition of one group. */
  function SpansWithKey(ps: seq<Piece>, k: GroupKey): seq<Interval>
  {
    if ps == [] then []
    else (if KeyOf(ps[0]) == k then [ps[0].span] else []) + SpansWithKey(ps[1..], k)
  }

  lemma {:induction false} AddPiecesSpec(m: map<GroupKey, seq<Interval>>, ps: seq<Piece>, k: GroupKey)
    ensures k in AddPieces(m, ps) <==> k in m || SpansWithKey(ps, k) != []
    ensures k in AddPieces(m, ps) ==>
              AddPieces(m, ps)[k] == (if k in m then m[k] else []) + SpansWithKey(ps, k)
    decreases |ps|
  {
    if ps != [] {
      AddPiecesSpec(AddPiece(m, ps[0]), ps[1..], k);
      if KeyOf(ps[0]) == k {
        assert (if k in m then m[k] else []) + [ps[0].span] + SpansWithKey(ps[1..], k)
            == (if k in m then m[k] else []) + ([ps[0].span] + SpansWithKey(ps[1..], k));
      } else {
        assert SpansWithKey(ps, k) == SpansWithKey(ps[1..], k);
      }
    }
  }

  /** Each group holds exactly the spans of the pieces with its key, in
      job order, and a group exists exactly for the keys some piece has. */
  lemma GroupSpec(jobs: seq<Job>, k: GroupKey)
    ensures k in ByDayRobot(jobs) <==> SpansWithKey(AllPieces(jobs), k) != []
    ensures k in ByDayRobot(jobs) ==> ByDayRobot(jobs)[k] == SpansWithKey(AllPieces(jobs), k)
  {
    AddPiecesSpec(map[], AllPieces(jobs), k);
  }

  lemma {:induction false} AllPiecesUsable(jobs: seq<Job>)
    ensures AllPieces(jobs) == AllPieces(Filter(jobs, Usable))
  {
    if jobs != [] {
      AllPiecesUsable(jobs[1..]);
      var f := Filter(jobs, Usable);
      var rest := Filter(jobs[1..], Usable);
      if Usable(jobs[0]) {
        assert f == [jobs[0]] + rest;
        assert f[0] == jobs[0] && f[1..] == rest;
        assert AllPieces(f) == DayPieces(jobs[0]) + AllPieces(rest);
      } else {
        assert f == rest;
        assert AllPieces(jobs) == [] + AllPieces(jobs[1..]);
      }
    }
  }

  /** Jobs with a missing timestamp or with end <= start contribute nothing:
      the groups are those of the usable jobs alone. */
  lemma UnusableIgnored(jobs: seq<Job>)
    ensures ByDayRobot(jobs) == ByDayRobot(Filter(jobs, Usable))
  {
    AllPiecesUsable(jobs);
  }

  lemma {:induction false} SpansWithKeyBounds(ps: seq<Piece>, k: GroupKey)
    requires forall i :: 0 <= i < |ps| ==> InDay(ps[i])
    ensures Proper(SpansWithKey(ps, k))
    ensures Within(SpansWithKey(ps, k), DayStart(k.0), DayEnd(k.0))
  {
    if ps != [] {
      SpansWithKeyBounds(ps[1..], k);
    }
  }

  lemma {:induction false} SpansWithKeyWitness(ps: seq<Piece>, k: GroupKey) returns (m: nat)
    requires SpansWithKey(ps, k) != []
    ensures m < |ps| && KeyOf(ps[m]) == k
  {
    if KeyOf(ps[0]) == k {
      m := 0;
    } else {
      var m' := SpansWithKeyWitness(ps[1..], k);
      m := m' + 1;
    }
  }

  /** Job `j` can produce a piece with key `k`: it is usable, has robot key
      `k.1`, and `k.0` lies between its start date and its end date. */
  ghost predicate Produces(j: Job, k: GroupKey)
  {
    Usable(j) && RobotKey(j) == k.1 && DateOf(j.start.value) <= k.0 <= DateOf(j.end.value)
  }

  lemma {:induction false} AllPiecesInDay(jobs: seq<Job>)
    ensures forall i :: 0 <= i < |AllPieces(jobs)| ==> InDay(AllPieces(jobs)[i])
  {
    if jobs != [] {
      AllPiecesInDay(jobs[1..]);
      var here := DayPieces(jobs[0]);
      var rest := AllPieces(jobs[1..]);
      forall i | 0 <= i < |AllPieces(jobs)|
        ensures InDay(AllPieces(jobs)[i])
      {
        if i < |here| {
          assert AllPieces(jobs)[i] == here[i];
        } else {
          assert AllPieces(jobs)[i] == rest[i - |here|];
        }
      }
    }
  }

  lemma {:induction false} AllPiecesSource(jobs: seq<Job>, m: nat) returns (n: nat)
    requires m < |AllPieces(jobs)|
    ensures n < |jobs| && Produces(jobs[n], KeyOf(AllPieces(jobs)[m]))
  {
    var here := DayPieces(jobs[0]);
    var rest := AllPieces(jobs[1..]);
    assert AllPieces(jobs) == here + rest;
    if m < |here| {
      assert AllPieces(jobs)[m] == here[m];
      n := 0;
    } else {
      assert AllPieces(jobs)[m] == rest[m - |here|];
      var n' := AllPiecesSource(jobs[1..], m - |here|);
      n := n' + 1;
    }
  }

  /** Every group is non-empty, its spans have positive length and lie in
      that day's `[00:00, 23:59:59.999999]`, and its key comes from a usable
      job of that robot whose date range includes the day. */
  lemma GroupSound(jobs: seq<Job>, k: GroupKey)
    requires k in ByDayRobot(jobs)
    ensures ByDayRobot(jobs)[k] != []
    ensures Proper(ByDayRobot(jobs)[k])
    ensures Within(ByDayRobot(jobs)[k], DayStart(k.0), DayEnd(k.0))
    ensures exists n :: 0 <= n < |jobs| && Produces(jobs[n], k)
  {
    GroupSpec(jobs, k);
    var ps := AllPieces(jobs);
    AllPiecesInDay(jobs);
    SpansWithKeyBounds(ps, k);
    var m := SpansWithKeyWitness(ps, k);
    var n := AllPiecesSource(jobs, m);
  }

  /** One row of the daily utilisation table (its value columns). */
  datatype Row = Row(totalRuntimeHours: real, idleHours: real, utilizationPercent: real)

  /** Availability basis: the source counts every day as 24 hours. */
  const AVAILABLE_HOURS: real := 24.0

  /** The `total_seconds` loop over the merged spans: skip empty spans and
      re-clip each to the day before adding its length. */
  function BusyMicros(merged: seq<Interval>, ds: Time, de: Time): (us: int)
    ensures us >= 0
  {
    if merged == [] then 0
    else
      var iv := merged[0];
      var add :=
        if iv.hi <= iv.lo then 0
        else
          var cs := Max(iv.lo, ds);
          var ce := Min(iv.hi, de);
          if ce > cs then ce - cs else 0;
      add + BusyMicros(merged[1..], ds, de)
  }

  /** For spans already inside the day the defensive re-clip changes
      nothing: the busy time is the plain sum of lengths. */
  lemma {:induction false} BusyIsLength(merged: seq<Interval>, ds: Time, de: Time)
    requires Proper(merged) && Within(merged, ds, de)
    ensures BusyMicros(merged, ds, de) == Length(merged)
  {
    if merged != [] {
      BusyIsLength(merged[1..], ds, de);
    }
  }

  /** Sorted, separated, proper spans inside `[a, b]` add up to at most `b - a`. */
  lemma {:induction false} MergedLengthBound(s: seq<Interval>, a: int, b: int)
    requires IsMerged(s) && Proper(s) && Within(s, a, b) && s != []
    ensures Length(s) <= s[|s| - 1].hi - s[0].lo <= b - a
  {
    if |s| > 1 {
      var t := s[1..];
      assert IsMerged(t) && Proper(t) && Within(t, a, b);
      MergedLengthBound(t, a, b);
      assert Length(s) == Len(s[0]) + Length(t);
      assert t[|t| - 1] == s[|s| - 1] && t[0] == s[1];
      assert s[0].hi < s[1].lo;
    } else {
      assert Length(s) == Len(s[0]) + Length(s[1..]) && s[1..] == [];
    }
  }

  /** The value columns computed for one group on day `d`: runtime plus idle
      is exactly 24 hours, runtime lies in [0, 24] and utilisation is runtime
      as a percentage of 24 hours, hence within [0, 100]. */
  function ComputeRow(ranges: seq<Interval>, d: Date): (row: Row)
    ensures row.totalRuntimeHours + row.idleHours == AVAILABLE_HOURS
    ensures 0.0 <= row.totalRuntimeHours <= AVAILABLE_HOURS
    ensures 0.0 <= row.idleHours <= AVAILABLE_HOURS
    ensures 0.0 <= row.utilizationPercent <= 100.0
    ensures row.utilizationPercent * AVAILABLE_HOURS == row.totalRuntimeHours * 100.0
  {
    var merged := Merge(ranges);
    var totalSeconds := BusyMicros(merged, DayStart(d), DayEnd(d)) as real / SECOND_US as real;
    var totalHours := RealMin(24.0, totalSeconds / 3600.0);
    var utilization := totalHours / AVAILABLE_HOURS * 100.0;
    var idle := RealMax(0.0, AVAILABLE_HOURS - totalHours);
    Row(totalHours, idle, utilization)
  }

  /** For a group's spans (proper and inside the day), the runtime is the
      length of their union, measured on the merged list, in hours; it stays
      below 24 hours, so the 24-hour cap never binds. */
  lemma RuntimeIsUnionLength(ranges: seq<Interval>, d: Date)
    requires Proper(ranges) && Within(ranges, DayStart(d), DayEnd(d))
    ensures ComputeRow(ranges, d).totalRuntimeHours == Length(Merge(ranges)) as real / HOUR_US as real
    ensures ComputeRow(ranges, d).totalRuntimeHours < AVAILABLE_HOURS
  {
    var merged := Merge(ranges);
    MergeProper(ranges);
    MergeWithin(ranges, DayStart(d), DayEnd(d));
    BusyIsLength(merged, DayStart(d), DayEnd(d));
    if merged != [] {
      MergedLengthBound(merged, DayStart(d), DayEnd(d));
    }
    HoursOfDay(Length(merged));
  }

  /** Microseconds to hours through seconds, as the row computes them; less
      than a day stays under 24 hours. */
  lemma HoursOfDay(len: int)
    requires 0 <= len < DAY_US
    ensures len as real / SECOND_US as real / 3600.0 == len as real / HOUR_US as real
    ensures len as real / HOUR_US as real < AVAILABLE_HOURS
  {
  }

  /** Two overlapping jobs of one robot on one day, 08:00-08:45 and
      08:30-09:00, count once: one hour of runtime, 23 hours idle,
      100/24 percent utilisation. */
  lemma OverlapCountsOnce(d: Date)
    ensures var row := ComputeRow([Interval(DayStart(d) + 8 * HOUR_US, DayStart(d) + 8 * HOUR_US + 45 * MINUTE_US),
                                   Interval(DayStart(d) + 8 * HOUR_US + 30 * MINUTE_US, DayStart(d) + 9 * HOUR_US)], d);
            row == Row(1.0, 23.0, 100.0 / 24.0)
  {
    var a := Interval(DayStart(d) + 8 * HOUR_US, DayStart(d) + 8 * HOUR_US + 45 * MINUTE_US);
    var b := Interval(DayStart(d) + 8 * HOUR_US + 30 * MINUTE_US, DayStart(d) + 9 * HOUR_US);
    OverlapBusy(a, b, d);
    OneBusyHour([a, b], d);
  }

  lemma OverlapBusy(a: Interval, b: Interval, d: Date)
    requires a == Interval(DayStart(d) + 8 * HOUR_US, DayStart(d) + 8 * HOUR_US + 45 * MINUTE_US)
    requires b == Interval(DayStart(d) + 8 * HOUR_US + 30 * MINUTE_US, DayStart(d) + 9 * HOUR_US)
    ensures BusyMicros(Merge([a, b]), DayStart(d), DayEnd(d)) == HOUR_US
  {
    MergeOverlappingPair(a, b);
    BusyOfOne(Interval(a.lo, b.hi), DayStart(d), DayEnd(d));
  }

  lemma BusyOfOne(m: Interval, ds: Time, de: Time)
    requires ds <= m.lo < m.hi <= de
    ensures BusyMicros([m], ds, de) == m.hi - m.lo
  {
    assert [m][1..] == [];
  }

  lemma OneBusyHour(ranges: seq<Interval>, d: Date)
    requires BusyMicros(Merge(ranges), DayStart(d), DayEnd(d)) == HOUR_US
    ensures ComputeRow(ranges, d) == Row(1.0, 23.0, 100.0 / 24.0)
  {
    var secs := HOUR_US as real / SECOND_US as real;
    assert secs == 3600.0;
    assert RealMin(24.0, secs / 3600.0) == 1.0;
  }
}
