/** The dashboard's own computations: the duration labels of the process
    table, the robot key of the job loader, and the "idle per day" panel,
    which sweeps each robot's jobs of a completed day in start order and
    adds up the gaps between them. */
module Dashboard {
  import opened Text
  import opened Lists
  import opened Jobs
  import opened Intervals
  import Utilization

  // ---------------------------------------------------------------------------
  // Duration labels
  // ---------------------------------------------------------------------------

  /** Python's `round(x)` on a float: the nearest integer, ties to the even
      neighbour. */
  function RoundHalfEven(x: real): (r: int)
    ensures -0.5 <= r as real - x <= 0.5
    ensures r as real - x == 0.5 || r as real - x == -0.5 ==> r % 2 == 0
  {
    var f := x.Floor;
    var frac := x - f as real;
    if frac < 0.5 then f
    else if frac > 0.5 then f + 1
    else if f % 2 == 0 then f
    else f + 1
  }

  /** `_format_duration`: a missing value (`None` stands for pandas' NaN) or
      a negative one shows as a dash; otherwise the rounded seconds show as
      "N s" below a minute, "M min" below an hour, and "Hh MM min" above,
      dropping " 00 min" on the full hour. */
  function FormatDuration(seconds: Option<real>): (s: string)
    ensures s == "—" <==> seconds.None? || seconds.value < 0.0
  {
    if seconds.None? || seconds.value < 0.0 then "—"
    else FormatSeconds(RoundHalfEven(seconds.value))
  }

  /** The label of `sec` whole, non-negative seconds. */
  function FormatSeconds(sec: nat): string
  {
    if sec < 60 then NatToString(sec) + " s"
    else
      var mins := sec / 60;
      if mins < 60 then NatToString(mins) + " min"
      else HoursText(mins / 60, mins % 60)
  }

  /** `f"{h}h {m:02d} min" if m else f"{h}h"` */
  function HoursText(h: nat, m: nat): string
  {
    if m != 0 then NatToString(h) + "h " + Pad2(m) + " min" else NatToString(h) + "h"
  }

  predicate EndsWith(s: string, suffix: string)
  {
    |suffix| <= |s| && s[|s| - |suffix|..] == suffix
  }

  /** Reads a duration label back as the number of seconds it shows:
      "N s", "Hh", "M min" and "Hh MM min"; anything else is `None`. */
  function ParseDuration(s: string): Option<int>
  {
    if |s| > 2 && EndsWith(s, " s") && AllDigits(s[..|s| - 2]) then
      Some(Value(s[..|s| - 2]))
    else if |s| > 1 && s[|s| - 1] == 'h' && AllDigits(s[..|s| - 1]) then
      Some(3600 * Value(s[..|s| - 1]))
    else if EndsWith(s, " min") then
      var p := s[..|s| - 4];
      if p != [] && AllDigits(p) then Some(60 * Value(p))
      else if |p| > 4 && p[|p| - 4..|p| - 2] == "h " && AllDigits(p[..|p| - 4]) && AllDigits(p[|p| - 2..]) then
        Some(3600 * Value(p[..|p| - 4]) + 60 * Value(p[|p| - 2..]))
      else None
    else None
  }

  /** The seconds a label shows for `sec` rounded seconds: all of them below
      a minute, whole minutes from there on. */
  function Shown(sec: nat): nat
  {
    if sec < 60 then sec else sec - sec % 60
  }

  /** Every label of a present, non-negative duration reads back as the
      rounded seconds, cut to whole minutes from one minute upwards; so it
      is never more than a minute short, and exact below a minute. */
  lemma FormatDurationReadsBack(x: real)
    requires x >= 0.0
    ensures RoundHalfEven(x) >= 0
    ensures ParseDuration(FormatDuration(Some(x))) == Some(Shown(RoundHalfEven(x)))
    ensures 0 <= RoundHalfEven(x) - Shown(RoundHalfEven(x)) < 60
    ensures RoundHalfEven(x) < 60 ==> Shown(RoundHalfEven(x)) == RoundHalfEven(x)
  {
    FormatSecondsReadsBack(RoundHalfEven(x));
  }

  lemma FormatSecondsReadsBack(sec: nat)
    ensures ParseDuration(FormatSeconds(sec)) == Some(Shown(sec))
  {
    if sec < 60 {
      SecondsLabel(sec);
    } else if sec / 60 < 60 {
      MinutesCase(sec);
    } else {
      HoursCase(sec);
    }
  }

  lemma MinutesCase(sec: nat)
    requires 60 <= sec && sec / 60 < 60
    ensures ParseDuration(FormatSeconds(sec)) == Some(Shown(sec))
  {
    MinutesLabel(sec / 60);
  }

  lemma HoursCase(sec: nat)
    requires sec / 60 >= 60
    ensures ParseDuration(FormatSeconds(sec)) == Some(Shown(sec))
  {
    WholeMinutes(sec);
    HoursTextReadsBack(sec / 60 / 60, sec / 60 % 60);
  }

  lemma WholeMinutes(sec: nat)
    ensures 3600 * (sec / 60 / 60) + 60 * (sec / 60 % 60) == sec - sec % 60
  {
  }

  lemma HoursTextReadsBack(h: nat, m: nat)
    requires m < 60
    ensures ParseDuration(HoursText(h, m)) == Some(3600 * h + 60 * m)
  {
    if m != 0 {
      HoursMinutesLabel(h, m);
    } else {
      HoursLabel(h);
    }
  }

  lemma SecondsLabel(n: nat)
    ensures ParseDuration(NatToString(n) + " s") == Some(n)
  {
    var s := NatToString(n) + " s";
    assert s[..|s| - 2] == NatToString(n);
    assert s[|s| - 2..] == " s";
  }

  lemma HoursLabel(h: nat)
    ensures ParseDuration(NatToString(h) + "h") == Some(3600 * h)
  {
    var s := NatToString(h) + "h";
    assert s[..|s| - 1] == NatToString(h);
    assert !EndsWith(s, " s") by {
      assert s[|s| - 1] == 'h';
    }
  }

  lemma MinutesLabel(n: nat)
    ensures ParseDuration(NatToString(n) + " min") == Some(60 * n)
  {
    var s := NatToString(n) + " min";
    assert s[..|s| - 4] == NatToString(n);
    assert s[|s| - 4..] == " min";
    assert s[|s| - 1] == 'n';
  }

  lemma HoursMinutesLabel(h: nat, m: nat)
    requires m < 60
    ensures ParseDuration(NatToString(h) + "h " + Pad2(m) + " min") == Some(3600 * h + 60 * m)
  {
    Pad2Spec(m);
    var hs, ms := NatToString(h), Pad2(m);
    var p := hs + "h " + ms;
    var s := p + " min";
    assert s[..|s| - 4] == p;
    assert s[|s| - 4..] == " min";
    assert s[|s| - 1] == 'n';
    assert p[|hs|] == 'h';
    assert p[|p| - 4..|p| - 2] == "h ";
    assert p[..|p| - 4] == hs;
    assert p[|p| - 2..] == ms;
  }

  /** 59.5 seconds round to 60 and show as "1 min"; 0.5 rounds to the
      even 0 and shows as "0 s". */
  lemma FormatDurationRounding()
    ensures FormatDuration(Some(59.5)) == "1 min"
    ensures FormatDuration(Some(0.5)) == "0 s"
  {
    assert RoundHalfEven(59.5) == 60;
    assert RoundHalfEven(0.5) == 0;
    assert FormatSeconds(60) == NatToString(1) + " min";
    assert NatToString(1) == "1";
    assert NatToString(0) == "0";
  }

  /** 3600 seconds show as "1h" and 3725 as "1h 02 min". */
  lemma FormatDurationHours()
    ensures FormatDuration(Some(3600.0)) == "1h"
    ensures FormatDuration(Some(3725.0)) == "1h 02 min"
  {
    assert RoundHalfEven(3600.0) == 3600;
    assert RoundHalfEven(3725.0) == 3725;
    assert FormatSeconds(3600) == HoursText(1, 0);
    assert FormatSeconds(3725) == HoursText(1, 2);
    assert NatToString(1) == "1";
    assert Pad2(2) == "02";
  }

  // ---------------------------------------------------------------------------
  // Idle gaps of one robot on one day
  // ---------------------------------------------------------------------------

  /** The running state of the sweep: the idle microseconds found so far
      and the end of the busy time seen so far (`prev_end`). */
  datatype Sweep = Sweep(idle: int, prevEnd: Time)

  /** `s_in, e_in = max(s, day_start), min(e, day_end)` */
  function Clip(iv: Interval, ds: Time, de: Time): Interval
  {
    Interval(Max(iv.lo, ds), Min(iv.hi, de))
  }

  /** One job of the sweep: an empty clip is skipped; otherwise the gap
      between the busy time so far and the clipped start counts as idle,
      and the busy time extends to the clipped end. */
  function Step(st: Sweep, iv: Interval, ds: Time, de: Time): Sweep
  {
    var c := Clip(iv, ds, de);
    if c.hi <= c.lo then st
    else Sweep(st.idle + (if c.lo > st.prevEnd then c.lo - st.prevEnd else 0), Max(st.prevEnd, c.hi))
  }

  function SweepFrom(st: Sweep, ivs: seq<Interval>, ds: Time, de: Time): Sweep
    decreases |ivs|
  {
    if ivs == [] then st else SweepFrom(Step(st, ivs[0], ds, de), ivs[1..], ds, de)
  }

  /** The sweep of one robot's jobs (in start order) starting at the day
      start, plus the tail gap up to the day end, in microseconds. */
  function RobotIdleMicros(ivs: seq<Interval>, ds: Time, de: Time): int
  {
    var st := SweepFrom(Sweep(0, ds), ivs, ds, de);
    st.idle + (if st.prevEnd < de then de - st.prevEnd else 0)
  }

  /** The jobs' non-empty clips to the day, in the jobs' order. */
  function ClipAll(ivs: seq<Interval>, ds: Time, de: Time): (r: seq<Interval>)
    ensures Proper(r) && Within(r, ds, de)
    ensures |r| <= |ivs|
  {
    if ivs == [] then []
    else
      var c := Clip(ivs[0], ds, de);
      var rest := ClipAll(ivs[1..], ds, de);
      if c.hi <= c.lo then rest else [c] + rest
  }

  /** Skipping empty clips and clipping inside the sweep come to the same
      as sweeping the non-empty clips. */
  lemma {:induction false} SweepClipAll(st: Sweep, ivs: seq<Interval>, ds: Time, de: Time)
    ensures SweepFrom(st, ivs, ds, de) == SweepFrom(st, ClipAll(ivs, ds, de), ds, de)
    decreases |ivs|
  {
    if ivs != [] {
      var c := Clip(ivs[0], ds, de);
      SweepClipAll(Step(st, ivs[0], ds, de), ivs[1..], ds, de);
      if c.lo < c.hi {
        var r := [c] + ClipAll(ivs[1..], ds, de);
        assert r[0] == c && r[1..] == ClipAll(ivs[1..], ds, de);
        assert Clip(c, ds, de) == c;
      }
    }
  }

  /** Clipping keeps every start at or above the clip of a common lower
      bound. */
  lemma {:induction false} ClipAllAbove(ivs: seq<Interval>, ds: Time, de: Time, b: int)
    requires forall i :: 0 <= i < |ivs| ==> b <= ivs[i].lo
    ensures forall i :: 0 <= i < |ClipAll(ivs, ds, de)| ==> Max(b, ds) <= ClipAll(ivs, ds, de)[i].lo
  {
    if ivs != [] {
      ClipAllAbove(ivs[1..], ds, de, b);
    }
  }

  /** Jobs sorted by start stay sorted by start once clipped. */
  lemma {:induction false} ClipAllSorted(ivs: seq<Interval>, ds: Time, de: Time)
    requires SortedByStart(ivs)
    ensures SortedByStart(ClipAll(ivs, ds, de))
  {
    if ivs != [] {
      ClipAllSorted(ivs[1..], ds, de);
      ClipAllAbove(ivs[1..], ds, de, ivs[0].lo);
    }
  }

  /** The sweep follows the merge loop: while the merged list so far ends
      at `prevEnd`, the idle time is the stretch from the day start to
      there minus the merged length. */
  lemma {:induction false} SweepFollowsFold(st: Sweep, out: seq<Interval>, rest: seq<Interval>, ds: Time, de: Time)
    requires out != [] && IsMerged(out) && Proper(out) && Within(out, ds, de)
    requires SortedByStart(rest) && Proper(rest) && Within(rest, ds, de)
    requires rest != [] ==> out[|out| - 1].lo <= rest[0].lo
    requires st.prevEnd == out[|out| - 1].hi
    requires st.idle == st.prevEnd - ds - Length(out)
    ensures Fold(out, rest) != []
    ensures SweepFrom(st, rest, ds, de).prevEnd == Fold(out, rest)[|Fold(out, rest)| - 1].hi
    ensures SweepFrom(st, rest, ds, de).idle == SweepFrom(st, rest, ds, de).prevEnd - ds - Length(Fold(out, rest))
    decreases |rest|
  {
    if rest != [] {
      var iv := rest[0];
      var next := Absorb(out, iv);
      var st' := Step(st, iv, ds, de);
      AbsorbStep(st, out, iv, ds, de);
      AbsorbBounds(out, iv, ds, de);
      TailFacts(rest, ds, de);
      assert Fold(out, rest) == Fold(next, rest[1..]);
      assert SweepFrom(st, rest, ds, de) == SweepFrom(st', rest[1..], ds, de);
      SweepFollowsFold(st', next, rest[1..], ds, de);
    }
  }

  lemma TailFacts(rest: seq<Interval>, ds: Time, de: Time)
    requires rest != [] && SortedByStart(rest) && Proper(rest) && Within(rest, ds, de)
    ensures SortedByStart(rest[1..]) && Proper(rest[1..]) && Within(rest[1..], ds, de)
    ensures rest[0].lo < rest[0].hi && ds <= rest[0].lo && rest[0].hi <= de
    ensures |rest| > 1 ==> rest[0].lo <= rest[1..][0].lo
  {
  }

  /** One step of both loops keeps the correspondence. */
  lemma AbsorbStep(st: Sweep, out: seq<Interval>, iv: Interval, ds: Time, de: Time)
    requires out != [] && IsMerged(out) && Within(out, ds, de)
    requires iv.lo < iv.hi && ds <= iv.lo && iv.hi <= de
    requires out[|out| - 1].lo <= iv.lo
    requires st.prevEnd == out[|out| - 1].hi
    requires st.idle == st.prevEnd - ds - Length(out)
    ensures Step(st, iv, ds, de).prevEnd == Absorb(out, iv)[|Absorb(out, iv)| - 1].hi
    ensures Step(st, iv, ds, de).idle == Step(st, iv, ds, de).prevEnd - ds - Length(Absorb(out, iv))
  {
    var init, last := out[..|out| - 1], out[|out| - 1];
    LengthInitLast(out);
    if iv.lo <= last.hi {
      var merged := Interval(last.lo, Max(last.hi, iv.hi));
      assert Absorb(out, iv) == init + [merged];
      StepOverlapping(st, init, last, iv, ds, de);
    } else {
      assert Absorb(out, iv) == out + [iv];
      StepDisjoint(st, out, iv, ds, de);
    }
  }

  /** A job starting inside the busy time extends it and adds no idle
      time, as widening the last merged interval adds no gap. */
  lemma StepOverlapping(st: Sweep, init: seq<Interval>, last: Interval, iv: Interval, ds: Time, de: Time)
    requires iv.lo < iv.hi && ds <= iv.lo && iv.hi <= de
    requires iv.lo <= last.hi && last.lo <= iv.lo
    requires st.prevEnd == last.hi
    requires st.idle == st.prevEnd - ds - (Length(init) + Len(last))
    ensures var merged := Interval(last.lo, Max(last.hi, iv.hi));
            && Step(st, iv, ds, de).prevEnd == merged.hi
            && Step(st, iv, ds, de).idle == merged.hi - ds - Length(init + [merged])
  {
    assert Clip(iv, ds, de) == iv;
    LengthSnoc(init, Interval(last.lo, Max(last.hi, iv.hi)));
  }

  /** A job starting after the busy time adds the gap before it as idle
      time, as the merge loop starts a new interval. */
  lemma StepDisjoint(st: Sweep, out: seq<Interval>, iv: Interval, ds: Time, de: Time)
    requires iv.lo < iv.hi && ds <= iv.lo && iv.hi <= de
    requires st.prevEnd < iv.lo
    requires st.idle == st.prevEnd - ds - Length(out)
    ensures Step(st, iv, ds, de).prevEnd == iv.hi
    ensures Step(st, iv, ds, de).idle == iv.hi - ds - Length(out + [iv])
  {
    assert Clip(iv, ds, de) == iv;
    LengthSnoc(out, iv);
  }

  lemma LengthInitLast(s: seq<Interval>)
    requires s != []
    ensures Length(s) == Length(s[..|s| - 1]) + Len(s[|s| - 1])
  {
    assert s == s[..|s| - 1] + [s[|s| - 1]];
    LengthSnoc(s[..|s| - 1], s[|s| - 1]);
  }

  lemma LengthSnoc(s: seq<Interval>, x: Interval)
    ensures Length(s + [x]) == Length(s) + Len(x)
  {
    SumIntAppend(s, [x], Len);
    assert [x][1..] == [];
  }

  /** Proper intervals have a non-negative total length. */
  lemma {:induction false} LengthNonNegative(s: seq<Interval>)
    requires Proper(s)
    ensures Length(s) >= 0
  {
    if s != [] {
      LengthNonNegative(s[1..]);
    }
  }

  /** The idle time of one robot on one day, for its jobs in start order,
      is the day's span minus the length of the union of the jobs' clips,
      measured on the merged list; hence it lies between 0 and the span. */
  lemma RobotIdleIsGapLength(ivs: seq<Interval>, ds: Time, de: Time)
    requires ds <= de && SortedByStart(ivs)
    ensures RobotIdleMicros(ivs, ds, de) == (de - ds) - Length(Merge(ClipAll(ivs, ds, de)))
    ensures 0 <= RobotIdleMicros(ivs, ds, de) <= de - ds
  {
    var c := ClipAll(ivs, ds, de);
    SweepClipAll(Sweep(0, ds), ivs, ds, de);
    ClipAllSorted(ivs, ds, de);
    MergeProper(c);
    MergeWithin(c, ds, de);
    LengthNonNegative(Merge(c));
    if c != [] {
      SweepOfClips(c, ds, de);
      MergeOfSorted(c);
      Utilization.MergedLengthBound(Merge(c), ds, de);
    }
  }

  /** The sweep over non-empty, sorted clips ends where the merge loop's
      output ends, with the stretch up to there minus the merged length
      idle. */
  lemma SweepOfClips(c: seq<Interval>, ds: Time, de: Time)
    requires c != [] && SortedByStart(c) && Proper(c) && Within(c, ds, de)
    ensures Fold([c[0]], c[1..]) != []
    ensures SweepFrom(Sweep(0, ds), c, ds, de).prevEnd == Fold([c[0]], c[1..])[|Fold([c[0]], c[1..])| - 1].hi
    ensures SweepFrom(Sweep(0, ds), c, ds, de).idle
         == SweepFrom(Sweep(0, ds), c, ds, de).prevEnd - ds - Length(Fold([c[0]], c[1..]))
  {
    var st := FirstStep(c[0], ds, de);
    assert SweepFrom(Sweep(0, ds), c, ds, de) == SweepFrom(st, c[1..], ds, de);
    SingleMerged(c[0], ds, de);
    assert SortedByStart(c[1..]) && Proper(c[1..]) && Within(c[1..], ds, de);
    SweepFollowsFold(st, [c[0]], c[1..], ds, de);
  }

  lemma SingleMerged(iv: Interval, ds: Time, de: Time)
    requires iv.lo < iv.hi && ds <= iv.lo && iv.hi <= de
    ensures IsMerged([iv]) && Proper([iv]) && Within([iv], ds, de)
  {
  }

  /** The first clip leaves the gap from the day start to it as idle time. */
  lemma FirstStep(iv: Interval, ds: Time, de: Time) returns (st: Sweep)
    requires iv.lo < iv.hi && ds <= iv.lo && iv.hi <= de
    ensures st == Step(Sweep(0, ds), iv, ds, de)
    ensures st.prevEnd == iv.hi && st.idle == st.prevEnd - ds - Length([iv])
  {
    assert Clip(iv, ds, de) == iv;
    LengthSnoc([], iv);
    assert [] + [iv] == [iv];
    st := Step(Sweep(0, ds), iv, ds, de);
  }

  /** Merging a list already sorted by start folds it as it stands. */
  lemma MergeOfSorted(c: seq<Interval>)
    requires c != [] && SortedByStart(c)
    ensures Merge(c) == Fold([c[0]], c[1..])
  {
    assert SortedBy(c, StartLe);
    SortOfSorted(c, StartLe);
  }

  /** For spans already inside the day (the backend's day pieces of one
      robot), the dashboard's idle minutes and 60 times the backend's
      runtime hours add up to the day's span: the two views agree. */
  lemma IdleComplementsRuntime(ranges: seq<Interval>, d: Date)
    requires Proper(ranges) && Within(ranges, DayStart(d), DayEnd(d))
    ensures Minutes(RobotIdleMicros(SortByStart(ranges), DayStart(d), DayEnd(d)))
            + 60.0 * Utilization.ComputeRow(ranges, d).totalRuntimeHours
         == Minutes(DayEnd(d) - DayStart(d))
  {
    var ds, de := DayStart(d), DayEnd(d);
    var len := Length(Merge(ranges));
    IdleOfSortedSpans(ranges, ds, de);
    Utilization.RuntimeIsUnionLength(ranges, d);
    MinutesSplit(de - ds, len);
  }

  lemma IdleOfSortedSpans(ranges: seq<Interval>, ds: Time, de: Time)
    requires ds <= de && Proper(ranges) && Within(ranges, ds, de)
    ensures RobotIdleMicros(SortByStart(ranges), ds, de) == (de - ds) - Length(Merge(ranges))
  {
    var sorted := SortByStart(ranges);
    PermutationMembers(ranges, sorted);
    assert Proper(sorted) && Within(sorted, ds, de);
    ClipAllOfInside(sorted, ds, de);
    RobotIdleIsGapLength(sorted, ds, de);
    MergeOfSortedCopy(ranges);
  }

  lemma MinutesSplit(span: int, len: int)
    ensures Minutes(span - len) + 60.0 * (len as real / HOUR_US as real) == Minutes(span)
  {
  }

  /** Clipping spans already inside the day changes nothing. */
  lemma {:induction false} ClipAllOfInside(ivs: seq<Interval>, ds: Time, de: Time)
    requires Proper(ivs) && Within(ivs, ds, de)
    ensures ClipAll(ivs, ds, de) == ivs
  {
    if ivs != [] {
      ClipAllOfInside(ivs[1..], ds, de);
      assert Clip(ivs[0], ds, de) == ivs[0];
      assert ivs == [ivs[0]] + ivs[1..];
    }
  }

  /** Sorting before merging makes no difference. */
  lemma MergeOfSortedCopy(ranges: seq<Interval>)
    ensures Merge(SortByStart(ranges)) == Merge(ranges)
  {
    var sorted := SortByStart(ranges);
    if ranges != [] {
      assert SortedBy(sorted, StartLe);
      SortOfSorted(sorted, StartLe);
    }
  }

  // ---------------------------------------------------------------------------
  // Idle per day
  // ---------------------------------------------------------------------------

  /** The cap on a day's idle total: two robots times 24 hours, in minutes. */
  const DAY_IDLE_CAP_MINUTES: real := 2880.0

  /** A loaded job the panel counts for day `d`: both timestamps present,
      starting before the day's end and ending at or after its start, and
      run by an RPA robot. */
  predicate OnDay(j: Job, d: Date)
  {
    j.start.Some? && j.end.Some? && j.start.value < DayEnd(d) && j.end.value >= DayStart(d)
    && IsRpa(RobotKey(j))
  }

  /** The job's `(start_time, end_time)`. */
  function Span(j: Job): Interval
  {
    Interval(j.start.GetOr(0), j.end.GetOr(0))
  }

  function DayJobs(jobs: seq<Job>, d: Date): seq<Job>
  {
    Filter(jobs, (j: Job) => OnDay(j, d))
  }

  /** `day_jobs[day_jobs["robot_key"] == rk].sort_values("start_time")` */
  function RobotSpans(dayJobs: seq<Job>, rk: string): seq<Interval>
  {
    SortByStart(SpansOf(dayJobs, rk))
  }

  /** The spans of robot `rk`'s jobs, in table order. */
  function SpansOf(dayJobs: seq<Job>, rk: string): seq<Interval>
  {
    if dayJobs == [] then []
    else (if RobotKey(dayJobs[0]) == rk then [Span(dayJobs[0])] else []) + SpansOf(dayJobs[1..], rk)
  }

  /** The minutes robot `rk` sat idle on day `d`. */
  function RobotIdleMinutes(dayJobs: seq<Job>, d: Date, rk: string): real
  {
    Minutes(RobotIdleMicros(RobotSpans(dayJobs, rk), DayStart(d), DayEnd(d)))
  }

  /** The day's total: `None` for a day without RPA jobs (the panel skips
      it), else the idle minutes of every robot seen that day, added up and
      capped at two days' worth of minutes. */
  function DayIdleMinutes(jobs: seq<Job>, d: Date): Option<real>
  {
    var dj := DayJobs(jobs, d);
    if dj == [] then None
    else Some(RealMin(SumReal(RobotsOn(jobs, d), RobotIdle(dj, d)), DAY_IDLE_CAP_MINUTES))
  }

  /** `day_jobs["robot_key"].unique()` */
  function RobotsOn(jobs: seq<Job>, d: Date): seq<string>
  {
    Distinct(Map(DayJobs(jobs, d), RobotKey))
  }

  /** `RobotIdleMinutes` of the day's jobs as a function of the robot. */
  function RobotIdle(dayJobs: seq<Job>, d: Date): string -> real
  {
    (rk: string) => RobotIdleMinutes(dayJobs, d, rk)
  }

  /** A robot's idle minutes lie between none and the whole day, which
      is one microsecond short of 1440 minutes as the day ends at
      23:59:59.999999. */
  lemma RobotIdleMinutesSpec(dayJobs: seq<Job>, d: Date, rk: string)
    ensures 0.0 <= RobotIdleMinutes(dayJobs, d, rk) <= Minutes(DAY_US - 1)
  {
    IdleMinutesBounds(RobotSpans(dayJobs, rk), DayStart(d), DayEnd(d));
  }

  lemma IdleMinutesBounds(ivs: seq<Interval>, ds: Time, de: Time)
    requires ds <= de && SortedByStart(ivs)
    ensures 0.0 <= Minutes(RobotIdleMicros(ivs, ds, de)) <= Minutes(de - ds)
  {
    RobotIdleRange(ivs, ds, de);
    MinutesMonotone(RobotIdleMicros(ivs, ds, de), de - ds);
  }

  lemma RobotIdleRange(ivs: seq<Interval>, ds: Time, de: Time)
    requires ds <= de && SortedByStart(ivs)
    ensures 0 <= RobotIdleMicros(ivs, ds, de) <= de - ds
  {
    RobotIdleIsGapLength(ivs, ds, de);
  }

  /** A robot without jobs that day is idle the whole day. */
  lemma NoJobsWholeDayIdle(dayJobs: seq<Job>, d: Date, rk: string)
    requires forall i :: 0 <= i < |dayJobs| ==> RobotKey(dayJobs[i]) != rk
    ensures RobotIdleMinutes(dayJobs, d, rk) == Minutes(DAY_US - 1)
  {
    NoSpans(dayJobs, rk);
    assert RobotSpans(dayJobs, rk) == [];
    assert RobotIdleMicros([], DayStart(d), DayEnd(d)) == DAY_US - 1;
  }

  lemma {:induction false} NoSpans(dayJobs: seq<Job>, rk: string)
    requires forall i :: 0 <= i < |dayJobs| ==> RobotKey(dayJobs[i]) != rk
    ensures SpansOf(dayJobs, rk) == []
  {
    if dayJobs != [] {
      NoSpans(dayJobs[1..], rk);
    }
  }

  /** A day has a total exactly when some RPA job overlaps it; the total
      lies between 0 and the cap. */
  lemma DayIdleSpec(jobs: seq<Job>, d: Date)
    ensures DayIdleMinutes(jobs, d).None? <==> forall i :: 0 <= i < |jobs| ==> !OnDay(jobs[i], d)
    ensures DayIdleMinutes(jobs, d).Some? ==> 0.0 <= DayIdleMinutes(jobs, d).value <= DAY_IDLE_CAP_MINUTES
  {
    var dj := DayJobs(jobs, d);
    FilterAllOrNone(jobs, (j: Job) => OnDay(j, d));
    if dj != [] {
      RobotsIdleBounds(dj, d, RobotsOn(jobs, d));
    }
  }

  /** Each robot adds between 0 and a day's minutes. */
  lemma RobotsIdleBounds(dj: seq<Job>, d: Date, robots: seq<string>)
    ensures 0.0 <= SumReal(robots, RobotIdle(dj, d)) <= (|robots| as real) * Minutes(DAY_US - 1)
  {
    EveryRobotIdleBounded(dj, d);
    SumOfBounded(robots, RobotIdle(dj, d), Minutes(DAY_US - 1));
  }

  lemma EveryRobotIdleBounded(dj: seq<Job>, d: Date)
    ensures forall rk :: 0.0 <= RobotIdle(dj, d)(rk) <= Minutes(DAY_US - 1)
  {
    forall rk
      ensures 0.0 <= RobotIdle(dj, d)(rk) <= Minutes(DAY_US - 1)
    {
      RobotIdleMinutesSpec(dj, d, rk);
    }
  }

  lemma SumOfBounded<T>(s: seq<T>, f: T -> real, hi: real)
    requires forall x :: 0.0 <= f(x) <= hi
    ensures 0.0 <= SumReal(s, f) <= (|s| as real) * hi
  {
    SumRealBounds(s, f, 0.0, hi);
  }

  lemma DayMinutesBelow()
    ensures Minutes(DAY_US - 1) < 1440.0
  {
  }

  /** With at most two robots seen that day the cap never binds: the total
      is the plain sum of the robots' idle minutes and stays below it. */
  lemma CapUnreachedForTwoRobots(jobs: seq<Job>, d: Date)
    requires DayJobs(jobs, d) != [] && |RobotsOn(jobs, d)| <= 2
    ensures DayIdleMinutes(jobs, d) == Some(SumReal(RobotsOn(jobs, d), RobotIdle(DayJobs(jobs, d), d)))
    ensures DayIdleMinutes(jobs, d).value < DAY_IDLE_CAP_MINUTES
  {
    var sum := SumReal(RobotsOn(jobs, d), RobotIdle(DayJobs(jobs, d), d));
    assert DayIdleMinutes(jobs, d) == Some(RealMin(sum, DAY_IDLE_CAP_MINUTES));
    EveryRobotIdleBounded(DayJobs(jobs, d), d);
    SumBelowCap(RobotsOn(jobs, d), RobotIdle(DayJobs(jobs, d), d));
  }

  lemma SumBelowCap(robots: seq<string>, f: string -> real)
    requires |robots| <= 2 && forall rk :: 0.0 <= f(rk) <= Minutes(DAY_US - 1)
    ensures SumReal(robots, f) < DAY_IDLE_CAP_MINUTES
  {
    DayMinutesBelow();
    assert 0.0 <= Minutes(DAY_US - 1);
    SumOfAtMostTwo(robots, f, Minutes(DAY_US - 1));
  }
  lemma SumOfAtMostTwo<T>(s: seq<T>, f: T -> real, hi: real)
    requires |s| <= 2 && 0.0 <= hi && forall x :: 0.0 <= f(x) <= hi
    ensures SumReal(s, f) <= 2.0 * hi
  {
    if s != [] {
      assert SumReal(s, f) == f(s[0]) + SumReal(s[1..], f);
      if |s| == 2 {
        assert SumReal(s[1..], f) == f(s[1]) + SumReal(s[2..], f);
      } else {
        assert SumReal(s[1..], f) == 0.0;
      }
    }
  }

  // ---------------------------------------------------------------------------
  // Days shown
  // ---------------------------------------------------------------------------

  /** How many completed days the panel lists. */
  const DAYS_SHOWN: nat := 7

  /** The start and end dates of the loaded jobs, as far as present. */
  function JobDates(jobs: seq<Job>): seq<Date>
  {
    if jobs == [] then []
    else
      var j := jobs[0];
      (if j.start.Some? then [DateOf(j.start.value)] else [])
      + (if j.end.Some? then [DateOf(j.end.value)] else [])
      + JobDates(jobs[1..])
  }

  /** A date is listed exactly when some job starts or ends on it. */
  lemma {:induction false} JobDatesSpec(jobs: seq<Job>, x: Date)
    ensures x in JobDates(jobs) <==>
              exists k :: 0 <= k < |jobs| &&
                ((jobs[k].start.Some? && DateOf(jobs[k].start.value) == x)
                 || (jobs[k].end.Some? && DateOf(jobs[k].end.value) == x))
  {
    if jobs != [] {
      JobDatesSpec(jobs[1..], x);
      var j := jobs[0];
      var here := (j.start.Some? && DateOf(j.start.value) == x) || (j.end.Some? && DateOf(j.end.value) == x);
      if x in JobDates(jobs[1..]) {
        var k :| 0 <= k < |jobs[1..]| &&
                 ((jobs[1..][k].start.Some? && DateOf(jobs[1..][k].start.value) == x)
                  || (jobs[1..][k].end.Some? && DateOf(jobs[1..][k].end.value) == x));
        assert jobs[k + 1] == jobs[1..][k];
      }
      if exists k :: 0 <= k < |jobs| &&
                ((jobs[k].start.Some? && DateOf(jobs[k].start.value) == x)
                 || (jobs[k].end.Some? && DateOf(jobs[k].end.value) == x)) {
        var k :| 0 <= k < |jobs| &&
                 ((jobs[k].start.Some? && DateOf(jobs[k].start.value) == x)
                  || (jobs[k].end.Some? && DateOf(jobs[k].end.value) == x));
        if k > 0 {
          assert jobs[1..][k - 1] == jobs[k];
        }
      }
    }
  }

  predicate DateGe(a: Date, b: Date)
  {
    a >= b
  }

  function DateId(x: Date): Date
  {
    x
  }

  predicate Completed(today: Date, x: Date)
  {
    x < today
  }

  /** The job dates before today, distinct, latest first, at most seven of
      them. The model drops the later dates before sorting rather than
      after; the list is the same. */
  function DatesToShow(jobs: seq<Job>, today: Date): seq<Date>
  {
    Take(PastDates(jobs, today), DAYS_SHOWN)
  }

  /** Every job date before today, once each, latest first. */
  function PastDates(jobs: seq<Job>, today: Date): seq<Date>
  {
    SortedKeys(Filter(JobDates(jobs), (x: Date) => Completed(today, x)), DateId, DateGe)
  }

  lemma DateGeTotal()
    ensures TotalPreorder(DateGe)
  {
  }

  /** The dates shown are distinct job dates before today, latest first,
      at most seven. */
  lemma DatesToShowSound(jobs: seq<Job>, today: Date)
    ensures |DatesToShow(jobs, today)| <= DAYS_SHOWN
    ensures forall i, k :: 0 <= i < k < |DatesToShow(jobs, today)| ==>
              DatesToShow(jobs, today)[i] > DatesToShow(jobs, today)[k]
    ensures forall i :: 0 <= i < |DatesToShow(jobs, today)| ==>
              DatesToShow(jobs, today)[i] < today && DatesToShow(jobs, today)[i] in JobDates(jobs)
  {
    var ks := PastDates(jobs, today);
    DateGeTotal();
    SortedKeysSpec(Filter(JobDates(jobs), (x: Date) => Completed(today, x)), DateId, DateGe);
    PrefixDescending(ks, DAYS_SHOWN);
    CompletedKeys(jobs, today);
  }

  /** The keys of the completed job dates are job dates before today. */
  lemma CompletedKeys(jobs: seq<Job>, today: Date)
    ensures forall i :: 0 <= i < |PastDates(jobs, today)| ==>
              PastDates(jobs, today)[i] < today && PastDates(jobs, today)[i] in JobDates(jobs)
  {
    var all := JobDates(jobs);
    var p := (x: Date) => Completed(today, x);
    var ks := SortedKeys(Filter(all, p), DateId, DateGe);
    DateGeTotal();
    FilteredKeysSound(all, p, DateId, DateGe);
    forall i | 0 <= i < |ks|
      ensures ks[i] < today && ks[i] in all
    {
      var k :| 0 <= k < |all| && p(all[k]) && DateId(all[k]) == ks[i];
    }
  }

  /** A prefix of a sorted, duplicate-free date list falls strictly. */
  lemma PrefixDescending(ks: seq<Date>, n: nat)
    requires SortedBy(ks, DateGe) && NoDup(ks)
    ensures forall i, k :: 0 <= i < k < |Take(ks, n)| ==> Take(ks, n)[i] > Take(ks, n)[k]
  {
    var r := Take(ks, n);
    forall i, k | 0 <= i < k < |r|
      ensures r[i] > r[k]
    {
      assert r[i] == ks[i] && r[k] == ks[k];
      assert DateGe(ks[i], ks[k]);
    }
  }

  /** A job date before today that is left out is older than every date
      shown, and then seven are shown. */
  lemma DatesToShowComplete(jobs: seq<Job>, today: Date, x: Date)
    requires x in JobDates(jobs) && x < today && x !in DatesToShow(jobs, today)
    ensures |DatesToShow(jobs, today)| == DAYS_SHOWN
    ensures forall i :: 0 <= i < |DatesToShow(jobs, today)| ==> DatesToShow(jobs, today)[i] > x
  {
    var all := JobDates(jobs);
    var p := (y: Date) => Completed(today, y);
    var ks := PastDates(jobs, today);
    DateGeTotal();
    FilteredKeysSpec(all, p, DateId, DateGe);
    var k :| 0 <= k < |all| && all[k] == x;
    assert p(all[k]);
    TakeLeftOut(ks, DAYS_SHOWN, x);
  }

  /** In a falling list, an element left out of the first `n` is smaller
      than each of them, and `n` of them are kept. */
  lemma TakeLeftOut(ks: seq<Date>, n: nat, x: Date)
    requires SortedBy(ks, DateGe) && NoDup(ks)
    requires x in ks && x !in Take(ks, n)
    ensures |Take(ks, n)| == n
    ensures forall i :: 0 <= i < |Take(ks, n)| ==> Take(ks, n)[i] > x
  {
    var r := Take(ks, n);
    var m :| 0 <= m < |ks| && ks[m] == x;
    assert m >= |r|;
    forall i | 0 <= i < |r|
      ensures r[i] > x
    {
      assert r[i] == ks[i] && DateGe(ks[i], ks[m]) && ks[i] != ks[m];
    }
  }

  // ---------------------------------------------------------------------------
  // The panel
  // ---------------------------------------------------------------------------

  /** One expander of the panel: a day and its capped idle total. */
  datatype DayIdle = DayIdle(date: Date, idleMinutes: real)

  /** The loop over the days shown, skipping days without RPA jobs. */
  function ReportFor(jobs: seq<Job>, days: seq<Date>): seq<DayIdle>
  {
    if days == [] then []
    else
      var rest := ReportFor(jobs, days[1..]);
      match DayIdleMinutes(jobs, days[0])
      case None => rest
      case Some(v) => [DayIdle(days[0], v)] + rest
  }

  function IdleReport(jobs: seq<Job>, today: Date): seq<DayIdle>
  {
    ReportFor(jobs, DatesToShow(jobs, today))
  }

  /** An entry is reported exactly for a listed day that has a total, and
      carries that total. */
  lemma {:induction false} ReportForSpec(jobs: seq<Job>, days: seq<Date>, e: DayIdle)
    ensures e in ReportFor(jobs, days) <==> e.date in days && DayIdleMinutes(jobs, e.date) == Some(e.idleMinutes)
  {
    if days != [] {
      ReportForSpec(jobs, days[1..], e);
      assert days == [days[0]] + days[1..];
      var rest := ReportFor(jobs, days[1..]);
      match DayIdleMinutes(jobs, days[0])
      case None =>
        assert ReportFor(jobs, days) == rest;
      case Some(v) =>
        assert ReportFor(jobs, days) == [DayIdle(days[0], v)] + rest;
    }
  }

  /** The panel shows a day exactly when it is among the seven latest
      completed job dates and some RPA job overlaps it; its total is then
      within the cap. */
  lemma IdleReportSpec(jobs: seq<Job>, today: Date, e: DayIdle)
    ensures e in IdleReport(jobs, today) <==>
              e.date in DatesToShow(jobs, today) && DayIdleMinutes(jobs, e.date) == Some(e.idleMinutes)
    ensures e in IdleReport(jobs, today) ==>
              e.date < today && 0.0 <= e.idleMinutes <= DAY_IDLE_CAP_MINUTES
              && exists k :: 0 <= k < |jobs| && OnDay(jobs[k], e.date)
  {
    ReportForSpec(jobs, DatesToShow(jobs, today), e);
    DatesToShowSound(jobs, today);
    DayIdleSpec(jobs, e.date);
  }
}
