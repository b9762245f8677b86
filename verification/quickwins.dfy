/** The quick-wins analysis of the last days: hour slots a robot keeps
    leaving idle, broad day windows the RPA fleet under-uses, the processes
    that would fit into the free time, and the totals over all findings. */
module QuickWins {
  import opened Text
  import opened Lists
  import opened Jobs
  import opened Intervals

  const EUR_PER_HOUR: real := 50.0
  const WEEKS_PER_MONTH: real := 4.33
  const IDLE_DAYS_THRESHOLD: nat := 4
  const IDLE_AVG_MINUTES_THRESHOLD: real := 30.0
  const WINDOW_UTILIZATION_TARGET: real := 0.40
  const MAX_SUGGESTIONS: nat := 5
  const WINDOW_MAX_MINUTES: real := 90.0
  const DAYS_FOR_DURATIONS: int := 90

  // ---------------------------------------------------------------------
  // The RPA jobs both detectors look at

  /** `(key, start, end)` of a job that passed the detectors' filter. */
  datatype RpaJob = RpaJob(robot: string, start: Time, end: Time)

  /** The robot key names an RPA robot and the job has a proper time span. */
  predicate Selected(j: Job)
  {
    IsRpa(RobotKey(j)) && Usable(j)
  }

  function ToRpa(j: Job): RpaJob
    requires Usable(j)
  {
    RpaJob(RobotKey(j), j.start.value, j.end.value)
  }

  /** The filter loop at the top of both detectors. */
  function RpaJobs(jobs: seq<Job>): (r: seq<RpaJob>)
    ensures |r| <= |jobs|
    ensures forall i :: 0 <= i < |r| ==> IsRpa(r[i].robot) && r[i].start < r[i].end
  {
    if jobs == [] then []
    else (if Selected(jobs[0]) then [ToRpa(jobs[0])] else []) + RpaJobs(jobs[1..])
  }

  /** Every selected job is kept. */
  lemma {:induction false} RpaJobsComplete(jobs: seq<Job>)
    ensures forall i :: 0 <= i < |jobs| && Selected(jobs[i]) ==> ToRpa(jobs[i]) in RpaJobs(jobs)
  {
    if jobs != [] {
      RpaJobsComplete(jobs[1..]);
      var head := if Selected(jobs[0]) then [ToRpa(jobs[0])] else [];
      var rest := RpaJobs(jobs[1..]);
      assert RpaJobs(jobs) == head + rest;
      forall i | 0 <= i < |jobs| && Selected(jobs[i])
        ensures ToRpa(jobs[i]) in RpaJobs(jobs)
      {
        if i == 0 {
          assert RpaJobs(jobs)[0] == ToRpa(jobs[0]);
        } else {
          assert jobs[i] == jobs[1..][i - 1];
          assert ToRpa(jobs[i]) in rest;
        }
      }
    }
  }

  /** Everything kept is the triple of a selected job. */
  lemma {:induction false} RpaJobsSound(jobs: seq<Job>, k: int) returns (i: int)
    requires 0 <= k < |RpaJobs(jobs)|
    ensures 0 <= i < |jobs| && Selected(jobs[i]) && RpaJobs(jobs)[k] == ToRpa(jobs[i])
  {
    var head := if Selected(jobs[0]) then [ToRpa(jobs[0])] else [];
    var rest := RpaJobs(jobs[1..]);
    assert RpaJobs(jobs) == head + rest;
    if k < |head| {
      i := 0;
    } else {
      assert RpaJobs(jobs)[k] == rest[k - |head|];
      var i' := RpaJobsSound(jobs[1..], k - |head|);
      i := i' + 1;
      assert jobs[1..][i'] == jobs[i];
    }
  }

  // ---------------------------------------------------------------------
  // Overlap of a job with an hour or a window of one day

  /** Minutes of `[start, end)` after `lo` and before `hi`: the
      `max(start, lo)`, `min(end, hi)` clamp, zero when nothing is left. */
  function OverlapMinutes(start: Time, end: Time, lo: Time, hi: Time): (m: real)
    ensures m >= 0.0
    ensures m > 0.0 <==> start < end && start < hi && lo < end && lo < hi
    ensures lo <= hi ==> m <= Minutes(hi - lo)
    ensures start <= end ==> m <= Minutes(end - start)
  {
    var s := Max(start, lo);
    var e := Min(end, hi);
    if e <= s then 0.0 else Minutes(e - s)
  }

  /** `time(hour, 0, 0)` on day `d`. */
  function HourStart(d: Date, hour: int): Time
  {
    DayStart(d) + hour * HOUR_US
  }

  /** `time(hour, 59, 59, 999999)` on day `d`: the last microsecond of the
      hour. */
  function HourEnd(d: Date, hour: int): Time
  {
    DayStart(d) + hour * HOUR_US + (HOUR_US - 1)
  }

  /** `_job_overlaps_hour(start, end, day, hour)`: the minutes of the job in
      that hour of that day. They are positive exactly when the job starts
      before the hour's last microsecond and ends after its first, and they
      stay below 60 because the hour is anchored at `hh:59:59.999999`. */
  function JobOverlapsHour(start: Time, end: Time, d: Date, hour: int): (m: real)
    requires 0 <= hour < 24
    ensures 0.0 <= m < 60.0
    ensures m > 0.0 <==> start < end && start < HourEnd(d, hour) && HourStart(d, hour) < end
  {
    OverlapMinutes(start, end, HourStart(d, hour), HourEnd(d, hour))
  }

  /** A job that runs through a whole hour counts one microsecond short of
      60 minutes there. */
  lemma FullHourShortOfSixty(start: Time, end: Time, d: Date, hour: int)
    requires 0 <= hour < 24
    requires start <= HourStart(d, hour) && HourEnd(d, hour) <= end
    ensures JobOverlapsHour(start, end, d, hour) == Minutes(HOUR_US - 1)
  {
  }

  /** A job lying inside another one overlaps every hour by no more. */
  lemma OverlapMonotone(s1: Time, e1: Time, s2: Time, e2: Time, d: Date, hour: int)
    requires 0 <= hour < 24
    requires s2 <= s1 && e1 <= e2
    ensures JobOverlapsHour(s1, e1, d, hour) <= JobOverlapsHour(s2, e2, d, hour)
  {
  }

  // ---------------------------------------------------------------------
  // The dates looked at

  /** `[start_date + timedelta(days=i) for i in range(days)]` with
      `start_date = today - days`: the `days` days before today, oldest
      first. Today itself is not among them. */
  function DateList(today: Date, days: int): (ds: seq<Date>)
    ensures |ds| == if days > 0 then days else 0
    ensures forall i :: 0 <= i < |ds| ==> today - days <= ds[i] < today
    ensures forall i :: 0 < i < |ds| ==> ds[i] == ds[i - 1] + 1
    ensures days > 0 ==> ds[0] == today - days && ds[|ds| - 1] == today - 1
    ensures today !in ds
  {
    seq(if days > 0 then days else 0, i => today - days + i)
  }

  // ---------------------------------------------------------------------
  // Priority

  datatype Priority = Low | Medium | High

  function Rank(p: Priority): int
  {
    match p
    case Low => 0
    case Medium => 1
    case High => 2
  }

  /** `"HIGH" if impact >= 1000 else "MEDIUM" if impact >= 500 else "LOW"`. */
  function PriorityOf(impact: real): (p: Priority)
    ensures p == High <==> impact >= 1000.0
    ensures p == Medium <==> 500.0 <= impact < 1000.0
    ensures p == Low <==> impact < 500.0
  {
    if impact >= 1000.0 then High else if impact >= 500.0 then Medium else Low
  }

  /** A larger impact never gets a lower priority. */
  lemma PriorityMonotone(a: real, b: real)
    requires a <= b
    ensures Rank(PriorityOf(a)) <= Rank(PriorityOf(b))
  {
  }

  /** A process and its average duration in minutes. */
  datatype ProcessAvg = ProcessAvg(name: string, minutes: real)

  /** `potential_hours_week * WEEKS_PER_MONTH * EUR_PER_HOUR`. */
  function Impact(potentialHoursWeek: real): (e: real)
    ensures e == 216.5 * potentialHoursWeek
  {
    potentialHoursWeek * WEEKS_PER_MONTH * EUR_PER_HOUR
  }

  // ---------------------------------------------------------------------
  // Recurring idle hour slots

  /** `robot_hour_day_runtime[robot][hour][d]`: the minutes of the robot's
      jobs in that hour, added job by job without merging overlaps. */
  function Runtime(rj: seq<RpaJob>, robot: string, d: Date, hour: int): (m: real)
    requires 0 <= hour < 24
    ensures m >= 0.0
  {
    if rj == [] then 0.0
    else
      (if rj[0].robot == robot then JobOverlapsHour(rj[0].start, rj[0].end, d, hour) else 0.0)
      + Runtime(rj[1..], robot, d, hour)
  }

  /** Two copies of one job count twice: the hour's runtime is not a union
      length and can reach 60 minutes with jobs that overlap each other. */
  lemma DuplicateCountsTwice(j: RpaJob, d: Date, hour: int)
    requires 0 <= hour < 24
    ensures Runtime([j, j], j.robot, d, hour) == 2.0 * JobOverlapsHour(j.start, j.end, d, hour)
  {
    assert [j][1..] == [];
    assert Runtime([j], j.robot, d, hour) == JobOverlapsHour(j.start, j.end, d, hour);
    assert [j, j][1..] == [j];
  }

  /** `max(0.0, 60.0 - runtime)`: between 0 and 60 minutes, 60 exactly when
      nothing ran and 0 exactly when at least an hour's worth ran. */
  function IdleMinutes(runtime: real): (idle: real)
    ensures idle >= 0.0
    ensures runtime >= 0.0 ==> idle <= 60.0
    ensures idle == 60.0 <==> runtime == 0.0
    ensures idle == 0.0 <==> runtime >= 60.0
  {
    RealMax(0.0, 60.0 - runtime)
  }

  /** `idle_minutes_per_day` of one robot and hour over the dates. */
  function IdlePerDay(rj: seq<RpaJob>, robot: string, dates: seq<Date>, hour: int): (idles: seq<real>)
    requires 0 <= hour < 24
    ensures |idles| == |dates|
    ensures forall i :: 0 <= i < |idles| ==> 0.0 <= idles[i] <= 60.0
  {
    seq(|dates|, i requires 0 <= i < |dates| => IdleMinutes(Runtime(rj, robot, dates[i], hour)))
  }

  /** `sum(1 for x in xs if x >= t)` */
  function CountAtLeast(xs: seq<real>, t: real): (n: nat)
    ensures n <= |xs|
  {
    if xs == [] then 0 else (if xs[0] >= t then 1 else 0) + CountAtLeast(xs[1..], t)
  }

  lemma {:induction false} CountAll(xs: seq<real>, t: real)
    requires forall i :: 0 <= i < |xs| ==> xs[i] >= t
    ensures CountAtLeast(xs, t) == |xs|
  {
    if xs != [] {
      CountAll(xs[1..], t);
    }
  }

  function Id(x: real): real
  {
    x
  }

  /** `total_idle_min / days if days > 0 else 0.0` */
  function AvgIdle(idles: seq<real>, days: int): real
  {
    if days > 0 then SumReal(idles, Id) / days as real else 0.0
  }

  /** With one value per day, each between 0 and 60, the average over the
      days is between 0 and 60 too, and it is 60 when every day is. */
  lemma AvgIdleBounds(idles: seq<real>, days: int)
    requires |idles| == if days > 0 then days else 0
    requires forall i :: 0 <= i < |idles| ==> 0.0 <= idles[i] <= 60.0
    ensures 0.0 <= AvgIdle(idles, days) <= 60.0
    ensures days > 0 && (forall i :: 0 <= i < |idles| ==> idles[i] == 60.0) ==> AvgIdle(idles, days) == 60.0
  {
    if days > 0 {
      SumRealBounds(idles, Id, 0.0, 60.0);
      QuotientBounds(SumReal(idles, Id), days as real);
      if forall i :: 0 <= i < |idles| ==> idles[i] == 60.0 {
        SumRealBounds(idles, Id, 60.0, 60.0);
        QuotientBounds(SumReal(idles, Id), days as real);
      }
    }
  }

  lemma QuotientBounds(sum: real, n: real)
    requires n > 0.0 && 0.0 <= sum <= n * 60.0
    ensures 0.0 <= sum / n <= 60.0
    ensures sum == n * 60.0 ==> sum / n == 60.0
  {
  }

  /** What the detector computes for one robot and hour: on how many days
      at least 30 minutes stayed idle, and the idle minutes per day on
      average over `days`. */
  datatype Slot = Slot(daysIdle: nat, avgIdle: real)

  function SlotOf(rj: seq<RpaJob>, robot: string, dates: seq<Date>, days: int, hour: int): Slot
    requires 0 <= hour < 24
  {
    var idles := IdlePerDay(rj, robot, dates, hour);
    Slot(CountAtLeast(idles, IDLE_AVG_MINUTES_THRESHOLD), AvgIdle(idles, days))
  }

  /** The reporting rule: idle on at least 4 days and at least 30 idle
      minutes on average. */
  predicate Reported(s: Slot)
  {
    s.daysIdle >= IDLE_DAYS_THRESHOLD && s.avgIdle >= IDLE_AVG_MINUTES_THRESHOLD
  }

  /** There are no more idle days than days, the average is between 0 and
      60 minutes, and so a slot can only be reported when at least 4 days
      are looked at. */
  lemma SlotBounds(rj: seq<RpaJob>, robot: string, today: Date, days: int, hour: int)
    requires 0 <= hour < 24
    ensures SlotOf(rj, robot, DateList(today, days), days, hour).daysIdle <= if days > 0 then days else 0
    ensures 0.0 <= SlotOf(rj, robot, DateList(today, days), days, hour).avgIdle <= 60.0
    ensures Reported(SlotOf(rj, robot, DateList(today, days), days, hour)) ==> days >= 4
  {
    var idles := IdlePerDay(rj, robot, DateList(today, days), hour);
    AvgIdleBounds(idles, days);
  }

  /** An hour in which the robot never ran is idle on every day, 60 minutes
      each. */
  lemma UnusedHourFullyIdle(rj: seq<RpaJob>, robot: string, today: Date, days: int, hour: int)
    requires 0 <= hour < 24 && days > 0
    requires forall d :: today - days <= d < today ==> Runtime(rj, robot, d, hour) == 0.0
    ensures SlotOf(rj, robot, DateList(today, days), days, hour) == Slot(days, 60.0)
  {
    var dates := DateList(today, days);
    var idles := IdlePerDay(rj, robot, dates, hour);
    forall i | 0 <= i < |idles|
      ensures idles[i] == 60.0
    {
      assert Runtime(rj, robot, dates[i], hour) == 0.0;
    }
    CountAll(idles, IDLE_AVG_MINUTES_THRESHOLD);
    AvgIdleBounds(idles, days);
  }

  /** A reported slot: `time_slot` is kept as the hour and `frequency` as
      the two counts; `suggested` is filled in by the analysis. */
  datatype IdleFinding = IdleFinding(
    robot: string,
    hour: int,
    daysIdle: nat,
    days: int,
    avgIdleMinutes: real,
    potentialHoursWeek: real,
    impactEuroMonth: real,
    priority: Priority,
    suggested: seq<ProcessAvg>)

  /** The average idle minutes, a week's worth in hours, priced. */
  function MakeIdleFinding(robot: string, hour: int, s: Slot, days: int): IdleFinding
  {
    var potential := s.avgIdle * 7.0 / 60.0;
    var impact := Impact(potential);
    IdleFinding(robot, hour, s.daysIdle, days, s.avgIdle, potential, impact, PriorityOf(impact), [])
  }

  /** `f"{hour:02d}:00-{hour + 1:02d}:00"` */
  function SlotLabel(hour: nat): string
  {
    Pad2(hour) + ":00-" + Pad2(hour + 1) + ":00"
  }

  /** For the hours of a day the label is eleven characters with the hour
      and the next hour as two-digit numbers. */
  lemma SlotLabelShape(hour: nat)
    requires hour < 24
    ensures |SlotLabel(hour)| == 11
    ensures AllDigits(SlotLabel(hour)[..2]) && Value(SlotLabel(hour)[..2]) == hour
    ensures AllDigits(SlotLabel(hour)[6..8]) && Value(SlotLabel(hour)[6..8]) == hour + 1
  {
    Pad2Spec(hour);
    Pad2Spec(hour + 1);
    assert SlotLabel(hour)[..2] == Pad2(hour);
    assert SlotLabel(hour)[6..8] == Pad2(hour + 1);
  }

  /** Some hour of some date has positive runtime of the job: only then
      does the job's robot get an entry in `robot_hour_day_runtime`. */
  predicate Active(j: RpaJob, dates: seq<Date>)
  {
    exists i, h :: 0 <= i < |dates| && 0 <= h < 24 && JobOverlapsHour(j.start, j.end, dates[i], h) > 0.0
  }

  function RobotOf(j: RpaJob): string
  {
    j.robot
  }

  lemma LexLeTotalPreorder()
    ensures TotalPreorder(LexLe)
  {
    forall a: string, b: string
      ensures LexLe(a, b) || LexLe(b, a)
    {
      LexLeTotal(a, b);
    }
    forall a: string, b: string, c: string | LexLe(a, b) && LexLe(b, c)
      ensures LexLe(a, c)
    {
      LexLeTransitive(a, b, c);
    }
  }

  /** `sorted(robot_hour_day_runtime.keys())` */
  function Robots(rj: seq<RpaJob>, dates: seq<Date>): seq<string>
  {
    SortedKeys(Filter(rj, j => Active(j, dates)), RobotOf, LexLe)
  }

  /** The robots analysed are sorted, each listed once, and are exactly the
      robots with some job running in the period. */
  lemma RobotsSpec(rj: seq<RpaJob>, dates: seq<Date>)
    ensures SortedBy(Robots(rj, dates), LexLe)
    ensures NoDup(Robots(rj, dates))
    ensures forall k :: 0 <= k < |rj| && Active(rj[k], dates) ==> rj[k].robot in Robots(rj, dates)
    ensures forall i :: 0 <= i < |Robots(rj, dates)| ==>
              exists k :: 0 <= k < |rj| && Active(rj[k], dates) && rj[k].robot == Robots(rj, dates)[i]
  {
    LexLeTotalPreorder();
    FilteredKeysSpec(rj, j => Active(j, dates), RobotOf, LexLe);
  }

  /** The per-slot summary as a function of robot and hour; outside the
      hours of a day it is never consulted. */
  function SlotAt(rj: seq<RpaJob>, dates: seq<Date>, days: int): (string, int) -> Slot
  {
    (robot, hour) => if 0 <= hour < 24 then SlotOf(rj, robot, dates, days, hour) else Slot(0, 0.0)
  }

  lemma SlotAtHour(rj: seq<RpaJob>, dates: seq<Date>, days: int, robot: string, hour: int)
    requires 0 <= hour < 24
    ensures SlotAt(rj, dates, days)(robot, hour) == SlotOf(rj, robot, dates, days, hour)
  {
  }

  /** The findings of one robot from `hour` on, hour by hour. */
  function SlotsFrom(slot: (string, int) -> Slot, days: int, robot: string, hour: int): seq<IdleFinding>
    requires 0 <= hour <= 24
    decreases 24 - hour
  {
    if hour == 24 then []
    else
      (if Reported(slot(robot, hour)) then [MakeIdleFinding(robot, hour, slot(robot, hour), days)] else [])
      + SlotsFrom(slot, days, robot, hour + 1)
  }

  /** The findings of the listed robots, robot by robot. */
  function FindingsFor(slot: (string, int) -> Slot, days: int, robots: seq<string>): seq<IdleFinding>
  {
    if robots == [] then []
    else SlotsFrom(slot, days, robots[0], 0) + FindingsFor(slot, days, robots[1..])
  }

  /** `find_recurring_idle(jobs, days)` with today's date as an input. */
  function FindRecurringIdle(jobs: seq<Job>, days: int, today: Date): seq<IdleFinding>
  {
    var rj := RpaJobs(jobs);
    var dates := DateList(today, days);
    FindingsFor(SlotAt(rj, dates, days), days, Robots(rj, dates))
  }

  /** `f` is the finding of `robot` at `hour`, and that slot qualifies. */
  ghost predicate IsSlotFinding(slot: (string, int) -> Slot, days: int, robot: string, h: int, f: IdleFinding)
  {
    && 0 <= h < 24
    && Reported(slot(robot, h))
    && f == MakeIdleFinding(robot, h, slot(robot, h), days)
  }

  lemma {:induction false} SlotsFromSpec(slot: (string, int) -> Slot, days: int, robot: string, hour: int)
    requires 0 <= hour <= 24
    ensures forall f :: f in SlotsFrom(slot, days, robot, hour) <==>
              exists h :: hour <= h < 24 && IsSlotFinding(slot, days, robot, h, f)
    decreases 24 - hour
  {
    if hour < 24 {
      SlotsFromSpec(slot, days, robot, hour + 1);
      var s := slot(robot, hour);
      var head := if Reported(s) then [MakeIdleFinding(robot, hour, s, days)] else [];
      var rest := SlotsFrom(slot, days, robot, hour + 1);
      assert SlotsFrom(slot, days, robot, hour) == head + rest;
      forall f | f in head
        ensures IsSlotFinding(slot, days, robot, hour, f)
      {
      }
      forall f, h | hour <= h < 24 && IsSlotFinding(slot, days, robot, h, f)
        ensures f in head + rest
      {
        if h == hour {
          assert f in head;
        }
      }
    }
  }

  lemma {:induction false} FindingsForSpec(slot: (string, int) -> Slot, days: int, robots: seq<string>)
    ensures forall f :: f in FindingsFor(slot, days, robots) <==>
              exists i, h :: 0 <= i < |robots| && IsSlotFinding(slot, days, robots[i], h, f)
  {
    if robots != [] {
      SlotsFromSpec(slot, days, robots[0], 0);
      FindingsForSpec(slot, days, robots[1..]);
      var head := SlotsFrom(slot, days, robots[0], 0);
      var rest := FindingsFor(slot, days, robots[1..]);
      assert FindingsFor(slot, days, robots) == head + rest;
      forall f | f in rest
        ensures exists i, h :: 0 <= i < |robots| && IsSlotFinding(slot, days, robots[i], h, f)
      {
        var i, h :| 0 <= i < |robots[1..]| && IsSlotFinding(slot, days, robots[1..][i], h, f);
        assert robots[1..][i] == robots[i + 1];
      }
      forall f, i, h | 0 <= i < |robots| && IsSlotFinding(slot, days, robots[i], h, f)
        ensures f in head + rest
      {
        if i > 0 {
          assert robots[1..][i - 1] == robots[i];
        }
      }
    }
  }

  /** A finding is reported exactly for a robot with some job in the
      period and an hour of the day whose slot meets both thresholds. */
  lemma RecurringIdleSpec(jobs: seq<Job>, days: int, today: Date, f: IdleFinding)
    ensures f in FindRecurringIdle(jobs, days, today) <==>
              && f.robot in Robots(RpaJobs(jobs), DateList(today, days))
              && IsSlotFinding(SlotAt(RpaJobs(jobs), DateList(today, days), days), days, f.robot, f.hour, f)
  {
    var rj := RpaJobs(jobs);
    var dates := DateList(today, days);
    FindingsForMember(SlotAt(rj, dates, days), days, Robots(rj, dates), f);
  }

  /** Membership in the findings of a robot list, for one finding. */
  lemma FindingsForMember(slot: (string, int) -> Slot, days: int, robots: seq<string>, f: IdleFinding)
    ensures f in FindingsFor(slot, days, robots) <==>
              f.robot in robots && IsSlotFinding(slot, days, f.robot, f.hour, f)
  {
    FindingsForSpec(slot, days, robots);
    if f in FindingsFor(slot, days, robots) {
      var i, h :| 0 <= i < |robots| && IsSlotFinding(slot, days, robots[i], h, f);
    }
    if f.robot in robots && IsSlotFinding(slot, days, f.robot, f.hour, f) {
      var i :| 0 <= i < |robots| && robots[i] == f.robot;
    }
  }

  /** Every reported slot was idle on 4 to `days` days for 30 to 60 minutes
      on average, is worth 3.5 to 7 hours a week, and so is never of low
      priority. */
  lemma RecurringNeverLow(jobs: seq<Job>, days: int, today: Date, f: IdleFinding)
    requires f in FindRecurringIdle(jobs, days, today)
    ensures 4 <= f.daysIdle <= f.days == days
    ensures 30.0 <= f.avgIdleMinutes <= 60.0
    ensures 3.5 <= f.potentialHoursWeek <= 7.0
    ensures f.priority != Low
  {
    RecurringIdleSpec(jobs, days, today, f);
    SlotAtHour(RpaJobs(jobs), DateList(today, days), days, f.robot, f.hour);
    SlotBounds(RpaJobs(jobs), f.robot, today, days, f.hour);
  }

  // ---------------------------------------------------------------------
  // Under-used day windows

  /** An entry of `WINDOWS`: its name and its hours `[hStart, hEnd)`. */
  datatype Window = Window(name: string, hStart: int, hEnd: int)

  const WINDOWS: seq<Window> := [
    Window("Nacht (00-06h)", 0, 6),
    Window("Morgen (06-12h)", 6, 12),
    Window("Nachmittag (12-18h)", 12, 18),
    Window("Abend (18-24h)", 18, 24)
  ]

  /** `time(h_start, 0, 0)` on day `d`. */
  function WindowStart(d: Date, w: Window): Time
  {
    DayStart(d) + w.hStart * HOUR_US
  }

  /** `time(h_end - 1, 59, 59, 999999)` on day `d`, the last microsecond of
      the window, or the day's last microsecond for an end past 24. */
  function WindowEnd(d: Date, w: Window): Time
  {
    if w.hEnd <= 24 then DayStart(d) + w.hEnd * HOUR_US - 1 else DayEnd(d)
  }

  /** The minutes of one job in the window, over all dates. */
  function JobWindowMinutes(j: RpaJob, dates: seq<Date>, w: Window): (m: real)
    ensures m >= 0.0
  {
    if dates == [] then 0.0
    else
      OverlapMinutes(j.start, j.end, WindowStart(dates[0], w), WindowEnd(dates[0], w))
      + JobWindowMinutes(j, dates[1..], w)
  }

  /** `runtime_minutes`: the window minutes of every RPA job, added without
      regard to robot or overlap. */
  function WindowMinutes(rj: seq<RpaJob>, dates: seq<Date>, w: Window): (m: real)
    ensures m >= 0.0
  {
    if rj == [] then 0.0 else JobWindowMinutes(rj[0], dates, w) + WindowMinutes(rj[1..], dates, w)
  }

  /** `runtime_hours / available_robot_hours` with two robots assumed, 0
      when no hours are available. */
  function WindowUtilization(runtimeMinutes: real, w: Window, days: int): (u: real)
    ensures runtimeMinutes >= 0.0 ==> u >= 0.0
    ensures runtimeMinutes == 0.0 ==> u == 0.0
  {
    var available := 2 * (w.hEnd - w.hStart) * days;
    if available > 0 then (runtimeMinutes / 60.0) / available as real else 0.0
  }

  /** The utilisation of each window, as a function of the window. */
  function UtilAt(rj: seq<RpaJob>, dates: seq<Date>, days: int): Window -> real
  {
    w => WindowUtilization(WindowMinutes(rj, dates, w), w, days)
  }

  datatype WindowFinding = WindowFinding(
    window: string,
    currentUtilization: real,
    target: real,
    potentialHoursWeek: real,
    impactEuroMonth: real,
    priority: Priority,
    suggested: seq<ProcessAvg>)

  /** The hours a week by which the window falls short of 40 percent use
      of two robots, priced. */
  function MakeWindowFinding(w: Window, util: real): WindowFinding
  {
    var potential := (WINDOW_UTILIZATION_TARGET - util) * 2.0 * (w.hEnd - w.hStart) as real * 7.0;
    var impact := Impact(potential);
    WindowFinding(w.name, util * 100.0, WINDOW_UTILIZATION_TARGET * 100.0, potential, impact, PriorityOf(impact), [])
  }

  /** The loop over the windows, in their listed order. */
  function WindowsFrom(util: Window -> real, ws: seq<Window>): (r: seq<WindowFinding>)
    ensures |r| <= |ws|
  {
    if ws == [] then []
    else
      (if util(ws[0]) < WINDOW_UTILIZATION_TARGET then [MakeWindowFinding(ws[0], util(ws[0]))] else [])
      + WindowsFrom(util, ws[1..])
  }

  /** `find_underutilized_windows(jobs, days)` with today's date as an
      input. */
  function FindUnderutilizedWindows(jobs: seq<Job>, days: int, today: Date): seq<WindowFinding>
  {
    WindowsFrom(UtilAt(RpaJobs(jobs), DateList(today, days), days), WINDOWS)
  }

  /** A window is reported exactly when its utilisation is below the
      40 percent target. */
  lemma {:induction false} WindowsFromSpec(util: Window -> real, ws: seq<Window>)
    ensures forall f :: f in WindowsFrom(util, ws) <==>
              exists i :: 0 <= i < |ws| && util(ws[i]) < WINDOW_UTILIZATION_TARGET
                          && f == MakeWindowFinding(ws[i], util(ws[i]))
  {
    if ws != [] {
      WindowsFromSpec(util, ws[1..]);
      var head := if util(ws[0]) < WINDOW_UTILIZATION_TARGET then [MakeWindowFinding(ws[0], util(ws[0]))] else [];
      var rest := WindowsFrom(util, ws[1..]);
      assert WindowsFrom(util, ws) == head + rest;
      forall f | f in rest
        ensures exists i :: 0 <= i < |ws| && util(ws[i]) < WINDOW_UTILIZATION_TARGET
                            && f == MakeWindowFinding(ws[i], util(ws[i]))
      {
        var i :| 0 <= i < |ws[1..]| && util(ws[1..][i]) < WINDOW_UTILIZATION_TARGET
                 && f == MakeWindowFinding(ws[1..][i], util(ws[1..][i]));
        assert ws[1..][i] == ws[i + 1];
      }
      forall f, i | 0 <= i < |ws| && util(ws[i]) < WINDOW_UTILIZATION_TARGET && f == MakeWindowFinding(ws[i], util(ws[i]))
        ensures f in head + rest
      {
        if i > 0 {
          assert ws[1..][i - 1] == ws[i];
        }
      }
    }
  }

  /** Every window finding names one of the four windows, reports a
      utilisation from 0 up to below 40 percent, and a potential that is
      positive and at most the 33.6 hours of a completely idle six-hour
      window. */
  lemma WindowFindingBounds(jobs: seq<Job>, days: int, today: Date, f: WindowFinding)
    requires f in FindUnderutilizedWindows(jobs, days, today)
    ensures exists i :: 0 <= i < |WINDOWS| && f.window == WINDOWS[i].name
    ensures 0.0 <= f.currentUtilization < 40.0 && f.target == 40.0
    ensures 0.0 < f.potentialHoursWeek <= 33.6
    ensures f.impactEuroMonth == 216.5 * f.potentialHoursWeek
  {
    var util := UtilAt(RpaJobs(jobs), DateList(today, days), days);
    WindowsFromSpec(util, WINDOWS);
    var i :| 0 <= i < |WINDOWS| && util(WINDOWS[i]) < WINDOW_UTILIZATION_TARGET
             && f == MakeWindowFinding(WINDOWS[i], util(WINDOWS[i]));
    UtilNonNegative(RpaJobs(jobs), DateList(today, days), days, WINDOWS[i]);
    WindowsSixHours(i);
    MakeWindowFindingBounds(WINDOWS[i], util(WINDOWS[i]));
  }

  lemma UtilNonNegative(rj: seq<RpaJob>, dates: seq<Date>, days: int, w: Window)
    ensures UtilAt(rj, dates, days)(w) >= 0.0
  {
  }

  lemma WindowsSixHours(i: int)
    requires 0 <= i < |WINDOWS|
    ensures WINDOWS[i].hEnd - WINDOWS[i].hStart == 6
  {
  }

  lemma MakeWindowFindingBounds(w: Window, util: real)
    requires w.hEnd - w.hStart == 6
    requires 0.0 <= util < WINDOW_UTILIZATION_TARGET
    ensures 0.0 <= MakeWindowFinding(w, util).currentUtilization < 40.0
    ensures MakeWindowFinding(w, util).target == 40.0
    ensures 0.0 < MakeWindowFinding(w, util).potentialHoursWeek <= 33.6
    ensures MakeWindowFinding(w, util).impactEuroMonth == 216.5 * MakeWindowFinding(w, util).potentialHoursWeek
  {
  }

  lemma {:induction false} NoJobsNoWindowMinutes(dates: seq<Date>, w: Window)
    ensures WindowMinutes([], dates, w) == 0.0
  {
  }

  /** With no use anywhere every window is reported, in order. */
  lemma {:induction false} AllIdleWindows(util: Window -> real, ws: seq<Window>)
    requires forall w :: util(w) == 0.0
    ensures |WindowsFrom(util, ws)| == |ws|
    ensures forall i :: 0 <= i < |ws| ==> WindowsFrom(util, ws)[i] == MakeWindowFinding(ws[i], 0.0)
  {
    if ws != [] {
      AllIdleWindows(util, ws[1..]);
      var rest := WindowsFrom(util, ws[1..]);
      assert WindowsFrom(util, ws) == [MakeWindowFinding(ws[0], 0.0)] + rest;
      forall i | 0 < i < |ws|
        ensures WindowsFrom(util, ws)[i] == MakeWindowFinding(ws[i], 0.0)
      {
        assert ws[1..][i - 1] == ws[i];
      }
    }
  }

  /** Without RPA jobs every window is reported, at 0 percent, worth 33.6
      hours a week each and of high priority. */
  lemma NoRpaJobsAllWindows(jobs: seq<Job>, days: int, today: Date)
    requires forall i :: 0 <= i < |jobs| ==> !Selected(jobs[i])
    ensures |FindUnderutilizedWindows(jobs, days, today)| == 4
    ensures forall i :: 0 <= i < 4 ==>
              && FindUnderutilizedWindows(jobs, days, today)[i] == MakeWindowFinding(WINDOWS[i], 0.0)
              && FindUnderutilizedWindows(jobs, days, today)[i].potentialHoursWeek == 33.6
              && FindUnderutilizedWindows(jobs, days, today)[i].priority == High
  {
    var rj := RpaJobs(jobs);
    if rj != [] {
      var i := RpaJobsSound(jobs, 0);
    }
    var util := UtilAt(rj, DateList(today, days), days);
    forall w
      ensures util(w) == 0.0
    {
      NoJobsNoWindowMinutes(DateList(today, days), w);
    }
    AllIdleWindows(util, WINDOWS);
    forall i | 0 <= i < 4
      ensures MakeWindowFinding(WINDOWS[i], 0.0).potentialHoursWeek == 33.6
      ensures MakeWindowFinding(WINDOWS[i], 0.0).priority == High
    {
      WindowsSixHours(i);
    }
  }

  /** Three parallel jobs through the night of the only day looked at use
      the window at almost 150 percent: jobs are added without merging and
      measured against two robots. */
  lemma ParallelJobsOverFullUse(j: RpaJob, d: Date)
    requires j.start <= WindowStart(d, WINDOWS[0]) && WindowEnd(d, WINDOWS[0]) <= j.end
    ensures WindowUtilization(WindowMinutes([j, j, j], [d], WINDOWS[0]), WINDOWS[0], 1) > 1.0
  {
    var w := WINDOWS[0];
    assert w == Window("Nacht (00-06h)", 0, 6);
    var m := JobWindowMinutes(j, [d], w);
    assert [d][1..] == [];
    assert JobWindowMinutes(j, [], w) == 0.0;
    assert WindowStart(d, w) == DayStart(d) && WindowEnd(d, w) == DayStart(d) + 6 * HOUR_US - 1;
    assert OverlapMinutes(j.start, j.end, WindowStart(d, w), WindowEnd(d, w)) == Minutes(6 * HOUR_US - 1);
    assert m == Minutes(6 * HOUR_US - 1);
    assert [j, j, j][1..] == [j, j] && [j, j][1..] == [j] && [j][1..] == [];
    assert WindowMinutes([j], [d], w) == m;
    assert WindowMinutes([j, j], [d], w) == m + m;
    assert WindowMinutes([j, j, j], [d], w) == m + m + m;
  }

  // ---------------------------------------------------------------------
  // Process durations and suggestions

  /** `(j.process_name or "").strip()` */
  function ProcessName(j: Job): string
  {
    Trim(OrEmpty(j.processName))
  }

  /** A job with a non-blank process name and a proper time span. */
  predicate Timed(j: Job)
  {
    ProcessName(j) != [] && Usable(j)
  }

  /** `(end - start).total_seconds() / 60.0`, 0 for a job without a proper
      span (such jobs are never timed). */
  function DurationMinutes(j: Job): real
  {
    if Usable(j) then Minutes(j.end.value - j.start.value) else 0.0
  }

  lemma DurationPositive(j: Job)
    requires Usable(j)
    ensures DurationMinutes(j) > 0.0
  {
  }

  /** The mean duration of the timed jobs of one process. */
  function AverageOf(timed: seq<Job>, name: string): real
  {
    MeanOf(Group(timed, ProcessName, name), DurationMinutes)
  }

  /** `key=lambda x: x[1]` */
  predicate MinutesLe(a: ProcessAvg, b: ProcessAvg)
  {
    a.minutes <= b.minutes
  }

  /** One entry per name, with the mean over that name's jobs. */
  function AveragesFor(timed: seq<Job>, names: seq<string>): seq<ProcessAvg>
  {
    Map(names, n => ProcessAvg(n, AverageOf(timed, n)))
  }

  /** `_process_avg_durations_minutes(jobs)`: one entry per process name in
      order of first appearance, then stably sorted by average duration. */
  function ProcessAverages(jobs: seq<Job>): seq<ProcessAvg>
  {
    var timed := Filter(jobs, Timed);
    Sort(AveragesFor(timed, Distinct(Map(timed, ProcessName))), MinutesLe)
  }

  lemma MinutesLeTotal()
    ensures TotalPreorder(MinutesLe)
  {
  }

  lemma ProcessAveragesSorted(jobs: seq<Job>)
    ensures SortedBy(ProcessAverages(jobs), MinutesLe)
  {
    var timed := Filter(jobs, Timed);
    MinutesLeTotal();
    SortSorted(AveragesFor(timed, Distinct(Map(timed, ProcessName))), MinutesLe);
  }

  /** Entry `i` is the mean of a process some timed job runs. */
  lemma ProcessAveragesMember(jobs: seq<Job>, i: int) returns (t: int)
    requires 0 <= i < |ProcessAverages(jobs)|
    ensures ProcessAverages(jobs)[i] == ProcessAvg(ProcessAverages(jobs)[i].name, AverageOf(Filter(jobs, Timed), ProcessAverages(jobs)[i].name))
    ensures 0 <= t < |Filter(jobs, Timed)| && ProcessName(Filter(jobs, Timed)[t]) == ProcessAverages(jobs)[i].name
  {
    var timed := Filter(jobs, Timed);
    var names := Distinct(Map(timed, ProcessName));
    var avgs := AveragesFor(timed, names);
    var r := ProcessAverages(jobs);
    var m := PermutationIndex(r, avgs, i);
    assert names[m] in Map(timed, ProcessName);
    t :| 0 <= t < |timed| && Map(timed, ProcessName)[t] == names[m];
  }

  lemma ProcessAveragesDistinct(jobs: seq<Job>)
    ensures forall i, k :: 0 <= i < k < |ProcessAverages(jobs)| ==>
              ProcessAverages(jobs)[i].name != ProcessAverages(jobs)[k].name
  {
    var timed := Filter(jobs, Timed);
    var names := Distinct(Map(timed, ProcessName));
    var avgs := AveragesFor(timed, names);
    var r := ProcessAverages(jobs);
    assert NoDup(avgs);
    NoDupPermutation(avgs, r);
    forall i, k | 0 <= i < k < |r|
      ensures r[i].name != r[k].name
    {
      var _ := ProcessAveragesMember(jobs, i);
      var _ := ProcessAveragesMember(jobs, k);
    }
  }

  /** Every entry names a process and its mean is positive. */
  lemma ProcessAveragesPositive(jobs: seq<Job>, i: int)
    requires 0 <= i < |ProcessAverages(jobs)|
    ensures ProcessAverages(jobs)[i].name != []
    ensures Group(Filter(jobs, Timed), ProcessName, ProcessAverages(jobs)[i].name) != []
    ensures ProcessAverages(jobs)[i].minutes == AverageOf(Filter(jobs, Timed), ProcessAverages(jobs)[i].name)
    ensures ProcessAverages(jobs)[i].minutes > 0.0
  {
    var timed := Filter(jobs, Timed);
    var name := ProcessAverages(jobs)[i].name;
    var t := ProcessAveragesMember(jobs, i);
    var g := Group(timed, ProcessName, name);
    assert timed[t] in g;
    forall k | 0 <= k < |g|
      ensures DurationMinutes(g[k]) > 0.0
    {
      GroupFilterMember(jobs, Timed, ProcessName, name, k);
      DurationPositive(g[k]);
    }
    MeanPositive(g, DurationMinutes);
  }

  lemma ProcessAveragesComplete(jobs: seq<Job>)
    ensures forall k :: 0 <= k < |jobs| && Timed(jobs[k]) ==>
              exists i :: 0 <= i < |ProcessAverages(jobs)| && ProcessAverages(jobs)[i].name == ProcessName(jobs[k])
  {
    forall k | 0 <= k < |jobs| && Timed(jobs[k])
      ensures exists i :: 0 <= i < |ProcessAverages(jobs)| && ProcessAverages(jobs)[i].name == ProcessName(jobs[k])
    {
      var i := ProcessListed(jobs, k);
    }
  }

  lemma ProcessListed(jobs: seq<Job>, k: int) returns (i: int)
    requires 0 <= k < |jobs| && Timed(jobs[k])
    ensures 0 <= i < |ProcessAverages(jobs)| && ProcessAverages(jobs)[i].name == ProcessName(jobs[k])
  {
    var timed := Filter(jobs, Timed);
    var names := Distinct(Map(timed, ProcessName));
    var avgs := AveragesFor(timed, names);
    assert jobs[k] in timed;
    var t :| 0 <= t < |timed| && timed[t] == jobs[k];
    assert Map(timed, ProcessName)[t] == ProcessName(jobs[k]);
    var m :| 0 <= m < |names| && names[m] == ProcessName(jobs[k]);
    i := PermutationIndex(avgs, ProcessAverages(jobs), m);
  }

  /** The averages are sorted by duration, name each process once, each is
      the positive mean over the jobs of its process, and every timed job's
      process is listed. */
  lemma ProcessAveragesSpec(jobs: seq<Job>)
    ensures SortedBy(ProcessAverages(jobs), MinutesLe)
    ensures forall i, k :: 0 <= i < k < |ProcessAverages(jobs)| ==>
              ProcessAverages(jobs)[i].name != ProcessAverages(jobs)[k].name
    ensures forall i :: 0 <= i < |ProcessAverages(jobs)| ==>
              && ProcessAverages(jobs)[i].name != []
              && Group(Filter(jobs, Timed), ProcessName, ProcessAverages(jobs)[i].name) != []
              && ProcessAverages(jobs)[i].minutes == AverageOf(Filter(jobs, Timed), ProcessAverages(jobs)[i].name)
              && ProcessAverages(jobs)[i].minutes > 0.0
    ensures forall k :: 0 <= k < |jobs| && Timed(jobs[k]) ==>
              exists i :: 0 <= i < |ProcessAverages(jobs)| && ProcessAverages(jobs)[i].name == ProcessName(jobs[k])
  {
    ProcessAveragesSorted(jobs);
    ProcessAveragesDistinct(jobs);
    forall i | 0 <= i < |ProcessAverages(jobs)|
      ensures ProcessAverages(jobs)[i].name != []
      ensures Group(Filter(jobs, Timed), ProcessName, ProcessAverages(jobs)[i].name) != []
      ensures ProcessAverages(jobs)[i].minutes == AverageOf(Filter(jobs, Timed), ProcessAverages(jobs)[i].name)
      ensures ProcessAverages(jobs)[i].minutes > 0.0
    {
      ProcessAveragesPositive(jobs, i);
    }
    ProcessAveragesComplete(jobs);
  }

  /** `1 <= dur <= limit` */
  predicate Fits(p: ProcessAvg, limit: real)
  {
    1.0 <= p.minutes <= limit
  }

  /** The suggestion rule: the first five processes that fit into `limit`
      minutes or, when none fits, the first five processes. */
  function Suggest(pd: seq<ProcessAvg>, limit: real): (r: seq<ProcessAvg>)
    ensures |r| <= MAX_SUGGESTIONS
    ensures forall i :: 0 <= i < |r| ==> r[i] in pd
  {
    var fitting := Take(Filter(pd, p => Fits(p, limit)), MAX_SUGGESTIONS);
    if fitting != [] then fitting else Take(pd, MAX_SUGGESTIONS)
  }

  /** When some process fits, only fitting ones are suggested, and a
      fitting process left out is never shorter than a suggested one and
      only left out because five are suggested already. */
  lemma SuggestFitting(pd: seq<ProcessAvg>, limit: real)
    requires SortedBy(pd, MinutesLe)
    requires exists k :: 0 <= k < |pd| && Fits(pd[k], limit)
    ensures Suggest(pd, limit) != []
    ensures forall i :: 0 <= i < |Suggest(pd, limit)| ==> Fits(Suggest(pd, limit)[i], limit)
    ensures forall i, k :: 0 <= i < |Suggest(pd, limit)| && 0 <= k < |pd| && Fits(pd[k], limit)
                           && pd[k] !in Suggest(pd, limit) ==>
              |Suggest(pd, limit)| == MAX_SUGGESTIONS && Suggest(pd, limit)[i].minutes <= pd[k].minutes
  {
    var f := Filter(pd, p => Fits(p, limit));
    var r := Suggest(pd, limit);
    FilterAllOrNone(pd, p => Fits(p, limit));
    FilterSorted(pd, p => Fits(p, limit), MinutesLe);
    assert r == f[..|r|];
    forall i, k | 0 <= i < |r| && 0 <= k < |pd| && Fits(pd[k], limit) && pd[k] !in r
      ensures |r| == MAX_SUGGESTIONS && r[i].minutes <= pd[k].minutes
    {
      assert pd[k] in f;
      var m :| 0 <= m < |f| && f[m] == pd[k];
      assert MinutesLe(f[i], f[m]);
    }
  }

  /** When no process fits, the shortest processes are suggested, up to
      five. */
  lemma SuggestFallback(pd: seq<ProcessAvg>, limit: real)
    requires forall k :: 0 <= k < |pd| ==> !Fits(pd[k], limit)
    ensures Suggest(pd, limit) == pd[..|Suggest(pd, limit)|]
    ensures |Suggest(pd, limit)| == if |pd| <= MAX_SUGGESTIONS then |pd| else MAX_SUGGESTIONS
  {
    FilterAllOrNone(pd, p => Fits(p, limit));
  }

  // ---------------------------------------------------------------------
  // The analysis

  /** The result: both lists sorted by impact, and the totals. */
  datatype Analysis = Analysis(
    recurringIdle: seq<IdleFinding>,
    underutilizedWindows: seq<WindowFinding>,
    totalPotentialHoursWeek: real,
    totalImpactEuroMonth: real)

  /** The query condition: an end, and a start before `tEnd` with the end
      at or after `tStart` (a missing start fails the comparison). */
  predicate InQuery(j: Job, tStart: Time, tEnd: Time)
  {
    j.end.Some? && j.start.Some? && j.start.value < tEnd && j.end.value >= tStart
  }

  /** The jobs of the analysed period, from the start of `today - days`
      to the end of today: exactly the table's jobs with both ends whose
      span reaches into the period. */
  function QueryJobs(table: seq<Job>, today: Date, days: int): (r: seq<Job>)
    ensures forall i :: 0 <= i < |r| ==>
              && r[i] in table && r[i].start.Some? && r[i].end.Some?
              && r[i].start.value < DayEnd(today) && r[i].end.value >= DayStart(today - days)
    ensures forall i ::
              (&& 0 <= i < |table| && table[i].start.Some? && table[i].end.Some?
               && table[i].start.value < DayEnd(today) && table[i].end.value >= DayStart(today - days)) ==>
              table[i] in r
  {
    Filter(table, j => InQuery(j, DayStart(today - days), DayEnd(today)))
  }

  /** A job the 90-day averages are taken over. */
  predicate DurationCandidate(j: Job, today: Date)
  {
    j.processName.Some? && InQuery(j, DayStart(today - DAYS_FOR_DURATIONS), DayEnd(today))
  }

  /** The jobs with a process name over the last 90 days: exactly the
      table's jobs with a process name and both ends whose span reaches
      into the 90 days up to the end of today. */
  function DurationJobs(table: seq<Job>, today: Date): (r: seq<Job>)
    ensures forall i :: 0 <= i < |r| ==>
              && r[i] in table && r[i].processName.Some? && r[i].start.Some? && r[i].end.Some?
              && r[i].start.value < DayEnd(today) && r[i].end.value >= DayStart(today - DAYS_FOR_DURATIONS)
    ensures forall i ::
              (&& 0 <= i < |table| && table[i].processName.Some? && table[i].start.Some? && table[i].end.Some?
               && table[i].start.value < DayEnd(today) && table[i].end.value >= DayStart(today - DAYS_FOR_DURATIONS)) ==>
              table[i] in r
  {
    Filter(table, (j: Job) => DurationCandidate(j, today))
  }

  /** The 90-day averages, or the averages over the period's jobs when
      there are none. */
  function ProcessDurations(table: seq<Job>, today: Date, days: int): seq<ProcessAvg>
  {
    var pd := ProcessAverages(DurationJobs(table, today));
    if pd != [] then pd else ProcessAverages(QueryJobs(table, today, days))
  }

  /** The averages are empty exactly when no job is timed. */
  lemma ProcessAveragesEmpty(jobs: seq<Job>)
    ensures ProcessAverages(jobs) == [] <==> forall k :: 0 <= k < |jobs| ==> !Timed(jobs[k])
  {
    if ProcessAverages(jobs) != [] {
      var t := ProcessAveragesMember(jobs, 0);
      var timed := Filter(jobs, Timed);
      assert timed[t] in jobs && Timed(timed[t]);
    } else {
      forall k | 0 <= k < |jobs|
        ensures !Timed(jobs[k])
      {
        if Timed(jobs[k]) {
          var i := ProcessListed(jobs, k);
        }
      }
    }
  }

  /** The durations behind the suggestions: the 90-day averages when some
      job of those 90 days has a process name and a proper span, and the
      averages over the analysed period's jobs otherwise. */
  lemma ProcessDurationsSpec(table: seq<Job>, today: Date, days: int)
    ensures (exists k :: 0 <= k < |table| && DurationCandidate(table[k], today) && Timed(table[k])) ==>
              ProcessDurations(table, today, days) == ProcessAverages(DurationJobs(table, today))
    ensures (forall k :: 0 <= k < |table| && DurationCandidate(table[k], today) ==> !Timed(table[k])) ==>
              ProcessDurations(table, today, days) == ProcessAverages(QueryJobs(table, today, days))
  {
    var dj := DurationJobs(table, today);
    ProcessAveragesEmpty(dj);
    if exists k :: 0 <= k < |table| && DurationCandidate(table[k], today) && Timed(table[k]) {
      var k :| 0 <= k < |table| && DurationCandidate(table[k], today) && Timed(table[k]);
      assert table[k] in dj;
    } else {
      forall m | 0 <= m < |dj|
        ensures !Timed(dj[m])
      {
        assert dj[m] in table;
      }
    }
  }

  /** Each recurring slot gets the processes that fit its average idle
      minutes. */
  function IdleWithSuggestions(rs: seq<IdleFinding>, pd: seq<ProcessAvg>): (r: seq<IdleFinding>)
    ensures |r| == |rs|
    ensures forall i :: 0 <= i < |r| ==> r[i] == rs[i].(suggested := Suggest(pd, rs[i].avgIdleMinutes))
  {
    seq(|rs|, i requires 0 <= i < |rs| => rs[i].(suggested := Suggest(pd, rs[i].avgIdleMinutes)))
  }

  /** Each window gets the processes of at most 90 minutes. */
  function WindowsWithSuggestions(us: seq<WindowFinding>, pd: seq<ProcessAvg>): (r: seq<WindowFinding>)
    ensures |r| == |us|
    ensures forall i :: 0 <= i < |r| ==> r[i] == us[i].(suggested := Suggest(pd, WINDOW_MAX_MINUTES))
  {
    seq(|us|, i requires 0 <= i < |us| => us[i].(suggested := Suggest(pd, WINDOW_MAX_MINUTES)))
  }

  /** `key=lambda x: x["impact_euro_month"], reverse=True` */
  predicate IdleImpactGe(a: IdleFinding, b: IdleFinding)
  {
    a.impactEuroMonth >= b.impactEuroMonth
  }

  predicate WindowImpactGe(a: WindowFinding, b: WindowFinding)
  {
    a.impactEuroMonth >= b.impactEuroMonth
  }

  function IdlePotential(f: IdleFinding): real
  {
    f.potentialHoursWeek
  }

  function WindowPotential(f: WindowFinding): real
  {
    f.potentialHoursWeek
  }

  /** The last part of `analyze_quickwins`: suggestions, sorting and
      totals over the detectors' findings. */
  function Assemble(found: seq<IdleFinding>, windows: seq<WindowFinding>, pd: seq<ProcessAvg>): Analysis
  {
    var rec := IdleWithSuggestions(found, pd);
    var und := WindowsWithSuggestions(windows, pd);
    var total := SumReal(rec, IdlePotential) + SumReal(und, WindowPotential);
    Analysis(Sort(rec, IdleImpactGe), Sort(und, WindowImpactGe), total, Impact(total))
  }

  /** `analyze_quickwins(db, days)` with the jobs table and today's date as
      inputs. */
  function AnalyzeQuickwins(table: seq<Job>, today: Date, days: int): Analysis
  {
    var jobs := QueryJobs(table, today, days);
    Assemble(FindRecurringIdle(jobs, days, today), FindUnderutilizedWindows(jobs, days, today),
             ProcessDurations(table, today, days))
  }

  lemma ImpactGeTotal()
    ensures TotalPreorder(IdleImpactGe) && TotalPreorder(WindowImpactGe)
  {
  }

  lemma AssembleSorted(found: seq<IdleFinding>, windows: seq<WindowFinding>, pd: seq<ProcessAvg>)
    ensures SortedBy(Assemble(found, windows, pd).recurringIdle, IdleImpactGe)
    ensures SortedBy(Assemble(found, windows, pd).underutilizedWindows, WindowImpactGe)
  {
    ImpactGeTotal();
    SortSorted(IdleWithSuggestions(found, pd), IdleImpactGe);
    SortSorted(WindowsWithSuggestions(windows, pd), WindowImpactGe);
  }

  lemma AssembleTotals(found: seq<IdleFinding>, windows: seq<WindowFinding>, pd: seq<ProcessAvg>)
    ensures Assemble(found, windows, pd).totalPotentialHoursWeek
         == SumReal(Assemble(found, windows, pd).recurringIdle, IdlePotential)
          + SumReal(Assemble(found, windows, pd).underutilizedWindows, WindowPotential)
    ensures Assemble(found, windows, pd).totalImpactEuroMonth
         == 216.5 * Assemble(found, windows, pd).totalPotentialHoursWeek
    ensures |Assemble(found, windows, pd).recurringIdle| == |found|
    ensures |Assemble(found, windows, pd).underutilizedWindows| == |windows|
  {
    SumRealSort(IdleWithSuggestions(found, pd), IdleImpactGe, IdlePotential);
    SumRealSort(WindowsWithSuggestions(windows, pd), WindowImpactGe, WindowPotential);
  }

  lemma AssembleIdleMembers(found: seq<IdleFinding>, windows: seq<WindowFinding>, pd: seq<ProcessAvg>)
    ensures forall i :: 0 <= i < |Assemble(found, windows, pd).recurringIdle| ==>
              exists m :: 0 <= m < |found| &&
                Assemble(found, windows, pd).recurringIdle[i] == found[m].(suggested := Suggest(pd, found[m].avgIdleMinutes))
  {
    var rec := IdleWithSuggestions(found, pd);
    var out := Assemble(found, windows, pd).recurringIdle;
    assert out == Sort(rec, IdleImpactGe);
    forall i | 0 <= i < |out|
      ensures exists m :: 0 <= m < |found| && out[i] == found[m].(suggested := Suggest(pd, found[m].avgIdleMinutes))
    {
      var m := PermutationIndex(out, rec, i);
    }
  }

  lemma AssembleWindowMembers(found: seq<IdleFinding>, windows: seq<WindowFinding>, pd: seq<ProcessAvg>)
    ensures forall i :: 0 <= i < |Assemble(found, windows, pd).underutilizedWindows| ==>
              exists m :: 0 <= m < |windows| &&
                Assemble(found, windows, pd).underutilizedWindows[i] == windows[m].(suggested := Suggest(pd, WINDOW_MAX_MINUTES))
  {
    var und := WindowsWithSuggestions(windows, pd);
    var out := Assemble(found, windows, pd).underutilizedWindows;
    assert out == Sort(und, WindowImpactGe);
    forall i | 0 <= i < |out|
      ensures exists m :: 0 <= m < |windows| && out[i] == windows[m].(suggested := Suggest(pd, WINDOW_MAX_MINUTES))
    {
      var m := PermutationIndex(out, und, i);
    }
  }

  /** When the findings come without suggestions, each returned finding is
      a given one with at most five suggestions added. */
  lemma AssembleStripped(found: seq<IdleFinding>, windows: seq<WindowFinding>, pd: seq<ProcessAvg>)
    requires forall i :: 0 <= i < |found| ==> found[i].suggested == []
    requires forall i :: 0 <= i < |windows| ==> windows[i].suggested == []
    ensures forall i :: 0 <= i < |Assemble(found, windows, pd).recurringIdle| ==>
              && Assemble(found, windows, pd).recurringIdle[i].(suggested := []) in found
              && |Assemble(found, windows, pd).recurringIdle[i].suggested| <= MAX_SUGGESTIONS
    ensures forall i :: 0 <= i < |Assemble(found, windows, pd).underutilizedWindows| ==>
              && Assemble(found, windows, pd).underutilizedWindows[i].(suggested := []) in windows
              && |Assemble(found, windows, pd).underutilizedWindows[i].suggested| <= MAX_SUGGESTIONS
  {
    var a := Assemble(found, windows, pd);
    AssembleIdleMembers(found, windows, pd);
    AssembleWindowMembers(found, windows, pd);
    forall i | 0 <= i < |a.recurringIdle|
      ensures a.recurringIdle[i].(suggested := []) in found && |a.recurringIdle[i].suggested| <= MAX_SUGGESTIONS
    {
      var m :| 0 <= m < |found| && a.recurringIdle[i] == found[m].(suggested := Suggest(pd, found[m].avgIdleMinutes));
      assert a.recurringIdle[i].(suggested := []) == found[m];
    }
    forall i | 0 <= i < |a.underutilizedWindows|
      ensures a.underutilizedWindows[i].(suggested := []) in windows && |a.underutilizedWindows[i].suggested| <= MAX_SUGGESTIONS
    {
      var m :| 0 <= m < |windows| && a.underutilizedWindows[i] == windows[m].(suggested := Suggest(pd, WINDOW_MAX_MINUTES));
      assert a.underutilizedWindows[i].(suggested := []) == windows[m];
    }
  }

  /** Both lists come out sorted by impact, largest first, are
      permutations of the given findings each with its suggestions, and the totals add up the
      potentials of the lists returned. */
  lemma AssembleSpec(found: seq<IdleFinding>, windows: seq<WindowFinding>, pd: seq<ProcessAvg>)
    ensures SortedBy(Assemble(found, windows, pd).recurringIdle, IdleImpactGe)
    ensures SortedBy(Assemble(found, windows, pd).underutilizedWindows, WindowImpactGe)
    ensures Assemble(found, windows, pd).totalPotentialHoursWeek
         == SumReal(Assemble(found, windows, pd).recurringIdle, IdlePotential)
          + SumReal(Assemble(found, windows, pd).underutilizedWindows, WindowPotential)
    ensures Assemble(found, windows, pd).totalImpactEuroMonth
         == 216.5 * Assemble(found, windows, pd).totalPotentialHoursWeek
    ensures |Assemble(found, windows, pd).recurringIdle| == |found|
    ensures |Assemble(found, windows, pd).underutilizedWindows| == |windows|
    ensures multiset(Assemble(found, windows, pd).recurringIdle) == multiset(IdleWithSuggestions(found, pd))
    ensures multiset(Assemble(found, windows, pd).underutilizedWindows) == multiset(WindowsWithSuggestions(windows, pd))
    ensures forall i :: 0 <= i < |Assemble(found, windows, pd).recurringIdle| ==>
              exists m :: 0 <= m < |found| &&
                Assemble(found, windows, pd).recurringIdle[i] == found[m].(suggested := Suggest(pd, found[m].avgIdleMinutes))
    ensures forall i :: 0 <= i < |Assemble(found, windows, pd).underutilizedWindows| ==>
              exists m :: 0 <= m < |windows| &&
                Assemble(found, windows, pd).underutilizedWindows[i] == windows[m].(suggested := Suggest(pd, WINDOW_MAX_MINUTES))
  {
    AssembleSorted(found, windows, pd);
    AssembleTotals(found, windows, pd);
    AssembleIdleMembers(found, windows, pd);
    AssembleWindowMembers(found, windows, pd);
  }

  /** The analysis of the table: both lists sorted by impact, largest
      first, permutations of the detectors' lists with their suggestions,
      and the totals over the potentials of the lists returned. */
  lemma AnalyzeSpec(table: seq<Job>, today: Date, days: int)
    ensures SortedBy(AnalyzeQuickwins(table, today, days).recurringIdle, IdleImpactGe)
    ensures SortedBy(AnalyzeQuickwins(table, today, days).underutilizedWindows, WindowImpactGe)
    ensures AnalyzeQuickwins(table, today, days).totalPotentialHoursWeek
         == SumReal(AnalyzeQuickwins(table, today, days).recurringIdle, IdlePotential)
          + SumReal(AnalyzeQuickwins(table, today, days).underutilizedWindows, WindowPotential)
    ensures AnalyzeQuickwins(table, today, days).totalImpactEuroMonth
         == 216.5 * AnalyzeQuickwins(table, today, days).totalPotentialHoursWeek
    ensures |AnalyzeQuickwins(table, today, days).recurringIdle|
         == |FindRecurringIdle(QueryJobs(table, today, days), days, today)|
    ensures |AnalyzeQuickwins(table, today, days).underutilizedWindows|
         == |FindUnderutilizedWindows(QueryJobs(table, today, days), days, today)|
    ensures multiset(AnalyzeQuickwins(table, today, days).recurringIdle)
         == multiset(IdleWithSuggestions(FindRecurringIdle(QueryJobs(table, today, days), days, today),
                                         ProcessDurations(table, today, days)))
    ensures multiset(AnalyzeQuickwins(table, today, days).underutilizedWindows)
         == multiset(WindowsWithSuggestions(FindUnderutilizedWindows(QueryJobs(table, today, days), days, today),
                                            ProcessDurations(table, today, days)))
  {
    var jobs := QueryJobs(table, today, days);
    AssembleSorted(FindRecurringIdle(jobs, days, today), FindUnderutilizedWindows(jobs, days, today),
                   ProcessDurations(table, today, days));
    AssembleTotals(FindRecurringIdle(jobs, days, today), FindUnderutilizedWindows(jobs, days, today),
                   ProcessDurations(table, today, days));
  }

  /** Each returned finding is one of the detectors' findings over the
      period's jobs, with at most five suggestions. */
  lemma AnalyzeFindings(table: seq<Job>, today: Date, days: int)
    ensures forall i :: 0 <= i < |AnalyzeQuickwins(table, today, days).recurringIdle| ==>
              && AnalyzeQuickwins(table, today, days).recurringIdle[i].(suggested := [])
                   in FindRecurringIdle(QueryJobs(table, today, days), days, today)
              && |AnalyzeQuickwins(table, today, days).recurringIdle[i].suggested| <= MAX_SUGGESTIONS
    ensures forall i :: 0 <= i < |AnalyzeQuickwins(table, today, days).underutilizedWindows| ==>
              && AnalyzeQuickwins(table, today, days).underutilizedWindows[i].(suggested := [])
                   in FindUnderutilizedWindows(QueryJobs(table, today, days), days, today)
              && |AnalyzeQuickwins(table, today, days).underutilizedWindows[i].suggested| <= MAX_SUGGESTIONS
  {
    var jobs := QueryJobs(table, today, days);
    RecurringUnsuggested(jobs, days, today);
    WindowsUnsuggested(jobs, days, today);
    AssembleStripped(FindRecurringIdle(jobs, days, today), FindUnderutilizedWindows(jobs, days, today),
                     ProcessDurations(table, today, days));
  }

  /** The detectors leave the suggestions empty. */
  lemma RecurringUnsuggested(jobs: seq<Job>, days: int, today: Date)
    ensures forall i :: 0 <= i < |FindRecurringIdle(jobs, days, today)| ==>
              FindRecurringIdle(jobs, days, today)[i].suggested == []
  {
    forall i | 0 <= i < |FindRecurringIdle(jobs, days, today)|
      ensures FindRecurringIdle(jobs, days, today)[i].suggested == []
    {
      RecurringIdleSpec(jobs, days, today, FindRecurringIdle(jobs, days, today)[i]);
    }
  }

  lemma WindowsUnsuggested(jobs: seq<Job>, days: int, today: Date)
    ensures forall i :: 0 <= i < |FindUnderutilizedWindows(jobs, days, today)| ==>
              FindUnderutilizedWindows(jobs, days, today)[i].suggested == []
  {
    var util := UtilAt(RpaJobs(jobs), DateList(today, days), days);
    WindowsFromSpec(util, WINDOWS);
    forall i | 0 <= i < |FindUnderutilizedWindows(jobs, days, today)|
      ensures FindUnderutilizedWindows(jobs, days, today)[i].suggested == []
    {
      assert FindUnderutilizedWindows(jobs, days, today)[i] in WindowsFrom(util, WINDOWS);
    }
  }
}
