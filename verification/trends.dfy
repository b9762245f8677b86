/** `calculate_weekly_trends`: the daily utilisation rows of the last days,
    restricted to RPA robots when there are any, grouped by ISO week,
    summarised per week and compared first week against last. */
module Trends {
  import opened Text
  import opened Lists
  import opened Jobs
  import opened IsoWeek

  const EUR_PER_HOUR: real := 50.0
  const WEEKS_PER_MONTH: real := 4.33

  /** A row of the daily utilisation table, with the columns the trends read. */
  datatype UtilRow = UtilRow(
    date: Date,
    robotName: Option<string>,
    utilizationPercent: Option<real>,
    idleHours: Option<real>)

  /** `r.utilization_percent or 0.0` */
  function Util(r: UtilRow): real
  {
    r.utilizationPercent.GetOr(0.0)
  }

  /** `r.idle_hours or 0.0` */
  function Idle(r: UtilRow): real
  {
    r.idleHours.GetOr(0.0)
  }

  function RowKey(r: UtilRow): WeekKey
  {
    Key(r.date)
  }

  function RowDate(r: UtilRow): int
  {
    r.date
  }

  /** The query window: from `today - (n - 1)` to `today`, both included. */
  predicate InWindow(today: Date, n: int, r: UtilRow)
  {
    today - (n - 1) <= r.date <= today
  }

  /** `r.robot_name and "RPA-" in str(r.robot_name)` */
  predicate IsRpaRow(r: UtilRow)
  {
    r.robotName.Some? && r.robotName.value != [] && IsRpa(r.robotName.value)
  }

  /** `rpa_rows if rpa_rows else rows` */
  function UseRows(rows: seq<UtilRow>): seq<UtilRow>
  {
    var rpa := Filter(rows, IsRpaRow);
    if rpa != [] then rpa else rows
  }

  /** When some row belongs to an RPA robot, exactly the RPA rows are used,
      in order; otherwise every row is used. */
  lemma RpaFallback(rows: seq<UtilRow>)
    ensures (exists i :: 0 <= i < |rows| && IsRpaRow(rows[i])) ==>
              UseRows(rows) == Filter(rows, IsRpaRow) && UseRows(rows) != []
              && (forall i :: 0 <= i < |UseRows(rows)| ==> IsRpaRow(UseRows(rows)[i]))
              && (forall i :: 0 <= i < |rows| && IsRpaRow(rows[i]) ==> rows[i] in UseRows(rows))
    ensures (forall i :: 0 <= i < |rows| ==> !IsRpaRow(rows[i])) ==> UseRows(rows) == rows
  {
    FilterAllOrNone(rows, IsRpaRow);
  }

  /** The distinct ISO week keys of the rows, in key order:
      `sorted(week_data.items())`. */
  function Keys(rows: seq<UtilRow>): seq<WeekKey>
  {
    SortedKeys(rows, RowKey, KeyLe)
  }

  lemma KeyLeTotal()
    ensures TotalPreorder(KeyLe)
  {
  }

  lemma KeysSpec(rows: seq<UtilRow>)
    ensures SortedBy(Keys(rows), KeyLe)
    ensures NoDup(Keys(rows))
    ensures forall i :: 0 <= i < |rows| ==> RowKey(rows[i]) in Keys(rows)
    ensures forall i :: 0 <= i < |Keys(rows)| ==> Group(rows, RowKey, Keys(rows)[i]) != []
  {
    KeyLeTotal();
    SortedKeysSpec(rows, RowKey, KeyLe);
  }

  /** One element of `weeks_list`; the date range keeps the first and last
      date rather than their `strftime` text. */
  datatype WeekEntry = WeekEntry(
    weekNumber: string,
    firstDate: Date,
    lastDate: Date,
    avgUtilization: real,
    totalIdleHours: real)

  function EntryOf(items: seq<UtilRow>, k: WeekKey): WeekEntry
    requires items != []
  {
    var dates := Map(items, RowDate);
    WeekEntry(Label(k), MinOf(dates), MaxOf(dates), MeanOf(items, Util), SumReal(items, Idle))
  }

  /** The loop over the sorted groups, skipping an empty one. */
  function Entries(rows: seq<UtilRow>, ks: seq<WeekKey>): seq<WeekEntry>
  {
    if ks == [] then []
    else
      var items := Group(rows, RowKey, ks[0]);
      (if items == [] then [] else [EntryOf(items, ks[0])]) + Entries(rows, ks[1..])
  }

  /** When no group is empty, entry `i` summarises the rows of key `i`. */
  lemma {:induction false} EntriesSpec(rows: seq<UtilRow>, ks: seq<WeekKey>)
    requires forall i :: 0 <= i < |ks| ==> Group(rows, RowKey, ks[i]) != []
    ensures |Entries(rows, ks)| == |ks|
    ensures forall i :: 0 <= i < |ks| ==>
              Entries(rows, ks)[i] == EntryOf(Group(rows, RowKey, ks[i]), ks[i])
  {
    if ks != [] {
      EntriesSpec(rows, ks[1..]);
      var e := Entries(rows, ks);
      var rest := Entries(rows, ks[1..]);
      assert e == [EntryOf(Group(rows, RowKey, ks[0]), ks[0])] + rest;
      forall i | 0 < i < |ks|
        ensures e[i] == EntryOf(Group(rows, RowKey, ks[i]), ks[i])
      {
        assert e[i] == rest[i - 1] && ks[i] == ks[1..][i - 1];
      }
    }
  }

  /** `key=lambda x: x["week_number"]` */
  predicate LabelLe(a: WeekEntry, b: WeekEntry)
  {
    LexLe(a.weekNumber, b.weekNumber)
  }

  lemma LabelLeTotal()
    ensures TotalPreorder(LabelLe)
  {
    forall a: WeekEntry, b: WeekEntry
      ensures LabelLe(a, b) || LabelLe(b, a)
    {
      LexLeTotal(a.weekNumber, b.weekNumber);
    }
    forall a: WeekEntry, b: WeekEntry, c: WeekEntry | LabelLe(a, b) && LabelLe(b, c)
      ensures LabelLe(a, c)
    {
      LexLeTransitive(a.weekNumber, b.weekNumber, c.weekNumber);
    }
  }

  /** The overall trend, first week against last week. */
  datatype Trend = Trend(
    utilizationChange: real,
    idleReductionHoursWeek: real,
    improvementValueEuroMonth: real)

  function AvgOf(e: WeekEntry): real
  {
    e.avgUtilization
  }

  function IdleOf(e: WeekEntry): real
  {
    e.totalIdleHours
  }

  /** With fewer than two weeks everything is zero. Otherwise the change in
      utilisation is last minus first, the idle reduction is first minus
      last (positive when idle time went down), and its value is the
      reduction priced at 50 EUR an hour over 4.33 weeks a month. */
  function OverallTrend(weeks: seq<WeekEntry>): (t: Trend)
    ensures |weeks| < 2 ==> t == Trend(0.0, 0.0, 0.0)
    ensures |weeks| >= 2 ==>
              && t.utilizationChange + weeks[0].avgUtilization == weeks[|weeks| - 1].avgUtilization
              && t.idleReductionHoursWeek + weeks[|weeks| - 1].totalIdleHours == weeks[0].totalIdleHours
    ensures t.improvementValueEuroMonth == 216.5 * t.idleReductionHoursWeek
    ensures t.improvementValueEuroMonth > 0.0 <==> t.idleReductionHoursWeek > 0.0
  {
    if |weeks| >= 2 then
      var first := weeks[0];
      var last := weeks[|weeks| - 1];
      var reduction := first.totalIdleHours - last.totalIdleHours;
      Trend(last.avgUtilization - first.avgUtilization, reduction, reduction * WEEKS_PER_MONTH * EUR_PER_HOUR)
    else
      Trend(0.0, 0.0, 0.0)
  }

  /** The result: `weeks` and `overall_trend`. */
  datatype Report = Report(weeks: seq<WeekEntry>, overallTrend: Trend)

  function WindowRows(rows: seq<UtilRow>, today: Date, lastNDays: int): seq<UtilRow>
  {
    Filter(rows, r => InWindow(today, lastNDays, r))
  }

  /** The rows that feed the weeks: those in the window, restricted to RPA
      robots when any is present. */
  function Used(rows: seq<UtilRow>, today: Date, lastNDays: int): seq<UtilRow>
  {
    UseRows(WindowRows(rows, today, lastNDays))
  }

  /** `calculate_weekly_trends(db, last_n_days)` with the table's rows and
      today's date as inputs: one entry per ISO week with data, ordered by
      label, and the overall trend over them. */
  function WeeklyTrends(rows: seq<UtilRow>, today: Date, lastNDays: int): (rep: Report)
    ensures SortedBy(rep.weeks, LabelLe)
    ensures |rep.weeks| == |Keys(Used(rows, today, lastNDays))|
    ensures multiset(rep.weeks) == multiset(Entries(Used(rows, today, lastNDays), Keys(Used(rows, today, lastNDays))))
    ensures rep.overallTrend == OverallTrend(rep.weeks)
  {
    var use := Used(rows, today, lastNDays);
    var entries := Entries(use, Keys(use));
    KeysSpec(use);
    EntriesSpec(use, Keys(use));
    LabelLeTotal();
    SortSorted(entries, LabelLe);
    var weeks := Sort(entries, LabelLe);
    Report(weeks, OverallTrend(weeks))
  }

  /** Every used row lies in the window. */
  lemma UsedInWindow(rows: seq<UtilRow>, today: Date, lastNDays: int)
    ensures forall i :: 0 <= i < |Used(rows, today, lastNDays)| ==>
              InWindow(today, lastNDays, Used(rows, today, lastNDays)[i])
  {
  }

  /** Each week's entry: its label is the key's label, its first and last
      dates are dates of its rows, every row of that week lies between them,
      and they are at most six days apart because the rows share a
      Monday-to-Sunday week. */
  lemma EntryFacts(items: seq<UtilRow>, k: WeekKey)
    requires items != []
    requires forall i :: 0 <= i < |items| ==> RowKey(items[i]) == k
    ensures EntryOf(items, k).weekNumber == Label(k)
    ensures forall i :: 0 <= i < |items| ==>
              EntryOf(items, k).firstDate <= items[i].date <= EntryOf(items, k).lastDate
    ensures exists i :: 0 <= i < |items| && items[i].date == EntryOf(items, k).firstDate
    ensures exists i :: 0 <= i < |items| && items[i].date == EntryOf(items, k).lastDate
    ensures EntryOf(items, k).lastDate - EntryOf(items, k).firstDate <= 6
  {
    var dates := Map(items, RowDate);
    var e := EntryOf(items, k);
    var lo :| 0 <= lo < |dates| && dates[lo] == e.firstDate;
    var hi :| 0 <= hi < |dates| && dates[hi] == e.lastDate;
    SameKeyIffSameWeek(items[lo].date, items[hi].date);
  }

  /** Total idle hours are conserved: the weekly totals add up to the idle
      hours of the rows used. */
  lemma IdleConserved(rows: seq<UtilRow>, today: Date, lastNDays: int)
    ensures SumReal(WeeklyTrends(rows, today, lastNDays).weeks, IdleOf)
         == SumReal(Used(rows, today, lastNDays), Idle)
  {
    var use := Used(rows, today, lastNDays);
    var ks := Keys(use);
    KeysSpec(use);
    EntriesSpec(use, ks);
    SumRealSort(Entries(use, ks), LabelLe, IdleOf);
    EntriesIdle(use, ks);
    PartitionSum(ks, use, RowKey, Idle);
  }

  lemma {:induction false} EntriesIdle(rows: seq<UtilRow>, ks: seq<WeekKey>)
    requires forall i :: 0 <= i < |ks| ==> Group(rows, RowKey, ks[i]) != []
    ensures SumReal(Entries(rows, ks), IdleOf) == SumGroups(ks, rows, RowKey, Idle)
  {
    if ks != [] {
      EntriesIdle(rows, ks[1..]);
      var items := Group(rows, RowKey, ks[0]);
      var rest := Entries(rows, ks[1..]);
      assert Entries(rows, ks) == [EntryOf(items, ks[0])] + rest;
      assert ([EntryOf(items, ks[0])] + rest)[1..] == rest;
    }
  }

  lemma EntriesAverageInRange(rows: seq<UtilRow>, ks: seq<WeekKey>)
    requires forall i :: 0 <= i < |rows| ==> 0.0 <= Util(rows[i]) <= 100.0
    requires forall i :: 0 <= i < |ks| ==> Group(rows, RowKey, ks[i]) != []
    ensures forall j :: 0 <= j < |Entries(rows, ks)| ==> 0.0 <= Entries(rows, ks)[j].avgUtilization <= 100.0
  {
    EntriesSpec(rows, ks);
    forall j | 0 <= j < |ks|
      ensures 0.0 <= Entries(rows, ks)[j].avgUtilization <= 100.0
    {
      var items := Group(rows, RowKey, ks[j]);
      assert forall t :: 0 <= t < |items| ==> items[t] in rows;
      MeanBounds(items, Util, 0.0, 100.0);
    }
  }

  /** When every used row reports a utilisation between 0 and 100 percent,
      so does every weekly average. */
  lemma AveragesInRange(rows: seq<UtilRow>, today: Date, lastNDays: int)
    requires forall i :: 0 <= i < |Used(rows, today, lastNDays)| ==>
               0.0 <= Util(Used(rows, today, lastNDays)[i]) <= 100.0
    ensures forall i :: 0 <= i < |WeeklyTrends(rows, today, lastNDays).weeks| ==>
              0.0 <= WeeklyTrends(rows, today, lastNDays).weeks[i].avgUtilization <= 100.0
  {
    var use := Used(rows, today, lastNDays);
    var ks := Keys(use);
    var entries := Entries(use, ks);
    KeysSpec(use);
    EntriesAverageInRange(use, ks);
    SortedAveragesInRange(entries);
  }

  lemma SortedAveragesInRange(entries: seq<WeekEntry>)
    requires forall j :: 0 <= j < |entries| ==> 0.0 <= entries[j].avgUtilization <= 100.0
    ensures forall i :: 0 <= i < |Sort(entries, LabelLe)| ==> 0.0 <= Sort(entries, LabelLe)[i].avgUtilization <= 100.0
  {
    var weeks := Sort(entries, LabelLe);
    forall i | 0 <= i < |weeks|
      ensures 0.0 <= weeks[i].avgUtilization <= 100.0
    {
      assert weeks[i] in multiset(entries);
      var j :| 0 <= j < |entries| && entries[j] == weeks[i];
    }
  }

  /** With no row in the window there are no weeks and the trend is zero. */
  lemma NoDataNoWeeks(rows: seq<UtilRow>, today: Date, lastNDays: int)
    requires forall i :: 0 <= i < |rows| ==> !InWindow(today, lastNDays, rows[i])
    ensures WeeklyTrends(rows, today, lastNDays) == Report([], Trend(0.0, 0.0, 0.0))
  {
    FilterAllOrNone(rows, r => InWindow(today, lastNDays, r));
    assert Used(rows, today, lastNDays) == [];
    assert Keys([]) == [];
  }
}
