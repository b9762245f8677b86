# RPA performance dashboard analytics, modelled in Dafny

The dashboard measures how busy a fleet of RPA robots is. The backend reads
the UiPath job history and does four things:
- It computes one utilisation row per robot and calendar day (24/7 basis).
- It finds recurring idle hour slots and under-used day windows, the "quick
  wins", and suggests processes that would fit them.
- It aggregates the daily rows into ISO-week trends.
- It keeps the daily rows in a table through an upsert.

The Streamlit front end formats durations and draws an "idle per day"
panel. For the panel it sweeps each robot's jobs of a completed day in start
order and adds up the gaps.

The model keeps every timestamp as an integer number of microseconds since
1970-01-01 (naive, as the code normalises them) and every date as an epoch
day. A day runs from `DayStart(d)` to the inclusive anchor
`DayEnd(d) = DayStart(d) + 86 399 999 999`, which is Python's
`datetime.combine(d, datetime.max.time())`. Job spans are half-open
intervals `[lo, hi)`. Money and ratios are `real`.

Modules:
- `Text`: whitespace stripping, substring search, Python string order, and
  decimal digits with their round trip.
- `Lists`: stable sort by a total preorder, filter, grouping by a key,
  sorted distinct keys, and sums and means.
- `Jobs`: the job record, the time constants, dates, minutes, and the robot
  key.
- `Intervals`: `_merge_intervals` and what it preserves.
- `Utilization`: the per-day split of jobs, the grouping, and the row
  computed for each group.
- `DailyTable`: the upsert into the daily table.
- `IsoWeek`: ISO 8601 week keys and their labels.
- `Trends`: the weekly trends.
- `QuickWins`: both detectors, the process averages, the suggestions and the
  analysis.
- `Dashboard`: the duration labels and the idle-per-day panel.

Behaviour the model keeps as the code has it, where the documented intent
differs:
- Days end at the inclusive anchor 23:59:59.999999, used as an exclusive
  end. A job running across midnight therefore gives its first day one
  microsecond less than the documented exact split. For example, 23:00 to
  01:00 gives 60 minutes minus 1 µs on day one and 60 minutes on day two
  (`Utilization.MidnightSplit`).
- For the same reason, a job covering a whole hour counts one microsecond
  short of 60 minutes (`QuickWins.FullHourShortOfSixty`).
- A robot with no jobs on a day is idle for 1440 minutes less one
  microsecond (`Dashboard.NoJobsWholeDayIdle`).
- The window detector adds the jobs of all robots without merging them and
  measures them against two robots. Parallel jobs can push a window above
  100 percent (`QuickWins.ParallelJobsOverFullUse`).
- The hour slot runtime adds jobs without merging them
  (`QuickWins.DuplicateCountsTwice`).
- The panel keeps the seven latest job dates before today. The model drops
  today and later dates before sorting instead of after. The list that
  results is the same.

## Model

| member | source | states |
|---|---|---|
| `Intervals.Merge` | backend/calculate_utilization.py:30-41 | the merged list is empty exactly for empty input, is sorted with each interval starting after its predecessor ends, and is never longer than the input |
| `Intervals.MergeUnion` | backend/calculate_utilization.py:30-41 | an instant is covered by the merged list exactly when some input interval covers it |
| `Intervals.MergeIdempotent` | backend/calculate_utilization.py:30-41 | merging a merged list changes nothing |
| `Intervals.MergeOfMerged` | backend/calculate_utilization.py:33-41 | a list that is already sorted and separated is returned unchanged |
| `Intervals.MergeProper` | backend/calculate_utilization.py:35-40 | merging intervals of positive length gives intervals of positive length |
| `Intervals.MergeWithin` | backend/calculate_utilization.py:35-40 | merged intervals stay inside any range holding all the inputs |
| `Intervals.MergeOverlappingPair` | backend/calculate_utilization.py:36-38 | a second interval starting at or before the first one's end, touching included, is joined into one running to the larger end |
| `Intervals.MergeDisjointPair` | backend/calculate_utilization.py:39-40 | a second interval starting after the first one's end is kept apart |
| `Intervals.AbsorbUnion` | backend/calculate_utilization.py:35-40 | one loop step covers the instants of the output so far plus those of the absorbed interval |
| `Intervals.SortByStart` | backend/calculate_utilization.py:33 | the sort by start is a permutation of the input and is sorted by start |
| `Jobs.DateOf` | backend/calculate_utilization.py:16-19 | the date of an instant is the day whose span holds it, and it is the only such day (with `Jobs.DateOfUnique`) |
| `Jobs.RobotKeyRule` | backend/calculate_utilization.py:57-59 | the robot key is the stripped machine name when that is not blank, else the robot name, else "Unknown"; it is never empty (the same rule as backend/services/quickwins_service.py:34-37 and frontend/streamlit_app.py:147-149) |
| `Utilization.DayPieces` | backend/calculate_utilization.py:53-72 | an unusable job yields no piece; every piece lies in its day and in its job, and the pieces come in increasing date order |
| `Utilization.DayPiecesCover` | backend/calculate_utilization.py:60-72 | a usable job's pieces cover exactly its own instants except the last microsecond of each day |
| `Utilization.ClipCovers` | backend/calculate_utilization.py:65-72 | one day's clip covers exactly the job's instants from midnight up to the inclusive day-end anchor |
| `Utilization.MidnightSplit` | backend/calculate_utilization.py:63-72 | a 23:00-01:00 job gives two pieces: one hour less 1 µs on the first day and one hour on the second |
| `Utilization.UnusableIgnored` | backend/calculate_utilization.py:53-56 | jobs with a missing timestamp or end at or before start change no group |
| `Utilization.GroupSpec` | backend/calculate_utilization.py:51-72 | a (date, robot key) group exists exactly for the keys some piece has, and it holds those pieces' spans in job order |
| `Utilization.GroupSound` | backend/calculate_utilization.py:51-72 | every group is non-empty, its spans have positive length inside that day, and some usable job of that robot and day produced it |
| `Utilization.BusyIsLength` | backend/calculate_utilization.py:80-86 | for spans inside the day the defensive re-clip changes nothing: busy time is the sum of lengths |
| `Utilization.MergedLengthBound` | backend/calculate_utilization.py:78-86 | the merged spans of a day add up to no more than the stretch they lie in |
| `Utilization.ComputeRow` | backend/calculate_utilization.py:87-90 | runtime plus idle is exactly 24 hours, both lie in [0, 24], and utilisation is runtime as a percentage of 24 hours |
| `Utilization.RuntimeIsUnionLength` | backend/calculate_utilization.py:78-90 | the runtime is the length of the union of the group's spans in hours and stays below 24, so the cap never binds |
| `Utilization.OverlapCountsOnce` | backend/calculate_utilization.py:75-90 | two overlapping jobs 08:00-08:45 and 08:30-09:00 give one hour of runtime, 23 idle, and 100/24 percent |
| `DailyTable.Put` | backend/calculate_utilization.py:92-106 | an existing key keeps its id and gets the new values; a new key gets the next id; other rows are unchanged and ids stay unique |
| `DailyTable.PutProgress` | backend/calculate_utilization.py:75-107 | one iteration of the upsert loop keeps the loop's progress invariant |
| `DailyTable.Upsert` | backend/calculate_utilization.py:92-107 | afterwards the table holds the old keys and the computed ones, computed keys carry their new values, old keys keep their ids, untouched rows are unchanged, and ids are unique |
| `DailyTable.CalculateAndStore` | backend/calculate_utilization.py:44-109 | the table afterwards has one row per (date, robot key) group computed from that group's spans and obeying the 24-hour rule; rows already present keep their ids, new rows get fresh ids, ids stay unique and other rows are untouched; the count returned is the number of groups |
| `QuickWins.RpaJobs` | backend/services/quickwins_service.py:58-67 | the filter keeps only RPA robots' jobs with a proper span and never grows the list |
| `QuickWins.RpaJobsComplete` | backend/services/quickwins_service.py:58-67 | every job of an RPA robot with both timestamps and end after start is kept |
| `QuickWins.RpaJobsSound` | backend/services/quickwins_service.py:58-67 | every kept entry is the (key, start, end) of such a job |
| `QuickWins.OverlapMinutes` | backend/services/quickwins_service.py:44-48 | the clamped overlap is non-negative, positive exactly when the spans overlap, and no longer than either span |
| `QuickWins.JobOverlapsHour` | backend/services/quickwins_service.py:40-48 | a job's minutes in an hour lie in [0, 60) and are positive exactly when the job starts before the hour's last microsecond and ends after its first |
| `QuickWins.FullHourShortOfSixty` | backend/services/quickwins_service.py:42-48 | a job covering the whole hour counts 60 minutes less one microsecond there |
| `QuickWins.OverlapMonotone` | backend/services/quickwins_service.py:40-48 | a job inside another overlaps every hour by no more |
| `QuickWins.DateList` | backend/services/quickwins_service.py:69-71 | the date list is the `days` consecutive days before today, oldest first, without today |
| `QuickWins.PriorityOf` | backend/services/quickwins_service.py:99 | HIGH exactly from 1000 EUR, MEDIUM exactly from 500 to below 1000, LOW exactly below 500 |
| `QuickWins.PriorityMonotone` | backend/services/quickwins_service.py:99 | a larger impact never gets a lower priority |
| `QuickWins.Impact` | backend/services/quickwins_service.py:97-98 | the monthly impact is 216.5 EUR per weekly hour (4.33 weeks at 50 EUR) |
| `QuickWins.DuplicateCountsTwice` | backend/services/quickwins_service.py:77-82 | a slot's runtime adds jobs without merging, so two copies of one job count twice |
| `QuickWins.IdleMinutes` | backend/services/quickwins_service.py:92 | idle minutes lie in [0, 60], are 60 exactly when nothing ran and 0 exactly when an hour's worth ran |
| `QuickWins.IdlePerDay` | backend/services/quickwins_service.py:89-92 | there is one idle value per date, each between 0 and 60 |
| `QuickWins.AvgIdleBounds` | backend/services/quickwins_service.py:94-95 | the average idle minutes lie in [0, 60], and are 60 when every day was fully idle |
| `QuickWins.SlotBounds` | backend/services/quickwins_service.py:93-96 | idle days never exceed the days looked at and the average lies in [0, 60], so a slot is only reported with at least 4 days |
| `QuickWins.UnusedHourFullyIdle` | backend/services/quickwins_service.py:88-95 | an hour in which the robot never ran is idle on every day for 60 minutes |
| `QuickWins.SlotLabelShape` | backend/services/quickwins_service.py:102 | the slot label has eleven characters showing the hour and the next hour as two digits each |
| `QuickWins.RobotsSpec` | backend/services/quickwins_service.py:74-85 | the robots analysed are sorted, distinct, and exactly those with some job running in some hour of the period |
| `QuickWins.RecurringIdleSpec` | backend/services/quickwins_service.py:84-109 | a finding is reported exactly for an analysed robot and an hour whose slot meets both thresholds, with that slot's figures |
| `QuickWins.FindingsForMember` | backend/services/quickwins_service.py:85-96 | the robot-by-hour loop reports a finding exactly for a listed robot and a qualifying hour |
| `QuickWins.RecurringNeverLow` | backend/services/quickwins_service.py:93-99 | a reported slot was idle on 4 to `days` days for 30 to 60 minutes on average, is worth 3.5 to 7 hours a week, and is never LOW priority |
| `QuickWins.WindowUtilization` | backend/services/quickwins_service.py:142-143 | window utilisation is non-negative and zero without runtime |
| `QuickWins.WindowsFromSpec` | backend/services/quickwins_service.py:130-155 | a window is reported exactly when its utilisation is below the 40 percent target, with that window's figures |
| `QuickWins.WindowFindingBounds` | backend/services/quickwins_service.py:129-155 | each window finding names one of the four windows, reports a utilisation in [0, 40) against a target of 40, and a potential in (0, 33.6] hours a week |
| `QuickWins.NoRpaJobsAllWindows` | backend/services/quickwins_service.py:112-156 | without RPA jobs all four windows are reported in order at 0 percent, 33.6 hours a week each, HIGH priority |
| `QuickWins.AllIdleWindows` | backend/services/quickwins_service.py:130-155 | with no use anywhere every window is reported, in order |
| `QuickWins.ParallelJobsOverFullUse` | backend/services/quickwins_service.py:132-143 | three parallel jobs through the night window of a single day give a utilisation above 100 percent |
| `QuickWins.DurationPositive` | backend/services/quickwins_service.py:169-171 | a job with a proper span has a positive duration in minutes |
| `QuickWins.ProcessAveragesSpec` | backend/services/quickwins_service.py:159-179 | the averages are sorted by duration and name each process once; each is the positive mean over that process's timed jobs; every timed job's process is listed |
| `QuickWins.ProcessAveragesMember` | backend/services/quickwins_service.py:162-177 | each entry is the mean of a process that some timed job runs |
| `QuickWins.ProcessAveragesEmpty` | backend/services/quickwins_service.py:159-179 | the averages are empty exactly when no job has a process name and a proper span |
| `QuickWins.QueryJobs` | backend/services/quickwins_service.py:187-201 | the period's jobs are exactly the table's jobs with an end, a start before the end of today and an end at or after the start of `today - days` |
| `QuickWins.DurationJobs` | backend/services/quickwins_service.py:203-216 | the duration jobs are exactly the table's jobs with a process name, an end, a start before the end of today and an end at or after the start of `today - 90` |
| `QuickWins.ProcessDurationsSpec` | backend/services/quickwins_service.py:203-218 | the 90-day averages are used when some job of those 90 days has a process name and a proper span; otherwise the averages over the period's jobs are |
| `QuickWins.Suggest` | backend/services/quickwins_service.py:227-228 | at most five suggestions, all taken from the process list |
| `QuickWins.SuggestFitting` | backend/services/quickwins_service.py:227-228 | when some process fits, only fitting ones are suggested; a fitting one left out is no shorter than any suggested one and is left out only because five are suggested already |
| `QuickWins.SuggestFallback` | backend/services/quickwins_service.py:228 | when none fits, the first (shortest) processes are suggested, up to five |
| `QuickWins.IdleWithSuggestions` | backend/services/quickwins_service.py:225-228 | every recurring finding keeps its figures and gets the processes fitting its average idle minutes |
| `QuickWins.WindowsWithSuggestions` | backend/services/quickwins_service.py:230-233 | every window finding keeps its figures and gets the processes of at most 90 minutes |
| `QuickWins.AssembleSpec` | backend/services/quickwins_service.py:224-243 | both lists come out sorted by impact, largest first, are permutations of the given findings with their suggestions, and the totals add up the potentials |
| `QuickWins.AnalyzeSpec` | backend/services/quickwins_service.py:182-243 | the analysis lists are sorted by impact and are permutations of the detectors' lists with their suggestions; the total hours add up their potentials and the impact is 216.5 EUR per hour |
| `QuickWins.AnalyzeFindings` | backend/services/quickwins_service.py:192-233 | each returned finding is a detector finding over the period's jobs with at most five suggestions |
| `IsoWeek.KeyRange` | backend/services/trends_service.py:43-44 | the ISO week lies in 1..53 and its Thursday lies in the ISO year |
| `IsoWeek.SameKeyIffSameWeek` | backend/services/trends_service.py:43-44 | two dates share an ISO key exactly when they lie in the same Monday-to-Sunday week |
| `IsoWeek.KeyMonotone` | backend/services/trends_service.py:50 | later weeks have larger keys in tuple order |
| `IsoWeek.YearBoundaryExample` | backend/services/trends_service.py:43-44 | 2021-01-03 is in week 53 of 2020 and 2021-01-04 starts week 1 of 2021 |
| `IsoWeek.LabelOrder` | backend/services/trends_service.py:58-67 | for four-digit years, the labels compare as strings exactly as the keys compare as tuples, and equal labels mean equal keys |
| `Trends.RpaFallback` | backend/services/trends_service.py:32-36 | when any RPA row exists exactly the RPA rows are used, in order; otherwise all rows are used |
| `Trends.UsedInWindow` | backend/services/trends_service.py:21-30 | every row used lies between `today - (n - 1)` and today |
| `Trends.KeysSpec` | backend/services/trends_service.py:39-50 | the week keys are sorted, distinct, include every row's key and each has rows |
| `Trends.EntriesSpec` | backend/services/trends_service.py:49-64 | there is one entry per week key, and it summarises exactly that week's rows |
| `Trends.EntryFacts` | backend/services/trends_service.py:53-58 | a week's label is its key's label, and its first and last dates are dates of its rows that bound all of them, at most six days apart |
| `Trends.OverallTrend` | backend/services/trends_service.py:69-86 | with fewer than two weeks the trend is zero; otherwise the change is last minus first, the idle reduction first minus last, priced at 216.5 EUR per hour |
| `Trends.WeeklyTrends` | backend/services/trends_service.py:16-91 | the weeks are sorted by label and are a permutation of the summaries of the ISO weeks with data, one per week, and the trend is computed over them |
| `Trends.IdleConserved` | backend/services/trends_service.py:47-56 | the weekly idle totals add up to the idle hours of the rows used |
| `Trends.AveragesInRange` | backend/services/trends_service.py:55 | when every row's utilisation is in [0, 100] so is every weekly average |
| `Trends.NoDataNoWeeks` | backend/services/trends_service.py:16-91 | with no rows in the window there are no weeks and the trend is zero |
| `Dashboard.RoundHalfEven` | frontend/streamlit_app.py:47 | the rounded value is within one half of the input and even on a tie |
| `Dashboard.FormatDuration` | frontend/streamlit_app.py:43-55 | the label is the dash exactly for a missing or negative value |
| `Dashboard.FormatDurationReadsBack` | frontend/streamlit_app.py:47-55 | every label reads back as the rounded seconds, cut to whole minutes from one minute on: exact below a minute and never a minute short |
| `Dashboard.FormatDurationRounding` | frontend/streamlit_app.py:47-52 | 59.5 seconds show as "1 min" and 0.5 as "0 s" |
| `Dashboard.FormatDurationHours` | frontend/streamlit_app.py:53-55 | 3600 seconds show as "1h" and 3725 as "1h 02 min" |
| `Dashboard.ClipAll` | frontend/streamlit_app.py:380-383 | the kept clips have positive length and lie inside the day |
| `Dashboard.SweepFollowsFold` | frontend/streamlit_app.py:373-399 | step by step, the sweep's `prev_end` is the end of the merged busy time so far and its idle time is that stretch minus the merged length |
| `Dashboard.RobotIdleIsGapLength` | frontend/streamlit_app.py:369-402 | a robot's idle time is the day's span minus the length of the union of its clipped jobs, so it lies between 0 and the span |
| `Dashboard.IdleComplementsRuntime` | frontend/streamlit_app.py:371-402 | for a robot's spans inside the day, the panel's idle minutes plus 60 times the backend's runtime hours make up the whole day |
| `Dashboard.RobotIdleMinutesSpec` | frontend/streamlit_app.py:371-402 | a robot's idle minutes lie between none and the whole day |
| `Dashboard.NoJobsWholeDayIdle` | frontend/streamlit_app.py:373-402 | a robot without jobs that day is idle for the whole day, 1440 minutes less one microsecond |
| `Dashboard.DayIdleSpec` | frontend/streamlit_app.py:361-410 | a day has a total exactly when some RPA job overlaps it, and the total lies between 0 and the 2880-minute cap |
| `Dashboard.CapUnreachedForTwoRobots` | frontend/streamlit_app.py:369-410 | with at most two robots that day the cap never binds: the total is the plain sum of their idle minutes |
| `Dashboard.JobDatesSpec` | frontend/streamlit_app.py:350-352 | a date is a job date exactly when some job starts or ends on it |
| `Dashboard.DatesToShowSound` | frontend/streamlit_app.py:350-354 | the days shown are at most seven distinct job dates before today, latest first |
| `Dashboard.DatesToShowComplete` | frontend/streamlit_app.py:352-354 | a job date before today that is not shown is older than every date shown, and then seven are shown |
| `Dashboard.ReportForSpec` | frontend/streamlit_app.py:356-368 | the loop reports a day exactly when it is listed and has a total, and carries that total |
| `Dashboard.IdleReportSpec` | frontend/streamlit_app.py:350-410 | the panel shows a day exactly when it is among the dates shown and some RPA job overlaps it, with a total within the cap |

## Left out

- Database access: queries, sessions, commits, rollbacks and `init_tables` are not modelled. The jobs and the daily table are parameters, and the upsert works on a map from (date, robot key) to a row with an id.
- The current date: `datetime.now()` and `date.today()` become a `today` parameter.
- `_to_naive` and time zones: timestamps are modelled as naive microsecond counts.
- `_to_date` on plain dates: only datetimes are modelled.
- Floating point: quantities are exact reals, and `round(x, n)` for reports is the identity. Only `int(round(x))` in `_format_duration` is modelled, with Python's round-half-even.
- QuickWins.Suggest: the source bounds a slot's suggestions by its average idle minutes after rounding them to one decimal (backend/services/quickwins_service.py:104, 226). The model passes the unrounded average, so a process whose mean lies between the two values can be suggested differently.
- The week key fallback for date objects without `isocalendar` (`backend/services/trends_service.py:45-46`) is left out. It cannot happen for Python dates.
- The `date_range` string built with `strftime`: a week entry keeps its first and last dates instead.
- Rendering is not modelled: the timeline entries, `_format_idle_min`, the expander titles and the `ROBOT_NAME_MAP` display names.
- Tie order: `sort_values("start_time")` in pandas is not a stable sort, while the model uses a stable sort. The model's sweep follows one fixed order among jobs with equal starts. It does not prove that every other order sorted by start gives the same totals.
- Python's date limits (years 1 to 9999): dates are unbounded integers.
- Dashboard.RobotIdleMinutesSpec: states only the bounds of a robot's idle minutes. The exact value, the day's span minus the merged length, is stated in microseconds by `Dashboard.RobotIdleIsGapLength`; converting that equality to minutes is left out.
