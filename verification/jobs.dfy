/** Job records as the analytics read them, the timestamp arithmetic they
    share, and the robot identity rule every grouping uses. */
module Jobs {
  import opened Text

  datatype Option<T> = None | Some(value: T)
  {
    /** Python's `x or default` for a value that is either present or None. */
    function GetOr(default: T): T
    {
      if Some? then value else default
    }
  }

  /** A naive local timestamp: microseconds since 1970-01-01 00:00:00. */
  type Time = int

  /** A calendar date as a day number, 0 being 1970-01-01. */
  type Date = int

  const SECOND_US: int := 1000000
  const MINUTE_US: int := 60 * SECOND_US
  const HOUR_US: int := 60 * MINUTE_US
  const DAY_US: int := 24 * HOUR_US

  /** `datetime.combine(d, datetime.min.time())`. */
  function DayStart(d: Date): Time
  {
    d * 86400000000
  }

  /** `datetime.combine(d, datetime.max.time())`: 23:59:59.999999, the last
      microsecond of the day. The source anchors every day end here. */
  function DayEnd(d: Date): Time
  {
    d * 86400000000 + 86399999999
  }

  /** `dt.date()`: the day whose span holds `t`. */
  function DateOf(t: Time): (d: Date)
    ensures DayStart(d) <= t <= DayEnd(d)
  {
    t / 86400000000
  }

  lemma DateOfUnique(t: Time, d: Date)
    requires DayStart(d) <= t <= DayEnd(d)
    ensures DateOf(t) == d
  {
  }

  /** `timedelta.total_seconds() / 60` for a span of `us` microseconds. */
  function Minutes(us: int): real
  {
    us as real / MINUTE_US as real
  }

  /** Python's `min(a, b)` and `max(a, b)` on two floats. */
  function RealMin(a: real, b: real): real
  {
    if a <= b then a else b
  }

  function RealMax(a: real, b: real): real
  {
    if a >= b then a else b
  }

  /** Longer spans are more minutes; none is zero minutes. */
  lemma MinutesMonotone(a: int, b: int)
    requires a <= b
    ensures Minutes(a) <= Minutes(b)
    ensures a >= 0 ==> Minutes(a) >= 0.0
  {
    assert MINUTE_US as real == 60000000.0;
  }

  /** A row of the jobs table. Every column the analytics read may be NULL
      except where the table says otherwise; the model keeps them optional
      because the code tests them. */
  datatype Job = Job(
    robotName: Option<string>,
    machineName: Option<string>,
    processName: Option<string>,
    start: Option<Time>,
    end: Option<Time>,
    state: Option<string>)

  /** Both timestamps present and the end strictly after the start; every
      component silently skips the other jobs. */
  predicate Usable(j: Job)
  {
    j.start.Some? && j.end.Some? && j.start.value < j.end.value
  }

  /** `s or ""` */
  function OrEmpty(s: Option<string>): string
  {
    s.GetOr("")
  }

  /** `j.robot_name or "Unknown"`: an empty name counts as missing. */
  function RobotNameOrUnknown(j: Job): string
  {
    if j.robotName.Some? && j.robotName.value != [] then j.robotName.value else "Unknown"
  }

  /** The robot key: the stripped machine name, or the robot name when the
      machine name is blank. */
  function RobotKey(j: Job): string
  {
    var rn := RobotNameOrUnknown(j);
    var mn := Trim(OrEmpty(j.machineName));
    if mn != [] then mn else rn
  }

  /** The robot key is the stripped machine name when that has any non-space
      character, else the robot name, else "Unknown"; it is never empty. */
  lemma RobotKeyRule(j: Job)
    ensures RobotKey(j) != []
    ensures !IsBlank(OrEmpty(j.machineName)) ==>
              RobotKey(j) == Trim(OrEmpty(j.machineName))
              && !IsSpace(RobotKey(j)[0]) && !IsSpace(RobotKey(j)[|RobotKey(j)| - 1])
    ensures IsBlank(OrEmpty(j.machineName)) && j.robotName.Some? && j.robotName.value != [] ==>
              RobotKey(j) == j.robotName.value
    ensures IsBlank(OrEmpty(j.machineName)) && (j.robotName.None? || j.robotName.value == []) ==>
              RobotKey(j) == "Unknown"
  {
    TrimSpec(OrEmpty(j.machineName));
  }

  /** `"RPA-" in key`: the naming convention that marks production robots. */
  predicate IsRpa(key: string)
  {
    Contains(key, "RPA-")
  }
}
