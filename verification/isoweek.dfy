/** ISO 8601 week numbering of epoch days, as `date.isocalendar()` gives
    it: weeks run Monday to Sunday, and a week belongs to the year that
    holds its Thursday. Also the `"{year}-KW{week:02d}"` label the weekly
    trends print. */
module IsoWeek {
  import opened Text

  /** The epoch day of January 1 of year `y` in the proleptic Gregorian
      calendar: Python's `date(y, 1, 1).toordinal() - date(1970, 1, 1).toordinal()`. */
  function Jan1(y: int): int
  {
    365 * (y - 1) + (y - 1) / 4 - (y - 1) / 100 + (y - 1) / 400 - 719162
  }

  predicate IsLeap(y: int)
  {
    y % 4 == 0 && (y % 100 != 0 || y % 400 == 0)
  }

  lemma Step4(y: int)
    ensures y / 4 - (y - 1) / 4 == if y % 4 == 0 then 1 else 0
  {
  }

  lemma Step100(y: int)
    ensures y / 100 - (y - 1) / 100 == if y % 100 == 0 then 1 else 0
  {
  }

  lemma Step400(y: int)
    ensures y / 400 - (y - 1) / 400 == if y % 400 == 0 then 1 else 0
    ensures y % 400 == 0 ==> y % 100 == 0 && y % 4 == 0
    ensures y % 100 == 0 ==> y % 4 == 0
  {
  }

  /** Year `y` has 366 days when it is a leap year and 365 otherwise. */
  lemma YearLength(y: int)
    ensures Jan1(y + 1) - Jan1(y) == if IsLeap(y) then 366 else 365
  {
    Step4(y);
    Step100(y);
    Step400(y);
  }

  lemma {:induction false} Jan1Monotone(a: int, b: int)
    requires a < b
    ensures Jan1(a) + 365 <= Jan1(b)
    decreases b - a
  {
    YearLength(a);
    if a + 1 < b {
      Jan1Monotone(a + 1, b);
    }
  }

  /** Counting years upwards from `y`. */
  function YearUp(d: int, y: int): (r: int)
    requires Jan1(y) <= d
    ensures Jan1(r) <= d < Jan1(r + 1)
    decreases d - Jan1(y)
  {
    YearLength(y);
    if d < Jan1(y + 1) then y else YearUp(d, y + 1)
  }

  /** Counting years downwards from `y`. */
  function YearDown(d: int, y: int): (r: int)
    requires d < Jan1(y + 1)
    ensures Jan1(r) <= d < Jan1(r + 1)
    decreases Jan1(y) - d
  {
    YearLength(y - 1);
    if Jan1(y) <= d then y else YearDown(d, y - 1)
  }

  /** `date.year` of epoch day `d`: the year whose January 1 is the last
      one at or before `d`. */
  function YearOf(d: int): (y: int)
    ensures Jan1(y) <= d < Jan1(y + 1)
  {
    if d >= 0 then YearUp(d, 1970) else YearDown(d, 1969)
  }

  /** The year of a day is determined by the January 1 bracketing it. */
  lemma YearOfUnique(d: int, y: int)
    requires Jan1(y) <= d < Jan1(y + 1)
    ensures YearOf(d) == y
  {
    var r := YearOf(d);
    if r < y {
      Jan1Monotone(r, y);
      if r + 1 < y {
        Jan1Monotone(r + 1, y);
      }
    } else if r > y {
      Jan1Monotone(y, r);
      if y + 1 < r {
        Jan1Monotone(y + 1, r);
      }
    }
  }

  lemma YearOfMonotone(d1: int, d2: int)
    requires d1 <= d2
    ensures YearOf(d1) <= YearOf(d2)
  {
    var y1, y2 := YearOf(d1), YearOf(d2);
    if y2 < y1 {
      if y2 + 1 < y1 {
        Jan1Monotone(y2 + 1, y1);
      }
    }
  }

  /** The Monday of the Monday-to-Sunday week holding `d`; epoch day 0,
      1970-01-01, was a Thursday. */
  function Monday(d: int): (m: int)
    ensures m <= d < m + 7
  {
    d - (d + 3) % 7
  }

  /** The Thursday of that week: it decides the week's ISO year. */
  function Thursday(d: int): (t: int)
    ensures t % 7 == 0
    ensures t - 3 <= d < t + 4
  {
    Monday(d) + 3
  }

  /** `d.isocalendar()[:2]`: the ISO year and week of `d`. */
  datatype WeekKey = WeekKey(year: int, week: int)

  /** The ISO year is the calendar year of the week's Thursday and the week
      counts the Thursdays of that year up to this one. */
  function Key(d: int): WeekKey
  {
    var t := Thursday(d);
    var y := YearOf(t);
    WeekKey(y, (t - Jan1(y)) / 7 + 1)
  }

  /** The week's Thursday lies in the key's year and the week number is
      between 1 and 53. */
  lemma KeyRange(d: int)
    ensures 1 <= Key(d).week <= 53
    ensures Jan1(Key(d).year) <= Thursday(d) < Jan1(Key(d).year + 1)
  {
    YearLength(YearOf(Thursday(d)));
  }

  /** Two days share an ISO week key exactly when they share a Monday, that
      is, lie in the same Monday-to-Sunday week. */
  lemma SameKeyIffSameWeek(d1: int, d2: int)
    ensures Key(d1) == Key(d2) <==> Monday(d1) == Monday(d2)
  {
    if Key(d1) == Key(d2) {
      var t1, t2 := Thursday(d1), Thursday(d2);
      var j := Jan1(Key(d1).year);
      SameQuotientClose(t1 - j, t2 - j);
      CloseMultiplesEqual(t1, t2);
    }
  }

  lemma SameQuotientClose(x1: int, x2: int)
    requires x1 / 7 == x2 / 7
    ensures -7 < x1 - x2 < 7
  {
  }

  lemma CloseMultiplesEqual(t1: int, t2: int)
    requires t1 % 7 == 0 && t2 % 7 == 0 && -7 < t1 - t2 < 7
    ensures t1 == t2
  {
  }

  /** `(year, week)` tuple order, as Python compares the keys. */
  predicate KeyLe(a: WeekKey, b: WeekKey)
  {
    a.year < b.year || (a.year == b.year && a.week <= b.week)
  }

  /** Later weeks have larger keys: key order is calendar order. */
  lemma KeyMonotone(d1: int, d2: int)
    requires Monday(d1) <= Monday(d2)
    ensures KeyLe(Key(d1), Key(d2))
  {
    YearOfMonotone(Thursday(d1), Thursday(d2));
  }

  /** 2021-01-03, a Sunday, is in week 53 of 2020; the next day, a Monday,
      starts week 1 of 2021. */
  lemma YearBoundaryExample()
    ensures Key(18630) == WeekKey(2020, 53)
    ensures Key(18631) == WeekKey(2021, 1)
  {
    assert Jan1(2020) == 18262 && Jan1(2021) == 18628 && Jan1(2022) == 18993;
    assert Thursday(18630) == 18627;
    YearOfUnique(18627, 2020);
    assert Thursday(18631) == 18634;
    YearOfUnique(18634, 2021);
  }

  /** `f"{iso_year}-KW{iso_week:02d}"`. */
  function Label(k: WeekKey): string
  {
    IntToString(k.year) + "-KW" + Pad2(if k.week < 0 then 0 else k.week)
  }

  /** For four-digit years the labels compare as strings exactly as the keys
      compare as tuples, so sorting weeks by label keeps them in calendar
      order. */
  lemma LabelOrder(a: WeekKey, b: WeekKey)
    requires 1000 <= a.year <= 9999 && 1000 <= b.year <= 9999
    requires 1 <= a.week <= 53 && 1 <= b.week <= 53
    ensures LexLe(Label(a), Label(b)) <==> KeyLe(a, b)
    ensures Label(a) == Label(b) <==> a == b
  {
    var ya, yb := NatToString(a.year), NatToString(b.year);
    assert Pow10(3) == 1000 && Pow10(4) == 10000;
    NatToStringWidth(a.year, 4);
    NatToStringWidth(b.year, 4);
    var wa, wb := Pad2(a.week), Pad2(b.week);
    Pad2Spec(a.week);
    Pad2Spec(b.week);
    assert Label(a) == ya + ("-KW" + wa);
    assert Label(b) == yb + ("-KW" + wb);
    LexLeConcat(ya, yb, "-KW" + wa, "-KW" + wb);
    LexLeConcat("-KW", "-KW", wa, wb);
    LexLeDigits(ya, yb);
    LexLeDigits(wa, wb);
    if ya == yb {
      assert a.year == b.year;
    }
    if Label(a) == Label(b) {
      assert ya == Label(a)[..4] == Label(b)[..4] == yb;
      assert wa == Label(a)[7..] == Label(b)[7..] == wb;
    }
  }
}
