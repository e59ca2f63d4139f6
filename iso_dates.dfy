/**
  Proleptic Gregorian dates and ISO 8601 week dates, computed the way the
  Python's `datetime.date` computes them: ordinals count days from
  0001-01-01 (ordinal 1), `Weekday` runs Monday = 0 .. Sunday = 6, and the
  ISO calendar of a date is found from the Monday of ISO week 1 of its
  year. `/` and `%` by a positive constant are floor division and modulo,
  exactly as in Python.
*/
module IsoDates {

  /** The smallest and largest year a `datetime.date` accepts. */
  const MIN_YEAR := 1
  const MAX_YEAR := 9999

  datatype Date = Date(year: int, month: int, day: int)

  /** The triple returned by `date.isocalendar()`. */
  datatype IsoDate = IsoDate(isoYear: int, week: int, weekday: int)

  /** Gregorian leap-year rule. */
  predicate IsLeapYear(y: int) {
    y % 4 == 0 && (y % 100 != 0 || y % 400 == 0)
  }

  function DaysInYear(y: int): (n: int)
    ensures n == 365 || n == 366
    ensures n == 366 <==> IsLeapYear(y)
  {
    if IsLeapYear(y) then 366 else 365
  }

  function DaysInMonth(y: int, m: int): (n: int)
    requires 1 <= m <= 12
    ensures 28 <= n <= 31
    ensures m == 2 ==> (n == 29 <==> IsLeapYear(y))
  {
    if m == 2 then (if IsLeapYear(y) then 29 else 28)
    else if m == 4 || m == 6 || m == 9 || m == 11 then 30
    else 31
  }

  /** Days in the years before `y`, counted from year 1. */
  function DaysBeforeYear(y: int): int {
    var p := y - 1;
    p * 365 + p / 4 - p / 100 + p / 400
  }

  /** Days in the months of year `y` before month `m` (a table plus the leap day). */
  function DaysBeforeMonth(y: int, m: int): int
    requires 1 <= m <= 12
  {
    var table :=
      if m == 1 then 0 else if m == 2 then 31 else if m == 3 then 59
      else if m == 4 then 90 else if m == 5 then 120 else if m == 6 then 151
      else if m == 7 then 181 else if m == 8 then 212 else if m == 9 then 243
      else if m == 10 then 273 else if m == 11 then 304 else 334;
    if m > 2 && IsLeapYear(y) then table + 1 else table
  }

  /** What the `date` constructor accepts; any other triple raises ValueError. */
  predicate ValidDate(dt: Date) {
    MIN_YEAR <= dt.year <= MAX_YEAR && 1 <= dt.month <= 12 &&
    1 <= dt.day <= DaysInMonth(dt.year, dt.month)
  }

  /** Proleptic Gregorian ordinal: 0001-01-01 is day 1. */
  function Ordinal(dt: Date): int
    requires 1 <= dt.month <= 12
  {
    DaysBeforeYear(dt.year) + DaysBeforeMonth(dt.year, dt.month) + dt.day
  }

  /** Day of the week of an ordinal, Monday = 0 .. Sunday = 6. */
  function Weekday(t: int): (wd: int)
    ensures 0 <= wd < 7
  {
    (t + 6) % 7
  }

  /** ISO weekday of a date, Monday = 1 .. Sunday = 7. */
  function IsoWeekday(dt: Date): (wd: int)
    requires 1 <= dt.month <= 12
    ensures 1 <= wd <= 7
  {
    Weekday(Ordinal(dt)) + 1
  }

  /**
    The Monday that starts ISO week 1 of year `y`: the Monday of the week
    that holds the year's first Thursday.
  */
  function Week1Monday(y: int): (r: int)
    ensures Weekday(r) == 0
    ensures DaysBeforeYear(y) < r + 3 <= DaysBeforeYear(y) + 7
  {
    var firstDay := DaysBeforeYear(y) + 1;
    var firstWeekday := Weekday(firstDay);
    MondayOnOrBefore(firstDay);
    if firstWeekday > 3 then firstDay - firstWeekday + 7 else firstDay - firstWeekday
  }

  /** The Monday on or before ordinal `t`, and the Monday after it, are Mondays. */
  lemma MondayOnOrBefore(t: int)
    ensures Weekday(t - Weekday(t)) == 0 && Weekday(t - Weekday(t) + 7) == 0
  {
    var q := (t + 6) / 7;
    assert t + 6 == 7 * q + Weekday(t);
    assert t - Weekday(t) + 6 == 7 * q;
    assert t - Weekday(t) + 7 + 6 == 7 * (q + 1);
  }

  /** `date.isocalendar()`: ISO year, ISO week and ISO weekday of a date. */
  function IsoCalendar(dt: Date): (iso: IsoDate)
    requires ValidDate(dt)
    ensures iso.weekday == IsoWeekday(dt)
    ensures 1 <= iso.week <= 53
    ensures dt.year - 1 <= iso.isoYear <= dt.year + 1
  {
    var today := Ordinal(dt);
    var week1 := Week1Monday(dt.year);
    var week, day := (today - week1) / 7, (today - week1) % 7;
    OrdinalInYear(dt);
    YearLength(dt.year - 1);
    YearLength(dt.year);
    MondayOffset(week1, today);
    if week < 0 then
      var previous := Week1Monday(dt.year - 1);
      MondayOffset(previous, today);
      IsoDate(dt.year - 1, (today - previous) / 7 + 1, (today - previous) % 7 + 1)
    else if week >= 52 && today >= Week1Monday(dt.year + 1) then
      IsoDate(dt.year + 1, 1, day + 1)
    else
      IsoDate(dt.year, week + 1, day + 1)
  }

  // ---------------------------------------------------------------------
  // Facts about the calendar arithmetic
  // ---------------------------------------------------------------------

  /** Consecutive values of `DaysBeforeYear` are one year's length apart. */
  lemma YearLength(y: int)
    ensures DaysBeforeYear(y + 1) == DaysBeforeYear(y) + DaysInYear(y)
  {
    var p := y - 1;
    FloorStep(p, 4);
    FloorStep(p, 100);
    FloorStep(p, 400);
    if y % 400 == 0 {
      assert y == 400 * (y / 400);
      assert y % 100 == 0 && y % 4 == 0;
    } else if y % 100 == 0 {
      assert y == 100 * (y / 100);
      assert y % 4 == 0;
    }
  }

  /** Floor division by `k` steps up by one exactly at the multiples of `k`. */
  lemma FloorStep(p: int, k: int)
    requires k == 4 || k == 100 || k == 400
    ensures (p + 1) / k == p / k + (if (p + 1) % k == 0 then 1 else 0)
  {
  }

  /** The month table adds up: each month starts where the previous one ends. */
  lemma DaysBeforeMonthStep(y: int, m: int)
    requires 1 <= m <= 12
    ensures m == 1 ==> DaysBeforeMonth(y, m) == 0
    ensures m < 12 ==> DaysBeforeMonth(y, m + 1) == DaysBeforeMonth(y, m) + DaysInMonth(y, m)
    ensures m == 12 ==> DaysBeforeMonth(y, m) + DaysInMonth(y, m) == DaysInYear(y)
  {
  }

  /** Months before `m` take no more days than months before `n` when m <= n. */
  lemma DaysBeforeMonthMonotone(y: int, m: int, n: int)
    requires 1 <= m <= n <= 12
    decreases n - m
    ensures DaysBeforeMonth(y, m) + (if m < n then DaysInMonth(y, m) else 0) <= DaysBeforeMonth(y, n)
  {
    if m < n {
      DaysBeforeMonthStep(y, m);
      if m + 1 < n {
        DaysBeforeMonthMonotone(y, m + 1, n);
      }
    }
  }

  /** A valid date's ordinal lies within its own year. */
  lemma OrdinalInYear(dt: Date)
    requires ValidDate(dt)
    ensures DaysBeforeYear(dt.year) < Ordinal(dt) <= DaysBeforeYear(dt.year + 1)
  {
    DaysBeforeMonthMonotone(dt.year, dt.month, 12);
    DaysBeforeMonthStep(dt.year, 12);
    YearLength(dt.year);
  }

  /** Two valid dates of one year with the same ordinal are the same date. */
  lemma OrdinalInjective(a: Date, b: Date)
    requires ValidDate(a) && ValidDate(b) && a.year == b.year
    requires Ordinal(a) == Ordinal(b)
    ensures a == b
  {
    if a.month < b.month {
      DaysBeforeMonthMonotone(a.year, a.month, b.month);
    } else if b.month < a.month {
      DaysBeforeMonthMonotone(a.year, b.month, a.month);
    }
  }

  /** Counted from a Monday, the offset modulo 7 is the weekday. */
  lemma MondayOffset(monday: int, t: int)
    requires Weekday(monday) == 0
    ensures (t - monday) % 7 == Weekday(t)
  {
    var k := (monday + 6) / 7;
    assert monday == 7 * k - 6;
  }

  /** ISO week 1 of the next year starts 52 or 53 weeks after that of this year. */
  lemma WeeksInYear(y: int)
    ensures var span := Week1Monday(y + 1) - Week1Monday(y);
      span % 7 == 0 && 364 <= span <= 371
  {
    YearLength(y);
    MondayOffset(Week1Monday(y), Week1Monday(y + 1));
  }
  /**
    How `IsoCalendar` sorts a date of year `y`: before ISO week 1 of `y` it
    belongs to the last week of `y - 1`, from ISO week 1 of `y + 1` on it is
    in week 1 of `y + 1`, and otherwise its week counts whole weeks from
    ISO week 1 of `y`.
  */
  lemma IsoCalendarCases(dt: Date)
    requires ValidDate(dt)
    ensures var t, y, iso := Ordinal(dt), dt.year, IsoCalendar(dt);
      && (t < Week1Monday(y) ==>
            iso.isoYear == y - 1 && iso.week == (t - Week1Monday(y - 1)) / 7 + 1)
      && (Week1Monday(y) <= t < Week1Monday(y + 1) ==>
            iso.isoYear == y && iso.week == (t - Week1Monday(y)) / 7 + 1)
      && (Week1Monday(y + 1) <= t ==>
            iso.isoYear == y + 1 && iso.week == 1)
  {
    WeeksInYear(dt.year);
    if Ordinal(dt) < Week1Monday(dt.year) {
      IsoCalendarBefore(dt);
    } else if Ordinal(dt) < Week1Monday(dt.year + 1) {
      IsoCalendarWithin(dt);
    } else {
      IsoCalendarAfter(dt);
    }
  }

  /** A date before ISO week 1 of its year is in the last week of the year before. */
  lemma IsoCalendarBefore(dt: Date)
    requires ValidDate(dt) && Ordinal(dt) < Week1Monday(dt.year)
    ensures var iso := IsoCalendar(dt);
      iso.isoYear == dt.year - 1 && iso.week == (Ordinal(dt) - Week1Monday(dt.year - 1)) / 7 + 1
  {
    var today, previous := Ordinal(dt), Week1Monday(dt.year - 1);
    BeforeFirstWeek(today - Week1Monday(dt.year));
    assert IsoCalendar(dt) == IsoDate(dt.year - 1, (today - previous) / 7 + 1, (today - previous) % 7 + 1);
  }

  /** A date from ISO week 1 of its year up to that of the next counts whole weeks from the first. */
  lemma IsoCalendarWithin(dt: Date)
    requires ValidDate(dt) && Week1Monday(dt.year) <= Ordinal(dt) < Week1Monday(dt.year + 1)
    ensures var iso := IsoCalendar(dt);
      iso.isoYear == dt.year && iso.week == (Ordinal(dt) - Week1Monday(dt.year)) / 7 + 1
  {
    FromFirstWeek(Ordinal(dt) - Week1Monday(dt.year));
  }

  /** A date on or after ISO week 1 of the next year is in that week. */
  lemma IsoCalendarAfter(dt: Date)
    requires ValidDate(dt) && Week1Monday(dt.year + 1) <= Ordinal(dt)
    ensures var iso := IsoCalendar(dt);
      iso.isoYear == dt.year + 1 && iso.week == 1
  {
    WeeksInYear(dt.year);
    FiftyTwoWeeks(Ordinal(dt) - Week1Monday(dt.year));
  }

  /** A day before ISO week 1 lies a negative number of weeks after it. */
  lemma BeforeFirstWeek(offset: int)
    requires offset < 0
    ensures offset / 7 < 0
  {
  }

  /** A day from ISO week 1 on lies a non-negative number of weeks after it. */
  lemma FromFirstWeek(offset: int)
    requires 0 <= offset
    ensures 0 <= offset / 7
  {
  }

  /** A day 364 or more days after the Monday of ISO week 1 lies at least 52 weeks after it. */
  lemma FiftyTwoWeeks(offset: int)
    requires 364 <= offset
    ensures 52 <= offset / 7
  {
  }

  /** The year an ordinal falls in. */
  ghost predicate InYear(t: int, y: int) {
    DaysBeforeYear(y) < t <= DaysBeforeYear(y + 1)
  }

  /** The Thursday of the Monday-to-Sunday week that holds ordinal `t`. */
  function ThursdayOf(t: int): int {
    t - Weekday(t) + 3
  }

  /**
    ISO 8601 week-date rule: a week belongs to the year that holds its
    Thursday, and weeks of that year are numbered from the one holding its
    first Thursday. `IsoCalendar` agrees with this definition on every
    valid date.
  */
  lemma IsoCalendarThursdayRule(dt: Date)
    requires ValidDate(dt)
    ensures var iso, th := IsoCalendar(dt), ThursdayOf(Ordinal(dt));
      InYear(th, iso.isoYear) && iso.week == (th - DaysBeforeYear(iso.isoYear) - 1) / 7 + 1
  {
    var t, y, iso := Ordinal(dt), dt.year, IsoCalendar(dt);
    OrdinalInYear(dt);
    IsoCalendarCases(dt);
    ThursdayRuleForOrdinal(y, t, iso.isoYear, iso.week);
  }

  /** `IsoCalendarThursdayRule` for an ordinal `t` of year `y`, given how `IsoCalendar` sorts it. */
  lemma ThursdayRuleForOrdinal(y: int, t: int, isoYear: int, week: int)
    requires InYear(t, y)
    requires t < Week1Monday(y) ==> isoYear == y - 1 && week == (t - Week1Monday(y - 1)) / 7 + 1
    requires Week1Monday(y) <= t < Week1Monday(y + 1) ==> isoYear == y && week == (t - Week1Monday(y)) / 7 + 1
    requires Week1Monday(y + 1) <= t ==> isoYear == y + 1 && week == 1
    ensures InYear(ThursdayOf(t), isoYear) && week == (ThursdayOf(t) - DaysBeforeYear(isoYear) - 1) / 7 + 1
  {
    if t < Week1Monday(y) {
      LateInPreviousWeekYear(y, t);
      ThursdayRuleInWeekYear(y - 1, y, t, isoYear, week);
    } else if t < Week1Monday(y + 1) {
      ThursdayRuleInWeekYear(y, y + 1, t, isoYear, week);
    } else {
      EarlyInNextWeekYear(y, t);
      ThursdayRuleInWeekYear(y + 1, y + 2, t, isoYear, week);
    }
  }

  /** `ThursdayRuleForOrdinal` for an ordinal `t` of ISO week-year `wy`, whose successor is `next`. */
  lemma ThursdayRuleInWeekYear(wy: int, next: int, t: int, isoYear: int, week: int)
    requires next == wy + 1 && Week1Monday(wy) <= t < Week1Monday(next)
    requires isoYear == wy && week == (t - Week1Monday(wy)) / 7 + 1
    ensures InYear(ThursdayOf(t), isoYear) && week == (ThursdayOf(t) - DaysBeforeYear(isoYear) - 1) / 7 + 1
  {
    ThursdayInWeekYear(wy, t);
  }

  /** A day of `y` before ISO week 1 of `y` is on or after ISO week 1 of `y - 1`. */
  lemma LateInPreviousWeekYear(y: int, t: int)
    requires InYear(t, y) && t < Week1Monday(y)
    ensures Week1Monday(y - 1) <= t
  {
    YearLength(y - 1);
  }

  /** A day of `y` from ISO week 1 of `y + 1` on lies in that week. */
  lemma EarlyInNextWeekYear(y: int, t: int)
    requires InYear(t, y) && Week1Monday(y + 1) <= t
    ensures t < Week1Monday(y + 2) && (t - Week1Monday(y + 1)) / 7 == 0
  {
    YearLength(y + 1);
  }

  /**
    A day between ISO week 1 of `y` and ISO week 1 of `y + 1` has its
    Thursday in year `y`, and counts as many whole weeks from the Monday of
    week 1 as its Thursday counts from 1 January.
  */
  lemma ThursdayInWeekYear(y: int, t: int)
    requires Week1Monday(y) <= t < Week1Monday(y + 1)
    ensures InYear(ThursdayOf(t), y)
    ensures (ThursdayOf(t) - DaysBeforeYear(y) - 1) / 7 == (t - Week1Monday(y)) / 7
  {
    var w, w1 := Week1Monday(y), Week1Monday(y + 1);
    var k := (t - w) / 7;
    MondayOffset(w, t);
    assert t - w == 7 * k + Weekday(t);
    WeeksInYear(y);
    WholeWeeksBelow(w, w1, k, Weekday(t));
    var slack := w + 3 - DaysBeforeYear(y) - 1;
    assert ThursdayOf(t) - DaysBeforeYear(y) - 1 == 7 * k + slack;
    WholeWeeks(ThursdayOf(t) - DaysBeforeYear(y) - 1, k, slack);
  }

  /** A day `r` days into week `k` after `w` and before `w1`, a whole number of weeks after `w`, leaves week `k` a full week before `w1`. */
  lemma WholeWeeksBelow(w: int, w1: int, k: int, r: int)
    requires w + 7 * k + r < w1 && 0 <= r && (w1 - w) % 7 == 0
    ensures w + 7 * k <= w1 - 7
  {
    var n := (w1 - w) / 7;
    assert w1 == w + 7 * n;
  }

  /** Dividing `7 * k + r` by 7, with `r` a day offset within a week, gives `k`. */
  lemma WholeWeeks(a: int, k: int, r: int)
    requires a == 7 * k + r && 0 <= r < 7
    ensures a / 7 == k
  {
  }
}
