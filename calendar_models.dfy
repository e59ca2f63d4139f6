/**
  The calendar records of a dormitory-management application: a year owns
  twelve months and its weeks, and every day belongs to one week and one
  month of the same year. Records are identified by their unique-together
  keys, and a year by its (unique) year number.

  The module also defines, as functions of the year alone, the exact set of
  month, week and day records that expanding a year must produce, and
  proves the properties of that set: one record per date of the year,
  weekday numbers that are ISO weekdays, week numbers in [0, 53], and no
  two days of a week sharing a date or a weekday.
*/
module CalendarModels {
  import opened IsoDates

  // ---------------------------------------------------------------------
  // Errors and outcomes
  // ---------------------------------------------------------------------

  datatype Error =
    | ValidationError(message: string)
    | ValueError
    | IntegrityError
    | NameError

  /** What a validator or the expansion signals: nothing, or an exception. */
  datatype Outcome = Pass | Fail(error: Error)

  datatype Result<T> = Ok(value: T) | Err(error: Error)

  const HISTORICAL_YEAR_MESSAGE := "Can't add historical years"
  const WRONG_WEEK_MESSAGE := "Wrong week number! Schould be in [0, 54]"

  // ---------------------------------------------------------------------
  // Choice tables (value -> label), as declared for month and day numbers
  // ---------------------------------------------------------------------

  const MONTH_NAMES: map<int, string> := map[
    1 := "January", 2 := "February", 3 := "March", 4 := "April",
    5 := "May", 6 := "June", 7 := "July", 8 := "August",
    9 := "September", 10 := "October", 11 := "November", 12 := "December"]

  const DAY_NAMES: map<int, string> := map[
    1 := "Monday", 2 := "Tuesday", 3 := "Wednesday", 4 := "Thuersday",
    5 := "Friday", 6 := "Saturday", 7 := "Sunday"]

  // ---------------------------------------------------------------------
  // Records
  // ---------------------------------------------------------------------

  /** A month of a year; (year, monthNumber) is unique. */
  datatype CalendarMonth = CalendarMonth(year: int, monthNumber: int)

  /** A week of a year; (year, weekNumber) is unique. */
  datatype CalendarWeek = CalendarWeek(year: int, weekNumber: int)

  /** A day, owned by one week and one month. */
  datatype CalendarDay = CalendarDay(
    week: CalendarWeek,
    month: CalendarMonth,
    weekDayNumber: int,
    date: Date)

  /** Two day records clash on a unique-together key: (week, date) or (week, weekDayNumber). */
  predicate SharesUniqueKey(a: CalendarDay, b: CalendarDay) {
    a.week == b.week && (a.date == b.date || a.weekDayNumber == b.weekDayNumber)
  }

  /** Some record of `days` clashes with `day` on a unique-together key. */
  predicate Clashes(days: set<CalendarDay>, day: CalendarDay) {
    exists c :: c in days && SharesUniqueKey(c, day)
  }

  /** Both unique-together constraints of day records hold in `days`. */
  ghost predicate UniqueDays(days: set<CalendarDay>) {
    forall a, b :: a in days && b in days && SharesUniqueKey(a, b) ==> a == b
  }

  // ---------------------------------------------------------------------
  // Validators
  // ---------------------------------------------------------------------

  /** Year validation: historical years are refused. */
  function CleanYear(yearNumber: int, currentYear: int): (r: Outcome)
    ensures r.Pass? <==> currentYear <= yearNumber
    ensures r.Fail? ==> r.error == ValidationError(HISTORICAL_YEAR_MESSAGE)
  {
    if yearNumber < currentYear then Fail(ValidationError(HISTORICAL_YEAR_MESSAGE)) else Pass
  }

  /**
    Week validation as written: the range test names an unbound variable,
    so evaluating it raises NameError whatever the week number.
  */
  function CleanWeekAsWritten(weekNumber: int): (r: Outcome)
    ensures r.Fail? && r.error == NameError
  {
    Fail(NameError)
  }

  /** Week validation as intended: week numbers outside [0, 54] are refused. */
  function CleanWeek(weekNumber: int): (r: Outcome)
    ensures r.Pass? <==> 0 <= weekNumber <= 54
    ensures r.Fail? ==> r.error == ValidationError(WRONG_WEEK_MESSAGE)
  {
    if weekNumber < 0 || weekNumber > 54 then Fail(ValidationError(WRONG_WEEK_MESSAGE)) else Pass
  }

  /** The validator as written refuses week 1, which the intended range admits. */
  lemma CleanWeekAsWrittenRefusesWeekOne()
    ensures CleanWeekAsWritten(1).Fail? && CleanWeek(1).Pass?
  {
  }

  /** The date constructor: a valid date, or ValueError. */
  function MakeDate(y: int, m: int, d: int): (r: Result<Date>)
    ensures r.Ok? <==> ValidDate(Date(y, m, d))
    ensures r.Ok? ==> r.value == Date(y, m, d)
    ensures r.Err? ==> r.error == ValueError
  {
    if MIN_YEAR <= y <= MAX_YEAR && 1 <= m <= 12 && 1 <= d <= DaysInMonth(y, m)
    then Ok(Date(y, m, d))
    else Err(ValueError)
  }

  // ---------------------------------------------------------------------
  // The week a date is filed under
  // ---------------------------------------------------------------------

  /**
    The week number under which the expansion files a date of its year:
    whole Monday-to-Sunday weeks counted from the Monday of ISO week 1 of
    the year, plus one. Days before that Monday get 0; days after the
    year's last ISO week get the number after it.
  */
  function WeekOfYear(dt: Date): int
    requires 1 <= dt.month <= 12
  {
    (Ordinal(dt) - Week1Monday(dt.year)) / 7 + 1
  }

  /** December day `d` of `y` already lies in ISO week 1 of `y + 1`. */
  ghost predicate RolledOver(y: int, d: int) {
    Ordinal(Date(y, 12, d)) >= Week1Monday(y + 1)
  }

  /** The number of ISO weeks of year `y`. */
  function IsoWeeksInYear(y: int): int {
    (Week1Monday(y + 1) - Week1Monday(y)) / 7
  }

  /**
    The two boundary corrections applied to `IsoCalendar` produce
    `WeekOfYear`: a January day of the previous ISO year gets week 0, a
    December day that rolled into week 1 of the next ISO year gets the
    week of 31 December, and every other day keeps its ISO week. The
    corrections catch exactly the days whose ISO year is not `y`.
  */
  lemma BoundaryCorrections(dt: Date)
    requires ValidDate(dt)
    ensures var iso, y := IsoCalendar(dt), dt.year;
      && (iso.isoYear == y - 1 <==> dt.month == 1 && iso.isoYear == y - 1)
      && (iso.isoYear == y + 1 <==> dt.month == 12 && iso.week == 1)
      && (dt.month == 1 && iso.isoYear == y - 1 ==> WeekOfYear(dt) == 0)
      && (dt.month == 12 && iso.week == 1 ==> WeekOfYear(dt) == WeekOfYear(Date(y, 12, 31)))
      && (iso.isoYear == y ==> WeekOfYear(dt) == iso.week)
  {
    var y, t := dt.year, Ordinal(dt);
    IsoCalendarCases(dt);
    OrdinalInYear(dt);
    YearLength(y);
    WeeksInYear(y);
    DaysBeforeMonthStep(y, 1);
    DaysBeforeMonthStep(y, 12);
    if dt.month > 1 {
      DaysBeforeMonthMonotone(y, 2, dt.month);
      DaysBeforeMonthStep(y, 1);
    }
    if dt.month < 12 {
      DaysBeforeMonthMonotone(y, dt.month, 12);
    }
  }

  /** Days of ISO year `y` inside months 2 to 11 always keep their ISO week. */
  lemma MidYearKeepsIsoWeek(dt: Date)
    requires ValidDate(dt) && 2 <= dt.month <= 11
    ensures WeekOfYear(dt) == IsoCalendar(dt).week
  {
    BoundaryCorrections(dt);
  }

  /**
    The week of 31 December is the last week the expansion files anything
    under: the number of ISO weeks of the year, plus one when 31 December
    rolled into the next ISO year. A year that rolls over has 52 ISO weeks,
    so that week is 52 or 53 and never 54.
  */
  lemma LastWeekOfYear(y: int)
    ensures WeekOfYear(Date(y, 12, 31)) ==
      if RolledOver(y, 31) then IsoWeeksInYear(y) + 1 else IsoWeeksInYear(y)
    ensures RolledOver(y, 31) ==> IsoWeeksInYear(y) == 52
    ensures 52 <= WeekOfYear(Date(y, 12, 31)) <= 53
  {
    WeeksInYear(y);
    YearLength(y);
    DaysBeforeMonthStep(y, 12);
  }

  /** Every date of a year is filed under a week in [0, 53]; 1 January under 0 or 1. */
  lemma WeekOfYearBounds(dt: Date)
    requires ValidDate(dt)
    ensures 0 <= WeekOfYear(dt) <= 53
    ensures dt.month == 1 && dt.day == 1 ==> WeekOfYear(dt) == 0 || WeekOfYear(dt) == 1
    ensures CleanWeek(WeekOfYear(dt)).Pass?
  {
    OrdinalInYear(dt);
    YearLength(dt.year);
    DaysBeforeMonthStep(dt.year, 1);
  }

  /**
    A week holds each weekday at most once: two dates of one year filed
    under the same week with the same ISO weekday are the same date.
  */
  lemma SameWeekSameWeekdaySameDate(a: Date, b: Date)
    requires ValidDate(a) && ValidDate(b) && a.year == b.year
    requires WeekOfYear(a) == WeekOfYear(b) && IsoWeekday(a) == IsoWeekday(b)
    ensures a == b
  {
    var monday := Week1Monday(a.year);
    MondayOffset(monday, Ordinal(a));
    MondayOffset(monday, Ordinal(b));
    OrdinalInjective(a, b);
  }

  // ---------------------------------------------------------------------
  // The records expanding a year must produce
  // ---------------------------------------------------------------------

  /** The day record of date (y, m, d). */
  function DayRecord(y: int, m: int, d: int): CalendarDay
    requires 1 <= m <= 12
  {
    var dt := Date(y, m, d);
    CalendarDay(CalendarWeek(y, WeekOfYear(dt)), CalendarMonth(y, m), IsoWeekday(dt), dt)
  }

  /**
    A point of the expansion loop: a date (m, d) of year `y`, the day after
    the last day of month `m`, or (13, 1) once all twelve months are done.
  */
  predicate Position(y: int, m: int, d: int) {
    (1 <= m <= 12 && 1 <= d <= DaysInMonth(y, m) + 1) || (m == 13 && d == 1)
  }

  /** Day records of the dates of year `y` before point (m, d), one date at a time. */
  ghost function DaysBefore(y: int, m: int, d: int): set<CalendarDay>
    requires Position(y, m, d)
    decreases m, d
  {
    if d > 1 then DaysBefore(y, m, d - 1) + {DayRecord(y, m, d - 1)}
    else if m > 1 then DaysBefore(y, m - 1, DaysInMonth(y, m - 1) + 1)
    else {}
  }

  /** Week records of the dates of year `y` before point (m, d). */
  ghost function WeeksBefore(y: int, m: int, d: int): set<CalendarWeek>
    requires Position(y, m, d)
    decreases m, d
  {
    if d > 1 then WeeksBefore(y, m, d - 1) + {DayRecord(y, m, d - 1).week}
    else if m > 1 then WeeksBefore(y, m - 1, DaysInMonth(y, m - 1) + 1)
    else {}
  }

  /** Month records of year `y` before month `m`. */
  function MonthsBefore(y: int, m: int): set<CalendarMonth> {
    set m1 | 1 <= m1 <= 12 && m1 < m :: CalendarMonth(y, m1)
  }

  /** The day records expanding year `y` produces. */
  ghost function YearDays(y: int): set<CalendarDay> {
    DaysBefore(y, 13, 1)
  }

  /** The week records expanding year `y` produces. */
  ghost function YearWeeks(y: int): set<CalendarWeek> {
    WeeksBefore(y, 13, 1)
  }

  /** The month records expanding year `y` produces. */
  function YearMonths(y: int): set<CalendarMonth> {
    MonthsBefore(y, 13)
  }

  /** A record before point (m, d) is the record of a valid date of `y` that comes earlier. */
  lemma {:induction false} DaysBeforeMember(y: int, m: int, d: int, r: CalendarDay)
    requires Position(y, m, d) && r in DaysBefore(y, m, d)
    ensures r.date.year == y && 1 <= r.date.month <= 12
    ensures 1 <= r.date.day <= DaysInMonth(y, r.date.month)
    ensures r.date.month < m || (r.date.month == m && r.date.day < d)
    ensures r == DayRecord(y, r.date.month, r.date.day)
    decreases m, d
  {
    if d > 1 {
      var last := DayRecord(y, m, d - 1);
      assert DaysBefore(y, m, d) == DaysBefore(y, m, d - 1) + {last};
      if r == last {
        assert r.date == Date(y, m, d - 1);
      } else {
        DaysBeforeMember(y, m, d - 1, r);
      }
    } else {
      assert m > 1 && DaysBefore(y, m, d) == DaysBefore(y, m - 1, DaysInMonth(y, m - 1) + 1);
      DaysBeforeMember(y, m - 1, DaysInMonth(y, m - 1) + 1, r);
    }
  }

  /** The record of every valid date of `y` before point (m, d) is among the records before it. */
  lemma {:induction false} DayRecordIsBefore(y: int, m: int, d: int, m1: int, d1: int)
    requires Position(y, m, d)
    requires 1 <= m1 <= 12 && 1 <= d1 <= DaysInMonth(y, m1)
    requires m1 < m || (m1 == m && d1 < d)
    ensures DayRecord(y, m1, d1) in DaysBefore(y, m, d)
    decreases m, d
  {
    if d > 1 {
      assert DaysBefore(y, m, d) == DaysBefore(y, m, d - 1) + {DayRecord(y, m, d - 1)};
      if !(m1 == m && d1 == d - 1) {
        DayRecordIsBefore(y, m, d - 1, m1, d1);
      }
    } else {
      assert m > 1;
      assert DaysBefore(y, m, d) == DaysBefore(y, m - 1, DaysInMonth(y, m - 1) + 1);
      DayRecordIsBefore(y, m - 1, DaysInMonth(y, m - 1) + 1, m1, d1);
    }
  }

  /** Month `m` is not among the months before it. */
  lemma MonthNotBeforeItself(y: int, m: int)
    ensures CalendarMonth(y, m) !in MonthsBefore(y, m)
  {
  }

  /** The month loop has created one record per month before `m`. */
  lemma {:induction false} MonthsBeforeCount(y: int, m: int)
    requires 1 <= m <= 13
    ensures |MonthsBefore(y, m)| == m - 1
  {
    if m == 1 {
      assert MonthsBefore(y, m) == {};
    } else {
      MonthsBeforeCount(y, m - 1);
      MonthsBeforeStep(y, m - 1);
      MonthNotBeforeItself(y, m - 1);
    }
  }

  /** A year has twelve month records, one per month. */
  lemma YearMonthsCount(y: int)
    ensures |YearMonths(y)| == 12
  {
    MonthsBeforeCount(y, 13);
  }

  /** The day records of a year are exactly the records of its valid dates. */
  lemma YearDaysAreAllDates(y: int)
    ensures YearDays(y) == set m, d | 1 <= m <= 12 && 1 <= d <= DaysInMonth(y, m) :: DayRecord(y, m, d)
  {
    var all := set m, d | 1 <= m <= 12 && 1 <= d <= DaysInMonth(y, m) :: DayRecord(y, m, d);
    forall r | r in YearDays(y)
      ensures r in all
    {
      DaysBeforeMember(y, 13, 1, r);
    }
    forall m, d | 1 <= m <= 12 && 1 <= d <= DaysInMonth(y, m)
      ensures DayRecord(y, m, d) in YearDays(y)
    {
      DayRecordIsBefore(y, 13, 1, m, d);
    }
  }

  /** Adding date (m, d) to the records before it gives the records before the next day. */
  lemma DaysBeforeStep(y: int, m: int, d: int)
    requires 1 <= m <= 12 && 1 <= d <= DaysInMonth(y, m)
    ensures DaysBefore(y, m, d + 1) == DaysBefore(y, m, d) + {DayRecord(y, m, d)}
    ensures WeeksBefore(y, m, d + 1) == WeeksBefore(y, m, d) + {DayRecord(y, m, d).week}
    ensures DayRecord(y, m, d) !in DaysBefore(y, m, d)
  {
    if DayRecord(y, m, d) in DaysBefore(y, m, d) {
      DaysBeforeMember(y, m, d, DayRecord(y, m, d));
    }
  }

  /** The records before the day after a month's last day are those before the next month. */
  lemma DaysBeforeNextMonth(y: int, m: int)
    requires 1 <= m <= 12
    ensures DaysBefore(y, m, DaysInMonth(y, m) + 1) == DaysBefore(y, m + 1, 1)
    ensures WeeksBefore(y, m, DaysInMonth(y, m) + 1) == WeeksBefore(y, m + 1, 1)
  {
  }

  /** The month records before month `m + 1` are those before `m` and month `m` itself. */
  lemma MonthsBeforeStep(y: int, m: int)
    requires 1 <= m <= 12
    ensures MonthsBefore(y, m) + {CalendarMonth(y, m)} == MonthsBefore(y, m + 1)
  {
  }

  /** The records before any point of the year are records of the year. */
  lemma {:induction false} DaysBeforeInYear(y: int, m: int, d: int)
    requires Position(y, m, d)
    ensures DaysBefore(y, m, d) <= YearDays(y)
    ensures WeeksBefore(y, m, d) <= YearWeeks(y)
    ensures MonthsBefore(y, m) <= YearMonths(y)
    decreases 13 - m, 32 - d
  {
    if m <= 12 {
      if d <= DaysInMonth(y, m) {
        DaysBeforeInYear(y, m, d + 1);
      } else {
        DaysBeforeInYear(y, m + 1, 1);
      }
    }
  }

  /** The records before a point of month `m` are among those before month `m + 1`. */
  lemma {:induction false} DaysBeforeInMonth(y: int, m: int, d: int)
    requires 1 <= m <= 12 && 1 <= d <= DaysInMonth(y, m) + 1
    ensures DaysBefore(y, m, d) <= DaysBefore(y, m + 1, 1)
    ensures WeeksBefore(y, m, d) <= WeeksBefore(y, m + 1, 1)
    decreases DaysInMonth(y, m) + 1 - d
  {
    DaysBeforeNextMonth(y, m);
    if d <= DaysInMonth(y, m) {
      DaysBeforeStep(y, m, d);
      DaysBeforeInMonth(y, m, d + 1);
    }
  }

  /** Every record of the year is the record of one of its valid dates. */
  lemma YearDayIsDayRecord(y: int, r: CalendarDay)
    requires r in YearDays(y)
    ensures 1 <= r.date.month <= 12 && 1 <= r.date.day <= DaysInMonth(y, r.date.month)
    ensures r.date.year == y
    ensures r == DayRecord(y, r.date.month, r.date.day)
  {
    DaysBeforeMember(y, 13, 1, r);
  }

  /** Every week record before point (m, d) is the week of a day record before it. */
  lemma {:induction false} WeekBeforeHasDay(y: int, m: int, d: int, w: CalendarWeek) returns (r: CalendarDay)
    requires Position(y, m, d) && w in WeeksBefore(y, m, d)
    ensures r in DaysBefore(y, m, d) && r.week == w
    decreases m, d
  {
    if d > 1 {
      var last := DayRecord(y, m, d - 1);
      assert DaysBefore(y, m, d) == DaysBefore(y, m, d - 1) + {last};
      assert WeeksBefore(y, m, d) == WeeksBefore(y, m, d - 1) + {last.week};
      if w == last.week {
        r := last;
      } else {
        r := WeekBeforeHasDay(y, m, d - 1, w);
      }
    } else {
      var end := DaysInMonth(y, m - 1) + 1;
      assert m > 1 && WeeksBefore(y, m, d) == WeeksBefore(y, m - 1, end);
      assert DaysBefore(y, m, d) == DaysBefore(y, m - 1, end);
      r := WeekBeforeHasDay(y, m - 1, end, w);
    }
  }

  /**
    Exactly one record per date: the records before (m, d) number the days
    of the year before (m, d).
  */
  lemma {:induction false} DaysBeforeCount(y: int, m: int, d: int)
    requires 1 <= m <= 12 && 1 <= d <= DaysInMonth(y, m) + 1
    ensures |DaysBefore(y, m, d)| == DaysBeforeMonth(y, m) + d - 1
    decreases m, d
  {
    if d > 1 {
      DaysBeforeCount(y, m, d - 1);
      DaysBeforeStep(y, m, d - 1);
    } else if m > 1 {
      DaysBeforeCount(y, m - 1, DaysInMonth(y, m - 1) + 1);
      DaysBeforeNextMonth(y, m - 1);
      DaysBeforeMonthStep(y, m - 1);
    } else {
      DaysBeforeMonthStep(y, 1);
    }
  }

  /** A year yields 365 day records, or 366 in a leap year. */
  lemma YearDaysCount(y: int)
    ensures |YearDays(y)| == DaysInYear(y)
  {
    DaysBeforeCount(y, 12, 32);
    DaysBeforeMonthStep(y, 12);
  }

  /**
    What every record of an expanded year satisfies: it belongs to the year,
    its date is valid, its weekday number is the ISO weekday of its date and
    a day-name choice, its month matches its date and is a month-name
    choice, and its week number lies in [0, 53]. Every valid date of the
    year has its record.
  */
  lemma YearDaysProperties(y: int)
    requires MIN_YEAR <= y <= MAX_YEAR
    ensures forall r :: r in YearDays(y) ==>
      && r.week.year == y && r.month.year == y && r.date.year == y
      && ValidDate(r.date)
      && r.month.monthNumber == r.date.month && r.month.monthNumber in MONTH_NAMES
      && r.weekDayNumber == IsoWeekday(r.date) && r.weekDayNumber in DAY_NAMES
      && r.week.weekNumber == WeekOfYear(r.date)
      && 0 <= r.week.weekNumber <= 53
    ensures forall m, d :: ValidDate(Date(y, m, d)) ==> DayRecord(y, m, d) in YearDays(y)
  {
    forall r | r in YearDays(y)
      ensures && r.week.year == y && r.month.year == y && r.date.year == y
              && ValidDate(r.date)
              && r.month.monthNumber == r.date.month && r.month.monthNumber in MONTH_NAMES
              && r.weekDayNumber == IsoWeekday(r.date) && r.weekDayNumber in DAY_NAMES
              && r.week.weekNumber == WeekOfYear(r.date)
              && 0 <= r.week.weekNumber <= 53
    {
      YearDayWellFormed(y, r);
    }
    forall m, d | ValidDate(Date(y, m, d))
      ensures DayRecord(y, m, d) in YearDays(y)
    {
      DayRecordIsBefore(y, 13, 1, m, d);
    }
  }

  /** One record of the year, as `YearDaysProperties` describes it. */
  lemma YearDayWellFormed(y: int, r: CalendarDay)
    requires MIN_YEAR <= y <= MAX_YEAR && r in YearDays(y)
    ensures && r.week.year == y && r.month.year == y && r.date.year == y
            && ValidDate(r.date)
            && r.month.monthNumber == r.date.month && r.month.monthNumber in MONTH_NAMES
            && r.weekDayNumber == IsoWeekday(r.date) && r.weekDayNumber in DAY_NAMES
            && r.week.weekNumber == WeekOfYear(r.date)
            && 0 <= r.week.weekNumber <= 53
  {
    YearDayIsDayRecord(y, r);
    DayRecordWellFormed(y, r.date.month, r.date.day);
  }

  /** The record of a valid date, as `YearDaysProperties` describes it. */
  lemma DayRecordWellFormed(y: int, m: int, d: int)
    requires ValidDate(Date(y, m, d))
    ensures var r := DayRecord(y, m, d);
            && r.week.year == y && r.month.year == y && r.date == Date(y, m, d)
            && r.month.monthNumber == m && m in MONTH_NAMES
            && r.weekDayNumber == IsoWeekday(r.date) && r.weekDayNumber in DAY_NAMES
            && r.week.weekNumber == WeekOfYear(r.date)
            && 0 <= r.week.weekNumber <= 53
  {
    WeekOfYearBounds(Date(y, m, d));
  }

  /**
    The day records of a year satisfy both unique-together constraints, and
    no two of them share a date.
  */
  lemma YearDaysUnique(y: int)
    requires MIN_YEAR <= y <= MAX_YEAR
    ensures UniqueDays(YearDays(y))
    ensures forall a, b :: a in YearDays(y) && b in YearDays(y) && a.date == b.date ==> a == b
  {
    forall a, b | a in YearDays(y) && b in YearDays(y) && SharesUniqueKey(a, b)
      ensures a == b
    {
      YearDayIsDayRecord(y, a);
      YearDayIsDayRecord(y, b);
      if a.date != b.date {
        SameWeekSameWeekdaySameDate(a.date, b.date);
      }
    }
    forall a, b | a in YearDays(y) && b in YearDays(y) && a.date == b.date
      ensures a == b
    {
      YearDayIsDayRecord(y, a);
      YearDayIsDayRecord(y, b);
    }
  }

  /** The week records of a year have week numbers in [0, 53], all accepted by `CleanWeek`. */
  lemma YearWeeksInRange(y: int)
    requires MIN_YEAR <= y <= MAX_YEAR
    ensures forall w :: w in YearWeeks(y) ==> w.year == y && 0 <= w.weekNumber <= 53 && CleanWeek(w.weekNumber).Pass?
  {
    forall w | w in YearWeeks(y)
      ensures w.year == y && 0 <= w.weekNumber <= 53 && CleanWeek(w.weekNumber).Pass?
    {
      var r := WeekBeforeHasDay(y, 13, 1, w);
      YearDayWellFormed(y, r);
    }
  }

  /**
    The field constraints of stored records: month numbers are month-name
    choices, week numbers pass the week validator, weekday numbers are
    day-name choices.
  */
  ghost predicate FieldsInRange(months: set<CalendarMonth>, weeks: set<CalendarWeek>, days: set<CalendarDay>) {
    && (forall m :: m in months ==> m.monthNumber in MONTH_NAMES)
    && (forall w :: w in weeks ==> CleanWeek(w.weekNumber).Pass?)
    && (forall c :: c in days ==> c.weekDayNumber in DAY_NAMES)
  }

  /**
    Adding records of year `y` (all of them, or the first part of them) to
    stored records that satisfy the field constraints keeps them satisfied.
  */
  lemma ExpansionKeepsFieldsInRange(
    months: set<CalendarMonth>, weeks: set<CalendarWeek>, days: set<CalendarDay>,
    months': set<CalendarMonth>, weeks': set<CalendarWeek>, days': set<CalendarDay>, y: int)
    requires MIN_YEAR <= y <= MAX_YEAR
    requires months' <= months + YearMonths(y) && weeks' <= weeks + YearWeeks(y) && days' <= days + YearDays(y)
    ensures FieldsInRange(months, weeks, days) ==> FieldsInRange(months', weeks', days')
  {
    NewMonthsInRange(months, months', y);
    NewWeeksInRange(weeks, weeks', y);
    NewDaysInRange(days, days', y);
  }

  /** Month records added by expanding year `y` have month-name choices as numbers. */
  lemma NewMonthsInRange(months: set<CalendarMonth>, months': set<CalendarMonth>, y: int)
    requires months' <= months + YearMonths(y)
    ensures forall m :: m in months' && m !in months ==> m.monthNumber in MONTH_NAMES
  {
    forall m | m in months' && m !in months
      ensures m.monthNumber in MONTH_NAMES
    {
      assert m in YearMonths(y);
    }
  }

  /** Week records added by expanding year `y` pass the week validator. */
  lemma NewWeeksInRange(weeks: set<CalendarWeek>, weeks': set<CalendarWeek>, y: int)
    requires MIN_YEAR <= y <= MAX_YEAR && weeks' <= weeks + YearWeeks(y)
    ensures forall w :: w in weeks' && w !in weeks ==> CleanWeek(w.weekNumber).Pass?
  {
    forall w | w in weeks' && w !in weeks
      ensures CleanWeek(w.weekNumber).Pass?
    {
      var r := WeekBeforeHasDay(y, 13, 1, w);
      YearDayWellFormed(y, r);
    }
  }

  /** Day records added by expanding year `y` have day-name choices as weekday numbers. */
  lemma NewDaysInRange(days: set<CalendarDay>, days': set<CalendarDay>, y: int)
    requires MIN_YEAR <= y <= MAX_YEAR && days' <= days + YearDays(y)
    ensures forall c :: c in days' && c !in days ==> c.weekDayNumber in DAY_NAMES
  {
    forall c | c in days' && c !in days
      ensures c.weekDayNumber in DAY_NAMES
    {
      YearDayWellFormed(y, c);
    }
  }

  // ---------------------------------------------------------------------
  // When get-or-create of a year's days cannot clash
  // ---------------------------------------------------------------------

  /**
    No stored day clashes on a unique key with a record of year `y` unless
    it is that very record.
  */
  ghost predicate CompatibleWith(days: set<CalendarDay>, y: int) {
    forall c, r :: c in days && r in YearDays(y) && SharesUniqueKey(c, r) ==> c == r
  }

  /** A store holding no day of any week of year `y` (as after creating the year) is compatible. */
  lemma FreshYearIsCompatible(days: set<CalendarDay>, y: int)
    requires forall c :: c in days ==> c.week.year != y
    ensures CompatibleWith(days, y)
  {
    forall r | r in YearDays(y)
      ensures r.week.year == y
    {
      YearDayIsDayRecord(y, r);
    }
  }

  /** A consistent store that already holds every record of year `y` is compatible. */
  lemma ExpandedYearIsCompatible(days: set<CalendarDay>, y: int)
    requires UniqueDays(days) && YearDays(y) <= days
    ensures CompatibleWith(days, y)
  {
  }
}
