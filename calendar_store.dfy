/**
  The record store and the expansion that runs after a calendar year is
  created. The store holds month, week and day records in sets keyed by
  their unique-together tuples; every write goes through get-or-create.
*/
module CalendarStore {
  import opened IsoDates
  import opened CalendarModels

  /**
    The backward probe from 31 December: step back while the probed day
    lies in ISO week 1, then take the week found, plus one when the probe
    had to move. The result is the week of 31 December, 52 or 53. Building
    a date of a year outside the date type's range raises ValueError.
  */
  method ProbeLastWeek(year: int) returns (r: Result<int>)
    ensures r.Err? <==> !(MIN_YEAR <= year <= MAX_YEAR)
    ensures r.Err? ==> r.error == ValueError
    ensures r.Ok? ==> r.value == WeekOfYear(Date(year, 12, 31))
    ensures r.Ok? ==> r.value == 52 || r.value == 53
  {
    var lastWeek := 1;
    var endDay := 31;
    while lastWeek == 1
      invariant 27 <= endDay <= 31
      invariant endDay < 31 ==> MIN_YEAR <= year <= MAX_YEAR
      invariant endDay < 30 ==> RolledOver(year, endDay + 2)
      invariant endDay < 31 ==> (lastWeek == 1 <==> RolledOver(year, endDay + 1))
      invariant endDay < 31 && lastWeek != 1 ==> lastWeek == WeekOfYear(Date(year, 12, endDay + 1))
      invariant lastWeek == 1 ==> 28 <= endDay
      invariant endDay == 31 ==> lastWeek == 1
      decreases endDay
    {
      var probe := MakeDate(year, 12, endDay);
      if probe.Err? {
        return Err(probe.error);
      }
      DecemberIsoWeek(year, endDay);
      lastWeek := IsoCalendar(probe.value).week;
      endDay := endDay - 1;
    }
    ProbeStop(year, endDay + 1);
    if endDay == 30 {
      lastWeek := lastWeek;
    } else {
      lastWeek := lastWeek + 1;
    }
    r := Ok(lastWeek);
  }

  /**
    A December day is in ISO week 1 exactly when it rolled into the next
    ISO year, and otherwise its ISO week is the week it is filed under.
    28 December never rolls over, so the probe stops by then.
  */
  lemma DecemberIsoWeek(y: int, d: int)
    requires ValidDate(Date(y, 12, d))
    ensures IsoCalendar(Date(y, 12, d)).week == 1 <==> RolledOver(y, d)
    ensures !RolledOver(y, d) ==> IsoCalendar(Date(y, 12, d)).week == WeekOfYear(Date(y, 12, d))
    ensures !RolledOver(y, 28)
  {
    IsoCalendarCases(Date(y, 12, d));
    YearLength(y);
    DaysBeforeMonthStep(y, 12);
  }

  /**
    Where the probe stops: `e` is the last December day not rolled over.
    Its week, plus one when `e` is not 31 December, is the week of
    31 December.
  */
  lemma ProbeStop(y: int, e: int)
    requires 28 <= e <= 31 && !RolledOver(y, e) && (e < 31 ==> RolledOver(y, e + 1))
    ensures WeekOfYear(Date(y, 12, 31)) == WeekOfYear(Date(y, 12, e)) + (if e == 31 then 0 else 1)
    ensures 52 <= WeekOfYear(Date(y, 12, 31)) <= 53
  {
    LastWeekOfYear(y);
    WeeksInYear(y);
    YearLength(y);
    DaysBeforeMonthStep(y, 12);
  }

  /**
    The week the expansion computes for a date, the ISO week after the
    January and December corrections in the order they are applied, is
    the week the date is filed under.
  */
  lemma CorrectedWeekIsWeekOfYear(dt: Date, lastWeek: int)
    requires ValidDate(dt) && lastWeek == WeekOfYear(Date(dt.year, 12, 31))
    ensures var iso := IsoCalendar(dt);
      var afterJanuary := if dt.month == 1 && iso.isoYear == dt.year - 1 then 0 else iso.week;
      var afterDecember := if dt.month == 12 && afterJanuary == 1 then lastWeek else afterJanuary;
      afterDecember == WeekOfYear(dt)
  {
    BoundaryCorrections(dt);
  }

  /**
    One step of the day loop before anything is stored: the date (ValueError
    past the month's end), its ISO week and weekday, the January correction
    (a day still in the previous ISO year is filed under week 0) and the
    December correction (a day already in week 1 of the next ISO year is
    filed under the last week). The record built is the record of that date.
  */
  method BuildDayRecord(year: int, month: int, day: int, lastWeek: int) returns (r: Result<CalendarDay>)
    requires 1 <= month <= 12
    requires lastWeek == WeekOfYear(Date(year, 12, 31))
    ensures r.Ok? <==> ValidDate(Date(year, month, day))
    ensures r.Err? ==> r.error == ValueError
    ensures r.Ok? ==> r.value == DayRecord(year, month, day)
  {
    var date := MakeDate(year, month, day);
    if date.Err? {
      return Err(date.error);
    }
    var iso := IsoCalendar(date.value);
    var actualWeek := iso.week;
    var actualDay := iso.weekday;
    if month == 1 && iso.isoYear == year - 1 {
      actualWeek := 0;
    }
    if month == 12 && actualWeek == 1 {
      actualWeek := lastWeek;
    }
    var week := CalendarWeek(year, actualWeek);
    CorrectedWeekIsWeekOfYear(date.value, lastWeek);
    r := Ok(CalendarDay(week, CalendarMonth(year, month), actualDay, date.value));
  }

  class Store {
    var months: set<CalendarMonth>
    var weeks: set<CalendarWeek>
    var days: set<CalendarDay>

    /**
      Every day refers to a stored week and month, and no two days share
      (week, date) or (week, weekDayNumber). Month and week keys are unique
      by construction of the sets.
    */
    ghost predicate Valid()
      reads this
    {
      && (forall c :: c in days ==> c.week in weeks && c.month in months)
      && UniqueDays(days)
    }

    /** The store already holds every record of year `year`. */
    ghost predicate HoldsYear(year: int)
      reads this
    {
      YearMonths(year) <= months && YearWeeks(year) <= weeks && YearDays(year) <= days
    }

    constructor ()
      ensures Valid()
      ensures months == {} && weeks == {} && days == {}
    {
      months, weeks, days := {}, {}, {};
    }

    /** Get-or-create by the month key. */
    method GetOrCreateMonth(month: CalendarMonth)
      requires Valid()
      modifies this
      ensures Valid()
      ensures months == old(months) + {month}
      ensures weeks == old(weeks) && days == old(days)
    {
      if month !in months {
        months := months + {month};
      }
    }

    /** Get-or-create by the week key. */
    method GetOrCreateWeek(week: CalendarWeek)
      requires Valid()
      modifies this
      ensures Valid()
      ensures weeks == old(weeks) + {week}
      ensures months == old(months) && days == old(days)
    {
      if week !in weeks {
        weeks := weeks + {week};
      }
    }

    /**
      Get-or-create by all four fields: an identical record is returned
      as is; otherwise a record that clashes on a unique key makes the
      insert fail with IntegrityError; otherwise the record is added.
    */
    method GetOrCreateDay(day: CalendarDay) returns (r: Outcome)
      requires Valid()
      requires day.week in weeks && day.month in months
      modifies this
      ensures Valid()
      ensures months == old(months) && weeks == old(weeks)
      ensures r.Pass? <==> day in old(days) || !Clashes(old(days), day)
      ensures r.Fail? ==> r.error == IntegrityError
      ensures days == if r.Pass? then old(days) + {day} else old(days)
    {
      if day in days {
        return Pass;
      }
      if Clashes(days, day) {
        return Fail(IntegrityError);
      }
      days := days + {day};
      r := Pass;
    }

    /**
      The hook run after a year is saved. Nothing happens unless the year
      was just created; otherwise the last week is probed (ValueError for a
      year outside the date range) and the year is expanded
      (`ExpandYear`). On success the store gains exactly the records of the
      year; a store that holds no clashing day (a fresh year, or one already
      expanded) always succeeds. Once the probe has passed, a failure is an
      IntegrityError at date (`failedMonth`, `failedDay`): the records of
      the dates before it are stored, and its own day record is not.
    */
    method CreateDayAndWeek(year: int, created: bool) returns (r: Outcome, ghost failedMonth: int, ghost failedDay: int)
      requires Valid()
      modifies this
      ensures Valid()
      ensures !created ==> r == Pass && unchanged(this)
      ensures created && !(MIN_YEAR <= year <= MAX_YEAR) ==> r == Fail(ValueError) && unchanged(this)
      ensures created && MIN_YEAR <= year <= MAX_YEAR && old(CompatibleWith(days, year)) ==> r == Pass
      ensures created && r.Pass? ==>
        && months == old(months) + YearMonths(year)
        && weeks == old(weeks) + YearWeeks(year)
        && days == old(days) + YearDays(year)
      ensures r.Fail? ==> r.error == ValueError || r.error == IntegrityError
      ensures created && MIN_YEAR <= year <= MAX_YEAR && r.Fail? ==>
        && r.error == IntegrityError && !old(CompatibleWith(days, year))
        && 1 <= failedMonth <= 12 && 1 <= failedDay <= DaysInMonth(year, failedMonth)
        && months == old(months) + MonthsBefore(year, failedMonth + 1)
        && weeks == old(weeks) + WeeksBefore(year, failedMonth, failedDay + 1)
        && days == old(days) + DaysBefore(year, failedMonth, failedDay)
        && DayRecord(year, failedMonth, failedDay) !in days
        && Clashes(days, DayRecord(year, failedMonth, failedDay))
      ensures r.Fail? ==>
        && old(months) <= months <= old(months) + YearMonths(year)
        && old(weeks) <= weeks <= old(weeks) + YearWeeks(year)
        && old(days) <= days <= old(days) + YearDays(year)
      ensures old(FieldsInRange(months, weeks, days)) ==> FieldsInRange(months, weeks, days)
    {
      failedMonth, failedDay := 0, 0;
      if !created {
        return Pass, failedMonth, failedDay;
      }
      var probe := ProbeLastWeek(year);
      if probe.Err? {
        return Fail(probe.error), failedMonth, failedDay;
      }
      r, failedMonth, failedDay := ExpandYear(year, probe.value);
      if r.Fail? {
        FailedPrefixInYear(year, failedMonth, failedDay);
      }
      ExpansionKeepsFieldsInRange(old(months), old(weeks), old(days), months, weeks, days, year);
    }

    /**
      The month loop of the expansion: for every month, get-or-create of
      the month record, then the days of that month (`ExpandMonth`). A
      failure stops the loop with what was stored so far; it can only come
      from a stored day that clashes with a record of the year, at date
      (`failedMonth`, `failedDay`).
    */
    method ExpandYear(year: int, lastWeek: int) returns (r: Outcome, ghost failedMonth: int, ghost failedDay: int)
      requires MIN_YEAR <= year <= MAX_YEAR && lastWeek == WeekOfYear(Date(year, 12, 31))
      requires Valid()
      modifies this
      ensures Valid()
      ensures r.Pass? ==>
        && months == old(months) + YearMonths(year)
        && weeks == old(weeks) + YearWeeks(year)
        && days == old(days) + YearDays(year)
      ensures r.Fail? ==> r.error == IntegrityError && !old(CompatibleWith(days, year))
      ensures r.Fail? ==>
        && 1 <= failedMonth <= 12 && 1 <= failedDay <= DaysInMonth(year, failedMonth)
        && months == old(months) + MonthsBefore(year, failedMonth + 1)
        && weeks == old(weeks) + WeeksBefore(year, failedMonth, failedDay + 1)
        && days == old(days) + DaysBefore(year, failedMonth, failedDay)
        && DayRecord(year, failedMonth, failedDay) !in days
        && Clashes(days, DayRecord(year, failedMonth, failedDay))
    {
      failedMonth, failedDay := 0, 0;
      var month := 1;
      while month <= 12
        invariant 1 <= month <= 13
        invariant Valid()
        invariant months == old(months) + MonthsBefore(year, month)
        invariant weeks == old(weeks) + WeeksBefore(year, month, 1)
        invariant days == old(days) + DaysBefore(year, month, 1)
      {
        GetOrCreateMonth(CalendarMonth(year, month));
        MonthsBeforeStep(year, month);
        var outcome, day := ExpandMonth(year, month, lastWeek, old(weeks), old(days));
        if outcome.Fail? {
          return outcome, month, day;
        }
        assert weeks == old(weeks) + WeeksBefore(year, month + 1, 1);
        assert days == old(days) + DaysBefore(year, month + 1, 1);
        month := month + 1;
      }
      r := Pass;
    }

    /**
      The day loop of the expansion for one month: days 1 to 31 in turn
      (`ExpandDay`); the first day the month does not have ends the loop,
      and a clash at day `failedDay` ends the whole expansion, with the
      records of the days before it stored. `baseWeeks` and `baseDays` are
      the store's sets before the expansion began; the records of the
      earlier months have been added to them.
    */
    method ExpandMonth(year: int, month: int, lastWeek: int,
                       ghost baseWeeks: set<CalendarWeek>, ghost baseDays: set<CalendarDay>)
      returns (r: Outcome, ghost failedDay: int)
      requires MIN_YEAR <= year <= MAX_YEAR && 1 <= month <= 12
      requires lastWeek == WeekOfYear(Date(year, 12, 31))
      requires Valid() && CalendarMonth(year, month) in months
      requires weeks == baseWeeks + WeeksBefore(year, month, 1)
      requires days == baseDays + DaysBefore(year, month, 1)
      modifies this
      ensures Valid() && months == old(months)
      ensures r.Pass? ==> weeks == baseWeeks + WeeksBefore(year, month + 1, 1)
      ensures r.Pass? ==> days == baseDays + DaysBefore(year, month + 1, 1)
      ensures r.Fail? ==> r.error == IntegrityError && !CompatibleWith(baseDays, year)
      ensures r.Fail? ==>
        && 1 <= failedDay <= DaysInMonth(year, month)
        && weeks == baseWeeks + WeeksBefore(year, month, failedDay + 1)
        && days == baseDays + DaysBefore(year, month, failedDay)
        && DayRecord(year, month, failedDay) !in days
        && Clashes(days, DayRecord(year, month, failedDay))
    {
      failedDay := 0;
      var day := 1;
      while day <= 31
        invariant 1 <= day <= DaysInMonth(year, month) + 1
        invariant Valid() && months == old(months)
        invariant weeks == baseWeeks + WeeksBefore(year, month, day)
        invariant days == baseDays + DaysBefore(year, month, day)
      {
        var outcome := ExpandDay(year, month, day, lastWeek);
        if outcome == Fail(ValueError) {
          break;
        }
        ExpansionStep(baseWeeks, baseDays, year, month, day);
        if outcome.Fail? {
          ClashIsWithOldDay(baseDays, year, month, day);
          return outcome, day;
        }
        day := day + 1;
      }
      assert day == DaysInMonth(year, month) + 1;
      MonthDone(baseWeeks, baseDays, weeks, days, year, month, day);
      r := Pass;
    }

    /**
      The body of the day loop: build the record of date (month, day)
      (`BuildDayRecord`; ValueError if the month has no such day, before
      anything is stored), then get-or-create its week and the day itself.
    */
    method ExpandDay(year: int, month: int, day: int, lastWeek: int) returns (r: Outcome)
      requires MIN_YEAR <= year <= MAX_YEAR && 1 <= month <= 12
      requires lastWeek == WeekOfYear(Date(year, 12, 31))
      requires Valid() && CalendarMonth(year, month) in months
      modifies this
      ensures Valid() && months == old(months)
      ensures r == Fail(ValueError) <==> !ValidDate(Date(year, month, day))
      ensures r == Fail(ValueError) ==> weeks == old(weeks) && days == old(days)
      ensures r != Fail(ValueError) ==> weeks == old(weeks) + {DayRecord(year, month, day).week}
      ensures r != Fail(ValueError) ==>
        (r.Pass? <==> DayRecord(year, month, day) in old(days) || !Clashes(old(days), DayRecord(year, month, day)))
      ensures r.Pass? ==> days == old(days) + {DayRecord(year, month, day)}
      ensures r.Fail? ==> days == old(days)
      ensures r.Fail? ==> r.error == ValueError || r.error == IntegrityError
    {
      var record := BuildDayRecord(year, month, day, lastWeek);
      if record.Err? {
        return Fail(record.error);
      }
      GetOrCreateWeek(record.value.week);
      r := GetOrCreateDay(record.value);
    }
  }

  /**
    Filing the record of date (m, d) on top of the records before it gives
    the records before the next day, all of them records of month `m` or
    earlier, over whatever the store held before the expansion.
  */
  lemma ExpansionStep(baseWeeks: set<CalendarWeek>, baseDays: set<CalendarDay>, y: int, m: int, d: int)
    requires 1 <= m <= 12 && 1 <= d <= DaysInMonth(y, m)
    ensures baseWeeks + WeeksBefore(y, m, d) + {DayRecord(y, m, d).week} == baseWeeks + WeeksBefore(y, m, d + 1)
    ensures baseDays + DaysBefore(y, m, d) + {DayRecord(y, m, d)} == baseDays + DaysBefore(y, m, d + 1)
    ensures DayRecord(y, m, d) !in DaysBefore(y, m, d)
    ensures baseWeeks + WeeksBefore(y, m, d + 1) <= baseWeeks + WeeksBefore(y, m + 1, 1)
    ensures baseDays + DaysBefore(y, m, d + 1) <= baseDays + DaysBefore(y, m + 1, 1)
  {
    DaysBeforeStep(y, m, d);
    DaysBeforeInMonth(y, m, d + 1);
  }

  /** Past the last day of month `m`, the records filed are those before month `m + 1`. */
  lemma MonthDone(baseWeeks: set<CalendarWeek>, baseDays: set<CalendarDay>,
                  weeks: set<CalendarWeek>, days: set<CalendarDay>, y: int, m: int, d: int)
    requires 1 <= m <= 12 && d == DaysInMonth(y, m) + 1
    requires weeks == baseWeeks + WeeksBefore(y, m, d)
    requires days == baseDays + DaysBefore(y, m, d)
    ensures weeks == baseWeeks + WeeksBefore(y, m + 1, 1)
    ensures days == baseDays + DaysBefore(y, m + 1, 1)
  {
    DaysBeforeNextMonth(y, m);
  }

  /** The records of the dates up to a failing date (m, d) are records of the year. */
  lemma FailedPrefixInYear(y: int, m: int, d: int)
    requires 1 <= m <= 12 && 1 <= d <= DaysInMonth(y, m)
    ensures MonthsBefore(y, m + 1) <= YearMonths(y)
    ensures WeeksBefore(y, m, d + 1) <= YearWeeks(y)
    ensures DaysBefore(y, m, d) <= YearDays(y)
  {
    DaysBeforeInYear(y, m, d);
    DaysBeforeInYear(y, m, d + 1);
    DaysBeforeInYear(y, m + 1, 1);
  }

  /**
    While the records before (m, d) have been added to `oldDays`, a clash
    of the record of (m, d) with a stored day can only come from `oldDays`,
    so the store was not compatible with the year.
  */
  lemma ClashIsWithOldDay(oldDays: set<CalendarDay>, y: int, m: int, d: int)
    requires MIN_YEAR <= y <= MAX_YEAR && ValidDate(Date(y, m, d))
    requires DayRecord(y, m, d) !in oldDays + DaysBefore(y, m, d)
    requires Clashes(oldDays + DaysBefore(y, m, d), DayRecord(y, m, d))
    ensures !CompatibleWith(oldDays, y)
  {
    var rec := DayRecord(y, m, d);
    var c :| c in oldDays + DaysBefore(y, m, d) && SharesUniqueKey(c, rec);
    YearDaysProperties(y);
    YearDaysUnique(y);
    DaysBeforeInYear(y, m, d);
    assert c in oldDays;
  }

  /**
    Expanding a year that is already expanded succeeds and leaves the
    store as it was: get-or-create finds every record.
  */
  method ExpandAgain(store: Store, year: int) returns (r: Outcome)
    requires store.Valid() && MIN_YEAR <= year <= MAX_YEAR
    requires store.HoldsYear(year)
    modifies store
    ensures r == Pass
    ensures store.months == old(store.months) && store.weeks == old(store.weeks)
    ensures store.days == old(store.days)
  {
    ExpandedYearIsCompatible(store.days, year);
    ghost var failedMonth, failedDay;
    r, failedMonth, failedDay := store.CreateDayAndWeek(year, true);
  }
}
