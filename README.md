# dbcalendar calendar expansion, modelled in Dafny

This project models the calendar part of a dormitory-management application
(`models.py`). A calendar year owns its month records, its week records and
one day record per date. Each day record points at its week and its month
and carries its ISO weekday number. When a `CalendarYear` is created, the
`create_day_and_week` hook expands the year:

1. It probes backwards from 31 December to find the number of the year's
   last week.
2. For each month it does a get-or-create of the month record.
3. For each day 1..31 of that month it builds the date, stopping at the
   first day the month does not have.
4. It takes the date's ISO week and weekday and applies two corrections:
   - a January day still in the previous ISO year is filed under week 0;
   - a December day already in ISO week 1 of the next year is filed under
     the last week.
5. It does a get-or-create of the week, then of the day.

The model has three modules:

- `IsoDates` (`iso_dates.dfy`) covers proleptic Gregorian dates and ISO 8601
  week dates. It computes ordinals, weekdays, the Monday of ISO week 1 and
  `isocalendar()` with the same algorithms as Python's `datetime`
  module. It also proves that `IsoCalendar` follows the ISO 8601 rule: a
  week belongs to the year holding its Thursday.
- `CalendarModels` (`calendar_models.dfy`) holds:
  - the records and their unique-together keys;
  - the two validators (`CalendarYear.clean`, `CalendarWeek.clean`);
  - the choice tables;
  - the set of records that expanding a year must produce, given as
    functions of the year (`YearMonths`, `YearWeeks`, `YearDays`), with
    their properties proved.

  Every day is filed under week `WeekOfYear(date)`. That is the number of
  whole weeks from the Monday of ISO week 1 of its year, plus one. The
  lemma `BoundaryCorrections` proves that the two corrections produce
  exactly this week.
- `CalendarStore` (`calendar_store.dfy`) holds the last-week probe as a
  method with its loop. It also holds the record store as a class whose
  fields are sets of records. Its methods are:
  - the get-or-create operations;
  - the hook itself (`CreateDayAndWeek`, with `created` as a parameter);
  - the month loop, the day loop and the loop body, each a method of its
    own (`ExpandYear`, `ExpandMonth`, `ExpandDay`). Each one's contract
    ties the store's new state to the records of the dates processed so
    far.

The clock read in `CalendarYear.clean` is a parameter (`currentYear`).
The date constructor's `ValueError` and Django's `IntegrityError` are
error values of an `Outcome` or `Result` datatype.

## Model

| member | source | states |
|---|---|---|
| `CalendarModels.CleanYear` | models.py:26-28 | passes exactly when the year number is not below the current year; otherwise fails with the "Can't add historical years" validation error |
| `CalendarModels.CleanWeekAsWritten` | models.py:75-78 | the validator as written fails with NameError for every week number |
| `CalendarModels.CleanWeek` | models.py:75-78 | passes exactly when the week number lies in [0, 54]; otherwise fails with the "Wrong week number" validation error |
| `CalendarModels.CleanWeekAsWrittenRefusesWeekOne` | models.py:77 | week 1 is refused by the validator as written and accepted by the intended one |
| `CalendarModels.MakeDate` | models.py:139 | the date constructor yields the date exactly when the triple is a valid Gregorian date of years 1..9999, and raises ValueError otherwise |
| `IsoDates.IsoCalendar` | models.py:140-142 | `isocalendar()`: the weekday is the ISO weekday 1..7 of the date, the week lies in 1..53 and the ISO year is within one of the calendar year |
| `IsoDates.IsoCalendarCases` | models.py:140-141 | a date before ISO week 1 of its year is in the previous ISO year; a date from ISO week 1 of the next year on is in week 1 of the next year; any other date counts whole weeks from ISO week 1 of its own year |
| `IsoDates.IsoCalendarThursdayRule` | models.py:140-141 | ISO 8601 week-date rule: the ISO year is the year holding the Thursday of the date's week, and the week number counts weeks from that year's first Thursday |
| `CalendarModels.BoundaryCorrections` | models.py:143-148 | the January correction fires exactly for dates in the previous ISO year and gives week 0; the December correction fires exactly for dates in the next ISO year and gives the week of 31 December; every other date keeps its ISO week; the result is `WeekOfYear` |
| `CalendarModels.MidYearKeepsIsoWeek` | models.py:140-150 | a date in February to November is filed under its ISO week number |
| `CalendarModels.LastWeekOfYear` | models.py:121-132 | the week of 31 December is the year's ISO week count, plus one when 31 December rolled into the next ISO year (which happens only in 52-week years); so it is 52 or 53 |
| `CalendarModels.WeekOfYearBounds` | models.py:143-148 | every date is filed under a week in [0, 53] that passes the week validator, and 1 January under week 0 or 1 |
| `CalendarModels.SameWeekSameWeekdaySameDate` | models.py:110 | two dates of a year filed under the same week with the same ISO weekday are the same date |
| `CalendarModels.MonthsBeforeCount` | models.py:135-136 | the month loop, before month m, has produced exactly m - 1 distinct month records |
| `CalendarModels.YearMonthsCount` | models.py:135-136 | a year has twelve month records, one per (year, month) |
| `CalendarModels.YearDaysAreAllDates` | models.py:135-154 | the day records of an expanded year are exactly the records of the year's valid dates |
| `CalendarModels.DaysBeforeCount` | models.py:137-139 | the records produced before day d of month m number exactly the days of the year before that date |
| `CalendarModels.YearDaysCount` | models.py:137-154 | a year yields 365 day records, or 366 in a leap year |
| `CalendarModels.YearDaysProperties` | models.py:139-151 | every day record belongs to the year and has a valid date, its month matches its date and is a month choice, its weekday number is the ISO weekday of its date and a day choice, and its week number is `WeekOfYear` in [0, 53]; every valid date of the year has its record |
| `CalendarModels.YearDaysUnique` | models.py:110 | the day records of a year satisfy both unique-together keys, (week, date) and (week, weekday), and no two share a date |
| `CalendarModels.YearWeeksInRange` | models.py:77-81 | every week record of a year belongs to the year, has a number in [0, 53] and passes the week validator |
| `CalendarModels.WeekBeforeHasDay` | models.py:150-151 | every week record produced is the week of a day record produced, so no week is created empty |
| `CalendarModels.ExpansionKeepsFieldsInRange` | models.py:135-151 | adding all or part of a year's records keeps month numbers among the month choices, week numbers valid and weekday numbers among the day choices |
| `CalendarModels.FreshYearIsCompatible` | models.py:116-118 | a store with no day in any week of the year cannot clash with the year's records |
| `CalendarModels.ExpandedYearIsCompatible` | models.py:136-151 | a consistent store that already holds the year's records cannot clash with them |
| `CalendarStore.ProbeLastWeek` | models.py:121-132 | the probe loop ends, and yields the week of 31 December (52 or 53); it raises ValueError exactly for years outside 1..9999 |
| `CalendarStore.DecemberIsoWeek` | models.py:125-127 | a probed December day is in ISO week 1 exactly when it rolled into the next ISO year, and 28 December never does, so the probe stops by then |
| `CalendarStore.ProbeStop` | models.py:129-132 | the week where the probe stops, plus one when it stepped past 31 December, is the week of 31 December |
| `CalendarStore.CorrectedWeekIsWeekOfYear` | models.py:143-148 | the two corrections, in the order applied, turn the ISO week into `WeekOfYear` |
| `CalendarStore.BuildDayRecord` | models.py:139-148 | succeeds exactly for valid dates, raises ValueError otherwise, and builds the record of that date |
| `CalendarStore.Store.GetOrCreateMonth` | models.py:136 | the month record is present afterwards, and nothing else changes |
| `CalendarStore.Store.GetOrCreateWeek` | models.py:150 | the week record is present afterwards, and nothing else changes |
| `CalendarStore.Store.GetOrCreateDay` | models.py:151 | passes exactly when the record is already stored or clashes with no stored day on a unique key, and then the record is present; otherwise it fails with IntegrityError and stores nothing |
| `CalendarStore.Store.CreateDayAndWeek` | models.py:116-154 | does nothing unless `created`; raises ValueError, changing nothing, for years outside the date range (the probe's date constructor); succeeds whenever no stored day clashes with the year; on success it adds exactly the year's month, week and day records; for a year in range it fails only with IntegrityError, and only when a stored day clashed with the year; it then holds the records of every date before the failing one, not the failing day's own record, which clashes with a stored day; it keeps the store's keys unique and its fields in range |
| `CalendarStore.Store.ExpandYear` | models.py:135-154 | after the month loop the store holds exactly its old records plus the year's; it fails only with IntegrityError and only when a stored day clashed with the year, and then holds its old records plus the months up to the failing date's month, the weeks up to and including the failing date's week, and the days before the failing date |
| `CalendarStore.Store.ExpandMonth` | models.py:137-154 | the day loop adds the records of the month's valid dates and stops at the first invalid one; a clash at a day fails with IntegrityError after adding exactly the day records before that day and the weeks up to and including its week, and the clashing record is not stored |
| `CalendarStore.Store.ExpandDay` | models.py:138-151 | fails with ValueError, storing nothing, exactly for invalid dates; otherwise it adds the date's week, and adds its day record unless that clashes with a stored day |
| `CalendarStore.ClashIsWithOldDay` | models.py:151 | a clash during expansion comes from a day stored before the expansion began |
| `CalendarStore.ExpandAgain` | models.py:118-151 | expanding a year the store already holds succeeds and changes nothing: get-or-create finds every record |

## Left out

- Django persistence, `Meta` options, verbose names, and the `post_save`
  signal wiring are left out. The hook is a method taking the `created`
  flag. Records are values identified by their fields; there are no row
  ids or foreign-key objects.
- `PublicationTracker` and `ChoiceBase` are not part of this model. The
  month and day choice tables are constant maps, and the label lookup
  `get_week_day_number_display` is left out.
- The `__unicode__` display methods are left out. They only format
  strings.
- `datetime.datetime.now()` in `CalendarYear.clean` is a clock read. The
  current year is a parameter.
- The `datetime` module is not part of this model. Its date range
  (years 1..9999), month lengths, ordinals and `isocalendar()` are written
  out as functions following its algorithms. No floating point or time of
  day is involved.
- Concurrency and transactions are left out; the code has none.
  `CreateDayAndWeek` leaves records it stored before a failure in place,
  as the code does without a transaction.
- The model splits `create_day_and_week` into `CreateDayAndWeek` (the
  probe), `ExpandYear` (the month loop), `ExpandMonth` (the day loop) and
  `ExpandDay` (the `try` body). The loops, the `break` on ValueError and
  the error propagation are the code's own.
- A day whose get-or-create clashes with a stored record on a unique key
  (models.py:151) is not skipped: get-or-create raises IntegrityError,
  which the `except ValueError` (models.py:153) does not catch, so the hook
  fails there.
- The computed last week is 52 or 53, never 54. The test's tuple
  (52, 53, 54) allows a value that cannot occur.

## Findings

| source | as written | input that shows it | evidently intended | confidence | as-written member | corrected member |
|---|---|---|---|---|---|---|
| models.py:77 | the range test reads the bare name `week_number`, which is not bound in `clean`, so every call raises NameError | any week, e.g. week number 1 | test `self.week_number` against [0, 54] and raise the validation error outside it | not executed | `CalendarModels.CleanWeekAsWrittenRefusesWeekOne` | `CalendarModels.CleanWeek` |
