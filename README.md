# get_days_from_today, verified

A Dafny model of `get_days_from_today` (main.py). The function takes a
string that should name a date in the `YYYY-MM-DD` format. It returns the
signed number of whole days from today to that date: positive for a later
date, negative for an earlier one, zero for today. When Python's
`datetime.strptime(date, "%Y-%m-%d")` rejects the string, it returns `None`.

The model has three modules, one per step of the function:

- `Calendar` (calendar.dfy): the proleptic Gregorian calendar of Python's
  `datetime.date`. It defines validity (month 1 to 12, day within the
  month, the leap-year rule for February, years from 1; `InRange` adds
  Python's upper limit of 9999) and `Ordinal`, which counts days the way
  `date.toordinal()` does, with 0001-01-01 as day 1. Subtracting two
  `date` objects gives the difference of their ordinals, so the lemmas
  about `Ordinal` carry the arithmetic of main.py:12-14. `NextDay` and
  `PrevDay` are the calendar successor and predecessor, defined without
  reference to `Ordinal`. They serve as the independent yardstick for it.
- `DateFormat` (date_format.dfy): `Parse`, the `%Y-%m-%d` reading of
  strptime. strptime builds one regular expression per directive and
  matches them at the start of the string:
  - `%Y` is `\d\d\d\d`;
  - `%m` is `1[0-2]|0[1-9]|[1-9]`;
  - `%d` is `3[01]|[12]\d|0[1-9]|[1-9]| [1-9]`.

  `FirstMatch` takes the first alternative that is followed by the next
  literal of the pattern (`-` after the month, nothing after the day).
  This is the choice CPython's backtracking matcher makes, because at most
  one `%m` alternative can be followed by `-` (the three cases of
  `MonthMatchCases` are disjoint) and nothing follows `%d`. Text left over after the match is an
  error. So is a year, month and day that `datetime.date` cannot hold,
  including year 0. `Spellings(d)` separately lists every string that
  names `d`: four year digits, a one- or two-digit month, and a one- or
  two-digit day, where a one-digit day may also have a blank before it.
  `ParseExactly` proves that `Parse` accepts exactly those strings.
- `DateOffset` (date_offset.dfy): `DaysFromToday(s, today)`, which is
  `Ordinal(Parse(s)) - Ordinal(today)` or `None`. `GetDaysFromToday(s, now)`
  takes a full clock reading and uses only its date, as main.py:11 does
  with `.date()`.

Python's regular-expression table for strptime lives in the standard
library's `_strptime` module, which is not part of this model. The three
patterns above are the ones CPython defines. strptime raises `ValueError`
for February 29 of a common year (main.py:6-9), so the model returns
`None`; `ParseLeapDay` and `OffsetOfImpossibleDate` state this.

## Model

| member | source | states |
|---|---|---|
| `Calendar.DaysInMonth` | main.py:6 | every month has 28 to 31 days, and 29 exactly for February of a leap year |
| `Calendar.NextDay` | main.py:12-14 | the day after a valid date is a valid date that comes after it in calendar order |
| `Calendar.PrevDay` | main.py:12-14 | the day before a valid date other than 0001-01-01 is a valid date that comes before it |
| `Calendar.NextPrevInverse` | main.py:12-14 | PrevDay undoes NextDay, and NextDay undoes PrevDay |
| `Calendar.IsLeapYear` | main.py:12-14 | the Gregorian leap-year rule of `date`; DaysBeforeNextYear proves that a leap year adds 366 days to the ordinal and any other year 365 |
| `Calendar.DaysBeforeMonth` | main.py:12-14 | the days of the months before m: month m fits in what is left of the year; DaysBeforeNextMonth and DaysBeforeDecember prove that each month adds exactly its length and December closes the year |
| `Calendar.DaysBeforeYear` | main.py:12-14 | the days of the years before y; DaysBeforeNextYear and YearsInOrder prove that each year adds exactly its length |
| `Calendar.Ordinal` | main.py:12-14 | the day number of `date.toordinal`: a valid date's number comes after the days of earlier years and within its own year; OrdinalFirstDay, OrdinalNextDay and OrdinalMonotone prove that 0001-01-01 is day 1, the next day is one more, and the order of dates is the order of their numbers |
| `Calendar.AddDays` | main.py:12-14 | adding n days gives a valid date, the same date exactly when n is 0 and a later one otherwise |
| `Calendar.OrdinalMonotone` | main.py:12-14 | for valid dates, a comes before b in calendar order exactly when Ordinal(a) < Ordinal(b) |
| `Calendar.OrdinalInjective` | main.py:12-14 | two valid dates have the same ordinal exactly when they are the same date |
| `Calendar.OrdinalFirstDay` | main.py:12-14 | 0001-01-01 is day 1, and every valid date has an ordinal of at least 1 |
| `Calendar.OrdinalNextDay` | main.py:12-14 | the next day's ordinal is one more, at month ends, year ends and around February 29 too |
| `Calendar.OrdinalPrevDay` | main.py:12-14 | the previous day's ordinal is one less |
| `Calendar.OrdinalAddDays` | main.py:12-14 | the date n days later has an ordinal n larger |
| `Calendar.OrdinalSubDays` | main.py:12-14 | the date n days earlier has an ordinal n smaller |
| `Calendar.SubDays` | main.py:12-14 | going back fewer days than precede a date gives a valid date, no later in year, the same date exactly when n is 0 and an earlier one otherwise |
| `DateFormat.Parse` | main.py:4-9 | whatever is accepted is a date a Python `date` can hold |
| `DateFormat.MonthMatchCases` | main.py:6 | the month field takes the first alternative of `1[0-2]`, `0[1-9]`, `[1-9]` that is followed by '-' |
| `DateFormat.DayMatchCases` | main.py:6 | the day field takes the first alternative of `3[01]`, `[12]\d`, `0[1-9]`, `[1-9]`, ` [1-9]` that matches |
| `DateFormat.ParseSound` | main.py:6 | an accepted string is one of the spellings of the date it is read as |
| `DateFormat.ParseComplete` | main.py:6-9 | a spelling of a year, month and day is read as that date if Python can hold it, and rejected otherwise; an impossible date is never corrected |
| `DateFormat.ParseExactly` | main.py:6-9 | Parse(s) is d exactly when d is a date Python can hold and s spells it |
| `DateFormat.ParseNoneExactly` | main.py:4-9 | Parse rejects s exactly when s spells no date Python can hold |
| `DateFormat.FormatRoundTrip` | main.py:6 | the zero-padded `YYYY-MM-DD` text of a date reads back as that date |
| `DateFormat.ParseRejectsNonDate` | main.py:4-9 | "not-a-date" is rejected |
| `DateFormat.ParseLeapDay` | main.py:6-9 | February 29 is accepted in 2024 and rejected in 2023 |
| `DateFormat.ParseRejectsImpossibleDates` | main.py:6-9 | April 31, month 13 and year 0 are rejected |
| `DateFormat.ParseShortFields` | main.py:6 | "2024-1-5" and "2024-01- 5" are read as January 5, 2024 |
| `DateFormat.ParseRejectsTrailingText` | main.py:6-9 | a trailing blank or a third day digit makes the string invalid |
| `DateOffset.GetDaysFromToday` | main.py:3-14 | with the clock reading passed in: None exactly when parsing fails; otherwise zero exactly for the reading's date, positive exactly for later dates and negative exactly for earlier ones |
| `DateOffset.DaysFromToday` | main.py:3-14 | None exactly when parsing fails; otherwise zero exactly for today, positive exactly for later dates and negative exactly for earlier ones |
| `DateOffset.OffsetOfSpelling` | main.py:6-14 | any spelling of a date gives the difference between its day ordinal and today's |
| `DateOffset.OffsetOfFormat` | main.py:6-14 | the zero-padded text of a date gives the difference between its day ordinal and today's |
| `DateOffset.OffsetNoneExactly` | main.py:4-9 | the result is None exactly when the string spells no date Python can hold |
| `DateOffset.OffsetOfImpossibleDate` | main.py:6-9 | a spelling of an impossible year, month and day gives None |
| `DateOffset.OffsetOfToday` | main.py:11-14 | any spelling of today gives 0 |
| `DateOffset.OffsetOfNextDay` | main.py:12-14 | a spelling of the next day gives exactly one more than a spelling of the date |
| `DateOffset.OffsetOfDaysAhead` | main.py:11-14 | the date n days after today gives n |
| `DateOffset.OffsetOfDaysAgo` | main.py:11-14 | the date n days before today gives -n |
| `DateOffset.TimeOfDayIrrelevant` | main.py:11 | two clock readings on the same date give the same result (this holds by construction, since only the date of the reading is used) |
| `DateOffset.OffsetOverLeapDay` | main.py:12-14 | 2024-03-01 is 2 days after 2024-02-28 |
| `DateOffset.OffsetOverCommonFebruary` | main.py:12-14 | 2023-03-01 is 1 day after 2023-02-28 |
| `DateOffset.OffsetOfYesterday` | main.py:12-14 | 2024-02-27 is -1 days from 2024-02-28 |
| `DateOffset.OffsetOfNonDate` | main.py:4-9 | "not-a-date" gives None |

## Left out

- Reading the clock (`datetime.now()`, main.py:11): the clock reading is the parameter `now`, or its date `today`. Both must be a date Python can hold, as every `datetime` is.
- The diagnostic `print` on invalid input (main.py:8): it is output and not part of the result.
- Unicode digits: in Python 3, `\d` matches any Unicode decimal digit and `int()` reads them. The model accepts only the ASCII digits 0-9.
- strptime's other directives, its locale handling and its format-string compiler: only the fixed `%Y-%m-%d` pattern is modelled.
- The `datetime` that strptime returns is at midnight and is reduced by `.date()` (main.py:6). `Parse` returns the date directly.
- The hour, minute, second and microsecond of `DateTime` are not range-checked, because the result never depends on them.
- Lottery draw, phone normalisation and birthday reminders are not in main.py and are not part of this model.
