/** The proleptic Gregorian calendar as Python's `datetime.date` uses it:
    validity of a year/month/day triple, the day ordinal that date
    subtraction is built on (`date.toordinal`, with 0001-01-01 as day 1),
    and the calendar successor and predecessor of a date. */
module Calendar {

  /** A calendar date; `Valid()` says whether it names a real day. */
  datatype Date = Date(year: int, month: int, day: int) {

    /** A real day of the proleptic Gregorian calendar from year 1 on. */
    predicate Valid() {
      MinYear <= year && 1 <= month <= 12 && 1 <= day <= DaysInMonth(year, month)
    }

    /** A date that a Python `date` object can hold (years 1 to 9999). */
    predicate InRange() {
      Valid() && year <= MaxYear
    }
  }

  const MinYear: int := 1
  const MaxYear: int := 9999

  predicate IsLeapYear(y: int) {
    y % 4 == 0 && (y % 100 != 0 || y % 400 == 0)
  }

  function DaysInYear(y: int): int {
    if IsLeapYear(y) then 366 else 365
  }

  function DaysInMonth(y: int, m: int): (n: int)
    requires 1 <= m <= 12
    ensures 28 <= n <= 31
    ensures n == 29 <==> m == 2 && IsLeapYear(y)
  {
    if m == 2 then (if IsLeapYear(y) then 29 else 28)
    else if m == 4 || m == 6 || m == 9 || m == 11 then 30
    else 31
  }

  /** Days in the months of year y before month m; month m fits in the
      rest of the year. */
  function DaysBeforeMonth(y: int, m: int): (r: int)
    requires 1 <= m <= 12
    ensures 0 <= r && r + DaysInMonth(y, m) <= DaysInYear(y)
  {
    [0, 31, 59, 90, 120, 151, 181, 212, 243, 273, 304, 334][m - 1]
      + (if m > 2 && IsLeapYear(y) then 1 else 0)
  }

  /** Days in the years before year y, counting from year 1. */
  function DaysBeforeYear(y: int): int {
    var p := y - 1;
    p * 365 + p / 4 - p / 100 + p / 400
  }

  /** The day number of d, as `date.toordinal()` computes it; a valid
      date's number falls after the days of the earlier years and within
      its own year. */
  function Ordinal(d: Date): (r: int)
    requires 1 <= d.month <= 12
    ensures d.Valid() ==> DaysBeforeYear(d.year) < r <= DaysBeforeYear(d.year) + DaysInYear(d.year)
  {
    DaysBeforeYear(d.year) + DaysBeforeMonth(d.year, d.month) + d.day
  }

  /** Calendar order: year first, then month, then day. */
  predicate Before(a: Date, b: Date) {
    a.year < b.year
    || (a.year == b.year && a.month < b.month)
    || (a.year == b.year && a.month == b.month && a.day < b.day)
  }

  /** The day after d. */
  function NextDay(d: Date): (r: Date)
    requires d.Valid()
    ensures r.Valid() && Before(d, r)
  {
    if d.day < DaysInMonth(d.year, d.month) then Date(d.year, d.month, d.day + 1)
    else if d.month < 12 then Date(d.year, d.month + 1, 1)
    else Date(d.year + 1, 1, 1)
  }

  /** The day before d; 0001-01-01 has none. */
  function PrevDay(d: Date): (r: Date)
    requires d.Valid() && d != Date(MinYear, 1, 1)
    ensures r.Valid() && Before(r, d)
  {
    if d.day > 1 then Date(d.year, d.month, d.day - 1)
    else if d.month > 1 then Date(d.year, d.month - 1, DaysInMonth(d.year, d.month - 1))
    else Date(d.year - 1, 12, 31)
  }

  /** n days after d. */
  function AddDays(d: Date, n: nat): (r: Date)
    requires d.Valid()
    ensures r.Valid()
    ensures n == 0 ==> r == d
    ensures n > 0 ==> Before(d, r)
    decreases n
  {
    if n == 0 then d else AddDays(NextDay(d), n - 1)
  }

  /** n days before d; there must be n days before d from 0001-01-01 on. */
  function SubDays(d: Date, n: nat): (r: Date)
    requires d.Valid() && n < Ordinal(d)
    ensures r.Valid() && r.year <= d.year
    ensures n == 0 ==> r == d
    ensures n > 0 ==> Before(r, d)
    decreases n
  {
    if n == 0 then d
    else
      StepBack(d, n);
      SubDays(PrevDay(d), n - 1)
  }

  // ---------------------------------------------------------------------
  // Lemmas about the ordinal

  /** A year contributes exactly its own length to the ordinal. */
  lemma DaysBeforeNextYear(y: int)
    ensures DaysBeforeYear(y + 1) == DaysBeforeYear(y) + DaysInYear(y)
  {
    Quotient4Step(y);
    Quotient100Step(y);
    Quotient400Step(y);
  }

  // p / k grows by one exactly when p reaches a multiple of k.

  lemma Quotient4Step(y: int)
    ensures y / 4 - (y - 1) / 4 == if y % 4 == 0 then 1 else 0
  {
  }

  lemma Quotient100Step(y: int)
    ensures y / 100 - (y - 1) / 100 == if y % 100 == 0 then 1 else 0
  {
  }

  lemma Quotient400Step(y: int)
    ensures y / 400 - (y - 1) / 400 == if y % 400 == 0 then 1 else 0
  {
  }

  /** A month contributes exactly its own length to the ordinal. */
  lemma DaysBeforeNextMonth(y: int, m: int)
    requires 1 <= m < 12
    ensures DaysBeforeMonth(y, m + 1) == DaysBeforeMonth(y, m) + DaysInMonth(y, m)
  {
  }

  /** December ends the year. */
  lemma DaysBeforeDecember(y: int)
    ensures DaysBeforeMonth(y, 12) + DaysInMonth(y, 12) == DaysInYear(y)
  {
  }

  /** The days of month m come after the days of every earlier month and
      before the days of every later month of the same year. */
  lemma {:induction false} MonthsInOrder(y: int, m1: int, m2: int)
    requires 1 <= m1 < m2 <= 12
    ensures DaysBeforeMonth(y, m1) + DaysInMonth(y, m1) <= DaysBeforeMonth(y, m2)
    decreases m2 - m1
  {
    DaysBeforeNextMonth(y, m1);
    if m1 + 1 < m2 {
      MonthsInOrder(y, m1 + 1, m2);
    }
  }

  /** The days of year y1 all come before those of any later year. */
  lemma {:induction false} YearsInOrder(y1: int, y2: int)
    requires y1 < y2
    ensures DaysBeforeYear(y1) + DaysInYear(y1) <= DaysBeforeYear(y2)
    decreases y2 - y1
  {
    DaysBeforeNextYear(y1);
    if y1 + 1 < y2 {
      YearsInOrder(y1 + 1, y2);
    }
  }

  /** Ordinals follow calendar order: a valid date comes before another
      exactly when its day number is smaller. */
  lemma OrdinalMonotone(a: Date, b: Date)
    requires a.Valid() && b.Valid()
    ensures Before(a, b) <==> Ordinal(a) < Ordinal(b)
  {
    if a.year < b.year {
      YearsInOrder(a.year, b.year);
    } else if b.year < a.year {
      YearsInOrder(b.year, a.year);
    } else if a.month < b.month {
      MonthsInOrder(a.year, a.month, b.month);
    } else if b.month < a.month {
      MonthsInOrder(a.year, b.month, a.month);
    }
  }

  /** Distinct valid dates have distinct ordinals. */
  lemma OrdinalInjective(a: Date, b: Date)
    requires a.Valid() && b.Valid()
    ensures Ordinal(a) == Ordinal(b) <==> a == b
  {
    OrdinalMonotone(a, b);
    OrdinalMonotone(b, a);
  }

  /** 0001-01-01 is day 1, and every valid date is day 1 or later. */
  lemma OrdinalFirstDay(d: Date)
    requires d.Valid()
    ensures Ordinal(Date(MinYear, 1, 1)) == 1
    ensures Ordinal(d) >= 1
  {
    assert DaysBeforeYear(MinYear) == 0;
    assert DaysBeforeYear(d.year) >= 0 by {
      if d.year > MinYear {
        YearsInOrder(MinYear, d.year);
      }
    }
  }

  /** The next day is one day number on. */
  lemma OrdinalNextDay(d: Date)
    requires d.Valid()
    ensures Ordinal(NextDay(d)) == Ordinal(d) + 1
  {
    if d.day == DaysInMonth(d.year, d.month) {
      if d.month < 12 {
        DaysBeforeNextMonth(d.year, d.month);
      } else {
        DaysBeforeDecember(d.year);
        DaysBeforeNextYear(d.year);
      }
    }
  }

  /** PrevDay undoes NextDay and NextDay undoes PrevDay. */
  lemma NextPrevInverse(d: Date)
    requires d.Valid()
    ensures PrevDay(NextDay(d)) == d
    ensures d != Date(MinYear, 1, 1) ==> NextDay(PrevDay(d)) == d
  {
  }

  /** The previous day is one day number back. */
  lemma OrdinalPrevDay(d: Date)
    requires d.Valid() && d != Date(MinYear, 1, 1)
    ensures Ordinal(PrevDay(d)) == Ordinal(d) - 1
  {
    NextPrevInverse(d);
    OrdinalNextDay(PrevDay(d));
  }

  /** A date with n > 0 days before it has a previous day, with n - 1 days before that. */
  lemma StepBack(d: Date, n: nat)
    requires d.Valid() && 0 < n < Ordinal(d)
    ensures d != Date(MinYear, 1, 1)
    ensures Ordinal(PrevDay(d)) == Ordinal(d) - 1
  {
    OrdinalPrevDay(d);
  }

  /** Adding n days adds n to the day number. */
  lemma {:induction false} OrdinalAddDays(d: Date, n: nat)
    requires d.Valid()
    ensures Ordinal(AddDays(d, n)) == Ordinal(d) + n
    decreases n
  {
    if n > 0 {
      OrdinalNextDay(d);
      OrdinalAddDays(NextDay(d), n - 1);
    }
  }

  /** Subtracting n days subtracts n from the day number. */
  lemma {:induction false} OrdinalSubDays(d: Date, n: nat)
    requires d.Valid() && n < Ordinal(d)
    ensures Ordinal(SubDays(d, n)) == Ordinal(d) - n
    decreases n
  {
    if n > 0 {
      StepBack(d, n);
      OrdinalSubDays(PrevDay(d), n - 1);
    }
  }
}
