/** `get_days_from_today`: the signed number of whole days from today to a
    date written in the `%Y-%m-%d` format, or None when the string does not
    name such a date.  The clock reading is a parameter. */
module DateOffset {
  import opened Calendar
  import opened DateFormat

  /** A reading of the clock, as `datetime.now()` gives it. */
  datatype DateTime = DateTime(date: Date, hour: int, minute: int, second: int, microsecond: int)

  /** Days from `today` to the date s names: positive for a later date,
      negative for an earlier one, zero for today; None when s is rejected. */
  function DaysFromToday(s: string, today: Date): (r: Option<int>)
    requires today.InRange()
    ensures r.None? <==> Parse(s).None?
    ensures r.Some? ==> (r.value == 0 <==> Parse(s).value == today)
    ensures r.Some? ==> (r.value > 0 <==> Before(today, Parse(s).value))
    ensures r.Some? ==> (r.value < 0 <==> Before(Parse(s).value, today))
  {
    match Parse(s)
    case None => None
    case Some(d) =>
      OrdinalMonotone(d, today);
      OrdinalMonotone(today, d);
      OrdinalInjective(d, today);
      Some(Ordinal(d) - Ordinal(today))
  }

  /** `get_days_from_today(s)` when the clock reads `now`: only the date of
      the reading is used. */
  function GetDaysFromToday(s: string, now: DateTime): (r: Option<int>)
    requires now.date.InRange()
    ensures r.None? <==> Parse(s).None?
    ensures r.Some? ==> (r.value == 0 <==> Parse(s).value == now.date)
    ensures r.Some? ==> (r.value > 0 <==> Before(now.date, Parse(s).value))
    ensures r.Some? ==> (r.value < 0 <==> Before(Parse(s).value, now.date))
  {
    DaysFromToday(s, now.date)
  }

  // ---------------------------------------------------------------------
  // Properties

  /** A spelling of a date Python can hold gives the difference of the day
      numbers, the whole days of `date - today`. */
  lemma OffsetOfSpelling(s: string, d: Date, today: Date)
    requires today.InRange() && d.InRange() && s in Spellings(d)
    ensures DaysFromToday(s, today) == Some(Ordinal(d) - Ordinal(today))
  {
    ParseComplete(d, s);
  }

  /** The zero-padded spelling of a date gives the difference of the day
      numbers. */
  lemma OffsetOfFormat(d: Date, today: Date)
    requires today.InRange() && d.InRange()
    ensures DaysFromToday(Format(d), today) == Some(Ordinal(d) - Ordinal(today))
  {
    FormatRoundTrip(d);
  }

  /** The result is None exactly when s spells no date Python can hold. */
  lemma OffsetNoneExactly(s: string, today: Date)
    requires today.InRange()
    ensures DaysFromToday(s, today).None? <==> forall d: Date :: d.InRange() ==> s !in Spellings(d)
  {
    ParseNoneExactly(s);
  }

  /** A spelling of an impossible date gives None, not a nearby day. */
  lemma OffsetOfImpossibleDate(s: string, d: Date, today: Date)
    requires today.InRange() && Writable(d) && !d.Valid() && s in Spellings(d)
    ensures DaysFromToday(s, today) == None
  {
    ParseComplete(d, s);
  }

  /** Today, however it is spelled, is 0 days away. */
  lemma OffsetOfToday(s: string, today: Date)
    requires today.InRange() && s in Spellings(today)
    ensures DaysFromToday(s, today) == Some(0)
  {
    ParseComplete(today, s);
  }

  /** The day after a date is one more day away, across the ends of
      months and years and over February 29. */
  lemma OffsetOfNextDay(s: string, t: string, d: Date, today: Date)
    requires today.InRange() && d.InRange() && NextDay(d).year <= MaxYear
    requires s in Spellings(d) && t in Spellings(NextDay(d))
    ensures DaysFromToday(s, today).Some? && DaysFromToday(t, today).Some?
    ensures DaysFromToday(t, today).value == DaysFromToday(s, today).value + 1
  {
    OffsetOfSpelling(s, d, today);
    OffsetOfSpelling(t, NextDay(d), today);
    OrdinalNextDay(d);
  }

  /** The date n days after today is n days away. */
  lemma OffsetOfDaysAhead(today: Date, n: nat)
    requires today.InRange() && AddDays(today, n).year <= MaxYear
    ensures DaysFromToday(Format(AddDays(today, n)), today) == Some(n as int)
  {
    var d := AddDays(today, n);
    assert d.InRange();
    OffsetOfFormat(d, today);
    OrdinalAddDays(today, n);
  }

  /** The date n days before today is -n days away. */
  lemma OffsetOfDaysAgo(today: Date, n: nat)
    requires today.InRange() && n < Ordinal(today)
    ensures DaysFromToday(Format(SubDays(today, n)), today) == Some(-(n as int))
  {
    var d := SubDays(today, n);
    OrdinalSubDays(today, n);
    OffsetOfFormat(d, today);
  }

  /** The time of day of the clock reading does not change the result.
      This holds by construction: GetDaysFromToday reads only the date of
      the reading, as `datetime.now().date()` does. */
  lemma TimeOfDayIrrelevant(s: string, a: DateTime, b: DateTime)
    requires a.date.InRange() && a.date == b.date
    ensures GetDaysFromToday(s, a) == GetDaysFromToday(s, b)
  {
  }

  // Offsets across the end of February, in a leap and a common year.

  lemma OffsetOverLeapDay()
    ensures DaysFromToday("2024-03-01", Date(2024, 2, 28)) == Some(2)
  {
    assert "2024-03-01" == Format(Date(2024, 3, 1));
    OffsetOfSpelling("2024-03-01", Date(2024, 3, 1), Date(2024, 2, 28));
  }

  lemma OffsetOverCommonFebruary()
    ensures DaysFromToday("2023-03-01", Date(2023, 2, 28)) == Some(1)
  {
    assert "2023-03-01" == Format(Date(2023, 3, 1));
    OffsetOfSpelling("2023-03-01", Date(2023, 3, 1), Date(2023, 2, 28));
  }

  lemma OffsetOfYesterday()
    ensures DaysFromToday("2024-02-27", Date(2024, 2, 28)) == Some(-1)
  {
    assert "2024-02-27" == Format(Date(2024, 2, 27));
    OffsetOfSpelling("2024-02-27", Date(2024, 2, 27), Date(2024, 2, 28));
  }

  lemma OffsetOfNonDate(today: Date)
    requires today.InRange()
    ensures DaysFromToday("not-a-date", today) == None
  {
    ParseRejectsNonDate();
  }
}
