/** Reading a date written in the `%Y-%m-%d` format of Python's
    `datetime.strptime`.

    strptime turns each directive into a regular expression and matches the
    whole pattern at the start of the string:
      %Y  \d\d\d\d
      %m  1[0-2]|0[1-9]|[1-9]
      %d  3[01]|[12]\d|0[1-9]|[1-9]| [1-9]
    A backtracking engine takes the first alternative that lets the rest of
    the pattern match; here that is the first alternative followed by the
    pattern's next literal, because at most one %m alternative can be
    followed by '-' and nothing follows %d.  Text left over after the match is an error
    ("unconverted data remains"), and so is a year, month and day that do
    not form a date `datetime.date` can hold.  `Parse` follows those steps;
    `Spellings` describes the accepted strings independently, field by
    field, and `ParseExactly` proves the two agree. */
module DateFormat {
  import opened Calendar

  datatype Option<T> = None | Some(value: T)

  // ---------------------------------------------------------------------
  // Digits and numerals

  predicate IsDigit(c: char) {
    '0' <= c <= '9'
  }

  function DigitValue(c: char): int
    requires IsDigit(c)
  {
    c as int - '0' as int
  }

  /** The numeral of n, 0 <= n <= 9. */
  function Digit(n: int): (c: char)
    requires 0 <= n <= 9
    ensures IsDigit(c) && DigitValue(c) == n
  {
    ('0' as int + n) as char
  }

  /** Python's `int()` on the text of a matched field: the decimal value of
      its digits.  A field holds only digits, after at most one leading
      blank, which `int()` skips; every character that is not a digit is
      skipped here. */
  function IntValue(t: string): nat
    decreases |t|
  {
    if t == [] then 0
    else if IsDigit(t[|t| - 1]) then IntValue(t[..|t| - 1]) * 10 + DigitValue(t[|t| - 1])
    else IntValue(t[..|t| - 1])
  }

  /** n as exactly two digits, zero-padded. */
  function Pad2(n: int): string
    requires 0 <= n <= 99
  {
    [Digit(n / 10), Digit(n % 10)]
  }

  /** n as exactly four digits, zero-padded. */
  function Pad4(n: int): string
    requires 0 <= n <= 9999
  {
    Pad2(n / 100) + Pad2(n % 100)
  }

  // ---------------------------------------------------------------------
  // The regular expressions of the three directives

  /** A bracket expression `[lo-hi]`; a single character c is `[c-c]`. */
  datatype CharRange = CharRange(lo: char, hi: char) {
    predicate Has(c: char) {
      lo <= c <= hi
    }
  }

  /** A sequence of bracket expressions, one character each. */
  type Pattern = seq<CharRange>

  function Lit(c: char): CharRange {
    CharRange(c, c)
  }

  const AnyDigit: CharRange := CharRange('0', '9')
  const NonZeroDigit: CharRange := CharRange('1', '9')

  /** %Y: \d\d\d\d */
  const YearPattern: Pattern := [AnyDigit, AnyDigit, AnyDigit, AnyDigit]

  /** %m: 1[0-2]|0[1-9]|[1-9] */
  const MonthAlternatives: seq<Pattern> :=
    [[Lit('1'), CharRange('0', '2')], [Lit('0'), NonZeroDigit], [NonZeroDigit]]

  /** %d: 3[01]|[12]\d|0[1-9]|[1-9]| [1-9] */
  const DayAlternatives: seq<Pattern> :=
    [[Lit('3'), CharRange('0', '1')], [CharRange('1', '2'), AnyDigit], [Lit('0'), NonZeroDigit],
     [NonZeroDigit], [Lit(' '), NonZeroDigit]]

  /** s has a text matching p starting at index i. */
  predicate MatchesAt(s: string, i: nat, p: Pattern) {
    i + |p| <= |s| && forall k :: 0 <= k < |p| ==> p[k].Has(s[i + k])
  }

  /** Index j of s holds the literal that the pattern requires next, if any. */
  predicate FollowedBy(s: string, j: nat, next: Option<char>) {
    match next
    case None => true
    case Some(c) => j < |s| && s[j] == c
  }

  /** Where the first of the alternatives that matches at i, and is followed
      by the literal `next`, ends.  Only the next literal is checked, not
      the rest of the pattern; for %m and %d that is the choice a
      backtracking matcher makes (see MonthMatchCases, DayMatchCases). */
  function FirstMatch(s: string, i: nat, alts: seq<Pattern>, next: Option<char>): (r: Option<nat>)
    ensures r.Some? ==> i <= r.value <= |s| && FollowedBy(s, r.value, next)
    decreases |alts|
  {
    if alts == [] then None
    else if MatchesAt(s, i, alts[0]) && FollowedBy(s, i + |alts[0]|, next) then Some(i + |alts[0]|)
    else FirstMatch(s, i, alts[1..], next)
  }

  // ---------------------------------------------------------------------
  // The parser

  /** `datetime.strptime(s, "%Y-%m-%d").date()`, with `None` where strptime
      raises `ValueError`. */
  function Parse(s: string): (r: Option<Date>)
    ensures r.Some? ==> r.value.InRange()
  {
    if !(MatchesAt(s, 0, YearPattern) && FollowedBy(s, 4, Some('-'))) then None
    else
      match FirstMatch(s, 5, MonthAlternatives, Some('-'))
      case None => None
      case Some(monthEnd) =>
        match FirstMatch(s, monthEnd + 1, DayAlternatives, None)
        case None => None
        case Some(dayEnd) =>
          if dayEnd < |s| then None  // unconverted data remains
          else
            var d := Date(IntValue(s[..4]), IntValue(s[5..monthEnd]), IntValue(s[monthEnd + 1..]));
            if d.InRange() then Some(d) else None
  }

  // ---------------------------------------------------------------------
  // The accepted strings, described field by field

  /** The texts of month field m: two digits, or one digit for months 1 to 9. */
  function MonthTexts(m: int): set<string>
    requires 0 <= m <= 99
  {
    {Pad2(m)} + (if 1 <= m <= 9 then {[Digit(m)]} else {})
  }

  /** The texts of day field d: two digits, or for days 1 to 9 one digit,
      with or without a blank before it. */
  function DayTexts(d: int): set<string>
    requires 0 <= d <= 99
  {
    {Pad2(d)} + (if 1 <= d <= 9 then {[Digit(d)], [' ', Digit(d)]} else {})
  }

  /** Bounds under which a year, month and day can be written in the format. */
  predicate Writable(d: Date) {
    0 <= d.year <= 9999 && 0 <= d.month <= 99 && 0 <= d.day <= 99
  }

  /** Every way of writing d in the `%Y-%m-%d` format. */
  function Spellings(d: Date): set<string>
    requires Writable(d)
  {
    set ms, ds | ms in MonthTexts(d.month) && ds in DayTexts(d.day) :: Pad4(d.year) + "-" + ms + "-" + ds
  }

  /** The zero-padded spelling, as `date.isoformat()` writes it. */
  function Format(d: Date): (s: string)
    requires Writable(d)
    ensures s in Spellings(d) && |s| == 10
  {
    var s := Pad4(d.year) + "-" + Pad2(d.month) + "-" + Pad2(d.day);
    assert Pad2(d.month) in MonthTexts(d.month) && Pad2(d.day) in DayTexts(d.day);
    s
  }

  // ---------------------------------------------------------------------
  // Numerals

  lemma IntValueOneDigit(c: char)
    requires IsDigit(c)
    ensures IntValue([c]) == DigitValue(c)
    ensures IntValue([' ', c]) == DigitValue(c)
  {
    assert [c][..0] == [];
    assert [' ', c][..1] == [' '];
    assert [' '][..0] == [];
  }

  lemma IntValueTwoDigits(a: char, b: char)
    requires IsDigit(a) && IsDigit(b)
    ensures IntValue([a, b]) == 10 * DigitValue(a) + DigitValue(b)
  {
    assert [a, b][..1] == [a];
    IntValueOneDigit(a);
  }

  /** Two digits are the zero-padded numeral of their value. */
  lemma TwoDigitNumeral(a: char, b: char)
    requires IsDigit(a) && IsDigit(b)
    ensures IntValue([a, b]) <= 99 && Pad2(IntValue([a, b])) == [a, b]
  {
    IntValueTwoDigits(a, b);
  }

  /** The value of four digits: the first two count in hundreds. */
  lemma IntValueFourDigits(t: string)
    requires |t| == 4 && forall k :: 0 <= k < 4 ==> IsDigit(t[k])
    ensures IntValue(t) == 100 * IntValue(t[..2]) + IntValue(t[2..])
  {
    assert t[..3][..2] == t[..2] == [t[0], t[1]];
    assert t[2..] == [t[2], t[3]];
    IntValueTwoDigits(t[0], t[1]);
    IntValueTwoDigits(t[2], t[3]);
  }

  /** Splitting a number below 10000 into hundreds and the rest. */
  lemma Hundreds(h: int, l: int)
    requires 0 <= h <= 99 && 0 <= l <= 99
    ensures (100 * h + l) / 100 == h && (100 * h + l) % 100 == l
  {
  }

  /** Four digits are the zero-padded numeral of their value. */
  lemma FourDigitNumeral(t: string)
    requires |t| == 4 && forall k :: 0 <= k < 4 ==> IsDigit(t[k])
    ensures IntValue(t) <= 9999 && Pad4(IntValue(t)) == t
  {
    IntValueFourDigits(t);
    TwoDigitNumeral(t[0], t[1]);
    TwoDigitNumeral(t[2], t[3]);
    assert t[..2] == [t[0], t[1]] && t[2..] == [t[2], t[3]];
    Hundreds(IntValue(t[..2]), IntValue(t[2..]));
    assert t == t[..2] + t[2..];
  }

  /** The value of a zero-padded numeral is the number it pads. */
  lemma PadValue(n: int)
    requires 0 <= n <= 9999
    ensures n <= 99 ==> IntValue(Pad2(n)) == n
    ensures IntValue(Pad4(n)) == n
  {
    var h, l := n / 100, n % 100;
    IntValueTwoDigits(Digit(h / 10), Digit(h % 10));
    IntValueTwoDigits(Digit(l / 10), Digit(l % 10));
    var t := Pad4(n);
    assert t[..2] == Pad2(h) && t[2..] == Pad2(l);
    IntValueFourDigits(t);
    if n <= 99 {
      assert h == 0 && l == n;
    }
  }

  /** A one- or two-character pattern matches character by character. */
  lemma MatchesOneOrTwo(s: string, i: nat, p: Pattern)
    requires 1 <= |p| <= 2
    ensures |p| == 1 ==> (MatchesAt(s, i, p) <==> i < |s| && p[0].Has(s[i]))
    ensures |p| == 2 ==> (MatchesAt(s, i, p) <==> i + 1 < |s| && p[0].Has(s[i]) && p[1].Has(s[i + 1]))
  {
  }

  /** The choice the %m regular expression makes, followed by '-'. */
  lemma MonthMatchCases(s: string, i: nat)
    ensures FirstMatch(s, i, MonthAlternatives, Some('-')) ==
      if i + 2 < |s| && s[i] == '1' && '0' <= s[i + 1] <= '2' && s[i + 2] == '-' then Some(i + 2)
      else if i + 2 < |s| && s[i] == '0' && '1' <= s[i + 1] <= '9' && s[i + 2] == '-' then Some(i + 2)
      else if i + 1 < |s| && '1' <= s[i] <= '9' && s[i + 1] == '-' then Some(i + 1)
      else None
  {
    var alts := MonthAlternatives;
    MatchesOneOrTwo(s, i, alts[0]);
    MatchesOneOrTwo(s, i, alts[1]);
    MatchesOneOrTwo(s, i, alts[2]);
    var a1 := alts[1..];
    var a2 := a1[1..];
    assert a1[0] == alts[1] && a2[0] == alts[2] && a2[1..] == [];
    var next := Some('-');
    assert FirstMatch(s, i, a2, next) == if MatchesAt(s, i, a2[0]) && FollowedBy(s, i + 1, next) then Some(i + 1) else None;
    assert FirstMatch(s, i, a1, next) == if MatchesAt(s, i, a1[0]) && FollowedBy(s, i + 2, next) then Some(i + 2) else FirstMatch(s, i, a2, next);
  }

  /** The choice the %d regular expression makes, with nothing after it. */
  lemma DayMatchCases(s: string, i: nat)
    ensures FirstMatch(s, i, DayAlternatives, None) ==
      if i + 1 < |s| && s[i] == '3' && '0' <= s[i + 1] <= '1' then Some(i + 2)
      else if i + 1 < |s| && '1' <= s[i] <= '2' && IsDigit(s[i + 1]) then Some(i + 2)
      else if i + 1 < |s| && s[i] == '0' && '1' <= s[i + 1] <= '9' then Some(i + 2)
      else if i < |s| && '1' <= s[i] <= '9' then Some(i + 1)
      else if i + 1 < |s| && s[i] == ' ' && '1' <= s[i + 1] <= '9' then Some(i + 2)
      else None
  {
    var alts := DayAlternatives;
    MatchesOneOrTwo(s, i, alts[0]);
    MatchesOneOrTwo(s, i, alts[1]);
    MatchesOneOrTwo(s, i, alts[2]);
    MatchesOneOrTwo(s, i, alts[3]);
    MatchesOneOrTwo(s, i, alts[4]);
    var a1 := alts[1..];
    var a2 := a1[1..];
    var a3 := a2[1..];
    var a4 := a3[1..];
    assert a1[0] == alts[1] && a2[0] == alts[2] && a3[0] == alts[3] && a4[0] == alts[4];
    assert a4[1..] == [];
    assert FirstMatch(s, i, a4, None) == if MatchesAt(s, i, a4[0]) then Some(i + 2) else None;
    assert FirstMatch(s, i, a3, None) == if MatchesAt(s, i, a3[0]) then Some(i + 1) else FirstMatch(s, i, a4, None);
    assert FirstMatch(s, i, a2, None) == if MatchesAt(s, i, a2[0]) then Some(i + 2) else FirstMatch(s, i, a3, None);
    assert FirstMatch(s, i, a1, None) == if MatchesAt(s, i, a1[0]) then Some(i + 2) else FirstMatch(s, i, a2, None);
  }

  // ---------------------------------------------------------------------
  // The fields, matched and spelled

  /** A month text followed by '-' is read as its own value, and accepted
      exactly for months 1 to 12. */
  lemma MonthFieldComplete(s: string, i: nat, m: int, t: string)
    requires 0 <= m <= 99 && t in MonthTexts(m)
    requires i + |t| < |s| && s[i..i + |t|] == t && s[i + |t|] == '-'
    ensures IntValue(t) == m
    ensures FirstMatch(s, i, MonthAlternatives, Some('-')) == if 1 <= m <= 12 then Some(i + |t|) else None
  {
    MonthMatchCases(s, i);
    PadValue(m);
    assert s[i] == t[0];
    if |t| == 2 {
      assert s[i + 1] == t[1];
    } else {
      IntValueOneDigit(t[0]);
    }
  }

  /** What the month field matches is a month text of a month 1 to 12. */
  lemma MonthFieldSound(s: string, i: nat, e: nat)
    requires FirstMatch(s, i, MonthAlternatives, Some('-')) == Some(e)
    ensures 1 <= IntValue(s[i..e]) <= 12 && s[i..e] in MonthTexts(IntValue(s[i..e]))
  {
    MonthMatchCases(s, i);
    var t := s[i..e];
    if e == i + 2 {
      assert t == [s[i], s[i + 1]];
      TwoDigitNumeral(s[i], s[i + 1]);
    } else {
      assert t == [s[i]];
      IntValueOneDigit(s[i]);
    }
  }

  /** A day text that ends the string is read as its own value, and is
      matched to the end exactly for days 1 to 31. */
  lemma DayFieldComplete(s: string, i: nat, d: int, t: string)
    requires 0 <= d <= 99 && t in DayTexts(d)
    requires i <= |s| && s[i..] == t
    ensures IntValue(t) == d
    ensures FirstMatch(s, i, DayAlternatives, None) == Some(|s|) <==> 1 <= d <= 31
  {
    DayMatchCases(s, i);
    PadValue(d);
    assert s[i] == t[0];
    if |t| == 2 {
      assert s[i + 1] == t[1];
      if t[0] == ' ' {
        IntValueOneDigit(t[1]);
      }
    } else {
      IntValueOneDigit(t[0]);
    }
  }

  /** What the day field matches to the end is a day text of a day 1 to 31. */
  lemma DayFieldSound(s: string, i: nat)
    requires FirstMatch(s, i, DayAlternatives, None) == Some(|s|)
    ensures 1 <= IntValue(s[i..]) <= 31 && s[i..] in DayTexts(IntValue(s[i..]))
  {
    DayMatchCases(s, i);
    var t := s[i..];
    if |s| == i + 2 {
      assert t == [s[i], s[i + 1]];
      if s[i] == ' ' {
        IntValueOneDigit(s[i + 1]);
      } else {
        TwoDigitNumeral(s[i], s[i + 1]);
      }
    } else {
      assert t == [s[i]];
      IntValueOneDigit(s[i]);
    }
  }

  // ---------------------------------------------------------------------
  // The parser against the spellings

  /** Whatever Parse accepts names a date Python can hold, and is one of
      that date's spellings: nothing is read as some other date. */
  lemma ParseSound(s: string)
    requires Parse(s).Some?
    ensures Parse(s).value.InRange() && s in Spellings(Parse(s).value)
  {
    var d := Parse(s).value;
    var monthEnd := FirstMatch(s, 5, MonthAlternatives, Some('-')).value;
    assert forall k :: 0 <= k < 4 ==> s[..4][k] == s[k] && YearPattern[k].Has(s[k]);
    FourDigitNumeral(s[..4]);
    MonthFieldSound(s, 5, monthEnd);
    DayFieldSound(s, monthEnd + 1);
    var ms, ds := s[5..monthEnd], s[monthEnd + 1..];
    assert d == Date(IntValue(s[..4]), IntValue(ms), IntValue(ds));
    assert s == s[..4] + [s[4]] + ms + [s[monthEnd]] + ds;
    assert s == Pad4(d.year) + "-" + ms + "-" + ds;
  }

  /** Every spelling of a year, month and day is read as that date when it
      is a date Python can hold, and rejected otherwise: an impossible date
      such as month 13, April 31 or February 29 of a common year gives None
      and is never moved to a neighbouring day. */
  lemma ParseComplete(d: Date, s: string)
    requires Writable(d) && s in Spellings(d)
    ensures Parse(s) == if d.InRange() then Some(d) else None
  {
    var ms, ds :| ms in MonthTexts(d.month) && ds in DayTexts(d.day)
      && s == Pad4(d.year) + "-" + ms + "-" + ds;
    var monthEnd := 5 + |ms|;
    assert s[..4] == Pad4(d.year);
    assert MatchesAt(s, 0, YearPattern);
    PadValue(d.year);
    assert s[5..monthEnd] == ms;
    MonthFieldComplete(s, 5, d.month, ms);
    if 1 <= d.month <= 12 {
      assert s[monthEnd + 1..] == ds;
      DayFieldComplete(s, monthEnd + 1, d.day, ds);
    }
  }

  /** Parse(s) is d exactly when d is a date Python can hold and s is one
      of its spellings. */
  lemma ParseExactly(s: string, d: Date)
    ensures Parse(s) == Some(d) <==> d.InRange() && s in Spellings(d)
  {
    if Parse(s) == Some(d) {
      ParseSound(s);
    }
    if d.InRange() && s in Spellings(d) {
      ParseComplete(d, s);
    }
  }

  /** A string is rejected exactly when it spells no date Python can hold. */
  lemma ParseNoneExactly(s: string)
    ensures Parse(s).None? <==> forall d: Date :: d.InRange() ==> s !in Spellings(d)
  {
    if Parse(s).Some? {
      ParseSound(s);
    } else {
      forall d: Date | d.InRange() ensures s !in Spellings(d) {
        ParseExactly(s, d);
      }
    }
  }

  /** The zero-padded spelling reads back as the date it was written from. */
  lemma FormatRoundTrip(d: Date)
    requires d.InRange()
    ensures Parse(Format(d)) == Some(d)
  {
    ParseComplete(d, Format(d));
  }

  // Inputs named by the format's rules, read as strptime reads them.

  lemma ParseRejectsNonDate()
    ensures Parse("not-a-date") == None
  {
  }

  lemma ParseLeapDay()
    ensures Parse("2024-02-29") == Some(Date(2024, 2, 29))
    ensures Parse("2023-02-29") == None
  {
    assert "2024-02-29" == Format(Date(2024, 2, 29));
    FormatRoundTrip(Date(2024, 2, 29));
    assert "2023-02-29" == Format(Date(2023, 2, 29));
    ParseComplete(Date(2023, 2, 29), "2023-02-29");
  }

  lemma ParseRejectsImpossibleDates()
    ensures Parse("2024-04-31") == None
    ensures Parse("2024-13-01") == None
    ensures Parse("0000-01-01") == None
  {
    assert "2024-04-31" == Format(Date(2024, 4, 31));
    ParseComplete(Date(2024, 4, 31), "2024-04-31");
    assert "2024-13-01" == Format(Date(2024, 13, 1));
    ParseComplete(Date(2024, 13, 1), "2024-13-01");
    assert "0000-01-01" == Format(Date(0, 1, 1));
    ParseComplete(Date(0, 1, 1), "0000-01-01");
  }

  lemma ParseShortFields()
    ensures Parse("2024-1-5") == Some(Date(2024, 1, 5))
    ensures Parse("2024-01- 5") == Some(Date(2024, 1, 5))
  {
    var jan5 := Date(2024, 1, 5);
    assert [Digit(1)] in MonthTexts(1) && [Digit(5)] in DayTexts(5) && [' ', Digit(5)] in DayTexts(5);
    assert "2024-1-5" == Pad4(2024) + "-" + [Digit(1)] + "-" + [Digit(5)];
    ParseComplete(jan5, "2024-1-5");
    assert "2024-01- 5" == Pad4(2024) + "-" + Pad2(1) + "-" + [' ', Digit(5)];
    ParseComplete(jan5, "2024-01- 5");
  }

  lemma ParseRejectsTrailingText()
    ensures Parse("2024-01-05 ") == None
    ensures Parse("2024-01-123") == None
  {
    MonthMatchCases("2024-01-05 ", 5);
    DayMatchCases("2024-01-05 ", 8);
    MonthMatchCases("2024-01-123", 5);
    DayMatchCases("2024-01-123", 8);
  }
}
