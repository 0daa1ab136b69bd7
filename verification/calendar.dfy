/**
 * The proleptic Gregorian calendar as Python's `datetime` and `calendar`
 * modules see it: month lengths (`calendar.monthrange(y, m)[1]`), day
 * ordinals (`date.toordinal`), adding days (`+ timedelta(days=n)`), date
 * comparison, and the `"%Y-%m-%d"` text form read by `strptime` and written
 * by `strftime`.
 */
module Calendar {
  import opened Wrappers
  import opened Text

  datatype Date = Date(year: int, month: int, day: int)

  /** Gregorian leap years: every fourth year, except centuries not divisible by 400. */
  predicate IsLeap(y: int) {
    y % 4 == 0 && (y % 100 != 0 || y % 400 == 0)
  }

  /** `calendar.monthrange(y, m)[1]`: the number of days of month `m` of year `y`. */
  function DaysInMonth(y: int, m: int): (n: int)
    requires 1 <= m <= 12
    ensures 28 <= n <= 31
    ensures m == 2 ==> (n == 29 <==> IsLeap(y)) && (n == 28 <==> !IsLeap(y))
    ensures m != 2 ==> (n == 30 <==> m in {4, 6, 9, 11})
  {
    if m == 2 then (if IsLeap(y) then 29 else 28)
    else if m == 4 || m == 6 || m == 9 || m == 11 then 30
    else 31
  }

  function DaysInYear(y: int): int {
    if IsLeap(y) then 366 else 365
  }

  /** A date `datetime` accepts: year 1 onwards, month 1 to 12, day within the month. */
  predicate Valid(d: Date) {
    1 <= d.year && 1 <= d.month <= 12 && 1 <= d.day <= DaysInMonth(d.year, d.month)
  }

  /** Days of the years before `y`, counted from 1 January of year 1. */
  function DaysBeforeYear(y: int): nat
    requires y >= 1
  {
    if y == 1 then 0 else DaysBeforeYear(y - 1) + DaysInYear(y - 1)
  }

  /** Days of the months of year `y` before month `m`. */
  function DaysBeforeMonth(y: int, m: int): nat
    requires 1 <= m <= 12
  {
    if m == 1 then 0 else DaysBeforeMonth(y, m - 1) + DaysInMonth(y, m - 1)
  }

  /** `date.toordinal()`: 1 January of year 1 is day 1. */
  function Ordinal(d: Date): int
    requires Valid(d)
  {
    DaysBeforeYear(d.year) + DaysBeforeMonth(d.year, d.month) + d.day
  }

  /** The twelve months fill the year exactly. */
  lemma MonthsFillYear(y: int)
    ensures DaysBeforeMonth(y, 12) + DaysInMonth(y, 12) == DaysInYear(y)
  {
    var feb := DaysInMonth(y, 2);
    assert DaysBeforeMonth(y, 2) == 31;
    assert DaysBeforeMonth(y, 3) == 31 + feb;
    assert DaysBeforeMonth(y, 4) == 62 + feb;
    assert DaysBeforeMonth(y, 5) == 92 + feb;
    assert DaysBeforeMonth(y, 6) == 123 + feb;
    assert DaysBeforeMonth(y, 7) == 153 + feb;
    assert DaysBeforeMonth(y, 8) == 184 + feb;
    assert DaysBeforeMonth(y, 9) == 215 + feb;
    assert DaysBeforeMonth(y, 10) == 245 + feb;
    assert DaysBeforeMonth(y, 11) == 276 + feb;
    assert DaysBeforeMonth(y, 12) == 306 + feb;
  }

  /** Months do not overlap: a later month starts after an earlier one ends. */
  lemma {:induction false} MonthsInOrder(y: int, m: int, n: int)
    requires 1 <= m < n <= 12
    ensures DaysBeforeMonth(y, m) + DaysInMonth(y, m) <= DaysBeforeMonth(y, n)
    decreases n - m
  {
    if m + 1 < n {
      MonthsInOrder(y, m + 1, n);
    }
  }

  /** Years do not overlap either. */
  lemma {:induction false} YearsInOrder(y: int, z: int)
    requires 1 <= y < z
    ensures DaysBeforeYear(y) + DaysInYear(y) <= DaysBeforeYear(z)
    decreases z - y
  {
    if y + 1 < z {
      YearsInOrder(y + 1, z);
    }
  }

  /** Every day of year `y` lies between the year's start and the next year's start. */
  lemma DayWithinYear(d: Date)
    requires Valid(d)
    ensures DaysBeforeYear(d.year) < Ordinal(d) <= DaysBeforeYear(d.year) + DaysInYear(d.year)
  {
    MonthsFillYear(d.year);
    if d.month < 12 {
      MonthsInOrder(d.year, d.month, 12);
    }
  }

  /** Python's date comparison: by year, then month, then day. */
  predicate LessEq(a: Date, b: Date) {
    a.year < b.year || (a.year == b.year && (a.month < b.month || (a.month == b.month && a.day <= b.day)))
  }

  /** Comparing dates field by field is comparing their ordinals. */
  lemma LessEqIsOrdinalOrder(a: Date, b: Date)
    requires Valid(a) && Valid(b)
    ensures LessEq(a, b) <==> Ordinal(a) <= Ordinal(b)
  {
    DayWithinYear(a);
    DayWithinYear(b);
    if a.year < b.year {
      YearsInOrder(a.year, b.year);
    } else if b.year < a.year {
      YearsInOrder(b.year, a.year);
    } else if a.month < b.month {
      MonthsInOrder(a.year, a.month, b.month);
    } else if b.month < a.month {
      MonthsInOrder(a.year, b.month, a.month);
    }
  }

  /** The first day of the month after `d`'s. */
  function FirstOfNextMonth(d: Date): (r: Date)
    requires Valid(d)
    ensures Valid(r) && r.day == 1
    ensures Ordinal(r) == Ordinal(d) + DaysInMonth(d.year, d.month) - d.day + 1
  {
    if d.month == 12 then
      MonthsFillYear(d.year);
      Date(d.year + 1, 1, 1)
    else
      Date(d.year, d.month + 1, 1)
  }

  /** `d + timedelta(days=n)` for `n >= 0`. */
  function AddDays(d: Date, n: nat): (r: Date)
    requires Valid(d)
    ensures Valid(r)
    ensures Ordinal(r) == Ordinal(d) + n
    decreases n
  {
    var left := DaysInMonth(d.year, d.month) - d.day;
    if n <= left then Date(d.year, d.month, d.day + n)
    else AddDays(FirstOfNextMonth(d), n - left - 1)
  }

  /** Two valid dates with the same ordinal are the same date. */
  lemma OrdinalInjective(a: Date, b: Date)
    requires Valid(a) && Valid(b) && Ordinal(a) == Ordinal(b)
    ensures a == b
  {
    LessEqIsOrdinalOrder(a, b);
    LessEqIsOrdinalOrder(b, a);
  }

  /** Adding a month's length to its first day gives the first day of the next month. */
  lemma AddMonthLengthToFirst(d: Date)
    requires Valid(d) && d.day == 1
    ensures AddDays(d, DaysInMonth(d.year, d.month)) == FirstOfNextMonth(d)
  {
    OrdinalInjective(AddDays(d, DaysInMonth(d.year, d.month)), FirstOfNextMonth(d));
  }

  // ----- the "%Y-%m-%d" text form -----

  /**
   * `strftime`'s `%Y`: the year's decimal digits. The C library behind
   * Python on Linux does not pad years below 1000 to four digits.
   */
  function FormatYear(y: nat): (s: string)
    ensures 1000 <= y <= 9999 ==> |s| == 4 && AllDigits(s) && DigitsValue(s) == y
  {
    if 1000 <= y <= 9999 then YearDigits(y); NatToString(y) else NatToString(y)
  }

  lemma YearDigits(y: nat)
    requires 1000 <= y <= 9999
    ensures |NatToString(y)| == 4 && DigitsValue(NatToString(y)) == y
  {
    assert |NatToString(y / 1000)| == 1;
    assert |NatToString(y / 100)| == 2;
    assert |NatToString(y / 10)| == 3;
    NatToStringRoundTrip(y);
  }

  /** `d.strftime("%Y-%m-%d")`. */
  function FormatIso(d: Date): (s: string)
    requires Valid(d)
  {
    FormatYear(d.year) + "-" + Pad2(d.month) + "-" + Pad2(d.day)
  }

  predicate IsNonZeroDigit(c: char) {
    '1' <= c <= '9'
  }

  /**
   * `strptime`'s `%m` at position `i`: the first of `1[0-2]`, `0[1-9]`,
   * `[1-9]` that matches there. The month and the position after it.
   */
  function MonthAt(s: string, i: nat): (r: Option<(int, nat)>)
    ensures r.Some? ==> 1 <= r.value.0 <= 12 && i < r.value.1 <= |s|
  {
    if i + 1 < |s| && s[i] == '1' && '0' <= s[i + 1] <= '2' then Some((10 + DigitAt(s, i + 1), i + 2))
    else if i + 1 < |s| && s[i] == '0' && IsNonZeroDigit(s[i + 1]) then Some((DigitAt(s, i + 1), i + 2))
    else if i < |s| && IsNonZeroDigit(s[i]) then Some((DigitAt(s, i), i + 1))
    else None
  }

  /**
   * `strptime`'s `%d` at position `i`: the first of `3[01]`, `[12][0-9]`,
   * `0[1-9]`, `[1-9]`, ` [1-9]` that matches there.
   */
  function DayAt(s: string, i: nat): (r: Option<(int, nat)>)
    ensures r.Some? ==> 1 <= r.value.0 <= 31 && i < r.value.1 <= |s|
  {
    if i + 1 < |s| && s[i] == '3' && '0' <= s[i + 1] <= '1' then Some((30 + DigitAt(s, i + 1), i + 2))
    else if i + 1 < |s| && '1' <= s[i] <= '2' && IsAsciiDigit(s[i + 1]) then Some((10 * DigitAt(s, i) + DigitAt(s, i + 1), i + 2))
    else if i + 1 < |s| && s[i] == '0' && IsNonZeroDigit(s[i + 1]) then Some((DigitAt(s, i + 1), i + 2))
    else if i < |s| && IsNonZeroDigit(s[i]) then Some((DigitAt(s, i), i + 1))
    else if i + 1 < |s| && s[i] == ' ' && IsNonZeroDigit(s[i + 1]) then Some((DigitAt(s, i + 1), i + 2))
    else None
  }

  /**
   * `datetime.strptime(s, "%Y-%m-%d")`: four digits of year, a dash, the
   * month, a dash, the day, and nothing after it ("unconverted data
   * remains" otherwise); then the date must exist. None is the ValueError.
   */
  function ParseIso(s: string): (r: Option<Date>)
    ensures r.Some? ==> Valid(r.value) && r.value.year <= 9999
  {
    if |s| < 5 || !AllDigits(s[..4]) || s[4] != '-' then None
    else
      var year := DigitsValue(s[..4]);
      match MonthAt(s, 5)
      case None => None
      case Some((month, i)) =>
        if i >= |s| || s[i] != '-' then None
        else
          match DayAt(s, i + 1)
          case None => None
          case Some((day, j)) =>
            if j != |s| || year < 1 || day > DaysInMonth(year, month) then None
            else Some(Date(year, month, day))
  }

  /** A zero-padded month is read back by `%m`. */
  lemma MonthAtPad2(s: string, i: nat, m: int)
    requires 1 <= m <= 12 && i + 1 < |s|
    requires s[i] == Pad2(m)[0] && s[i + 1] == Pad2(m)[1]
    ensures MonthAt(s, i) == Some((m, i + 2))
  {
  }

  /** A zero-padded day is read back by `%d`. */
  lemma DayAtPad2(s: string, i: nat, d: int)
    requires 1 <= d <= 31 && i + 1 < |s|
    requires s[i] == Pad2(d)[0] && s[i + 1] == Pad2(d)[1]
    ensures DayAt(s, i) == Some((d, i + 2))
  {
  }

  /** The pieces of an ISO date text, position by position. */
  lemma IsoPieces(d: Date)
    requires Valid(d) && 1000 <= d.year <= 9999
    ensures var s := FormatIso(d);
      && |s| == 10 && s[..4] == FormatYear(d.year) && s[4] == '-' && s[7] == '-'
      && s[5] == Pad2(d.month)[0] && s[6] == Pad2(d.month)[1]
      && s[8] == Pad2(d.day)[0] && s[9] == Pad2(d.day)[1]
  {
  }

  /** Round trip: reading back a written date gives the date (four-digit years). */
  lemma ParseFormatIso(d: Date)
    requires Valid(d) && 1000 <= d.year <= 9999
    ensures ParseIso(FormatIso(d)) == Some(d)
  {
    var s := FormatIso(d);
    IsoPieces(d);
    MonthAtPad2(s, 5, d.month);
    DayAtPad2(s, 8, d.day);
  }

  /** Two characters read by `%m` are the month zero-padded. */
  lemma MonthAtTwoChars(s: string, i: nat)
    requires MonthAt(s, i).Some? && MonthAt(s, i).value.1 == i + 2
    ensures s[i] == Pad2(MonthAt(s, i).value.0)[0] && s[i + 1] == Pad2(MonthAt(s, i).value.0)[1]
  {
  }

  /** Two characters read by `%d`, the first not a blank, are the day zero-padded. */
  lemma DayAtTwoChars(s: string, i: nat)
    requires DayAt(s, i).Some? && DayAt(s, i).value.1 == i + 2 && s[i] != ' '
    ensures s[i] == Pad2(DayAt(s, i).value.0)[0] && s[i + 1] == Pad2(DayAt(s, i).value.0)[1]
  {
  }

  /**
   * The other direction: ten characters without a blank and without a
   * leading zero that `strptime` accepts are exactly the text `strftime`
   * writes for the date read.
   */
  lemma FormatParseIso(s: string)
    requires |s| == 10 && s[0] != '0' && s[8] != ' '
    requires ParseIso(s).Some?
    ensures 1000 <= ParseIso(s).value.year
    ensures FormatIso(ParseIso(s).value) == s
  {
    var d := ParseIso(s).value;
    var i := MonthAt(s, 5).value.1;
    assert i == 7 by {
      assert DayAt(s, i + 1).value.1 == 10;
    }
    MonthAtTwoChars(s, 5);
    DayAtTwoChars(s, 8);
    LeadingDigitPositive(s[..4]);
    DigitsToStringRoundTrip(s[..4]);
    FourDigitYear(s[..4]);
    assert s == s[..4] + "-" + [s[5], s[6]] + "-" + [s[8], s[9]];
  }

  /** Four digits with a non-zero lead stand for a year from 1000 to 9999. */
  lemma FourDigitYear(t: string)
    requires |t| == 4 && AllDigits(t) && t[0] != '0'
    ensures 1000 <= DigitsValue(t) <= 9999
  {
    assert t[..3][..2] == t[..2] && t[..2][..1] == t[..1];
    assert DigitsValue(t[..1]) >= 1;
    assert DigitsValue(t[..2]) >= 10;
    assert DigitsValue(t[..3]) >= 100;
    assert Pow10(4) == 10000;
  }

  /** `strptime` also takes unpadded months and days, and a blank before a one-digit day. */
  lemma ParseIsoLenient()
    ensures ParseIso("2017-6-5") == Some(Date(2017, 6, 5))
    ensures ParseIso("2017-06- 5") == Some(Date(2017, 6, 5))
  {
    assert "2017-6-5"[..4] == "2017";
    assert "2017-06- 5"[..4] == "2017";
    assert DigitsValue("2017") == 2017 by {
      assert "2017"[..3] == "201" && "201"[..2] == "20" && "20"[..1] == "2";
    }
  }

  /** A day the month does not have, and text after the day, are both rejected. */
  lemma ParseIsoRejects()
    ensures ParseIso("2017-02-29") == None
    ensures ParseIso("2017-06-15T00") == None
  {
    assert "2017-02-29"[..4] == "2017";
    assert DigitsValue("2017") == 2017 by {
      assert "2017"[..3] == "201" && "201"[..2] == "20" && "20"[..1] == "2";
    }
    assert MonthAt("2017-02-29", 5) == Some((2, 7));
    assert DayAt("2017-02-29", 8) == Some((29, 10));
    assert MonthAt("2017-06-15T00", 5) == Some((6, 7));
    assert DayAt("2017-06-15T00", 8) == Some((15, 10));
  }
}
