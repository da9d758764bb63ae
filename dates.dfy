/** Calendar dates as Go's `time.Parse("2006-01-02", s)` reads them and
    `t.Format("2006-01-02")` writes them, and day numbers for comparing a
    date against "today" at day granularity. */
module Dates {
  import opened Wrappers
  import opened GoStrconv

  datatype Date = Date(year: int, month: int, day: int)

  /** Proleptic Gregorian leap years, as Go's calendar computes them. */
  predicate IsLeapYear(y: int) {
    y % 4 == 0 && (y % 100 != 0 || y % 400 == 0)
  }

  function DaysInMonth(month: int, year: int): (n: int)
    requires 1 <= month <= 12
    ensures 28 <= n <= 31
  {
    if month == 2 then (if IsLeapYear(year) then 29 else 28)
    else if month == 4 || month == 6 || month == 9 || month == 11 then 30
    else 31
  }

  /** A date the four-digit layout can spell: year 0000-9999, an existing month
      and a day that exists in that month of that year. */
  predicate ValidDate(d: Date) {
    0 <= d.year <= 9999 && 1 <= d.month <= 12 && 1 <= d.day <= DaysInMonth(d.month, d.year)
  }

  /** The dates a `date` column holds and the layout can spell. */
  type CalendarDate = d: Date | ValidDate(d) witness Date(1970, 1, 1)

  /** `YYYY-MM-DD`: exactly ten characters, digits with dashes at 4 and 7. */
  predicate HasDateShape(s: string) {
    |s| == 10 && AllDigits(s[0..4]) && s[4] == '-' && AllDigits(s[5..7]) &&
    s[7] == '-' && AllDigits(s[8..10])
  }

  /** `time.Parse("2006-01-02", s)`: the year takes exactly four digits, month
      and day exactly two, nothing may follow, the month must lie in 1..12 and
      the day must exist in that month (February 29 only in leap years). */
  function ParseDate(s: string): (r: Option<Date>)
    ensures r.Some? ==> ValidDate(r.value) && HasDateShape(s)
  {
    if HasDateShape(s) then
      var d := Date(DigitsValue(s[0..4]), DigitsValue(s[5..7]), DigitsValue(s[8..10]));
      if ValidDate(d) then Some(d) else None
    else None
  }

  /** `t.Format("2006-01-02")`: zero-padded four-digit year, two-digit month and day. */
  function FormatDate(d: Date): (s: string)
    requires ValidDate(d)
    ensures HasDateShape(s)
  {
    FixedDigits(d.year, 4) + "-" + FixedDigits(d.month, 2) + "-" + FixedDigits(d.day, 2)
  }

  /** Formatting a date and parsing the text back yields the same date. */
  lemma ParseFormatDate(d: Date)
    requires ValidDate(d)
    ensures ParseDate(FormatDate(d)) == Some(d)
  {
    var s := FormatDate(d);
    assert s[0..4] == FixedDigits(d.year, 4);
    assert s[5..7] == FixedDigits(d.month, 2);
    assert s[8..10] == FixedDigits(d.day, 2);
    assert Pow10(4) == 10000 && Pow10(2) == 100;
    FixedDigitsValue(d.year, 4);
    FixedDigitsValue(d.month, 2);
    FixedDigitsValue(d.day, 2);
  }

  /** Every text `ParseDate` accepts is already in canonical form: formatting the
      parsed date gives the text back. */
  lemma FormatParseDate(s: string)
    requires ParseDate(s).Some?
    ensures FormatDate(ParseDate(s).value) == s
  {
    DigitsValueFixed(s[0..4]);
    DigitsValueFixed(s[5..7]);
    DigitsValueFixed(s[8..10]);
    assert s == s[0..4] + "-" + s[5..7] + "-" + s[8..10];
  }

  // ------------------------------------------------------------ day numbers

  function DaysInYear(y: int): int {
    if IsLeapYear(y) then 366 else 365
  }

  /** Days from 0000-01-01 to January 1 of year `y`. */
  function DaysBeforeYear(y: nat): (n: nat)
  {
    if y == 0 then 0 else DaysBeforeYear(y - 1) + DaysInYear(y - 1)
  }

  /** Days from January 1 to the first of `month` in `year`. */
  function DaysBeforeMonth(month: int, year: int): (n: nat)
    requires 1 <= month <= 12
  {
    var leap := if month > 2 && IsLeapYear(year) then 1 else 0;
    (if month == 1 then 0 else if month == 2 then 31 else if month == 3 then 59
     else if month == 4 then 90 else if month == 5 then 120 else if month == 6 then 151
     else if month == 7 then 181 else if month == 8 then 212 else if month == 9 then 243
     else if month == 10 then 273 else if month == 11 then 304 else 334) + leap
  }

  /** The number of days from 0000-01-01 to `d`; "today" is given as such a number. */
  function DayNumber(d: Date): (n: nat)
    requires ValidDate(d)
  {
    DaysBeforeYear(d.year) + DaysBeforeMonth(d.month, d.year) + d.day - 1
  }

  /** `a` falls on an earlier calendar day than `b`, year first, then month, then day. */
  predicate DateBefore(a: Date, b: Date) {
    a.year < b.year ||
    (a.year == b.year && (a.month < b.month || (a.month == b.month && a.day < b.day)))
  }

  lemma DayOfYearBounds(d: Date)
    requires ValidDate(d)
    ensures 0 <= DaysBeforeMonth(d.month, d.year) + d.day - 1 < DaysInYear(d.year)
  {
  }

  lemma MonthsOrdered(d: Date, e: Date)
    requires ValidDate(d) && ValidDate(e) && d.year == e.year && d.month < e.month
    ensures DaysBeforeMonth(d.month, d.year) + d.day <= DaysBeforeMonth(e.month, e.year)
  {
  }

  lemma {:induction false} YearsOrdered(y: nat, z: nat)
    requires y < z
    ensures DaysBeforeYear(y) + DaysInYear(y) <= DaysBeforeYear(z)
  {
    if y + 1 < z {
      YearsOrdered(y, z - 1);
    }
  }

  /** Day numbers order valid dates exactly as the calendar does, so comparing
      day numbers is comparing dates at day granularity. */
  lemma DayNumberOrder(a: Date, b: Date)
    requires ValidDate(a) && ValidDate(b)
    ensures DayNumber(a) < DayNumber(b) <==> DateBefore(a, b)
    ensures DayNumber(a) == DayNumber(b) <==> a == b
  {
    DayOfYearBounds(a);
    DayOfYearBounds(b);
    if a.year < b.year {
      YearsOrdered(a.year, b.year);
    } else if b.year < a.year {
      YearsOrdered(b.year, a.year);
    } else if a.month < b.month {
      MonthsOrdered(a, b);
    } else if b.month < a.month {
      MonthsOrdered(b, a);
    }
  }
}
