/** Proleptic Gregorian calendar on integer day numbers. A date's day number is
    its ordinal as in Python's date.toordinal() (0001-01-01 is day 1), so the
    difference of two day numbers is the day gap that `diff().dt.days` reports,
    and the weekday is `(ordinal + 6) % 7` counted from Monday. */
module Calendar {

  datatype Date = Date(year: int, month: int, day: int)

  predicate IsLeapYear(y: int) {
    y % 4 == 0 && (y % 100 != 0 || y % 400 == 0)
  }

  function DaysInYear(y: int): int {
    if IsLeapYear(y) then 366 else 365
  }

  function DaysInMonth(y: int, m: int): (n: int)
    requires 1 <= m <= 12
    ensures 28 <= n <= 31
  {
    if m == 2 then (if IsLeapYear(y) then 29 else 28)
    else if m == 4 || m == 6 || m == 9 || m == 11 then 30
    else 31
  }

  predicate ValidDate(d: Date) {
    1 <= d.month <= 12 && 1 <= d.day <= DaysInMonth(d.year, d.month)
  }

  /** Days in the months of year y before month m (Python's _days_before_month). */
  function DaysBeforeMonth(y: int, m: int): int
    requires 1 <= m <= 12
  {
    [0, 31, 59, 90, 120, 151, 181, 212, 243, 273, 304, 334][m - 1]
      + (if m > 2 && IsLeapYear(y) then 1 else 0)
  }

  /** Days in the years before year y (Python's _days_before_year). */
  function DaysBeforeYear(y: int): int {
    var p := y - 1;
    p * 365 + p / 4 - p / 100 + p / 400
  }

  /** The ordinal of a valid date. */
  function DayNumber(d: Date): int
    requires ValidDate(d)
  {
    DaysBeforeYear(d.year) + DaysBeforeMonth(d.year, d.month) + d.day
  }

  /** The calendar day after d. */
  function NextDate(d: Date): (n: Date)
    requires ValidDate(d)
    ensures ValidDate(n)
  {
    if d.day < DaysInMonth(d.year, d.month) then Date(d.year, d.month, d.day + 1)
    else if d.month < 12 then Date(d.year, d.month + 1, 1)
    else Date(d.year + 1, 1, 1)
  }

  /** Chronological order of calendar dates: by year, then month, then day. */
  predicate Before(a: Date, b: Date) {
    a.year < b.year
    || (a.year == b.year && a.month < b.month)
    || (a.year == b.year && a.month == b.month && a.day < b.day)
  }

  lemma MonthStep(y: int, m: int)
    requires 1 <= m < 12
    ensures DaysBeforeMonth(y, m + 1) == DaysBeforeMonth(y, m) + DaysInMonth(y, m)
  {
  }

  lemma DivStep4(p: int)
    ensures (p + 1) / 4 == p / 4 + (if (p + 1) % 4 == 0 then 1 else 0)
  {
  }

  lemma DivStep100(p: int)
    ensures (p + 1) / 100 == p / 100 + (if (p + 1) % 100 == 0 then 1 else 0)
  {
  }

  lemma DivStep400(p: int)
    ensures (p + 1) / 400 == p / 400 + (if (p + 1) % 400 == 0 then 1 else 0)
  {
  }

  lemma YearStep(y: int)
    ensures DaysBeforeYear(y + 1) == DaysBeforeYear(y) + DaysInYear(y)
  {
    DivStep4(y - 1);
    DivStep100(y - 1);
    DivStep400(y - 1);
  }

  lemma DecemberEnd(y: int)
    ensures DaysBeforeMonth(y, 12) + DaysInMonth(y, 12) == DaysInYear(y)
  {
  }

  /** Consecutive calendar days have consecutive day numbers. */
  lemma NextDateNumber(d: Date)
    requires ValidDate(d)
    ensures DayNumber(NextDate(d)) == DayNumber(d) + 1
  {
    if d.day == DaysInMonth(d.year, d.month) {
      if d.month < 12 {
        MonthStep(d.year, d.month);
      } else {
        YearStep(d.year);
        DecemberEnd(d.year);
      }
    }
  }

  /** A valid date's number lies inside its year's span. */
  lemma DayNumberInYear(d: Date)
    requires ValidDate(d)
    ensures DaysBeforeYear(d.year) < DayNumber(d) <= DaysBeforeYear(d.year) + DaysInYear(d.year)
  {
    DayNumberInMonth(d);
    DecemberEnd(d.year);
    MonthsBelow(d.year, d.month, 12);
  }

  lemma DayNumberInMonth(d: Date)
    requires ValidDate(d)
    ensures DayNumber(d) <= DaysBeforeYear(d.year) + DaysBeforeMonth(d.year, d.month) + DaysInMonth(d.year, d.month)
  {
  }

  /** Month starts grow through the year: month m ends no later than month k starts. */
  lemma {:induction false} MonthsBelow(y: int, m: int, k: int)
    requires 1 <= m <= k <= 12
    ensures DaysBeforeMonth(y, m) + (if m < k then DaysInMonth(y, m) else 0) <= DaysBeforeMonth(y, k)
    decreases k - m
  {
    if m < k {
      MonthStep(y, m);
      if m + 1 < k {
        MonthsBelow(y, m + 1, k);
      }
    }
  }

  lemma {:induction false} YearsBelow(y: int, z: int)
    requires y < z
    ensures DaysBeforeYear(y) + DaysInYear(y) <= DaysBeforeYear(z)
    decreases z - y
  {
    YearStep(y);
    if y + 1 < z {
      YearsBelow(y + 1, z);
      assert DaysInYear(y + 1) > 0;
    }
  }

  /** Day numbers follow chronological order. */
  lemma DayNumberMonotone(a: Date, b: Date)
    requires ValidDate(a) && ValidDate(b) && Before(a, b)
    ensures DayNumber(a) < DayNumber(b)
  {
    if a.year < b.year {
      DayNumberInYear(a);
      DayNumberInYear(b);
      YearsBelow(a.year, b.year);
    } else if a.month < b.month {
      DayNumberInMonth(a);
      MonthsBelow(a.year, a.month, b.month);
    }
  }

  /** Different valid dates have different day numbers. */
  lemma DayNumberInjective(a: Date, b: Date)
    requires ValidDate(a) && ValidDate(b) && DayNumber(a) == DayNumber(b)
    ensures a == b
  {
    if Before(a, b) {
      DayNumberMonotone(a, b);
    } else if Before(b, a) {
      DayNumberMonotone(b, a);
    }
  }

  /** A day gap of exactly one is exactly "b is the calendar day after a". */
  lemma ConsecutiveDays(a: Date, b: Date)
    requires ValidDate(a) && ValidDate(b)
    ensures DayNumber(b) - DayNumber(a) == 1 <==> b == NextDate(a)
  {
    NextDateNumber(a);
    if DayNumber(b) - DayNumber(a) == 1 {
      DayNumberInjective(b, NextDate(a));
    }
  }

  /** Weekday 1 (Monday) .. 7 (Sunday) of a day number: `weekday() + 1`. */
  function Weekday(n: int): (w: int)
    ensures 1 <= w <= 7
  {
    (n + 6) % 7 + 1
  }

  /** Weekdays advance by one, Sunday wrapping to Monday. */
  lemma WeekdayNext(n: int)
    ensures Weekday(n + 1) == Weekday(n) % 7 + 1
  {
  }

  /** The ordinal count starts on a Monday (0001-01-01, day 1), so weekday 1
      falls on exactly the day numbers 1, 8, 15, ... */
  lemma WeekdayMonday(n: int)
    ensures Weekday(n) == 1 <==> n % 7 == 1
  {
  }

  /** Two fixed dates: 1 January 2024 was a Monday, 1 January 1970 a Thursday. */
  lemma WeekdayAnchors(a: Date, b: Date)
    requires a == Date(2024, 1, 1) && b == Date(1970, 1, 1)
    ensures Weekday(DayNumber(a)) == 1 && Weekday(DayNumber(b)) == 4
  {
    assert 2023 / 4 == 505 && 2023 / 100 == 20 && 2023 / 400 == 5;
    assert DayNumber(a) == 738886;
    assert 1969 / 4 == 492 && 1969 / 100 == 19 && 1969 / 400 == 4;
    assert DayNumber(b) == 719163;
    assert (738886 + 6) % 7 == 0 && (719163 + 6) % 7 == 3;
  }

  // ---------------------------------------------------------------- time of day

  datatype Timestamp = Timestamp(date: Date, hour: int, minute: int, second: int)

  predicate ValidTime(h: int, mi: int, s: int) {
    0 <= h <= 23 && 0 <= mi <= 59 && 0 <= s <= 59
  }

  /** Seconds since the start of day 0 of the ordinal count. */
  function SecondsOf(t: Timestamp): int
    requires ValidDate(t.date)
  {
    DayNumber(t.date) * 86400 + t.hour * 3600 + t.minute * 60 + t.second
  }

  /** The earliest and latest whole-second timestamps of pandas' datetime64[ns]
      range (1677-09-21 00:12:43.145224193 .. 2262-04-11 23:47:16.854775807). */
  function EarliestSeconds(): int {
    DayNumber(Date(1677, 9, 21)) * 86400 + 12 * 60 + 44
  }

  function LatestSeconds(): int {
    DayNumber(Date(2262, 4, 11)) * 86400 + 23 * 3600 + 47 * 60 + 16
  }

  /** A timestamp `pd.to_datetime` turns into a value rather than NaT. */
  predicate ValidTimestamp(t: Timestamp) {
    && ValidDate(t.date)
    && ValidTime(t.hour, t.minute, t.second)
    && EarliestSeconds() <= SecondsOf(t) <= LatestSeconds()
  }
}
