/** Days since 1970-01-01 for a proleptic Gregorian date, by the era arithmetic the
    timestamp parser uses. */
module CivilDate {

  datatype Date = Date(year: int, month: int, day: int)

  predicate Leap(y: int) {
    y % 4 == 0 && (y % 100 != 0 || y % 400 == 0)
  }

  function DaysInMonth(y: int, m: int): (n: int)
    requires 1 <= m <= 12
  {
    if m == 2 then (if Leap(y) then 29 else 28)
    else if m == 4 || m == 6 || m == 9 || m == 11 then 30 else 31
  }

  predicate Valid(d: Date) {
    1 <= d.month <= 12 && 1 <= d.day <= DaysInMonth(d.year, d.month)
  }

  function Next(d: Date): (n: Date)
    requires Valid(d)
    ensures Valid(n)
  {
    if d.day < DaysInMonth(d.year, d.month) then Date(d.year, d.month, d.day + 1)
    else if d.month < 12 then Date(d.year, d.month + 1, 1)
    else Date(d.year + 1, 1, 1)
  }

  /** The Gregorian calendar: February has 29 days in years divisible by 4, but of the full
      centuries only in those divisible by 400. */
  lemma CalendarMeaning(y: int, m: int, d: int)
    requires 1 <= m <= 12
    ensures Valid(Date(y, m, d)) <==>
      1 <= d <= (if m == 4 || m == 6 || m == 9 || m == 11 then 30
                 else if m != 2 then 31
                 else if y % 400 == 0 then 29 else if y % 100 == 0 then 28 else if y % 4 == 0 then 29 else 28)
    ensures Valid(Date(y, m, d)) ==>
      Next(Date(y, m, d)) == if Valid(Date(y, m, d + 1)) then Date(y, m, d + 1)
                             else if m < 12 then Date(y, m + 1, 1) else Date(y + 1, 1, 1)
  {
    if y % 400 == 0 {
      assert y == 100 * (4 * (y / 400)) && y == 4 * (100 * (y / 400));
    }
  }

  const EPOCH := Date(1970, 1, 1)

  /** Integer division as the source language does it: toward zero. */
  function TruncDiv(a: int, b: int): int
    requires 0 < b
  {
    if 0 <= a then a / b else -((-a) / b)
  }

  /** The parser's formula, for any year and for day numbers beyond the month as well. */
  function DaysFromCivil(d: Date): int
    requires 1 <= d.month <= 12
  {
    var y := d.year - (if d.month <= 2 then 1 else 0);
    var era := TruncDiv(if 0 <= y then y else y - 399, 400);
    var yoe := y - era * 400;
    var doy := TruncDiv(153 * (d.month + (if 2 < d.month then -3 else 9)) + 2, 5) + d.day - 1;
    var doe := yoe * 365 + TruncDiv(yoe, 4) - TruncDiv(yoe, 100) + doy;
    era * 146097 + doe - 719468
  }

  /** The days of all years before the year that starts on 1 March of `y`. */
  function DaysBefore(y: int): int {
    365 * y + y / 4 - y / 100 + y / 400
  }

  function DayOfYear(m: int, d: int): int {
    (153 * (if 2 < m then m - 3 else m + 9) + 2) / 5 + d - 1
  }

  /** The era arithmetic is the plain leap-year count, also in negative eras. */
  lemma EraArithmetic(d: Date)
    requires 1 <= d.month <= 12
    ensures DaysFromCivil(d) ==
            DaysBefore(d.year - (if d.month <= 2 then 1 else 0)) + DayOfYear(d.month, d.day) - 719468
  {
    var y := d.year - (if d.month <= 2 then 1 else 0);
    var era, yoe := y / 400, y % 400;
    assert TruncDiv(if 0 <= y then y else y - 399, 400) == era;
    assert y == 400 * era + yoe;
    assert y / 4 == 100 * era + yoe / 4;
    assert y / 100 == 4 * era + yoe / 100;
  }

  lemma YearLength(y: int)
    ensures DaysBefore(y) - DaysBefore(y - 1) == if Leap(y) then 366 else 365
  {
    Step4(y);
    Step100(y);
    Step400(y);
  }

  lemma Step4(y: int)
    ensures y / 4 - (y - 1) / 4 == if y % 4 == 0 then 1 else 0
  {
  }

  lemma Step100(y: int)
    ensures y / 100 - (y - 1) / 100 == if y % 100 == 0 then 1 else 0
  {
  }

  lemma Step400(y: int)
    ensures y / 400 - (y - 1) / 400 == if y % 400 == 0 then 1 else 0
    ensures y % 400 == 0 ==> y % 100 == 0
    ensures y % 100 == 0 ==> y % 4 == 0
  {
  }

  lemma EpochIsDayZero()
    ensures DaysFromCivil(EPOCH) == 0
  {
    EraArithmetic(EPOCH);
    assert DaysBefore(1969) == 719162;
  }

  /** Months have the lengths the calendar says, February being the last month of its
      March-based year. */
  lemma MonthStep(y: int, m: int)
    requires 1 <= m <= 12
    ensures DayOfYear(m, DaysInMonth(y, m)) + 1 ==
            if m == 2 then (if Leap(y) then 366 else 365) else if m == 12 then DayOfYear(1, 1) else DayOfYear(m + 1, 1)
  {
  }

  /** Each next valid date is the next integer, for all years. */
  lemma NextDay(d: Date)
    requires Valid(d)
    ensures DaysFromCivil(Next(d)) == DaysFromCivil(d) + 1
  {
    if d.day < DaysInMonth(d.year, d.month) {
      DaysRollOver(d.year, d.month, d.day, 1);
    } else {
      NextMonth(d.year, d.month);
    }
  }

  lemma NextMonth(y: int, m: int)
    requires 1 <= m <= 12
    ensures var next := if m < 12 then Date(y, m + 1, 1) else Date(y + 1, 1, 1);
      DaysFromCivil(next) == DaysFromCivil(Date(y, m, DaysInMonth(y, m))) + 1
  {
    EraArithmetic(Date(y, m, DaysInMonth(y, m)));
    EraArithmetic(if m < 12 then Date(y, m + 1, 1) else Date(y + 1, 1, 1));
    MonthStep(y, m);
    YearLength(y);
  }

  /** A day number beyond the month counts on into the following month. */
  lemma DaysRollOver(y: int, m: int, day: int, extra: int)
    requires 1 <= m <= 12
    ensures DaysFromCivil(Date(y, m, day + extra)) == DaysFromCivil(Date(y, m, day)) + extra
  {
  }

  predicate Before(a: Date, b: Date) {
    a.year < b.year || (a.year == b.year && (a.month < b.month || (a.month == b.month && a.day < b.day)))
  }

  lemma {:induction false} MonthsAreMonotone(y: int, m: int, n: int)
    requires 1 <= m < n <= 12
    ensures DaysFromCivil(Date(y, m, DaysInMonth(y, m))) < DaysFromCivil(Date(y, n, 1))
    decreases n - m
  {
    NextMonth(y, m);
    if n == m + 1 {
    } else {
      DaysRollOver(y, m + 1, 1, DaysInMonth(y, m + 1) - 1);
      MonthsAreMonotone(y, m + 1, n);
    }
  }

  lemma {:induction false} YearsAreMonotone(a: int, b: int)
    requires a < b
    ensures DaysFromCivil(Date(a, 12, 31)) < DaysFromCivil(Date(b, 1, 1))
    decreases b - a
  {
    NextMonth(a, 12);
    if b == a + 1 {
    } else {
      MonthsAreMonotone(a + 1, 1, 12);
      DaysRollOver(a + 1, 1, 1, 30);
      DaysRollOver(a + 1, 12, 1, 30);
      YearsAreMonotone(a + 1, b);
    }
  }

  /** Day numbers order valid dates as the calendar does, so no two dates share one. */
  lemma DaysAreMonotone(a: Date, b: Date)
    requires Valid(a) && Valid(b) && Before(a, b)
    ensures DaysFromCivil(a) < DaysFromCivil(b)
  {
    DaysRollOver(a.year, a.month, a.day, DaysInMonth(a.year, a.month) - a.day);
    DaysRollOver(b.year, b.month, 1, b.day - 1);
    if a.year < b.year {
      ToYearEnd(a);
      FromYearStart(b);
      YearsAreMonotone(a.year, b.year);
    } else if a.month < b.month {
      MonthsAreMonotone(a.year, a.month, b.month);
    } else {
      DaysRollOver(a.year, a.month, a.day, b.day - a.day);
    }
  }

  lemma ToYearEnd(d: Date)
    requires Valid(d)
    ensures DaysFromCivil(d) <= DaysFromCivil(Date(d.year, 12, 31))
  {
    DaysRollOver(d.year, d.month, d.day, DaysInMonth(d.year, d.month) - d.day);
    if d.month < 12 {
      MonthsAreMonotone(d.year, d.month, 12);
      DaysRollOver(d.year, 12, 1, 30);
    }
  }

  lemma FromYearStart(d: Date)
    requires Valid(d)
    ensures DaysFromCivil(Date(d.year, 1, 1)) <= DaysFromCivil(d)
  {
    DaysRollOver(d.year, d.month, 1, d.day - 1);
    if 1 < d.month {
      MonthsAreMonotone(d.year, 1, d.month);
      DaysRollOver(d.year, 1, 1, 30);
    }
  }

  /** The date `n` days after `d`. */
  function After(d: Date, n: nat): (r: Date)
    requires Valid(d)
    ensures Valid(r)
  {
    if n == 0 then d else Next(After(d, n - 1))
  }

  lemma {:induction false} AfterCounts(d: Date, n: nat)
    requires Valid(d)
    ensures DaysFromCivil(After(d, n)) == DaysFromCivil(d) + n
    decreases n
  {
    if n == 0 {
    } else {
      AfterCounts(d, n - 1);
      NextDay(After(d, n - 1));
    }
  }
}
