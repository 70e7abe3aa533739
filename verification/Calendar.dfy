/**
  The proleptic Gregorian calendar as `Date.UTC` and the `getUTC...` methods compute it (ECMA-262, section 21.4.1),
  with day numbers counted from 1 January 1970. Months are numbered from 1.
 */
module Calendar {
  import opened Arithmetic

  datatype Civil = Civil(year: int, month: int, day: int)

  predicate Leap(y: int) {
    y % 4 == 0 && (y % 100 != 0 || y % 400 == 0)
  }

  function DaysInYear(y: int): int {
    if Leap(y) then 366 else 365
  }

  /** Day number of 1 January. */
  function DayFromYear(y: int): int {
    365 * (y - 1970) + (y - 1969) / 4 - (y - 1901) / 100 + (y - 1601) / 400
  }

  function DaysInMonth(y: int, m: int): int {
    if m == 2 then (if Leap(y) then 29 else 28)
    else if m == 4 || m == 6 || m == 9 || m == 11 then 30
    else 31
  }

  lemma MonthLengths(y: int, m: int)
    requires 1 <= m <= 12
    ensures DaysInMonth(y, m) == [31, if Leap(y) then 29 else 28, 31, 30, 31, 30, 31, 31, 30, 31, 30, 31][m - 1]
  {
  }

  /** Days of the year before month `m`. */
  function DaysBefore(y: int, m: int): int
    requires 1 <= m <= 13
    decreases m
  {
    if m == 1 then 0 else DaysBefore(y, m - 1) + DaysInMonth(y, m - 1)
  }

  /** `Date.UTC(y, m - 1, d)` in days: a day outside the month simply counts on. */
  function DayNumber(y: int, m: int, d: int): int
    requires 1 <= m <= 12
  {
    DayFromYear(y) + DaysBefore(y, m) + d - 1
  }

  predicate RealDate(y: int, m: int, d: int) {
    1 <= m <= 12 && 1 <= d <= DaysInMonth(y, m)
  }

  lemma QuotientStep(x: int, u: int)
    requires u > 0
    ensures (x + 1) / u == x / u + if (x + 1) % u == 0 then 1 else 0
  {
    DivBracket(x, u);
    DivBracket(x + 1, u);
    var q := x / u;
    if x % u == u - 1 {
      assert u * (q + 1) == u * q + u;
      DivUnique(x + 1, u, q + 1);
    } else {
      DivUnique(x + 1, u, q);
    }
  }

  /** Consecutive years are exactly a year apart, leap years included. */
  lemma YearLength(y: int)
    ensures DayFromYear(y + 1) == DayFromYear(y) + DaysInYear(y)
  {
    QuotientStep(y - 1969, 4);
    QuotientStep(y - 1901, 100);
    QuotientStep(y - 1601, 400);
    DivShift(y, 4, -492);
    DivShift(y, 100, -19);
    DivShift(y, 400, -4);
  }

  lemma {:induction false} YearsGrow(a: int, b: int)
    requires a <= b
    ensures DayFromYear(b) - DayFromYear(a) >= 365 * (b - a)
    decreases b - a
  {
    if a < b {
      YearLength(a);
      YearsGrow(a + 1, b);
    }
  }

  lemma {:induction false} MonthsGrow(y: int, a: int, b: int)
    requires 1 <= a <= b <= 13
    ensures DaysBefore(y, a) <= DaysBefore(y, b)
    ensures a < b ==> DaysBefore(y, a) + DaysInMonth(y, a) <= DaysBefore(y, b)
    decreases b - a
  {
    if a < b { MonthsGrow(y, a + 1, b); }
  }

  lemma MonthsFillYear(y: int)
    ensures DaysBefore(y, 13) == DaysInYear(y)
  {
    assert DaysBefore(y, 3) == 31 + DaysInMonth(y, 2);
    assert DaysBefore(y, 6) == DaysBefore(y, 3) + 92;
    assert DaysBefore(y, 9) == DaysBefore(y, 6) + 92;
    assert DaysBefore(y, 13) == DaysBefore(y, 9) + 122;
  }

  function YearUp(n: int, y: int): (r: int)
    requires DayFromYear(y) <= n
    ensures DayFromYear(r) <= n < DayFromYear(r + 1)
    decreases n - DayFromYear(y)
  {
    YearLength(y);
    if n < DayFromYear(y + 1) then y else YearUp(n, y + 1)
  }

  function YearDown(n: int, y: int): (r: int)
    requires n < DayFromYear(y + 1)
    ensures DayFromYear(r) <= n < DayFromYear(r + 1)
    decreases DayFromYear(y + 1) - n
  {
    YearLength(y);
    if DayFromYear(y) <= n then y else YearDown(n, y - 1)
  }

  /** The year whose 1 January is the last not after day `n`. */
  function YearOf(n: int): (r: int)
    ensures DayFromYear(r) <= n < DayFromYear(r + 1)
  {
    if n >= 0 then YearUp(n, 1970) else YearDown(n, 1969)
  }

  function MonthUp(y: int, k: int, m: int): (r: int)
    requires 1 <= m <= 12 && DaysBefore(y, m) <= k < DaysBefore(y, 13)
    ensures m <= r <= 12 && DaysBefore(y, r) <= k < DaysBefore(y, r) + DaysInMonth(y, r)
    decreases 12 - m
  {
    if k < DaysBefore(y, m + 1) then m else MonthUp(y, k, m + 1)
  }

  lemma DayInItsYear(n: int)
    ensures 0 <= n - DayFromYear(YearOf(n)) < DaysBefore(YearOf(n), 13)
  {
    YearLength(YearOf(n));
    MonthsFillYear(YearOf(n));
  }

  /** The date of a day number. */
  function CivilOf(n: int): (c: Civil)
    ensures RealDate(c.year, c.month, c.day)
    ensures DayNumber(c.year, c.month, c.day) == n
  {
    var y := YearOf(n);
    DayInItsYear(n);
    var k := n - DayFromYear(y);
    var m := MonthUp(y, k, 1);
    Civil(y, m, k - DaysBefore(y, m) + 1)
  }

  predicate Earlier(a: Civil, b: Civil) {
    a.year < b.year || (a.year == b.year && (a.month < b.month || (a.month == b.month && a.day < b.day)))
  }

  /** Day numbers preserve the order of dates. */
  lemma DayNumberOrder(a: Civil, b: Civil)
    requires RealDate(a.year, a.month, a.day) && RealDate(b.year, b.month, b.day)
    ensures DayNumber(a.year, a.month, a.day) < DayNumber(b.year, b.month, b.day) <==> Earlier(a, b)
    ensures DayNumber(a.year, a.month, a.day) == DayNumber(b.year, b.month, b.day) <==> a == b
  {
    if Earlier(a, b) { EarlierIsLess(a, b); }
    if Earlier(b, a) { EarlierIsLess(b, a); }
  }

  lemma EarlierIsLess(a: Civil, b: Civil)
    requires RealDate(a.year, a.month, a.day) && RealDate(b.year, b.month, b.day) && Earlier(a, b)
    ensures DayNumber(a.year, a.month, a.day) < DayNumber(b.year, b.month, b.day)
  {
    if a.year < b.year {
      YearLength(a.year);
      YearsGrow(a.year + 1, b.year);
      MonthsFillYear(a.year);
      MonthsGrow(a.year, a.month, 13);
      MonthsGrow(b.year, 1, b.month);
    } else if a.month < b.month {
      MonthsGrow(a.year, a.month, b.month);
    }
  }

  /** Writing a real date as a day number and reading it back changes nothing. */
  lemma CivilInverse(c: Civil)
    requires RealDate(c.year, c.month, c.day)
    ensures CivilOf(DayNumber(c.year, c.month, c.day)) == c
  {
    DayNumberOrder(c, CivilOf(DayNumber(c.year, c.month, c.day)));
  }

  /** `new Date(Date.UTC(...)).getUTCDay()`, Sunday being 0: 1 January 1970 was a Thursday. */
  function Weekday(n: int): (w: int)
    ensures 0 <= w <= 6
  {
    (n + 4) % 7
  }

  // ----- validity by normalise-and-compare -----

  predicate ValidCalendarDate(y: int, m: int, d: int) {
    && 1970 <= y <= 9999 && 1 <= m <= 12 && 1 <= d <= 31
    && var probe := CivilOf(DayNumber(y, m, d)); probe.year == y && probe.month == m && probe.day == d
  }

  /** The probe accepts exactly the dates that month lengths and the leap-year rule allow. */
  lemma ValidCalendarDateExact(y: int, m: int, d: int)
    ensures ValidCalendarDate(y, m, d) <==> 1970 <= y <= 9999 && RealDate(y, m, d)
  {
    if RealDate(y, m, d) { CivilInverse(Civil(y, m, d)); }
  }
}
