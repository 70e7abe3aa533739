/** When festival draws happen (packages/shared-types/src/festas.ts): Easter, the nearby Saturdays and the next draw. */
module Festivals {
  import opened Arithmetic
  import opened Calendar
  import opened BrazilTime
  import opened Wrappers

  // ----- Easter -----

  /** Shifts a day in March on into April. */
  function MarchDay(year: int, n: int): Civil
    requires 1 <= n <= 61
  {
    if n <= 31 then Civil(year, 3, n) else Civil(year, 4, n - 31)
  }

  function EasterH(year: nat): int {
    var a := year % 19;
    var b := year / 100;
    var d := b / 4;
    var f := (b + 8) / 25;
    var g := (b - f + 1) / 3;
    (19 * a + b - d - g + 15) % 30
  }

  function EasterL(year: nat): int {
    var b := year / 100;
    var c := year % 100;
    (32 + 2 * (b % 4) + 2 * (c / 4) - EasterH(year) - c % 4) % 7
  }

  /** The computus of the source, step by step. */
  function EasterSunday(year: nat): (int, int) {
    var a := year % 19;
    var h := EasterH(year);
    var l := EasterL(year);
    var m := (a + 11 * h + 22 * l) / 451;
    ((h + l - 7 * m + 114) / 31, (h + l - 7 * m + 114) % 31 + 1)
  }

  /** h lowered by one in the two cases that the Gregorian lunar calendar excepts. */
  function CorrectedH(year: nat): int {
    var h := EasterH(year);
    if h == 29 || (h == 28 && year % 19 >= 11) then h - 1 else h
  }

  /**
    The paschal full moon, as a day of March, by the epact rules of the Gregorian reform
    (Knuth, The Art of Computer Programming, section 1.3.2, exercise 14).
   */
  function Epact(year: nat): int {
    var golden := year % 19 + 1;
    var century := year / 100 + 1;
    var solar := 3 * century / 4 - 12;
    var lunar := (8 * century + 5) / 25 - 5;
    (11 * golden + 20 + lunar - solar) % 30
  }

  function PaschalMoon(year: nat): int {
    var e := Epact(year);
    var epact := if (e == 25 && year % 19 + 1 > 11) || e == 24 then e + 1 else e;
    if 44 - epact < 21 then 74 - epact else 44 - epact
  }

  lemma SolarCorrection(b: nat)
    ensures 3 * (b + 1) / 4 == b - b / 4
  {
  }

  lemma LunarCorrection(b: nat)
    ensures (8 * (b + 1) + 5) / 25 == (b - (b + 8) / 25 + 1) / 3
  {
    var k, j := b / 25, b % 25;
    DivBracket(b, 25);
    var f := if j >= 17 then k + 1 else k;
    DivUnique(b + 8, 25, f);
    DivShift(8 * j + 13, 25, 8 * k);
    DivShift(j - (f - k) + 1, 3, 8 * k);
    assert 8 * (b + 1) + 5 == 8 * j + 13 + 25 * (8 * k);
    assert b - f + 1 == j - (f - k) + 1 + 3 * (8 * k);
    SmallLunar(j);
  }

  lemma SmallLunar(j: nat)
    requires j < 25
    ensures (8 * j + 13) / 25 == (j - (if j >= 17 then 1 else 0) + 1) / 3
  {
  }

  /** h counts the days from 21 March to the full moon that the unadjusted epact gives. */
  lemma EpactGivesH(year: nat)
    ensures EasterH(year) == if Epact(year) <= 23 then 23 - Epact(year) else 53 - Epact(year)
  {
    var a, b := year % 19, year / 100;
    SolarCorrection(b);
    LunarCorrection(b);
    var g := (b - (b + 8) / 25 + 1) / 3;
    var x := 11 * (a + 1) + 20 + (g - 5) - (b - b / 4 - 12);
    var z := 19 * a + b - b / 4 - g + 15;
    assert Epact(year) == x % 30 && EasterH(year) == z % 30;
    Complement30(a, x, z);
  }

  lemma Complement30(a: int, x: int, z: int)
    requires z == 30 * a + 53 - x
    ensures z % 30 == if x % 30 <= 23 then 23 - x % 30 else 53 - x % 30
  {
    DivBracket(x, 30);
    var h := if x % 30 <= 23 then 23 - x % 30 else 53 - x % 30;
    var q := a - x / 30 + (if x % 30 <= 23 then 1 else 0);
    assert z == h + 30 * q;
    DivShift(h, 30, q);
  }

  lemma MoonIsCorrectedH(year: nat)
    ensures PaschalMoon(year) == 21 + CorrectedH(year)
    ensures 21 <= PaschalMoon(year) <= 49
  {
    EpactGivesH(year);
  }

  lemma WeekOf(a: int, h: int, l: int)
    requires 0 <= a < 19 && 0 <= h < 30 && 0 <= l < 7
    ensures (a + 11 * h + 22 * l) / 451 == if l == 6 && (h == 29 || (h == 28 && a >= 11)) then 1 else 0
  {
    DivUnique(a + 11 * h + 22 * l, 451, if l == 6 && (h == 29 || (h == 28 && a >= 11)) then 1 else 0);
  }

  lemma PartsInRange(year: nat)
    ensures 0 <= EasterH(year) < 30 && 0 <= EasterL(year) < 7
  {
  }

  /** The step that lowers by a week happens exactly when l is 6 and h needs its correction. */
  lemma WeekCorrection(year: nat)
    ensures var m := (year % 19 + 11 * EasterH(year) + 22 * EasterL(year)) / 451;
      m == if EasterL(year) == 6 && CorrectedH(year) < EasterH(year) then 1 else 0
  {
    PartsInRange(year);
    WeekOf(year % 19, EasterH(year), EasterL(year));
    hide EasterH, EasterL;
  }

  /** The day of March, counted past 31, on which the computus lands. */
  function EasterMarch(year: nat): (n: int)
    ensures 22 <= n <= 56
  {
    WeekCorrection(year);
    22 + EasterH(year) + EasterL(year) - if EasterL(year) == 6 && CorrectedH(year) < EasterH(year) then 7 else 0
  }

  lemma EasterIsMarchDay(year: nat)
    ensures MarchDay(year, EasterMarch(year)) == Civil(year, EasterSunday(year).0, EasterSunday(year).1)
  {
    WeekCorrection(year);
    var n := EasterMarch(year);
    if n <= 31 {
      DivUnique(n + 92, 31, 3);
    } else {
      DivUnique(n + 92, 31, 4);
    }
  }

  /** 1 March, as a polynomial in the parts of the year. */
  lemma MarchFirst(year: nat)
    ensures var b, c := year / 100, year % 100;
      DayNumber(year, 3, 1) == 146097 * (b / 4) + 36524 * (b % 4) + 1461 * (c / 4) + 365 * (c % 4) - 719468
  {
    YearLength(year);
    assert DaysBefore(year, 3) == 31 + DaysInMonth(year, 2);
    assert DayNumber(year, 3, 1) == DayFromYear(year + 1) - 306;
    var b, c := year / 100, year % 100;
    var d, e, i, k := b / 4, b % 4, c / 4, c % 4;
    assert year == 400 * d + 100 * e + 4 * i + k;
    DivUnique(year + 1 - 1969, 4, 100 * d + 25 * e + i - 492);
    DivUnique(year + 1 - 1901, 100, 4 * d + e - 19);
    DivUnique(year + 1 - 1601, 400, d - 4);
  }

  lemma MarchDayNumber(year: int, n: int)
    requires 1 <= n <= 61
    ensures var c := MarchDay(year, n); RealDate(c.year, c.month, c.day) && DayNumber(c.year, c.month, c.day) == DayNumber(year, 3, 1) + n - 1
  {
    assert DaysBefore(year, 4) == DaysBefore(year, 3) + 31;
  }

  lemma EasterFallsOnSunday(year: nat)
    ensures Weekday(DayNumber(year, 3, 1) + EasterMarch(year) - 1) == 0
  {
    MarchFirst(year);
    var b, c := year / 100, year % 100;
    var d, e, i, k := b / 4, b % 4, c / 4, c % 4;
    var h, l := EasterH(year), EasterL(year);
    var w := 32 + 2 * e + 2 * i - h - k;
    DivBracket(w, 7);
    var t := w / 7;
    var n := DayNumber(year, 3, 1) + 21 + h + l;
    assert n + 4 == 7 * (20871 * d + 5218 * e + 209 * i + 52 * k - t - 102773);
    DivShift(0, 7, 20871 * d + 5218 * e + 209 * i + 52 * k - t - 102773);
    DivShift(n + 4, 7, -1);
  }

  lemma EasterDayNumber(year: nat)
    ensures RealDate(year, EasterSunday(year).0, EasterSunday(year).1)
    ensures DayNumber(year, EasterSunday(year).0, EasterSunday(year).1) == DayNumber(year, 3, 1) + EasterMarch(year) - 1
  {
    EasterIsMarchDay(year);
    MarchDayNumber(year, EasterMarch(year));
  }

  lemma OneSundayAWeek(sunday: int)
    requires Weekday(sunday) == 0
    ensures forall n :: sunday - 7 < n < sunday ==> Weekday(n) != 0
    ensures Weekday(sunday - 1) == 6
  {
    DivBracket(sunday + 4, 7);
    var q := (sunday + 4) / 7;
    forall n | sunday - 7 < n < sunday ensures Weekday(n) == n + 4 - 7 * (q - 1) {
      DivUnique(n + 4, 7, q - 1);
      DivBracket(n + 4, 7);
    }
  }

  /**
    For every year the computus gives the first Sunday strictly after the paschal full moon, which is 21 March + h';
    so it always lies between 22 March and 25 April.
   */
  lemma EasterIsFirstSundayAfterMoon(year: nat)
    ensures PaschalMoon(year) == 21 + CorrectedH(year)
    ensures RealDate(year, EasterSunday(year).0, EasterSunday(year).1)
    ensures var easter := DayNumber(year, EasterSunday(year).0, EasterSunday(year).1);
            var moon := DayNumber(year, 3, 1) + PaschalMoon(year) - 1;
      && Weekday(easter) == 0
      && moon < easter <= moon + 7
      && (forall n :: moon < n < easter ==> Weekday(n) != 0)
      && DayNumber(year, 3, 22) <= easter <= DayNumber(year, 4, 25)
  {
    MoonIsCorrectedH(year);
    EasterDayNumber(year);
    EasterFallsOnSunday(year);
    OneSundayAWeek(DayNumber(year, 3, 1) + EasterMarch(year) - 1);
    AprilFollowsMarch(year);
  }

  lemma AprilFollowsMarch(year: int)
    ensures DayNumber(year, 4, 25) == DayNumber(year, 3, 1) + 55
    ensures DayNumber(year, 3, 22) == DayNumber(year, 3, 1) + 21
  {
    assert DaysBefore(year, 4) == DaysBefore(year, 3) + 31;
  }

  // ----- Saturdays -----

  /** Day number of the Saturday on or after (`after`) or on or before a date. */
  function SaturdayNear(n: int, after: bool): int {
    if after then n + (6 - Weekday(n) + 7) % 7 else n - (Weekday(n) + 1) % 7
  }

  lemma SaturdayNearIsNearest(n: int, after: bool)
    ensures Weekday(SaturdayNear(n, after)) == 6
    ensures after ==> n <= SaturdayNear(n, after) && forall k :: n <= k < SaturdayNear(n, after) ==> Weekday(k) != 6
    ensures !after ==> SaturdayNear(n, after) <= n && forall k :: SaturdayNear(n, after) < k <= n ==> Weekday(k) != 6
    ensures -6 <= SaturdayNear(n, after) - n <= 6
  {
    var w, q := Weekday(n), (n + 4) / 7;
    DivBracket(n + 4, 7);
    var delta := SaturdayNear(n, after) - n;
    assert delta == if after then 6 - w else if w == 6 then 0 else -(w + 1);
    DivUnique(n + delta + 4, 7, if delta < 0 then q - 1 else q);
    forall k | (if after then n <= k < n + delta else n + delta < k <= n) ensures Weekday(k) != 6 {
      DivUnique(k + 4, 7, q);
    }
  }

  // ----- the traditional day of each festival -----

  datatype Festival = MegaDaVirada | SaoJoao | Independencia | Pascoa | Unknown

  /** The forecast day in a year, as a day number. */
  function Forecast(f: Festival, year: nat): Option<int> {
    match f
    case MegaDaVirada => Some(DayNumber(year, 12, 31))
    case SaoJoao => Some(SaturdayNear(DayNumber(year, 6, 24), true))
    case Independencia => Some(SaturdayNear(DayNumber(year, 9, 7), false))
    case Pascoa =>
      EasterDayNumber(year);
      Some(DayNumber(year, EasterSunday(year).0, EasterSunday(year).1) - 1)
    case Unknown => None
  }

  /** Every forecast stays in its own year, and all but New Year's Eve are Saturdays. */
  lemma ForecastStaysInYear(f: Festival, year: nat)
    requires f != Unknown
    ensures Forecast(f, year).Some?
    ensures DayFromYear(year) <= Forecast(f, year).value < DayFromYear(year + 1)
    ensures f != MegaDaVirada ==> Weekday(Forecast(f, year).value) == 6
  {
    YearLength(year);
    MonthsFillYear(year);
    MonthStarts(year);
    match f
    case MegaDaVirada =>
    case SaoJoao => SaturdayNearIsNearest(DayNumber(year, 6, 24), true);
    case Independencia => SaturdayNearIsNearest(DayNumber(year, 9, 7), false);
    case Pascoa => HolySaturday(year);
  }

  lemma HolySaturday(year: nat)
    ensures Forecast(Pascoa, year).Some?
    ensures Weekday(Forecast(Pascoa, year).value) == 6
    ensures DayFromYear(year) <= Forecast(Pascoa, year).value < DayFromYear(year) + 200
  {
    EasterDayNumber(year);
    EasterFallsOnSunday(year);
    OneSundayAWeek(DayNumber(year, 3, 1) + EasterMarch(year) - 1);
    MonthStarts(year);
  }

  lemma MonthStarts(year: int)
    ensures DaysBefore(year, 3) == 31 + DaysInMonth(year, 2)
    ensures DaysBefore(year, 4) == DaysBefore(year, 3) + 31
    ensures DaysBefore(year, 6) == DaysBefore(year, 4) + 61
    ensures DaysBefore(year, 9) == DaysBefore(year, 6) + 92
    ensures DaysBefore(year, 12) == DaysBefore(year, 9) + 91
    ensures DaysBefore(year, 13) == DaysBefore(year, 12) + 31
  {
  }

  // ----- the next draw -----

  datatype Sorteio = Sorteio(day: int, hour: int, minute: int, known: bool)

  /** A draw's instant: its day at its hour in Brazil. */
  function DrawInstant(s: Sorteio): int {
    s.day * MS_PER_DAY + s.hour * 3_600_000 + s.minute * 60_000 + BRAZIL_OFFSET
  }

  /** The instant written as a local date and time. */
  lemma DrawInstantIsLocal(s: Sorteio)
    requires 1970 <= CivilOf(s.day).year <= 9999 && 0 <= s.hour <= 23 && 0 <= s.minute <= 59
    ensures FromBrazilLocal(CivilOf(s.day), Clock(s.hour, s.minute, 0, 0)) == Some(DrawInstant(s))
  {
    LocalAccepted(CivilOf(s.day), Clock(s.hour, s.minute, 0, 0));
    hide ValidCalendarDate, DayNumber;
  }

  function YearOfNow(now: int): int { BrazilDay(now).year }

  /** The first instant, in Brazil, of the year 0. */
  const YEAR_ZERO: int := -719_528 * MS_PER_DAY + BRAZIL_OFFSET

  lemma FromYearZeroOn(now: int)
    requires now >= YEAR_ZERO
    ensures YearOfNow(now) >= 0
  {
    var day, year := BrazilDayNumber(now), YearOfNow(now);
    DivUnique(YEAR_ZERO - BRAZIL_OFFSET, MS_PER_DAY, -719_528);
    DivMonotone(YEAR_ZERO - BRAZIL_OFFSET, now - BRAZIL_OFFSET, MS_PER_DAY);
    NowIsInItsYear(now);
    hide YearOfNow;
    if year < 0 { YearsGrow(year + 1, 0); }
  }

  function ForecastDraw(f: Festival, year: nat): Sorteio
    requires f != Unknown
  {
    ForecastStaysInYear(f, year);
    Sorteio(Forecast(f, year).value, 20, 0, false)
  }

  lemma DrawAgainstNow(day: int, now: int)
    ensures day < BrazilDayNumber(now) ==> DrawInstant(Sorteio(day, 20, 0, false)) < now
    ensures day > BrazilDayNumber(now) ==> DrawInstant(Sorteio(day, 20, 0, false)) > now
  {
    var today := BrazilDayNumber(now);
    DivBracket(now - BRAZIL_OFFSET, MS_PER_DAY);
    if day < today { MulMonotone(MS_PER_DAY, day + 1, today); }
    if day > today { MulMonotone(MS_PER_DAY, today + 1, day); }
  }

  lemma DaysInYearOrder(m: int, y: int, n: int, z: int)
    requires m < DayFromYear(y + 1) && DayFromYear(z) <= n && y < z
    ensures m < n
  {
    YearsGrow(y + 1, z);
  }

  ghost predicate InYear(now: int, current: int) {
    DayFromYear(current) <= BrazilDayNumber(now) < DayFromYear(current + 1)
  }

  lemma NowIsInItsYear(now: int)
    ensures InYear(now, YearOfNow(now))
  {
    var c := BrazilDay(now);
    YearLength(c.year);
    MonthsGrow(c.year, 1, c.month);
    MonthsGrow(c.year, c.month, 13);
    MonthsFillYear(c.year);
  }

  /** A forecast of a year already past is past, and one of a year to come is in the future. */
  lemma ForecastAgainstNow(f: Festival, year: nat, now: int, current: int)
    requires f != Unknown && InYear(now, current)
    ensures year < current ==> DrawInstant(ForecastDraw(f, year)) < now
    ensures year > current ==> DrawInstant(ForecastDraw(f, year)) > now
  {
    ForecastStaysInYear(f, year);
    var day, today := ForecastDraw(f, year).day, BrazilDayNumber(now);
    DrawAgainstNow(day, now);
    if year < current { DaysInYearOrder(day, year, today, current); }
    if year > current { DaysInYearOrder(today, current, day, year); }
  }

  /** Two Saturdays within a week are the same. */
  lemma OneSaturdayAWeek(a: int, b: int)
    requires Weekday(a) == 6 && Weekday(b) == 6 && -7 < a - b < 7
    ensures a == b
  {
    DivBracket(a + 4, 7);
    DivBracket(b + 4, 7);
  }

  lemma DateInMonth(year: int, month: int, first: int, n: int)
    requires 1 <= month <= 12 && 1 <= first && first + 6 <= DaysInMonth(year, month)
    requires DayNumber(year, month, first) <= n <= DayNumber(year, month, first + 6)
    ensures CivilOf(n) == Civil(year, month, first + n - DayNumber(year, month, first))
  {
    var d := first + n - DayNumber(year, month, first);
    assert DayNumber(year, month, d) == n;
    hide DayNumber, CivilOf, DaysInMonth;
    CivilInverse(Civil(year, month, d));
  }

  lemma ForecastInstant(f: Festival, year: nat)
    requires f != Unknown
    ensures var t := DrawInstant(ForecastDraw(f, year)); Forecast(f, year) == Some(BrazilDayNumber(t)) && (t - BRAZIL_OFFSET) % MS_PER_DAY == 72_000_000
  {
    var day := ForecastDraw(f, year).day;
    DivUnique(day * MS_PER_DAY + 72_000_000, MS_PER_DAY, day);
    DivBracket(day * MS_PER_DAY + 72_000_000, MS_PER_DAY);
    hide Forecast;
  }

  /** The only Saturday of a week that starts on this date. */
  ghost predicate OnlySaturday(day: int, year: int, month: int, first: int)
    requires 1 <= month <= 12
  {
    && Weekday(day) == 6
    && CivilOf(day).year == year && CivilOf(day).month == month && first <= CivilOf(day).day <= first + 6
    && forall n :: DayNumber(year, month, first) <= n <= DayNumber(year, month, first + 6) && Weekday(n) == 6 ==> n == day
  }

  lemma SaturdayIsOnly(day: int, year: int, month: int, first: int)
    requires 1 <= month <= 12 && 1 <= first && first + 6 <= DaysInMonth(year, month)
    requires Weekday(day) == 6 && DayNumber(year, month, first) <= day <= DayNumber(year, month, first + 6)
    ensures OnlySaturday(day, year, month, first)
  {
    DateInMonth(year, month, first, day);
    forall n | DayNumber(year, month, first) <= n <= DayNumber(year, month, first + 6) && Weekday(n) == 6 ensures n == day {
      OneSaturdayAWeek(n, day);
    }
  }

  lemma SaoJoaoDay(year: nat)
    ensures OnlySaturday(Forecast(SaoJoao, year).value, year, 6, 24)
  {
    SaturdayNearIsNearest(DayNumber(year, 6, 24), true);
    SaturdayIsOnly(Forecast(SaoJoao, year).value, year, 6, 24);
    hide OnlySaturday;
  }

  lemma IndependenciaDay(year: nat)
    ensures OnlySaturday(Forecast(Independencia, year).value, year, 9, 1)
  {
    SaturdayNearIsNearest(DayNumber(year, 9, 7), false);
    SaturdayIsOnly(Forecast(Independencia, year).value, year, 9, 1);
    hide OnlySaturday;
  }

  /**
    The forecast draws, at 20:00 in Brazil: New Year's Eve on 31 December, São João on the Saturday from 24 to 30 June,
    Independência on the Saturday from 1 to 7 September.
   */
  lemma ForecastDates(year: nat)
    ensures forall f :: f != Unknown ==> !ForecastDraw(f, year).known && (DrawInstant(ForecastDraw(f, year)) - BRAZIL_OFFSET) % MS_PER_DAY == 72_000_000
    ensures BrazilDay(DrawInstant(ForecastDraw(MegaDaVirada, year))) == Civil(year, 12, 31)
    ensures OnlySaturday(BrazilDayNumber(DrawInstant(ForecastDraw(SaoJoao, year))), year, 6, 24)
    ensures OnlySaturday(BrazilDayNumber(DrawInstant(ForecastDraw(Independencia, year))), year, 9, 1)
  {
    forall f | f != Unknown
      ensures !ForecastDraw(f, year).known && (DrawInstant(ForecastDraw(f, year)) - BRAZIL_OFFSET) % MS_PER_DAY == 72_000_000
      ensures Forecast(f, year) == Some(BrazilDayNumber(DrawInstant(ForecastDraw(f, year))))
    {
      ForecastInstant(f, year);
    }
    CivilInverse(Civil(year, 12, 31));
    SaoJoaoDay(year);
    IndependenciaDay(year);
    hide DrawInstant, ForecastDraw, SaturdayNear, CivilOf, OnlySaturday, BrazilDayNumber;
  }

  /** The Easter draw is on the day before the first Sunday strictly after the paschal full moon. */
  lemma PascoaIsHolySaturday(year: nat)
    ensures var sunday, moon := BrazilDayNumber(DrawInstant(ForecastDraw(Pascoa, year))) + 1, DayNumber(year, 3, 1) + PaschalMoon(year) - 1;
      Weekday(sunday) == 0 && moon < sunday && forall n :: moon < n < sunday ==> Weekday(n) != 0
  {
    ForecastInstant(Pascoa, year);
    EasterIsFirstSundayAfterMoon(year);
  }

  /** The earliest known draw still to come, if any. */
  method EarliestKnown(known: seq<Sorteio>, now: int) returns (best: Option<Sorteio>)
    ensures best.None? <==> forall s :: s in known ==> DrawInstant(s) <= now
    ensures best.Some? ==> best.value in known && DrawInstant(best.value) > now
    ensures best.Some? ==> forall s :: s in known && DrawInstant(s) > now ==> DrawInstant(best.value) <= DrawInstant(s)
  {
    best := None;
    for i := 0 to |known|
      invariant best.None? <==> forall s :: s in known[..i] ==> DrawInstant(s) <= now
      invariant best.Some? ==> best.value in known && DrawInstant(best.value) > now
      invariant best.Some? ==> forall s :: s in known[..i] && DrawInstant(s) > now ==> DrawInstant(best.value) <= DrawInstant(s)
    {
      assert known[..i + 1] == known[..i] + [known[i]];
      if DrawInstant(known[i]) > now && (best.None? || DrawInstant(known[i]) < DrawInstant(best.value)) { best := Some(known[i]); }
    }
    assert known[..|known|] == known;
  }

  predicate IsFuture(f: Festival, year: nat, now: int)
    requires f != Unknown
  {
    DrawInstant(ForecastDraw(f, year)) > now
  }

  function FutureYears(f: Festival, now: int): nat -> bool
    requires f != Unknown
  {
    (year: nat) => IsFuture(f, year, now)
  }

  /** The first of all years, not only of those scanned. */
  ghost predicate FirstYear(wanted: nat -> bool, year: nat) {
    wanted(year) && forall other: nat :: wanted(other) ==> other >= year
  }

  /** The scan of a year and the two after it. */
  method FirstOfThree(wanted: nat -> bool, startYear: nat) returns (r: Option<nat>)
    ensures r.Some? ==> startYear <= r.value <= startYear + 2 && wanted(r.value) && forall y: nat :: startYear <= y < r.value ==> !wanted(y)
    ensures r.None? ==> forall y: nat :: startYear <= y <= startYear + 2 ==> !wanted(y)
  {
    var year: nat := startYear;
    while year <= startYear + 2
      invariant startYear <= year <= startYear + 3
      invariant forall y: nat :: startYear <= y < year ==> !wanted(y)
    {
      if wanted(year) { return Some(year); }
      year := year + 1;
    }
    r := None;
  }

  /** Past years hold no future draw and the next one does: so the scan finds the first of all, in this year or the next. */
  lemma ScanIsEnough(wanted: nat -> bool, start: nat, found: Option<nat>)
    requires forall y: nat :: y < start ==> !wanted(y)
    requires wanted(start + 1)
    requires found.Some? ==> start <= found.value && wanted(found.value) && forall y: nat :: start <= y < found.value ==> !wanted(y)
    requires found.None? ==> forall y: nat :: start <= y <= start + 2 ==> !wanted(y)
    ensures found.Some? && FirstYear(wanted, found.value) && found.value <= start + 1
  {
  }

  lemma FutureYear(f: Festival, year: nat, now: int, current: int)
    requires f != Unknown && InYear(now, current)
    ensures year < current ==> !FutureYears(f, now)(year)
    ensures year > current ==> FutureYears(f, now)(year)
  {
    ForecastAgainstNow(f, year, now, current);
  }

  lemma FutureYearsFacts(f: Festival, now: int, current: nat)
    requires f != Unknown && InYear(now, current)
    ensures forall y: nat :: y < current ==> !FutureYears(f, now)(y)
    ensures FutureYears(f, now)(current + 1)
  {
    hide InYear, FutureYears;
    forall y: nat | y < current ensures !FutureYears(f, now)(y) {
      FutureYear(f, y, now, current);
    }
    FutureYear(f, current + 1, now, current);
  }

  /**
    The known calendar first, then the traditional day of this year or of the two after it. For a listed festival
    the answer always exists, lies in the future, and no year at all has an earlier future forecast.
   */
  method ProximoSorteioFesta(f: Festival, known: seq<Sorteio>, now: int) returns (r: Option<Sorteio>)
    requires now >= YEAR_ZERO
    ensures r.Some? ==> DrawInstant(r.value) > now
    ensures r.None? <==> f == Unknown && forall s :: s in known ==> DrawInstant(s) <= now
    ensures (exists s :: s in known && DrawInstant(s) > now) ==>
      r.Some? && r.value in known && forall s :: s in known && DrawInstant(s) > now ==> DrawInstant(r.value) <= DrawInstant(s)
    ensures (forall s :: s in known ==> DrawInstant(s) <= now) && f != Unknown ==>
      exists year: nat :: FirstYear(FutureYears(f, now), year) && r == Some(ForecastDraw(f, year))
  {
    r := EarliestKnown(known, now);
    if r.None? && f != Unknown {
      NowIsInItsYear(now);
      FromYearZeroOn(now);
      var forecast := NextForecast(f, now, YearOfNow(now));
      r := Some(forecast);
    }
  }

  /** The forecast part, with the current year given. */
  method NextForecast(f: Festival, now: int, current: nat) returns (r: Sorteio)
    requires f != Unknown && InYear(now, current)
    ensures DrawInstant(r) > now
    ensures exists year: nat :: FirstYear(FutureYears(f, now), year) && r == ForecastDraw(f, year)
  {
    var year := FirstOfThree(FutureYears(f, now), current);
    FutureYearsFacts(f, now, current);
    ScanIsEnough(FutureYears(f, now), current, year);
    r := ForecastDraw(f, year.value);
    WantedIsFuture(f, year.value, now);
  }

  lemma WantedIsFuture(f: Festival, year: nat, now: int)
    requires f != Unknown && FutureYears(f, now)(year)
    ensures DrawInstant(ForecastDraw(f, year)) > now
  {
  }
}
