/**
  Instants, Brazil's calendar day and sale cutoffs (packages/shared-types/src/index.ts and festas.ts).
  Instants are milliseconds since the epoch and Brazil is UTC-03:00, the offset the source itself writes out.
 */
module BrazilTime {
  import opened Arithmetic
  import opened Calendar
  import opened Wrappers

  const MS_PER_DAY: int := 86_400_000
  const BRAZIL_OFFSET: int := 10_800_000

  datatype Clock = Clock(hour: int, minute: int, second: int, millisecond: int)

  predicate ValidClock(c: Clock) {
    0 <= c.hour <= 23 && 0 <= c.minute <= 59 && 0 <= c.second <= 59 && 0 <= c.millisecond <= 999
  }

  function ClockMs(c: Clock): int {
    c.hour * 3_600_000 + c.minute * 60_000 + c.second * 1000 + c.millisecond
  }

  const MIDNIGHT := Clock(0, 0, 0, 0)

  /** The day number of the calendar day that an instant falls on in Brazil. */
  function BrazilDayNumber(t: int): int {
    (t - BRAZIL_OFFSET) / MS_PER_DAY
  }

  function BrazilDay(t: int): Civil {
    CivilOf(BrazilDayNumber(t))
  }

  function FromBrazilLocal(c: Civil, k: Clock): Option<int> {
    if ValidCalendarDate(c.year, c.month, c.day) && ValidClock(k)
    then Some(DayNumber(c.year, c.month, c.day) * MS_PER_DAY + ClockMs(k) + BRAZIL_OFFSET)
    else None
  }

  /** A date text after its regular expression has matched. */
  datatype DateText =
    | DayMonthYear(date: Civil, clock: Clock)
    | IsoDay(date: Civil)
    | IsoInstant(date: Civil, clock: Clock, offsetNegative: bool, offsetHour: int, offsetMinute: int)
    | Unrecognised

  function ParseCaixaDate(text: DateText): Option<int> {
    match text
    case DayMonthYear(date, clock) => FromBrazilLocal(date, clock)
    case IsoDay(date) => FromBrazilLocal(date, MIDNIGHT)
    case IsoInstant(date, clock, negative, hour, minute) =>
      if !ValidCalendarDate(date.year, date.month, date.day) || !ValidClock(clock) || hour > 23 || minute > 59 then None
      else
        var offset := (if negative then -1 else 1) * (hour * 60 + minute);
        Some(DayNumber(date.year, date.month, date.day) * MS_PER_DAY + ClockMs(clock) - offset * 60_000)
    case Unrecognised => None
  }

  /** The sale cutoff of a contest: its draw's Brazil day at the configured hour. None stands for the thrown error. */
  function CalculateBrazilCutoff(drawDate: int, hour: int, minute: int): Option<int> {
    if !ValidClock(Clock(hour, minute, 0, 0)) then None
    else FromBrazilLocal(BrazilDay(drawDate), Clock(hour, minute, 0, 0))
  }

  /** YYYYMMDD, read as a number. */
  function DayAsNumber(c: Civil): int {
    c.year * 10_000 + c.month * 100 + c.day
  }

  /** Number of a festival contest that has no official number yet: minus YYYYMMDD of its Brazil day. */
  function ProvisionalNumber(drawDate: int): int {
    -DayAsNumber(BrazilDay(drawDate))
  }

  /** The dates that the system accepts. */
  predicate InRange(c: Civil) {
    1970 <= c.year <= 9999 && RealDate(c.year, c.month, c.day)
  }

  /** The components of a clock can be read off its milliseconds, so different clocks differ and order is by component. */
  lemma ClockReadsBack(k: Clock)
    requires ValidClock(k)
    ensures var ms := ClockMs(k); k == Clock(ms / 3_600_000, ms / 60_000 % 60, ms / 1000 % 60, ms % 1000)
  {
    var minutes := k.hour * 60 + k.minute;
    var seconds := minutes * 60 + k.second;
    DivUnique(ClockMs(k), 3_600_000, k.hour);
    DivUnique(ClockMs(k), 60_000, minutes);
    DivUnique(ClockMs(k), 1000, seconds);
    DivUnique(minutes, 60, k.hour);
    DivUnique(seconds, 60, minutes);
    DivBracket(ClockMs(k), 1000);
    DivBracket(minutes, 60);
    DivBracket(seconds, 60);
  }

  /** And every millisecond of a day is that of a valid clock. */
  lemma EveryMillisecondHasItsClock(ms: int)
    requires 0 <= ms < MS_PER_DAY
    ensures var k := Clock(ms / 3_600_000, ms / 60_000 % 60, ms / 1000 % 60, ms % 1000); ValidClock(k) && ClockMs(k) == ms
  {
    var seconds, minutes := ms / 1000, ms / 60_000;
    DivBracket(ms, 1000);
    DivBracket(ms, 60_000);
    DivBracket(ms, 3_600_000);
    DivBracket(seconds, 60);
    DivBracket(minutes, 60);
    DivUnique(seconds, 60, minutes);
    DivUnique(minutes, 60, ms / 3_600_000);
  }

  lemma ClockOrder(a: Clock, b: Clock)
    requires ValidClock(a) && ValidClock(b)
    ensures ClockMs(a) < ClockMs(b) <==>
      a.hour < b.hour || (a.hour == b.hour && (a.minute < b.minute || (a.minute == b.minute && (a.second < b.second
        || (a.second == b.second && a.millisecond < b.millisecond)))))
  {
  }

  lemma LocalValue(c: Civil, k: Clock)
    ensures FromBrazilLocal(c, k).Some? ==> 1 <= c.month <= 12 && FromBrazilLocal(c, k).value == DayNumber(c.year, c.month, c.day) * MS_PER_DAY + ClockMs(k) + BRAZIL_OFFSET
  {
    hide DayNumber, CivilOf;
  }

  lemma MidnightIsZero()
    ensures ClockMs(MIDNIGHT) == 0
  {
    assert ClockMs(Clock(0, 0, 0, 0)) == 0;
  }

  lemma MidnightIsValid()
    ensures ValidClock(MIDNIGHT)
  {
    assert MIDNIGHT == Clock(0, 0, 0, 0);
  }

  lemma Midnight(c: Civil)
    requires InRange(c)
    ensures ParseCaixaDate(IsoDay(c)) == Some(DayNumber(c.year, c.month, c.day) * MS_PER_DAY + BRAZIL_OFFSET)
  {
    MidnightIsZero();
    MidnightIsValid();
    hide FromBrazilLocal, ValidCalendarDate, DayNumber, InRange, RealDate, ClockMs, ValidClock;
    LocalAccepted(c, MIDNIGHT);
    LocalValue(c, MIDNIGHT);
    var n := DayNumber(c.year, c.month, c.day) * MS_PER_DAY;
    assert FromBrazilLocal(c, MIDNIGHT) == Some(n + BRAZIL_OFFSET);
  }

  /** A date without a time is the first instant of its Brazil day. */
  lemma IsoDayIsItsStart(date: Civil, t: int)
    requires InRange(date) && BrazilDay(t) == date
    ensures ParseCaixaDate(IsoDay(date)).Some? && ParseCaixaDate(IsoDay(date)).value <= t < ParseCaixaDate(IsoDay(date)).value + MS_PER_DAY
  {
    Midnight(date);
    var n := BrazilDayNumber(t);
    assert DayNumber(date.year, date.month, date.day) == n;
    DivBracket(t - BRAZIL_OFFSET, MS_PER_DAY);
    hide ParseCaixaDate, DayNumber, CivilOf, InRange, BrazilDayNumber, BrazilDay;
  }

  lemma ClockFitsDay(k: Clock)
    requires ValidClock(k)
    ensures 0 <= ClockMs(k) < MS_PER_DAY
  {
  }

  lemma LocalDayNumber(n: int, ms: int)
    requires 0 <= ms < MS_PER_DAY
    ensures BrazilDayNumber(n * MS_PER_DAY + ms + BRAZIL_OFFSET) == n
  {
    DivUnique(n * MS_PER_DAY + ms, MS_PER_DAY, n);
  }

  lemma LocalAccepted(c: Civil, k: Clock)
    ensures FromBrazilLocal(c, k).Some? <==> InRange(c) && ValidClock(k)
  {
    ValidCalendarDateExact(c.year, c.month, c.day);
  }

  lemma LocalInstant(c: Civil, k: Clock, t: int)
    requires FromBrazilLocal(c, k) == Some(t)
    ensures BrazilDayNumber(t) == DayNumber(c.year, c.month, c.day)
  {
    ClockFitsDay(k);
    LocalDayNumber(DayNumber(c.year, c.month, c.day), ClockMs(k));
  }

  /** A local date is accepted exactly when it is real, and its instant falls on that very day in Brazil. */
  lemma LocalRoundTrip(c: Civil, k: Clock)
    ensures FromBrazilLocal(c, k).Some? <==> InRange(c) && ValidClock(k)
    ensures FromBrazilLocal(c, k).Some? ==> BrazilDay(FromBrazilLocal(c, k).value) == c
  {
    LocalAccepted(c, k);
    var local := FromBrazilLocal(c, k);
    if local.Some? {
      LocalInstant(c, k, local.value);
      CivilInverse(c);
    }
  }

  /** Reading dd/mm/yyyy (or yyyy-mm-dd) and taking the Brazil day gives the date back. */
  lemma ParsedDayRoundTrip(text: DateText)
    requires text.DayMonthYear? || text.IsoDay?
    requires ParseCaixaDate(text).Some?
    ensures BrazilDay(ParseCaixaDate(text).value) == text.date
  {
    LocalRoundTrip(text.date, if text.IsoDay? then MIDNIGHT else text.clock);
  }

  /** Parsing preserves order: date first, then time of day. */
  lemma ParsingPreservesOrder(a: Civil, ka: Clock, b: Civil, kb: Clock)
    requires InRange(a) && ValidClock(ka) && InRange(b) && ValidClock(kb)
    ensures FromBrazilLocal(a, ka).Some? && FromBrazilLocal(b, kb).Some?
    ensures FromBrazilLocal(a, ka).value < FromBrazilLocal(b, kb).value
       <==> Earlier(a, b) || (a == b && ClockMs(ka) < ClockMs(kb))
  {
    LocalRoundTrip(a, ka);
    LocalRoundTrip(b, kb);
    DayNumberOrder(a, b);
    ClockFitsDay(ka);
    ClockFitsDay(kb);
    hide ValidCalendarDate, DayNumber;
  }

  /** An ISO instant written with offset -03:00 is the same as the local date; other offsets, up to 23:59, shift it by their difference. */
  lemma OffsetShift(c: Civil, k: Clock, negative: bool, hour: nat, minute: nat)
    ensures ParseCaixaDate(IsoInstant(c, k, negative, hour, minute)).Some?
       <==> ParseCaixaDate(DayMonthYear(c, k)).Some? && hour <= 23 && minute <= 59
    ensures ParseCaixaDate(IsoInstant(c, k, negative, hour, minute)).Some? ==>
      ParseCaixaDate(IsoInstant(c, k, negative, hour, minute)).value
        == ParseCaixaDate(DayMonthYear(c, k)).value - BRAZIL_OFFSET + (if negative then 1 else -1) * (hour * 60 + minute) * 60_000
    ensures ParseCaixaDate(IsoInstant(c, k, true, 3, 0)) == ParseCaixaDate(DayMonthYear(c, k))
  {
    hide ValidCalendarDate, DayNumber;
    if ValidCalendarDate(c.year, c.month, c.day) {
      if negative {
        assert (-1) * (hour * 60 + minute) * 60_000 == -((hour * 60 + minute) * 60_000);
      }
    }
  }

  lemma CutoffOfDay(c: Civil, hour: int, minute: int)
    requires RealDate(c.year, c.month, c.day)
    ensures var k := Clock(hour, minute, 0, 0); var cutoff := FromBrazilLocal(c, k);
      && (cutoff.Some? <==> ValidClock(k) && 1970 <= c.year <= 9999)
      && (cutoff.Some? ==> BrazilDay(cutoff.value) == c && (cutoff.value - BRAZIL_OFFSET) % MS_PER_DAY == ClockMs(k))
  {
    var k := Clock(hour, minute, 0, 0);
    LocalRoundTrip(c, k);
    if ValidClock(k) {
      ClockFitsDay(k);
      DivShift(ClockMs(k), MS_PER_DAY, DayNumber(c.year, c.month, c.day));
    }
  }

  /**
    The cutoff exists exactly for a valid hour and a Brazil year from 1970 to 9999; it lands on the draw's own
    Brazil day and depends on nothing else.
   */
  lemma CutoffIsOnDrawDay(drawDate: int, hour: int, minute: int)
    ensures var cutoff := CalculateBrazilCutoff(drawDate, hour, minute);
      && (cutoff.Some? <==> 0 <= hour <= 23 && 0 <= minute <= 59 && 1970 <= BrazilDay(drawDate).year <= 9999)
      && (cutoff.Some? ==> BrazilDay(cutoff.value) == BrazilDay(drawDate))
      && (cutoff.Some? ==> (cutoff.value - BRAZIL_OFFSET) % MS_PER_DAY == hour * 3_600_000 + minute * 60_000)
  {
    hide FromBrazilLocal, CivilOf;
    CutoffOfDay(BrazilDay(drawDate), hour, minute);
  }

  lemma CutoffDependsOnDayOnly(a: int, b: int, hour: int, minute: int)
    requires BrazilDayNumber(a) == BrazilDayNumber(b)
    ensures CalculateBrazilCutoff(a, hour, minute) == CalculateBrazilCutoff(b, hour, minute)
    ensures CalculateBrazilCutoff(a, hour, minute).Some? ==>
      CalculateBrazilCutoff(CalculateBrazilCutoff(a, hour, minute).value, hour, minute) == CalculateBrazilCutoff(a, hour, minute)
  {
    CutoffIsOnDrawDay(a, hour, minute);
  }

  /** Year, month and day can be read back from the number. */
  lemma DayReadsBack(c: Civil)
    requires 1 <= c.month <= 12 && 1 <= c.day <= 31
    ensures DayAsNumber(c) / 10_000 == c.year && DayAsNumber(c) / 100 % 100 == c.month && DayAsNumber(c) % 100 == c.day
  {
    var months := c.year * 100 + c.month;
    DivUnique(DayAsNumber(c), 10_000, c.year);
    DivUnique(DayAsNumber(c), 100, months);
    DivUnique(months, 100, c.year);
    DivBracket(DayAsNumber(c), 100);
    DivBracket(months, 100);
  }

  lemma DayAsNumberTellsDays(a: Civil, b: Civil)
    requires RealDate(a.year, a.month, a.day) && RealDate(b.year, b.month, b.day)
    ensures DayAsNumber(a) == DayAsNumber(b) <==> a == b
    ensures a.year >= 0 ==> DayAsNumber(a) > 0
  {
    DayReadsBack(a);
    DayReadsBack(b);
    assert a.year >= 0 ==> DayAsNumber(a) > 0;
    hide DayAsNumber;
  }

  /** Provisional numbers tell days apart, and are negative from the year 0 on. */
  lemma ProvisionalNumberIsPerDay(a: int, b: int)
    ensures ProvisionalNumber(a) == ProvisionalNumber(b) <==> BrazilDayNumber(a) == BrazilDayNumber(b)
    ensures BrazilDay(a).year >= 0 ==> ProvisionalNumber(a) < 0
  {
    DayAsNumberTellsDays(BrazilDay(a), BrazilDay(b));
  }
}
