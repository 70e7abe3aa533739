/** The next scheduled draw day of a modality (packages/shared-types/src/upcoming.ts). Days are day numbers. */
module Schedule {
  import opened Arithmetic
  import opened Calendar
  import opened BrazilTime
  import opened Wrappers

  const NOON_MS: int := 43_200_000

  /** Noon of a day in Brazil. */
  function Noon(day: int): int {
    day * MS_PER_DAY + NOON_MS + BRAZIL_OFFSET
  }

  /** `new Date(day at noon, -03:00).getUTCDay()`. */
  function WeekdayOfDay(day: int): int {
    Weekday(Noon(day) / MS_PER_DAY)
  }

  /** Noon in Brazil falls on the same day number in UTC, so the weekday is the date's own. */
  lemma WeekdayIsOfTheDate(day: int)
    ensures WeekdayOfDay(day) == Weekday(day)
    ensures BrazilDayNumber(Noon(day)) == day && (Noon(day) - BRAZIL_OFFSET) % MS_PER_DAY == 43_200_000
  {
    DivShift(43_200_000, MS_PER_DAY, day);
    DivUnique(Noon(day), MS_PER_DAY, day);
    DivUnique(Noon(day) - BRAZIL_OFFSET, MS_PER_DAY, day);
  }

  ghost predicate Scheduled(day: int, days: set<int>) {
    Weekday(day) in days
  }

  /** The first scheduled day strictly after another. */
  ghost predicate IsNext(r: int, afterDay: int, days: set<int>) {
    afterDay < r && Scheduled(r, days) && forall d :: afterDay < d < r ==> !Scheduled(d, days)
  }

  lemma NextIsUnique(a: int, b: int, afterDay: int, days: set<int>)
    requires IsNext(a, afterDay, days) && IsNext(b, afterDay, days)
    ensures a == b
  {
  }

  /** Seven days in a row meet every weekday. */
  lemma WeekHasEveryDay(afterDay: int, w: int) returns (d: int)
    requires 0 <= w <= 6
    ensures afterDay < d <= afterDay + 7 && Weekday(d) == w
  {
    var q, r := (afterDay + 5) / 7, (afterDay + 5) % 7;
    DivBracket(afterDay + 5, 7);
    d := afterDay + 1 + (w - r) + (if w < r then 7 else 0);
    DivUnique(d + 4, 7, if w < r then q + 1 else q);
    DivBracket(d + 4, 7);
  }

  /** Steps noon by noon for eight days; the answer comes within seven, and is missing only when no weekday is allowed. */
  method NextScheduledDay(afterDay: int, days: set<int>) returns (r: Option<int>)
    ensures r.Some? <==> exists w :: 0 <= w <= 6 && w in days
    ensures r.Some? ==> IsNext(r.value, afterDay, days) && r.value <= afterDay + 7
  {
    r := None;
    if days == {} { return; }
    var cursor := Noon(afterDay);
    var i := 0;
    while i < 8
      invariant 0 <= i <= 8 && cursor == Noon(afterDay + i)
      invariant forall d :: afterDay < d <= afterDay + i ==> !Scheduled(d, days)
    {
      cursor := cursor + MS_PER_DAY;
      var key := BrazilDayNumber(cursor);
      WeekdayIsOfTheDate(afterDay + i + 1);
      if WeekdayOfDay(key) in days {
        if key > afterDay + 7 {
          WithinAWeek(afterDay, days, Weekday(key));
        }
        return Some(key);
      }
      i := i + 1;
    }
    forall w | 0 <= w <= 6 ensures w !in days {
      var d := WeekHasEveryDay(afterDay, w);
      assert !Scheduled(d, days);
    }
  }

  lemma WithinAWeek(afterDay: int, days: set<int>, w: int)
    requires w in days && 0 <= w <= 6
    ensures exists d :: afterDay < d <= afterDay + 7 && Scheduled(d, days)
  {
    var d := WeekHasEveryDay(afterDay, w);
    assert Scheduled(d, days);
  }
}
