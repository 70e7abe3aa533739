/**
  One-pass statistics over the draw history (packages/shared-types/src/lottery-stats.ts): how often each number
  came out, for how long it has been absent, and the longest absence ever.
 */
module DrawStats {
  import opened Sorting
  import opened Wrappers

  datatype HistoricalDraw = HistoricalDraw(contest: int, numbers: seq<int>)
  datatype NumberStat = NumberStat(number: int, count: int, recent: int, delay: int, lastContest: Option<int>, maxDelay: int)

  // ----- chronological order -----

  predicate NotAfter(a: HistoricalDraw, b: HistoricalDraw) { a.contest <= b.contest }

  function NonEmpty(raw: seq<HistoricalDraw>): seq<HistoricalDraw> {
    if raw == [] then []
    else (if raw[0].numbers != [] then [raw[0]] else []) + NonEmpty(raw[1..])
  }

  function Chronological(raw: seq<HistoricalDraw>): seq<HistoricalDraw> {
    Sort(NotAfter, NonEmpty(raw))
  }

  lemma {:induction false} NonEmptyCounts(raw: seq<HistoricalDraw>, d: HistoricalDraw)
    ensures multiset(NonEmpty(raw))[d] == if d.numbers != [] then multiset(raw)[d] else 0
  {
    if raw != [] {
      NonEmptyCounts(raw[1..], d);
      assert raw == [raw[0]] + raw[1..];
    }
  }

  /** Oldest contest first, and exactly the draws that have numbers. */
  lemma ChronologicalIsOldestFirst(raw: seq<HistoricalDraw>)
    ensures var draws := Chronological(raw);
      && (forall i, j :: 0 <= i < j < |draws| ==> draws[i].contest <= draws[j].contest)
      && (forall d :: multiset(draws)[d] == if d.numbers != [] then multiset(raw)[d] else 0)
  {
    SortSorted(NotAfter, NonEmpty(raw));
    var draws := Chronological(raw);
    forall i, j | 0 <= i < j < |draws| ensures draws[i].contest <= draws[j].contest { assert NotAfter(draws[i], draws[j]); }
    forall d ensures multiset(draws)[d] == if d.numbers != [] then multiset(raw)[d] else 0 { NonEmptyCounts(raw, d); }
  }

  function OfContest(contest: int): HistoricalDraw -> bool {
    (d: HistoricalDraw) => d.contest == contest
  }

  /** Draws of the same contest keep the order in which they came. */
  lemma SameContestInOrder(raw: seq<HistoricalDraw>, contest: int)
    ensures Filter(OfContest(contest), Chronological(raw)) == Filter(OfContest(contest), NonEmpty(raw))
  {
    SortIsStable(NotAfter, OfContest(contest), NonEmpty(raw));
  }

  // ----- what the counters mean -----

  /** Occurrences of `v` in draws from..to. */
  function Occurrences(draws: seq<HistoricalDraw>, v: int, from: nat, to: nat): nat
    requires from <= to <= |draws|
  {
    if from == to then 0 else Occurrences(draws, v, from, to - 1) + multiset(draws[to - 1].numbers)[v]
  }

  /** Index of the last draw before `to` that has `v`, or -1. */
  function LastBefore(draws: seq<HistoricalDraw>, v: int, to: nat): (r: int)
    requires to <= |draws|
    ensures -1 <= r < to
    ensures r >= 0 ==> v in draws[r].numbers
    ensures forall i :: r < i < to ==> v !in draws[i].numbers
  {
    if to == 0 then -1 else if v in draws[to - 1].numbers then to - 1 else LastBefore(draws, v, to - 1)
  }

  /** `v` is in none of the draws a..b. */
  ghost predicate Absent(draws: seq<HistoricalDraw>, v: int, a: int, b: int)
    requires 0 <= a <= b <= |draws|
  {
    forall i :: a <= i < b ==> v !in draws[i].numbers
  }

  /** `m` is the length of the longest block of consecutive draws without `v` among the first `to`. */
  ghost predicate LongestAbsence(draws: seq<HistoricalDraw>, v: int, to: int, m: int)
    requires 0 <= to <= |draws|
  {
    && m >= 0
    && (exists a, b :: 0 <= a <= b <= to && b - a == m && Absent(draws, v, a, b))
    && (forall a, b :: 0 <= a <= b <= to && Absent(draws, v, a, b) ==> b - a <= m)
  }

  // ----- the pass -----

  datatype Counters = Counters(counts: map<int, int>, gaps: map<int, int>, recent: map<int, int>, previous: map<int, int>)

  function Previous(c: Counters, v: int): int {
    if v in c.previous then c.previous[v] else -1
  }

  ghost predicate Tracks(c: Counters, min: int, max: int) {
    && (forall v :: v in c.counts <==> min <= v <= max)
    && c.gaps.Keys == c.counts.Keys && c.recent.Keys == c.counts.Keys
  }

  function Max(a: int, b: int): int { if a < b then b else a }

  /** The counters of one number after a draw, from those before it. */
  ghost predicate SawDraw(c: Counters, d: Counters, v: int, numbers: seq<int>, index: int, isRecent: bool)
    requires v in c.counts && v in d.counts && v in c.gaps && v in d.gaps && v in c.recent && v in d.recent
  {
    && d.counts[v] == c.counts[v] + multiset(numbers)[v]
    && d.recent[v] == c.recent[v] + (if isRecent then multiset(numbers)[v] else 0)
    && Previous(d, v) == (if v in numbers then index else Previous(c, v))
    && d.gaps[v] == (if v in numbers then Max(c.gaps[v], index - Previous(c, v) - 1) else c.gaps[v])
  }

  lemma SeeOne(c0: Counters, c: Counters, value: int, v: int, numbers: seq<int>, j: nat, index: nat, isRecent: bool)
    requires v in c0.counts && v in c.counts && v in c0.gaps && v in c.gaps && v in c0.recent && v in c.recent
    requires c.gaps.Keys == c.counts.Keys && c.recent.Keys == c.counts.Keys
    requires j < |numbers| && numbers[j] == value && c0.gaps[v] >= 0 && Previous(c0, v) < index
    requires SawDraw(c0, c, v, numbers[..j], index, isRecent)
    ensures SawDraw(c0, if value in c.counts then See(c, value, index, isRecent) else c, v, numbers[..j + 1], index, isRecent)
  {
    OneMore(numbers, j, v);
  }

  lemma OneMore(s: seq<int>, j: nat, v: int)
    requires j < |s|
    ensures multiset(s[..j + 1])[v] == multiset(s[..j])[v] + if s[j] == v then 1 else 0
    ensures v in s[..j + 1] <==> v in s[..j] || s[j] == v
  {
    assert s[..j + 1] == s[..j] + [s[j]];
  }

  /** One draw: every number of the game that it has is counted, its gap closed and its index remembered. */
  method SeeDraw(c0: Counters, ghost min: int, ghost max: int, numbers: seq<int>, index: nat, isRecent: bool) returns (c: Counters)
    requires Tracks(c0, min, max)
    requires forall v :: min <= v <= max ==> c0.gaps[v] >= 0 && Previous(c0, v) < index
    ensures Tracks(c, min, max)
    ensures forall v :: min <= v <= max ==> SawDraw(c0, c, v, numbers, index, isRecent)
  {
    c := c0;
    for j := 0 to |numbers|
      invariant Tracks(c, min, max)
      invariant forall v :: min <= v <= max ==> SawDraw(c0, c, v, numbers[..j], index, isRecent)
    {
      var value := numbers[j];
      var before := c;
      if value in c.counts { c := See(c, value, index, isRecent); }
      var seen := numbers[..j + 1];
      forall v | min <= v <= max ensures SawDraw(c0, c, v, seen, index, isRecent) {
        assert SawDraw(c0, before, v, numbers[..j], index, isRecent);
        SeeOne(c0, before, value, v, numbers, j, index, isRecent);
      }
    }
    assert numbers[..|numbers|] == numbers;
  }

  function See(c: Counters, value: int, index: int, isRecent: bool): Counters
    requires value in c.counts && value in c.gaps && value in c.recent
  {
    Counters(
      c.counts[value := c.counts[value] + 1],
      c.gaps[value := Max(c.gaps[value], index - Previous(c, value) - 1)],
      if isRecent then c.recent[value := c.recent[value] + 1] else c.recent,
      c.previous[value := index])
  }

  /** The counters of one number say what they should about the first `index` draws. */
  ghost predicate Right(c: Counters, v: int, draws: seq<HistoricalDraw>, index: int, from: int)
    requires 0 <= index <= |draws| && 0 <= from
  {
    && v in c.counts && v in c.gaps && v in c.recent
    && c.counts[v] == Occurrences(draws, v, 0, index)
    && c.recent[v] == (if index <= from then 0 else Occurrences(draws, v, from, index))
    && Previous(c, v) == LastBefore(draws, v, index)
    && LongestAbsence(draws, v, LastBefore(draws, v, index) + 1, c.gaps[v])
  }

  /** A block of absence that ends before an appearance lies before or after the previous one. */
  lemma GapCloses(draws: seq<HistoricalDraw>, v: int, to: nat, m: int)
    requires to < |draws| && v in draws[to].numbers
    requires LongestAbsence(draws, v, LastBefore(draws, v, to) + 1, m)
    ensures LongestAbsence(draws, v, to + 1, Max(m, to - LastBefore(draws, v, to) - 1))
  {
    var last := LastBefore(draws, v, to);
    LongestSplit(draws, v, last + 1, to, m);
    var k := Max(m, to - last - 1);
    var x, y :| 0 <= x <= y <= to && y - x == k && Absent(draws, v, x, y);
    assert 0 <= x <= y <= to + 1 && Absent(draws, v, x, y);
    forall a, b | 0 <= a <= b <= to + 1 && Absent(draws, v, a, b) ensures b - a <= k {
      BlockAvoids(draws, v, a, b, to);
    }
  }

  lemma BlockAvoids(draws: seq<HistoricalDraw>, v: int, a: int, b: int, i: nat)
    requires 0 <= a <= b <= |draws| && i < |draws|
    requires Absent(draws, v, a, b) && v in draws[i].numbers
    ensures i < a || b <= i
  {
  }

  /** Two stretches, the first ending in an appearance (or empty) and the second without any. */
  lemma LongestSplit(draws: seq<HistoricalDraw>, v: int, cut: nat, to: nat, m: int)
    requires cut <= to <= |draws|
    requires cut > 0 ==> v in draws[cut - 1].numbers
    requires Absent(draws, v, cut, to)
    requires LongestAbsence(draws, v, cut, m)
    ensures LongestAbsence(draws, v, to, Max(m, to - cut))
  {
    var k := Max(m, to - cut);
    if m < to - cut {
      assert 0 <= cut <= to && to - cut == k && Absent(draws, v, cut, to);
    } else {
      var x, y :| 0 <= x <= y <= cut && y - x == m && Absent(draws, v, x, y);
      assert 0 <= x <= y <= to && y - x == k && Absent(draws, v, x, y);
    }
    forall a, b | 0 <= a <= b <= to && Absent(draws, v, a, b) ensures b - a <= k {
      if cut > 0 { BlockAvoids(draws, v, a, b, cut - 1); }
    }
  }

  lemma MultisetMember(s: seq<int>, v: int)
    ensures v in s <==> multiset(s)[v] > 0
  {
  }

  lemma StepIsRight(c: Counters, d: Counters, v: int, draws: seq<HistoricalDraw>, index: nat, from: nat)
    requires index < |draws| && from <= |draws| && Right(c, v, draws, index, from)
    requires v in d.counts && v in d.gaps && v in d.recent
    requires SawDraw(c, d, v, draws[index].numbers, index, index >= from)
    ensures Right(d, v, draws, index + 1, from)
  {
    MultisetMember(draws[index].numbers, v);
    if v in draws[index].numbers {
      GapCloses(draws, v, index, c.gaps[v]);
    }
    if index + 1 > from { RecentStep(draws, v, from, index); }
  }

  lemma RecentStep(draws: seq<HistoricalDraw>, v: int, from: nat, index: nat)
    requires from <= index < |draws|
    ensures Occurrences(draws, v, from, index + 1) == Occurrences(draws, v, from, index) + multiset(draws[index].numbers)[v]
  {
  }

  method Zeros(min: int, max: int) returns (m: map<int, int>)
    ensures forall v :: v in m <==> min <= v <= max
    ensures forall v :: v in m ==> m[v] == 0
  {
    m := map[];
    var v := min;
    while v <= max
      invariant v <= max + 1 || v == min
      invariant forall u :: u in m <==> min <= u < v
      invariant forall u :: u in m ==> m[u] == 0
    {
      m := m[v := 0];
      v := v + 1;
    }
  }

  lemma StartIsRight(c: Counters, v: int, draws: seq<HistoricalDraw>, from: nat)
    requires v in c.counts && v in c.gaps && v in c.recent && c.counts[v] == 0 && c.gaps[v] == 0 && c.recent[v] == 0 && c.previous == map[]
    ensures Right(c, v, draws, 0, from)
  {
    assert Absent(draws, v, 0, 0);
  }

  /** The single pass over the chronological history. */
  method Count(draws: seq<HistoricalDraw>, min: int, max: int, from: nat) returns (c: Counters)
    requires from <= |draws|
    ensures Tracks(c, min, max)
    ensures forall v :: min <= v <= max ==> Right(c, v, draws, |draws|, from)
  {
    var zeros := Zeros(min, max);
    c := Counters(zeros, zeros, zeros, map[]);
    forall v | min <= v <= max ensures Right(c, v, draws, 0, from) { StartIsRight(c, v, draws, from); }
    for index := 0 to |draws|
      invariant Tracks(c, min, max)
      invariant forall v :: min <= v <= max ==> Right(c, v, draws, index, from)
    {
      forall v | min <= v <= max ensures c.gaps[v] >= 0 && Previous(c, v) < index {
        assert Right(c, v, draws, index, from);
      }
      var d := SeeDraw(c, min, max, draws[index].numbers, index, index >= from);
      var next := index + 1;
      forall v | min <= v <= max ensures Right(d, v, draws, next, from) {
        assert Right(c, v, draws, index, from) && SawDraw(c, d, v, draws[index].numbers, index, index >= from);
        StepIsRight(c, d, v, draws, index, from);
      }
      c := d;
    }
  }

  // ----- the statistics -----

  /** What the statistics of a number must say about the history. */
  ghost predicate Describes(s: NumberStat, draws: seq<HistoricalDraw>, from: nat)
    requires from <= |draws|
  {
    && s.count == Occurrences(draws, s.number, 0, |draws|)
    && s.recent == Occurrences(draws, s.number, from, |draws|)
    && 0 <= s.delay <= |draws|
    && Absent(draws, s.number, |draws| - s.delay, |draws|)
    && (s.delay < |draws| ==> s.number in draws[|draws| - s.delay - 1].numbers && s.lastContest == Some(draws[|draws| - s.delay - 1].contest))
    && (s.delay == |draws| ==> s.lastContest == None)
    && LongestAbsence(draws, s.number, |draws|, s.maxDelay)
  }

  /** The recent draws are the last `window`, at least five of them, or all when there are fewer. */
  function RecentFrom(n: nat, window: int): (from: nat)
    ensures from <= n
    ensures n - from == if n <= 5 || window >= n then n else if window <= 5 then 5 else window
  {
    var w := Max(5, if window < Max(n, 5) then window else Max(n, 5));
    if w >= n then 0 else n - w
  }

  /** The statistics of one number, read off its counters. */
  function StatOf(c: Counters, v: int, draws: seq<HistoricalDraw>): NumberStat
    requires v in c.counts && v in c.gaps && v in c.recent && -1 <= Previous(c, v) < |draws|
  {
    var last := Previous(c, v);
    var delay := |draws| - 1 - last;
    NumberStat(v, c.counts[v], c.recent[v], delay, if last == -1 then None else Some(draws[last].contest), Max(c.gaps[v], delay))
  }

  lemma StatDescribes(c: Counters, v: int, draws: seq<HistoricalDraw>, from: nat)
    requires from <= |draws| && Right(c, v, draws, |draws|, from)
    ensures -1 <= Previous(c, v) < |draws| && Describes(StatOf(c, v, draws), draws, from)
  {
    LongestSplit(draws, v, Previous(c, v) + 1, |draws|, c.gaps[v]);
    RecentAtEnd(draws, v, from);
    hide LongestAbsence;
  }

  method ComputeStats(raw: seq<HistoricalDraw>, min: int, max: int, window: int) returns (stats: seq<NumberStat>, draws: seq<HistoricalDraw>)
    ensures draws == Chronological(raw)
    ensures forall i, j :: 0 <= i < j < |draws| ==> draws[i].contest <= draws[j].contest
    ensures forall d :: multiset(draws)[d] == if d.numbers != [] then multiset(raw)[d] else 0
    ensures |stats| == if min <= max then max - min + 1 else 0
    ensures forall i :: 0 <= i < |stats| ==> stats[i].number == min + i && Describes(stats[i], draws, RecentFrom(|draws|, window))
  {
    draws := Sort(NotAfter, NonEmpty(raw));
    ChronologicalIsOldestFirst(raw);
    var n := |draws|;
    var from := RecentFrom(n, window);
    var c := Count(draws, min, max, from);
    hide Describes, Chronological, LongestAbsence, Occurrences;
    stats := [];
    var v := min;
    while v <= max
      invariant v == min + |stats| && (v <= max + 1 || stats == [])
      invariant forall i :: 0 <= i < |stats| ==> stats[i].number == min + i && Describes(stats[i], draws, from)
    {
      assert Right(c, v, draws, n, from);
      StatDescribes(c, v, draws, from);
      stats := stats + [StatOf(c, v, draws)];
      v := v + 1;
    }
  }

  lemma RecentAtEnd(draws: seq<HistoricalDraw>, v: int, from: nat)
    requires from <= |draws|
    ensures (if |draws| <= from then 0 else Occurrences(draws, v, from, |draws|)) == Occurrences(draws, v, from, |draws|)
  {
  }

  // ----- counting draws -----

  /** Draws among from..to that have `v`. */
  function Containing(draws: seq<HistoricalDraw>, v: int, from: nat, to: nat): nat
    requires from <= to <= |draws|
  {
    if from == to then 0 else Containing(draws, v, from, to - 1) + if v in draws[to - 1].numbers then 1 else 0
  }

  /** The count is the number of draws containing v exactly when no draw repeats v; with repetitions it is larger. */
  lemma {:induction false} CountIsDrawsContaining(draws: seq<HistoricalDraw>, v: int, from: nat, to: nat)
    requires from <= to <= |draws|
    ensures Occurrences(draws, v, from, to) >= Containing(draws, v, from, to)
    ensures Occurrences(draws, v, from, to) == Containing(draws, v, from, to)
       <==> forall i :: from <= i < to ==> multiset(draws[i].numbers)[v] <= 1
  {
    if from < to {
      CountIsDrawsContaining(draws, v, from, to - 1);
      MultisetMember(draws[to - 1].numbers, v);
    }
  }

  /** Every absence ends or is still running: a number never drawn has been absent, at its longest, for the whole history. */
  lemma NeverDrawn(s: NumberStat, draws: seq<HistoricalDraw>, from: nat)
    requires from <= |draws| && Describes(s, draws, from)
    ensures s.maxDelay >= s.delay
    ensures s.delay == |draws| <==> Absent(draws, s.number, 0, |draws|)
    ensures s.maxDelay == |draws| <==> Absent(draws, s.number, 0, |draws|)
  {
    var n := |draws|;
    assert 0 <= n - s.delay <= n && Absent(draws, s.number, n - s.delay, n);
    if Absent(draws, s.number, 0, n) {
      assert 0 <= 0 <= n <= n && Absent(draws, s.number, 0, n);
    }
    if s.maxDelay == n {
      var a, b :| 0 <= a <= b <= n && b - a == n && Absent(draws, s.number, a, b);
      assert a == 0 && b == n;
    }
  }

  /** With distinct contest numbers, the history may arrive in any order. */
  lemma HistoryOrderIrrelevant(a: seq<HistoricalDraw>, b: seq<HistoricalDraw>)
    requires multiset(NonEmpty(a)) == multiset(NonEmpty(b))
    requires forall x, y :: x in NonEmpty(a) && y in NonEmpty(a) && x.contest == y.contest ==> x == y
    ensures Chronological(a) == Chronological(b)
  {
    SortPermutation(NotAfter, NonEmpty(a), NonEmpty(b));
  }
}
