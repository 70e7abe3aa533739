/**
  Completing the history of results (apps/worker/src/history.ts), one modality: the newest missing contests are
  fetched first, at most `batch` per cycle, and a cycle gives up at the third failure in a row.
 */
module Backfill {
  import opened Arithmetic
  import Sets
  import opened Sorting
  import opened Wrappers

  datatype Rule = Rule(min: int, max: int, draw: int, secondDraw: bool)
  datatype Draw = Draw(numbers: seq<int>, second: seq<int>)

  /** A reply of the source; negative entries stand for texts that are not numbers of a game. */
  datatype Reply = Unreachable | Answer(number: int, dated: bool, listed: seq<int>, drawOrder: seq<int>, second: seq<int>)

  function NonNegative(s: seq<int>): seq<int> {
    if s == [] then [] else (if s[0] >= 0 then [s[0]] else []) + NonNegative(s[1..])
  }

  function ToDezenas(s: seq<int>): seq<int> {
    Sort(AtMost, NonNegative(s))
  }

  predicate InUniverse(rule: Rule, s: seq<int>) {
    |s| == rule.draw && Distinct(s) && forall i :: 0 <= i < |s| ==> rule.min <= s[i] <= rule.max
  }

  function ParseHistoricalDraw(rule: Rule, reply: Reply, contest: int): Option<Draw> {
    if reply.Unreachable? || reply.number == 0 || reply.number != contest || !reply.dated then None
    else
      var numbers := ToDezenas(if reply.listed != [] then reply.listed else reply.drawOrder);
      var second := if rule.secondDraw then ToDezenas(reply.second) else [];
      if !InUniverse(rule, numbers) || (rule.secondDraw && second != [] && !InUniverse(rule, second)) then None
      else Some(Draw(numbers, second))
  }

  /** A row fit for the statistics: exactly `draw` distinct numbers of the universe, in increasing order. */
  ghost predicate GoodDraw(rule: Rule, d: Draw) {
    && InUniverse(rule, d.numbers) && (forall i, j :: 0 <= i < j < |d.numbers| ==> d.numbers[i] < d.numbers[j])
    && (d.second != [] ==> rule.secondDraw && InUniverse(rule, d.second) && forall i, j :: 0 <= i < j < |d.second| ==> d.second[i] < d.second[j])
  }

  lemma Increasing(s: seq<int>)
    requires Distinct(ToDezenas(s))
    ensures forall i, j :: 0 <= i < j < |ToDezenas(s)| ==> ToDezenas(s)[i] < ToDezenas(s)[j]
  {
    SortSorted(AtMost, NonNegative(s));
    var r := ToDezenas(s);
    forall i, j | 0 <= i < j < |r| ensures r[i] < r[j] { assert AtMost(r[i], r[j]); }
  }

  /** Only a well-formed draw of the very contest asked for is accepted. */
  lemma ParsedDrawIsGood(rule: Rule, reply: Reply, contest: int)
    ensures ParseHistoricalDraw(rule, reply, contest).Some? ==>
      GoodDraw(rule, ParseHistoricalDraw(rule, reply, contest).value) && reply.number == contest
  {
    if ParseHistoricalDraw(rule, reply, contest).Some? {
      Increasing(if reply.listed != [] then reply.listed else reply.drawOrder);
      if rule.secondDraw && ToDezenas(reply.second) != [] { Increasing(reply.second); }
    }
  }

  lemma {:induction false} NonNegativeCounts(s: seq<int>, v: int)
    ensures multiset(NonNegative(s))[v] == if v >= 0 then multiset(s)[v] else 0
  {
    if s != [] {
      NonNegativeCounts(s[1..], v);
      assert s == [s[0]] + s[1..];
    }
  }

  /** The numbers of a list, leaving out what is not a number: `draw` different ones of the universe. */
  ghost predicate Fits(rule: Rule, s: seq<int>) {
    && |NonNegative(s)| == rule.draw
    && forall v :: v in s && v >= 0 ==> rule.min <= v <= rule.max && multiset(s)[v] == 1
  }

  /** The sorted list has the numbers of the original one, each as often. */
  lemma DezenasCount(s: seq<int>)
    ensures |ToDezenas(s)| == |NonNegative(s)|
    ensures forall v :: multiset(ToDezenas(s))[v] == if v >= 0 then multiset(s)[v] else 0
    ensures forall v :: v in ToDezenas(s) <==> v in s && v >= 0
  {
    forall v ensures multiset(ToDezenas(s))[v] == if v >= 0 then multiset(s)[v] else 0 { NonNegativeCounts(s, v); }
    forall v ensures v in ToDezenas(s) <==> v in s && v >= 0 {
      assert v in ToDezenas(s) <==> multiset(ToDezenas(s))[v] > 0;
      assert v in s <==> multiset(s)[v] > 0;
    }
  }

  lemma MembersInRange(rule: Rule, r: seq<int>)
    ensures (forall i :: 0 <= i < |r| ==> rule.min <= r[i] <= rule.max) <==> forall v :: v in r ==> rule.min <= v <= rule.max
  {
    if forall v :: v in r ==> rule.min <= v <= rule.max {
      forall i | 0 <= i < |r| ensures rule.min <= r[i] <= rule.max { assert r[i] in r; }
    }
  }

  lemma FitsExactly(rule: Rule, s: seq<int>)
    ensures InUniverse(rule, ToDezenas(s)) <==> Fits(rule, s)
  {
    var r := ToDezenas(s);
    DezenasCount(s);
    hide ToDezenas;
    DistinctCounts(r);
    hide Distinct;
    MembersInRange(rule, r);
    assert (forall v :: multiset(r)[v] <= 1) <==> forall v :: v in r ==> multiset(r)[v] == 1;
  }

  /** A list without any number. */
  ghost predicate NoNumbers(s: seq<int>) {
    forall v :: v in s ==> v < 0
  }

  lemma NoDezenas(s: seq<int>)
    ensures ToDezenas(s) == [] <==> NoNumbers(s)
  {
    DezenasCount(s);
    if ToDezenas(s) != [] {
      var v := ToDezenas(s)[0];
      assert v in ToDezenas(s);
      assert v in s && v >= 0;
    } else {
      assert forall v :: v !in ToDezenas(s);
    }
  }

  /** When a reply is accepted, and what is kept of it: the listed numbers, or else those in drawing order, sorted. */
  lemma ParsedExactly(rule: Rule, reply: Reply, contest: int)
    ensures var parsed := ParseHistoricalDraw(rule, reply, contest);
      && (parsed.Some? <==>
            && reply.Answer? && reply.number == contest && contest != 0 && reply.dated
            && Fits(rule, if reply.listed != [] then reply.listed else reply.drawOrder)
            && (rule.secondDraw ==> NoNumbers(reply.second) || Fits(rule, reply.second)))
      && (parsed.Some? ==> var s := if reply.listed != [] then reply.listed else reply.drawOrder;
            && (forall v :: multiset(parsed.value.numbers)[v] == if v >= 0 then multiset(s)[v] else 0)
            && (forall v :: multiset(parsed.value.second)[v] == if rule.secondDraw && v >= 0 then multiset(reply.second)[v] else 0))
  {
    hide InUniverse, Fits, NoNumbers;
    if reply.Answer? {
      var s := if reply.listed != [] then reply.listed else reply.drawOrder;
      FitsExactly(rule, s);
      FitsExactly(rule, reply.second);
      NoDezenas(reply.second);
      DezenasCount(s);
      DezenasCount(reply.second);
      hide ToDezenas;
    }
  }

  // ----- the window and what is missing in it -----

  ghost predicate IsNewest(results: map<int, Draw>, n: int) {
    n in results && forall k :: k in results ==> k <= n
  }

  function Oldest(newest: int, depth: int): int {
    if newest - depth + 1 < 1 then 1 else newest - depth + 1
  }

  /** The window is the last `depth` contests, or all from the first when there are fewer. */
  lemma WindowSize(newest: int, depth: int)
    requires newest >= 1 && depth >= 1
    ensures 1 <= Oldest(newest, depth) <= newest
    ensures newest - Oldest(newest, depth) + 1 == if depth <= newest then depth else newest
  {
  }

  /** Contests from `newest` down to `oldest` without a result, newest first. */
  function Missing(results: map<int, Draw>, newest: int, oldest: int): seq<int>
    decreases newest - oldest
  {
    if newest < oldest then []
    else (if newest !in results then [newest] else []) + Missing(results, newest - 1, oldest)
  }

  lemma LargestFirst(x: int, rest: seq<int>)
    requires forall n :: n in rest ==> n < x
    requires forall i, j :: 0 <= i < j < |rest| ==> rest[i] > rest[j]
    ensures var all := [x] + rest; forall i, j :: 0 <= i < j < |all| ==> all[i] > all[j]
  {
    var all := [x] + rest;
    forall i, j | 0 <= i < j < |all| ensures all[i] > all[j] {
      assert all[j] == rest[j - 1] && rest[j - 1] in rest;
      if i > 0 { assert all[i] == rest[i - 1]; }
    }
  }

  lemma {:induction false} MissingFacts(results: map<int, Draw>, newest: int, oldest: int)
    ensures forall n :: n in Missing(results, newest, oldest) <==> oldest <= n <= newest && n !in results
    ensures forall i, j :: 0 <= i < j < |Missing(results, newest, oldest)| ==> Missing(results, newest, oldest)[i] > Missing(results, newest, oldest)[j]
    decreases newest - oldest
  {
    if newest >= oldest {
      MissingFacts(results, newest - 1, oldest);
      var rest, all := Missing(results, newest - 1, oldest), Missing(results, newest, oldest);
      assert all == if newest !in results then [newest] + rest else rest;
      hide Missing;
      assert forall n :: n in all <==> n in rest || (n == newest && newest !in results);
      if newest !in results { LargestFirst(newest, rest); }
    }
  }

  /** Storing one missing contest makes the list one shorter. */
  lemma {:induction false} StoreOne(results: map<int, Draw>, newest: int, oldest: int, contest: int, d: Draw)
    requires oldest <= contest <= newest && contest !in results
    ensures |Missing(results[contest := d], newest, oldest)| == |Missing(results, newest, oldest)| - 1
    decreases newest - oldest
  {
    if newest == contest {
      SameBelow(results, results[contest := d], newest - 1, oldest);
    } else {
      StoreOne(results, newest - 1, oldest, contest, d);
    }
  }

  lemma {:induction false} SameBelow(a: map<int, Draw>, b: map<int, Draw>, newest: int, oldest: int)
    requires forall n :: oldest <= n <= newest ==> (n in a <==> n in b)
    ensures Missing(a, newest, oldest) == Missing(b, newest, oldest)
    decreases newest - oldest
  {
    if newest >= oldest { SameBelow(a, b, newest - 1, oldest); }
  }

  // ----- one cycle -----

  /** The network, the transaction and the parser, for one cycle. */
  datatype Env = Env(rule: Rule, fetch: int -> Reply, stores: int -> bool)

  function Outcome(env: Env, contest: int): Option<Draw> {
    if !env.stores(contest) then None else ParseHistoricalDraw(env.rule, env.fetch(contest), contest)
  }

  predicate Works(env: Env, contest: int) {
    Outcome(env, contest).Some?
  }

  /** A contest is stored exactly when its transaction goes through and its reply is accepted. */
  lemma WorksExactly(env: Env, contest: int)
    ensures Works(env, contest) <==> env.stores(contest) && ParseHistoricalDraw(env.rule, env.fetch(contest), contest).Some?
    ensures Works(env, contest) ==> Outcome(env, contest) == ParseHistoricalDraw(env.rule, env.fetch(contest), contest)
  {
  }

  datatype Progress = Progress(results: map<int, Draw>, fetched: nat, visited: nat)

  /** The loop over the contests to fetch, with the failures in a row so far. */
  function Cycle(env: Env, results: map<int, Draw>, todo: seq<int>, failures: nat): Progress
    decreases |todo|
  {
    if todo == [] then Progress(results, 0, 0)
    else if Works(env, todo[0]) then
      var rest := Cycle(env, results[todo[0] := Outcome(env, todo[0]).value], todo[1..], 0);
      Progress(rest.results, rest.fetched + 1, rest.visited + 1)
    else if failures + 1 >= 3 then Progress(results, 0, 1)
    else
      var rest := Cycle(env, results, todo[1..], failures + 1);
      rest.(visited := rest.visited + 1)
  }

  /** The first `batch` missing contests. */
  function Todo(results: map<int, Draw>, newest: int, depth: int, batch: nat): seq<int> {
    var missing := Missing(results, newest, Oldest(newest, depth));
    if |missing| <= batch then missing else missing[..batch]
  }

  /** `findFirst` ordered by contest number, largest first. */
  method FindNewest(results: map<int, Draw>) returns (r: Option<int>)
    ensures r.None? <==> results == map[]
    ensures r.Some? ==> IsNewest(results, r.value)
  {
    r := None;
    var todo := results.Keys;
    while todo != {}
      invariant todo <= results.Keys
      invariant r.None? ==> todo == results.Keys
      invariant r.Some? ==> r.value in results && forall k :: k in results && k !in todo ==> k <= r.value
      decreases |todo|
    {
      ghost var some := Sets.PickOne(todo);
      var k :| k in todo;
      todo := todo - {k};
      if r.None? || k > r.value { r := Some(k); }
    }
  }

  method ListMissing(results: map<int, Draw>, newest: int, oldest: int) returns (missing: seq<int>)
    ensures missing == Missing(results, newest, oldest)
  {
    hide Missing;
    missing := [];
    var n := newest;
    assert missing + Missing(results, n, oldest) == Missing(results, newest, oldest);
    while n >= oldest
      invariant n <= newest
      invariant missing + Missing(results, n, oldest) == Missing(results, newest, oldest)
      decreases n - oldest
    {
      MissingStep(results, n, oldest, missing);
      if n !in results { missing := missing + [n]; }
      n := n - 1;
    }
    MissingEnd(results, n, oldest, missing);
  }

  /** One contest of the list, with what was listed before it in front. */
  lemma MissingStep(results: map<int, Draw>, n: int, oldest: int, before: seq<int>)
    requires n >= oldest
    ensures before + Missing(results, n, oldest) == (if n !in results then before + [n] else before) + Missing(results, n - 1, oldest)
  {
  }

  lemma MissingEnd(results: map<int, Draw>, n: int, oldest: int, before: seq<int>)
    requires n < oldest
    ensures before + Missing(results, n, oldest) == before
  {
  }

  /** One cycle of one modality; `visited` counts the contests asked for. */
  method BackfillHistory(results0: map<int, Draw>, env: Env, depth: int, batch: int)
    returns (results: map<int, Draw>, fetched: nat, missing: nat, visited: nat)
    ensures depth <= 0 || batch <= 0 || results0 == map[] ==> results == results0 && fetched == 0 && missing == 0 && visited == 0
    ensures depth > 0 && batch > 0 && results0 != map[] ==>
      exists newest :: IsNewest(results0, newest)
        && missing == |Missing(results0, newest, Oldest(newest, depth))|
        && Progress(results, fetched, visited) == Cycle(env, results0, Todo(results0, newest, depth, batch), 0)
  {
    results, fetched, missing, visited := results0, 0, 0, 0;
    if depth <= 0 || batch <= 0 { return; }
    var latest := FindNewest(results0);
    if latest.None? { return; }
    var newest := latest.value;
    var list := ListMissing(results0, newest, Oldest(newest, depth));
    missing := |list|;
    var todo := if |list| <= batch then list else list[..batch];
    assert todo == Todo(results0, newest, depth, batch);
    results, fetched, visited := RunCycle(results0, env, todo);
  }

  /** What a cycle comes to, `fetched` and `visited` contests into it. */
  ghost function Ahead(fetched: nat, visited: nat, rest: Progress): Progress {
    Progress(rest.results, fetched + rest.fetched, visited + rest.visited)
  }

  /** One contest of the loop. */
  lemma CycleStep(env: Env, results: map<int, Draw>, todo: seq<int>, i: nat, failures: nat)
    requires i < |todo|
    ensures Cycle(env, results, todo[i..], failures)
      == if Works(env, todo[i]) then Ahead(1, 1, Cycle(env, results[todo[i] := Outcome(env, todo[i]).value], todo[i + 1..], 0))
         else if failures + 1 >= 3 then Progress(results, 0, 1)
         else Ahead(0, 1, Cycle(env, results, todo[i + 1..], failures + 1))
  {
    assert todo[i..][0] == todo[i] && todo[i..][1..] == todo[i + 1..];
  }

  lemma CycleEnd(env: Env, results: map<int, Draw>, todo: seq<int>, failures: nat)
    ensures Cycle(env, results, todo[|todo|..], failures) == Progress(results, 0, 0)
  {
  }

  method RunCycle(results0: map<int, Draw>, env: Env, todo: seq<int>) returns (results: map<int, Draw>, fetched: nat, visited: nat)
    ensures Progress(results, fetched, visited) == Cycle(env, results0, todo, 0)
  {
    hide Cycle, ParseHistoricalDraw;
    results, fetched, visited := results0, 0, 0;
    var failures := 0;
    assert todo[0..] == todo;
    ghost var whole := Cycle(env, results0, todo, 0);
    for i := 0 to |todo|
      invariant 0 <= failures < 3
      invariant whole == Ahead(fetched, visited, Cycle(env, results, todo[i..], failures))
    {
      CycleStep(env, results, todo, i, failures);
      var contest := todo[i];
      visited := visited + 1;
      var draw := Outcome(env, contest);
      if draw.None? {
        failures := failures + 1;
        if failures >= 3 { return; }
        continue;
      }
      results := results[contest := draw.value];
      fetched := fetched + 1;
      failures := 0;
    }
    CycleEnd(env, results, todo, failures);
  }

  // ----- what a cycle guarantees -----

  /** Which contests of the list can be stored. */
  function Working(env: Env, todo: seq<int>): (w: seq<bool>)
    ensures |w| == |todo| && forall i :: 0 <= i < |todo| ==> w[i] == Works(env, todo[i])
  {
    seq(|todo|, i requires 0 <= i < |todo| => Works(env, todo[i]))
  }

  /** Three failures in a row, the last of them just before `end`. */
  predicate ThreeFailures(works: seq<bool>, end: int) {
    3 <= end <= |works| && !works[end - 3] && !works[end - 2] && !works[end - 1]
  }

  /** Where the loop stops, by position only. */
  function Stop(works: seq<bool>, done: nat, failures: nat): (end: nat)
    requires done <= |works|
    ensures done <= end <= |works|
    decreases |works| - done
  {
    if done == |works| then done
    else if works[done] then Stop(works, done + 1, 0)
    else if failures + 1 >= 3 then done + 1
    else Stop(works, done + 1, failures + 1)
  }

  lemma {:induction false} VisitedIsStop(env: Env, results: map<int, Draw>, todo: seq<int>, done: nat, failures: nat)
    requires done <= |todo|
    ensures done + Cycle(env, results, todo[done..], failures).visited == Stop(Working(env, todo), done, failures)
    decreases |todo| - done
  {
    if done < |todo| {
      assert todo[done..][0] == todo[done] && todo[done..][1..] == todo[done + 1..];
      if Works(env, todo[done]) {
        VisitedIsStop(env, results[todo[done] := Outcome(env, todo[done]).value], todo, done + 1, 0);
      } else if failures + 1 < 3 {
        VisitedIsStop(env, results, todo, done + 1, failures + 1);
      }
    }
  }

  /** Exactly the last `failures` contests before `done` failed. */
  ghost predicate InARow(works: seq<bool>, done: int, failures: int) {
    && 0 <= failures <= 2 && failures <= done <= |works|
    && (failures >= 1 ==> !works[done - 1])
    && (failures >= 2 ==> !works[done - 2])
    && (done > failures ==> works[done - failures - 1])
  }

  lemma {:induction false} StopIsThirdFailure(works: seq<bool>, done: nat, failures: nat)
    requires InARow(works, done, failures)
    ensures var end := Stop(works, done, failures);
      && (end < |works| ==> ThreeFailures(works, end))
      && (forall e :: done < e < end ==> !ThreeFailures(works, e))
    decreases |works| - done
  {
    if done < |works| {
      if works[done] {
        StopIsThirdFailure(works, done + 1, 0);
      } else if failures < 2 {
        assert !ThreeFailures(works, done + 1);
        StopIsThirdFailure(works, done + 1, failures + 1);
      }
    }
  }

  /** A cycle visits everything it may, or stops exactly at the first contest that is the third failure in a row. */
  lemma CycleStopsAtThirdFailure(env: Env, results: map<int, Draw>, todo: seq<int>)
    ensures var v := Cycle(env, results, todo, 0).visited;
      && v <= |todo|
      && (v < |todo| ==> ThreeFailures(Working(env, todo), v))
      && (forall e :: e < v ==> !ThreeFailures(Working(env, todo), e))
  {
    hide Cycle, Stop, Works;
    assert todo[0..] == todo;
    VisitedIsStop(env, results, todo, 0, 0);
    StopIsThirdFailure(Working(env, todo), 0, 0);
  }

  ghost predicate AllMissing(results: map<int, Draw>, todo: seq<int>, newest: int, oldest: int) {
    && (forall i, j :: 0 <= i < j < |todo| ==> todo[i] != todo[j])
    && (forall i :: 0 <= i < |todo| ==> oldest <= todo[i] <= newest && todo[i] !in results)
  }

  /** Existing rows stay as they are; the new ones are good draws of `todo`. */
  ghost predicate Extended(rule: Rule, a: map<int, Draw>, b: map<int, Draw>, todo: seq<int>) {
    && (forall n :: n in a ==> n in b && b[n] == a[n])
    && (forall n :: n in b && n !in a ==> n in todo && GoodDraw(rule, b[n]))
  }

  lemma ExtendedByNothing(rule: Rule, a: map<int, Draw>, todo: seq<int>)
    ensures Extended(rule, a, a, todo)
  {
  }

  lemma ExtendedLater(rule: Rule, a: map<int, Draw>, b: map<int, Draw>, contest: int, rest: seq<int>)
    requires Extended(rule, a, b, rest)
    ensures Extended(rule, a, b, [contest] + rest)
  {
  }

  lemma ExtendedByOne(rule: Rule, a: map<int, Draw>, b: map<int, Draw>, contest: int, d: Draw, rest: seq<int>)
    requires GoodDraw(rule, d) && contest !in a && Extended(rule, a[contest := d], b, rest)
    ensures Extended(rule, a, b, [contest] + rest)
  {
    assert forall n :: n in [contest] + rest <==> n == contest || n in rest;
    assert forall n :: n in a ==> a[contest := d][n] == a[n];
  }

  lemma AllMissingRest(results: map<int, Draw>, todo: seq<int>, newest: int, oldest: int, d: Draw)
    requires AllMissing(results, todo, newest, oldest) && todo != []
    ensures AllMissing(results, todo[1..], newest, oldest) && AllMissing(results[todo[0] := d], todo[1..], newest, oldest)
    ensures oldest <= todo[0] <= newest && todo[0] !in results
  {
    var rest := todo[1..];
    assert forall i :: 0 <= i < |rest| ==> rest[i] == todo[i + 1];
  }

  /** The effect of a cycle: rows are only added, good and from the batch, and the missing set shrinks by exactly `fetched`. */
  lemma {:induction false} CycleEffect(env: Env, results: map<int, Draw>, todo: seq<int>, failures: nat, newest: int, oldest: int)
    requires AllMissing(results, todo, newest, oldest)
    ensures var p := Cycle(env, results, todo, failures);
      && Extended(env.rule, results, p.results, todo)
      && |Missing(p.results, newest, oldest)| == |Missing(results, newest, oldest)| - p.fetched
      && p.fetched <= p.visited <= |todo|
    decreases |todo|
  {
    hide Extended, AllMissing, GoodDraw, Missing, ParseHistoricalDraw;
    ExtendedByNothing(env.rule, results, todo);
    if todo != [] {
      var contest, rest := todo[0], todo[1..];
      assert todo == [contest] + rest;
      if Works(env, contest) {
        var d := Outcome(env, contest).value;
        AllMissingRest(results, todo, newest, oldest, d);
        ParsedDrawIsGood(env.rule, env.fetch(contest), contest);
        StoreOne(results, newest, oldest, contest, d);
        CycleEffect(env, results[contest := d], rest, 0, newest, oldest);
        ExtendedByOne(env.rule, results, Cycle(env, results[contest := d], rest, 0).results, contest, d, rest);
      } else if failures + 1 < 3 {
        AllMissingRest(results, todo, newest, oldest, Draw([], []));
        CycleEffect(env, results, rest, failures + 1, newest, oldest);
        ExtendedLater(env.rule, results, Cycle(env, results, rest, failures + 1).results, contest, rest);
      }
    }
  }

  lemma {:induction false} CycleAllWork(env: Env, results: map<int, Draw>, todo: seq<int>)
    requires forall i :: 0 <= i < |todo| ==> Works(env, todo[i])
    ensures Cycle(env, results, todo, 0).fetched == |todo|
    decreases |todo|
  {
    if todo != [] {
      CycleAllWork(env, results[todo[0] := Outcome(env, todo[0]).value], todo[1..]);
    }
  }

  lemma TodoIsMissing(results: map<int, Draw>, newest: int, depth: int, batch: nat)
    ensures AllMissing(results, Todo(results, newest, depth, batch), newest, Oldest(newest, depth))
  {
    var missing, todo := Missing(results, newest, Oldest(newest, depth)), Todo(results, newest, depth, batch);
    MissingFacts(results, newest, Oldest(newest, depth));
    forall i | 0 <= i < |todo| ensures Oldest(newest, depth) <= todo[i] <= newest && todo[i] !in results {
      assert todo[i] == missing[i] && missing[i] in missing;
    }
  }

  // ----- cycles in a row -----

  /** `cycles` cycles of the same modality, in the window below its newest result. */
  function Cycles(env: Env, results: map<int, Draw>, newest: int, depth: int, batch: nat, cycles: nat): map<int, Draw>
    decreases cycles
  {
    if cycles == 0 then results
    else Cycles(env, Cycle(env, results, Todo(results, newest, depth, batch), 0).results, newest, depth, batch, cycles - 1)
  }

  /** A cycle neither changes the newest result nor, therefore, the window. */
  lemma WindowStays(env: Env, results: map<int, Draw>, newest: int, depth: int, batch: nat)
    requires IsNewest(results, newest)
    ensures IsNewest(Cycle(env, results, Todo(results, newest, depth, batch), 0).results, newest)
  {
    var todo := Todo(results, newest, depth, batch);
    TodoIsMissing(results, newest, depth, batch);
    CycleEffect(env, results, todo, 0, newest, Oldest(newest, depth));
  }

  function MissingCount(results: map<int, Draw>, newest: int, depth: int): nat {
    |Missing(results, newest, Oldest(newest, depth))|
  }

  ghost predicate AllWork(env: Env, newest: int, depth: int) {
    forall n :: Oldest(newest, depth) <= n <= newest ==> Works(env, n)
  }

  /** If fetches succeed, a cycle completes a whole batch. */
  lemma OneCycle(env: Env, results: map<int, Draw>, newest: int, depth: int, batch: nat)
    requires AllWork(env, newest, depth)
    ensures MissingCount(Cycle(env, results, Todo(results, newest, depth, batch), 0).results, newest, depth)
         == Left(MissingCount(results, newest, depth), batch, 1)
  {
    var todo := Todo(results, newest, depth, batch);
    TodoIsMissing(results, newest, depth, batch);
    CycleEffect(env, results, todo, 0, newest, Oldest(newest, depth));
    CycleAllWork(env, results, todo);
  }

  function Left(m: int, batch: nat, cycles: nat): int {
    if cycles * batch >= m then 0 else m - cycles * batch
  }

  lemma NoneLeft(m: nat, batch: nat)
    ensures Left(m, batch, 0) == m
  {
    assert 0 * batch == 0;
  }

  lemma BatchStep(m: nat, batch: nat, cycles: nat)
    requires cycles > 0
    ensures Left(Left(m, batch, 1), batch, cycles - 1) == Left(m, batch, cycles)
  {
    MulMonotone(batch, 0, cycles - 1);
    assert cycles * batch == (cycles - 1) * batch + batch;
  }

  /** After `cycles` of them, that many batches are gone. */
  lemma {:induction false} CyclesComplete(env: Env, results: map<int, Draw>, newest: int, depth: int, batch: nat, cycles: nat)
    requires AllWork(env, newest, depth)
    ensures MissingCount(Cycles(env, results, newest, depth, batch, cycles), newest, depth)
         == Left(MissingCount(results, newest, depth), batch, cycles)
    decreases cycles
  {
    hide AllWork, MissingCount, Left, Cycle;
    if cycles == 0 {
      NoneLeft(MissingCount(results, newest, depth), batch);
    } else {
      var next := Cycle(env, results, Todo(results, newest, depth, batch), 0).results;
      OneCycle(env, results, newest, depth, batch);
      CyclesComplete(env, next, newest, depth, batch, cycles - 1);
      BatchStep(MissingCount(results, newest, depth), batch, cycles);
    }
  }

  lemma EnoughBatches(m: nat, batch: int, cycles: nat)
    requires batch > 0
    ensures cycles * batch >= m <==> cycles >= CeilDiv(m, batch)
  {
    CeilBracket(m, batch);
    var c := CeilDiv(m, batch);
    if cycles >= c {
      MulMonotone(batch, c, cycles);
    } else {
      MulMonotone(batch, cycles, c - 1);
    }
    assert cycles * batch == batch * cycles && batch * (c - 1) == batch * c - batch;
  }

  /** The window is complete after ceil(missing / batch) cycles, and not before. */
  lemma CompleteAfterCeil(env: Env, results: map<int, Draw>, newest: int, depth: int, batch: nat, cycles: nat)
    requires batch > 0 && AllWork(env, newest, depth)
    ensures MissingCount(Cycles(env, results, newest, depth, batch, cycles), newest, depth) == 0
       <==> cycles >= CeilDiv(MissingCount(results, newest, depth), batch)
  {
    CyclesComplete(env, results, newest, depth, batch, cycles);
    EnoughBatches(MissingCount(results, newest, depth), batch, cycles);
  }
}
