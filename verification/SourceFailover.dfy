/**
  Failover among result sources (packages/shared-types/src/caixa-client.ts). The network is an oracle that answers
  each try of each source; the clock is read once per question, as the source does.
 */
module SourceFailover {
  import opened Arithmetic
  import opened Wrappers

  datatype Response<P> = Answered(payload: P) | Failed(retryable: bool)
  datatype Attempt = Attempt(source: nat, try: nat, ok: bool) | Skipped(source: nat)
  datatype Health = Health(down: map<string, int>, ticks: nat)

  /** One call: the clock, the rest after a failure, the extra tries, the network, and whether health is remembered. */
  datatype Env<!P> = Env(clock: nat -> int, cooldown: int, retries: nat, fetch: (nat, nat) -> Response<P>, tracked: bool)

  datatype Outcome<P> = Outcome(attempts: seq<Attempt>, answer: Option<(nat, P)>, health: Health)

  function DownUntil(h: Health, base: string): int {
    if base in h.down then h.down[base] else 0
  }

  predicate Resting<P>(env: Env<P>, h: Health, base: string) {
    DownUntil(h, base) > env.clock(h.ticks)
  }

  /** A source that was never marked down, or was marked up again, does not rest. */
  lemma UnmarkedIsAwake<P>(env: Env<P>, h: Health, base: string)
    requires env.clock(h.ticks) >= 0
    ensures base !in h.down ==> !Resting(env, h, base)
    ensures !Resting(env, MarkUp(h, base), base)
  {
  }

  function Tick(h: Health): Health { h.(ticks := h.ticks + 1) }

  function MarkDown<P>(env: Env<P>, h: Health, base: string): Health {
    Health(h.down[base := env.clock(h.ticks) + env.cooldown], h.ticks + 1)
  }

  function MarkUp(h: Health, base: string): Health {
    h.(down := h.down - {base})
  }

  /** `sources.every(isDown)`, which stops asking at the first source that is not resting. */
  function EveryResting<P>(env: Env<P>, h: Health, bases: seq<string>): (bool, Health)
    decreases |bases|
  {
    if bases == [] then (true, h)
    else if !Resting(env, h, bases[0]) then (false, Tick(h))
    else EveryResting(env, Tick(h), bases[1..])
  }

  /** The tries of one source from try `k` on. */
  function Tries<P>(env: Env<P>, source: nat, k: nat): (seq<Attempt>, Option<P>)
    requires k <= env.retries
    decreases env.retries - k
  {
    match env.fetch(source, k)
    case Answered(p) => ([Attempt(source, k, true)], Some(p))
    case Failed(retryable) =>
      if !retryable || k == env.retries then ([Attempt(source, k, false)], None)
      else
        var (rest, answer) := Tries(env, source, k + 1);
        ([Attempt(source, k, false)] + rest, answer)
  }

  /** The loop over the sources from the `i`-th on. */
  function Visit<P>(env: Env<P>, h: Health, bases: seq<string>, i: nat, tryAll: bool): Outcome<P>
    requires i <= |bases|
    decreases |bases| - i
  {
    if i == |bases| then Outcome([], None, h)
    else if !tryAll && Resting(env, h, bases[i]) then
      var rest := Visit(env, Tick(h), bases, i + 1, tryAll);
      rest.(attempts := [Skipped(i)] + rest.attempts)
    else
      var asked := if tryAll then h else Tick(h);
      var (tries, answer) := Tries(env, i, 0);
      if answer.Some? then
        Outcome(tries, Some((i, answer.value)), if env.tracked then MarkUp(asked, bases[i]) else asked)
      else
        var rest := Visit(env, if env.tracked then MarkDown(env, asked, bases[i]) else asked, bases, i + 1, tryAll);
        rest.(attempts := tries + rest.attempts)
  }

  /** The whole call: without health, or when every source is resting, all of them are tried. */
  function Fetch<P>(env: Env<P>, h: Health, bases: seq<string>): Outcome<P> {
    if !env.tracked then Visit(env, h, bases, 0, true)
    else
      var (allDown, asked) := EveryResting(env, h, bases);
      Visit(env, asked, bases, 0, allDown)
  }

  // ----- the class that remembers failures, and the call that uses it -----

  class CaixaSourceHealth {
    var downUntil: map<string, int>
    var ticks: nat
    const cooldown: int
    const clock: nat -> int

    constructor (cooldown: int, clock: nat -> int)
      ensures this.cooldown == cooldown && this.clock == clock && State() == Health(map[], 0)
    {
      this.cooldown, this.clock := cooldown, clock;
      downUntil, ticks := map[], 0;
    }

    function State(): Health
      reads this
    {
      Health(downUntil, ticks)
    }

    method Now() returns (now: int)
      modifies this`ticks
      ensures now == clock(old(ticks)) && ticks == old(ticks) + 1
    {
      now := clock(ticks);
      ticks := ticks + 1;
    }

    method IsDown(base: string) returns (r: bool)
      modifies this
      ensures r <==> DownUntil(old(State()), base) > clock(old(ticks))
      ensures State() == Tick(old(State()))
    {
      var until := if base in downUntil then downUntil[base] else 0;
      var now := Now();
      r := until > now;
    }

    method MarkSourceDown(base: string)
      modifies this
      ensures State() == Health(old(downUntil)[base := clock(old(ticks)) + cooldown], old(ticks) + 1)
    {
      var now := Now();
      downUntil := downUntil[base := now + cooldown];
    }

    method MarkSourceUp(base: string)
      modifies this
      ensures State() == MarkUp(old(State()), base)
    {
      downUntil := downUntil - {base};
    }
  }

  /** One try, with what was attempted before it in front. */
  lemma TriesStep<P>(env: Env<P>, source: nat, k: nat, before: seq<Attempt>)
    requires k <= env.retries
    ensures var r := env.fetch(source, k);
            var now := before + [Attempt(source, k, r.Answered?)];
      before + Tries(env, source, k).0
        == (if r.Answered? || !r.retryable || k == env.retries then now else now + Tries(env, source, k + 1).0)
    ensures Tries(env, source, k).1
        == match env.fetch(source, k) {
             case Answered(p) => Some(p)
             case Failed(retryable) => if !retryable || k == env.retries then None else Tries(env, source, k + 1).1
           }
  {
  }

  /** The tries of one source: stops at an answer, at a failure not worth repeating, or when tries run out. */
  method TrySource<P>(env: Env<P>, source: nat) returns (attempts: seq<Attempt>, answer: Option<P>)
    ensures (attempts, answer) == Tries(env, source, 0)
  {
    hide Tries;
    attempts, answer := [], None;
    assert attempts + Tries(env, source, 0).0 == Tries(env, source, 0).0;
    var k := 0;
    while k <= env.retries
      invariant k <= env.retries && answer.None?
      invariant attempts + Tries(env, source, k).0 == Tries(env, source, 0).0
      invariant Tries(env, source, k).1 == Tries(env, source, 0).1
      decreases env.retries - k
    {
      TriesStep(env, source, k, attempts);
      var response := env.fetch(source, k);
      attempts := attempts + [Attempt(source, k, response.Answered?)];
      if response.Answered? { return attempts, Some(response.payload); }
      if !response.retryable || k == env.retries { return; }
      k := k + 1;
    }
  }

  method AllResting<P>(env: Env<P>, health: CaixaSourceHealth, bases: seq<string>) returns (allDown: bool)
    requires env.clock == health.clock
    modifies health
    ensures (allDown, health.State()) == EveryResting(env, old(health.State()), bases)
  {
    allDown := true;
    for i := 0 to |bases|
      invariant EveryResting(env, health.State(), bases[i..]) == EveryResting(env, old(health.State()), bases)
    {
      assert bases[i..][1..] == bases[i + 1..];
      var down := health.IsDown(bases[i]);
      if !down { return false; }
    }
  }

  /** What an optional health object remembers; without one, nothing. */
  function StateOf(health: CaixaSourceHealth?): Health
    reads if health == null then {} else {health}
  {
    if health == null then Health(map[], 0) else health.State()
  }

  /** The whole call, with or without a health object. */
  method FetchCaixaContest<P>(env: Env<P>, health: CaixaSourceHealth?, bases: seq<string>) returns (attempts: seq<Attempt>, answer: Option<(nat, P)>)
    requires env.tracked <==> health != null
    requires health != null ==> env.clock == health.clock && env.cooldown == health.cooldown
    modifies if health == null then {} else {health}
    ensures Outcome(attempts, answer, StateOf(health)) == Fetch(env, old(StateOf(health)), bases)
  {
    hide Visit, Tries, EveryResting;
    attempts, answer := [], None;
    var allDown := true;
    if health != null { allDown := AllResting(env, health, bases); }
    ghost var whole := Visit(env, StateOf(health), bases, 0, allDown);
    assert [] + whole.attempts == whole.attempts;
    for i := 0 to |bases|
      invariant answer.None?
      invariant whole == Prefixed(attempts, Visit(env, StateOf(health), bases, i, allDown))
    {
      VisitStep(env, StateOf(health), bases, i, allDown, attempts);
      var skip := false;
      if health != null && !allDown { skip := health.IsDown(bases[i]); }
      if skip {
        attempts := attempts + [Skipped(i)];
      } else {
        var tries, payload := TrySource(env, i);
        attempts := attempts + tries;
        if payload.Some? {
          if health != null { health.MarkSourceUp(bases[i]); }
          return attempts, Some((i, payload.value));
        }
        if health != null { health.MarkSourceDown(bases[i]); }
      }
    }
    VisitEnd(env, StateOf(health), bases, allDown, attempts);
  }

  lemma VisitEnd<P>(env: Env<P>, h: Health, bases: seq<string>, tryAll: bool, before: seq<Attempt>)
    ensures Prefixed(before, Visit(env, h, bases, |bases|, tryAll)) == Outcome(before, None, h)
  {
    assert before + [] == before;
  }

  ghost function Prefixed<P>(attempts: seq<Attempt>, o: Outcome<P>): Outcome<P> {
    o.(attempts := attempts + o.attempts)
  }

  /** One source of the loop, with what was attempted before it in front. */
  lemma VisitStep<P>(env: Env<P>, h: Health, bases: seq<string>, i: nat, tryAll: bool, before: seq<Attempt>)
    requires i < |bases|
    ensures var now := Prefixed(before, Visit(env, h, bases, i, tryAll));
            var asked := if tryAll then h else Tick(h);
            var (tries, answer) := Tries(env, i, 0);
      if !tryAll && Resting(env, h, bases[i]) then
        now == Prefixed(before + [Skipped(i)], Visit(env, asked, bases, i + 1, tryAll))
      else if answer.Some? then
        now == Outcome(before + tries, Some((i, answer.value)), if env.tracked then MarkUp(asked, bases[i]) else asked)
      else
        now == Prefixed(before + tries, Visit(env, if env.tracked then MarkDown(env, asked, bases[i]) else asked, bases, i + 1, tryAll))
  {
    var asked := if tryAll then h else Tick(h);
    var next := if env.tracked then MarkDown(env, asked, bases[i]) else asked;
    var skipped, failed := Visit(env, asked, bases, i + 1, tryAll), Visit(env, next, bases, i + 1, tryAll);
    assert before + ([Skipped(i)] + skipped.attempts) == before + [Skipped(i)] + skipped.attempts;
    assert before + (Tries(env, i, 0).0 + failed.attempts) == before + Tries(env, i, 0).0 + failed.attempts;
  }

  // ----- how many attempts -----

  /** Attempts that were made, not skipped. */
  function Real(attempts: seq<Attempt>): nat {
    if attempts == [] then 0 else (if attempts[0].Attempt? then 1 else 0) + Real(attempts[1..])
  }

  lemma {:induction false} RealConcat(a: seq<Attempt>, b: seq<Attempt>)
    ensures Real(a + b) == Real(a) + Real(b)
  {
    if a == [] {
      assert a + b == b;
    } else {
      assert (a + b)[1..] == a[1..] + b;
      RealConcat(a[1..], b);
    }
  }

  /** Does a source answer within its tries? Only failures worth repeating are repeated. */
  predicate Answers<P>(env: Env<P>, source: nat, k: nat)
    requires k <= env.retries
    decreases env.retries - k
  {
    var r := env.fetch(source, k);
    r.Answered? || (r.retryable && k < env.retries && Answers(env, source, k + 1))
  }

  lemma {:induction false} TriesFacts<P>(env: Env<P>, source: nat, k: nat)
    requires k <= env.retries
    ensures 1 <= Real(Tries(env, source, k).0) <= env.retries + 1 - k
    ensures Tries(env, source, k).1.Some? <==> Answers(env, source, k)
    ensures forall a :: a in Tries(env, source, k).0 ==> a.Attempt? && a.source == source
    decreases env.retries - k
  {
    if env.fetch(source, k).Failed? && env.fetch(source, k).retryable && k < env.retries {
      TriesFacts(env, source, k + 1);
      RealConcat([Attempt(source, k, false)], Tries(env, source, k + 1).0);
    }
    assert forall x: Attempt :: [x][1..] == [];
  }

  /** One source costs at most retries + 1 real attempts more than the sources after it. */
  lemma VisitCost<P>(env: Env<P>, h: Health, bases: seq<string>, i: nat, tryAll: bool) returns (next: Health)
    requires i < |bases|
    ensures Real(Visit(env, h, bases, i, tryAll).attempts) <= env.retries + 1 + Real(Visit(env, next, bases, i + 1, tryAll).attempts)
  {
    var asked := if tryAll then h else Tick(h);
    if !tryAll && Resting(env, h, bases[i]) {
      next := asked;
    } else {
      TriesFacts(env, i, 0);
      next := if env.tracked then MarkDown(env, asked, bases[i]) else asked;
      RealConcat(Tries(env, i, 0).0, Visit(env, next, bases, i + 1, tryAll).attempts);
    }
  }

  lemma {:induction false} VisitBound<P>(env: Env<P>, h: Health, bases: seq<string>, i: nat, tryAll: bool)
    requires i <= |bases|
    ensures Real(Visit(env, h, bases, i, tryAll).attempts) <= (env.retries + 1) * (|bases| - i)
    decreases |bases| - i
  {
    if i < |bases| {
      var next := VisitCost(env, h, bases, i, tryAll);
      hide Visit, Real;
      VisitBound(env, next, bases, i + 1, tryAll);
      MulSum(env.retries + 1, |bases| - (i + 1), 1);
    }
  }

  /** At most sources * (retries + 1) real attempts. */
  lemma AttemptsBounded<P>(env: Env<P>, h: Health, bases: seq<string>)
    ensures Real(Fetch(env, h, bases).attempts) <= (env.retries + 1) * |bases|
  {
    if env.tracked {
      VisitBound(env, EveryResting(env, h, bases).1, bases, 0, EveryResting(env, h, bases).0);
    } else {
      VisitBound(env, h, bases, 0, true);
    }
  }

  ghost predicate Monotone(clock: nat -> int) {
    forall a, b :: a <= b ==> clock(a) <= clock(b)
  }

  /** If not every source is resting, one of them was seen awake at some reading of the clock. */
  lemma {:induction false} SomeAwake<P>(env: Env<P>, h: Health, bases: seq<string>) returns (k: nat, tick: nat)
    requires !EveryResting(env, h, bases).0
    ensures k < |bases| && h.ticks <= tick < EveryResting(env, h, bases).1.ticks
    ensures DownUntil(h, bases[k]) <= env.clock(tick)
    ensures EveryResting(env, h, bases).1.down == h.down
    decreases |bases|
  {
    if !Resting(env, h, bases[0]) {
      k, tick := 0, h.ticks;
    } else {
      var j, t := SomeAwake(env, Tick(h), bases[1..]);
      k, tick := j + 1, t;
    }
  }

  /** Source `j` is resting at its own reading of the clock, when one reading is taken per source from `i` on. */
  predicate RestsInTurn<P>(env: Env<P>, h: Health, bases: seq<string>, i: nat, j: nat)
    requires i <= j < |bases|
  {
    DownUntil(h, bases[j]) > env.clock(h.ticks + (j - i))
  }

  lemma {:induction false} FirstLook<P>(env: Env<P>, h: Health, bases: seq<string>)
    ensures EveryResting(env, h, bases).0 <==> forall j :: 0 <= j < |bases| ==> RestsInTurn(env, h, bases, 0, j)
    decreases |bases|
  {
    if bases != [] {
      assert Resting(env, h, bases[0]) <==> RestsInTurn(env, h, bases, 0, 0);
      var later := bases[1..];
      FirstLook(env, Tick(h), later);
      forall j: nat | j < |later| ensures RestsInTurn(env, Tick(h), later, 0, j) <==> RestsInTurn(env, h, bases, 0, j + 1) {}
      forall j | 0 < j < |bases| ensures RestsInTurn(env, h, bases, 0, j) <==> RestsInTurn(env, Tick(h), later, 0, j - 1) {}
    }
  }

  /** The loop makes no real attempt exactly when every source rests at its own reading. */
  lemma {:induction false} NoAttemptExactly<P>(env: Env<P>, h: Health, bases: seq<string>, i: nat)
    requires i <= |bases|
    ensures Real(Visit(env, h, bases, i, false).attempts) == 0 <==> forall j :: i <= j < |bases| ==> RestsInTurn(env, h, bases, i, j)
    decreases |bases| - i
  {
    if i < |bases| {
      assert Resting(env, h, bases[i]) <==> RestsInTurn(env, h, bases, i, i);
      if Resting(env, h, bases[i]) {
        var next := i + 1;
        NoAttemptExactly(env, Tick(h), bases, next);
        var later := Visit(env, Tick(h), bases, next, false).attempts;
        assert ([Skipped(i)] + later)[1..] == later;
        assert Real(Visit(env, h, bases, i, false).attempts) == Real(later);
        forall j | next <= j < |bases| ensures RestsInTurn(env, Tick(h), bases, next, j) <==> RestsInTurn(env, h, bases, i, j) {}
      } else {
        TriesFacts(env, i, 0);
        RealConcat(Tries(env, i, 0).0, Visit(env, if env.tracked then MarkDown(env, Tick(h), bases[i]) else Tick(h), bases, i + 1, false).attempts);
      }
    }
  }

  /**
    The exact condition for a real attempt, whatever the clock does: health is not remembered, or the first look finds
    every source resting, or the second look finds some source awake.
   */
  lemma AttemptExactly<P>(env: Env<P>, h: Health, bases: seq<string>)
    requires bases != []
    ensures var (allDown, asked) := EveryResting(env, h, bases);
      Real(Fetch(env, h, bases).attempts) >= 1 <==>
        !env.tracked || allDown || exists j :: 0 <= j < |bases| && !RestsInTurn(env, asked, bases, 0, j)
  {
    var (allDown, asked) := EveryResting(env, h, bases);
    if env.tracked && !allDown {
      NoAttemptExactly(env, asked, bases, 0);
    } else {
      var start := if env.tracked then asked else h;
      TriesFacts(env, 0, 0);
      RealConcat(Tries(env, 0, 0).0, Visit(env, if env.tracked then MarkDown(env, start, bases[0]) else start, bases, 1, true).attempts);
    }
  }

  /** So with a clock that never goes back, a call with sources makes at least one real attempt. */
  lemma AtLeastOneAttempt<P>(env: Env<P>, h: Health, bases: seq<string>)
    requires Monotone(env.clock) && bases != []
    ensures Real(Fetch(env, h, bases).attempts) >= 1
  {
    AttemptExactly(env, h, bases);
    var (allDown, asked) := EveryResting(env, h, bases);
    if env.tracked && !allDown {
      var k, tick := SomeAwake(env, h, bases);
      assert env.clock(tick) <= env.clock(asked.ticks + k);
      assert !RestsInTurn(env, asked, bases, 0, k);
    }
  }

  /** The condition can fail: if the clock steps back between two readings, a lone source is seen awake and then skipped. */
  lemma SteppingClockCanSkipAll()
    ensures var env := Env(t => if t == 0 then 10 else 0, 5, 0, (s: nat, k: nat) => Answered(1), true);
      Fetch(env, Health(map["caixa" := 7], 0), ["caixa"]).attempts == [Skipped(0)]
  {
    var env := Env(t => if t == 0 then 10 else 0, 5, 0, (s: nat, k: nat) => Answered(1), true);
    var h := Health(map["caixa" := 7], 0);
    assert EveryResting(env, h, ["caixa"]) == (false, Tick(h));
    assert Visit(env, Tick(Tick(h)), ["caixa"], 1, false) == Outcome([], None, Tick(Tick(h)));
  }

  // ----- who answers and who rests afterwards -----

  predicate WasSkipped(attempts: seq<Attempt>, source: nat) {
    Skipped(source) in attempts
  }

  ghost predicate Succeeded<P>(env: Env<P>, o: Outcome<P>, bases: seq<string>, source: nat)
    requires o.answer.Some?
  {
    && source < |bases| && Answers(env, source, 0) && Tries(env, source, 0).1 == Some(o.answer.value.1)
    && !WasSkipped(o.attempts, source) && (env.tracked ==> bases[source] !in o.health.down)
  }

  /** The sources before the answer either rested or failed all their tries; the failed ones are marked to rest. */
  ghost predicate Explains<P>(env: Env<P>, o: Outcome<P>, bases: seq<string>, from: nat, ticks: nat) {
    var end := if o.answer.Some? then o.answer.value.0 else |bases|;
    && from <= end
    && (o.answer.Some? ==> Succeeded(env, o, bases, end))
    && (forall j :: from <= j < end && !WasSkipped(o.attempts, j) ==> !Answers(env, j, 0))
    && (env.tracked ==> forall j :: from <= j < end && !WasSkipped(o.attempts, j) && (o.answer.Some? ==> bases[j] != bases[end]) ==>
          RestsSince(env, o.health, bases[j], ticks))
    && (forall a :: a in o.attempts ==> from <= a.source <= end && a.source < |bases|)
  }

  /** Marked down at a reading of the clock made during the call. */
  ghost predicate RestsSince<P>(env: Env<P>, h: Health, base: string, ticks: nat) {
    base in h.down && exists t :: ticks <= t < h.ticks && h.down[base] == env.clock(t) + env.cooldown
  }

  /** A mark made before source `i` survives the rest of the loop, unless renewed or cleared by a success of the same base. */
  lemma {:induction false} MarksSurvive<P>(env: Env<P>, h: Health, bases: seq<string>, i: nat, tryAll: bool, base: string, ticks: nat)
    requires i <= |bases| && env.tracked && RestsSince(env, h, base, ticks)
    ensures var o := Visit(env, h, bases, i, tryAll);
      h.ticks <= o.health.ticks && ((o.answer.Some? ==> o.answer.value.0 < |bases| && bases[o.answer.value.0] != base) ==> RestsSince(env, o.health, base, ticks))
    decreases |bases| - i
  {
    hide Tries;
    var since :| ticks <= since < h.ticks && h.down[base] == env.clock(since) + env.cooldown;
    if i < |bases| {
      if !tryAll && Resting(env, h, bases[i]) {
        assert RestsSince(env, Tick(h), base, ticks);
        MarksSurvive(env, Tick(h), bases, i + 1, tryAll, base, ticks);
      } else {
        var asked := if tryAll then h else Tick(h);
        if Tries(env, i, 0).1.None? {
          var next := MarkDown(env, asked, bases[i]);
          if bases[i] == base {
            assert next.down[base] == env.clock(asked.ticks) + env.cooldown;
          }
          assert RestsSince(env, next, base, ticks);
          MarksSurvive(env, next, bases, i + 1, tryAll, base, ticks);
        }
      }
    }
  }

  /** An explanation from source `i + 1` on, with what happened to source `i` put in front. */
  lemma ExtendExplanation<P>(env: Env<P>, rest: Outcome<P>, prefix: seq<Attempt>, bases: seq<string>, i: nat, ticks: nat)
    requires i < |bases| && Explains(env, rest, bases, i + 1, ticks)
    requires prefix == [Skipped(i)] || (!Answers(env, i, 0) && forall a :: a in prefix ==> a.Attempt? && a.source == i)
    requires prefix != [Skipped(i)] && env.tracked && (rest.answer.Some? ==> bases[i] != bases[rest.answer.value.0]) ==> RestsSince(env, rest.health, bases[i], ticks)
    ensures Explains(env, rest.(attempts := prefix + rest.attempts), bases, i, ticks)
  {
    var o := rest.(attempts := prefix + rest.attempts);
    forall j: nat ensures WasSkipped(o.attempts, j) <==> WasSkipped(rest.attempts, j) || (j == i && prefix == [Skipped(i)]) {
      assert Skipped(j) in o.attempts <==> Skipped(j) in prefix || Skipped(j) in rest.attempts;
    }
  }

  lemma ExplainAnswer<P>(env: Env<P>, h: Health, bases: seq<string>, i: nat, tryAll: bool, ticks: nat)
    requires i < |bases| && (tryAll || !Resting(env, h, bases[i])) && Tries(env, i, 0).1.Some?
    ensures Explains(env, Visit(env, h, bases, i, tryAll), bases, i, ticks)
  {
    TriesFacts(env, i, 0);
    hide Tries;
  }

  lemma {:induction false} VisitExplained<P>(env: Env<P>, h: Health, bases: seq<string>, i: nat, tryAll: bool, ticks: nat)
    requires i <= |bases| && ticks <= h.ticks
    ensures Explains(env, Visit(env, h, bases, i, tryAll), bases, i, ticks)
    decreases |bases| - i
  {
    if i == |bases| {
    } else if !tryAll && Resting(env, h, bases[i]) {
      VisitExplained(env, Tick(h), bases, i + 1, tryAll, ticks);
      ExtendExplanation(env, Visit(env, Tick(h), bases, i + 1, tryAll), [Skipped(i)], bases, i, ticks);
    } else if Tries(env, i, 0).1.Some? {
      ExplainAnswer(env, h, bases, i, tryAll, ticks);
    } else {
      var asked := if tryAll then h else Tick(h);
      var next := if env.tracked then MarkDown(env, asked, bases[i]) else asked;
      TriesFacts(env, i, 0);
      VisitExplained(env, next, bases, i + 1, tryAll, ticks);
      ExplainFailure(env, asked, bases, i, tryAll, ticks);
    }
  }

  lemma ExplainFailure<P>(env: Env<P>, asked: Health, bases: seq<string>, i: nat, tryAll: bool, ticks: nat)
    requires i < |bases| && ticks <= asked.ticks && Tries(env, i, 0).1.None?
    requires var next := if env.tracked then MarkDown(env, asked, bases[i]) else asked; Explains(env, Visit(env, next, bases, i + 1, tryAll), bases, i + 1, ticks)
    ensures var next := if env.tracked then MarkDown(env, asked, bases[i]) else asked;
            var rest := Visit(env, next, bases, i + 1, tryAll);
      Explains(env, rest.(attempts := Tries(env, i, 0).0 + rest.attempts), bases, i, ticks)
  {
    var next := if env.tracked then MarkDown(env, asked, bases[i]) else asked;
    var rest := Visit(env, next, bases, i + 1, tryAll);
    TriesFacts(env, i, 0);
    if env.tracked { MarkedThenVisited(env, asked, bases, i, tryAll, ticks); }
    hide Visit, Tries, Answers;
    if env.tracked && (rest.answer.Some? ==> bases[i] != bases[rest.answer.value.0]) { assert RestsSince(env, rest.health, bases[i], ticks); }
    ExtendExplanation(env, rest, Tries(env, i, 0).0, bases, i, ticks);
  }

  lemma MarkedThenVisited<P>(env: Env<P>, asked: Health, bases: seq<string>, i: nat, tryAll: bool, ticks: nat)
    requires i < |bases| && env.tracked && ticks <= asked.ticks
    ensures var o := Visit(env, MarkDown(env, asked, bases[i]), bases, i + 1, tryAll);
      (o.answer.Some? ==> o.answer.value.0 < |bases| && bases[o.answer.value.0] != bases[i]) ==> RestsSince(env, o.health, bases[i], ticks)
  {
    var next := MarkDown(env, asked, bases[i]);
    assert next.down[bases[i]] == env.clock(asked.ticks) + env.cooldown;
    assert RestsSince(env, next, bases[i], ticks);
    MarksSurvive(env, next, bases, i + 1, tryAll, bases[i], ticks);
  }

  /**
    A success comes from the first source, in order, that was not resting and answers within its tries; every source
    tried before it failed, and is left resting. Without a success, every source that was not skipped failed.
   */
  lemma AnswerIsTheFirst<P>(env: Env<P>, h: Health, bases: seq<string>)
    ensures Explains(env, Fetch(env, h, bases), bases, 0, h.ticks)
  {
    if env.tracked {
      TicksGrow(env, h, bases);
      VisitExplained(env, EveryResting(env, h, bases).1, bases, 0, EveryResting(env, h, bases).0, h.ticks);
    } else {
      VisitExplained(env, h, bases, 0, true, h.ticks);
    }
  }

  lemma {:induction false} TicksGrow<P>(env: Env<P>, h: Health, bases: seq<string>)
    ensures h.ticks <= EveryResting(env, h, bases).1.ticks <= h.ticks + |bases| && EveryResting(env, h, bases).1.down == h.down
    decreases |bases|
  {
    if bases != [] && Resting(env, h, bases[0]) { TicksGrow(env, Tick(h), bases[1..]); }
  }

  lemma {:induction false} TryAllSkipsNone<P>(env: Env<P>, h: Health, bases: seq<string>, i: nat)
    requires i <= |bases|
    ensures forall a :: a in Visit(env, h, bases, i, true).attempts ==> a.Attempt?
    decreases |bases| - i
  {
    if i < |bases| {
      TriesFacts(env, i, 0);
      if Tries(env, i, 0).1.None? {
        TryAllSkipsNone(env, if env.tracked then MarkDown(env, h, bases[i]) else h, bases, i + 1);
      }
    }
  }

  /** The health at the start of a call still holds for the bases no earlier source of the call has touched. */
  ghost predicate SameFor(start: Health, h: Health, bases: seq<string>, i: nat)
    requires i <= |bases|
  {
    && start.ticks <= h.ticks
    && forall j :: i <= j < |bases| && (forall k :: 0 <= k < i ==> bases[k] != bases[j]) ==> DownUntil(h, bases[j]) == DownUntil(start, bases[j])
  }

  /** Resting, by what was remembered before the call, at a reading of the clock made during it: before reading `end`. */
  ghost predicate RestedDuring<P>(env: Env<P>, start: Health, end: nat, base: string) {
    exists t :: start.ticks <= t < end && DownUntil(start, base) > env.clock(t)
  }

  ghost predicate Justified<P>(env: Env<P>, start: Health, end: nat, bases: seq<string>, j: nat)
    requires j < |bases|
  {
    RestedDuring(env, start, end, bases[j]) || exists k :: 0 <= k < j && bases[k] == bases[j]
  }

  ghost predicate SkipsJustified<P>(env: Env<P>, start: Health, end: nat, bases: seq<string>, i: nat, attempts: seq<Attempt>) {
    forall a :: a in attempts && a.Skipped? ==> i <= a.source < |bases| && Justified(env, start, end, bases, a.source)
  }

  /** The clock is never read again at an earlier turn. */
  lemma {:induction false} VisitTicks<P>(env: Env<P>, h: Health, bases: seq<string>, i: nat, tryAll: bool)
    requires i <= |bases|
    ensures h.ticks <= Visit(env, h, bases, i, tryAll).health.ticks
    decreases |bases| - i
  {
    hide Tries;
    if i < |bases| {
      var asked := if tryAll then h else Tick(h);
      VisitTicks(env, asked, bases, i + 1, tryAll);
      VisitTicks(env, MarkDown(env, asked, bases[i]), bases, i + 1, tryAll);
    }
  }

  lemma SkipNow<P>(env: Env<P>, start: Health, end: nat, h: Health, bases: seq<string>, i: nat)
    requires i < |bases| && SameFor(start, h, bases, i) && Resting(env, h, bases[i]) && h.ticks < end
    ensures Justified(env, start, end, bases, i)
  {
    if forall k :: 0 <= k < i ==> bases[k] != bases[i] {
      assert DownUntil(start, bases[i]) > env.clock(h.ticks);
    }
  }

  lemma SameForStep<P>(env: Env<P>, start: Health, h: Health, bases: seq<string>, i: nat)
    requires i < |bases| && SameFor(start, h, bases, i)
    ensures SameFor(start, Tick(h), bases, i + 1)
    ensures SameFor(start, MarkDown(env, h, bases[i]), bases, i + 1) && SameFor(start, MarkDown(env, Tick(h), bases[i]), bases, i + 1)
    ensures SameFor(start, h, bases, i + 1)
  {
  }

  lemma SkipsFromLater<P>(env: Env<P>, start: Health, end: nat, bases: seq<string>, i: nat, prefix: seq<Attempt>, rest: seq<Attempt>)
    requires i < |bases| && SkipsJustified(env, start, end, bases, i + 1, rest)
    requires (forall a :: a in prefix ==> a.Attempt?) || (prefix == [Skipped(i)] && Justified(env, start, end, bases, i))
    ensures SkipsJustified(env, start, end, bases, i, prefix + rest)
  {
  }

  lemma {:induction false} SkippedWasResting<P>(env: Env<P>, start: Health, end: nat, h: Health, bases: seq<string>, i: nat, tryAll: bool)
    requires i <= |bases| && SameFor(start, h, bases, i) && Visit(env, h, bases, i, tryAll).health.ticks <= end
    ensures SkipsJustified(env, start, end, bases, i, Visit(env, h, bases, i, tryAll).attempts)
    decreases |bases| - i
  {
    hide SameFor, Justified, Tries;
    if i < |bases| {
      SameForStep(env, start, h, bases, i);
      if !tryAll && Resting(env, h, bases[i]) {
        VisitTicks(env, Tick(h), bases, i + 1, tryAll);
        SkipNow(env, start, end, h, bases, i);
        SkippedWasResting(env, start, end, Tick(h), bases, i + 1, tryAll);
        SkipsFromLater(env, start, end, bases, i, [Skipped(i)], Visit(env, Tick(h), bases, i + 1, tryAll).attempts);
      } else {
        var asked := if tryAll then h else Tick(h);
        TriesFacts(env, i, 0);
        if Tries(env, i, 0).1.None? {
          var next := if env.tracked then MarkDown(env, asked, bases[i]) else asked;
          SkippedWasResting(env, start, end, next, bases, i + 1, tryAll);
          SkipsFromLater(env, start, end, bases, i, Tries(env, i, 0).0, Visit(env, next, bases, i + 1, tryAll).attempts);
        }
      }
    }
  }

  /**
    A skipped source was, by what was remembered before the call, resting at a reading made during it, unless it repeats
    the base of an earlier source.
   */
  lemma OnlyRestingSourcesAreSkipped<P>(env: Env<P>, h: Health, bases: seq<string>, j: nat)
    requires WasSkipped(Fetch(env, h, bases).attempts, j)
    ensures j < |bases| && Justified(env, h, Fetch(env, h, bases).health.ticks, bases, j)
  {
    var end := Fetch(env, h, bases).health.ticks;
    if !env.tracked {
      SkippedWasResting(env, h, end, h, bases, 0, true);
    } else {
      TicksGrow(env, h, bases);
      SkippedWasResting(env, h, end, EveryResting(env, h, bases).1, bases, 0, EveryResting(env, h, bases).0);
    }
  }

  /** A source is skipped only when health is remembered and some source was awake in the first look at them. */
  lemma SkippedOnlyIfSomeAwake<P>(env: Env<P>, h: Health, bases: seq<string>, j: nat)
    requires WasSkipped(Fetch(env, h, bases).attempts, j)
    ensures env.tracked && exists k, t :: 0 <= k < |bases| && h.ticks <= t < h.ticks + |bases| && DownUntil(h, bases[k]) <= env.clock(t)
  {
    if !env.tracked {
      TryAllSkipsNone(env, h, bases, 0);
    } else if EveryResting(env, h, bases).0 {
      TryAllSkipsNone(env, EveryResting(env, h, bases).1, bases, 0);
    } else {
      var k, t := SomeAwake(env, h, bases);
      TicksGrow(env, h, bases);
    }
  }
}
