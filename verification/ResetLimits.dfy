/**
  How far the limit of three tokens per hour reaches (apps/api/src/account/account.service.ts). The source counts the
  tokens created after `now - HOUR`, so the limit is on hours open at their start. This module settles what holds of
  hours that include both ends.
 */
module ResetLimits {
  import opened ResetTokens
  import opened Wrappers

  /** A user's tokens of an hour that includes both its ends. */
  function InClosed(tokens: seq<Token>, user: nat, low: int): nat {
    CountIn(tokens, user, low - 1, low + HOUR)
  }

  ghost predicate ClosedHold(tokens: seq<Token>) {
    forall user: nat, low: int :: InClosed(tokens, user, low) <= MAX_PER_HOUR
  }

  lemma {:induction false} CountSplits(tokens: seq<Token>, user: nat, low: int, mid: int, high: int)
    requires low <= mid <= high
    ensures CountIn(tokens, user, low, high) == CountIn(tokens, user, low, mid) + CountIn(tokens, user, mid, high)
  {
    if tokens != [] { CountSplits(tokens[..|tokens| - 1], user, low, mid, high); }
  }

  /** A closed hour is two open ones at most, so whatever happens it holds at most six tokens. */
  lemma ClosedHourHoldsAtMostSix(tokens: seq<Token>, user: nat, low: int)
    requires WindowsHold(tokens)
    ensures InClosed(tokens, user, low) <= 2 * MAX_PER_HOUR
  {
    CountSplits(tokens, user, low - 1, low, low + HOUR);
    CountSplits(tokens, user, low - 1, low, low - 1 + HOUR);
    assert InHour(tokens, user, low - 1) <= MAX_PER_HOUR && InHour(tokens, user, low) <= MAX_PER_HOUR;
  }

  // ----- counting one more token -----

  lemma IssueCounts(d: Tables, user: nat, now: int, u: nat, low: int, high: int)
    ensures CountIn(Issue(d, user, now).tokens, u, low, high)
         == CountIn(d.tokens, u, low, high) + if u == user && low < now <= high then 1 else 0
  {
    var spent, after := SpendAll(d.tokens, user, now), Issue(d, user, now).tokens;
    assert after[..|after| - 1] == spent;
    SameCounts(d.tokens, spent, u, low, high);
  }

  lemma {:induction false} SameAfter(a: seq<Token>, b: seq<Token>, user: nat, low: int)
    requires |a| == |b| && forall i :: 0 <= i < |a| ==> a[i].user == b[i].user && a[i].created == b[i].created
    ensures CountAfter(a, user, low) == CountAfter(b, user, low)
  {
    if a != [] { SameAfter(a[..|a| - 1], b[..|b| - 1], user, low); }
  }

  lemma IssueCountsAfter(d: Tables, user: nat, now: int, low: int)
    ensures CountAfter(Issue(d, user, now).tokens, user, low) == CountAfter(d.tokens, user, low) + if now > low then 1 else 0
  {
    var spent, after := SpendAll(d.tokens, user, now), Issue(d, user, now).tokens;
    assert after[..|after| - 1] == spent;
    SameAfter(d.tokens, spent, user, low);
  }

  // ----- six is reached -----

  function AsksAt(user: nat, times: seq<int>): seq<Request> {
    if times == [] then [] else [RequestReset(Some(user), times[0])] + AsksAt(user, times[1..])
  }

  lemma AskOnce(d: Tables, user: nat, times: seq<int>)
    requires times != [] && MayIssue(d, user, times[0])
    ensures Run(d, AsksAt(user, times)) == Run(Issue(d, user, times[0]), AsksAt(user, times[1..]))
    ensures Issue(d, user, times[0]).users == d.users
  {
    assert AsksAt(user, times)[1..] == AsksAt(user, times[1..]);
  }

  /** Three requests at one instant are all granted to a user without tokens in the hour before it. */
  lemma ThreeAtOnce(d: Tables, user: nat, now: int, rest: seq<int>) returns (after: Tables)
    requires user in d.users && d.users[user].active && CountAfter(d.tokens, user, now - HOUR) == 0
    ensures Run(d, AsksAt(user, [now, now, now] + rest)) == Run(after, AsksAt(user, rest)) && after.users == d.users
    ensures forall low :: CountAfter(after.tokens, user, low) == CountAfter(d.tokens, user, low) + if now > low then 3 else 0
    ensures forall low, high :: CountIn(after.tokens, user, low, high) == CountIn(d.tokens, user, low, high) + if low < now <= high then 3 else 0
  {
    var d1 := Issue(d, user, now);
    var d2 := Issue(d1, user, now);
    after := Issue(d2, user, now);
    hide Issue, Run, AsksAt;
    forall low
      ensures CountAfter(d1.tokens, user, low) == CountAfter(d.tokens, user, low) + if now > low then 1 else 0
      ensures CountAfter(d2.tokens, user, low) == CountAfter(d.tokens, user, low) + if now > low then 2 else 0
      ensures CountAfter(after.tokens, user, low) == CountAfter(d.tokens, user, low) + if now > low then 3 else 0
    {
      IssueCountsAfter(d, user, now, low);
      IssueCountsAfter(d1, user, now, low);
      IssueCountsAfter(d2, user, now, low);
    }
    forall low, high
      ensures CountIn(after.tokens, user, low, high) == CountIn(d.tokens, user, low, high) + if low < now <= high then 3 else 0
    {
      IssueCounts(d, user, now, user, low, high);
      IssueCounts(d1, user, now, user, low, high);
      IssueCounts(d2, user, now, user, low, high);
    }
    var times := [now, now, now] + rest;
    assert times[1..] == [now, now] + rest && ([now, now] + rest)[1..] == [now] + rest && ([now] + rest)[1..] == rest;
    AskOnce(d, user, times);
    AskOnce(d1, user, [now, now] + rest);
    AskOnce(d2, user, [now] + rest);
  }

  /** And six is reached: the tokens at the start of the hour are not counted by the requests at its end. */
  lemma ClosedHourCanHoldSix(users: map<nat, User>, user: nat)
    requires user in users && users[user].active
    ensures InClosed(Run(Tables(users, [], []), AsksAt(user, [0, 0, 0, HOUR, HOUR, HOUR])).tokens, user, 0) == 2 * MAX_PER_HOUR
  {
    var start := Tables(users, [], []);
    var later := [HOUR, HOUR, HOUR];
    assert [0, 0, 0] + later == [0, 0, 0, HOUR, HOUR, HOUR] && later + [] == later;
    var half := ThreeAtOnce(start, user, 0, later);
    var full := ThreeAtOnce(half, user, HOUR, []);
    assert CountIn(start.tokens, user, -1, HOUR) == 0;
    assert Run(full, AsksAt(user, [])) == full;
  }

  // ----- when three does hold of closed hours -----

  /**
    The exact condition, one token at a time and whatever the dates of the others: a token that the source issues keeps
    every closed hour at three if and only if the hour that ends now, its start included, holds fewer than three. This
    is the source's guard with >= for >.
   */
  lemma IssuedHoldsExactly(d: Tables, user: nat, now: int)
    requires ClosedHold(d.tokens) && MayIssue(d, user, now)
    ensures ClosedHold(Issue(d, user, now).tokens) <==> InClosed(d.tokens, user, now - HOUR) < MAX_PER_HOUR
  {
    var after := Issue(d, user, now).tokens;
    hide Issue;
    IssueCounts(d, user, now, user, now - HOUR - 1, now);
    if InClosed(d.tokens, user, now - HOUR) < MAX_PER_HOUR {
      forall u: nat, low: int ensures InClosed(after, u, low) <= MAX_PER_HOUR {
        IssueCounts(d, user, now, u, low - 1, low + HOUR);
        assert InClosed(d.tokens, u, low) <= MAX_PER_HOUR;
        if u == user && now - HOUR < low { WindowWithinRecent(d.tokens, user, low - 1, low + HOUR, now - HOUR); }
      }
    } else {
      assert InClosed(after, user, now - HOUR) > MAX_PER_HOUR;
    }
  }

  /** To whom a request issues a token, and when. */
  function IssuedTo(d: Tables, r: Request): Option<(nat, int)> {
    match r
    case RequestReset(found, now) => if found.Some? && MayIssue(d, found.value, now) then Some((found.value, now)) else None
    case AdminResetLink(user, authorised, now) => if authorised && MayIssue(d, user, now) then Some((user, now)) else None
    case SendReset(user, authorised, mailReady, now) => if mailReady && authorised && MayIssue(d, user, now) then Some((user, now)) else None
    case _ => None
  }

  /** A request issues one token, as the limit allows, or changes no user and no date of any. */
  lemma StepTokens(d: Tables, r: Request)
    ensures match IssuedTo(d, r)
      case Some(to) => MayIssue(d, to.0, to.1) && Step(d, r) == Issue(d, to.0, to.1)
      case None =>
        |Step(d, r).tokens| == |d.tokens|
        && forall i :: 0 <= i < |d.tokens| ==> Step(d, r).tokens[i].user == d.tokens[i].user && Step(d, r).tokens[i].created == d.tokens[i].created
  {
  }

  /** Counts never go down. */
  lemma StepCounts(d: Tables, r: Request, user: nat, low: int, high: int)
    ensures CountIn(Step(d, r).tokens, user, low, high) >= CountIn(d.tokens, user, low, high)
    ensures IssuedTo(d, r).None? ==> CountIn(Step(d, r).tokens, user, low, high) == CountIn(d.tokens, user, low, high)
  {
    StepTokens(d, r);
    if IssuedTo(d, r).None? {
      hide Step;
      SameCounts(d.tokens, Step(d, r).tokens, user, low, high);
    } else {
      hide Step, Issue;
      IssueCounts(d, IssuedTo(d, r).value.0, IssuedTo(d, r).value.1, user, low, high);
    }
  }

  lemma {:induction false} RunCounts(d: Tables, requests: seq<Request>, user: nat, low: int, high: int)
    ensures CountIn(Run(d, requests).tokens, user, low, high) >= CountIn(d.tokens, user, low, high)
    decreases |requests|
  {
    if requests != [] {
      StepCounts(d, requests[0], user, low, high);
      RunCounts(Step(d, requests[0]), requests[1..], user, low, high);
    }
  }

  /** Every token is issued with fewer than three in the closed hour before it. */
  ghost predicate Guarded(d: Tables, requests: seq<Request>)
    decreases |requests|
  {
    requests == [] ||
    (var to := IssuedTo(d, requests[0]);
     (to.Some? ==> InClosed(d.tokens, to.value.0, to.value.1 - HOUR) < MAX_PER_HOUR) && Guarded(Step(d, requests[0]), requests[1..]))
  }

  lemma StepHoldsExactly(d: Tables, r: Request)
    requires ClosedHold(d.tokens)
    ensures ClosedHold(Step(d, r).tokens)
       <==> (IssuedTo(d, r).Some? ==> InClosed(d.tokens, IssuedTo(d, r).value.0, IssuedTo(d, r).value.1 - HOUR) < MAX_PER_HOUR)
  {
    StepTokens(d, r);
    if IssuedTo(d, r).Some? {
      IssuedHoldsExactly(d, IssuedTo(d, r).value.0, IssuedTo(d, r).value.1);
    } else {
      forall user: nat, low: int ensures InClosed(Step(d, r).tokens, user, low) <= MAX_PER_HOUR {
        assert InClosed(d.tokens, user, low) <= MAX_PER_HOUR;
        StepCounts(d, r, user, low - 1, low + HOUR);
      }
    }
    hide Step;
  }

  /** The exact condition over whole runs: every closed hour holds at most three tokens if and only if each was issued under the closed guard. */
  lemma {:induction false} RunHoldsExactly(d: Tables, requests: seq<Request>)
    requires ClosedHold(d.tokens)
    ensures ClosedHold(Run(d, requests).tokens) <==> Guarded(d, requests)
    decreases |requests|
  {
    if requests != [] {
      var next := Step(d, requests[0]);
      StepHoldsExactly(d, requests[0]);
      hide Step;
      if ClosedHold(next.tokens) {
        RunHoldsExactly(next, requests[1..]);
      } else {
        var user: nat, low: int :| InClosed(next.tokens, user, low) > MAX_PER_HOUR;
        RunCounts(next, requests[1..], user, low - 1, low + HOUR);
        assert InClosed(Run(d, requests).tokens, user, low) > MAX_PER_HOUR;
      }
    }
  }
}
