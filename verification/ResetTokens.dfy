/**
  Password-reset tokens (apps/api/src/account/account.service.ts, apps/api/src/admin/admin-users.service.ts). Each
  request is one atomic step over the user and token tables; a token is known by its position in the table. Times are
  milliseconds. Permission checks, password rules and row lookups by e-mail arrive as the facts they establish.
 */
module ResetTokens {
  import opened Wrappers

  const HOUR: int := 3_600_000
  const MAX_PER_HOUR: nat := 3

  /** `password` stands for the stored hash. */
  datatype User = User(email: string, active: bool, version: nat, password: int)
  datatype Token = Token(user: nat, created: int, expires: int, used: Option<int>)

  /** `changes` is the audit trail of resets: which token changed a password. */
  datatype Tables = Tables(users: map<nat, User>, tokens: seq<Token>, changes: seq<nat>)

  datatype Request =
    | RequestReset(found: Option<nat>, now: int)
    | AdminResetLink(user: nat, authorised: bool, now: int)
    | SendReset(user: nat, authorised: bool, mailReady: bool, now: int)
    | MailFailed(token: nat, now: int)
    | ResetPassword(token: nat, validPassword: bool, password: int, now: int)
    | ChangePassword(user: nat, currentMatches: bool, validPassword: bool, different: bool, password: int, now: int)
    | Edit(user: nat, authorised: bool, email: string, now: int)
    | SetActive(user: nat, authorised: bool, self: bool, active: bool, now: int)
    | RecoverAdmin(user: nat, allowed: bool, password: int, now: int)

  // ----- table operations -----

  function Spend(t: Token, user: nat, now: int): Token {
    if t.user == user && t.used.None? then t.(used := Some(now)) else t
  }

  /** `updateMany` of a user's unused tokens. */
  function SpendAll(tokens: seq<Token>, user: nat, now: int): (r: seq<Token>)
    ensures |r| == |tokens| && forall i :: 0 <= i < |tokens| ==> r[i] == Spend(tokens[i], user, now)
  {
    seq(|tokens|, i requires 0 <= i < |tokens| => Spend(tokens[i], user, now))
  }

  /** A user's tokens created after `low` and up to `high`. */
  function CountIn(tokens: seq<Token>, user: nat, low: int, high: int): nat {
    if tokens == [] then 0
    else
      var t := tokens[|tokens| - 1];
      CountIn(tokens[..|tokens| - 1], user, low, high) + if t.user == user && low < t.created <= high then 1 else 0
  }

  /** `count` of a user's tokens created after an instant. */
  function CountAfter(tokens: seq<Token>, user: nat, low: int): nat {
    if tokens == [] then 0
    else
      var t := tokens[|tokens| - 1];
      CountAfter(tokens[..|tokens| - 1], user, low) + if t.user == user && t.created > low then 1 else 0
  }

  predicate MayIssue(d: Tables, user: nat, now: int) {
    user in d.users && d.users[user].active && CountAfter(d.tokens, user, now - HOUR) < MAX_PER_HOUR
  }

  function Issue(d: Tables, user: nat, now: int): Tables {
    d.(tokens := SpendAll(d.tokens, user, now) + [Token(user, now, now + HOUR, None)])
  }

  function NewVersion(d: Tables, user: nat, now: int): Tables
    requires user in d.users
  {
    d.(users := d.users[user := d.users[user].(version := d.users[user].version + 1)], tokens := SpendAll(d.tokens, user, now))
  }

  function NewPassword(d: Tables, user: nat, password: int, now: int): Tables
    requires user in d.users
  {
    var e := NewVersion(d, user, now);
    e.(users := e.users[user := e.users[user].(password := password)])
  }

  predicate Redeemable(d: Tables, token: nat, now: int) {
    && token < |d.tokens| && d.tokens[token].user in d.users && d.users[d.tokens[token].user].active
    && d.tokens[token].used.None? && d.tokens[token].expires >= now
  }

  predicate EmailTaken(d: Tables, user: nat, email: string) {
    exists other :: other in d.users && other != user && d.users[other].email == email
  }

  /** What a request does; a refused one leaves everything as it was. */
  function Step(d: Tables, r: Request): Tables {
    match r
    case RequestReset(found, now) =>
      if found.Some? && MayIssue(d, found.value, now) then Issue(d, found.value, now) else d
    case AdminResetLink(user, authorised, now) =>
      if authorised && MayIssue(d, user, now) then Issue(d, user, now) else d
    case SendReset(user, authorised, mailReady, now) =>
      if mailReady && authorised && MayIssue(d, user, now) then Issue(d, user, now) else d
    case MailFailed(token, now) =>
      if token < |d.tokens| && d.tokens[token].used.None? then d.(tokens := d.tokens[token := d.tokens[token].(used := Some(now))]) else d
    case ResetPassword(token, validPassword, password, now) =>
      if validPassword && Redeemable(d, token, now)
      then NewPassword(d, d.tokens[token].user, password, now).(changes := d.changes + [token])
      else d
    case ChangePassword(user, currentMatches, validPassword, different, password, now) =>
      if user in d.users && currentMatches && validPassword && different then NewPassword(d, user, password, now) else d
    case Edit(user, authorised, email, now) =>
      if !authorised || user !in d.users || EmailTaken(d, user, email) then d
      else if d.users[user].email == email then d
      else
        var e := NewVersion(d, user, now);
        e.(users := e.users[user := e.users[user].(email := email)])
    case SetActive(user, authorised, self, active, now) =>
      if !authorised || (self && !active) || user !in d.users || d.users[user].active == active then d
      else
        var e := NewVersion(d, user, now);
        e.(users := e.users[user := e.users[user].(active := active)])
    case RecoverAdmin(user, allowed, password, now) =>
      if allowed && user in d.users && d.users[user].active then NewPassword(d, user, password, now) else d
  }

  // ----- what the tables always satisfy -----

  /** Only the newest token of a user can be unused. */
  ghost predicate OnlyNewestUnused(tokens: seq<Token>) {
    forall i, j :: 0 <= i < j < |tokens| && tokens[i].user == tokens[j].user ==> tokens[i].used.Some?
  }

  /** A user's tokens of the hour that starts after `low` and includes its end. */
  function InHour(tokens: seq<Token>, user: nat, low: int): nat {
    CountIn(tokens, user, low, low + HOUR)
  }

  /** At most three tokens in any such hour, whoever issued them. */
  ghost predicate WindowsHold(tokens: seq<Token>) {
    forall user: nat, low: int :: InHour(tokens, user, low) <= MAX_PER_HOUR
  }

  /** A token changes a password at most once, and is used from then on. */
  ghost predicate ChangesOnce(tokens: seq<Token>, changes: seq<nat>) {
    && (forall i, j :: 0 <= i < j < |changes| ==> changes[i] != changes[j])
    && (forall k :: k in changes ==> k < |tokens| && tokens[k].used.Some?)
  }

  /** Every token lives for exactly one hour. */
  ghost predicate OneHourEach(tokens: seq<Token>) {
    forall i :: 0 <= i < |tokens| ==> tokens[i].expires == tokens[i].created + HOUR
  }

  ghost predicate Inv(d: Tables) {
    OnlyNewestUnused(d.tokens) && WindowsHold(d.tokens) && OneHourEach(d.tokens) && ChangesOnce(d.tokens, d.changes)
  }

  /** No account is lost, no token version goes back, and a token that was used stays as it is. */
  ghost predicate Grows(a: Tables, b: Tables) {
    && (forall u :: u in a.users ==> u in b.users && a.users[u].version <= b.users[u].version)
    && |a.tokens| <= |b.tokens|
    && (forall i :: 0 <= i < |a.tokens| ==> b.tokens[i] == if a.tokens[i].used.Some? then a.tokens[i] else a.tokens[i].(used := b.tokens[i].used))
  }

  // ----- preservation -----

  /** Marking tokens as used changes no count. */
  lemma {:induction false} SameCounts(a: seq<Token>, b: seq<Token>, user: nat, low: int, high: int)
    requires |a| == |b| && forall i :: 0 <= i < |a| ==> a[i].user == b[i].user && a[i].created == b[i].created
    ensures CountIn(a, user, low, high) == CountIn(b, user, low, high)
  {
    if a != [] { SameCounts(a[..|a| - 1], b[..|b| - 1], user, low, high); }
  }

  lemma {:induction false} WindowWithinRecent(tokens: seq<Token>, user: nat, low: int, high: int, since: int)
    requires since <= low
    ensures CountIn(tokens, user, low, high) <= CountAfter(tokens, user, since)
  {
    if tokens != [] { WindowWithinRecent(tokens[..|tokens| - 1], user, low, high, since); }
  }

  lemma WindowsAfterUse(a: seq<Token>, b: seq<Token>)
    requires WindowsHold(a)
    requires |a| == |b| && forall i :: 0 <= i < |a| ==> a[i].user == b[i].user && a[i].created == b[i].created
    ensures WindowsHold(b)
  {
    forall user: nat, low: int ensures InHour(b, user, low) <= MAX_PER_HOUR {
      SameCounts(a, b, user, low, low + HOUR);
      assert InHour(a, user, low) <= MAX_PER_HOUR;
    }
  }

  /** Issuing is allowed only with room left in the last hour, so every hour that holds the new token still has room. */
  lemma WindowsAfterIssue(d: Tables, user: nat, now: int)
    requires WindowsHold(d.tokens) && MayIssue(d, user, now)
    ensures WindowsHold(Issue(d, user, now).tokens)
  {
    var spent, t := SpendAll(d.tokens, user, now), Token(user, now, now + HOUR, None);
    var after := spent + [t];
    forall u: nat, low: int ensures InHour(after, u, low) <= MAX_PER_HOUR {
      assert after[..|after| - 1] == spent;
      SameCounts(d.tokens, spent, u, low, low + HOUR);
      assert InHour(d.tokens, u, low) <= MAX_PER_HOUR;
      if u == user && low < now <= low + HOUR {
        WindowWithinRecent(d.tokens, user, low, low + HOUR, now - HOUR);
      }
    }
  }

  lemma IssueKeeps(d: Tables, user: nat, now: int)
    requires Inv(d) && MayIssue(d, user, now)
    ensures Inv(Issue(d, user, now)) && Grows(d, Issue(d, user, now))
  {
    WindowsAfterIssue(d, user, now);
  }

  lemma NewVersionKeeps(d: Tables, user: nat, now: int)
    requires Inv(d) && user in d.users
    ensures Inv(NewVersion(d, user, now)) && Grows(d, NewVersion(d, user, now))
    ensures forall i :: 0 <= i < |d.tokens| && d.tokens[i].user == user ==> NewVersion(d, user, now).tokens[i].used.Some?
  {
    WindowsAfterUse(d.tokens, SpendAll(d.tokens, user, now));
  }

  lemma MailFailedKeeps(d: Tables, token: nat, now: int)
    requires Inv(d) && token < |d.tokens| && d.tokens[token].used.None?
    ensures var e := d.(tokens := d.tokens[token := d.tokens[token].(used := Some(now))]); Inv(e) && Grows(d, e)
  {
    WindowsAfterUse(d.tokens, d.tokens[token := d.tokens[token].(used := Some(now))]);
  }

  lemma ResetKeeps(d: Tables, token: nat, password: int, now: int)
    requires Inv(d) && Redeemable(d, token, now)
    ensures var e := NewPassword(d, d.tokens[token].user, password, now).(changes := d.changes + [token]); Inv(e) && Grows(d, e)
  {
    var user := d.tokens[token].user;
    NewVersionKeeps(d, user, now);
    assert token !in d.changes;
    var changes := d.changes + [token];
    forall i, j | 0 <= i < j < |changes| ensures changes[i] != changes[j] {
      if j == |d.changes| { assert changes[i] in d.changes; }
    }
  }

  /** A new version, together with any other change to the same account. */
  lemma ReplaceKeeps(d: Tables, user: nat, now: int, row: User)
    requires Inv(d) && user in d.users && row.version == d.users[user].version + 1
    ensures var e := NewVersion(d, user, now); var f := e.(users := e.users[user := row]); Inv(f) && Grows(d, f)
  {
    NewVersionKeeps(d, user, now);
  }

  lemma NothingKeeps(d: Tables)
    ensures Grows(d, d)
  {
  }

  /** Every request keeps the guarantees. */
  lemma StepKeeps(d: Tables, r: Request)
    requires Inv(d)
    ensures Inv(Step(d, r)) && Grows(d, Step(d, r))
  {
    hide Inv, Grows, Issue, NewVersion, MayIssue, Redeemable, EmailTaken;
    NothingKeeps(d);
    match r
    case RequestReset(found, now) => if found.Some? && MayIssue(d, found.value, now) { IssueKeeps(d, found.value, now); }
    case AdminResetLink(user, authorised, now) => if MayIssue(d, user, now) { IssueKeeps(d, user, now); }
    case SendReset(user, authorised, mailReady, now) => if MayIssue(d, user, now) { IssueKeeps(d, user, now); }
    case MailFailed(token, now) => if token < |d.tokens| && d.tokens[token].used.None? { MailFailedKeeps(d, token, now); }
    case ResetPassword(token, _, password, now) => if Redeemable(d, token, now) { ResetKeeps(d, token, password, now); }
    case ChangePassword(user, _, _, _, password, now) =>
      if user in d.users {
        VersionRow(d, user, now);
        ReplaceKeeps(d, user, now, NewVersion(d, user, now).users[user].(password := password));
      }
    case Edit(user, _, email, now) =>
      if user in d.users {
        VersionRow(d, user, now);
        ReplaceKeeps(d, user, now, NewVersion(d, user, now).users[user].(email := email));
      }
    case SetActive(user, _, _, active, now) =>
      if user in d.users {
        VersionRow(d, user, now);
        ReplaceKeeps(d, user, now, NewVersion(d, user, now).users[user].(active := active));
      }
    case RecoverAdmin(user, _, password, now) =>
      if user in d.users {
        VersionRow(d, user, now);
        ReplaceKeeps(d, user, now, NewVersion(d, user, now).users[user].(password := password));
      }
  }

  lemma VersionRow(d: Tables, user: nat, now: int)
    requires user in d.users
    ensures user in NewVersion(d, user, now).users && NewVersion(d, user, now).users[user].version == d.users[user].version + 1
  {
  }

  function Run(d: Tables, requests: seq<Request>): Tables
    decreases |requests|
  {
    if requests == [] then d else Run(Step(d, requests[0]), requests[1..])
  }

  /**
    On every run, in any order of times: at most one unused token per user, three tokens an hour, one change per token;
    versions only grow and a used token stays used.
   */
  lemma {:induction false} RunKeeps(d: Tables, requests: seq<Request>)
    requires Inv(d)
    ensures Inv(Run(d, requests)) && Grows(d, Run(d, requests))
    decreases |requests|
  {
    if requests != [] {
      StepKeeps(d, requests[0]);
      RunKeeps(Step(d, requests[0]), requests[1..]);
    }
  }

  /** A link that was used, or replaced by another, never works again at any later point of the run. */
  lemma UsedIsForever(d: Tables, requests: seq<Request>, token: nat, now: int)
    requires Inv(d) && token < |d.tokens| && d.tokens[token].used.Some?
    ensures !Redeemable(Run(d, requests), token, now)
  {
    RunKeeps(d, requests);
  }

  lemma RunFromEmpty(users: map<nat, User>, requests: seq<Request>)
    ensures Inv(Run(Tables(users, [], []), requests))
  {
    RunKeeps(Tables(users, [], []), requests);
  }

  /** A token that still works is the last one issued to its user, and there is no other. */
  lemma WorkingTokenIsNewest(d: Tables, token: nat, now: int)
    requires Inv(d) && Redeemable(d, token, now)
    ensures forall j :: 0 <= j < |d.tokens| && j != token && d.tokens[j].user == d.tokens[token].user ==> j < token && d.tokens[j].used.Some?
    ensures now <= d.tokens[token].created + HOUR
  {
  }

  /** Whatever changes the password, the e-mail or the access of an account raises its session version by one; nothing else does more. */
  lemma SensitiveChangesEndSessions(d: Tables, r: Request, u: nat)
    requires u in d.users
    ensures u in Step(d, r).users
    ensures var before, after := d.users[u], Step(d, r).users[u];
      && (after.password != before.password || after.email != before.email || after.active != before.active ==> after.version == before.version + 1)
      && (after.version == before.version || after.version == before.version + 1)
    ensures Step(d, r).changes != d.changes ==>
      && |Step(d, r).changes| == |d.changes| + 1
      && var token := Step(d, r).changes[|d.changes|];
         token < |d.tokens| && (d.tokens[token].user == u ==> Step(d, r).users[u].version == d.users[u].version + 1)
  {
  }

  /** After a reset, a password change, a new e-mail or a change of access, no earlier link of that user works. */
  lemma NoLinkSurvives(d: Tables, r: Request, token: nat, later: int)
    requires Inv(d) && token < |d.tokens|
    requires d.tokens[token].user in d.users
    requires Step(d, r).users[d.tokens[token].user].version > d.users[d.tokens[token].user].version
    ensures !Redeemable(Step(d, r), token, later)
  {
    var user := d.tokens[token].user;
    match r
    case RequestReset(_, _) =>
    case AdminResetLink(_, _, _) =>
    case SendReset(_, _, _, _) =>
    case MailFailed(_, _) =>
    case ResetPassword(t, _, _, now) => if Redeemable(d, t, now) { NewVersionKeeps(d, d.tokens[t].user, now); }
    case ChangePassword(u, _, _, _, _, now) => if u in d.users { NewVersionKeeps(d, u, now); }
    case Edit(u, _, _, now) => if u in d.users { NewVersionKeeps(d, u, now); }
    case SetActive(u, _, _, _, now) => if u in d.users { NewVersionKeeps(d, u, now); }
    case RecoverAdmin(u, _, _, now) => if u in d.users { NewVersionKeeps(d, u, now); }
  }

  // ----- what each request writes -----

  /** One account has a new row; its unused tokens are spent now; every other account and token is as it was. */
  ghost predicate AccountReplaced(a: Tables, b: Tables, user: nat, row: User, now: int) {
    && b.users == a.users[user := row]
    && |b.tokens| == |a.tokens|
    && forall i :: 0 <= i < |a.tokens| ==>
         b.tokens[i] == if a.tokens[i].user == user && a.tokens[i].used == None then a.tokens[i].(used := Some(now)) else a.tokens[i]
  }

  /** Redeeming a link writes the new password of its user and records the link; otherwise nothing happens. */
  lemma ResetWrites(d: Tables, token: nat, valid: bool, password: int, now: int)
    ensures var after := Step(d, ResetPassword(token, valid, password, now));
      if valid && token < |d.tokens| && d.tokens[token].used == None && now <= d.tokens[token].expires
         && d.tokens[token].user in d.users && d.users[d.tokens[token].user].active
      then
        var u := d.tokens[token].user;
        && AccountReplaced(d, after, u, d.users[u].(password := password, version := d.users[u].version + 1), now)
        && after.changes == d.changes + [token]
      else after == d
  {
  }

  /** The own password, the recovered one, the e-mail and the access: exactly that field is written, and the version. */
  lemma EditsWrite(d: Tables, user: nat, now: int)
    ensures forall matches: bool, valid: bool, different: bool, password: int :: var after := Step(d, ChangePassword(user, matches, valid, different, password, now));
      if user in d.users && matches && valid && different
      then AccountReplaced(d, after, user, d.users[user].(password := password, version := d.users[user].version + 1), now) && after.changes == d.changes
      else after == d
    ensures forall allowed: bool, password: int :: var after := Step(d, RecoverAdmin(user, allowed, password, now));
      if user in d.users && allowed && d.users[user].active
      then AccountReplaced(d, after, user, d.users[user].(password := password, version := d.users[user].version + 1), now) && after.changes == d.changes
      else after == d
    ensures forall authorised: bool, email: string :: var after := Step(d, Edit(user, authorised, email, now));
      if user in d.users && authorised && d.users[user].email != email && forall u :: u in d.users && u != user ==> d.users[u].email != email
      then AccountReplaced(d, after, user, d.users[user].(email := email, version := d.users[user].version + 1), now) && after.changes == d.changes
      else after == d
    ensures forall authorised: bool, self: bool, active: bool :: var after := Step(d, SetActive(user, authorised, self, active, now));
      if user in d.users && authorised && (active || !self) && d.users[user].active != active
      then AccountReplaced(d, after, user, d.users[user].(active := active, version := d.users[user].version + 1), now) && after.changes == d.changes
      else after == d
  {
  }

  /** The tokens counted by the limit. */
  lemma {:induction false} CountAfterCounts(tokens: seq<Token>, user: nat, low: int)
    ensures CountAfter(tokens, user, low) == |set i | 0 <= i < |tokens| && tokens[i].user == user && tokens[i].created > low|
  {
    var all := set i | 0 <= i < |tokens| && tokens[i].user == user && tokens[i].created > low;
    if tokens == [] {
      assert all == {};
    } else {
      var front, last := tokens[..|tokens| - 1], |tokens| - 1;
      CountAfterCounts(front, user, low);
      var earlier := set i | 0 <= i < |front| && front[i].user == user && front[i].created > low;
      assert all == if tokens[last].user == user && tokens[last].created > low then earlier + {last} else earlier;
    }
  }

  /** A link is issued exactly to an account with access, fewer than three of whose tokens are less than an hour old. */
  lemma IssuedExactly(d: Tables, user: nat, now: int)
    ensures MayIssue(d, user, now) <==>
      user in d.users && d.users[user].active
      && |set i | 0 <= i < |d.tokens| && d.tokens[i].user == user && d.tokens[i].created > now - 3_600_000| < 3
    ensures Step(d, RequestReset(Some(user), now)) == (if MayIssue(d, user, now) then Issue(d, user, now) else d)
    ensures Step(d, RequestReset(None, now)) == d
    ensures Step(d, AdminResetLink(user, true, now)) == Step(d, RequestReset(Some(user), now)) && Step(d, AdminResetLink(user, false, now)) == d
    ensures Step(d, SendReset(user, true, true, now)) == Step(d, RequestReset(Some(user), now))
    ensures Step(d, SendReset(user, false, true, now)) == d && Step(d, SendReset(user, true, false, now)) == d && Step(d, SendReset(user, false, false, now)) == d
  {
    CountAfterCounts(d.tokens, user, now - HOUR);
  }

  /** A new link: the user's earlier ones are spent and one unused token of an hour is added; no account changes. */
  lemma IssueWrites(d: Tables, user: nat, now: int)
    ensures var after := Issue(d, user, now);
      && after.users == d.users && after.changes == d.changes
      && |after.tokens| == |d.tokens| + 1 && after.tokens[|d.tokens|] == Token(user, now, now + 3_600_000, None)
      && forall i :: 0 <= i < |d.tokens| ==>
           after.tokens[i] == if d.tokens[i].user == user && d.tokens[i].used == None then d.tokens[i].(used := Some(now)) else d.tokens[i]
  {
  }

  /** A mail that did not go spends its token, if it was unused, so that its link never works; nothing else changes. */
  lemma MailFailedWrites(d: Tables, token: nat, now: int, later: int)
    ensures var after := Step(d, MailFailed(token, now));
      && after.users == d.users && after.changes == d.changes && |after.tokens| == |d.tokens|
      && (forall i :: 0 <= i < |d.tokens| ==>
            after.tokens[i] == if i == token && d.tokens[i].used == None then d.tokens[i].(used := Some(now)) else d.tokens[i])
      && !Redeemable(after, token, later)
  {
  }

  /** A link works exactly while it is unused, its account has access, and until one hour after it was issued. */
  lemma RedeemableExactly(d: Tables, token: nat, now: int)
    requires Inv(d) && token < |d.tokens|
    ensures var t := d.tokens[token];
      Redeemable(d, token, now) <==> t.used == None && now <= t.created + 3_600_000 && t.user in d.users && d.users[t.user].active
  {
  }

  /** A link just issued to an account with access works for the whole hour, its end included, and no longer. */
  lemma NewLinkWorksOneHour(d: Tables, user: nat, now: int, later: int)
    requires user in d.users && d.users[user].active
    ensures Redeemable(Issue(d, user, now), |d.tokens|, later) <==> later <= now + 3_600_000
  {
  }

  // ----- the services -----

  class Accounts {
    var users: map<nat, User>
    var tokens: seq<Token>
    var changes: seq<nat>

    function State(): Tables
      reads this
    {
      Tables(users, tokens, changes)
    }

    constructor (users: map<nat, User>)
      ensures State() == Tables(users, [], [])
    {
      this.users, tokens, changes := users, [], [];
    }

    method CountRecent(user: nat, now: int) returns (n: nat)
      ensures n == CountAfter(tokens, user, now - HOUR)
    {
      n := 0;
      for i := 0 to |tokens|
        invariant n == CountAfter(tokens[..i], user, now - HOUR)
      {
        var upTo := tokens[..i + 1];
        assert upTo[..|upTo| - 1] == tokens[..i];
        if tokens[i].user == user && tokens[i].created > now - HOUR { n := n + 1; }
      }
      assert tokens[..|tokens|] == tokens;
    }

    method SpendUnused(user: nat, now: int)
      modifies this`tokens
      ensures tokens == SpendAll(old(tokens), user, now)
    {
      ghost var before := tokens;
      for i := 0 to |tokens|
        invariant |tokens| == |before|
        invariant forall j :: 0 <= j < |tokens| ==> tokens[j] == if j < i then Spend(before[j], user, now) else before[j]
      {
        if tokens[i].user == user && tokens[i].used.None? {
          tokens := tokens[i := tokens[i].(used := Some(now))];
        }
      }
    }

    /** The transaction that spends the old tokens and creates one. */
    method IssueResetToken(user: nat, now: int)
      modifies this
      ensures State() == Issue(old(State()), user, now)
    {
      SpendUnused(user, now);
      tokens := tokens + [Token(user, now, now + HOUR, None)];
    }

    method Allowed(user: nat, now: int) returns (r: bool)
      ensures r == MayIssue(State(), user, now)
    {
      if user !in users || !users[user].active { return false; }
      var recent := CountRecent(user, now);
      r := recent < MAX_PER_HOUR;
    }

    /** The same answer whether or not a token was issued. */
    method RequestResetByEmail(found: Option<nat>, now: int)
      modifies this
      ensures State() == Step(old(State()), RequestReset(found, now))
    {
      if found.None? { return; }
      var allowed := Allowed(found.value, now);
      if allowed { IssueResetToken(found.value, now); }
    }

    method AdminLink(user: nat, authorised: bool, now: int) returns (issued: bool)
      modifies this
      ensures State() == Step(old(State()), AdminResetLink(user, authorised, now))
      ensures issued <==> authorised && MayIssue(old(State()), user, now)
    {
      var allowed := Allowed(user, now);
      issued := authorised && allowed;
      if issued { IssueResetToken(user, now); }
    }

    method SendResetMail(user: nat, authorised: bool, mailReady: bool, now: int) returns (issued: bool)
      modifies this
      ensures State() == Step(old(State()), SendReset(user, authorised, mailReady, now))
      ensures issued <==> mailReady && authorised && MayIssue(old(State()), user, now)
    {
      issued := false;
      if !mailReady || !authorised { return; }
      var allowed := Allowed(user, now);
      if allowed {
        IssueResetToken(user, now);
        issued := true;
      }
    }

    method MailDidNotGo(token: nat, now: int)
      modifies this
      ensures State() == Step(old(State()), MailFailed(token, now))
    {
      if token < |tokens| && tokens[token].used.None? {
        tokens := tokens[token := tokens[token].(used := Some(now))];
      }
    }

    method BumpVersion(user: nat, now: int)
      requires user in users
      modifies this
      ensures State() == NewVersion(old(State()), user, now)
    {
      users := users[user := users[user].(version := users[user].version + 1)];
      SpendUnused(user, now);
    }

    method SetPassword(user: nat, password: int, now: int)
      requires user in users
      modifies this
      ensures State() == NewPassword(old(State()), user, password, now)
    {
      BumpVersion(user, now);
      users := users[user := users[user].(password := password)];
    }

    /** Claims the token first; only the claim that succeeds changes the password. */
    method ResetByToken(token: nat, validPassword: bool, password: int, now: int) returns (ok: bool)
      modifies this
      ensures State() == Step(old(State()), ResetPassword(token, validPassword, password, now))
      ensures ok <==> validPassword && Redeemable(old(State()), token, now)
      ensures ok ==> var u := old(tokens)[token].user;
        u in old(users) && users == old(users)[u := old(users)[u].(password := password, version := old(users)[u].version + 1)]
      ensures !ok ==> State() == old(State())
    {
      if !validPassword || token >= |tokens| { return false; }
      var row := tokens[token];
      if row.user !in users || !users[row.user].active || row.used.Some? || row.expires < now { return false; }
      ghost var before := tokens;
      tokens := tokens[token := row.(used := Some(now))];
      SetPassword(row.user, password, now);
      assert tokens == SpendAll(before, row.user, now);
      changes := changes + [token];
      ok := true;
    }

    method ChangeOwnPassword(user: nat, currentMatches: bool, validPassword: bool, different: bool, password: int, now: int) returns (ok: bool)
      modifies this
      ensures State() == Step(old(State()), ChangePassword(user, currentMatches, validPassword, different, password, now))
      ensures ok <==> user in old(users) && currentMatches && validPassword && different
      ensures ok ==> users == old(users)[user := old(users)[user].(password := password, version := old(users)[user].version + 1)]
      ensures !ok ==> State() == old(State())
    {
      ok := user in users && currentMatches && validPassword && different;
      if ok { SetPassword(user, password, now); }
    }

    method EditUser(user: nat, authorised: bool, email: string, now: int) returns (changed: bool)
      modifies this
      ensures State() == Step(old(State()), Edit(user, authorised, email, now))
      ensures changed <==> authorised && user in old(users) && !EmailTaken(old(State()), user, email) && old(users)[user].email != email
      ensures changed ==> users == old(users)[user := old(users)[user].(email := email, version := old(users)[user].version + 1)]
      ensures !changed ==> State() == old(State())
    {
      if !authorised || user !in users || EmailTaken(State(), user, email) { return false; }
      changed := users[user].email != email;
      if changed {
        BumpVersion(user, now);
        users := users[user := users[user].(email := email)];
      }
    }

    method SetUserActive(user: nat, authorised: bool, self: bool, active: bool, now: int) returns (changed: bool)
      modifies this
      ensures State() == Step(old(State()), SetActive(user, authorised, self, active, now))
      ensures changed <==> authorised && (active || !self) && user in old(users) && old(users)[user].active != active
      ensures changed ==> users == old(users)[user := old(users)[user].(active := active, version := old(users)[user].version + 1)]
      ensures !changed ==> State() == old(State())
    {
      if !authorised || (self && !active) || user !in users || users[user].active == active { return false; }
      BumpVersion(user, now);
      users := users[user := users[user].(active := active)];
      changed := true;
    }

    /** Console recovery: never for an account without access. */
    method RecoverAdminPassword(user: nat, allowed: bool, password: int, now: int) returns (ok: bool)
      modifies this
      ensures State() == Step(old(State()), RecoverAdmin(user, allowed, password, now))
      ensures ok <==> allowed && user in old(users) && old(users)[user].active
      ensures ok ==> users == old(users)[user := old(users)[user].(password := password, version := old(users)[user].version + 1)]
      ensures !ok ==> State() == old(State())
    {
      ok := allowed && user in users && users[user].active;
      if ok { SetPassword(user, password, now); }
    }
  }
}
