/** `ensureUpcomingContests` on the store, proved to be its step on values. */
module UpcomingStore {
  import opened BrazilTime
  import opened Calendar
  import opened Contests
  import opened Schedule
  import opened Upcoming
  import opened ContestStore
  import opened Wrappers

  /** `findFirst` of an open, ordinary contest whose cutoff is ahead. */
  method HasOpen(store: Store, modality: string, now: int) returns (r: bool)
    requires Inv(store.State())
    ensures r <==> exists id :: OpenRow(store.State(), modality, now, id)
  {
    for id := 0 to store.nextId
      invariant forall i: nat :: i < id ==> !OpenRow(store.State(), modality, now, i)
    {
      if OpenRow(store.State(), modality, now, id) { return true; }
    }
    r := false;
  }

  /** `findFirst` ordered by number, largest first. */
  method FindLatest(store: Store, modality: string) returns (r: Option<nat>)
    requires Inv(store.State())
    ensures r == Latest(store.State(), modality)
  {
    r := None;
    for id := 0 to store.nextId
      invariant r.None? ==> forall i: nat :: i < id ==> !Regular(store.State(), modality, i)
      invariant r.Some? ==> Regular(store.State(), modality, r.value)
      invariant r.Some? ==> forall i: nat :: i < id && Regular(store.State(), modality, i) ==> store.contests[i].number <= store.contests[r.value].number
    {
      if Regular(store.State(), modality, id) && (r.None? || store.contests[id].number > store.contests[r.value].number) { r := Some(id); }
    }
    if r.Some? {
      assert IsLatest(store.State(), modality, r.value);
      LatestIs(store.State(), modality, r.value);
    }
  }

  function Count(counts: map<int, nat>, w: int): nat {
    if w in counts then counts[w] else 0
  }

  lemma SeenGrows(db: Db, modality: string, now: int, w: int, id: nat)
    ensures SeenRows(db, modality, now, w, id + 1) == SeenRows(db, modality, now, w, id) + if SeenRow(db, modality, now, w, id) then {id} else {}
    ensures |SeenRows(db, modality, now, w, id + 1)| == |SeenRows(db, modality, now, w, id)| + if SeenRow(db, modality, now, w, id) then 1 else 0
  {
    assert id !in SeenRows(db, modality, now, w, id);
  }

  /** Fills the count of draws per weekday. */
  method CountWeekdays(store: Store, modality: string, now: int) returns (counts: map<int, nat>)
    requires Inv(store.State())
    ensures forall w :: Count(counts, w) == |SeenRows(store.State(), modality, now, w, store.nextId)|
  {
    counts := map[];
    ghost var db := store.State();
    forall w ensures |SeenRows(db, modality, now, w, 0)| == 0 { assert SeenRows(db, modality, now, w, 0) == {}; }
    hide Inv, SeenRows, BrazilDayNumber, Weekday, WeekdayOfDay;
    for id := 0 to store.nextId
      invariant forall w :: Count(counts, w) == |SeenRows(db, modality, now, w, id)|
    {
      ghost var next := id + 1;
      forall w ensures |SeenRows(db, modality, now, w, next)| == |SeenRows(db, modality, now, w, id)| + if SeenRow(db, modality, now, w, id) then 1 else 0 {
        SeenGrows(db, modality, now, w, id);
      }
      if Regular(store.State(), modality, id) && store.contests[id].draw >= now - SEEN_WINDOW_MS {
        if store.contests[id].source != PROJECTED {
          WeekdayIsOfTheDate(BrazilDayNumber(store.contests[id].draw));
          var weekday := WeekdayOfDay(BrazilDayNumber(store.contests[id].draw));
          counts := counts[weekday := Count(counts, weekday) + 1];
        }
      }
    }
  }

  method ResolveDays(store: Store, config: Config, now: int) returns (days: set<int>)
    requires Inv(store.State())
    ensures days == DrawDays(store.State(), config, now)
  {
    days := Configured(config.days);
    if days != {} { return; }
    var counts := CountWeekdays(store, config.modality, now);
    days := set w | 0 <= w <= 6 && Count(counts, w) >= 3;
    assert days == OftenSeen(store.State(), config.modality, now);
    if days == {} { days := DefaultDays(config.modality); }
  }

  /** The part after the latest contest is known. */
  method DecideNumber(store: Store, config: Config, now: int, cut: Cutoff, lastDay: int, days: set<int>, number: int) returns (d: Decision)
    requires Inv(store.State())
    ensures d == DecideAfter(store.contests, config, now, cut, lastDay, days, number)
  {
    var day := NextScheduledDay(lastDay, days);
    NextExists(lastDay, days, day);
    if day.None? { return Skip; }
    ChosenDay(lastDay, days, day.value);
    var cutoff := cut(DrawAt(day.value), config.hour, config.minute);
    if cutoff.None? { return Fail; }
    if cutoff.value <= now { return Skip; }
    var exists_ := store.FindUnique(config.modality, number);
    d := if exists_.Some? then Skip else Create(number, DrawAt(day.value), cutoff.value);
  }

  lemma ChosenDay(lastDay: int, days: set<int>, day: int)
    requires IsNext(day, lastDay, days)
    ensures forall other :: IsNext(other, lastDay, days) ==> other == day
  {
  }

  lemma NextExists(lastDay: int, days: set<int>, found: Option<int>)
    requires found.Some? <==> exists w :: 0 <= w <= 6 && w in days
    requires found.Some? ==> IsNext(found.value, lastDay, days)
    ensures found.Some? <==> exists r :: IsNext(r, lastDay, days)
  {
    if exists r :: IsNext(r, lastDay, days) {
      var r :| IsNext(r, lastDay, days);
      assert 0 <= Weekday(r) <= 6 && Weekday(r) in days;
    }
  }

  method DecideOne(store: Store, config: Config, now: int, cut: Cutoff) returns (d: Decision)
    requires Inv(store.State())
    ensures d == Decide(store.State(), config, now, cut)
  {
    var open := HasOpen(store, config.modality, now);
    if open { return Skip; }
    var latest := FindLatest(store, config.modality);
    if latest.None? { return Skip; }
    assert IsLatest(store.State(), config.modality, latest.value);
    var days := ResolveDays(store, config, now);
    var row := store.contests[latest.value];
    d := DecideNumber(store, config, now, cut, BrazilDayNumber(row.draw), days, row.number + 1);
  }

  /** One modality: at most one row is created. */
  method EnsureOneModality(store: Store, config: Config, now: int, cut: Cutoff) returns (d: Decision)
    requires Inv(store.State())
    modifies store
    ensures d == Decide(old(store.State()), config, now, cut)
    ensures store.State() == EnsureOne(old(store.State()), config, now, cut)
    ensures !d.Create? ==> store.State() == old(store.State())
    ensures Inv(store.State())
  {
    d := DecideOne(store, config, now, cut);
    EnsureOneKeeps(store.State(), config, now, cut);
    if d.Create? {
      store.contests := store.contests[store.nextId := NewContest(config, d)];
      store.nextId := store.nextId + 1;
    }
  }

  /** What a run from the `k`-th modality on leads to, with what was created before it in front. */
  ghost function Rest(created: seq<Created>, db: Db, configs: seq<Config>, k: nat, now: int, cut: Cutoff): (Db, seq<Created>, bool)
    requires k <= |configs|
  {
    var (after, more) := EnsureAll(db, configs[k..], now, cut);
    (after, created + more, Aborts(db, configs[k..], now, cut))
  }

  lemma RestStep(created: seq<Created>, db: Db, configs: seq<Config>, k: nat, now: int, cut: Cutoff)
    requires k < |configs|
    ensures var d := Decide(db, configs[k], now, cut);
            var more := if d.Create? then created + [Created(configs[k].modality, d.number, d.draw, d.cutoff)] else created;
      Rest(created, db, configs, k, now, cut)
        == if d.Fail? then (db, created, true) else Rest(more, EnsureOne(db, configs[k], now, cut), configs, k + 1, now, cut)
  {
    var d := Decide(db, configs[k], now, cut);
    assert configs[k..][0] == configs[k] && configs[k..][1..] == configs[k + 1..];
    if d.Fail? {
      assert created + [] == created;
    } else {
      CreatedHead(db, configs[k..], now, cut);
      hide Decide, EnsureOne;
      var rest := EnsureAll(EnsureOne(db, configs[k], now, cut), configs[k + 1..], now, cut).1;
      if d.Create? {
        var one := [Created(configs[k].modality, d.number, d.draw, d.cutoff)];
        assert created + (one + rest) == created + one + rest;
      }
    }
  }

  lemma RestEnds(created: seq<Created>, db: Db, configs: seq<Config>, now: int, cut: Cutoff)
    ensures Rest([], db, configs, 0, now, cut) == (EnsureAll(db, configs, now, cut).0, EnsureAll(db, configs, now, cut).1, Aborts(db, configs, now, cut))
    ensures Rest(created, db, configs, |configs|, now, cut) == (db, created, false)
  {
    assert configs[0..] == configs && configs[|configs|..] == [];
    assert [] + EnsureAll(db, configs, now, cut).1 == EnsureAll(db, configs, now, cut).1;
    assert created + [] == created;
  }

  /** Existing rows are never touched; `failed` is the thrown error that aborts the remaining modalities. */
  method EnsureUpcomingContests(store: Store, configs: seq<Config>, now: int, cut: Cutoff) returns (created: seq<Created>, failed: bool)
    requires Inv(store.State())
    modifies store
    ensures store.State() == EnsureAll(old(store.State()), configs, now, cut).0
    ensures created == EnsureAll(old(store.State()), configs, now, cut).1
    ensures failed <==> Aborts(old(store.State()), configs, now, cut)
    ensures Inv(store.State()) && OnlyAdds(old(store.State()), store.State(), now)
  {
    hide Decide, EnsureOne, EnsureAll, Inv, OnlyAdds, Aborts, Rest;
    created, failed := [], false;
    ghost var before := store.State();
    RestEnds(created, before, configs, now, cut);
    EnsureAllKeeps(before, configs, now, cut);
    for k := 0 to |configs|
      invariant !failed && Inv(store.State())
      invariant Rest([], before, configs, 0, now, cut) == Rest(created, store.State(), configs, k, now, cut)
    {
      RestStep(created, store.State(), configs, k, now, cut);
      var d := EnsureOneModality(store, configs[k], now, cut);
      if d.Fail? {
        return created, true;
      }
      if d.Create? { created := created + [Created(configs[k].modality, d.number, d.draw, d.cutoff)]; }
    }
    RestEnds(created, store.State(), configs, now, cut);
  }
}
