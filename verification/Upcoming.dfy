/** Projected contests (packages/shared-types/src/upcoming.ts): a modality without an open contest gets the next one. */
module Upcoming {
  import opened Arithmetic
  import opened BrazilTime
  import opened Calendar
  import opened Contests
  import opened Schedule
  import opened Wrappers

  const PROJECTED := "projetado"
  const SEEN_WINDOW_MS: int := 70 * MS_PER_DAY
  const DRAW_HOUR_MS: int := 72_000_000

  /** The cutoff computation is a parameter, as in the source; `CalculateBrazilCutoff` is the one in use. */
  type Cutoff = (int, int, int) -> Option<int>

  datatype Created = Created(modality: string, number: int, draw: int, cutoff: int)

  predicate OpenRow(db: Db, modality: string, now: int, id: nat) {
    id in db.contests && db.contests[id].modality == modality && db.contests[id].special.None?
    && db.contests[id].status == Aberto && db.contests[id].cutoff > now
  }

  predicate Regular(db: Db, modality: string, id: nat) {
    id in db.contests && db.contests[id].modality == modality && db.contests[id].special.None? && db.contests[id].number > 0
  }

  ghost predicate IsLatest(db: Db, modality: string, id: nat) {
    Regular(db, modality, id) && forall j :: Regular(db, modality, j) ==> db.contests[j].number <= db.contests[id].number
  }

  ghost function Latest(db: Db, modality: string): Option<nat> {
    if exists id :: IsLatest(db, modality, id) then
      var id :| IsLatest(db, modality, id);
      Some(id)
    else None
  }

  lemma LatestIs(db: Db, modality: string, id: nat)
    requires Inv(db) && IsLatest(db, modality, id)
    ensures Latest(db, modality) == Some(id)
  {
    var other := Latest(db, modality).value;
    assert IsLatest(db, modality, other);
  }

  // ----- the draw days of a modality -----

  function Configured(days: seq<int>): set<int> {
    set w | w in days && 0 <= w <= 6
  }

  /** A real, recent contest of the modality drawn on this weekday. */
  predicate SeenRow(db: Db, modality: string, now: int, w: int, id: nat) {
    && Regular(db, modality, id) && db.contests[id].draw >= now - SEEN_WINDOW_MS && db.contests[id].source != PROJECTED
    && Weekday(BrazilDayNumber(db.contests[id].draw)) == w
  }

  function SeenRows(db: Db, modality: string, now: int, w: int, below: nat): set<nat> {
    set id: nat | id < below && SeenRow(db, modality, now, w, id)
  }

  function DefaultDays(modality: string): set<int> {
    if modality == "lotofacil" || modality == "quina" then {1, 2, 3, 4, 5, 6}
    else if modality == "lotomania" || modality == "supersete" then {1, 3, 5}
    else if modality == "megasena" || modality == "duplasena" || modality == "timemania" || modality == "diadesorte" then {2, 4, 6}
    else {}
  }

  function OftenSeen(db: Db, modality: string, now: int): set<int> {
    set w | 0 <= w <= 6 && |SeenRows(db, modality, now, w, db.nextId)| >= 3
  }

  /** Configured days, else weekdays seen at least three times lately, else the standard ones. */
  function DrawDays(db: Db, config: Config, now: int): set<int> {
    if Configured(config.days) != {} then Configured(config.days)
    else if OftenSeen(db, config.modality, now) != {} then OftenSeen(db, config.modality, now)
    else DefaultDays(config.modality)
  }

  // ----- what the queries select -----

  /** The open contest looked for: of the modality, not a festival, with its cutoff ahead. */
  lemma OpenRowsExactly(db: Db, modality: string, now: int)
    ensures (exists id :: OpenRow(db, modality, now, id)) <==>
      exists c :: c in db.contests.Values && c.modality == modality && c.special == None && c.status == Aberto && now < c.cutoff
  {
    if c :| c in db.contests.Values && c.modality == modality && c.special == None && c.status == Aberto && now < c.cutoff {
      var id :| id in db.contests && db.contests[id] == c;
      assert OpenRow(db, modality, now, id);
    }
  }

  /** The latest one: the largest official number of the modality outside festivals. */
  lemma LatestExactly(db: Db, modality: string, id: nat)
    ensures IsLatest(db, modality, id) <==>
      && id in db.contests && db.contests[id].modality == modality && db.contests[id].special == None && db.contests[id].number >= 1
      && forall c :: c in db.contests.Values && c.modality == modality && c.special == None && c.number >= 1 ==> c.number <= db.contests[id].number
  {
    if IsLatest(db, modality, id) {
      forall c | c in db.contests.Values && c.modality == modality && c.special == None && c.number >= 1
        ensures c.number <= db.contests[id].number
      {
        var j :| j in db.contests && db.contests[j] == c;
        assert Regular(db, modality, j);
      }
    }
  }

  /** The draw days, in order of preference. Weekdays run from 0, Sunday, to 6. */
  lemma DrawDaysExactly(db: Db, config: Config, now: int)
    ensures var listed := set w | w in config.days && w in {0, 1, 2, 3, 4, 5, 6};
      var often := set w | w in {0, 1, 2, 3, 4, 5, 6} && |SeenRows(db, config.modality, now, w, db.nextId)| >= 3;
      DrawDays(db, config, now) == if listed != {} then listed else if often != {} then often else DefaultDays(config.modality)
  {
    hide SeenRows;
    assert Configured(config.days) == set w | w in config.days && w in {0, 1, 2, 3, 4, 5, 6};
    assert OftenSeen(db, config.modality, now) == set w | w in {0, 1, 2, 3, 4, 5, 6} && |SeenRows(db, config.modality, now, w, db.nextId)| >= 3;
  }

  /** The contests counted for a weekday: official, not projected, not a festival, drawn no more than seventy days ago. */
  lemma SeenExactly(db: Db, modality: string, now: int, w: int)
    requires Inv(db)
    ensures forall id: nat :: id in SeenRows(db, modality, now, w, db.nextId) <==>
      id in db.contests && db.contests[id].modality == modality && db.contests[id].special == None && db.contests[id].number >= 1
      && db.contests[id].source != "projetado" && now - db.contests[id].draw <= 6_048_000_000 && Weekday(BrazilDayNumber(db.contests[id].draw)) == w
  {
    hide BrazilDayNumber, Weekday;
  }

  /** The standard days: daily but Sunday, or three days a week; none for other modalities. */
  lemma StandardDays()
    ensures forall m :: m in ["lotofacil", "quina"] ==> DefaultDays(m) == {1, 2, 3, 4, 5, 6}
    ensures forall m :: m in ["lotomania", "supersete"] ==> DefaultDays(m) == {1, 3, 5}
    ensures forall m :: m in ["megasena", "duplasena", "timemania", "diadesorte"] ==> DefaultDays(m) == {2, 4, 6}
    ensures forall m :: m !in ["lotofacil", "quina", "lotomania", "supersete", "megasena", "duplasena", "timemania", "diadesorte"] ==> DefaultDays(m) == {}
  {
  }

  // ----- what is decided for one modality -----

  datatype Decision = Skip | Fail | Create(number: int, draw: int, cutoff: int)

  function DrawAt(day: int): int {
    day * MS_PER_DAY + DRAW_HOUR_MS + BRAZIL_OFFSET
  }

  ghost function Decide(db: Db, config: Config, now: int, cut: Cutoff): Decision {
    if exists id :: OpenRow(db, config.modality, now, id) then Skip
    else if Latest(db, config.modality).None? then Skip
    else
      var latest := Latest(db, config.modality).value;
      assert Regular(db, config.modality, latest);
      DecideAfter(db.contests, config, now, cut, BrazilDayNumber(db.contests[latest].draw), DrawDays(db, config, now), db.contests[latest].number + 1)
  }

  ghost function DecideAfter(contests: map<nat, Contest>, config: Config, now: int, cut: Cutoff, lastDay: int, days: set<int>, number: int): Decision {
    if !exists r :: IsNext(r, lastDay, days) then Skip
    else
      var day :| IsNext(day, lastDay, days);
      var cutoff := cut(DrawAt(day), config.hour, config.minute);
      if cutoff.None? then Fail
      else if cutoff.value <= now then Skip
      else if Find(contests, config.modality, number).Some? then Skip
      else Create(number, DrawAt(day), cutoff.value)
  }

  function NewContest(config: Config, d: Decision): Contest
    requires d.Create?
  {
    Contest(config.modality, d.number, d.draw, d.cutoff, Aberto, PROJECTED, None, None, true)
  }

  ghost function EnsureOne(db: Db, config: Config, now: int, cut: Cutoff): Db {
    var d := Decide(db, config, now, cut);
    if d.Create? then Insert(db, NewContest(config, d)) else db
  }

  /** All modalities in order; an invalid cutoff hour aborts the rest. */
  ghost function EnsureAll(db: Db, configs: seq<Config>, now: int, cut: Cutoff): (Db, seq<Created>)
    decreases |configs|
  {
    if configs == [] then (db, [])
    else
      var d := Decide(db, configs[0], now, cut);
      if d.Fail? then (db, [])
      else
        var (after, rest) := EnsureAll(EnsureOne(db, configs[0], now, cut), configs[1..], now, cut);
        (after, (if d.Create? then [Created(configs[0].modality, d.number, d.draw, d.cutoff)] else []) + rest)
  }

  /** Does some modality abort the run? */
  ghost predicate Aborts(db: Db, configs: seq<Config>, now: int, cut: Cutoff)
    decreases |configs|
  {
    configs != [] && (Decide(db, configs[0], now, cut).Fail? || Aborts(EnsureOne(db, configs[0], now, cut), configs[1..], now, cut))
  }

  // ----- nothing existing is touched -----

  /** Rows are only added: open, projected, with a cutoff still ahead. */
  ghost predicate OnlyAdds(a: Db, b: Db, now: int) {
    && a.results == b.results && a.pools == b.pools && a.nextId <= b.nextId
    && (forall id :: id in a.contests ==> id in b.contests && b.contests[id] == a.contests[id])
    && (forall id :: id in b.contests && id !in a.contests ==>
          a.nextId <= id && b.contests[id].status == Aberto && b.contests[id].cutoff > now && b.contests[id].source == PROJECTED)
  }

  lemma DecisionFacts(db: Db, config: Config, now: int, cut: Cutoff)
    requires Decide(db, config, now, cut).Create?
    ensures var d := Decide(db, config, now, cut);
      d.cutoff > now && Find(db.contests, config.modality, d.number).None? && !exists id :: OpenRow(db, config.modality, now, id)
  {
  }

  lemma NewRowAdds(db: Db, config: Config, d: Decision, now: int)
    requires Inv(db) && d.Create? && d.cutoff > now && Find(db.contests, config.modality, d.number).None?
    ensures var after := Insert(db, NewContest(config, d)); Inv(after) && Evolves(db, after) && OnlyAdds(db, after, now)
  {
    InsertKeeps(db, NewContest(config, d));
  }

  lemma NothingAdded(db: Db, now: int)
    ensures OnlyAdds(db, db, now)
  {
  }

  lemma EnsureOneKeeps(db: Db, config: Config, now: int, cut: Cutoff)
    requires Inv(db)
    ensures Inv(EnsureOne(db, config, now, cut)) && OnlyAdds(db, EnsureOne(db, config, now, cut), now)
    ensures Evolves(db, EnsureOne(db, config, now, cut))
  {
    hide Inv, Evolves, OnlyAdds, Insert, NewContest, Decide;
    var d := Decide(db, config, now, cut);
    if d.Create? {
      DecisionFacts(db, config, now, cut);
      NewRowAdds(db, config, d, now);
    } else {
      EvolvesReflexive(db);
      NothingAdded(db, now);
    }
  }

  lemma {:induction false} EnsureAllKeeps(db: Db, configs: seq<Config>, now: int, cut: Cutoff)
    requires Inv(db)
    ensures Inv(EnsureAll(db, configs, now, cut).0) && OnlyAdds(db, EnsureAll(db, configs, now, cut).0, now)
    ensures Evolves(db, EnsureAll(db, configs, now, cut).0)
    decreases |configs|
  {
    if configs != [] && !Decide(db, configs[0], now, cut).Fail? {
      var next := EnsureOne(db, configs[0], now, cut);
      EnsureOneKeeps(db, configs[0], now, cut);
      EnsureAllKeeps(next, configs[1..], now, cut);
      EvolvesTransitive(db, next, EnsureAll(next, configs[1..], now, cut).0);
    }
  }

  /** A contest that is created follows the latest one: next number, first allowed draw day after it, cutoff of that draw. */
  ghost predicate FollowsLatest(db: Db, config: Config, now: int, cut: Cutoff, d: Decision, latest: nat)
    requires d.Create?
  {
    && IsLatest(db, config.modality, latest)
    && d.number == db.contests[latest].number + 1
    && IsNext(BrazilDayNumber(d.draw), BrazilDayNumber(db.contests[latest].draw), DrawDays(db, config, now))
    && cut(d.draw, config.hour, config.minute) == Some(d.cutoff)
  }

  lemma DrawIsOnItsDay(day: int)
    ensures BrazilDayNumber(DrawAt(day)) == day
  {
    LocalDayNumber(day, DRAW_HOUR_MS);
  }

  lemma CreationIsTheNextDraw(db: Db, config: Config, now: int, cut: Cutoff) returns (latest: nat)
    requires Inv(db) && Decide(db, config, now, cut).Create?
    ensures FollowsLatest(db, config, now, cut, Decide(db, config, now, cut), latest)
    ensures BrazilDayNumber(Decide(db, config, now, cut).draw) <= BrazilDayNumber(db.contests[latest].draw) + 7
  {
    latest := Latest(db, config.modality).value;
    assert IsLatest(db, config.modality, latest);
    var lastDay, days := BrazilDayNumber(db.contests[latest].draw), DrawDays(db, config, now);
    hide Inv, DrawDays, BrazilDayNumber, IsLatest, OpenRow, DrawAt;
    var day := NextOfDecision(db.contests, config, now, cut, lastDay, days, db.contests[latest].number + 1);
    DrawIsOnItsDay(day);
  }

  /** The row that a creation inserts, and the hour of its draw: 20:00 in Brazil. */
  lemma CreatedRow(db: Db, config: Config, now: int, cut: Cutoff)
    requires Decide(db, config, now, cut).Create?
    ensures var d, after := Decide(db, config, now, cut), EnsureOne(db, config, now, cut);
      && after.contests == db.contests[db.nextId := Contest(config.modality, d.number, d.draw, d.cutoff, Aberto, "projetado", None, None, true)]
      && after.results == db.results && after.pools == db.pools && after.nextId == db.nextId + 1
      && (d.draw - BRAZIL_OFFSET) % MS_PER_DAY == 72_000_000
  {
    var d := Decide(db, config, now, cut);
    var latest := Latest(db, config.modality).value;
    var lastDay, days := BrazilDayNumber(db.contests[latest].draw), DrawDays(db, config, now);
    hide DrawDays, BrazilDayNumber, IsLatest, OpenRow;
    var day := NextOfDecision(db.contests, config, now, cut, lastDay, days, db.contests[latest].number + 1);
    DivShift(72_000_000, MS_PER_DAY, day);
  }

  lemma NextOfDecision(contests: map<nat, Contest>, config: Config, now: int, cut: Cutoff, lastDay: int, days: set<int>, number: int) returns (day: int)
    requires DecideAfter(contests, config, now, cut, lastDay, days, number).Create?
    ensures var d := DecideAfter(contests, config, now, cut, lastDay, days, number);
      d.number == number && d.draw == DrawAt(day) && IsNext(day, lastDay, days) && day <= lastDay + 7
      && cut(d.draw, config.hour, config.minute) == Some(d.cutoff)
  {
    day :| IsNext(day, lastDay, days);
    forall other | IsNext(other, lastDay, days) ensures other == day { NextIsUnique(other, day, lastDay, days); }
    WithinAWeek(lastDay, days, Weekday(day));
  }

  /** Everything a new contest needs: a latest one, a draw day after it, a cutoff still ahead and a free number. */
  ghost predicate CanCreate(db: Db, config: Config, now: int, cut: Cutoff, latest: nat, day: int) {
    && IsLatest(db, config.modality, latest)
    && IsNext(day, BrazilDayNumber(db.contests[latest].draw), DrawDays(db, config, now))
    && cut(DrawAt(day), config.hour, config.minute).Some? && cut(DrawAt(day), config.hour, config.minute).value > now
    && Find(db.contests, config.modality, db.contests[latest].number + 1).None?
  }

  /** A contest is created exactly when none is open and everything it needs is there. */
  lemma CreatesExactlyWhenPossible(db: Db, config: Config, now: int, cut: Cutoff)
    requires Inv(db)
    ensures Decide(db, config, now, cut).Create?
       <==> !(exists id :: OpenRow(db, config.modality, now, id)) && exists latest, day :: CanCreate(db, config, now, cut, latest, day)
  {
    if exists id :: OpenRow(db, config.modality, now, id) {
    } else if Latest(db, config.modality).None? {
      assert forall id :: !IsLatest(db, config.modality, id);
    } else {
      var latest := Latest(db, config.modality).value;
      assert IsLatest(db, config.modality, latest);
      forall other: nat | IsLatest(db, config.modality, other) ensures other == latest { LatestIs(db, config.modality, other); }
      hide Inv, DrawDays, BrazilDayNumber, IsLatest, OpenRow, DrawAt;
      var lastDay, days, number := BrazilDayNumber(db.contests[latest].draw), DrawDays(db, config, now), db.contests[latest].number + 1;
      AfterExactly(db.contests, config, now, cut, lastDay, days, number);
      if day :| CreatesOn(db.contests, config, now, cut, lastDay, days, number, day) {
        assert CanCreate(db, config, now, cut, latest, day);
      }
      forall other: nat, day: int | CanCreate(db, config, now, cut, other, day)
        ensures CreatesOn(db.contests, config, now, cut, lastDay, days, number, day)
      {
      }
    }
  }

  ghost predicate CreatesOn(contests: map<nat, Contest>, config: Config, now: int, cut: Cutoff, lastDay: int, days: set<int>, number: int, day: int) {
    && IsNext(day, lastDay, days) && Find(contests, config.modality, number).None?
    && cut(DrawAt(day), config.hour, config.minute).Some? && cut(DrawAt(day), config.hour, config.minute).value > now
  }

  lemma AfterExactly(contests: map<nat, Contest>, config: Config, now: int, cut: Cutoff, lastDay: int, days: set<int>, number: int)
    ensures DecideAfter(contests, config, now, cut, lastDay, days, number).Create?
       <==> exists day :: CreatesOn(contests, config, now, cut, lastDay, days, number, day)
  {
    forall a: int, b: int | IsNext(a, lastDay, days) && IsNext(b, lastDay, days) ensures a == b { NextIsUnique(a, b, lastDay, days); }
    hide IsNext, DrawAt;
    if day :| IsNext(day, lastDay, days) {
      assert DecideAfter(contests, config, now, cut, lastDay, days, number).Create? <==> CreatesOn(contests, config, now, cut, lastDay, days, number, day);
    }
  }

  // ----- and a second run finds nothing to do -----

  ghost predicate Quiet(db: Db, config: Config, now: int, cut: Cutoff) {
    !Decide(db, config, now, cut).Create?
  }

  predicate OfModality(db: Db, modality: string, id: nat) {
    id in db.contests && db.contests[id].modality == modality
  }

  ghost predicate SameModality(a: Db, b: Db, modality: string) {
    && a.nextId <= b.nextId
    && (forall id: nat :: OfModality(a, modality, id) <==> OfModality(b, modality, id))
    && (forall id: nat :: OfModality(a, modality, id) ==> a.contests[id] == b.contests[id])
  }

  lemma SameFind(a: Db, b: Db, modality: string, number: int)
    requires Inv(a) && Inv(b) && SameModality(a, b, modality)
    ensures Find(a.contests, modality, number) == Find(b.contests, modality, number)
  {
    forall id: nat ensures Row(a.contests, id, modality, number) <==> Row(b.contests, id, modality, number) {
      assert OfModality(a, modality, id) <==> OfModality(b, modality, id);
    }
    if exists id :: Row(a.contests, id, modality, number) {
      var id :| Row(a.contests, id, modality, number);
      FindIs(a, id, modality, number);
      FindIs(b, id, modality, number);
    }
  }

  lemma SameRegular(a: Db, b: Db, modality: string)
    requires SameModality(a, b, modality)
    ensures forall id: nat :: Regular(a, modality, id) <==> Regular(b, modality, id)
    ensures forall id: nat :: Regular(a, modality, id) ==> Regular(b, modality, id) && a.contests[id] == b.contests[id]
  {
    forall id: nat ensures Regular(a, modality, id) <==> Regular(b, modality, id) {
      assert OfModality(a, modality, id) <==> OfModality(b, modality, id);
    }
    forall id: nat | Regular(a, modality, id) ensures Regular(b, modality, id) && a.contests[id] == b.contests[id] {
      assert OfModality(a, modality, id);
    }
  }

  lemma SameLatest(a: Db, b: Db, modality: string)
    requires Inv(a) && Inv(b) && SameModality(a, b, modality)
    ensures Latest(a, modality) == Latest(b, modality)
  {
    SameRegular(a, b, modality);
    forall id: nat ensures IsLatest(a, modality, id) <==> IsLatest(b, modality, id) {
      if Regular(a, modality, id) {
        assert forall j: nat :: Regular(a, modality, j) ==> a.contests[j].number == b.contests[j].number;
      }
    }
    if exists id :: IsLatest(a, modality, id) {
      var id :| IsLatest(a, modality, id);
      LatestIs(a, modality, id);
      LatestIs(b, modality, id);
    }
  }

  lemma SameDays(a: Db, b: Db, config: Config, now: int)
    requires Inv(a) && Inv(b) && SameModality(a, b, config.modality)
    ensures DrawDays(a, config, now) == DrawDays(b, config, now)
  {
    var m := config.modality;
    SameRegular(a, b, m);
    forall w ensures SeenRows(a, m, now, w, a.nextId) == SeenRows(b, m, now, w, b.nextId) {
      SameSeen(a, b, m, now, w);
    }
    assert OftenSeen(a, m, now) == OftenSeen(b, m, now);
  }

  lemma SameSeen(a: Db, b: Db, m: string, now: int, w: int)
    requires Inv(a) && Inv(b) && SameModality(a, b, m)
    ensures SeenRows(a, m, now, w, a.nextId) == SeenRows(b, m, now, w, b.nextId)
  {
    SameRegular(a, b, m);
    forall id: nat ensures id in SeenRows(a, m, now, w, a.nextId) <==> id in SeenRows(b, m, now, w, b.nextId) {
      assert Regular(a, m, id) <==> Regular(b, m, id);
    }
  }

  lemma SameOpen(a: Db, b: Db, modality: string, now: int)
    requires SameModality(a, b, modality)
    ensures (exists id :: OpenRow(a, modality, now, id)) <==> (exists id :: OpenRow(b, modality, now, id))
  {
    forall id: nat ensures OpenRow(a, modality, now, id) <==> OpenRow(b, modality, now, id) {
      assert OfModality(a, modality, id) <==> OfModality(b, modality, id);
    }
  }

  lemma SameDecision(a: Db, b: Db, config: Config, now: int, cut: Cutoff)
    requires Inv(a) && Inv(b) && SameModality(a, b, config.modality)
    ensures Decide(a, config, now, cut) == Decide(b, config, now, cut)
  {
    hide Inv, DrawDays, DecideAfter, OpenRow, BrazilDayNumber;
    var m := config.modality;
    SameOpen(a, b, m, now);
    SameLatest(a, b, m);
    SameDays(a, b, config, now);
    if Latest(a, m).Some? {
      var latest := Latest(a, m).value;
      assert IsLatest(a, m, latest) && OfModality(a, m, latest);
      SameAfter(a, b, config, now, cut, BrazilDayNumber(a.contests[latest].draw), DrawDays(a, config, now), a.contests[latest].number + 1);
    }
  }

  lemma SameAfter(a: Db, b: Db, config: Config, now: int, cut: Cutoff, lastDay: int, days: set<int>, number: int)
    requires Inv(a) && Inv(b) && SameModality(a, b, config.modality)
    ensures DecideAfter(a.contests, config, now, cut, lastDay, days, number) == DecideAfter(b.contests, config, now, cut, lastDay, days, number)
  {
    SameFind(a, b, config.modality, number);
  }

  lemma OpenIsQuiet(db: Db, config: Config, now: int, cut: Cutoff, id: nat)
    requires OpenRow(db, config.modality, now, id)
    ensures Quiet(db, config, now, cut)
  {
    hide DecideAfter, DrawDays, Latest;
  }

  lemma OtherModalityIsSame(db: Db, config: Config, modality: string, now: int, cut: Cutoff)
    requires Inv(db) && modality != config.modality
    ensures SameModality(db, EnsureOne(db, config, now, cut), modality)
  {
    hide Decide;
  }

  /** After a modality has been handled it needs nothing more, and handling one leaves the quiet ones quiet. */
  lemma OneLeavesQuiet(db: Db, config: Config, other: Config, now: int, cut: Cutoff)
    requires Inv(db)
    ensures Quiet(EnsureOne(db, config, now, cut), config, now, cut)
    ensures Quiet(db, other, now, cut) ==> Quiet(EnsureOne(db, config, now, cut), other, now, cut)
    ensures Decide(db, other, now, cut).Fail? ==> Quiet(EnsureOne(db, config, now, cut), other, now, cut)
  {
    hide Inv, Decide, OpenRow, Insert, Evolves, OnlyAdds, SameModality;
    if Decide(db, config, now, cut).Create? {
      var after := EnsureOne(db, config, now, cut);
      EnsureOneKeeps(db, config, now, cut);
      NewRowIsOpen(db, config, now, cut);
      OpenIsQuiet(after, config, now, cut, db.nextId);
      if other.modality == config.modality {
        OpenIsQuiet(after, other, now, cut, db.nextId);
      } else {
        OtherModalityIsSame(db, config, other.modality, now, cut);
        SameDecision(db, after, other, now, cut);
      }
    }
  }

  lemma {:induction false} QuietStays(db: Db, configs: seq<Config>, other: Config, now: int, cut: Cutoff)
    requires Inv(db) && Quiet(db, other, now, cut)
    ensures Quiet(EnsureAll(db, configs, now, cut).0, other, now, cut)
    decreases |configs|
  {
    if configs != [] && !Decide(db, configs[0], now, cut).Fail? {
      OneLeavesQuiet(db, configs[0], other, now, cut);
      EnsureOneKeeps(db, configs[0], now, cut);
      QuietStays(EnsureOne(db, configs[0], now, cut), configs[1..], other, now, cut);
    }
  }

  /** The modalities reached before an abort are all quiet at the end. */
  ghost predicate SettledUpTo(db: Db, configs: seq<Config>, now: int, cut: Cutoff)
    decreases |configs|
  {
    configs == [] || Decide(db, configs[0], now, cut).Fail? || (Quiet(db, configs[0], now, cut) && SettledUpTo(db, configs[1..], now, cut))
  }

  lemma {:induction false} SettledIsIdle(db: Db, configs: seq<Config>, now: int, cut: Cutoff)
    requires SettledUpTo(db, configs, now, cut)
    ensures EnsureAll(db, configs, now, cut) == (db, [])
    decreases |configs|
  {
    if configs != [] && !Decide(db, configs[0], now, cut).Fail? {
      SettledIsIdle(db, configs[1..], now, cut);
      assert Quiet(db, configs[0], now, cut) && EnsureOne(db, configs[0], now, cut) == db;
      assert [] + EnsureAll(db, configs[1..], now, cut).1 == [];
    }
  }

  lemma {:induction false} RunSettles(db: Db, configs: seq<Config>, now: int, cut: Cutoff)
    requires Inv(db)
    ensures SettledUpTo(EnsureAll(db, configs, now, cut).0, configs, now, cut)
    decreases |configs|
  {
    if configs != [] && !Decide(db, configs[0], now, cut).Fail? {
      var next := EnsureOne(db, configs[0], now, cut);
      EnsureOneKeeps(db, configs[0], now, cut);
      OneLeavesQuiet(db, configs[0], configs[0], now, cut);
      RunSettles(next, configs[1..], now, cut);
      QuietStays(next, configs[1..], configs[0], now, cut);
    }
  }

  /** A second run at the same instant creates nothing and changes nothing. */
  lemma SecondRunIsIdle(db: Db, configs: seq<Config>, now: int, cut: Cutoff)
    requires Inv(db)
    ensures var after := EnsureAll(db, configs, now, cut).0; EnsureAll(after, configs, now, cut) == (after, [])
  {
    RunSettles(db, configs, now, cut);
    SettledIsIdle(EnsureAll(db, configs, now, cut).0, configs, now, cut);
  }

  ghost predicate Avoids(created: seq<Created>, modality: string) {
    forall i :: 0 <= i < |created| ==> created[i].modality != modality
  }

  ghost predicate OneEach(created: seq<Created>) {
    forall i, j :: 0 <= i < j < |created| ==> created[i].modality != created[j].modality
  }

  lemma PrependOne(c: Created, rest: seq<Created>, modality: string)
    ensures Avoids(rest, modality) && c.modality != modality ==> Avoids([c] + rest, modality)
    ensures OneEach(rest) && Avoids(rest, c.modality) ==> OneEach([c] + rest)
  {
    var all := [c] + rest;
    if OneEach(rest) && Avoids(rest, c.modality) {
      forall i, j | 0 <= i < j < |all| ensures all[i].modality != all[j].modality {
        assert all[j] == rest[j - 1];
        if i > 0 { assert all[i] == rest[i - 1]; }
      }
    }
  }

  /** The list of creations, unfolded once. */
  lemma CreatedHead(db: Db, configs: seq<Config>, now: int, cut: Cutoff)
    requires configs != [] && !Decide(db, configs[0], now, cut).Fail?
    ensures var d := Decide(db, configs[0], now, cut);
            var rest := EnsureAll(EnsureOne(db, configs[0], now, cut), configs[1..], now, cut).1;
      EnsureAll(db, configs, now, cut).1 == if d.Create? then [Created(configs[0].modality, d.number, d.draw, d.cutoff)] + rest else rest
  {
    var rest := EnsureAll(EnsureOne(db, configs[0], now, cut), configs[1..], now, cut).1;
    assert [] + rest == rest;
  }

  lemma {:induction false} OpenCreatesNone(db: Db, configs: seq<Config>, modality: string, id: nat, now: int, cut: Cutoff)
    requires Inv(db) && OpenRow(db, modality, now, id)
    ensures Avoids(EnsureAll(db, configs, now, cut).1, modality)
    decreases |configs|
  {
    if configs != [] && !Decide(db, configs[0], now, cut).Fail? {
      var d, next := Decide(db, configs[0], now, cut), EnsureOne(db, configs[0], now, cut);
      EnsureOneKeeps(db, configs[0], now, cut);
      assert OpenRow(next, modality, now, id);
      OpenCreatesNone(next, configs[1..], modality, id, now, cut);
      CreatedHead(db, configs, now, cut);
      if d.Create? {
        DecisionFacts(db, configs[0], now, cut);
        PrependOne(Created(configs[0].modality, d.number, d.draw, d.cutoff), EnsureAll(next, configs[1..], now, cut).1, modality);
      }
    }
  }

  /** At most one contest is created per modality, even if the configuration listed one twice. */
  lemma {:induction false} OnePerModality(db: Db, configs: seq<Config>, now: int, cut: Cutoff)
    requires Inv(db)
    ensures OneEach(EnsureAll(db, configs, now, cut).1)
    decreases |configs|
  {
    if configs != [] && !Decide(db, configs[0], now, cut).Fail? {
      var d, next := Decide(db, configs[0], now, cut), EnsureOne(db, configs[0], now, cut);
      EnsureOneKeeps(db, configs[0], now, cut);
      OnePerModality(next, configs[1..], now, cut);
      CreatedHead(db, configs, now, cut);
      if d.Create? {
        NewRowIsOpen(db, configs[0], now, cut);
        OpenCreatesNone(next, configs[1..], configs[0].modality, db.nextId, now, cut);
        PrependOne(Created(configs[0].modality, d.number, d.draw, d.cutoff), EnsureAll(next, configs[1..], now, cut).1, configs[0].modality);
      }
    }
  }

  lemma NewRowIsOpen(db: Db, config: Config, now: int, cut: Cutoff)
    requires Decide(db, config, now, cut).Create?
    ensures OpenRow(EnsureOne(db, config, now, cut), config.modality, now, db.nextId)
  {
    DecisionFacts(db, config, now, cut);
  }
}
