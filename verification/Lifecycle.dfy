/**
  The steps that write contests, as one transition system: the worker's cycle (apps/worker/src/main.ts, history.ts),
  the projected contests (packages/shared-types/src/upcoming.ts), the administrator's festival and manual contests
  (apps/api/src/lotteries/lotteries.service.ts) and the creation of pools. None of these steps loses a pool; removing
  an unused one is a step of `SettledRuns`.
 */
module Lifecycle {
  import opened BrazilTime
  import opened Calendar
  import opened Contests
  import opened Upcoming
  import opened Wrappers

  /** `SyncOne` carries what `Accept` made of the payload that the sources gave. */
  datatype Event =
    | Close(now: int)
    | SyncOne(modality: string, response: Option<Response>, source: string, now: int, rows: seq<nat>, nextRows: seq<nat>)
    | Project(configs: seq<Config>, now: int)
    | StoreHistory(modality: string, number: int, draw: int, cutoff: int, result: DrawResult, source: string)
    | CreateManual(modality: string, number: int, draw: int, saleEnd: Option<int>, now: int)
    | CreateFestival(modality: string, special: string, name: string, draw: int, official: Option<nat>, saleEnd: Option<int>, now: int)
    | UpdateFestival(id: nat, number: int, rows: seq<nat>)
    | DeleteFestival(id: nat)
    | OpenPool(pool: nat, contest: nat)

  /** One drawn contest of the history: created as settled, or settled where it is; its result is stored with it. */
  ghost function History(db: Db, e: Event): Db
    requires e.StoreHistory?
  {
    var found := Find(db.contests, e.modality, e.number);
    var id := if found.Some? then found.value else db.nextId;
    var c := if found.Some? then db.contests[id].(status := Apurado)
             else Contest(e.modality, e.number, e.draw, e.cutoff, Apurado, e.source, None, None, true);
    Put(db, id, c, db.results[id := e.result])
  }

  /** Manual entry: the draw must not be past and the number must be free. */
  ghost function Manual(db: Db, e: Event): Db
    requires e.CreateManual?
  {
    if e.draw < e.now || e.saleEnd.None? || Find(db.contests, e.modality, e.number).Some? then db
    else Insert(db, Contest(e.modality, e.number, e.draw, e.saleEnd.value, Aberto, "manual", None, None, true))
  }

  ghost predicate FestivalThatDay(db: Db, modality: string, day: int, id: nat) {
    id in db.contests && db.contests[id].modality == modality && db.contests[id].special.Some?
    && db.contests[id].numberDefined && BrazilDayNumber(db.contests[id].draw) == day
  }

  /** A festival contest, with its official number or the provisional one of its day. */
  ghost function Festival(db: Db, e: Event): Db
    requires e.CreateFestival?
  {
    var number := if e.official.Some? then e.official.value else ProvisionalNumber(e.draw);
    var found := Find(db.contests, e.modality, number);
    if e.draw <= e.now || BrazilDay(e.draw).year < 0 then db
    else if found.Some? then
      if e.official.Some? && db.contests[found.value].special.None? then
        db.(contests := db.contests[found.value := db.contests[found.value].(special := Some(e.special), specialName := Some(e.name))])
      else db
    else if e.saleEnd.None? || (e.official.None? && exists id :: FestivalThatDay(db, e.modality, BrazilDayNumber(e.draw), id)) then db
    else Insert(db, Contest(e.modality, number, e.draw, e.saleEnd.value, Aberto, "manual", Some(e.special), Some(e.name), e.official.Some?))
  }

  /** The official number of a provisional festival contest: taken, or merged into the contest that already has it. */
  ghost function Numbered(db: Db, e: Event): Db
    requires e.UpdateFestival?
  {
    if e.id !in db.contests || db.contests[e.id].special.None? || db.contests[e.id].numberDefined then db
    else
      var c := db.contests[e.id];
      var clash := Find(db.contests, c.modality, e.number);
      if clash.Some? && clash.value != e.id then Adopt(db, c.modality, e.number, e.rows)
      else db.(contests := db.contests[e.id := c.(number := e.number, numberDefined := true)])
  }

  ghost function Removed(db: Db, id: nat): Db {
    if id !in db.contests || db.contests[id].special.None? || exists p :: p in db.pools && db.pools[p] == id then db
    else db.(contests := db.contests - {id}, results := db.results - {id})
  }

  ghost function Step(db: Db, e: Event): Db {
    match e
    case Close(now) => CloseExpired(db, now)
    case SyncOne(m, response, source, now, rows, nextRows) => StoreResponse(db, m, response, source, now, rows, nextRows)
    case Project(configs, now) => EnsureAll(db, configs, now, CalculateBrazilCutoff).0
    case StoreHistory(_, _, _, _, _, _) => History(db, e)
    case CreateManual(_, _, _, _, _) => Manual(db, e)
    case CreateFestival(_, _, _, _, _, _, _) => Festival(db, e)
    case UpdateFestival(_, _, _) => Numbered(db, e)
    case DeleteFestival(id) => Removed(db, id)
    case OpenPool(pool, contest) =>
      if pool !in db.pools && contest in db.contests then db.(pools := db.pools[pool := contest]) else db
  }

  /** Query answers are right, and request bodies pass validation (contest numbers are at least 1). */
  ghost predicate Admissible(db: Db, e: Event) {
    match e
    case SyncOne(m, response, _, _, rows, nextRows) =>
      response.Some? ==> SyncRows(db, m, response.value, rows, nextRows)
    case UpdateFestival(id, number, rows) =>
      number >= 1 && (id in db.contests ==> Candidates(rows, db, db.contests[id].modality, BrazilDayNumber(db.contests[id].draw)))
    case _ => true
  }

  // ----- what each entry writes -----

  ghost predicate Taken(db: Db, modality: string, number: int) {
    exists id :: Row(db.contests, id, modality, number)
  }

  ghost predicate Inserted(db: Db, after: Db, c: Contest) {
    after == Db(db.contests[db.nextId := c], db.results, db.pools, db.nextId + 1)
  }

  /** A past draw settles the contest with its number, which keeps its date, or is a new settled contest; with its result. */
  lemma HistoryEffect(db: Db, e: Event)
    requires Inv(db) && e.StoreHistory?
    ensures forall id :: Row(db.contests, id, e.modality, e.number) ==>
      History(db, e) == db.(contests := db.contests[id := db.contests[id].(status := Apurado)], results := db.results[id := e.result])
    ensures !Taken(db, e.modality, e.number) ==>
      History(db, e) == Db(db.contests[db.nextId := Contest(e.modality, e.number, e.draw, e.cutoff, Apurado, e.source, None, None, true)],
                           db.results[db.nextId := e.result], db.pools, db.nextId + 1)
  {
    forall id: nat | Row(db.contests, id, e.modality, e.number)
      ensures History(db, e) == db.(contests := db.contests[id := db.contests[id].(status := Apurado)], results := db.results[id := e.result])
    {
      FindIs(db, id, e.modality, e.number);
    }
  }

  /** A manual contest is open, and refused when its draw is past, its cutoff invalid or its number taken. */
  lemma ManualEffect(db: Db, e: Event)
    requires e.CreateManual?
    ensures if e.draw >= e.now && e.saleEnd.Some? && !Taken(db, e.modality, e.number)
      then Inserted(db, Manual(db, e), Contest(e.modality, e.number, e.draw, e.saleEnd.value, Aberto, "manual", None, None, true))
      else Manual(db, e) == db
  {
  }

  lemma FreeExactly(db: Db, modality: string, number: int)
    ensures Find(db.contests, modality, number).None? <==> !Taken(db, modality, number)
  {
  }

  /** A festival under its official number is marked on the contest that has it, once, or else created with it. */
  lemma NumberedFestivalEffect(db: Db, e: Event)
    requires Inv(db) && e.CreateFestival? && BrazilDay(e.draw).year >= 0 && e.official.Some?
    ensures e.draw <= e.now ==> Festival(db, e) == db
    ensures e.draw > e.now ==> forall id :: Row(db.contests, id, e.modality, e.official.value) ==>
      Festival(db, e) == if db.contests[id].special.Some? then db
        else db.(contests := db.contests[id := db.contests[id].(special := Some(e.special), specialName := Some(e.name))])
    ensures e.draw > e.now && !Taken(db, e.modality, e.official.value) ==>
      if e.saleEnd.None? then Festival(db, e) == db
      else Inserted(db, Festival(db, e), Contest(e.modality, e.official.value, e.draw, e.saleEnd.value, Aberto, "manual", Some(e.special), Some(e.name), true))
  {
    forall id: nat | Row(db.contests, id, e.modality, e.official.value) ensures Find(db.contests, e.modality, e.official.value) == Some(id) {
      FindIs(db, id, e.modality, e.official.value);
    }
    FreeExactly(db, e.modality, e.official.value);
    hide BrazilDay, BrazilDayNumber, Inv, Find, Taken, FestivalThatDay;
  }

  /** Without one it is created under the provisional number of its day, unless a numbered festival of the modality is drawn on that day. */
  lemma ProvisionalFestivalEffect(db: Db, e: Event)
    requires e.CreateFestival? && BrazilDay(e.draw).year >= 0 && e.official.None?
    ensures e.draw <= e.now ==> Festival(db, e) == db
    ensures e.draw > e.now ==>
      var c := BrazilDay(e.draw);
      var number := -(c.year * 10_000 + c.month * 100 + c.day);
      if e.saleEnd.None? || Taken(db, e.modality, number) || NumberedFestivalOn(db, e.modality, c) then Festival(db, e) == db
      else Inserted(db, Festival(db, e), Contest(e.modality, number, e.draw, e.saleEnd.value, Aberto, "manual", Some(e.special), Some(e.name), false))
  {
    hide BrazilDay, BrazilDayNumber, Find, Taken, NumberedFestivalOn, FestivalThatDay;
    SameDay(db, e);
    var number := ProvisionalNumber(e.draw);
    FreeExactly(db, e.modality, number);
    var c := BrazilDay(e.draw);
    assert number == -(c.year * 10_000 + c.month * 100 + c.day);
    hide ProvisionalNumber;
  }

  ghost predicate NumberedFestivalOn(db: Db, modality: string, c: Civil) {
    exists id :: id in db.contests && db.contests[id].modality == modality && db.contests[id].special.Some?
      && db.contests[id].numberDefined && BrazilDay(db.contests[id].draw) == c
  }

  lemma SameDay(db: Db, e: Event)
    requires e.CreateFestival?
    ensures (exists id :: FestivalThatDay(db, e.modality, BrazilDayNumber(e.draw), id)) <==> NumberedFestivalOn(db, e.modality, BrazilDay(e.draw))
  {
    forall id ensures FestivalThatDay(db, e.modality, BrazilDayNumber(e.draw), id) <==>
      id in db.contests && db.contests[id].modality == e.modality && db.contests[id].special.Some?
      && db.contests[id].numberDefined && BrazilDay(db.contests[id].draw) == BrazilDay(e.draw)
    {
    }
  }

  /** A provisional festival takes a free number, or is merged with the other candidates of its day; otherwise nothing changes. */
  lemma NumberedEffect(db: Db, e: Event)
    requires Inv(db) && e.UpdateFestival? && Admissible(db, e)
    ensures e.id !in db.contests || db.contests[e.id].special.None? || db.contests[e.id].numberDefined ==> Numbered(db, e) == db
    ensures e.id in db.contests && db.contests[e.id].special.Some? && !db.contests[e.id].numberDefined ==>
      var c := db.contests[e.id];
      && (!Taken(db, c.modality, e.number) ==> Numbered(db, e) == db.(contests := db.contests[e.id := c.(number := e.number, numberDefined := true)]))
      && (forall official :: Row(db.contests, official, c.modality, e.number) ==>
            e.id in e.rows && AdoptedInto(db, Numbered(db, e), e.rows, official, c.modality, e.number))
  {
    hide BrazilDayNumber, AdoptedInto;
    if e.id in db.contests && db.contests[e.id].special.Some? && !db.contests[e.id].numberDefined {
      var c := db.contests[e.id];
      CandidatesAreProvisional(e.rows, db, c.modality, BrazilDayNumber(c.draw));
      assert IsCandidate(db, c.modality, BrazilDayNumber(c.draw), e.id) && e.id in e.rows;
      forall official: nat | Row(db.contests, official, c.modality, e.number)
        ensures e.id in e.rows && AdoptedInto(db, Numbered(db, e), e.rows, official, c.modality, e.number)
      {
        FindIs(db, official, c.modality, e.number);
        AdoptRows(db, c.modality, e.number, e.rows);
      }
    }
  }

  /** Only a festival without pools is removed. */
  lemma RemovedEffect(db: Db, id: nat)
    ensures if id in db.contests && db.contests[id].special.Some? && forall p :: p in db.pools ==> db.pools[p] != id
      then Removed(db, id) == Db(db.contests - {id}, db.results - {id}, db.pools, db.nextId)
      else Removed(db, id) == db
  {
  }

  // ----- every step keeps the invariant and undoes nothing -----

  lemma HistoryKeeps(db: Db, e: Event)
    requires Inv(db) && e.StoreHistory?
    ensures Inv(History(db, e)) && Evolves(db, History(db, e))
  {
    var found := Find(db.contests, e.modality, e.number);
    var id := if found.Some? then found.value else db.nextId;
    var after := History(db, e);
    if found.None? { FreeNumber(db, e.modality, e.number); }
    assert MayPut(db, id, after.contests[id], after.results);
    PutKeeps(db, id, after.contests[id], after.results);
  }

  lemma FestivalKeeps(db: Db, e: Event)
    requires Inv(db) && e.CreateFestival?
    ensures Inv(Festival(db, e)) && Evolves(db, Festival(db, e))
  {
    hide BrazilDay, ProvisionalNumber, Evolves;
    var number := if e.official.Some? then e.official.value else ProvisionalNumber(e.draw);
    var found := Find(db.contests, e.modality, number);
    var after := Festival(db, e);
    EvolvesReflexive(db);
    if after != db {
      ProvisionalNumberIsPerDay(e.draw, e.draw);
      if found.Some? {
        PutKeeps(db, found.value, after.contests[found.value], db.results);
        assert after == Put(db, found.value, after.contests[found.value], db.results);
      } else {
        InsertKeeps(db, Contest(e.modality, number, e.draw, e.saleEnd.value, Aberto, "manual", Some(e.special), Some(e.name), e.official.Some?));
      }
    }
  }

  lemma NumberedKeeps(db: Db, e: Event)
    requires Inv(db) && e.UpdateFestival? && Admissible(db, e)
    ensures Inv(Numbered(db, e)) && Evolves(db, Numbered(db, e))
  {
    if e.id in db.contests && db.contests[e.id].special.Some? && !db.contests[e.id].numberDefined {
      var c := db.contests[e.id];
      var clash := Find(db.contests, c.modality, e.number);
      if clash.Some? && clash.value != e.id {
        AdoptEvolves(db, c.modality, e.number, e.rows);
      } else {
        NumberTakenKeeps(db, e.id, e.number);
      }
    }
  }

  lemma NumberTakenKeeps(db: Db, id: nat, number: int)
    requires Inv(db) && id in db.contests && number >= 1
    requires Find(db.contests, db.contests[id].modality, number).None? || Find(db.contests, db.contests[id].modality, number) == Some(id)
    ensures var after := db.(contests := db.contests[id := db.contests[id].(number := number, numberDefined := true)]); Inv(after) && Evolves(db, after)
  {
    var m := db.contests[id].modality;
    forall j | j in db.contests && j != id ensures !(db.contests[j].modality == m && db.contests[j].number == number) {
      if Row(db.contests, j, m, number) { FindIs(db, j, m, number); }
    }
  }

  lemma ManualKeeps(db: Db, e: Event)
    requires Inv(db) && e.CreateManual?
    ensures Inv(Manual(db, e)) && Evolves(db, Manual(db, e))
  {
    if Manual(db, e) != db {
      InsertKeeps(db, Contest(e.modality, e.number, e.draw, e.saleEnd.value, Aberto, "manual", None, None, true));
    }
  }

  lemma RemovedKeeps(db: Db, id: nat)
    requires Inv(db)
    ensures Inv(Removed(db, id)) && Evolves(db, Removed(db, id))
  {
  }

  lemma PoolKeeps(db: Db, pool: nat, contest: nat)
    requires Inv(db) && contest in db.contests && pool !in db.pools
    ensures Inv(db.(pools := db.pools[pool := contest])) && Evolves(db, db.(pools := db.pools[pool := contest]))
  {
  }

  /** Each step, whatever it is, keeps the invariant, moves no status back, revives no contest and loses no pool. */
  lemma StepKeeps(db: Db, e: Event)
    requires Inv(db) && Admissible(db, e)
    ensures Inv(Step(db, e)) && Evolves(db, Step(db, e))
  {
    hide Inv, Evolves, CloseExpired, SyncTransaction, EnsureAll, History, Manual, Festival, Numbered, Removed, SyncRows;
    match e
    case Close(now) => CloseExpiredEffect(db, now);
    case SyncOne(m, response, source, now, rows, nextRows) =>
      if response.Some? {
        SyncKeeps(db, m, response.value, source, now, rows, nextRows);
      } else {
        EvolvesReflexive(db);
      }
    case Project(configs, now) => EnsureAllKeeps(db, configs, now, CalculateBrazilCutoff);
    case StoreHistory(_, _, _, _, _, _) => HistoryKeeps(db, e);
    case CreateManual(_, _, _, _, _) => ManualKeeps(db, e);
    case CreateFestival(_, _, _, _, _, _, _) => FestivalKeeps(db, e);
    case UpdateFestival(_, _, _) => NumberedKeeps(db, e);
    case DeleteFestival(id) => RemovedKeeps(db, id);
    case OpenPool(pool, contest) =>
      if pool !in db.pools && contest in db.contests { PoolKeeps(db, pool, contest); } else { EvolvesReflexive(db); }
  }

  // ----- runs -----

  ghost predicate ValidRun(db: Db, events: seq<Event>)
    decreases |events|
  {
    events == [] || (Admissible(db, events[0]) && ValidRun(Step(db, events[0]), events[1..]))
  }

  ghost function Run(db: Db, events: seq<Event>): Db
    decreases |events|
  {
    if events == [] then db else Run(Step(db, events[0]), events[1..])
  }

  /** A run goes on where it stopped, one step at a time. */
  lemma {:induction false} RunComposes(db: Db, a: seq<Event>, b: seq<Event>, e: Event)
    ensures Run(db, a + b) == Run(Run(db, a), b)
    ensures Run(db, [e]) == Step(db, e)
    decreases |a|
  {
    assert [e][1..] == [];
    if a == [] {
      assert a + b == b;
    } else {
      assert (a + b)[1..] == a[1..] + b;
      RunComposes(Step(db, a[0]), a[1..], b, e);
    }
    hide Step;
  }

  const EMPTY := Db(map[], map[], map[], 0)

  /**
    On every run: a contest's status only moves from aberto to fechado to apurado, (modality, number) stays unique,
    every settled contest has a result row, every pool points at an existing contest and none is lost.
   */
  lemma {:induction false} RunKeeps(db: Db, events: seq<Event>)
    requires Inv(db) && ValidRun(db, events)
    ensures Inv(Run(db, events)) && Evolves(db, Run(db, events))
    decreases |events|
  {
    if events != [] {
      var next := Step(db, events[0]);
      StepKeeps(db, events[0]);
      RunKeeps(next, events[1..]);
      EvolvesTransitive(db, next, Run(next, events[1..]));
    }
  }

  /** So a contest that was ever closed is never open again, at any later point of any run from the empty system. */
  lemma NeverReopens(before: seq<Event>, after: seq<Event>, id: nat)
    requires ValidRun(EMPTY, before) && ValidRun(Run(EMPTY, before), after)
    requires id in Run(EMPTY, before).contests && Run(EMPTY, before).contests[id].status != Aberto
    ensures id in Run(Run(EMPTY, before), after).contests ==> Run(Run(EMPTY, before), after).contests[id].status != Aberto
  {
    RunKeeps(EMPTY, before);
    RunKeeps(Run(EMPTY, before), after);
  }

  /** No contest that has expired by `t` is open. */
  ghost predicate NoneExpired(db: Db, t: int) {
    forall id: nat :: !ExpiredOpen(db, t, id)
  }

  /** What follows the second close of a cycle: projecting at a later time and completing the history. */
  predicate ClosingEvent(e: Event, t: int) {
    e.StoreHistory? || (e.Project? && e.now >= t)
  }

  lemma ClosingEventKeeps(db: Db, e: Event, t: int)
    requires Inv(db) && NoneExpired(db, t) && ClosingEvent(e, t)
    ensures NoneExpired(Step(db, e), t)
  {
    if e.Project? {
      EnsureAllKeeps(db, e.configs, e.now, CalculateBrazilCutoff);
      var after := Step(db, e);
      forall id: nat ensures !ExpiredOpen(after, t, id) {
        assert !ExpiredOpen(db, t, id);
      }
    } else {
      var after := Step(db, e);
      forall id: nat ensures !ExpiredOpen(after, t, id) {
        assert !ExpiredOpen(db, t, id);
      }
    }
  }

  /** A cycle ends with a close, the projection and the history: whatever happened before, nothing expired by that close is open at the end. */
  lemma CycleEndsWithNothingExpired(db: Db, t: int, rest: seq<Event>)
    requires Inv(db) && ValidRun(CloseExpired(db, t), rest)
    requires forall i :: 0 <= i < |rest| ==> ClosingEvent(rest[i], t)
    ensures NoneExpired(Run(CloseExpired(db, t), rest), t)
  {
    CloseExpiredEffect(db, t);
    StaysUnexpired(CloseExpired(db, t), t, rest);
  }

  lemma {:induction false} StaysUnexpired(db: Db, t: int, rest: seq<Event>)
    requires Inv(db) && NoneExpired(db, t) && ValidRun(db, rest)
    requires forall i :: 0 <= i < |rest| ==> ClosingEvent(rest[i], t)
    ensures NoneExpired(Run(db, rest), t)
    decreases |rest|
  {
    if rest != [] {
      ClosingEventKeeps(db, rest[0], t);
      StepKeeps(db, rest[0]);
      StaysUnexpired(Step(db, rest[0]), t, rest[1..]);
    }
  }
}
