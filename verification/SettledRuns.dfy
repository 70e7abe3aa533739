/**
  Contests and pools together (apps/worker/src/main.ts, apps/worker/src/settle.ts,
  apps/api/src/pools/pools.service.ts): contest steps move pools between contests, the worker settles registered pools
  of contests with a result one by one, and pools live their own life before that. Each pool is one row: the contest
  tables know the contest it points at, the ledger its details.
 */
module SettledRuns {
  import opened Wrappers
  import BrazilTime
  import C = Contests
  import L = Lifecycle
  import P = PoolSettlement
  import S = Settlement
  import U = Upcoming

  datatype World = World(db: C.Db, ledger: P.Ledger)

  /** `Settle` is the transaction of one pool; a cycle that is interrupted has fewer of them. */
  datatype Event =
    | Contest(event: L.Event)
    | Settle(pool: nat, official: S.Official)
    | Open(pool: nat, contest: nat, details: P.Pool)
    | Change(pool: nat, details: P.Pool)
    | Remove(pool: nat)

  /** Both tables have the same pools, on the same contests. */
  ghost predicate Linked(w: World) {
    && (forall p :: p in w.ledger.pools <==> p in w.db.pools)
    && forall p :: p in w.db.pools ==> w.ledger.pools[p].contest == w.db.pools[p]
  }

  /** Only contests with their official number have results. */
  ghost predicate Numbered(db: C.Db) {
    forall i :: i in db.results ==> i in db.contests && db.contests[i].numberDefined
  }

  ghost predicate SettledHaveResults(w: World) {
    forall p :: p in w.ledger.pools && w.ledger.pools[p].status == P.Apurado ==> w.ledger.pools[p].contest in w.db.results
  }

  ghost predicate Inv(w: World) {
    C.Inv(w.db) && Numbered(w.db) && Linked(w) && SettledHaveResults(w) && P.SettledOnce(w.ledger)
  }

  /** The ledger follows the pools that a contest step moved. */
  function Repoint(l: P.Ledger, pools: map<nat, nat>): P.Ledger {
    l.(pools := map p | p in l.pools && p in pools :: l.pools[p].(contest := pools[p]))
  }

  /** Registered on a contest that already has a result. */
  ghost predicate Waiting(w: World, pool: nat) {
    && pool in w.ledger.pools && pool in w.db.pools
    && w.ledger.pools[pool].status == P.Registrado && w.db.pools[pool] in w.db.results
  }

  /** The worker settles this pool: it is waiting, and its modality is not checked by hand. */
  ghost predicate MaySettle(w: World, pool: nat) {
    Waiting(w, pool) && w.db.pools[pool] in w.db.contests && S.SupportsAutoSettlement(w.db.contests[w.db.pools[pool]].modality)
  }

  /** Query answers are right, requests are validated, and a pool that is settled keeps what settlement wrote. */
  ghost predicate Admissible(w: World, e: Event) {
    match e
    case Contest(event) =>
      L.Admissible(w.db, event) && !event.OpenPool? && (event.StoreHistory? ==> event.number >= 1)
    case Settle(pool, _) => MaySettle(w, pool)
    case Open(pool, contest, details) =>
      pool !in w.db.pools && contest in w.db.contests && details.contest == contest && details.status != P.Apurado
    case Change(pool, details) =>
      && pool in w.ledger.pools
      && var before := w.ledger.pools[pool];
      && details.contest == before.contest && (details.status == P.Apurado <==> before.status == P.Apurado)
      && (before.status == P.Apurado ==> details.won == before.won && details.prizeTotal == before.prizeTotal)
    case Remove(pool) =>
      pool in w.ledger.pools && w.ledger.pools[pool].status != P.Apurado && w.ledger.pools[pool].status != P.Registrado
  }

  ghost function Step(w: World, e: Event): World
    requires Admissible(w, e)
  {
    match e
    case Contest(event) =>
      var db := L.Step(w.db, event);
      World(db, Repoint(w.ledger, db.pools))
    case Settle(pool, official) => w.(ledger := P.SettleRow(w.ledger, pool, official))
    case Open(pool, contest, details) =>
      World(w.db.(pools := w.db.pools[pool := contest]), w.ledger.(pools := w.ledger.pools[pool := details]))
    case Change(pool, details) =>
      w.(ledger := w.ledger.(pools := w.ledger.pools[pool := details]))
    case Remove(pool) =>
      World(w.db.(pools := w.db.pools - {pool}), w.ledger.(pools := w.ledger.pools - {pool}))
  }

  // ----- contest steps leave the pools of drawn contests where they are -----

  /** Pools of contests with a result stay there, and the result stays. */
  ghost predicate DrawnKept(a: C.Db, b: C.Db) {
    && Numbered(b)
    && (forall p :: p in a.pools && a.pools[p] in a.results ==> p in b.pools && b.pools[p] == a.pools[p] && a.pools[p] in b.results)
    && (forall p :: p in a.pools <==> p in b.pools)
  }

  lemma DrawnKeptTransitive(a: C.Db, b: C.Db, c: C.Db)
    requires DrawnKept(a, b) && DrawnKept(b, c)
    ensures DrawnKept(a, c)
  {
  }

  /** Results and pools are as they were, and no contest loses its number. */
  lemma SameResultsKept(a: C.Db, b: C.Db)
    requires Numbered(a) && a.results == b.results && a.pools == b.pools
    requires forall i :: i in a.contests ==> i in b.contests && (a.contests[i].numberDefined ==> b.contests[i].numberDefined)
    ensures DrawnKept(a, b)
  {
  }

  lemma PutKept(db: C.Db, id: nat, c: C.Contest, results: map<nat, C.DrawResult>)
    requires C.Inv(db) && Numbered(db) && C.MayPut(db, id, c, results) && c.numberDefined
    ensures DrawnKept(db, C.Put(db, id, c, results))
  {
  }

  lemma AdoptKept(db: C.Db, modality: string, number: int, rows: seq<nat>)
    requires C.Inv(db) && Numbered(db) && C.Provisional(db, modality, rows)
    ensures DrawnKept(db, C.Adopt(db, modality, number, rows))
  {
    if number > 0 && rows != [] {
      C.AdoptRows(db, modality, number, rows);
      AdoptedKept(db, C.Adopt(db, modality, number, rows), rows, C.OfficialId(db, modality, number, rows), modality, number);
    } else {
      SameResultsKept(db, db);
    }
  }

  lemma AdoptedKept(db: C.Db, after: C.Db, rows: seq<nat>, official: nat, modality: string, number: int)
    requires C.Inv(db) && Numbered(db) && C.Provisional(db, modality, rows)
    requires C.AdoptedInto(db, after, rows, official, modality, number)
    ensures DrawnKept(db, after)
  {
    hide C.FestivalOf;
  }

  lemma SyncKept(db: C.Db, m: string, r: C.Response, source: string, now: int, rows: seq<nat>, nextRows: seq<nat>)
    requires C.Inv(db) && Numbered(db) && C.SyncRows(db, m, r, rows, nextRows)
    ensures DrawnKept(db, C.SyncTransaction(db, m, r, source, now, rows, nextRows))
  {
    hide C.Inv, C.Candidates, C.Provisional, C.Adopt, C.StoreCurrent, C.StoreNext, C.Evolves, BrazilTime.BrazilDayNumber, DrawnKept;
    var d1 := C.Adopt(db, m, r.number, rows);
    C.CandidatesAreProvisional(rows, db, m, BrazilTime.BrazilDayNumber(r.draw));
    C.CandidatesAreProvisional(nextRows, d1, m, BrazilTime.BrazilDayNumber(r.nextDraw));
    C.AdoptEvolves(db, m, r.number, rows);
    AdoptKept(db, m, r.number, rows);
    KeptIsNumbered(db, d1);
    var d2 := C.Adopt(d1, m, r.nextNumber, nextRows);
    C.AdoptEvolves(d1, m, r.nextNumber, nextRows);
    AdoptKept(d1, m, r.nextNumber, nextRows);
    KeptIsNumbered(d1, d2);
    DrawnKeptTransitive(db, d1, d2);
    var d3 := C.StoreCurrent(d2, m, r, source);
    StoreKept(d2, m, r, source, now);
    KeptIsNumbered(d2, d3);
    DrawnKeptTransitive(db, d2, d3);
    C.StoreCurrentKeeps(d2, m, r, source);
    StoreKept(d3, m, r, source, now);
    DrawnKeptTransitive(db, d3, C.StoreNext(d3, m, r, source, now));
  }

  lemma KeptIsNumbered(a: C.Db, b: C.Db)
    requires DrawnKept(a, b)
    ensures Numbered(b)
  {
  }

  lemma StoreKept(db: C.Db, m: string, r: C.Response, source: string, now: int)
    requires C.Inv(db) && Numbered(db)
    ensures DrawnKept(db, C.StoreCurrent(db, m, r, source)) && DrawnKept(db, C.StoreNext(db, m, r, source, now))
  {
    var i := C.CurrentIsPut(db, m, r, source);
    var j := C.NextIsPut(db, m, r, source, now);
    var current, next := C.StoreCurrent(db, m, r, source), C.StoreNext(db, m, r, source, now);
    assert current.contests[i].numberDefined && next.contests[j].numberDefined;
    PutKept(db, i, current.contests[i], current.results);
    PutKept(db, j, next.contests[j], next.results);
  }

  lemma HistoryKept(db: C.Db, e: L.Event)
    requires C.Inv(db) && Numbered(db) && e.StoreHistory? && e.number >= 1
    ensures DrawnKept(db, L.History(db, e))
  {
    var found := C.Find(db.contests, e.modality, e.number);
    var id := if found.Some? then found.value else db.nextId;
    var after := L.History(db, e);
    assert after.contests[id].numberDefined;
    HistoryIsAllowed(db, e, id);
    hide C.MayPut, C.Inv, C.Find;
    PutKept(db, id, after.contests[id], after.results);
  }

  lemma HistoryIsAllowed(db: C.Db, e: L.Event, id: nat)
    requires C.Inv(db) && e.StoreHistory?
    requires id == if C.Find(db.contests, e.modality, e.number).Some? then C.Find(db.contests, e.modality, e.number).value else db.nextId
    ensures C.MayPut(db, id, L.History(db, e).contests[id], L.History(db, e).results)
  {
  }

  lemma NumberedKept(db: C.Db, e: L.Event)
    requires C.Inv(db) && Numbered(db) && e.UpdateFestival? && L.Admissible(db, e)
    ensures DrawnKept(db, L.Numbered(db, e))
  {
    var after := L.Numbered(db, e);
    if after == db {
      SameResultsKept(db, db);
    } else {
      var c := db.contests[e.id];
      var clash := C.Find(db.contests, c.modality, e.number);
      if clash.Some? && clash.value != e.id {
        C.CandidatesAreProvisional(e.rows, db, c.modality, BrazilTime.BrazilDayNumber(c.draw));
        AdoptKept(db, c.modality, e.number, e.rows);
      } else {
        SameResultsKept(db, after);
      }
    }
  }

  lemma FestivalKept(db: C.Db, e: L.Event)
    requires C.Inv(db) && Numbered(db) && e.CreateFestival?
    ensures DrawnKept(db, L.Festival(db, e))
  {
    hide BrazilTime.BrazilDay, BrazilTime.ProvisionalNumber, BrazilTime.BrazilDayNumber, L.FestivalThatDay, DrawnKept;
    SameResultsKept(db, L.Festival(db, e));
  }

  lemma ManualKept(db: C.Db, e: L.Event)
    requires C.Inv(db) && Numbered(db) && e.CreateManual?
    ensures DrawnKept(db, L.Manual(db, e))
  {
    SameResultsKept(db, L.Manual(db, e));
  }

  lemma ProjectKept(db: C.Db, e: L.Event)
    requires C.Inv(db) && Numbered(db) && e.Project?
    ensures DrawnKept(db, L.Step(db, e))
  {
    U.EnsureAllKeeps(db, e.configs, e.now, BrazilTime.CalculateBrazilCutoff);
    var after := L.Step(db, e);
    hide U.EnsureAll, C.Inv, C.Evolves;
    SameResultsKept(db, after);
  }

  lemma RemovedKept(db: C.Db, id: nat)
    requires C.Inv(db) && Numbered(db)
    ensures DrawnKept(db, L.Removed(db, id))
  {
  }

  /** Whatever the contest step: the tables stay right, and the pools of drawn contests stay on them. */
  lemma ContestStepKept(db: C.Db, e: L.Event)
    requires C.Inv(db) && Numbered(db) && L.Admissible(db, e) && !e.OpenPool? && (e.StoreHistory? ==> e.number >= 1)
    ensures C.Inv(L.Step(db, e)) && DrawnKept(db, L.Step(db, e))
  {
    L.StepKeeps(db, e);
    hide C.Inv, C.Evolves, DrawnKept, Numbered, C.CloseExpired, C.SyncTransaction, C.SyncRows, U.EnsureAll, L.History, L.Manual, L.Festival, L.Numbered, L.Removed;
    match e
    case Close(now) => CloseKept(db, now);
    case SyncOne(m, response, source, now, rows, nextRows) =>
      if response.Some? {
        SyncKept(db, m, response.value, source, now, rows, nextRows);
      } else {
        SameResultsKept(db, db);
      }
    case Project(_, _) => ProjectKept(db, e);
    case StoreHistory(_, _, _, _, _, _) => HistoryKept(db, e);
    case CreateManual(_, _, _, _, _) => ManualKept(db, e);
    case CreateFestival(_, _, _, _, _, _, _) => FestivalKept(db, e);
    case UpdateFestival(_, _, _) => NumberedKept(db, e);
    case DeleteFestival(id) => RemovedKept(db, id);
  }

  lemma CloseKept(db: C.Db, now: int)
    requires C.Inv(db) && Numbered(db)
    ensures DrawnKept(db, C.CloseExpired(db, now))
  {
    SameResultsKept(db, C.CloseExpired(db, now));
  }

  // ----- settlement on top of them -----

  /** What settlement wrote on a pool. */
  ghost predicate SameSettlement(a: P.Pool, b: P.Pool) {
    a.status == b.status && a.contest == b.contest && a.won == b.won && a.prizeTotal == b.prizeTotal
  }

  /** A settled pool is never lost, moved or settled again. */
  ghost predicate SettledStay(a: World, b: World) {
    forall p :: p in a.ledger.pools && a.ledger.pools[p].status == P.Apurado ==>
      p in b.ledger.pools && SameSettlement(a.ledger.pools[p], b.ledger.pools[p])
  }

  lemma StayReflexive(a: World)
    ensures SettledStay(a, a)
  {
  }

  lemma StayTransitive(a: World, b: World, c: World)
    requires SettledStay(a, b) && SettledStay(b, c)
    ensures SettledStay(a, c)
  {
  }

  lemma Follow(w: World, db: C.Db)
    requires Inv(w) && C.Inv(db) && DrawnKept(w.db, db)
    ensures Inv(World(db, Repoint(w.ledger, db.pools))) && SettledStay(w, World(db, Repoint(w.ledger, db.pools)))
  {
    hide C.Inv;
    var l := Repoint(w.ledger, db.pools);
    assert forall p :: p in l.pools <==> p in w.ledger.pools;
    assert l.audit == w.ledger.audit;
  }

  lemma SettledPoolKeeps(p: P.Pool, official: S.Official)
    ensures P.SettledPool(p, official).contest == p.contest && P.SettledPool(p, official).status == P.Apurado
  {
  }

  /** New details of a pool that was not settled, on the same contest. */
  lemma RowReplaced(w: World, pool: nat, details: P.Pool, audit: seq<P.Audit>)
    requires Linked(w) && SettledHaveResults(w) && pool in w.ledger.pools && w.ledger.pools[pool].status != P.Apurado
    requires details.contest == w.ledger.pools[pool].contest && (details.status == P.Apurado ==> details.contest in w.db.results)
    ensures var after := w.(ledger := P.Ledger(w.ledger.pools[pool := details], audit));
      Linked(after) && SettledHaveResults(after) && SettledStay(w, after)
  {
  }

  lemma SettleKeeps(w: World, pool: nat, official: S.Official)
    requires Inv(w) && MaySettle(w, pool)
    ensures var after := w.(ledger := P.SettleRow(w.ledger, pool, official)); Inv(after) && SettledStay(w, after)
  {
    hide C.Inv, P.SettledOnce, P.SettledPool, P.PoolAudits, Numbered, SettledHaveResults, SettledStay;
    var details := P.SettledPool(w.ledger.pools[pool], official);
    P.RowSettlesOnce(w.ledger, pool, official);
    SettledPoolKeeps(w.ledger.pools[pool], official);
    LinkedPools(w);
    RowReplaced(w, pool, details, P.SettleRow(w.ledger, pool, official).audit);
  }

  lemma OpenKeeps(w: World, pool: nat, contest: nat, details: P.Pool)
    requires Inv(w) && pool !in w.db.pools && contest in w.db.contests && details.contest == contest && details.status != P.Apurado
    ensures var after := World(w.db.(pools := w.db.pools[pool := contest]), w.ledger.(pools := w.ledger.pools[pool := details]));
      Inv(after) && SettledStay(w, after)
  {
    hide C.Inv, C.Evolves, P.SettledOnce, Linked, SettledHaveResults, SettledStay;
    var after := World(w.db.(pools := w.db.pools[pool := contest]), w.ledger.(pools := w.ledger.pools[pool := details]));
    LinkedPools(w);
    L.PoolKeeps(w.db, pool, contest);
    NewDetailsSettledOnce(w.ledger, pool, details);
    OpenLinks(w, pool, contest, details);
    assert Numbered(after.db);
  }

  lemma LinkedPools(w: World)
    requires Linked(w)
    ensures forall p :: p in w.ledger.pools <==> p in w.db.pools
    ensures forall p :: p in w.db.pools ==> w.ledger.pools[p].contest == w.db.pools[p]
  {
  }

  lemma OpenLinks(w: World, pool: nat, contest: nat, details: P.Pool)
    requires Linked(w) && SettledHaveResults(w) && pool !in w.db.pools && details.contest == contest && details.status != P.Apurado
    ensures var after := World(w.db.(pools := w.db.pools[pool := contest]), w.ledger.(pools := w.ledger.pools[pool := details]));
      Linked(after) && SettledHaveResults(after) && SettledStay(w, after)
  {
  }

  /** A pool that is not settled has no settlement on record, so its details may change freely until then. */
  lemma NewDetailsSettledOnce(l: P.Ledger, pool: nat, details: P.Pool)
    requires P.SettledOnce(l)
    requires pool in l.pools && l.pools[pool].status == P.Apurado ==> details.status == P.Apurado
    ensures P.SettledOnce(l.(pools := l.pools[pool := details]))
  {
  }

  lemma ChangeKeeps(w: World, pool: nat, details: P.Pool)
    requires Inv(w) && pool in w.ledger.pools && details.contest == w.ledger.pools[pool].contest
    requires details.status == P.Apurado <==> w.ledger.pools[pool].status == P.Apurado
    requires details.status == P.Apurado ==> details.won == w.ledger.pools[pool].won && details.prizeTotal == w.ledger.pools[pool].prizeTotal
    ensures var after := w.(ledger := w.ledger.(pools := w.ledger.pools[pool := details])); Inv(after) && SettledStay(w, after)
  {
    NewDetailsSettledOnce(w.ledger, pool, details);
    hide C.Inv, P.SettledOnce;
  }

  lemma RemoveKeeps(w: World, pool: nat)
    requires Inv(w) && pool in w.ledger.pools && w.ledger.pools[pool].status != P.Apurado
    ensures var after := World(w.db.(pools := w.db.pools - {pool}), w.ledger.(pools := w.ledger.pools - {pool}));
      Inv(after) && SettledStay(w, after)
  {
    hide C.Inv, P.SettledOnce, Linked, SettledHaveResults, SettledStay;
    var after := World(w.db.(pools := w.db.pools - {pool}), w.ledger.(pools := w.ledger.pools - {pool}));
    FewerPools(w.db, pool);
    FewerSettled(w.ledger, pool);
    RemoveLinks(w, pool);
    assert Numbered(after.db);
  }

  lemma FewerPools(db: C.Db, pool: nat)
    requires C.Inv(db)
    ensures C.Inv(db.(pools := db.pools - {pool}))
  {
  }

  lemma FewerSettled(l: P.Ledger, pool: nat)
    requires P.SettledOnce(l) && pool in l.pools && l.pools[pool].status != P.Apurado
    ensures P.SettledOnce(l.(pools := l.pools - {pool}))
  {
  }

  lemma RemoveLinks(w: World, pool: nat)
    requires Linked(w) && SettledHaveResults(w) && pool in w.ledger.pools && w.ledger.pools[pool].status != P.Apurado
    ensures var after := World(w.db.(pools := w.db.pools - {pool}), w.ledger.(pools := w.ledger.pools - {pool}));
      Linked(after) && SettledHaveResults(after) && SettledStay(w, after)
  {
  }

  lemma ContestKeeps(w: World, e: L.Event)
    requires Inv(w) && L.Admissible(w.db, e) && !e.OpenPool? && (e.StoreHistory? ==> e.number >= 1)
    ensures var after := World(L.Step(w.db, e), Repoint(w.ledger, L.Step(w.db, e).pools)); Inv(after) && SettledStay(w, after)
  {
    ContestStepKept(w.db, e);
    Follow(w, L.Step(w.db, e));
  }

  /** Every step of contests and pools together. */
  lemma StepKeeps(w: World, e: Event)
    requires Inv(w) && Admissible(w, e)
    ensures Inv(Step(w, e)) && SettledStay(w, Step(w, e))
  {
    hide Inv, SettledStay, L.Step, L.Admissible, DrawnKept, P.SettleRow, MaySettle;
    match e
    case Contest(event) => ContestKeeps(w, event);
    case Settle(pool, official) => SettleKeeps(w, pool, official);
    case Open(pool, contest, details) => OpenKeeps(w, pool, contest, details);
    case Change(pool, details) => ChangeKeeps(w, pool, details);
    case Remove(pool) => RemoveKeeps(w, pool);
  }

  // ----- runs -----

  ghost predicate ValidRun(w: World, events: seq<Event>)
    decreases |events|
  {
    events == [] || (Admissible(w, events[0]) && ValidRun(Step(w, events[0]), events[1..]))
  }

  ghost function Run(w: World, events: seq<Event>): World
    requires ValidRun(w, events)
    decreases |events|
  {
    if events == [] then w else Run(Step(w, events[0]), events[1..])
  }

  /**
    On every run of contests and pools together: each pool is settled at most once, a settled pool points at a contest
    with a result, and from then on it is never lost, moved, settled again or given another prize.
   */
  lemma {:induction false} RunKeeps(w: World, events: seq<Event>)
    requires Inv(w) && ValidRun(w, events)
    ensures Inv(Run(w, events)) && SettledStay(w, Run(w, events))
    decreases |events|
  {
    if events != [] {
      var next := Step(w, events[0]);
      StepKeeps(w, events[0]);
      hide Inv, Step, Admissible;
      RunKeeps(next, events[1..]);
      StayTransitive(w, next, Run(next, events[1..]));
    } else {
      StayReflexive(w);
    }
  }

  const EMPTY_WORLD := World(L.EMPTY, P.Ledger(map[], []))

  /** The empty system satisfies the invariant, so it holds on every run from there. */
  lemma RunFromEmpty(events: seq<Event>)
    requires ValidRun(EMPTY_WORLD, events)
    ensures Inv(Run(EMPTY_WORLD, events))
  {
    RunKeeps(EMPTY_WORLD, events);
  }
}
