/**
  Registered pools on contests that already have a result, and who settles them (apps/worker/src/main.ts, history.ts,
  settle.ts). Storing a drawn response is followed by the settlement of its contest; completing the history is not.
  This module says exactly when a pool comes to wait for settlement, and when none is left.
 */
module WaitingPools {
  import opened Wrappers
  import opened SettledRuns
  import BrazilTime
  import C = Contests
  import L = Lifecycle
  import P = PoolSettlement
  import S = Settlement
  import Sorting
  import U = Upcoming

  // ----- the settlement of a contest, pool by pool -----

  function Settlements(rows: seq<nat>, official: S.Official): seq<Event> {
    if rows == [] then [] else [Settle(rows[0], official)] + Settlements(rows[1..], official)
  }

  /** The query's answer: registered pools of a contest with a result, of a modality that is not checked by hand. */
  ghost predicate Due(w: World, contest: nat, rows: seq<nat>) {
    && contest in w.db.results && contest in w.db.contests && S.SupportsAutoSettlement(w.db.contests[contest].modality)
    && Sorting.Distinct(rows)
    && forall p :: p in rows ==> P.Pending(w.ledger.pools, contest, p) && p in w.db.pools && w.db.pools[p] == contest
  }

  lemma DueRest(w: World, contest: nat, rows: seq<nat>, official: S.Official)
    requires Due(w, contest, rows) && rows != []
    ensures MaySettle(w, rows[0]) && Due(w.(ledger := P.SettleRow(w.ledger, rows[0], official)), contest, rows[1..])
  {
    Sorting.DistinctRest(rows);
    assert rows[0] in rows;
    assert forall p :: p in rows <==> p == rows[0] || p in rows[1..];
    hide P.SettledPool, P.PoolAudits;
  }

  /** Settling the pools one by one is one settlement call. */
  lemma {:induction false} SettlementsRun(w: World, contest: nat, rows: seq<nat>, official: S.Official)
    requires Due(w, contest, rows)
    ensures forall p :: p in rows ==> p in w.ledger.pools
    ensures ValidRun(w, Settlements(rows, official))
    ensures Run(w, Settlements(rows, official)) == w.(ledger := P.SettleRows(w.ledger, rows, official))
    decreases |rows|
  {
    if rows != [] {
      DueRest(w, contest, rows, official);
      var next, events := w.(ledger := P.SettleRow(w.ledger, rows[0], official)), Settlements(rows, official);
      hide Due, MaySettle, P.SettleRow;
      assert events[0] == Settle(rows[0], official) && events[1..] == Settlements(rows[1..], official);
      SettlementsRun(next, contest, rows[1..], official);
    }
  }

  /** Exactly `rows` were settled, as they stood; the contest tables were not touched. */
  ghost predicate SettledExactly(a: World, b: World, rows: seq<nat>, official: S.Official) {
    && b.db == a.db && (forall p :: p in b.ledger.pools <==> p in a.ledger.pools)
    && forall p :: p in a.ledger.pools ==>
         b.ledger.pools[p] == if p in rows then P.SettledPool(a.ledger.pools[p], official) else a.ledger.pools[p]
  }

  /** The contest of a stored response. */
  ghost function Current(db: C.Db, modality: string, number: int): nat {
    var found := C.Find(db.contests, modality, number);
    if found.Some? then found.value else 0
  }

  predicate Drawn(e: L.Event) {
    e.SyncOne? && e.response.Some? && e.response.value.numbers != []
  }

  /** The contest just stored is found again, with the numbers received as its result. */
  lemma CurrentHasResult(w: World, e: L.Event)
    requires Inv(w) && Admissible(w, Contest(e)) && Drawn(e)
    ensures var db := L.Step(w.db, e); var r := e.response.value; var current := Current(db, e.modality, r.number);
      && current in db.results && db.results[current] == C.DrawResult(r.numbers, r.second)
      && C.Row(db.contests, current, e.modality, r.number) && db.contests[current].status == C.Apurado
  {
    var r := e.response.value;
    L.StepKeeps(w.db, e);
    hide C.Evolves, C.SyncRows, C.SyncTransaction, C.Inv;
    var current, next := C.SyncEffect(w.db, e.modality, r, e.source, e.now, e.rows, e.nextRows);
    C.FindIs(L.Step(w.db, e), current, e.modality, r.number);
  }

  lemma ListedAreDue(w: World, contest: nat, rows: seq<nat>)
    requires Linked(w) && contest in w.db.results && contest in w.db.contests
    requires S.SupportsAutoSettlement(w.db.contests[contest].modality) && P.Lists(rows, w.ledger.pools, contest)
    ensures Due(w, contest, rows)
  {
  }

  lemma NoneLeft(a: World, b: World, contest: nat, rows: seq<nat>, official: S.Official)
    requires P.Lists(rows, a.ledger.pools, contest) && SettledExactly(a, b, rows, official)
    ensures forall p :: p in b.ledger.pools && b.ledger.pools[p].contest == contest ==> b.ledger.pools[p].status != P.Registrado
  {
    forall p | p in b.ledger.pools && b.ledger.pools[p].contest == contest ensures b.ledger.pools[p].status != P.Registrado {
      SettledPoolKeeps(a.ledger.pools[p], official);
      hide P.SettledPool;
      assert p in rows <==> P.Pending(a.ledger.pools, contest, p);
    }
  }

  /**
    Storing a drawn response and settling its contest, when not interrupted, is a run; each pool that was registered on
    the contest is settled against exactly the numbers that are now the contest's result, and none is left registered.
   */
  lemma SyncSettlesTheContest(w: World, e: L.Event, rows: seq<nat>, tiers: seq<S.Tier>)
    requires Inv(w) && Admissible(w, Contest(e)) && Drawn(e) && S.SupportsAutoSettlement(e.modality)
    requires var stored := Step(w, Contest(e)); P.Lists(rows, stored.ledger.pools, Current(stored.db, e.modality, e.response.value.number))
    ensures var r, stored := e.response.value, Step(w, Contest(e));
      var official, contest := S.Official(r.numbers, r.second, tiers), Current(stored.db, e.modality, r.number);
      && ValidRun(stored, Settlements(rows, official))
      && var after := Run(stored, Settlements(rows, official));
      && contest in after.db.results && after.db.results[contest] == C.DrawResult(r.numbers, r.second)
      && SettledExactly(stored, after, rows, official)
      && (forall p :: p in after.ledger.pools && after.ledger.pools[p].contest == contest ==> after.ledger.pools[p].status != P.Registrado)
  {
    var r, stored := e.response.value, Step(w, Contest(e));
    var official, contest := S.Official(r.numbers, r.second, tiers), Current(stored.db, e.modality, r.number);
    StepKeeps(w, Contest(e));
    CurrentHasResult(w, e);
    hide Step, Current, Drawn, P.SettleRows, P.SettledPool;
    ListedAreDue(stored, contest, rows);
    SettlementsRun(stored, contest, rows, official);
    ListedSettle(stored, contest, rows, official);
    NoneLeft(stored, Run(stored, Settlements(rows, official)), contest, rows, official);
  }

  lemma ListedSettle(w: World, contest: nat, rows: seq<nat>, official: S.Official)
    requires P.SettledOnce(w.ledger) && P.Lists(rows, w.ledger.pools, contest)
    ensures SettledExactly(w, w.(ledger := P.SettleRows(w.ledger, rows, official)), rows, official)
  {
    P.RowsEffect(w.ledger, rows, official);
  }

  // ----- where a contest step leaves the pools -----

  /** The contest with this number has a result. */
  ghost predicate HasResult(db: C.Db, modality: string, number: int) {
    exists id :: id in db.results && C.Row(db.contests, id, modality, number)
  }

  lemma OwnResult(db: C.Db, pool: nat)
    requires C.Inv(db) && pool in db.pools
    ensures var c := db.contests[db.pools[pool]]; db.pools[pool] in db.results <==> HasResult(db, c.modality, c.number)
  {
    var c := db.contests[db.pools[pool]];
    assert C.Row(db.contests, db.pools[pool], c.modality, c.number);
  }

  /** The number under which a contest's pools are after one adoption. */
  function Taken(db: C.Db, number: int, rows: seq<nat>, contest: nat): int
    requires contest in db.contests
  {
    if number > 0 && contest in rows then number else db.contests[contest].number
  }

  /** Where the pool was and where it is: same modality, and the number asked for. */
  ghost predicate MovedTo(a: C.Db, b: C.Db, pool: nat, number: int) {
    && pool in a.pools && a.pools[pool] in a.contests && pool in b.pools && b.pools[pool] in b.contests
    && b.contests[b.pools[pool]].modality == a.contests[a.pools[pool]].modality
    && b.contests[b.pools[pool]].number == number
  }

  /** An adoption moves pools to the adopted number and gives no contest a result. */
  lemma AdoptMoves(db: C.Db, m: string, number: int, rows: seq<nat>, pool: nat)
    requires C.Inv(db) && Numbered(db) && C.Provisional(db, m, rows) && pool in db.pools
    ensures var after := C.Adopt(db, m, number, rows);
      && MovedTo(db, after, pool, Taken(db, number, rows, db.pools[pool]))
      && (if number > 0 && db.pools[pool] in rows then after.contests[after.pools[pool]].numberDefined else after.pools[pool] == db.pools[pool])
  {
    if number > 0 && rows != [] {
      C.AdoptRows(db, m, number, rows);
      hide C.Inv, C.FestivalOf, C.Adopt;
      InContests(db, pool);
    }
  }

  lemma InContests(db: C.Db, pool: nat)
    requires C.Inv(db) && pool in db.pools
    ensures db.pools[pool] in db.contests
  {
  }

  lemma AdoptGivesNoResult(db: C.Db, m: string, number: int, rows: seq<nat>, mm: string, n: int)
    requires C.Inv(db) && Numbered(db) && C.Provisional(db, m, rows)
    ensures HasResult(C.Adopt(db, m, number, rows), mm, n) <==> HasResult(db, mm, n)
  {
    if number > 0 && rows != [] {
      C.AdoptRows(db, m, number, rows);
      var after, official := C.Adopt(db, m, number, rows), C.OfficialId(db, m, number, rows);
      hide C.Inv, C.FestivalOf, C.Adopt;
      forall id | id in db.results
        ensures id in after.results && id in after.contests
        ensures after.contests[id].modality == db.contests[id].modality && after.contests[id].number == db.contests[id].number
      {
        assert id !in rows;
      }
    }
  }

  /** A stored row keeps every pool where it is, and gives a result to its own number alone. */
  lemma PutResults(db: C.Db, id: nat, c: C.Contest, results: map<nat, C.DrawResult>, mm: string, n: int)
    requires C.Inv(db) && C.MayPut(db, id, c, results)
    ensures HasResult(C.Put(db, id, c, results), mm, n) <==> HasResult(db, mm, n) || (id in results && c.modality == mm && c.number == n)
  {
    var after := C.Put(db, id, c, results);
    forall i | i in db.results
      ensures i in results && i in after.contests && after.contests[i].modality == db.contests[i].modality && after.contests[i].number == db.contests[i].number
    {
    }
    if id in results && c.modality == mm && c.number == n { assert C.Row(after.contests, id, mm, n); }
    if HasResult(db, mm, n) {
      var i :| i in db.results && C.Row(db.contests, i, mm, n);
      assert C.Row(after.contests, i, mm, n);
    }
    if HasResult(after, mm, n) {
      var i :| i in results && C.Row(after.contests, i, mm, n);
      if i != id { assert C.Row(db.contests, i, mm, n); }
    }
  }

  lemma PutStays(db: C.Db, id: nat, c: C.Contest, results: map<nat, C.DrawResult>, pool: nat)
    requires C.Inv(db) && C.MayPut(db, id, c, results) && pool in db.pools
    ensures MovedTo(db, C.Put(db, id, c, results), pool, db.contests[db.pools[pool]].number)
  {
  }

  lemma CurrentResults(db: C.Db, m: string, r: C.Response, source: string, mm: string, n: int, pool: nat)
    requires C.Inv(db) && pool in db.pools
    ensures var after := C.StoreCurrent(db, m, r, source);
      && (HasResult(after, mm, n) <==> HasResult(db, mm, n) || (r.numbers != [] && mm == m && n == r.number))
      && MovedTo(db, after, pool, db.contests[db.pools[pool]].number)
  {
    var after := C.StoreCurrent(db, m, r, source);
    var id := C.CurrentIsPut(db, m, r, source);
    hide C.Inv, C.MayPut, C.StoreCurrent;
    PutResults(db, id, after.contests[id], after.results, mm, n);
    PutStays(db, id, after.contests[id], after.results, pool);
    if id in db.results && mm == m && n == r.number { StoredHadResult(db, after, id, mm, n); }
  }

  lemma StoredHadResult(db: C.Db, after: C.Db, id: nat, m: string, n: int)
    requires C.Inv(db) && id in db.results && C.Row(after.contests, id, m, n)
    requires C.MayPut(db, id, after.contests[id], after.results)
    ensures HasResult(db, m, n)
  {
    assert C.Row(db.contests, id, m, n);
  }

  lemma NextResults(db: C.Db, m: string, r: C.Response, source: string, now: int, mm: string, n: int, pool: nat)
    requires C.Inv(db) && pool in db.pools
    ensures var after := C.StoreNext(db, m, r, source, now);
      && (HasResult(after, mm, n) <==> HasResult(db, mm, n))
      && MovedTo(db, after, pool, db.contests[db.pools[pool]].number)
  {
    var after := C.StoreNext(db, m, r, source, now);
    var id := C.NextIsPut(db, m, r, source, now);
    hide C.Inv, C.MayPut, C.StoreNext;
    PutResults(db, id, after.contests[id], after.results, mm, n);
    PutStays(db, id, after.contests[id], after.results, pool);
    if id in db.results && mm == m && n == r.nextNumber { StoredHadResult(db, after, id, mm, n); }
  }

  /** The number under which a contest's pools are after both adoptions of a response. */
  function GoesTo(db: C.Db, r: C.Response, rows: seq<nat>, nextRows: seq<nat>, contest: nat): int
    requires contest in db.contests
  {
    if r.number > 0 && contest in rows then r.number
    else if r.nextNumber > 0 && contest in nextRows then r.nextNumber
    else db.contests[contest].number
  }

  /** After a stored response a pool is under the number it goes to, and that has a result if it had one or was drawn. */
  lemma SyncLands(db: C.Db, m: string, r: C.Response, source: string, now: int, rows: seq<nat>, nextRows: seq<nat>, pool: nat)
    requires C.Inv(db) && Numbered(db) && C.SyncRows(db, m, r, rows, nextRows) && pool in db.pools && db.pools[pool] in db.contests
    ensures var after := C.SyncTransaction(db, m, r, source, now, rows, nextRows);
      var c, n := db.contests[db.pools[pool]], GoesTo(db, r, rows, nextRows, db.pools[pool]);
      && MovedTo(db, after, pool, n)
      && (HasResult(after, c.modality, n) <==> HasResult(db, c.modality, n) || (r.numbers != [] && c.modality == m && n == r.number))
  {
    var d1 := C.Adopt(db, m, r.number, rows);
    var c, n := db.contests[db.pools[pool]], GoesTo(db, r, rows, nextRows, db.pools[pool]);
    AdoptsLand(db, m, r, rows, nextRows, pool);
    hide C.Inv, C.Candidates, C.Provisional, C.Adopt, C.StoreCurrent, C.StoreNext, C.Evolves, BrazilTime.BrazilDayNumber, HasResult, Numbered, GoesTo;
    var d2 := C.Adopt(d1, m, r.nextNumber, nextRows);
    var d3 := C.StoreCurrent(d2, m, r, source);
    CurrentResults(d2, m, r, source, c.modality, n, pool);
    C.StoreCurrentKeeps(d2, m, r, source);
    NextResults(d3, m, r, source, now, c.modality, n, pool);
  }

  /** A pool handed over by the first adoption is on a numbered contest, which the second does not take. */
  lemma TwoMoves(db: C.Db, d1: C.Db, d2: C.Db, r: C.Response, rows: seq<nat>, nextRows: seq<nat>, pool: nat)
    requires pool in db.pools && db.pools[pool] in db.contests && pool in d1.pools && d1.pools[pool] in d1.contests
    requires MovedTo(db, d1, pool, Taken(db, r.number, rows, db.pools[pool]))
    requires MovedTo(d1, d2, pool, Taken(d1, r.nextNumber, nextRows, d1.pools[pool]))
    requires if r.number > 0 && db.pools[pool] in rows then d1.pools[pool] !in nextRows else d1.pools[pool] == db.pools[pool]
    ensures MovedTo(db, d2, pool, GoesTo(db, r, rows, nextRows, db.pools[pool]))
  {
  }

  lemma NumberedNotListed(db: C.Db, m: string, rows: seq<nat>, id: nat)
    requires C.Provisional(db, m, rows) && id in db.contests && db.contests[id].numberDefined
    ensures id !in rows
  {
  }

  lemma FirstAdoption(db: C.Db, m: string, r: C.Response, rows: seq<nat>, nextRows: seq<nat>)
    requires C.Inv(db) && Numbered(db) && C.SyncRows(db, m, r, rows, nextRows)
    ensures var d1 := C.Adopt(db, m, r.number, rows); C.Inv(d1) && Numbered(d1) && C.Provisional(d1, m, nextRows)
    ensures C.Provisional(db, m, rows)
  {
    var d1 := C.Adopt(db, m, r.number, rows);
    hide C.Inv, C.Provisional, C.Adopt, C.Evolves, C.Candidates, BrazilTime.BrazilDayNumber, Numbered, DrawnKept;
    C.CandidatesAreProvisional(rows, db, m, BrazilTime.BrazilDayNumber(r.draw));
    C.CandidatesAreProvisional(nextRows, d1, m, BrazilTime.BrazilDayNumber(r.nextDraw));
    C.AdoptEvolves(db, m, r.number, rows);
    AdoptKept(db, m, r.number, rows);
    KeptIsNumbered(db, d1);
  }

  lemma AdoptsLand(db: C.Db, m: string, r: C.Response, rows: seq<nat>, nextRows: seq<nat>, pool: nat)
    requires C.Inv(db) && Numbered(db) && C.SyncRows(db, m, r, rows, nextRows) && pool in db.pools && db.pools[pool] in db.contests
    ensures var d2 := C.Adopt(C.Adopt(db, m, r.number, rows), m, r.nextNumber, nextRows);
      var c, n := db.contests[db.pools[pool]], GoesTo(db, r, rows, nextRows, db.pools[pool]);
      && C.Inv(d2) && MovedTo(db, d2, pool, n) && (HasResult(d2, c.modality, n) <==> HasResult(db, c.modality, n))
  {
    var d1 := C.Adopt(db, m, r.number, rows);
    var d2 := C.Adopt(d1, m, r.nextNumber, nextRows);
    var c, n := db.contests[db.pools[pool]], GoesTo(db, r, rows, nextRows, db.pools[pool]);
    FirstAdoption(db, m, r, rows, nextRows);
    AdoptMoves(db, m, r.number, rows, pool);
    AdoptMoves(d1, m, r.nextNumber, nextRows, pool);
    if r.number > 0 && db.pools[pool] in rows { NumberedNotListed(d1, m, nextRows, d1.pools[pool]); }
    TwoMoves(db, d1, d2, r, rows, nextRows, pool);
    AdoptGivesNoResult(db, m, r.number, rows, c.modality, n);
    AdoptGivesNoResult(d1, m, r.nextNumber, nextRows, c.modality, n);
    C.AdoptEvolves(d1, m, r.nextNumber, nextRows);
    hide C.Inv, C.Provisional, C.Adopt, C.Evolves, C.SyncRows, HasResult, Numbered, GoesTo, Taken;
  }

  /**
    Does a contest step leave this pool on a contest with a result? Told from the tables before it: the pool is on one
    already, or the step gives its contest a result, or moves it to a number that has one or is drawn.
   */
  ghost predicate Lands(db: C.Db, e: L.Event, pool: nat)
    requires pool in db.pools && db.pools[pool] in db.contests
  {
    var id := db.pools[pool];
    match e
    case SyncOne(m, response, _, _, rows, nextRows) =>
      if response.None? || db.contests[id].modality != m then id in db.results
      else
        var r := response.value;
        var n := GoesTo(db, r, rows, nextRows, id);
        HasResult(db, m, n) || (r.numbers != [] && n == r.number)
    case StoreHistory(m, number, _, _, _, _) => id in db.results || C.Row(db.contests, id, m, number)
    case UpdateFestival(festival, number, rows) => id in db.results || MergesIntoDrawn(db, festival, number, rows, id)
    case _ => id in db.results
  }

  /** A provisional festival gets the number of a contest that has a result; `id` is handed over to that contest. */
  ghost predicate MergesIntoDrawn(db: C.Db, festival: nat, number: int, rows: seq<nat>, id: nat) {
    && festival in db.contests && db.contests[festival].special.Some? && !db.contests[festival].numberDefined
    && id in rows && HasResult(db, db.contests[festival].modality, number)
  }

  lemma SyncLandsExactly(db: C.Db, e: L.Event, pool: nat)
    requires C.Inv(db) && Numbered(db) && L.Admissible(db, e) && e.SyncOne? && pool in db.pools && db.pools[pool] in db.contests
    ensures var after := L.Step(db, e); pool in after.pools && (after.pools[pool] in after.results <==> Lands(db, e, pool))
  {
    if e.response.Some? {
      var r, c := e.response.value, db.contests[db.pools[pool]];
      var after, n := L.Step(db, e), GoesTo(db, r, e.rows, e.nextRows, db.pools[pool]);
      SyncLands(db, e.modality, r, e.source, e.now, e.rows, e.nextRows, pool);
      L.StepKeeps(db, e);
      OwnResult(db, pool);
      OwnResult(after, pool);
      if c.modality != e.modality { OtherModalityStays(db, e.modality, r, e.rows, e.nextRows, db.pools[pool]); }
      hide C.Inv, C.SyncTransaction, C.Evolves, HasResult, GoesTo, Numbered, L.Admissible, C.Candidates;
    }
  }

  lemma OtherModalityStays(db: C.Db, m: string, r: C.Response, rows: seq<nat>, nextRows: seq<nat>, id: nat)
    requires C.Inv(db) && Numbered(db) && C.SyncRows(db, m, r, rows, nextRows) && id in db.contests && db.contests[id].modality != m
    ensures GoesTo(db, r, rows, nextRows, id) == db.contests[id].number
  {
    C.CandidatesAreProvisional(rows, db, m, BrazilTime.BrazilDayNumber(r.draw));
    var d1 := C.Adopt(db, m, r.number, rows);
    C.CandidatesAreProvisional(nextRows, d1, m, BrazilTime.BrazilDayNumber(r.nextDraw));
    hide BrazilTime.BrazilDayNumber, C.Candidates, C.Adopt, C.FestivalOf, C.SyncRows;
    if r.number > 0 && rows != [] { C.AdoptRows(db, m, r.number, rows); }
    assert id !in rows;
    assert id in d1.contests && d1.contests[id].modality != m;
  }

  lemma HistoryLandsExactly(db: C.Db, e: L.Event, pool: nat)
    requires C.Inv(db) && e.StoreHistory? && pool in db.pools && db.pools[pool] in db.contests
    ensures var after := L.Step(db, e); pool in after.pools && (after.pools[pool] in after.results <==> Lands(db, e, pool))
  {
    var found := C.Find(db.contests, e.modality, e.number);
    if C.Row(db.contests, db.pools[pool], e.modality, e.number) { C.FindIs(db, db.pools[pool], e.modality, e.number); }
    if found.Some? { assert C.Row(db.contests, found.value, e.modality, e.number); }
  }

  lemma FestivalLandsExactly(db: C.Db, e: L.Event, pool: nat)
    requires C.Inv(db) && Numbered(db) && L.Admissible(db, e) && e.UpdateFestival? && pool in db.pools && db.pools[pool] in db.contests
    ensures var after := L.Step(db, e); pool in after.pools && (after.pools[pool] in after.results <==> Lands(db, e, pool))
  {
    if e.id in db.contests && db.contests[e.id].special.Some? && !db.contests[e.id].numberDefined {
      var m := db.contests[e.id].modality;
      var clash := C.Find(db.contests, m, e.number);
      if clash.Some? && clash.value != e.id {
        C.CandidatesAreProvisional(e.rows, db, m, BrazilTime.BrazilDayNumber(db.contests[e.id].draw));
        MergeLands(db, m, e.number, e.rows, pool);
      } else if HasResult(db, m, e.number) {
        var id :| id in db.results && C.Row(db.contests, id, m, e.number);
        C.FindIs(db, id, m, e.number);
        assert false;
      }
    }
  }

  lemma ListedIsProvisional(db: C.Db, m: string, rows: seq<nat>, id: nat)
    requires Numbered(db) && C.Provisional(db, m, rows)
    ensures id in rows ==> id in db.contests && db.contests[id].modality == m && id !in db.results
  {
  }

  lemma MergeLands(db: C.Db, m: string, number: int, rows: seq<nat>, pool: nat)
    requires C.Inv(db) && Numbered(db) && number >= 1 && C.Provisional(db, m, rows) && pool in db.pools && db.pools[pool] in db.contests
    ensures var after := C.Adopt(db, m, number, rows);
      pool in after.pools && (after.pools[pool] in after.results <==> db.pools[pool] in db.results || (db.pools[pool] in rows && HasResult(db, m, number)))
  {
    var c, after, n := db.contests[db.pools[pool]], C.Adopt(db, m, number, rows), Taken(db, number, rows, db.pools[pool]);
    AdoptMoves(db, m, number, rows, pool);
    AdoptGivesNoResult(db, m, number, rows, c.modality, n);
    C.AdoptEvolves(db, m, number, rows);
    OwnResult(db, pool);
    OwnResult(after, pool);
    ListedIsProvisional(db, m, rows, db.pools[pool]);
    hide C.Inv, C.Adopt, C.Evolves, C.Provisional, Numbered, HasResult;
  }

  lemma ProjectLandsExactly(db: C.Db, e: L.Event, pool: nat)
    requires C.Inv(db) && e.Project? && pool in db.pools && db.pools[pool] in db.contests
    ensures var after := L.Step(db, e); pool in after.pools && (after.pools[pool] in after.results <==> Lands(db, e, pool))
  {
    U.EnsureAllKeeps(db, e.configs, e.now, BrazilTime.CalculateBrazilCutoff);
    hide U.EnsureAll, C.Inv;
  }

  /** Creating and closing contests touches no result and no pool; only a contest without pools is deleted. */
  lemma OthersLandExactly(db: C.Db, e: L.Event, pool: nat)
    requires e.Close? || e.CreateManual? || e.CreateFestival? || e.DeleteFestival?
    requires pool in db.pools && db.pools[pool] in db.contests
    ensures var after := L.Step(db, e); pool in after.pools && (after.pools[pool] in after.results <==> Lands(db, e, pool))
  {
    hide C.Find, BrazilTime.BrazilDay, BrazilTime.ProvisionalNumber, L.FestivalThatDay;
  }

  lemma LandsExactly(db: C.Db, e: L.Event, pool: nat)
    requires C.Inv(db) && Numbered(db) && L.Admissible(db, e) && !e.OpenPool? && pool in db.pools && db.pools[pool] in db.contests
    ensures var after := L.Step(db, e); pool in after.pools && (after.pools[pool] in after.results <==> Lands(db, e, pool))
  {
    hide C.Inv, Numbered, L.Admissible, L.Step, Lands;
    match e
    case SyncOne(_, _, _, _, _, _) => SyncLandsExactly(db, e, pool);
    case StoreHistory(_, _, _, _, _, _) => HistoryLandsExactly(db, e, pool);
    case UpdateFestival(_, _, _) => FestivalLandsExactly(db, e, pool);
    case Project(_, _) => ProjectLandsExactly(db, e, pool);
    case _ => OthersLandExactly(db, e, pool);
  }

  // ----- who waits after a step -----

  ghost predicate Registered(w: World, pool: nat) {
    pool in w.ledger.pools && pool in w.db.pools && w.db.pools[pool] in w.db.contests && w.ledger.pools[pool].status == P.Registrado
  }

  /** A pool that was not waiting comes to wait. */
  ghost predicate Enters(w: World, e: Event, pool: nat) {
    !Waiting(w, pool) &&
    match e
    case Contest(event) => Registered(w, pool) && Lands(w.db, event, pool)
    case Open(created, contest, details) => pool == created && details.status == P.Registrado && contest in w.db.results
    case Change(changed, details) =>
      pool == changed && pool in w.db.pools && details.status == P.Registrado && w.db.pools[pool] in w.db.results
    case _ => false
  }

  /** A waiting pool is settled, or leaves its status otherwise. */
  predicate Handles(e: Event, pool: nat) {
    match e
    case Settle(settled, _) => pool == settled
    case Change(changed, details) => pool == changed && details.status != P.Registrado
    case _ => false
  }

  lemma RepointWaits(w: World, db: C.Db, pool: nat)
    requires Linked(w) && forall p :: p in w.db.pools <==> p in db.pools
    ensures Waiting(World(db, Repoint(w.ledger, db.pools)), pool) <==>
      pool in w.ledger.pools && pool in db.pools && w.ledger.pools[pool].status == P.Registrado && db.pools[pool] in db.results
  {
  }

  lemma ContestWaits(w: World, e: L.Event, pool: nat)
    requires Inv(w) && Admissible(w, Contest(e))
    ensures Waiting(Step(w, Contest(e)), pool) <==> Waiting(w, pool) || Enters(w, Contest(e), pool)
  {
    ContestStepKept(w.db, e);
    var db := L.Step(w.db, e);
    RepointWaits(w, db, pool);
    if pool in w.db.pools {
      InContests(w.db, pool);
      LandsExactly(w.db, e, pool);
      if Waiting(w, pool) { LandsStays(w.db, e, pool); }
    }
    assert Step(w, Contest(e)) == World(db, Repoint(w.ledger, db.pools));
    hide C.Inv, L.Step, L.Admissible, Lands, Linked, P.SettledOnce, SettledHaveResults, Step, Repoint, Numbered;
  }

  /** A pool on a contest with a result stays on one. */
  lemma LandsStays(db: C.Db, e: L.Event, pool: nat)
    requires C.Inv(db) && Numbered(db) && L.Admissible(db, e) && !e.OpenPool? && (e.StoreHistory? ==> e.number >= 1)
    requires pool in db.pools && db.pools[pool] in db.results && db.pools[pool] in db.contests
    ensures Lands(db, e, pool)
  {
    ContestStepKept(db, e);
    LandsExactly(db, e, pool);
    hide C.Inv, L.Step, L.Admissible, Lands;
  }

  lemma SettleWaits(w: World, e: Event, pool: nat)
    requires e.Settle? && Admissible(w, e)
    ensures Waiting(Step(w, e), pool) <==> Waiting(w, pool) && !Handles(e, pool)
  {
    SettledPoolKeeps(w.ledger.pools[e.pool], e.official);
    hide P.SettledPool, P.PoolAudits;
  }

  lemma OpenWaits(w: World, e: Event, pool: nat)
    requires Linked(w) && Admissible(w, e) && e.Open?
    ensures Waiting(Step(w, e), pool) <==> (Waiting(w, pool) && !Handles(e, pool)) || Enters(w, e, pool)
  {
    LinkedPools(w);
    hide Linked;
  }

  lemma ChangeWaits(w: World, e: Event, pool: nat)
    requires Linked(w) && Admissible(w, e) && e.Change?
    ensures Waiting(Step(w, e), pool) <==> (Waiting(w, pool) && !Handles(e, pool)) || Enters(w, e, pool)
  {
    LinkedPools(w);
    hide Linked;
  }

  lemma RemoveWaits(w: World, e: Event, pool: nat)
    requires Linked(w) && Admissible(w, e) && e.Remove?
    ensures Waiting(Step(w, e), pool) <==> (Waiting(w, pool) && !Handles(e, pool)) || Enters(w, e, pool)
  {
    LinkedPools(w);
    hide Linked;
  }

  lemma InvLinked(w: World)
    requires Inv(w)
    ensures Linked(w)
  {
  }

  /** Exactly who waits after a step: those who waited and were not handled, and those who enter. */
  lemma WaitsExactly(w: World, e: Event, pool: nat)
    requires Inv(w) && Admissible(w, e)
    ensures Waiting(Step(w, e), pool) <==> (Waiting(w, pool) && !Handles(e, pool)) || Enters(w, e, pool)
  {
    InvLinked(w);
    hide Inv, Admissible, Step, Waiting, Linked;
    match e
    case Contest(event) => ContestWaits(w, event, pool);
    case Settle(_, _) => SettleWaits(w, e, pool);
    case Open(_, _, _) => OpenWaits(w, e, pool);
    case Change(_, _) => ChangeWaits(w, e, pool);
    case Remove(_) => RemoveWaits(w, e, pool);
  }

  ghost predicate NoneWaiting(w: World) {
    forall pool :: !Waiting(w, pool)
  }

  /** A step leaves no pool waiting if and only if it handles those who waited and nobody enters. */
  lemma NoneWaitsExactly(w: World, e: Event)
    requires Inv(w) && Admissible(w, e)
    ensures NoneWaiting(Step(w, e)) <==> forall pool :: (Waiting(w, pool) ==> Handles(e, pool)) && !Enters(w, e, pool)
  {
    forall pool ensures Waiting(Step(w, e), pool) <==> (Waiting(w, pool) && !Handles(e, pool)) || Enters(w, e, pool) {
      WaitsExactly(w, e, pool);
    }
    hide Waiting, Handles, Enters, Step, Admissible, Inv;
  }

  /** Completing the history settles contests but not their pools: the ledger stays as it is. */
  lemma HistorySettlesNoPool(w: World, e: L.Event)
    requires Inv(w) && Admissible(w, Contest(e)) && e.StoreHistory?
    ensures Step(w, Contest(e)).ledger == w.ledger
  {
    hide C.Find, C.Inv;
    assert L.Step(w.db, e).pools == w.db.pools;
    assert Repoint(w.ledger, w.db.pools).pools == w.ledger.pools;
  }

  /** So it leaves none waiting if and only if no registered pool is on its contest. */
  lemma HistoryLeavesNoneWaiting(w: World, e: L.Event)
    requires Inv(w) && Admissible(w, Contest(e)) && e.StoreHistory? && NoneWaiting(w)
    ensures NoneWaiting(Step(w, Contest(e))) <==>
      forall pool :: !(Registered(w, pool) && C.Row(w.db.contests, w.db.pools[pool], e.modality, e.number))
  {
    NoneWaitsExactly(w, Contest(e));
    forall pool ensures Enters(w, Contest(e), pool) <==> Registered(w, pool) && C.Row(w.db.contests, w.db.pools[pool], e.modality, e.number) {
      assert !Waiting(w, pool);
    }
    hide Step, Admissible, Inv, Enters, Waiting;
  }

  // ----- a run that leaves one waiting -----

  const REGISTERED := P.Pool(0, P.Registrado, [], [1, 2, 3, 4, 5], [], false, None)
  const MISSED := L.CreateManual("quina", 5, 100, Some(90), 0)
  const COMPLETED := L.StoreHistory("quina", 5, 100, 90, C.DrawResult([1, 2, 3, 4, 5], []), "caixa")

  const MISSED_DB := C.Db(map[0 := C.Contest("quina", 5, 100, 90, C.Aberto, "manual", None, None, true)], map[], map[], 1)
  const JOINED := World(MISSED_DB.(pools := map[0 := 0]), P.Ledger(map[0 := REGISTERED], []))

  lemma HistoryMakesItWait()
    ensures Admissible(JOINED, Contest(COMPLETED)) && Waiting(Step(JOINED, Contest(COMPLETED)), 0)
  {
    assert C.Row(JOINED.db.contests, 0, "quina", 5);
    assert C.Find(JOINED.db.contests, "quina", 5) == Some(0);
  }

  lemma ThreeSteps(w: World, a: Event, b: Event, c: Event)
    requires Admissible(w, a) && Admissible(Step(w, a), b) && Admissible(Step(Step(w, a), b), c)
    ensures ValidRun(w, [a, b, c]) && Run(w, [a, b, c]) == Step(Step(Step(w, a), b), c)
  {
    hide Admissible, Step;
    var events := [a, b, c];
    assert events[1..] == [b, c] && [b, c][1..] == [c] && [c][1..] == [];
    var w2 := Step(Step(w, a), b);
    assert ValidRun(w2, [c]) && Run(w2, [c]) == Step(w2, c);
    assert ValidRun(Step(w, a), [b, c]) && Run(Step(w, a), [b, c]) == Run(w2, [c]);
  }

  /** A pool is registered on a contest whose draw the worker misses; completing the history then gives it its result. */
  lemma HistoryCanLeaveOneWaiting()
    ensures var events := [Contest(MISSED), Open(0, 0, REGISTERED), Contest(COMPLETED)];
      ValidRun(EMPTY_WORLD, events) && NoneWaiting(EMPTY_WORLD) && Waiting(Run(EMPTY_WORLD, events), 0)
  {
    assert L.Step(L.EMPTY, MISSED) == MISSED_DB;
    assert Step(EMPTY_WORLD, Contest(MISSED)) == World(MISSED_DB, P.Ledger(map[], []));
    assert Step(World(MISSED_DB, P.Ledger(map[], [])), Open(0, 0, REGISTERED)) == JOINED;
    HistoryMakesItWait();
    ThreeSteps(EMPTY_WORLD, Contest(MISSED), Open(0, 0, REGISTERED), Contest(COMPLETED));
    hide ValidRun, Run;
  }

  // ----- over runs -----

  /** Some later step of the run handles this pool. */
  ghost predicate HandledLater(w: World, events: seq<Event>, pool: nat)
    requires ValidRun(w, events)
    decreases |events|
  {
    events != [] && (Handles(events[0], pool) || HandledLater(Step(w, events[0]), events[1..], pool))
  }

  /** Whoever enters is handled after that. */
  ghost predicate EntrantsHandled(w: World, events: seq<Event>)
    requires ValidRun(w, events)
    decreases |events|
  {
    events != [] ==>
      && (forall pool :: Enters(w, events[0], pool) ==> HandledLater(Step(w, events[0]), events[1..], pool))
      && EntrantsHandled(Step(w, events[0]), events[1..])
  }

  /** A run ends with no pool waiting if and only if everyone who waits at its start, or enters in it, is handled after that. */
  lemma {:induction false} RunLeavesNoneWaiting(w: World, events: seq<Event>)
    requires Inv(w) && ValidRun(w, events)
    ensures NoneWaiting(Run(w, events)) <==> (forall pool :: Waiting(w, pool) ==> HandledLater(w, events, pool)) && EntrantsHandled(w, events)
    decreases |events|
  {
    if events != [] {
      var next, rest := Step(w, events[0]), events[1..];
      StepKeeps(w, events[0]);
      RunLeavesNoneWaiting(next, rest);
      forall pool ensures Waiting(next, pool) <==> (Waiting(w, pool) && !Handles(events[0], pool)) || Enters(w, events[0], pool) {
        WaitsExactly(w, events[0], pool);
      }
      hide Step, Admissible, Inv, Waiting, Handles, Enters;
    }
  }
}
