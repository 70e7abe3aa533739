/**
  Contests, their results and the pools that point at them, as tables (apps/worker/src/main.ts,
  packages/shared-types/src/festas.ts). A transaction is one atomic step. Row ids are never reused: `nextId` stands
  for the database's fresh identifiers.
 */
module Contests {
  import opened BrazilTime
  import Sorting
  import opened Wrappers

  datatype Status = Aberto | Fechado | Apurado

  datatype Contest = Contest(
    modality: string, number: int, draw: int, cutoff: int, status: Status, source: string,
    special: Option<string>, specialName: Option<string>, numberDefined: bool)

  datatype DrawResult = DrawResult(numbers: seq<int>, second: seq<int>)

  datatype Db = Db(contests: map<nat, Contest>, results: map<nat, DrawResult>, pools: map<nat, nat>, nextId: nat)

  function Rank(s: Status): int {
    match s
    case Aberto => 0
    case Fechado => 1
    case Apurado => 2
  }

  predicate Row(contests: map<nat, Contest>, id: nat, modality: string, number: int) {
    id in contests && contests[id].modality == modality && contests[id].number == number
  }

  /** What the tables always satisfy. */
  ghost predicate Inv(db: Db) {
    && (forall i, j :: i in db.contests && j in db.contests && i != j ==>
          !(db.contests[i].modality == db.contests[j].modality && db.contests[i].number == db.contests[j].number))
    && (forall i :: i in db.contests ==> i < db.nextId)
    && (forall i :: i in db.contests && !db.contests[i].numberDefined ==> db.contests[i].number < 0)
    && (forall i :: i in db.results ==> i in db.contests)
    && (forall i :: i in db.contests && db.contests[i].status == Apurado ==> i in db.results)
    && (forall p :: p in db.pools ==> db.pools[p] in db.contests)
  }

  /** What no step undoes: a status never goes back, a removed contest never returns, no pool is lost. */
  ghost predicate Evolves(a: Db, b: Db) {
    && a.nextId <= b.nextId
    && (forall i :: i in a.contests && i in b.contests ==> Rank(a.contests[i].status) <= Rank(b.contests[i].status))
    && (forall i :: i < a.nextId && i !in a.contests ==> i !in b.contests)
    && (forall p :: p in a.pools ==> p in b.pools)
  }

  lemma EvolvesTransitive(a: Db, b: Db, c: Db)
    requires Inv(a) && Evolves(a, b) && Evolves(b, c)
    ensures Evolves(a, c)
  {
    forall i | i in a.contests && i in c.contests ensures Rank(a.contests[i].status) <= Rank(c.contests[i].status) {
      assert i < a.nextId <= b.nextId;
      assert i in b.contests;
    }
  }

  lemma EvolvesReflexive(a: Db)
    ensures Evolves(a, a)
  {
  }

  /** The row with this number, if any. */
  ghost function Find(contests: map<nat, Contest>, modality: string, number: int): Option<nat> {
    if exists id :: Row(contests, id, modality, number) then
      var id :| Row(contests, id, modality, number);
      Some(id)
    else None
  }

  lemma FindIs(db: Db, id: nat, modality: string, number: int)
    requires Inv(db) && Row(db.contests, id, modality, number)
    ensures Find(db.contests, modality, number) == Some(id)
  {
  }

  // ----- closing -----

  function Closed(c: Contest, now: int): Contest {
    if c.status == Aberto && c.cutoff <= now then c.(status := Fechado) else c
  }

  function CloseExpired(db: Db, now: int): Db {
    db.(contests := map id | id in db.contests :: Closed(db.contests[id], now))
  }

  /** The rows below `limit` have been closed. */
  function ClosedBelow(contests: map<nat, Contest>, limit: nat, now: int): map<nat, Contest> {
    map id | id in contests :: if id < limit then Closed(contests[id], now) else contests[id]
  }

  lemma ClosedBelowStep(contests: map<nat, Contest>, limit: nat, now: int)
    ensures ClosedBelow(contests, 0, now) == contests
    ensures ClosedBelow(contests, limit + 1, now)
         == if limit in contests then ClosedBelow(contests, limit, now)[limit := Closed(contests[limit], now)] else ClosedBelow(contests, limit, now)
  {
  }

  lemma ClosedBelowAt(contests: map<nat, Contest>, limit: nat, now: int)
    ensures limit in ClosedBelow(contests, limit, now) <==> limit in contests
    ensures limit in contests ==> ClosedBelow(contests, limit, now)[limit] == contests[limit]
  {
  }

  lemma ClosedBelowAll(db: Db, now: int)
    requires Inv(db)
    ensures ClosedBelow(db.contests, db.nextId, now) == CloseExpired(db, now).contests
  {
  }

  predicate ExpiredOpen(db: Db, now: int, id: nat) {
    id in db.contests && db.contests[id].status == Aberto && db.contests[id].cutoff <= now
  }

  /** Only statuses move, and none of them back or to Apurado. */
  ghost predicate OnlyAdvances(a: Contest, b: Contest) {
    && b == a.(status := b.status)
    && Rank(a.status) <= Rank(b.status) && (b.status == Apurado ==> a.status == Apurado)
  }

  lemma StatusesKeep(db: Db, contests: map<nat, Contest>)
    requires Inv(db)
    requires forall i :: i in contests <==> i in db.contests
    requires forall i :: i in contests ==> OnlyAdvances(db.contests[i], contests[i])
    ensures Inv(db.(contests := contests)) && Evolves(db, db.(contests := contests))
  {
  }

  lemma ClosedAdvances(c: Contest, now: int)
    ensures OnlyAdvances(c, Closed(c, now)) && Closed(Closed(c, now), now) == Closed(c, now)
    ensures !(Closed(c, now).status == Aberto && Closed(c, now).cutoff <= now)
  {
  }

  lemma CloseExpiredAt(db: Db, now: int, contests: map<nat, Contest>)
    requires contests == CloseExpired(db, now).contests
    ensures forall i :: i in contests <==> i in db.contests
    ensures forall i :: i in contests ==> contests[i] == Closed(db.contests[i], now)
  {
  }

  /** Right after closing, no contest past its cutoff is open, and nothing else has changed. */
  lemma CloseExpiredEffect(db: Db, now: int)
    requires Inv(db)
    ensures Inv(CloseExpired(db, now)) && Evolves(db, CloseExpired(db, now))
    ensures forall id :: !ExpiredOpen(CloseExpired(db, now), now, id)
    ensures forall id :: id in db.contests && !ExpiredOpen(db, now, id) ==>
      id in CloseExpired(db, now).contests && CloseExpired(db, now).contests[id] == db.contests[id]
  {
    var contests := CloseExpired(db, now).contests;
    CloseExpiredAt(db, now, contests);
    forall i | i in contests ensures OnlyAdvances(db.contests[i], contests[i]) { ClosedAdvances(db.contests[i], now); }
    StatusesKeep(db, contests);
    assert CloseExpired(db, now) == db.(contests := contests);
  }

  // ----- adopting provisional festival contests -----

  predicate IsCandidate(db: Db, modality: string, day: int, id: nat) {
    && id in db.contests && db.contests[id].modality == modality
    && !db.contests[id].numberDefined && BrazilDayNumber(db.contests[id].draw) == day
  }

  /** `rows` is the query's answer: the provisional contests of that modality and day, each once. */
  ghost predicate Candidates(rows: seq<nat>, db: Db, modality: string, day: int) {
    && (forall i, j :: 0 <= i < j < |rows| ==> rows[i] != rows[j])
    && (forall id :: id in rows <==> IsCandidate(db, modality, day, id))
  }

  /** The query's answer is exactly the provisional contests of the modality that are drawn on the same calendar day in Brazil. */
  lemma CandidatesExactly(rows: seq<nat>, db: Db, modality: string, drawDate: int)
    requires Candidates(rows, db, modality, BrazilDayNumber(drawDate))
    ensures forall id :: id in rows <==>
      id in db.contests && db.contests[id].modality == modality && !db.contests[id].numberDefined
      && BrazilDay(db.contests[id].draw) == BrazilDay(drawDate)
  {
  }

  function MovePools(pools: map<nat, nat>, from: nat, to: nat): map<nat, nat> {
    map p | p in pools :: if pools[p] == from then to else pools[p]
  }

  function Merged(kept: Contest, provisional: Contest): Contest {
    kept.(special := if kept.special.Some? then kept.special else provisional.special,
          specialName := provisional.specialName, numberDefined := true, draw := provisional.draw, cutoff := provisional.cutoff)
  }

  /** One candidate: it takes the official number, or hands its pools over to the contest that has it. */
  ghost function AdoptOne(db: Db, modality: string, id: nat, number: int): Db
    requires id in db.contests
  {
    var found := Find(db.contests, modality, number);
    if found.None? then
      db.(contests := db.contests[id := db.contests[id].(number := number, numberDefined := true)])
    else
      Db(db.contests[found.value := Merged(db.contests[found.value], db.contests[id])] - {id},
         db.results - {id}, MovePools(db.pools, id, found.value), db.nextId)
  }

  ghost function AdoptAll(db: Db, modality: string, rows: seq<nat>, number: int): Db
    decreases |rows|
  {
    if rows == [] || rows[0] !in db.contests then db
    else AdoptAll(AdoptOne(db, modality, rows[0], number), modality, rows[1..], number)
  }

  ghost function Adopt(db: Db, modality: string, number: int, rows: seq<nat>): Db {
    if number <= 0 then db else AdoptAll(db, modality, rows, number)
  }

  ghost predicate Provisional(db: Db, modality: string, rows: seq<nat>) {
    && (forall i, j :: 0 <= i < j < |rows| ==> rows[i] != rows[j])
    && (forall id :: id in rows ==> id in db.contests && db.contests[id].modality == modality && !db.contests[id].numberDefined)
  }

  /** The effect of handing `rows` over to the official contest `r`. */
  ghost predicate HandedOver(db: Db, after: Db, rows: seq<nat>, r: nat) {
    && r in db.contests && r in after.contests
    && after.nextId == db.nextId
    && after.contests[r].status == db.contests[r].status
    && after.contests[r].modality == db.contests[r].modality && after.contests[r].number == db.contests[r].number
    && (forall id :: id in after.contests <==> id in db.contests && id !in rows)
    && (forall id :: id in after.contests && id != r ==> after.contests[id] == db.contests[id])
    && (forall id :: id in after.results <==> id in db.results && id !in rows)
    && (forall id :: id in after.results ==> after.results[id] == db.results[id])
    && (forall p :: p in after.pools <==> p in db.pools)
    && (forall p :: p in db.pools ==> after.pools[p] == if db.pools[p] in rows then r else db.pools[p])
    && (rows != [] ==> after.contests[r].numberDefined && FestivalOf(after.contests[r], db.contests, rows, db.contests[r].special))
    && (rows == [] ==> after == db)
  }

  /** The name, date and cutoff of the last of `rows`, and the first festival there is, starting from `own`. */
  ghost predicate FestivalOf(c: Contest, contests: map<nat, Contest>, rows: seq<nat>, own: Option<string>)
    requires rows != []
  {
    && (forall id :: id in rows ==> id in contests)
    && var last := contests[rows[|rows| - 1]];
    && c.specialName == last.specialName && c.draw == last.draw && c.cutoff == last.cutoff
    && c.special == FirstSpecial(own, contests, rows)
  }

  ghost function FirstSpecial(own: Option<string>, contests: map<nat, Contest>, rows: seq<nat>): Option<string>
    requires forall id :: id in rows ==> id in contests
    decreases |rows|
  {
    if own.Some? || rows == [] then own else FirstSpecial(contests[rows[0]].special, contests, rows[1..])
  }

  lemma {:induction false} FirstSpecialLocal(own: Option<string>, a: map<nat, Contest>, b: map<nat, Contest>, rows: seq<nat>)
    requires forall id :: id in rows ==> id in a && id in b && a[id] == b[id]
    ensures FirstSpecial(own, a, rows) == FirstSpecial(own, b, rows)
    decreases |rows|
  {
    if own.None? && rows != [] { FirstSpecialLocal(a[rows[0]].special, a, b, rows[1..]); }
  }

  lemma FestivalOfOne(c: Contest, contests: map<nat, Contest>, id: nat)
    requires id in contests
    ensures FestivalOf(Merged(c, contests[id]), contests, [id], c.special)
  {
    assert [id][1..] == [];
    assert FirstSpecial(c.special, contests, [id]) == if c.special.Some? then c.special else contests[id].special;
  }

  /** Handing over one candidate and then the rest. */
  lemma FestivalCompose(one: Contest, all: Contest, a: map<nat, Contest>, b: map<nat, Contest>, id: nat, rest: seq<nat>, own: Option<string>)
    requires id in a && FestivalOf(one, a, [id], own)
    requires forall x :: x in rest ==> x in a && x in b && a[x] == b[x]
    requires if rest == [] then all == one else FestivalOf(all, b, rest, one.special)
    ensures FestivalOf(all, a, [id] + rest, own)
  {
    var rows := [id] + rest;
    assert rows[1..] == rest && [id][1..] == [];
    assert FirstSpecial(own, a, [id]) == if own.Some? then own else a[id].special;
    FirstSpecialLocal(one.special, a, b, rest);
    if own.Some? && rest != [] { assert FirstSpecial(own, b, rest) == own; }
  }

  lemma HandOverOneKeeps(db: Db, modality: string, id: nat, number: int, r: nat)
    requires Inv(db) && number > 0 && Row(db.contests, r, modality, number) && Find(db.contests, modality, number) == Some(r)
    requires id in db.contests && !db.contests[id].numberDefined && db.contests[id].modality == modality
    ensures Inv(AdoptOne(db, modality, id, number))
  {
  }

  lemma HandOverOneEffect(db: Db, modality: string, id: nat, number: int, r: nat)
    requires Inv(db) && number > 0 && Row(db.contests, r, modality, number) && Find(db.contests, modality, number) == Some(r)
    requires id in db.contests && !db.contests[id].numberDefined && db.contests[id].modality == modality
    ensures HandedOver(db, AdoptOne(db, modality, id, number), [id], r)
  {
    FestivalOfOne(db.contests[r], db.contests, id);
    hide FestivalOf;
  }

  lemma HandOverOne(db: Db, modality: string, id: nat, number: int, r: nat)
    requires Inv(db) && number > 0 && Row(db.contests, r, modality, number)
    requires id in db.contests && !db.contests[id].numberDefined && db.contests[id].modality == modality
    ensures Inv(AdoptOne(db, modality, id, number)) && HandedOver(db, AdoptOne(db, modality, id, number), [id], r)
  {
    FindIs(db, r, modality, number);
    HandOverOneKeeps(db, modality, id, number, r);
    HandOverOneEffect(db, modality, id, number, r);
    hide Inv, HandedOver, AdoptOne;
  }

  lemma TailRows(rows: seq<nat>)
    requires rows != [] && forall i, j :: 0 <= i < j < |rows| ==> rows[i] != rows[j]
    ensures rows[0] !in rows[1..]
    ensures forall i, j :: 0 <= i < j < |rows[1..]| ==> rows[1..][i] != rows[1..][j]
    ensures forall id :: id in rows <==> id == rows[0] || id in rows[1..]
  {
    assert rows == [rows[0]] + rows[1..];
  }

  lemma HandOverFestival(a: Db, b: Db, c: Db, id: nat, rest: seq<nat>, r: nat)
    requires HandedOver(a, b, [id], r) && HandedOver(b, c, rest, r)
    requires id != r && r !in rest && id !in rest && id in a.contests && forall x :: x in rest ==> x in a.contests
    ensures FestivalOf(c.contests[r], a.contests, [id] + rest, a.contests[r].special)
  {
    FestivalCompose(b.contests[r], c.contests[r], a.contests, b.contests, id, rest, a.contests[r].special);
  }

  lemma HandOverCompose(a: Db, b: Db, c: Db, id: nat, rest: seq<nat>, r: nat)
    requires HandedOver(a, b, [id], r) && HandedOver(b, c, rest, r)
    requires id != r && r !in rest && id !in rest && id in a.contests && forall x :: x in rest ==> x in a.contests
    ensures HandedOver(a, c, [id] + rest, r)
  {
    hide FestivalOf;
    assert forall x :: x in [id] + rest <==> x == id || x in rest;
    HandOverFestival(a, b, c, id, rest, r);
  }

  /** Handing over one candidate leaves the others as they were. */
  lemma OthersStayProvisional(db: Db, after: Db, modality: string, id: nat, rest: seq<nat>, r: nat)
    requires HandedOver(db, after, [id], r) && Provisional(db, modality, rest) && id !in rest && r !in rest
    ensures Provisional(after, modality, rest)
  {
  }

  lemma HeadOfRows(db: Db, modality: string, rows: seq<nat>, number: int, r: nat)
    requires Inv(db) && number > 0 && Row(db.contests, r, modality, number)
    requires Provisional(db, modality, rows) && rows != []
    ensures rows[0] in db.contests && db.contests[rows[0]].modality == modality && !db.contests[rows[0]].numberDefined
    ensures rows[0] != r && r !in rows[1..] && rows[0] !in rows[1..] && Provisional(db, modality, rows[1..])
  {
    TailRows(rows);
    assert rows[0] in rows;
  }

  lemma OfficialRowStays(db: Db, after: Db, rows: seq<nat>, r: nat, modality: string, number: int)
    requires HandedOver(db, after, rows, r) && Row(db.contests, r, modality, number)
    ensures Row(after.contests, r, modality, number)
  {
  }

  lemma HandOverNone(db: Db, r: nat)
    requires r in db.contests
    ensures HandedOver(db, db, [], r)
  {
  }

  lemma {:induction false} HandOverAll(db: Db, modality: string, rows: seq<nat>, number: int, r: nat)
    requires Inv(db) && number > 0 && Row(db.contests, r, modality, number)
    requires Provisional(db, modality, rows)
    ensures Inv(AdoptAll(db, modality, rows, number)) && HandedOver(db, AdoptAll(db, modality, rows, number), rows, r)
    decreases |rows|
  {
    hide Inv, HandedOver, Provisional, AdoptOne;
    if rows == [] {
      HandOverNone(db, r);
    } else {
      var id, rest := rows[0], rows[1..];
      HeadOfRows(db, modality, rows, number, r);
      var next := AdoptOne(db, modality, id, number);
      HandOverOne(db, modality, id, number, r);
      OthersStayProvisional(db, next, modality, id, rest, r);
      OfficialRowStays(db, next, [id], r, modality, number);
      HandOverAll(next, modality, rest, number, r);
      HandOverCompose(db, next, AdoptAll(next, modality, rest, number), id, rest, r);
      assert [id] + rest == rows;
    }
  }

  /** The contest that ends up with the official number: the one that had it, or else the first candidate. */
  ghost function OfficialId(db: Db, modality: string, number: int, rows: seq<nat>): nat
    requires rows != []
  {
    var found := Find(db.contests, modality, number);
    if found.Some? then found.value else rows[0]
  }

  /** The whole effect of an adoption. */
  ghost predicate AdoptedInto(db: Db, after: Db, rows: seq<nat>, official: nat, modality: string, number: int) {
    && Row(after.contests, official, modality, number) && after.contests[official].numberDefined
    && after.nextId == db.nextId
    && (forall id :: id in after.contests <==> id in db.contests && (id !in rows || id == official))
    && (forall id :: id in after.contests && id != official ==> after.contests[id] == db.contests[id])
    && official in db.contests && after.contests[official].status == db.contests[official].status
    && (forall id :: id in after.results <==> id in db.results && (id !in rows || id == official))
    && (forall id :: id in after.results ==> after.results[id] == db.results[id])
    && rows != [] && FestivalOf(after.contests[official], db.contests, rows, db.contests[official].special)
    && (forall p :: p in after.pools <==> p in db.pools)
    && (forall p :: p in db.pools ==> after.pools[p] == if db.pools[p] in rows then official else db.pools[p])
  }

  lemma TakeNumber(db: Db, modality: string, id: nat, number: int)
    requires Inv(db) && number > 0 && Find(db.contests, modality, number).None?
    requires id in db.contests && db.contests[id].modality == modality && !db.contests[id].numberDefined
    ensures Inv(AdoptOne(db, modality, id, number))
    ensures Row(AdoptOne(db, modality, id, number).contests, id, modality, number)
  {
    assert forall x :: !Row(db.contests, x, modality, number);
    forall j | j in db.contests && j != id
      ensures !(db.contests[j].modality == modality && db.contests[j].number == number)
    {
      assert !Row(db.contests, j, modality, number);
    }
  }

  lemma HandedIsAdopted(db: Db, after: Db, rows: seq<nat>, r: nat, modality: string, number: int)
    requires HandedOver(db, after, rows, r) && Row(db.contests, r, modality, number) && rows != [] && r !in rows
    ensures AdoptedInto(db, after, rows, r, modality, number)
  {
    hide FestivalOf;
  }

  /** The first candidate took the number, the rest were handed over to it. */
  lemma TakenIsAdopted(db: Db, next: Db, after: Db, id: nat, rest: seq<nat>, modality: string, number: int)
    requires id in db.contests && id !in rest && forall x :: x in rest ==> x in db.contests
    requires next == db.(contests := db.contests[id := db.contests[id].(number := number, numberDefined := true)])
    requires Row(next.contests, id, modality, number) && HandedOver(next, after, rest, id)
    ensures AdoptedInto(db, after, [id] + rest, id, modality, number)
  {
    hide FestivalOf;
    assert forall x :: x in [id] + rest <==> x == id || x in rest;
    TakenFestival(db, next, after, id, rest, modality, number);
  }

  lemma TakenFestival(db: Db, next: Db, after: Db, id: nat, rest: seq<nat>, modality: string, number: int)
    requires id in db.contests && id !in rest && forall x :: x in rest ==> x in db.contests
    requires next == db.(contests := db.contests[id := db.contests[id].(number := number, numberDefined := true)])
    requires HandedOver(next, after, rest, id)
    ensures FestivalOf(after.contests[id], db.contests, [id] + rest, db.contests[id].special)
  {
    var own := db.contests[id].special;
    assert [id][1..] == [];
    assert FirstSpecial(own, db.contests, [id]) == own;
    assert FestivalOf(next.contests[id], db.contests, [id], own);
    FestivalCompose(next.contests[id], after.contests[id], db.contests, next.contests, id, rest, own);
  }

  lemma AdoptRows(db: Db, modality: string, number: int, rows: seq<nat>)
    requires Inv(db) && number > 0 && rows != [] && Provisional(db, modality, rows)
    ensures Inv(Adopt(db, modality, number, rows))
    ensures AdoptedInto(db, Adopt(db, modality, number, rows), rows, OfficialId(db, modality, number, rows), modality, number)
  {
    var found := Find(db.contests, modality, number);
    TailRows(rows);
    if found.Some? {
      assert found.value !in rows;
      hide Inv, HandedOver, AdoptedInto, Provisional, AdoptOne;
      HandOverAll(db, modality, rows, number, found.value);
      HandedIsAdopted(db, Adopt(db, modality, number, rows), rows, found.value, modality, number);
    } else {
      var id, rest := rows[0], rows[1..];
      var next := AdoptOne(db, modality, id, number);
      TakeNumber(db, modality, id, number);
      assert Provisional(next, modality, rest);
      assert rows == [id] + rest;
      hide Inv, HandedOver, AdoptedInto, Provisional;
      HandOverAll(next, modality, rest, number, id);
      TakenIsAdopted(db, next, Adopt(db, modality, number, rows), id, rest, modality, number);
    }
    hide Inv, AdoptedInto, HandedOver;
  }

  lemma CandidatesAreProvisional(rows: seq<nat>, db: Db, modality: string, day: int)
    requires Candidates(rows, db, modality, day)
    ensures Provisional(db, modality, rows)
  {
  }

  lemma AdoptEvolves(db: Db, modality: string, number: int, rows: seq<nat>)
    requires Inv(db) && Provisional(db, modality, rows)
    ensures Inv(Adopt(db, modality, number, rows)) && Evolves(db, Adopt(db, modality, number, rows))
    ensures Adopt(db, modality, number, rows).nextId == db.nextId
    ensures forall i :: i in Adopt(db, modality, number, rows).contests ==> i in db.contests
    ensures forall p :: p in Adopt(db, modality, number, rows).pools <==> p in db.pools
  {
    if number > 0 && rows != [] { AdoptRows(db, modality, number, rows); }
  }

  /**
    Adoption, for any number of same-day candidates: none of that modality and day is left provisional, exactly the
    candidates' pools point at the one official contest, no pool or other contest is touched, and doing it again
    finds no candidate.
   */
  lemma AdoptionEffect(db: Db, modality: string, number: int, drawDate: int, rows: seq<nat>)
    requires Inv(db) && number > 0 && Candidates(rows, db, modality, BrazilDayNumber(drawDate))
    ensures var after := Adopt(db, modality, number, rows);
      && Inv(after) && Evolves(db, after)
      && (forall id :: !IsCandidate(after, modality, BrazilDayNumber(drawDate), id))
      && (rows != [] ==> AdoptedInto(db, after, rows, OfficialId(db, modality, number, rows), modality, number))
      && (rows == [] ==> after == db)
      && (forall again :: Candidates(again, after, modality, BrazilDayNumber(drawDate)) ==> again == [])
  {
    var day, after := BrazilDayNumber(drawDate), Adopt(db, modality, number, rows);
    if rows != [] {
      AdoptRows(db, modality, number, rows);
    }
    AdoptEvolves(db, modality, number, rows);
    forall id ensures !IsCandidate(after, modality, day, id) {
      if id in after.contests { assert id in db.contests && (IsCandidate(db, modality, day, id) <==> id in rows); }
    }
    forall again | Candidates(again, after, modality, day) ensures again == [] {
      if again != [] { Sorting.SomeMember(again); }
    }
  }

  // ----- synchronising a modality -----

  /** A response of the official source, parsed: 0 and None stand for what is missing or invalid. */
  datatype Payload = Payload(number: nat, nextNumber: nat, draw: Option<int>, nextDraw: Option<int>, numbers: Option<seq<nat>>, second: seq<nat>)

  datatype Config = Config(modality: string, hour: int, minute: int, days: seq<int>)

  ghost function Insert(db: Db, c: Contest): Db {
    db.(contests := db.contests[db.nextId := c], nextId := db.nextId + 1)
  }

  ghost function UpsertCurrent(db: Db, modality: string, number: int, draw: int, cutoff: int, drawn: bool, source: string): (Db, nat) {
    var found := Find(db.contests, modality, number);
    if found.None? then
      (Insert(db, Contest(modality, number, draw, cutoff, if drawn then Apurado else Fechado, source, None, None, true)), db.nextId)
    else
      var c := db.contests[found.value];
      (db.(contests := db.contests[found.value := c.(draw := draw, cutoff := cutoff, status := if drawn then Apurado else c.status, source := source)]),
       found.value)
  }

  function UpsertResult(db: Db, id: nat, result: DrawResult): Db {
    db.(results := db.results[id := result])
  }

  ghost function UpsertNext(db: Db, modality: string, number: int, draw: int, cutoff: int, source: string, now: int): Db {
    var found := Find(db.contests, modality, number);
    if found.None? then
      Insert(db, Contest(modality, number, draw, cutoff, if cutoff > now then Aberto else Fechado, source, None, None, true))
    else
      db.(contests := db.contests[found.value := db.contests[found.value].(draw := draw, cutoff := cutoff, source := source)])
  }

  /** A response that can be stored: both numbers and dates, the drawn numbers, and the two cutoffs. */
  datatype Response = Response(number: nat, draw: int, cutoff: int, numbers: seq<nat>, second: seq<nat>, nextNumber: nat, nextDraw: int, nextCutoff: int)

  /** None stands for the thrown errors: a number or date that is missing, numbers that are not numbers, an invalid cutoff. */
  function Accept(p: Payload, config: Config): Option<Response> {
    if p.number == 0 || p.nextNumber == 0 || p.draw.None? || p.nextDraw.None? then None
    else
      var cutoff := CalculateBrazilCutoff(p.draw.value, config.hour, config.minute);
      var nextCutoff := CalculateBrazilCutoff(p.nextDraw.value, config.hour, config.minute);
      if cutoff.None? || nextCutoff.None? || p.numbers.None? then None
      else
        // only Dupla Sena has a second draw
        var second := if config.modality == "duplasena" then p.second else [];
        Some(Response(p.number, p.draw.value, cutoff.value, p.numbers.value, second, p.nextNumber, p.nextDraw.value, nextCutoff.value))
  }

  /** An accepted response has both cutoffs on the Brazil day of their own draw, at the configured hour. */
  lemma AcceptedCutoffs(p: Payload, config: Config)
    ensures Accept(p, config).Some? ==> var r := Accept(p, config).value;
      && BrazilDay(r.cutoff) == BrazilDay(r.draw) && BrazilDay(r.nextCutoff) == BrazilDay(r.nextDraw)
      && (r.cutoff - BRAZIL_OFFSET) % MS_PER_DAY == config.hour * 3_600_000 + config.minute * 60_000
      && (r.nextCutoff - BRAZIL_OFFSET) % MS_PER_DAY == config.hour * 3_600_000 + config.minute * 60_000
  {
    hide CalculateBrazilCutoff, BrazilDay;
    if Accept(p, config).Some? {
      CutoffIsOnDrawDay(p.draw.value, config.hour, config.minute);
      CutoffIsOnDrawDay(p.nextDraw.value, config.hour, config.minute);
    }
  }

  ghost function StoreCurrent(db: Db, modality: string, r: Response, source: string): Db {
    var drawn := r.numbers != [];
    var (stored, id) := UpsertCurrent(db, modality, r.number, r.draw, r.cutoff, drawn, source);
    if drawn then UpsertResult(stored, id, DrawResult(r.numbers, r.second)) else stored
  }

  ghost function StoreNext(db: Db, modality: string, r: Response, source: string, now: int): Db {
    UpsertNext(db, modality, r.nextNumber, r.nextDraw, r.nextCutoff, source, now)
  }

  /** The transaction of one modality: adopt for both draws, store the current contest and its result, store the next. */
  ghost function SyncTransaction(db: Db, modality: string, r: Response, source: string, now: int, rows: seq<nat>, nextRows: seq<nat>): Db {
    var d1 := Adopt(db, modality, r.number, rows);
    var d2 := Adopt(d1, modality, r.nextNumber, nextRows);
    StoreNext(StoreCurrent(d2, modality, r, source), modality, r, source, now)
  }

  /** The answers of the two queries for provisional contests, inside the transaction. */
  ghost predicate SyncRows(db: Db, modality: string, r: Response, rows: seq<nat>, nextRows: seq<nat>) {
    && Candidates(rows, db, modality, BrazilDayNumber(r.draw))
    && Candidates(nextRows, Adopt(db, modality, r.number, rows), modality, BrazilDayNumber(r.nextDraw))
  }

  /** A response that cannot be stored changes nothing. */
  ghost function StoreResponse(db: Db, modality: string, response: Option<Response>, source: string, now: int, rows: seq<nat>, nextRows: seq<nat>): Db {
    match response
    case None => db
    case Some(r) => SyncTransaction(db, modality, r, source, now, rows, nextRows)
  }

  /** What synchronising one modality makes of a payload. */
  ghost function Sync(db: Db, p: Payload, config: Config, source: string, now: int, rows: seq<nat>, nextRows: seq<nat>): Db {
    StoreResponse(db, config.modality, Accept(p, config), source, now, rows, nextRows)
  }

  function Put(db: Db, id: nat, c: Contest, results: map<nat, DrawResult>): Db {
    Db(db.contests[id := c], results, db.pools, if id == db.nextId then db.nextId + 1 else db.nextId)
  }

  /** A new row under a free number, or an update that keeps the number and does not move the status back. */
  ghost predicate MayPut(db: Db, id: nat, c: Contest, results: map<nat, DrawResult>) {
    && (if id in db.contests then c.modality == db.contests[id].modality && c.number == db.contests[id].number && Rank(db.contests[id].status) <= Rank(c.status)
        else id == db.nextId && forall j :: !Row(db.contests, j, c.modality, c.number))
    && (c.numberDefined || c.number < 0)
    && (c.status == Apurado ==> id in results)
    && (forall i :: i in results ==> i in db.results || i == id)
    && (forall i :: i in db.results ==> i in results)
  }

  lemma PutKeepsNumbers(db: Db, id: nat, c: Contest, results: map<nat, DrawResult>)
    requires Inv(db) && MayPut(db, id, c, results)
    ensures forall j :: j in db.contests && j != id ==> !(db.contests[j].modality == c.modality && db.contests[j].number == c.number)
  {
    forall j | j in db.contests && j != id ensures !(db.contests[j].modality == c.modality && db.contests[j].number == c.number) {
      if id !in db.contests { assert !Row(db.contests, j, c.modality, c.number); }
    }
  }

  lemma PutKeeps(db: Db, id: nat, c: Contest, results: map<nat, DrawResult>)
    requires Inv(db) && MayPut(db, id, c, results)
    ensures Inv(Put(db, id, c, results)) && Evolves(db, Put(db, id, c, results))
  {
    PutKeepsNumbers(db, id, c, results);
    PutEvolves(db, id, c, results);
    hide Row, Evolves;
  }

  lemma PutEvolves(db: Db, id: nat, c: Contest, results: map<nat, DrawResult>)
    requires Inv(db) && MayPut(db, id, c, results)
    ensures Evolves(db, Put(db, id, c, results))
  {
  }

  lemma FreeNumber(db: Db, modality: string, number: int)
    requires Find(db.contests, modality, number).None?
    ensures forall j :: !Row(db.contests, j, modality, number)
  {
  }

  lemma InsertKeeps(db: Db, c: Contest)
    requires Inv(db) && Find(db.contests, c.modality, c.number).None?
    requires c.status != Apurado && (c.numberDefined || c.number < 0)
    ensures Inv(Insert(db, c)) && Evolves(db, Insert(db, c))
  {
    FreeNumber(db, c.modality, c.number);
    PutKeeps(db, db.nextId, c, db.results);
    assert Insert(db, c) == Put(db, db.nextId, c, db.results);
  }

  lemma CurrentIsPut(db: Db, modality: string, r: Response, source: string) returns (id: nat)
    requires Inv(db)
    ensures var after := StoreCurrent(db, modality, r, source);
      && id in after.contests && after == Put(db, id, after.contests[id], after.results)
      && MayPut(db, id, after.contests[id], after.results) && Row(after.contests, id, modality, r.number)
      && (id in after.results <==> r.numbers != [] || id in db.results)
  {
    var found := Find(db.contests, modality, r.number);
    id := if found.Some? then found.value else db.nextId;
  }

  lemma StoreCurrentKeeps(db: Db, modality: string, r: Response, source: string)
    requires Inv(db)
    ensures Inv(StoreCurrent(db, modality, r, source)) && Evolves(db, StoreCurrent(db, modality, r, source))
    ensures StoreCurrent(db, modality, r, source).pools == db.pools
  {
    hide Inv, Evolves, MayPut, StoreCurrent;
    var after := StoreCurrent(db, modality, r, source);
    var id := CurrentIsPut(db, modality, r, source);
    PutKeeps(db, id, after.contests[id], after.results);
  }

  lemma NextIsPut(db: Db, modality: string, r: Response, source: string, now: int) returns (id: nat)
    requires Inv(db)
    ensures var after := StoreNext(db, modality, r, source, now);
      && id in after.contests && after == Put(db, id, after.contests[id], after.results)
      && MayPut(db, id, after.contests[id], after.results) && Row(after.contests, id, modality, r.nextNumber)
      && after.results == db.results
  {
    var found := Find(db.contests, modality, r.nextNumber);
    id := if found.Some? then found.value else db.nextId;
  }

  lemma StoreNextKeeps(db: Db, modality: string, r: Response, source: string, now: int)
    requires Inv(db)
    ensures Inv(StoreNext(db, modality, r, source, now)) && Evolves(db, StoreNext(db, modality, r, source, now))
    ensures StoreNext(db, modality, r, source, now).pools == db.pools
  {
    hide Inv, Evolves, MayPut, StoreNext;
    var after := StoreNext(db, modality, r, source, now);
    var id := NextIsPut(db, modality, r, source, now);
    PutKeeps(db, id, after.contests[id], after.results);
  }

  lemma SyncKeeps(db: Db, m: string, r: Response, source: string, now: int, rows: seq<nat>, nextRows: seq<nat>)
    requires Inv(db) && SyncRows(db, m, r, rows, nextRows)
    ensures Inv(SyncTransaction(db, m, r, source, now, rows, nextRows)) && Evolves(db, SyncTransaction(db, m, r, source, now, rows, nextRows))
    ensures forall id :: id in SyncTransaction(db, m, r, source, now, rows, nextRows).pools <==> id in db.pools
  {
    hide Inv, Evolves, Candidates, Provisional, Adopt, StoreCurrent, StoreNext;
    var d1 := Adopt(db, m, r.number, rows);
    CandidatesAreProvisional(rows, db, m, BrazilDayNumber(r.draw));
    CandidatesAreProvisional(nextRows, d1, m, BrazilDayNumber(r.nextDraw));
    AdoptEvolves(db, m, r.number, rows);
    var d2 := Adopt(d1, m, r.nextNumber, nextRows);
    AdoptEvolves(d1, m, r.nextNumber, nextRows);
    EvolvesTransitive(db, d1, d2);
    var d3 := StoreCurrent(d2, m, r, source);
    StoreCurrentKeeps(d2, m, r, source);
    EvolvesTransitive(db, d2, d3);
    StoreNextKeeps(d3, m, r, source, now);
    EvolvesTransitive(db, d3, StoreNext(d3, m, r, source, now));
  }

  /** What storing one draw leaves under its number: the row that was there or a new one, everything else as it was. */
  ghost predicate Stored(a: Db, b: Db, id: nat, modality: string, number: int, draw: int, cutoff: int, source: string) {
    && Row(b.contests, id, modality, number)
    && (Row(a.contests, id, modality, number) || (id == a.nextId && forall j :: !Row(a.contests, j, modality, number)))
    && b.contests[id].draw == draw && b.contests[id].cutoff == cutoff && b.contests[id].source == source
    && (forall i :: i in b.contests <==> i in a.contests || i == id)
    && (forall i :: i in a.contests && i != id ==> b.contests[i] == a.contests[i])
    && (forall i :: i in a.results && i != id ==> i in b.results && b.results[i] == a.results[i])
  }

  lemma StoreCurrentEffect(db: Db, modality: string, r: Response, source: string) returns (id: nat)
    requires Inv(db)
    ensures var b := StoreCurrent(db, modality, r, source);
      && Stored(db, b, id, modality, r.number, r.draw, r.cutoff, source)
      && (r.numbers != [] ==> b.contests[id].status == Apurado && id in b.results && b.results[id] == DrawResult(r.numbers, r.second))
      && (r.numbers == [] ==> b.contests[id].status == if id in db.contests then db.contests[id].status else Fechado)
  {
    var found := Find(db.contests, modality, r.number);
    id := if found.Some? then found.value else db.nextId;
  }

  lemma StoreNextEffect(db: Db, modality: string, r: Response, source: string, now: int) returns (id: nat)
    requires Inv(db)
    ensures var b := StoreNext(db, modality, r, source, now);
      && Stored(db, b, id, modality, r.nextNumber, r.nextDraw, r.nextCutoff, source)
      && b.results == db.results
      && b.contests[id].status == if id in db.contests then db.contests[id].status else if r.nextCutoff > now then Aberto else Fechado
  {
    var found := Find(db.contests, modality, r.nextNumber);
    id := if found.Some? then found.value else db.nextId;
  }

  lemma RowIsUnique(db: Db, i: nat, j: nat, modality: string, number: int)
    requires Inv(db) && Row(db.contests, i, modality, number) && Row(db.contests, j, modality, number)
    ensures i == j
  {
  }

  /**
    A stored response: the drawn contest is settled with exactly the numbers received, both contests carry the dates
    and cutoffs received, and a new next contest is open only when its cutoff is ahead. A response that gives both
    draws the same number is stored in one row, which ends with the date and cutoff of the next draw; a new one is not
    open.
   */
  lemma SyncEffect(db: Db, m: string, r: Response, source: string, now: int, rows: seq<nat>, nextRows: seq<nat>) returns (current: nat, next: nat)
    requires Inv(db) && SyncRows(db, m, r, rows, nextRows)
    ensures var after := SyncTransaction(db, m, r, source, now, rows, nextRows);
      && Row(after.contests, current, m, r.number) && Row(after.contests, next, m, r.nextNumber)
      && (current == next <==> r.number == r.nextNumber)
      && after.contests[next].draw == r.nextDraw && after.contests[next].cutoff == r.nextCutoff
      && (r.number != r.nextNumber ==> after.contests[current].draw == r.draw && after.contests[current].cutoff == r.cutoff)
      && (r.numbers != [] ==>
            after.contests[current].status == Apurado && current in after.results && after.results[current] == DrawResult(r.numbers, r.second))
      && (next !in db.contests && r.number != r.nextNumber ==> (after.contests[next].status == Aberto <==> r.nextCutoff > now))
      && (next !in db.contests && r.number == r.nextNumber ==> after.contests[next].status == if r.numbers != [] then Apurado else Fechado)
  {
    var d1 := Adopt(db, m, r.number, rows);
    var d2 := Adopt(d1, m, r.nextNumber, nextRows);
    hide Inv, Evolves, Adopt, StoreCurrent, StoreNext, Candidates, Provisional, BrazilDayNumber;
    CandidatesAreProvisional(rows, db, m, BrazilDayNumber(r.draw));
    CandidatesAreProvisional(nextRows, d1, m, BrazilDayNumber(r.nextDraw));
    AdoptEvolves(db, m, r.number, rows);
    AdoptEvolves(d1, m, r.nextNumber, nextRows);
    var d3 := StoreCurrent(d2, m, r, source);
    current := StoreCurrentEffect(d2, m, r, source);
    StoreCurrentKeeps(d2, m, r, source);
    IdsBelowNext(d3, current);
    next := StoreNextEffect(d3, m, r, source, now);
    if r.number == r.nextNumber { RowIsUnique(d3, current, next, m, r.number); }
  }

  /** A contest that a response is not about: not a candidate of either day, and under neither number. */
  ghost predicate Unrelated(db: Db, m: string, r: Response, rows: seq<nat>, nextRows: seq<nat>, id: nat) {
    && id in db.contests && id !in rows && id !in nextRows
    && !Row(db.contests, id, m, r.number) && !Row(db.contests, id, m, r.nextNumber)
  }

  ghost predicate SameAt(a: Db, b: Db, id: nat) {
    && (id in a.contests <==> id in b.contests) && (id in a.contests ==> b.contests[id] == a.contests[id])
    && (id in a.results <==> id in b.results) && (id in a.results ==> b.results[id] == a.results[id])
  }

  lemma AdoptLeaves(db: Db, m: string, number: int, rows: seq<nat>, id: nat)
    requires Inv(db) && Provisional(db, m, rows) && id in db.contests && id !in rows && !Row(db.contests, id, m, number)
    ensures SameAt(db, Adopt(db, m, number, rows), id)
  {
    if number > 0 && rows != [] { AdoptRows(db, m, number, rows); }
  }

  lemma StoreLeaves(db: Db, m: string, r: Response, source: string, now: int, id: nat)
    requires Inv(db) && id in db.contests
    ensures !Row(db.contests, id, m, r.number) ==> SameAt(db, StoreCurrent(db, m, r, source), id)
    ensures !Row(db.contests, id, m, r.nextNumber) ==> SameAt(db, StoreNext(db, m, r, source, now), id)
  {
    var current := CurrentIsPut(db, m, r, source);
    var next := NextIsPut(db, m, r, source, now);
    if !Row(db.contests, id, m, r.number) { PutLeaves(db, current, StoreCurrent(db, m, r, source), id); }
    if !Row(db.contests, id, m, r.nextNumber) { PutLeaves(db, next, StoreNext(db, m, r, source, now), id); }
    hide Inv, StoreCurrent, StoreNext, MayPut, SameAt;
  }

  lemma PutLeaves(db: Db, at: nat, after: Db, id: nat)
    requires Inv(db) && id in db.contests && at in after.contests && after == Put(db, at, after.contests[at], after.results)
    requires MayPut(db, at, after.contests[at], after.results) && at != id
    requires forall i :: i in db.results && i != at ==> after.results[i] == db.results[i]
    ensures SameAt(db, after, id)
  {
  }

  /** A stored response touches no other contest and no other result. */
  lemma SyncLeavesOthers(db: Db, m: string, r: Response, source: string, now: int, rows: seq<nat>, nextRows: seq<nat>, id: nat)
    requires Inv(db) && SyncRows(db, m, r, rows, nextRows) && Unrelated(db, m, r, rows, nextRows, id)
    ensures SameAt(db, SyncTransaction(db, m, r, source, now, rows, nextRows), id)
  {
    var d1 := Adopt(db, m, r.number, rows);
    var d2 := Adopt(d1, m, r.nextNumber, nextRows);
    hide Inv, Evolves, Adopt, StoreCurrent, StoreNext, Candidates, Provisional, BrazilDayNumber;
    CandidatesAreProvisional(rows, db, m, BrazilDayNumber(r.draw));
    CandidatesAreProvisional(nextRows, d1, m, BrazilDayNumber(r.nextDraw));
    AdoptEvolves(db, m, r.number, rows);
    AdoptEvolves(d1, m, r.nextNumber, nextRows);
    AdoptLeaves(db, m, r.number, rows, id);
    AdoptLeaves(d1, m, r.nextNumber, nextRows, id);
    var d3 := StoreCurrent(d2, m, r, source);
    StoreCurrentKeeps(d2, m, r, source);
    StoreLeaves(d2, m, r, source, now, id);
    StoreLeaves(d3, m, r, source, now, id);
  }

  /** A payload that can be stored: both numbers and dates, drawn numbers that are numbers, and valid cutoffs. */
  ghost predicate Storable(p: Payload, config: Config) {
    && p.number != 0 && p.nextNumber != 0 && p.draw.Some? && p.nextDraw.Some? && p.numbers.Some?
    && 0 <= config.hour <= 23 && 0 <= config.minute <= 59
    && 1970 <= BrazilDay(p.draw.value).year <= 9999 && 1970 <= BrazilDay(p.nextDraw.value).year <= 9999
  }

  /** The answers of the two queries for provisional contests, of the payload's own days. */
  ghost predicate RowsOf(db: Db, p: Payload, config: Config, rows: seq<nat>, nextRows: seq<nat>)
    requires p.draw.Some? && p.nextDraw.Some?
  {
    && Candidates(rows, db, config.modality, BrazilDayNumber(p.draw.value))
    && Candidates(nextRows, Adopt(db, config.modality, p.number, rows), config.modality, BrazilDayNumber(p.nextDraw.value))
  }

  /** A cutoff at the configured hour of a draw's own Brazil day. */
  ghost predicate CutoffOf(cutoff: int, draw: int, config: Config) {
    BrazilDay(cutoff) == BrazilDay(draw) && (cutoff - BRAZIL_OFFSET) % MS_PER_DAY == config.hour * 3_600_000 + config.minute * 60_000
  }

  lemma AcceptsStorable(p: Payload, config: Config)
    ensures Accept(p, config).Some? <==> Storable(p, config)
    ensures Storable(p, config) ==>
      var r := Accept(p, config).value;
      && r == Response(p.number, p.draw.value, r.cutoff, p.numbers.value, if config.modality == "duplasena" then p.second else [], p.nextNumber, p.nextDraw.value, r.nextCutoff)
      && CutoffOf(r.cutoff, p.draw.value, config) && CutoffOf(r.nextCutoff, p.nextDraw.value, config)
  {
    hide CalculateBrazilCutoff, BrazilDay;
    if p.draw.Some? { CutoffIsOnDrawDay(p.draw.value, config.hour, config.minute); }
    if p.nextDraw.Some? { CutoffIsOnDrawDay(p.nextDraw.value, config.hour, config.minute); }
  }

  /**
    From the payload to the tables: one that cannot be stored changes nothing. Otherwise the drawn contest has the
    payload's number, its date and result, the next contest the next number and date, each with the cutoff of its own
    draw. With equal numbers there is one row, which ends with the date of the next draw.
   */
  lemma PayloadEffect(db: Db, p: Payload, config: Config, source: string, now: int, rows: seq<nat>, nextRows: seq<nat>)
    returns (current: nat, next: nat)
    requires Inv(db) && (Storable(p, config) ==> RowsOf(db, p, config, rows, nextRows))
    ensures !Storable(p, config) ==> Sync(db, p, config, source, now, rows, nextRows) == db
    ensures Storable(p, config) ==>
      var after := Sync(db, p, config, source, now, rows, nextRows);
      && Row(after.contests, current, config.modality, p.number) && Row(after.contests, next, config.modality, p.nextNumber)
      && after.contests[next].draw == p.nextDraw.value && CutoffOf(after.contests[next].cutoff, p.nextDraw.value, config)
      && (p.number != p.nextNumber ==> after.contests[current].draw == p.draw.value && CutoffOf(after.contests[current].cutoff, p.draw.value, config))
      && (p.numbers.value != [] ==>
            && after.contests[current].status == Apurado && current in after.results
            && after.results[current] == DrawResult(p.numbers.value, if config.modality == "duplasena" then p.second else []))
      && (next !in db.contests && p.number != p.nextNumber ==> (after.contests[next].status == Aberto <==> after.contests[next].cutoff > now))
  {
    hide Inv, Candidates, Accept, Storable, CutoffOf, SyncTransaction, Adopt, BrazilDayNumber;
    AcceptsStorable(p, config);
    current, next := 0, 0;
    if Storable(p, config) {
      var r := Accept(p, config).value;
      assert SyncRows(db, config.modality, r, rows, nextRows);
      current, next := SyncEffect(db, config.modality, r, source, now, rows, nextRows);
    }
  }

  lemma IdsBelowNext(db: Db, id: nat)
    requires Inv(db)
    ensures id in db.contests ==> id < db.nextId
  {
  }

  /** A future cutoff does not reopen a contest: rescheduling one that was already closed leaves it closed. */
  lemma RescheduledStaysClosed(db: Db, id: nat, modality: string, r: Response, source: string, now: int)
    requires Inv(db) && Row(db.contests, id, modality, r.nextNumber)
    ensures id in StoreNext(db, modality, r, source, now).contests
    ensures StoreNext(db, modality, r, source, now).contests[id].status == db.contests[id].status
    ensures StoreNext(db, modality, r, source, now).contests[id].cutoff == r.nextCutoff
  {
    FindIs(db, id, modality, r.nextNumber);
  }
}
