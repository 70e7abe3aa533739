/** The worker's imperative steps on the contest tables, each proved to be its step on values. */
module ContestStore {
  import opened BrazilTime
  import opened Contests
  import opened Wrappers

  class Store {
    var contests: map<nat, Contest>
    var results: map<nat, DrawResult>
    var pools: map<nat, nat>
    var nextId: nat

    function State(): Db
      reads this
    {
      Db(contests, results, pools, nextId)
    }

    constructor (db: Db)
      ensures State() == db
    {
      contests, results, pools, nextId := db.contests, db.results, db.pools, db.nextId;
    }

    /** `findUnique` by modality and number. */
    method FindUnique(modality: string, number: int) returns (r: Option<nat>)
      requires Inv(State())
      ensures r == Find(contests, modality, number)
    {
      r := None;
      for id := 0 to nextId
        invariant forall i :: 0 <= i < id ==> !Row(contests, i, modality, number)
      {
        if Row(contests, id, modality, number) {
          FindIs(State(), id, modality, number);
          return Some(id);
        }
      }
    }

    /** `updateMany` of the open contests past their cutoff. */
    method CloseRows(now: int)
      modifies this`contests
      ensures contests == ClosedBelow(old(contests), nextId, now)
    {
      ghost var before := contests;
      hide ClosedBelow;
      ClosedBelowStep(before, 0, now);
      for id := 0 to nextId
        invariant contests == ClosedBelow(before, id, now)
      {
        ClosedBelowStep(before, id, now);
        ClosedBelowAt(before, id, now);
        if id in contests && contests[id].status == Aberto && contests[id].cutoff <= now {
          contests := contests[id := contests[id].(status := Fechado)];
        }
      }
    }

    /** Contests past their cutoff never stay open. */
    method CloseExpiredContests(now: int)
      requires Inv(State())
      modifies this`contests
      ensures State() == CloseExpired(old(State()), now)
      ensures Inv(State())
    {
      CloseExpiredEffect(State(), now);
      ClosedBelowAll(State(), now);
      CloseRows(now);
    }

    method FindCandidates(modality: string, day: int) returns (rows: seq<nat>)
      requires Inv(State())
      ensures Candidates(rows, State(), modality, day)
    {
      rows := [];
      for id := 0 to nextId
        invariant forall i, j :: 0 <= i < j < |rows| ==> rows[i] != rows[j]
        invariant forall i: nat :: i in rows <==> i < id && IsCandidate(State(), modality, day, i)
      {
        if IsCandidate(State(), modality, day, id) { rows := rows + [id]; }
      }
    }

    /** One candidate becomes the official contest, or its pools and festival name move to it and it is removed. */
    method AdoptCandidate(modality: string, id: nat, number: int)
      requires Inv(State()) && id in contests
      modifies this
      ensures State() == AdoptOne(old(State()), modality, id, number)
    {
      var found := FindUnique(modality, number);
      if found.None? {
        contests := contests[id := contests[id].(number := number, numberDefined := true)];
      } else {
        pools := MovePools(pools, id, found.value);
        contests := contests[found.value := Merged(contests[found.value], contests[id])];
        contests := contests - {id};
        results := results - {id};
      }
    }

    /** `adoptProvisionalContests`: returns how many candidates there were. */
    method AdoptProvisionalContests(modality: string, number: int, drawDate: int) returns (adopted: nat, rows: seq<nat>)
      requires Inv(State())
      modifies this
      ensures Candidates(rows, old(State()), modality, BrazilDayNumber(drawDate))
      ensures State() == Adopt(old(State()), modality, number, rows)
      ensures Inv(State())
      ensures adopted == if number > 0 then |rows| else 0
    {
      hide Inv, AdoptOne, BrazilDayNumber;
      rows := FindCandidates(modality, BrazilDayNumber(drawDate));
      ghost var before := State();
      CandidatesAreProvisional(rows, before, modality, BrazilDayNumber(drawDate));
      AdoptEvolves(before, modality, number, rows);
      adopted := 0;
      if number <= 0 { return; }
      for k := 0 to |rows|
        invariant adopted == k
        invariant Inv(State()) && Provisional(State(), modality, rows[k..])
        invariant AdoptAll(State(), modality, rows[k..], number) == AdoptAll(before, modality, rows, number)
      {
        ghost var now := State();
        AdoptNext(now, modality, rows, k, number);
        AdoptCandidate(modality, rows[k], number);
        adopted := adopted + 1;
      }
    }

    /** Stores the current contest, with its result when it has been drawn. */
    method StoreCurrentContest(modality: string, r: Response, source: string)
      requires Inv(State())
      modifies this
      ensures State() == StoreCurrent(old(State()), modality, r, source)
    {
      var drawn := r.numbers != [];
      var found := FindUnique(modality, r.number);
      var id;
      if found.Some? {
        id := found.value;
        var c := contests[id].(draw := r.draw, cutoff := r.cutoff, source := source);
        if drawn { c := c.(status := Apurado); }
        contests := contests[id := c];
      } else {
        id := nextId;
        contests := contests[id := Contest(modality, r.number, r.draw, r.cutoff, if drawn then Apurado else Fechado, source, None, None, true)];
        nextId := nextId + 1;
      }
      if drawn { results := results[id := DrawResult(r.numbers, r.second)]; }
    }

    method StoreNextContest(modality: string, r: Response, source: string, now: int)
      requires Inv(State())
      modifies this
      ensures State() == StoreNext(old(State()), modality, r, source, now)
    {
      var found := FindUnique(modality, r.nextNumber);
      if found.Some? {
        var c := contests[found.value].(draw := r.nextDraw, cutoff := r.nextCutoff, source := source);
        contests := contests[found.value := c];
      } else {
        var status := if r.nextCutoff > now then Aberto else Fechado;
        contests := contests[nextId := Contest(modality, r.nextNumber, r.nextDraw, r.nextCutoff, status, source, None, None, true)];
        nextId := nextId + 1;
      }
    }

    /** One modality of a cycle: nothing is stored unless the whole response can be. */
    method SyncModality(p: Payload, config: Config, source: string, now: int) returns (rows: seq<nat>, nextRows: seq<nat>)
      requires Inv(State())
      modifies this
      ensures Storable(p, config) ==> RowsOf(old(State()), p, config, rows, nextRows)
      ensures State() == Sync(old(State()), p, config, source, now, rows, nextRows)
      ensures Inv(State()) && Evolves(old(State()), State())
    {
      hide Accept, Inv, Evolves, BrazilDayNumber, Candidates, Adopt, StoreCurrent, StoreNext;
      rows, nextRows := [], [];
      ghost var before := State();
      var accepted := Accept(p, config);
      AcceptsStorable(p, config);
      if accepted.None? {
        EvolvesReflexive(before);
        return;
      }
      var r := accepted.value;
      var count, nextCount;
      count, rows := AdoptProvisionalContests(config.modality, r.number, r.draw);
      nextCount, nextRows := AdoptProvisionalContests(config.modality, r.nextNumber, r.nextDraw);
      ghost var adopted := State();
      StoreCurrentContest(config.modality, r, source);
      StoreCurrentKeeps(adopted, config.modality, r, source);
      StoreNextContest(config.modality, r, source, now);
      SyncKeeps(before, config.modality, r, source, now, rows, nextRows);
    }
  }

  lemma AdoptNext(db: Db, modality: string, rows: seq<nat>, k: nat, number: int)
    requires Inv(db) && number > 0 && k < |rows| && Provisional(db, modality, rows[k..])
    ensures rows[k] in db.contests
    ensures AdoptAll(db, modality, rows[k..], number) == AdoptAll(AdoptOne(db, modality, rows[k], number), modality, rows[k + 1..], number)
    ensures Inv(AdoptOne(db, modality, rows[k], number)) && Provisional(AdoptOne(db, modality, rows[k], number), modality, rows[k + 1..])
  {
    var id, rest := rows[k], rows[k + 1..];
    assert rows[k..] == [id] + rest;
    assert id in rows[k..];
    TailRows(rows[k..]);
    assert rows[k..][1..] == rest;
    var found := Find(db.contests, modality, number);
    if found.Some? {
      HandOverOne(db, modality, id, number, found.value);
      assert found.value !in rest;
      OthersStayProvisional(db, AdoptOne(db, modality, id, number), modality, id, rest, found.value);
    } else {
      TakeNumber(db, modality, id, number);
    }
  }
}
