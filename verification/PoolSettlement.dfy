/**
  Settling the registered pools of a drawn contest (apps/worker/src/settle.ts): each pool is checked game
  by game, its prize is divided among its registered shares, and the audit trail records what was written.
  Each pool's transaction is one atomic step.
 */
module PoolSettlement {
  import Sets
  import opened Sorting
  import opened PrizeSplit
  import opened PrizeFairness
  import opened Settlement
  import opened Wrappers

  datatype PoolStatus = Rascunho | Aberto | Fechado | Registrado | Apurado | Cancelado
  datatype ShareStatus = Reservada | Paga | Registrada | Apurada | Premiada | Cancelada | Estornada
  datatype Cota = Cota(id: string, quantity: int, status: ShareStatus, prize: Option<int>)
  datatype Pool = Pool(contest: nat, status: PoolStatus, games: seq<Game>, bet: seq<int>, shares: seq<Cota>, won: bool, prizeTotal: Option<int>)
  datatype Audit = PoolSettled(pool: nat) | ShareSettled(share: string, prize: Option<int>)
  datatype Ledger = Ledger(pools: map<nat, Pool>, audit: seq<Audit>)

  predicate IsActive(c: Cota) { c.status == Registrada }

  function AsShare(c: Cota): Share { Share(c.id, c.quantity) }

  function ShareOf(c: Cota): seq<Share> {
    if IsActive(c) then [AsShare(c)] else []
  }

  /** The registered shares, as the division sees them. */
  function Active(shares: seq<Cota>): seq<Share> {
    FlatMap(ShareOf, shares)
  }

  function CotaId(c: Cota): string { c.id }

  predicate DistinctCotas(shares: seq<Cota>) {
    Distinct(MapSeq(CotaId, shares))
  }

  /** A pool without typed games bets its own numbers. */
  function GamesOf(p: Pool): seq<Game> {
    if p.games != [] then p.games else [Game(1, p.bet)]
  }

  function PrizeOf(p: Pool, official: Official): int {
    PrizeTotal(GamesOf(p), official)
  }

  function SettleShare(won: bool, parts: map<string, int>): Cota -> Cota {
    (c: Cota) =>
      if !IsActive(c) then c
      else c.(status := if won then Premiada else Apurada, prize := if won then Some(At(parts, c.id)) else None)
  }

  function SettledPool(p: Pool, official: Official): Pool {
    var total := PrizeOf(p, official);
    var parts := Split(total, Active(p.shares));
    p.(status := Apurado, won := total > 0, prizeTotal := Some(total), shares := MapSeq(SettleShare(total > 0, parts), p.shares))
  }

  function AuditOf(won: bool, parts: map<string, int>): Cota -> seq<Audit> {
    (c: Cota) => if IsActive(c) then [ShareSettled(c.id, SettleShare(won, parts)(c).prize)] else []
  }

  function ShareAudits(won: bool, parts: map<string, int>, shares: seq<Cota>): seq<Audit> {
    FlatMap(AuditOf(won, parts), shares)
  }

  function PoolAudits(id: nat, p: Pool, official: Official): seq<Audit> {
    var total := PrizeOf(p, official);
    ShareAudits(total > 0, Split(total, Active(p.shares)), p.shares) + [PoolSettled(id)]
  }

  // ----- the shares of one pool -----

  lemma {:induction false} ActiveFromCotas(shares: seq<Cota>)
    ensures forall s :: s in Active(shares) ==> s.id in MapSeq(CotaId, shares)
  {
    if shares != [] {
      ActiveFromCotas(shares[1..]);
      var ids := MapSeq(CotaId, shares);
      assert ids == [shares[0].id] + MapSeq(CotaId, shares[1..]);
    }
  }

  lemma {:induction false} ActiveDistinct(shares: seq<Cota>)
    requires DistinctCotas(shares)
    ensures DistinctIds(Active(shares))
  {
    if shares != [] {
      var ids, tail := MapSeq(CotaId, shares), Active(shares[1..]);
      DistinctRest(ids);
      assert MapSeq(CotaId, shares[1..]) == ids[1..];
      ActiveDistinct(shares[1..]);
      ActiveFromCotas(shares[1..]);
      if IsActive(shares[0]) {
        assert Active(shares) == [AsShare(shares[0])] + tail;
        assert MapSeq(IdOf, Active(shares)) == [shares[0].id] + MapSeq(IdOf, tail);
        DistinctCons(shares[0].id, MapSeq(IdOf, tail));
      } else {
        assert Active(shares) == tail;
      }
    }
  }

  method ActiveShares(shares: seq<Cota>) returns (active: seq<Share>)
    ensures active == Active(shares)
  {
    active := [];
    for i := 0 to |shares|
      invariant active == FlatMap(ShareOf, shares[..i])
    {
      FlatMapNext(ShareOf, shares, i);
      if IsActive(shares[i]) { active := active + [AsShare(shares[i])]; }
    }
    assert shares[..|shares|] == shares;
  }

  /** The update of every active share, with its audit row. */
  method WriteShares(won: bool, parts: map<string, int>, before: seq<Cota>) returns (after: seq<Cota>, audit: seq<Audit>)
    ensures after == MapSeq(SettleShare(won, parts), before)
    ensures audit == ShareAudits(won, parts, before)
  {
    after, audit := [], [];
    for i := 0 to |before|
      invariant after == MapSeq(SettleShare(won, parts), before[..i])
      invariant audit == FlatMap(AuditOf(won, parts), before[..i])
    {
      var c := before[i];
      MapSeqNext(SettleShare(won, parts), before, i);
      FlatMapNext(AuditOf(won, parts), before, i);
      if IsActive(c) {
        var prize := if won then Some(if c.id in parts then parts[c.id] else 0) else None;
        c := c.(status := if won then Premiada else Apurada, prize := prize);
        audit := audit + [ShareSettled(c.id, prize)];
      }
      after := after + [c];
    }
    assert before[..|before|] == before;
  }

  /** Writes one pool: status and totals, then every active share with its audit row. */
  method SettlePool(id: nat, p: Pool, official: Official) returns (r: Pool, audit: seq<Audit>)
    requires DistinctCotas(p.shares)
    ensures r == SettledPool(p, official) && DistinctCotas(r.shares)
    ensures audit == PoolAudits(id, p, official)
  {
    hide Split, Units, Prizes, BestTier, SumBy, FlatMap;
    var games := if p.games != [] then p.games else [Game(1, p.bet)];
    var outcome := SettleGames(games, official);
    PositiveTotal(games, official);
    var active := ActiveShares(p.shares);
    ActiveDistinct(p.shares);
    var parts := SplitPrize(outcome.prizeTotal, active);
    var shares, shareAudits := WriteShares(outcome.won, parts, p.shares);
    r := p.(status := Apurado, won := outcome.won, prizeTotal := Some(outcome.prizeTotal), shares := shares);
    audit := shareAudits + [PoolSettled(id)];
    assert MapSeq(CotaId, shares) == MapSeq(CotaId, p.shares);
  }

  /** Prize values written to the shares that were registered. */
  function Written(before: seq<Cota>, after: seq<Cota>): int
    requires |before| == |after|
  {
    if before == [] then 0
    else (if IsActive(before[0]) && after[0].prize.Some? then after[0].prize.value else 0) + Written(before[1..], after[1..])
  }

  lemma {:induction false} WrittenIsPaid(shares: seq<Cota>, parts: map<string, int>)
    ensures Written(shares, MapSeq(SettleShare(true, parts), shares)) == Paid(parts, Active(shares))
    ensures Written(shares, MapSeq(SettleShare(false, parts), shares)) == 0
  {
    if shares != [] {
      WrittenIsPaid(shares[1..], parts);
      assert MapSeq(SettleShare(true, parts), shares)[1..] == MapSeq(SettleShare(true, parts), shares[1..]);
      assert MapSeq(SettleShare(false, parts), shares)[1..] == MapSeq(SettleShare(false, parts), shares[1..]);
      SumByConcat(ShareGets(parts), if IsActive(shares[0]) then [AsShare(shares[0])] else [], Active(shares[1..]));
      if IsActive(shares[0]) {
        assert [AsShare(shares[0])][1..] == [];
      }
    }
  }

  /**
    The values written to the shares add up to the pool's prize if and only if there is nothing to pay
    or some registered share has a positive quantity; in the remaining case nothing is written.
   */
  lemma SharesReceiveThePrize(p: Pool, official: Official)
    requires DistinctCotas(p.shares)
    ensures var r := SettledPool(p, official); var total := PrizeOf(p, official);
      && r.prizeTotal == Some(total)
      && (Written(p.shares, r.shares) == total <==> total == 0 || Units(Active(p.shares)) > 0)
      && (Written(p.shares, r.shares) == total || Written(p.shares, r.shares) == 0)
  {
    var total := PrizeOf(p, official);
    var active := Active(p.shares);
    PositiveTotal(GamesOf(p), official);
    ActiveDistinct(p.shares);
    WrittenIsPaid(p.shares, Split(total, active));
    SplitIsExact(total, active);
  }

  /** The prize of a pool is that of all its typed games, or of its own numbers when none was typed; it won if any of them did. */
  lemma PoolPrize(p: Pool, official: Official)
    ensures var r := SettledPool(p, official);
      && r.status == Apurado && r.contest == p.contest && r.games == p.games && r.bet == p.bet
      && (p.games != [] ==>
            && r.prizeTotal == Some(SumBy(Cents, AllPrizes(p.games, official)))
            && (r.won <==> exists g :: g in p.games && Prizes(g.numbers, official) != []))
      && (p.games == [] ==>
            && r.prizeTotal == Some(SumBy(Cents, Prizes(p.bet, official)))
            && (r.won <==> Prizes(p.bet, official) != []))
  {
    hide Prizes, Split, AllPrizes;
    var games := GamesOf(p);
    SumOfAllPrizes(games, official);
    PositiveTotal(games, official);
    SomeGameWins(games, official);
    OneGame(p.bet, official);
  }

  lemma OneGame(bet: seq<int>, official: Official)
    ensures AllPrizes([Game(1, bet)], official) == Prizes(bet, official)
  {
    var game := Game(1, bet);
    assert [game][1..] == [];
    assert PrizesOf(official)(game) == Prizes(bet, official) && FlatMap(PrizesOf(official), []) == [];
    assert Prizes(bet, official) + [] == Prizes(bet, official);
  }

  /**
    Shares that were not registered keep every field. Registered ones leave that status, so they cannot be paid twice:
    in a pool that won they are premiada with a value, otherwise apurada without one.
   */
  lemma OnlyRegisteredSharesChange(p: Pool, official: Official, i: nat)
    requires i < |p.shares|
    ensures |SettledPool(p, official).shares| == |p.shares|
    ensures var r := SettledPool(p, official); var before, after := p.shares[i], r.shares[i];
      && after.id == before.id && after.quantity == before.quantity
      && (before.status != Registrada ==> after == before)
      && (before.status == Registrada && r.won ==> after.status == Premiada && after.prize.Some?)
      && (before.status == Registrada && !r.won ==> after.status == Apurada && after.prize == None)
  {
  }

  /** The audit trail has one entry for each registered share, in order and with what it was written, and then the pool's own. */
  lemma {:induction false} ShareAuditsInOrder(won: bool, parts: map<string, int>, shares: seq<Cota>, k: nat)
    requires k < |Active(shares)|
    ensures |ShareAudits(won, parts, shares)| == |Active(shares)|
    ensures ShareAudits(won, parts, shares)[k] == ShareSettled(Active(shares)[k].id, if won then Some(At(parts, Active(shares)[k].id)) else None)
  {
    var rest := shares[1..];
    if IsActive(shares[0]) {
      var c := shares[0];
      assert SettleShare(won, parts)(c).prize == if won then Some(At(parts, c.id)) else None;
      assert AuditOf(won, parts)(c) == [ShareSettled(c.id, if won then Some(At(parts, c.id)) else None)];
      assert Active(shares) == [AsShare(shares[0])] + Active(rest);
      if k > 0 {
        ShareAuditsInOrder(won, parts, rest, k - 1);
      } else {
        SameLength(won, parts, rest);
      }
    } else {
      assert Active(shares) == Active(rest) && ShareAudits(won, parts, shares) == ShareAudits(won, parts, rest);
      ShareAuditsInOrder(won, parts, rest, k);
    }
  }

  lemma {:induction false} SameLength(won: bool, parts: map<string, int>, shares: seq<Cota>)
    ensures |ShareAudits(won, parts, shares)| == |Active(shares)|
  {
    if shares != [] { SameLength(won, parts, shares[1..]); }
  }

  lemma AuditTrail(id: nat, p: Pool, official: Official)
    ensures var audits, active, r := PoolAudits(id, p, official), Active(p.shares), SettledPool(p, official);
      && |audits| == |active| + 1 && audits[|active|] == PoolSettled(id)
      && forall k :: 0 <= k < |active| ==>
           audits[k] == ShareSettled(active[k].id, if r.won then Some(At(Split(r.prizeTotal.value, active), active[k].id)) else None)
  {
    var total := PrizeOf(p, official);
    var parts, active := Split(total, Active(p.shares)), Active(p.shares);
    hide PrizeOf, Split, Active, ShareAudits;
    SameLength(total > 0, parts, p.shares);
    forall k: nat | k < |active|
      ensures ShareAudits(total > 0, parts, p.shares)[k] == ShareSettled(active[k].id, if total > 0 then Some(At(parts, active[k].id)) else None)
    {
      ShareAuditsInOrder(total > 0, parts, p.shares, k);
    }
  }

  lemma {:induction false} ActiveHas(shares: seq<Cota>, i: nat) returns (j: nat)
    requires i < |shares| && IsActive(shares[i])
    ensures j < |Active(shares)| && Active(shares)[j] == AsShare(shares[i])
  {
    if i == 0 {
      j := 0;
    } else {
      j := ActiveHas(shares[1..], i - 1);
      j := j + |ShareOf(shares[0])|;
    }
  }

  /** When the pool won, each registered share is paid its own proportion, less than a cent away. */
  lemma EachShareItsProportion(p: Pool, official: Official, i: nat)
    requires DistinctCotas(p.shares) && i < |p.shares| && IsActive(p.shares[i])
    ensures PrizeOf(p, official) > 0 && Units(Active(p.shares)) > 0 ==>
      var after := SettledPool(p, official).shares[i];
      var units := Units(Active(p.shares));
      var exact := PrizeOf(p, official) * Weight(AsShare(p.shares[i]));
      after.prize.Some? && exact - units < units * after.prize.value < exact + units
  {
    ActiveDistinct(p.shares);
    var j := ActiveHas(p.shares, i);
    if PrizeOf(p, official) > 0 && Units(Active(p.shares)) > 0 { FloorOrCeiling(PrizeOf(p, official), Active(p.shares), j); }
  }

  // ----- the store -----

  ghost predicate Pending(pools: map<nat, Pool>, contest: nat, id: nat) {
    id in pools && pools[id].contest == contest && pools[id].status == Registrado
  }

  /** `rows` is the answer of the query: the registered pools of the contest, each once. */
  ghost predicate Lists(rows: seq<nat>, pools: map<nat, Pool>, contest: nat) {
    && Distinct(rows)
    && forall id :: id in rows <==> Pending(pools, contest, id)
  }

  function SettleRow(l: Ledger, id: nat, official: Official): (r: Ledger)
    requires id in l.pools
    ensures r.pools.Keys == l.pools.Keys
  {
    Ledger(l.pools[id := SettledPool(l.pools[id], official)], l.audit + PoolAudits(id, l.pools[id], official))
  }

  function SettleRows(l: Ledger, rows: seq<nat>, official: Official): Ledger
    requires forall id :: id in rows ==> id in l.pools
    decreases |rows|
  {
    if rows == [] then l
    else SettleRows(SettleRow(l, rows[0], official), rows[1..], official)
  }

  lemma RowStep(l: Ledger, rows: seq<nat>, i: nat, official: Official)
    requires i < |rows| && forall id :: id in rows[i..] ==> id in l.pools
    ensures rows[i] in l.pools
    ensures forall id :: id in rows[i + 1..] ==> id in l.pools
    ensures SettleRows(l, rows[i..], official) == SettleRows(SettleRow(l, rows[i], official), rows[i + 1..], official)
  {
    assert rows[i..] == [rows[i]] + rows[i + 1..];
    assert rows[i] in rows[i..];
  }

  /** One call: modalities checked by hand are only alerted about. */
  datatype Call = Call(contest: nat, modality: string, official: Official, rows: seq<nat>)

  function Apply(l: Ledger, c: Call): Ledger
    requires forall id :: id in c.rows ==> id in l.pools
  {
    if SupportsAutoSettlement(c.modality) then SettleRows(l, c.rows, c.official) else l
  }

  class Store {
    var pools: map<nat, Pool>
    var audit: seq<Audit>

    ghost function State(): Ledger
      reads this
    {
      Ledger(pools, audit)
    }

    /** Share ids are a primary key. */
    ghost predicate Valid()
      reads this
    {
      forall id :: id in pools ==> DistinctCotas(pools[id].shares)
    }

    method FindPending(contest: nat) returns (rows: seq<nat>)
      ensures Lists(rows, pools, contest)
    {
      rows := [];
      var todo := pools.Keys;
      while todo != {}
        invariant todo <= pools.Keys
        invariant Distinct(rows)
        invariant forall id :: id in rows <==> id !in todo && Pending(pools, contest, id)
        decreases |todo|
      {
        ghost var some := Sets.PickOne(todo);
        var id :| id in todo;
        todo := todo - {id};
        if pools[id].contest == contest && pools[id].status == Registrado { rows := rows + [id]; }
      }
    }

    method SettleOne(id: nat, official: Official)
      requires Valid() && id in pools
      modifies this
      ensures Valid() && State() == SettleRow(old(State()), id, official)
    {
      var settled, entries := SettlePool(id, pools[id], official);
      pools := pools[id := settled];
      audit := audit + entries;
    }

    method ApurarConcurso(contest: nat, modality: string, official: Official) returns (rows: seq<nat>)
      requires Valid()
      modifies this
      ensures Valid()
      ensures Lists(rows, old(pools), contest)
      ensures State() == Apply(old(State()), Call(contest, modality, official, rows))
    {
      rows := FindPending(contest);
      if !SupportsAutoSettlement(modality) { return; }
      for i := 0 to |rows|
        invariant Valid()
        invariant pools.Keys == old(pools).Keys
        invariant forall id :: id in rows[i..] ==> id in pools
        invariant SettleRows(State(), rows[i..], official) == SettleRows(old(State()), rows, official)
      {
        RowStep(State(), rows, i, official);
        SettleOne(rows[i], official);
      }
    }
  }

  // ----- any sequence of calls -----

  /** Each pool has at most one settlement on record, and only if it is settled. */
  ghost predicate SettledOnce(l: Ledger) {
    forall id :: multiset(l.audit)[PoolSettled(id)] <= if id in l.pools && l.pools[id].status == Apurado then 1 else 0
  }

  ghost predicate ValidRun(l: Ledger, calls: seq<Call>)
    decreases |calls|
  {
    calls == [] || (Lists(calls[0].rows, l.pools, calls[0].contest) && ValidRun(Apply(l, calls[0]), calls[1..]))
  }

  ghost function Run(l: Ledger, calls: seq<Call>): Ledger
    requires ValidRun(l, calls)
    decreases |calls|
  {
    if calls == [] then l else Run(Apply(l, calls[0]), calls[1..])
  }

  lemma RunOfOne(l: Ledger, c: Call)
    requires Lists(c.rows, l.pools, c.contest)
    ensures ValidRun(l, [c]) && Run(l, [c]) == Apply(l, c)
  {
    assert [c][1..] == [];
  }

  lemma {:induction false} ShareAuditsSettleNoPool(won: bool, parts: map<string, int>, shares: seq<Cota>, id: nat)
    ensures multiset(ShareAudits(won, parts, shares))[PoolSettled(id)] == 0
  {
    if shares != [] { ShareAuditsSettleNoPool(won, parts, shares[1..], id); }
  }

  lemma RowSettlesOnce(l: Ledger, id: nat, official: Official)
    requires SettledOnce(l) && id in l.pools && l.pools[id].status == Registrado
    ensures SettledOnce(SettleRow(l, id, official))
  {
    var r, p := SettleRow(l, id, official), l.pools[id];
    var total := PrizeOf(p, official);
    forall other ensures multiset(r.audit)[PoolSettled(other)] <= if other in r.pools && r.pools[other].status == Apurado then 1 else 0 {
      ShareAuditsSettleNoPool(total > 0, Split(total, Active(p.shares)), p.shares, other);
      assert multiset(r.audit) == multiset(l.audit)
        + (multiset(ShareAudits(total > 0, Split(total, Active(p.shares)), p.shares)) + multiset([PoolSettled(id)]));
    }
  }

  /** The effect of a call on every pool: the listed ones are settled as they stood, the others are untouched. */
  lemma {:induction false} RowsEffect(l: Ledger, rows: seq<nat>, official: Official)
    requires Distinct(rows) && forall id :: id in rows ==> id in l.pools && l.pools[id].status == Registrado
    requires SettledOnce(l)
    ensures SettledOnce(SettleRows(l, rows, official))
    ensures SettleRows(l, rows, official).pools.Keys == l.pools.Keys
    ensures forall id :: id in l.pools ==>
      SettleRows(l, rows, official).pools[id] == if id in rows then SettledPool(l.pools[id], official) else l.pools[id]
    decreases |rows|
  {
    if rows != [] {
      RowSettlesOnce(l, rows[0], official);
      DistinctRest(rows);
      assert forall id :: id in rows <==> id == rows[0] || id in rows[1..];
      RowsEffect(SettleRow(l, rows[0], official), rows[1..], official);
    }
  }

  /** Over any sequence of calls each pool is settled at most once, and a settled pool never changes again. */
  lemma {:induction false} RunSettlesOnce(l: Ledger, calls: seq<Call>)
    requires SettledOnce(l) && ValidRun(l, calls)
    ensures SettledOnce(Run(l, calls))
    ensures Run(l, calls).pools.Keys == l.pools.Keys
    ensures forall id :: id in l.pools && l.pools[id].status != Registrado ==> Run(l, calls).pools[id] == l.pools[id]
    decreases |calls|
  {
    if calls != [] {
      var c := calls[0];
      CallEffect(l, c);
      RunSettlesOnce(Apply(l, c), calls[1..]);
    }
  }

  /** One call: with a supported modality the listed pools are settled as they stood; nothing else changes. */
  lemma CallEffect(l: Ledger, c: Call)
    requires SettledOnce(l) && Lists(c.rows, l.pools, c.contest)
    ensures SettledOnce(Apply(l, c)) && Apply(l, c).pools.Keys == l.pools.Keys
    ensures forall id :: id in l.pools && l.pools[id].status != Registrado ==> Apply(l, c).pools[id] == l.pools[id]
    ensures SupportsAutoSettlement(c.modality) ==> forall id :: id in c.rows ==> Apply(l, c).pools[id] == SettledPool(l.pools[id], c.official)
    ensures forall id :: id in l.pools && id !in c.rows ==> Apply(l, c).pools[id] == l.pools[id]
    ensures !SupportsAutoSettlement(c.modality) ==> Apply(l, c) == l
  {
    if SupportsAutoSettlement(c.modality) { RowsEffect(l, c.rows, c.official); }
  }

  /** Calling again with the same contest finds nothing left to settle. */
  lemma SecondCallIsIdle(l: Ledger, c: Call, again: Call)
    requires SettledOnce(l) && Lists(c.rows, l.pools, c.contest) && SupportsAutoSettlement(c.modality)
    requires again.contest == c.contest && Lists(again.rows, Apply(l, c).pools, again.contest)
    ensures again.rows == [] && Apply(Apply(l, c), again) == Apply(l, c)
  {
    RowsEffect(l, c.rows, c.official);
    forall id ensures !Pending(Apply(l, c).pools, c.contest, id) {
      assert id in l.pools ==> (id in c.rows <==> Pending(l.pools, c.contest, id));
    }
    if again.rows != [] { SomeMember(again.rows); }
  }
}
