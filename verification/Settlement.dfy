/**
  Checking a pool's games against an official result (packages/shared-types/src/settlement.ts).
  Tier descriptions arrive already parsed: `parsed` is None for a tier that does not depend on hits alone.
  Prize values are whole cents.
 */
module Settlement {
  import opened Sorting
  import opened Wrappers

  datatype Hits = Hits(count: int, secondDraw: bool)
  datatype Tier = Tier(description: string, parsed: Option<Hits>, winners: int, prizeCents: int)
  datatype Game = Game(order: int, numbers: seq<int>)
  datatype Draw = First | Second
  datatype Prize = Prize(tier: string, draw: Draw, hits: int, cents: int)
  datatype GameResult = GameResult(order: int, numbers: seq<int>, hits: int, secondHits: Option<int>, prizes: seq<Prize>, total: int)
  datatype Outcome = Outcome(games: seq<GameResult>, prizeTotal: int, won: bool, bestTier: Option<string>)
  datatype Official = Official(drawn: seq<int>, secondDraw: seq<int>, tiers: seq<Tier>)

  /** Super Sete and +Milionária are checked by hand. */
  const AUTO_SETTLEMENT_MODALITIES: seq<string> :=
    ["megasena", "lotofacil", "quina", "lotomania", "duplasena", "timemania", "diadesorte"]

  predicate SupportsAutoSettlement(modality: string) {
    modality in AUTO_SETTLEMENT_MODALITIES
  }

  /** The seven modalities in which hits decide. */
  lemma SupportedModalities(modality: string)
    ensures SupportsAutoSettlement(modality) <==>
      modality == "megasena" || modality == "lotofacil" || modality == "quina" || modality == "lotomania"
      || modality == "duplasena" || modality == "timemania" || modality == "diadesorte"
    ensures !SupportsAutoSettlement("supersete") && !SupportsAutoSettlement("maismilionaria")
  {
  }

  lemma OneMoreSeen(seen: set<int>, lookup: set<int>, value: int)
    ensures |(seen + {value}) * lookup| == |seen * lookup| + if value in lookup && value !in seen then 1 else 0
    ensures value in seen ==> seen + {value} == seen
  {
    if value in seen {
      assert seen + {value} == seen;
    } else if value in lookup {
      assert (seen + {value}) * lookup == seen * lookup + {value};
    } else {
      assert (seen + {value}) * lookup == seen * lookup;
    }
  }

  /** Repeated numbers count once. */
  method CountHits(numbers: seq<int>, drawn: seq<int>) returns (hits: nat)
    ensures hits == |Members(numbers) * Members(drawn)|
  {
    var lookup := Members(drawn);
    var seen: set<int> := {};
    hits := 0;
    for i := 0 to |numbers|
      invariant seen == Members(numbers[..i])
      invariant hits == |seen * lookup|
    {
      var value := numbers[i];
      assert numbers[..i + 1] == numbers[..i] + [value];
      OneMoreSeen(seen, lookup, value);
      if value !in seen {
        if value in lookup { hits := hits + 1; }
        seen := seen + {value};
      }
    }
    assert numbers[..|numbers|] == numbers;
  }

  function HitCount(numbers: seq<int>, drawn: seq<int>): nat {
    |Members(numbers) * Members(drawn)|
  }

  /** Hits are the numbers in both lists, each counted once. */
  lemma HitsAreCommon(numbers: seq<int>, drawn: seq<int>)
    ensures HitCount(numbers, drawn) == |set v | v in numbers && v in drawn|
  {
    assert Members(numbers) * Members(drawn) == set v | v in numbers && v in drawn;
  }

  predicate CanPay(t: Tier) {
    t.parsed.Some? && t.winners > 0 && t.prizeCents > 0
  }

  function Winnable(tiers: seq<Tier>): seq<Tier> {
    if tiers == [] then []
    else if CanPay(tiers[0]) then [tiers[0]] + Winnable(tiers[1..])
    else Winnable(tiers[1..])
  }

  lemma {:induction false} WinnableCanPay(tiers: seq<Tier>)
    ensures forall t :: t in Winnable(tiers) <==> t in tiers && CanPay(t)
  {
    if tiers != [] {
      WinnableCanPay(tiers[1..]);
      assert tiers == [tiers[0]] + tiers[1..];
    }
  }

  predicate SecondTiersExist(winnable: seq<Tier>) {
    exists t :: t in winnable && CanPay(t) && t.parsed.value.secondDraw
  }

  /** Does tier `t` pay a game with these hits in this draw? Without tiers of the second draw, both draws share the table. */
  predicate Pays(t: Tier, hits: int, draw: Draw, separate: bool) {
    CanPay(t) && t.parsed.value.count == hits && (separate ==> (draw == Second) == t.parsed.value.secondDraw)
  }

  /** With separate tables each draw has its own tiers; otherwise a tier of either kind pays both draws. */
  lemma PaysMeans(t: Tier, hits: int)
    ensures Pays(t, hits, First, true) <==> t.winners > 0 && t.prizeCents > 0 && t.parsed == Some(Hits(hits, false))
    ensures Pays(t, hits, Second, true) <==> t.winners > 0 && t.prizeCents > 0 && t.parsed == Some(Hits(hits, true))
    ensures Pays(t, hits, First, false) <==> t.winners > 0 && t.prizeCents > 0 && (t.parsed == Some(Hits(hits, false)) || t.parsed == Some(Hits(hits, true)))
    ensures Pays(t, hits, Second, false) <==> Pays(t, hits, First, false)
  {
  }

  /** The prize of one draw: the first paying tier of the table. */
  function DrawPrize(winnable: seq<Tier>, hits: int, draw: Draw, separate: bool): (r: seq<Prize>)
    ensures |r| <= 1 && forall p :: p in r ==> p.draw == draw && p.hits == hits && p.cents > 0
  {
    if winnable == [] then []
    else if Pays(winnable[0], hits, draw, separate) then [Prize(winnable[0].description, draw, hits, winnable[0].prizeCents)]
    else DrawPrize(winnable[1..], hits, draw, separate)
  }

  /** Tier `k` pays and no earlier one does. */
  ghost predicate FirstPaying(k: int, winnable: seq<Tier>, hits: int, draw: Draw, separate: bool) {
    && 0 <= k < |winnable| && Pays(winnable[k], hits, draw, separate)
    && forall j :: 0 <= j < k ==> !Pays(winnable[j], hits, draw, separate)
  }

  ghost predicate FromTable(p: Prize, winnable: seq<Tier>, draw: Draw, separate: bool) {
    exists k :: FirstPaying(k, winnable, p.hits, draw, separate) && p.cents == winnable[k].prizeCents && p.tier == winnable[k].description
  }

  /** Nothing is won only when no tier pays; otherwise the earliest paying tier sets the prize. */
  lemma {:induction false} DrawPrizeIsFirst(winnable: seq<Tier>, hits: int, draw: Draw, separate: bool)
    ensures var r := DrawPrize(winnable, hits, draw, separate);
      && (r == [] <==> forall k :: 0 <= k < |winnable| ==> !Pays(winnable[k], hits, draw, separate))
      && (r != [] ==> FromTable(r[0], winnable, draw, separate))
  {
    if winnable == [] {
    } else if Pays(winnable[0], hits, draw, separate) {
      assert FirstPaying(0, winnable, hits, draw, separate);
    } else {
      var rest := winnable[1..];
      DrawPrizeIsFirst(rest, hits, draw, separate);
      var r := DrawPrize(rest, hits, draw, separate);
      if r == [] {
        forall k | 0 <= k < |winnable| ensures !Pays(winnable[k], hits, draw, separate) {
          if k > 0 { assert rest[k - 1] == winnable[k]; }
        }
      } else {
        var k :| FirstPaying(k, rest, hits, draw, separate) && r[0].cents == rest[k].prizeCents && r[0].tier == rest[k].description;
        FirstPayingLater(k, winnable, hits, draw, separate);
      }
    }
  }

  lemma FirstPayingLater(k: int, winnable: seq<Tier>, hits: int, draw: Draw, separate: bool)
    requires winnable != [] && !Pays(winnable[0], hits, draw, separate)
    requires FirstPaying(k, winnable[1..], hits, draw, separate)
    ensures FirstPaying(k + 1, winnable, hits, draw, separate)
  {
    forall j | 0 <= j < k + 1 ensures !Pays(winnable[j], hits, draw, separate) {
      if j > 0 { assert winnable[1..][j - 1] == winnable[j]; }
    }
  }

  /** What a game wins in one draw. */
  function OneDraw(numbers: seq<int>, drawn: seq<int>, official: Official, draw: Draw): seq<Prize> {
    DrawPrize(Winnable(official.tiers), HitCount(numbers, drawn), draw, SecondTiersExist(Winnable(official.tiers)))
  }

  /** Everything a game wins. */
  function Prizes(numbers: seq<int>, official: Official): seq<Prize> {
    OneDraw(numbers, official.drawn, official, First)
    + if official.secondDraw == [] then [] else OneDraw(numbers, official.secondDraw, official, Second)
  }

  function Cents(p: Prize): int { p.cents }

  function GameTotal(official: Official): Game -> int {
    (g: Game) => SumBy(Cents, Prizes(g.numbers, official))
  }

  /** The prize of a list of games. */
  function PrizeTotal(games: seq<Game>, official: Official): int {
    SumBy(GameTotal(official), games)
  }

  function PrizesOf(official: Official): Game -> seq<Prize> {
    (g: Game) => Prizes(g.numbers, official)
  }

  function AllPrizes(games: seq<Game>, official: Official): seq<Prize> {
    FlatMap(PrizesOf(official), games)
  }

  /** The best prize so far: one of the prizes, more hits than every earlier one, no fewer than any later one. */
  ghost predicate IsBest(best: Option<Prize>, prizes: seq<Prize>) {
    && (best.None? <==> prizes == [])
    && (best.Some? ==> exists k :: BestAt(k, best.value, prizes))
  }

  ghost predicate BestAt(k: int, best: Prize, prizes: seq<Prize>) {
    && 0 <= k < |prizes| && prizes[k] == best
    && (forall j :: 0 <= j < k ==> prizes[j].hits < best.hits)
    && (forall j :: k < j < |prizes| ==> prizes[j].hits <= best.hits)
  }

  /** The label is that of a best prize. */
  ghost predicate BestTier(tier: Option<string>, prizes: seq<Prize>) {
    exists best :: IsBest(best, prizes) && tier == TierOf(best)
  }

  function TierOf(best: Option<Prize>): Option<string> {
    if best.Some? then Some(best.value.tier) else None
  }

  /** The label is that of the first prize with the most hits; without prizes there is none. */
  lemma BestTierMeans(tier: Option<string>, prizes: seq<Prize>)
    requires BestTier(tier, prizes)
    ensures prizes == [] ==> tier == None
    ensures prizes != [] ==> exists k ::
      && 0 <= k < |prizes| && tier == Some(prizes[k].tier)
      && (forall j :: 0 <= j < k ==> prizes[j].hits < prizes[k].hits)
      && (forall j :: k < j < |prizes| ==> prizes[j].hits <= prizes[k].hits)
  {
    var best :| IsBest(best, prizes) && tier == TierOf(best);
    if best.Some? {
      var k :| BestAt(k, best.value, prizes);
    }
  }

  lemma BestExtends(best: Option<Prize>, prizes: seq<Prize>, p: Prize)
    requires IsBest(best, prizes)
    ensures IsBest(if best.None? || p.hits > best.value.hits then Some(p) else best, prizes + [p])
  {
    var all := prizes + [p];
    if best.None? {
      assert BestAt(0, p, all);
    } else {
      var k :| BestAt(k, best.value, prizes);
      if p.hits > best.value.hits {
        forall j | 0 <= j < |prizes| ensures all[j].hits < p.hits {
          assert all[j] == prizes[j];
        }
        assert BestAt(|prizes|, p, all);
      } else {
        assert BestAt(k, best.value, all);
      }
    }
  }

  method Better(best0: Option<Prize>, found: seq<Prize>, ghost earlier: seq<Prize>) returns (best: Option<Prize>)
    requires IsBest(best0, earlier)
    ensures IsBest(best, earlier + found)
  {
    best := best0;
    assert earlier + found[..0] == earlier;
    for i := 0 to |found|
      invariant IsBest(best, earlier + found[..i])
    {
      BestExtends(best, earlier + found[..i], found[i]);
      assert earlier + found[..i] + [found[i]] == earlier + found[..i + 1];
      if best.None? || found[i].hits > best.value.hits { best := Some(found[i]); }
    }
    assert found[..|found|] == found;
  }

  /** What the result of a game must say. */
  function ResultOf(official: Official): Game -> GameResult {
    (g: Game) => GameResult(
      g.order, g.numbers,
      HitCount(g.numbers, official.drawn),
      if official.secondDraw == [] then None else Some(HitCount(g.numbers, official.secondDraw)),
      Prizes(g.numbers, official),
      SumBy(Cents, Prizes(g.numbers, official)))
  }

  /** The row of a game: its hits in each draw that took place, and its prizes with their sum. */
  lemma ResultMeans(game: Game, official: Official)
    ensures var r := ResultOf(official)(game);
      && r.order == game.order && r.numbers == game.numbers
      && r.hits == |set v | v in game.numbers && v in official.drawn|
      && (official.secondDraw == [] ==> r.secondHits == None)
      && (official.secondDraw != [] ==> r.secondHits == Some(|set v | v in game.numbers && v in official.secondDraw|))
      && r.prizes == Prizes(game.numbers, official) && r.total == SumBy(Cents, r.prizes)
  {
    HitsAreCommon(game.numbers, official.drawn);
    HitsAreCommon(game.numbers, official.secondDraw);
  }

  /** One game: claim the first draw, then the second when there was one. */
  method SettleGame(game: Game, official: Official, winnable: seq<Tier>, separate: bool) returns (r: GameResult)
    requires winnable == Winnable(official.tiers)
    requires separate == SecondTiersExist(winnable)
    ensures r == ResultOf(official)(game)
  {
    var hits := CountHits(game.numbers, official.drawn);
    var secondHits: Option<int> := None;
    var prizes := DrawPrize(winnable, hits, First, separate);
    if official.secondDraw != [] {
      var second := CountHits(game.numbers, official.secondDraw);
      secondHits := Some(second);
      prizes := prizes + DrawPrize(winnable, second, Second, separate);
    }
    assert DrawPrize(winnable, hits, First, separate) + [] == DrawPrize(winnable, hits, First, separate);
    assert prizes == Prizes(game.numbers, official);
    r := GameResult(game.order, game.numbers, hits, secondHits, prizes, SumBy(Cents, prizes));
  }

  /** Running totals over the games. */
  method SettleGames(games: seq<Game>, official: Official) returns (r: Outcome)
    ensures r.games == MapSeq(ResultOf(official), games)
    ensures r.prizeTotal == PrizeTotal(games, official)
    ensures r.won <==> AllPrizes(games, official) != []
    ensures BestTier(r.bestTier, AllPrizes(games, official))
  {
    var winnable := Winnable(official.tiers);
    var separate := SecondTiersExist(winnable);
    var totalCents := 0;
    var best: Option<Prize> := None;
    var results: seq<GameResult> := [];
    ghost var prizes: seq<Prize> := [];
    for i := 0 to |games|
      invariant results == MapSeq(ResultOf(official), games[..i])
      invariant totalCents == PrizeTotal(games[..i], official)
      invariant prizes == AllPrizes(games[..i], official)
      invariant IsBest(best, prizes)
    {
      var one := SettleGame(games[i], official, winnable, separate);
      MapSeqNext(ResultOf(official), games, i);
      FlatMapNext(PrizesOf(official), games, i);
      SumByNext(GameTotal(official), games, i);
      best := Better(best, one.prizes, prizes);
      prizes := prizes + one.prizes;
      results := results + [one];
      totalCents := totalCents + one.total;
    }
    assert games[..|games|] == games;
    PositiveTotal(games, official);
    r := Outcome(results, totalCents, totalCents > 0, TierOf(best));
  }

  // ----- what the totals mean -----

  lemma {:induction false} SumOfAllPrizes(games: seq<Game>, official: Official)
    ensures PrizeTotal(games, official) == SumBy(Cents, AllPrizes(games, official))
  {
    if games != [] {
      SumOfAllPrizes(games[1..], official);
      SumByConcat(Cents, Prizes(games[0].numbers, official), AllPrizes(games[1..], official));
    }
  }

  /** What one game wins, in cents: the prize of the first draw and that of the second. */
  lemma GameTotalIsSum(game: Game, official: Official)
    ensures var ps := Prizes(game.numbers, official);
      && |ps| <= 2
      && PrizeTotal([game], official) == (if |ps| >= 1 then ps[0].cents else 0) + (if |ps| == 2 then ps[1].cents else 0)
  {
    var ps := Prizes(game.numbers, official);
    assert [game][1..] == [] && SumBy(GameTotal(official), []) == 0;
    assert GameTotal(official)(game) == SumBy(Cents, ps);
    SumOfTwo(ps);
  }

  lemma SumOfTwo(ps: seq<Prize>)
    ensures |ps| <= 2 ==> SumBy(Cents, ps) == (if |ps| >= 1 then ps[0].cents else 0) + (if |ps| == 2 then ps[1].cents else 0)
  {
    if |ps| == 2 { assert ps[1..] == [ps[1]] && ps[1..][1..] == []; }
  }

  /** Something is won exactly when some game wins something. */
  lemma {:induction false} SomeGameWins(games: seq<Game>, official: Official)
    ensures AllPrizes(games, official) != [] <==> exists g :: g in games && Prizes(g.numbers, official) != []
  {
    hide Prizes;
    if games != [] {
      SomeGameWins(games[1..], official);
      assert games == [games[0]] + games[1..];
      assert AllPrizes(games, official) == Prizes(games[0].numbers, official) + AllPrizes(games[1..], official);
    }
  }

  /** A tier of the second draw that can pay gives each draw a table of its own. */
  lemma SeparateTables(tiers: seq<Tier>)
    ensures SecondTiersExist(tiers) <==>
      exists k :: 0 <= k < |tiers| && tiers[k].winners > 0 && tiers[k].prizeCents > 0 && tiers[k].parsed.Some? && tiers[k].parsed.value.secondDraw
  {
    forall t | t in tiers && CanPay(t) && t.parsed.value.secondDraw
      ensures exists k :: 0 <= k < |tiers| && tiers[k].winners > 0 && tiers[k].prizeCents > 0 && tiers[k].parsed.Some? && tiers[k].parsed.value.secondDraw
    {
      var k :| 0 <= k < |tiers| && tiers[k] == t;
      assert tiers[k].winners > 0;
    }
    if k :| 0 <= k < |tiers| && tiers[k].winners > 0 && tiers[k].prizeCents > 0 && tiers[k].parsed.Some? && tiers[k].parsed.value.secondDraw {
      assert tiers[k] in tiers && CanPay(tiers[k]);
    }
  }

  lemma {:induction false} PositiveSum(prizes: seq<Prize>)
    requires forall p :: p in prizes ==> p.cents > 0
    ensures SumBy(Cents, prizes) >= 0
    ensures SumBy(Cents, prizes) > 0 <==> prizes != []
  {
    if prizes != [] {
      assert prizes[0] in prizes && forall p :: p in prizes[1..] ==> p in prizes;
      PositiveSum(prizes[1..]);
    }
  }

  lemma {:induction false} AllPositive(games: seq<Game>, official: Official)
    ensures forall p :: p in AllPrizes(games, official) ==> p.cents > 0
  {
    if games != [] { AllPositive(games[1..], official); }
  }

  lemma PositiveTotal(games: seq<Game>, official: Official)
    ensures PrizeTotal(games, official) >= 0
    ensures PrizeTotal(games, official) > 0 <==> AllPrizes(games, official) != []
  {
    SumOfAllPrizes(games, official);
    AllPositive(games, official);
    PositiveSum(AllPrizes(games, official));
  }

  /** The prize is additive over concatenated game lists. */
  lemma TotalIsAdditive(a: seq<Game>, b: seq<Game>, official: Official)
    ensures PrizeTotal(a + b, official) == PrizeTotal(a, official) + PrizeTotal(b, official)
  {
    SumByConcat(GameTotal(official), a, b);
  }

  /** The prize does not depend on the order of the games. */
  lemma TotalIgnoresOrder(a: seq<Game>, b: seq<Game>, official: Official)
    requires multiset(a) == multiset(b)
    ensures PrizeTotal(a, official) == PrizeTotal(b, official)
  {
    SumByPermutation(GameTotal(official), a, b);
  }

  /** Filtering the table first changes neither the tier found nor whether the second draw has tiers of its own. */
  lemma {:induction false} FilterChangesNothing(tiers: seq<Tier>, hits: int, draw: Draw, separate: bool)
    ensures DrawPrize(Winnable(tiers), hits, draw, separate) == DrawPrize(tiers, hits, draw, separate)
    ensures SecondTiersExist(Winnable(tiers)) == SecondTiersExist(tiers)
  {
    WinnableCanPay(tiers);
    if tiers != [] {
      FilterChangesNothing(tiers[1..], hits, draw, separate);
      if CanPay(tiers[0]) { assert ([tiers[0]] + Winnable(tiers[1..]))[1..] == Winnable(tiers[1..]); }
    }
  }

  /** The prize comes from the first tier of the published table that pays that many hits in that draw. */
  ghost predicate Earned(p: Prize, numbers: seq<int>, official: Official) {
    && p.hits == HitCount(numbers, if p.draw == First then official.drawn else official.secondDraw)
    && FromTable(p, official.tiers, p.draw, SecondTiersExist(official.tiers))
  }

  /** A draw wins nothing. */
  ghost predicate NothingWon(numbers: seq<int>, drawn: seq<int>, official: Official, draw: Draw) {
    forall k :: 0 <= k < |official.tiers| ==> !Pays(official.tiers[k], HitCount(numbers, drawn), draw, SecondTiersExist(official.tiers))
  }

  /**
    A game wins at most once per draw, first draw first; every prize is earned from the published table, and a draw is
    missing from the list only when it did not take place or no tier pays its hits.
   */
  lemma GameWinsAtMostOncePerDraw(numbers: seq<int>, official: Official)
    ensures |Prizes(numbers, official)| <= 2
    ensures forall i, j :: 0 <= i < j < |Prizes(numbers, official)| ==> Prizes(numbers, official)[i].draw == First && Prizes(numbers, official)[j].draw == Second
    ensures forall p :: p in Prizes(numbers, official) ==> Earned(p, numbers, official)
    ensures (forall p :: p in Prizes(numbers, official) ==> p.draw != First) ==> NothingWon(numbers, official.drawn, official, First)
    ensures (forall p :: p in Prizes(numbers, official) ==> p.draw != Second) ==>
      official.secondDraw == [] || NothingWon(numbers, official.secondDraw, official, Second)
  {
    hide HitCount, FromTable, NothingWon, SecondTiersExist, DrawPrize, Winnable;
    OneDrawFacts(numbers, official.drawn, official, First);
    OneDrawFacts(numbers, official.secondDraw, official, Second);
    var first := OneDraw(numbers, official.drawn, official, First);
    var second := if official.secondDraw == [] then [] else OneDraw(numbers, official.secondDraw, official, Second);
    assert Prizes(numbers, official) == first + second;
    hide Prizes, OneDraw;
    assert first != [] ==> first[0] in first + second;
    assert second != [] ==> second[0] in first + second;
  }

  lemma OneDrawFacts(numbers: seq<int>, drawn: seq<int>, official: Official, draw: Draw)
    ensures var r := OneDraw(numbers, drawn, official, draw);
      && |r| <= 1 && (r == [] <==> NothingWon(numbers, drawn, official, draw))
      && (r != [] ==> r[0].draw == draw && r[0].hits == HitCount(numbers, drawn) && FromTable(r[0], official.tiers, draw, SecondTiersExist(official.tiers)))
  {
    var separate := SecondTiersExist(official.tiers);
    FilterChangesNothing(official.tiers, HitCount(numbers, drawn), draw, separate);
    DrawPrizeIsFirst(official.tiers, HitCount(numbers, drawn), draw, separate);
    hide HitCount, FromTable, SecondTiersExist, Pays;
  }

  /** Without a result table for the second draw, a game that hits the same in both draws wins the same twice. */
  lemma SharedTablePaysBothDraws(numbers: seq<int>, official: Official)
    requires official.secondDraw != []
    requires forall t :: t in official.tiers && CanPay(t) ==> !t.parsed.value.secondDraw
    requires HitCount(numbers, official.drawn) == HitCount(numbers, official.secondDraw)
    ensures SumBy(Cents, Prizes(numbers, official)) == 2 * SumBy(Cents, Prizes(numbers, official.(secondDraw := [])))
  {
    WinnableCanPay(official.tiers);
    var winnable := Winnable(official.tiers);
    var hits := HitCount(numbers, official.drawn);
    SameTable(winnable, hits);
    SumByConcat(Cents, DrawPrize(winnable, hits, First, false), DrawPrize(winnable, hits, Second, false));
    assert DrawPrize(winnable, hits, First, false) + [] == DrawPrize(winnable, hits, First, false);
  }

  lemma {:induction false} SameTable(winnable: seq<Tier>, hits: int)
    ensures SumBy(Cents, DrawPrize(winnable, hits, First, false)) == SumBy(Cents, DrawPrize(winnable, hits, Second, false))
  {
    if winnable != [] { SameTable(winnable[1..], hits); }
  }
}
