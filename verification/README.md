# Bolão: a verified model

This project models, in Dafny, the algorithms and state machines of a lottery-pool ("bolão") system: how a prize is
divided among shares, how a plan is priced, how dates and draw days are computed, what the statistics and the game
generator promise, and how the worker moves contests, results and pools through their life. Everything below is proved
for all inputs, all runs and all reachable states.

Amounts are whole cents, instants are milliseconds since the epoch, days are day numbers from 1 January 1970, and
Brazil is UTC-03:00, the offset the source itself writes out.

## How the files fit together

- `PrizeSplit`, `PrizeFairness`: division of a prize by largest remainder, and why it is exact, fair and optimal.
- `Settlement`, `PoolSettlement`: prizes of a pool's games, and the settlement of all pools of a contest.
- `Calendar`, `BrazilTime`, `Festivals`, `Schedule`: `Date.UTC` arithmetic (ECMA-262, section 21.4.1), Brazil days and
  cutoffs, Easter and the festival forecasts, the next scheduled draw day.
- `Combinatorics`, `DrawStats`, `DrawPatterns`, `GameGenerator`: odds as exact counts, one-pass statistics, pairs and
  runs, generated games.
- `QuotaSplit`, `PoolPricing`: inverting a rounded price, pricing a pool on the screen and on the server.
- `Contests`, `ContestStore`, `Upcoming`, `UpcomingStore`, `Lifecycle`: the contest tables, the steps that write them
  (on values and as methods of a store), and runs of any length.
- `SettledRuns`, `WaitingPools`: contests and pools as one system, over runs of any length, and which registered pools
  are left on contests that have a result.
- `SourceFailover`, `Backfill`: failover between result sources, completing the history.
- `ResetTokens`, `ResetLimits`: password tokens, and how far their hourly limit reaches.
- `Arithmetic`, `Sets`, `Sorting`, `Wrappers`: small facts and types they share.

Where the source updates state in place, a class or a method with loops does the same and is proved equal to a function
on values; the lemmas are about that function. Places where the database or the network answers (query results,
replies, random numbers, the clock) are parameters: the proofs hold for every answer.

## What the proofs found

- A prize is conserved by its division exactly when some quantity is positive (`PrizeFairness.SplitIsExact`,
  `PoolSettlement.SharesReceiveThePrize`).
- The guess that starts the search in `splitQuota` is already the answer whenever there is one; the window of two cents
  around it never decides anything (`QuotaSplit.SplittableExactly`).
- The two ways of typing a fixed fee give the same plan exactly when the registration costs something, the fee is zero
  or the total is too large (`PoolPricing.FixedFeeIsLeftover`).
- The count of a number equals the number of draws with it exactly when no draw repeats it
  (`DrawStats.CountIsDrawsContaining`).
- A contest that was closed stays closed when CAIXA moves its cutoff ahead (`Contests.RescheduledStaysClosed`), so
  statuses never go back, but a future cutoff does not mean open.
- Three tokens an hour holds for hours open at their start. An hour that includes both its ends can hold six and never
  more; it holds at most three, on every run and in whatever order the clock reads, if and only if each token is issued
  with fewer than three in the closed hour before it (`ResetLimits.ClosedHourCanHoldSix`, `ClosedHourHoldsAtMostSix`,
  `RunHoldsExactly`).
- A call with sources makes a real attempt if and only if health is not remembered, the first look finds every source
  resting, or the second look finds one awake (`SourceFailover.AttemptExactly`). A clock that does not go back is enough;
  with one that does, a call can skip every source.
- A contest with a result can keep a registered pool: completing the history settles contests but not their pools, and
  a run of three steps leaves one waiting (`WaitingPools.HistoryCanLeaveOneWaiting`). It leaves none if and only if no
  registered pool is on the contest it stores (`HistoryLeavesNoneWaiting`). Every step is characterised the same way
  from the tables before it (`WaitsExactly`), and a run ends with none waiting if and only if everyone who waits or comes
  to wait is settled, or leaves that status, later in it (`RunLeavesNoneWaiting`).
- A response that gives both draws the same number leaves one contest, with the date and cutoff of the next draw
  (`Contests.SyncEffect`).

## Model

| member | source | states |
|---|---|---|
| PrizeSplit.SplitPrize | packages/shared-types/src/settlement.ts:79-93 | the loops compute `Split`: floors first, then one cent each in order of largest fraction, ties by id |
| PrizeSplit.PassExhaustsRemainder | packages/shared-types/src/settlement.ts:89-91 | the remainder is at least 0 and below the number of shares, so one pass uses it up, and no cent goes to a share that was already whole |
| PrizeSplit.GoesIsOrder | packages/shared-types/src/settlement.ts:90-90 | the comparator (fraction down, id up by character code) is a total order, so sorting is well defined |
| PrizeSplit.LexLeMeans | packages/shared-types/src/settlement.ts:90-90 | ids are compared by the first character where they differ, a prefix coming first |
| PrizeSplit.WeightIsAtLeastZero | packages/shared-types/src/settlement.ts:81-85 | a quantity weighs what it is, a negative one nothing |
| PrizeFairness.SplitIsExact | packages/shared-types/src/settlement.ts:79-93 | the parts add up to the whole prize if and only if there is a positive quantity and a positive prize; otherwise to 0 |
| PrizeFairness.SplitKeys | packages/shared-types/src/settlement.ts:82-92 | every share, and nobody else, has an entry |
| PrizeFairness.FloorOrCeiling | packages/shared-types/src/settlement.ts:84-91 | each part is less than a cent from its exact share, equal to it when whole, and 0 for a quantity that is not positive |
| PrizeFairness.LargerNeverLess | packages/shared-types/src/settlement.ts:84-91 | a larger quantity never gets less; equal quantities differ by at most a cent |
| PrizeFairness.LargerFractionFirst | packages/shared-types/src/settlement.ts:90-91 | in exact arithmetic, a spare cent goes to the larger fraction first and, between equal fractions, to the smaller id |
| PrizeFairness.EqualQuantitiesById | packages/shared-types/src/settlement.ts:84-91 | between equal quantities the smaller id gets the same or one cent more |
| PrizeFairness.OrderIndependent | packages/shared-types/src/settlement.ts:84-91 | with distinct ids, any rearrangement of the shares gives the same division |
| PrizeFairness.SplitIsOptimal | packages/shared-types/src/settlement.ts:84-91 | no other integer allocation of the same total has a smaller sum of squared distances to the exact shares |
| Settlement.CountHits | packages/shared-types/src/settlement.ts:32-37 | hits are the size of the intersection, repeated numbers counting once |
| Settlement.HitsAreCommon | packages/shared-types/src/settlement.ts:32-37 | the hits that settlement uses are the numbers in both lists, each once |
| Settlement.SupportedModalities | packages/shared-types/src/settlement.ts:14-16 | exactly seven modalities are settled automatically |
| Settlement.PaysMeans | packages/shared-types/src/settlement.ts:56-64 | which tier pays which hits in which draw: with separate tables each draw has its own tiers, otherwise one table serves both |
| Settlement.SeparateTables | packages/shared-types/src/settlement.ts:44-47 | the tables are separate exactly when some tier of the second draw has winners and a value |
| Settlement.DrawPrizeIsFirst | packages/shared-types/src/settlement.ts:56-64 | a draw pays nothing only if no tier of the table pays; otherwise the earliest tier that pays sets the prize |
| Settlement.GameWinsAtMostOncePerDraw | packages/shared-types/src/settlement.ts:43-66 | at most one prize per draw, first draw first, each from the first tier of the published table that pays its hits; a draw is missing only when it did not happen or no tier pays |
| Settlement.SharedTablePaysBothDraws | packages/shared-types/src/settlement.ts:63-64 | without tiers of the second draw, a game with the same hits in both draws wins the same twice |
| Settlement.SettleGames | packages/shared-types/src/settlement.ts:42-73 | every game's result, the total, whether anything was won, and the tier of a prize with the most hits (the earliest such) |
| Settlement.ResultMeans | packages/shared-types/src/settlement.ts:50-69 | the row of a game: hits of each draw that took place, prizes and their sum |
| Settlement.BestTierMeans | packages/shared-types/src/settlement.ts:68-72 | the best tier is that of the first prize with the most hits, and there is none without prizes |
| Settlement.GameTotalIsSum | packages/shared-types/src/settlement.ts:66-67 | a game wins the values of at most two prizes, added |
| Settlement.SumOfAllPrizes | packages/shared-types/src/settlement.ts:66-68 | the prize of a pool is the sum of all the prizes of its games |
| Settlement.PositiveTotal | packages/shared-types/src/settlement.ts:67-72 | the total is positive exactly when some game won some prize |
| Settlement.TotalIsAdditive | packages/shared-types/src/settlement.ts:67-67 | the prize of two lists of games together is the sum of their prizes |
| Settlement.TotalIgnoresOrder | packages/shared-types/src/settlement.ts:67-67 | the prize does not depend on the order of the games |
| PoolSettlement.SettlePool | apps/worker/src/settle.ts:19-38 | one pool: status, totals, every registered share and its audit rows, in the order written |
| PoolSettlement.PoolPrize | apps/worker/src/settle.ts:19-20 | the prize of a pool is that of all its typed games, or of its own numbers when none was typed, and it won if any of them did |
| PoolSettlement.AuditTrail | apps/worker/src/settle.ts:27-38 | one audit entry for each registered share, in order and with what it was written, then the pool's own |
| PoolSettlement.SharesReceiveThePrize | apps/worker/src/settle.ts:20-31 | the values written to the shares add up to the pool's prize if and only if it is 0 or some registered quantity is positive |
| PoolSettlement.EachShareItsProportion | apps/worker/src/settle.ts:22-30 | in a winning pool each registered share is written its own proportion, less than a cent away |
| PoolSettlement.OnlyRegisteredSharesChange | apps/worker/src/settle.ts:21-31 | other shares keep every field; registered ones become premiada with a value if the pool won, and apurada without one if not |
| PoolSettlement.Store.ApurarConcurso | apps/worker/src/settle.ts:11-41 | settles exactly the registered pools of the contest, one by one; unsupported modalities are left alone |
| PoolSettlement.CallEffect | apps/worker/src/settle.ts:11-41 | a call settles the listed pools as they stood and touches no other, and none at all of a modality checked by hand |
| PoolSettlement.RunSettlesOnce | apps/worker/src/settle.ts:12-39 | over any sequence of calls each pool is settled at most once, and what is settled never changes again |
| PoolSettlement.SecondCallIsIdle | apps/worker/src/settle.ts:12-12 | calling again for the same contest finds nothing and changes nothing |
| Calendar.DayNumberOrder | packages/shared-types/src/index.ts:163-165 | day numbers preserve and reflect the order of dates |
| Calendar.MonthLengths | packages/shared-types/src/index.ts:162-166 | the length of every month |
| Calendar.CivilInverse | packages/shared-types/src/index.ts:163-165 | writing a real date as a day number and reading it back changes nothing |
| Calendar.ValidCalendarDateExact | packages/shared-types/src/index.ts:162-166 | normalise-and-compare accepts exactly the dates that month lengths and the leap-year rule allow, from 1970 to 9999 |
| BrazilTime.LocalRoundTrip | packages/shared-types/src/index.ts:172-178 | a local date is accepted exactly when it and its clock time are real, and its instant falls on that Brazil day |
| BrazilTime.ParsedDayRoundTrip | packages/shared-types/src/index.ts:207-226 | reading a day and taking its Brazil day gives the same date back |
| BrazilTime.ParsingPreservesOrder | packages/shared-types/src/index.ts:172-178 | instants are ordered as date and then time of day |
| BrazilTime.OffsetShift | packages/shared-types/src/index.ts:180-205 | an ISO instant with offset -03:00 is the local date; other offsets, up to 23:59, shift it by their difference |
| BrazilTime.IsoDayIsItsStart | packages/shared-types/src/index.ts:217-218 | a date without a time is the first instant of its Brazil day |
| BrazilTime.ClockReadsBack | packages/shared-types/src/index.ts:168-174 | hour, minute, second and millisecond can be read back from the milliseconds of a clock |
| BrazilTime.EveryMillisecondHasItsClock | packages/shared-types/src/index.ts:168-174 | every millisecond of a day is that of a valid clock |
| BrazilTime.ClockOrder | packages/shared-types/src/index.ts:172-178 | clocks are ordered component by component |
| BrazilTime.CutoffIsOnDrawDay | packages/shared-types/src/index.ts:228-239 | a cutoff exists exactly for a valid hour and a year from 1970 to 9999, lies on the draw's own Brazil day, at that hour |
| BrazilTime.CutoffDependsOnDayOnly | packages/shared-types/src/index.ts:228-239 | two draws of the same Brazil day have the same cutoff, and the cutoff of a cutoff is itself |
| BrazilTime.ProvisionalNumberIsPerDay | packages/shared-types/src/festas.ts:81-88 | provisional numbers are negative and equal exactly for the same Brazil day |
| Festivals.MoonIsCorrectedH | packages/shared-types/src/festas.ts:42-45 | March 21 plus the corrected h is the paschal full moon of the epact rules (Knuth, TAOCP section 1.3.2, exercise 14) |
| Festivals.WeekCorrection | packages/shared-types/src/festas.ts:46-46 | m is 1 exactly when l is 6 and h is 29, or 28 with a >= 11 |
| Festivals.EasterIsFirstSundayAfterMoon | packages/shared-types/src/festas.ts:41-48 | the computus lands on a Sunday from 22 March to 25 April, the first strictly after the paschal full moon |
| Festivals.SaturdayNearIsNearest | packages/shared-types/src/festas.ts:50-54 | the nearest Saturday on or after, or on or before, the given day |
| Festivals.ForecastStaysInYear | packages/shared-types/src/festas.ts:56-64 | every listed festival has a real forecast date inside the year asked for |
| Festivals.ForecastDates | packages/shared-types/src/festas.ts:56-77 | the forecast draws are at 20:00: New Year's Eve on 31 December, São João on the only Saturday from 24 to 30 June, Independência on the only Saturday from 1 to 7 September |
| Festivals.PascoaIsHolySaturday | packages/shared-types/src/festas.ts:61-61 | the Easter draw is on the day before the first Sunday strictly after the paschal full moon |
| Festivals.DrawInstantIsLocal | packages/shared-types/src/festas.ts:67-67 | a draw's instant is that of its date and time in Brazil |
| Festivals.NextForecast | packages/shared-types/src/festas.ts:72-77 | scanning this year and the two after it gives the forecast of the first year, of all, whose forecast is ahead |
| Festivals.ProximoSorteioFesta | packages/shared-types/src/festas.ts:69-78 | a known draw ahead wins, the earliest of them; else the first forecast ahead; none only for an unlisted festival |
| Combinatorics.HitWaysCountsDraws | packages/shared-types/src/lottery-stats.ts:67-76 | the numerator of the hit probability counts exactly the draws, as sets, that hit the bet that many times |
| Combinatorics.ProbabilityIsProportion | packages/shared-types/src/lottery-stats.ts:72-76 | the hit probability is the proportion of all possible draws that hit the bet that many times |
| Combinatorics.ChooseFactorial | packages/shared-types/src/lottery-stats.ts:57-70 | the recursive choose is n! / (k! (n-k)!), the quantity that the source takes from log-factorials |
| Combinatorics.WaysSumToAllDraws | packages/shared-types/src/lottery-stats.ts:73-76 | over all hit counts the ways add up to all draws (Vandermonde) |
| Combinatorics.ProbabilitiesSumToOne | packages/shared-types/src/lottery-stats.ts:72-76 | for every universe, draw size and bet the hit probabilities are between 0 and 1 and add up to exactly 1 |
| Combinatorics.ProbabilityIsSymmetric | packages/shared-types/src/lottery-stats.ts:72-76 | marking k and drawing d has the odds of marking d and drawing k |
| Combinatorics.OddInUniverse | packages/shared-types/src/lottery-stats.ts:195-197 | the loop counts the odd numbers of the universe |
| Combinatorics.TheoreticalParity | packages/shared-types/src/lottery-stats.ts:194-201 | the loop builds the hypergeometric distribution of odd numbers; it is a probability distribution, and all zeros for a game larger than the universe |
| DrawStats.SeeDraw | packages/shared-types/src/lottery-stats.ts:227-236 | one draw adds its occurrences, closes the gap of each number it has and remembers its index |
| DrawStats.GapCloses | packages/shared-types/src/lottery-stats.ts:231-232 | updating the gap at an appearance keeps it the longest absence so far |
| DrawStats.ComputeStats | packages/shared-types/src/lottery-stats.ts:212-270 | per number, over the draws from the oldest on: occurrences in all and in the recent draws, trailing absence, last contest if any, and longest block of draws without it |
| DrawStats.ChronologicalIsOldestFirst | packages/shared-types/src/lottery-stats.ts:178-213 | the history is read oldest contest first, and is exactly the draws that have numbers |
| DrawStats.SameContestInOrder | packages/shared-types/src/lottery-stats.ts:178-180 | draws of the same contest keep the order in which they came |
| DrawStats.RecentFrom | packages/shared-types/src/lottery-stats.ts:217-217 | the recent draws are the last `window`, at least five of them, or all when there are fewer |
| DrawStats.CountIsDrawsContaining | packages/shared-types/src/lottery-stats.ts:228-230 | the count is the number of draws with the number exactly when no draw repeats it, and larger otherwise |
| DrawStats.NeverDrawn | packages/shared-types/src/lottery-stats.ts:247-252 | the longest absence is at least the current one and spans the whole history exactly for a number never drawn |
| DrawStats.HistoryOrderIrrelevant | packages/shared-types/src/lottery-stats.ts:178-213 | with one draw per contest, the history may arrive in any order |
| DrawPatterns.ConsecutiveInfo | packages/shared-types/src/lottery-stats.ts:415-424 | for any game: how many numbers have their successor, and the longest stretch of the sorted game that goes up by one each |
| DrawPatterns.LongestStreakIsRun | packages/shared-types/src/lottery-stats.ts:415-424 | without repetition that stretch is the longest run of successive numbers in the game |
| DrawPatterns.KeyDecodes | packages/shared-types/src/lottery-stats.ts:345-347 | dividing a pair's key gives the pair back, so pairs do not share keys |
| DrawPatterns.PairCounts | packages/shared-types/src/lottery-stats.ts:305-308 | for any history the table counts, under every key, the pairs of positions of the sorted draws that have it |
| DrawPatterns.PairTableCountsDraws | packages/shared-types/src/lottery-stats.ts:305-308 | for draws of distinct numbers of the universe that is, for every two numbers, exactly the draws that have both |
| GameGenerator.WeightedSample | packages/shared-types/src/lottery-stats.ts:557-564 | distinct members of the pool, as many as asked or all, and none left out has a larger key |
| GameGenerator.SuggestGames | packages/shared-types/src/lottery-stats.ts:566-658 | whatever the random source: good, pairwise different games, the unrelaxed ones passing the filter and coming first, relaxed ones only from the second loop, both loops within bounds, fewer games only when both are spent |
| GameGenerator.GameSize | packages/shared-types/src/lottery-stats.ts:574-576 | a game has exactly `size` numbers if and only if that many are left after the exclusions |
| GameGenerator.ClampIsNearest | packages/shared-types/src/lottery-stats.ts:567-568 | sizes and counts outside their range become the nearest bound |
| GameGenerator.KeptFixedFacts | packages/shared-types/src/lottery-stats.ts:573-574 | fixed numbers are kept without repetition, never an excluded one, all of them when they fit and otherwise the first ones |
| GameGenerator.DedupInOrder | packages/shared-types/src/lottery-stats.ts:574-574 | repetitions are dropped keeping first appearances in order |
| GameGenerator.RulesAreValid | packages/shared-types/src/lottery-stats.ts:32-40 | the rules of the seven modalities meet what the generator asks of a rule |
| QuotaSplit.SplitQuota | apps/web/lib/home.ts:22-32 | finds the ticket of a quota exactly when there is one, and it is the only one |
| QuotaSplit.FeeIsNearest | apps/web/lib/home.ts:29-29 | the fee is the nearest cent to the percentage of the ticket, half a cent going up |
| QuotaSplit.QuotaGrows | apps/api/src/pricing/pricing.engine.ts:41-51 | ticket plus rounded fee is strictly increasing in the ticket |
| QuotaSplit.GuessIsTheTicket | apps/web/lib/home.ts:26-28 | dividing the quota back and rounding gives the ticket it was built from |
| QuotaSplit.SplittableExactly | apps/web/lib/home.ts:26-32 | a quota has a ticket if and only if its rounded guess prices back to it, so the window is always enough |
| QuotaSplit.SomeQuotasHaveNoTicket | apps/web/lib/home.ts:28-31 | one cent at 100% has no ticket, so null is a real answer |
| PoolPricing.PlanConservesCents | apps/web/lib/pool-pricing.ts:52-105 | in every mode an accepted plan has total = cost + fees + surplus, quota = ticket + fee, nothing negative, within the cap |
| PoolPricing.TypedQuotaOffers | apps/web/lib/pool-pricing.ts:75-88 | a typed quota goes on exactly when it is positive and its fee can be read, as a percentage from 0 to 100 or an amount |
| PoolPricing.CheckExactly | apps/web/lib/pool-pricing.ts:91-97 | after that a plan is accepted exactly when nothing of the list fails, and the first that fails is the reason |
| PoolPricing.BasisPointsAreNearest | apps/web/lib/pool-pricing.ts:100-100 | the percentage shown is that of the fee in the quota, to the nearest basis point, halves going up |
| PoolPricing.RegistroSurplusBelowShares | apps/web/lib/pool-pricing.ts:62-80 | a quota built from the registration leaves less than one cent per share |
| PoolPricing.PercentGivesLeastQuota | apps/web/lib/pool-pricing.ts:66-72 | in exact arithmetic, a percent fee gives the least quota, among all, whose fee reaches the percentage |
| PoolPricing.RegistroRejectsOnlyTooLarge | apps/web/lib/pool-pricing.ts:62-96 | with valid input, in 'registro' mode, only the cap on the total rejects; with invalid input nothing is accepted |
| PoolPricing.FixedFeeIsLeftover | apps/web/lib/pool-pricing.ts:73-85 | a fee f on the registration and a quota of registration + f with the leftover as fee agree if and only if the cost is positive, f is 0 or the total is too large |
| PoolPricing.ServerAcceptsEveryPlan | apps/api/src/pricing/pricing.engine.ts:71-82 | the server, given a plan's quota and fee, accepts it and computes the same cents |
| PoolPricing.ServerAcceptsExactly | apps/api/src/pricing/pricing.engine.ts:57-82 | what the server accepts: safe numbers, a fee within the quota, tickets that together cover the cost, a total within the cap |
| PoolPricing.ScreenAndServerAgree | apps/api/src/pricing/pricing.engine.ts:71-82 | in every mode, once a quota and a fee are formed, the screen accepts them exactly when the server does |
| PoolPricing.FeesAreNearest | apps/web/lib/pool-pricing.ts:80-88 | percent fees of a typed quota and total fees are charged to the nearest cent, fees per share as typed |
| PoolPricing.LeftoverIsLargestFee | apps/api/src/pricing/pricing.engine.ts:56-82 | the leftover fee is the largest the server accepts for that quota, and its split by quota is the same |
| Schedule.NextScheduledDay | packages/shared-types/src/upcoming.ts:32-41 | the earliest later day on an allowed weekday, at most 7 days ahead, none only when no weekday is allowed |
| Schedule.WeekdayIsOfTheDate | packages/shared-types/src/upcoming.ts:27-29 | noon at -03:00 has, in UTC, the weekday of the Brazil date |
| Contests.CloseExpiredEffect | apps/worker/src/main.ts:44-51 | right after closing no contest past its cutoff is open, and every other contest is as it was |
| Contests.HandOverAll | packages/shared-types/src/festas.ts:119-129 | handing over any number of candidates: they are removed, exactly their pools move, the official contest takes the last one's name, date and cutoff and the first festival there is, and every result that stays keeps its numbers |
| Contests.AdoptionEffect | packages/shared-types/src/festas.ts:114-131 | no contest of that modality and day is left provisional, the candidates' pools all point at the one official contest, every other contest, pool and result is as it was, and a second call finds no candidate |
| Contests.CandidatesExactly | packages/shared-types/src/festas.ts:116-117 | the candidates are exactly the provisional contests of the modality on the same calendar day in Brazil |
| Contests.SyncKeeps | apps/worker/src/main.ts:74-132 | a cycle's transaction keeps every table invariant, moves no status back and loses no pool |
| Contests.AcceptedCutoffs | apps/worker/src/main.ts:61-69 | a response that is stored has both cutoffs on the Brazil day of their own draw, at the configured hour |
| Contests.SyncEffect | apps/worker/src/main.ts:74-132 | what a stored response leaves: the drawn contest settled with exactly those numbers, dates and cutoffs of both contests, a new next contest open only before its cutoff; with equal numbers, one row with the next draw's date and cutoff |
| Contests.PayloadEffect | apps/worker/src/main.ts:61-132 | from the payload to the tables: what cannot be stored changes nothing; otherwise the drawn contest has the payload's number, date and result, the next contest the next number and date, each with the cutoff of its own draw |
| Contests.SyncLeavesOthers | apps/worker/src/main.ts:74-132 | a stored response touches no other contest and no other result |
| Contests.RescheduledStaysClosed | apps/worker/src/main.ts:123-130 | updating the next contest changes its cutoff and never its status |
| ContestStore.Store.CloseExpiredContests | apps/worker/src/main.ts:44-51 | the loop over the rows is the closing step |
| ContestStore.Store.AdoptProvisionalContests | packages/shared-types/src/festas.ts:114-131 | the loop over the candidates is the adoption step; it returns how many there were |
| ContestStore.Store.SyncModality | apps/worker/src/main.ts:56-132 | one modality of a cycle is the synchronising step, and stores nothing unless the whole response can be stored |
| Upcoming.EnsureOneKeeps | packages/shared-types/src/upcoming.ts:79-101 | one modality: rows are only added, open, projected and with the cutoff ahead |
| Upcoming.CreationIsTheNextDraw | packages/shared-types/src/upcoming.ts:84-97 | a created contest has the next number, the first allowed draw day after the latest contest, within 7 days, and that draw's cutoff |
| Upcoming.CreatedRow | packages/shared-types/src/upcoming.ts:90-99 | the inserted row: open, projected, with the decision's number, draw and cutoff, drawn at 20:00 in Brazil |
| Upcoming.OpenRowsExactly | packages/shared-types/src/upcoming.ts:82-83 | the open contest looked for is of the modality, outside festivals, with its cutoff ahead |
| Upcoming.LatestExactly | packages/shared-types/src/upcoming.ts:84-85 | the latest contest has the largest official number of the modality outside festivals |
| Upcoming.DrawDaysExactly | packages/shared-types/src/upcoming.ts:54-69 | configured days first, then weekdays seen three times, then the standard ones |
| Upcoming.SeenExactly | packages/shared-types/src/upcoming.ts:57-65 | a weekday is seen in official contests of the last seventy days that were not projected |
| Upcoming.StandardDays | packages/shared-types/src/upcoming.ts:12-21 | the standard days of each modality |
| Upcoming.CreatesExactlyWhenPossible | packages/shared-types/src/upcoming.ts:79-101 | a contest is created if and only if none is open and there are a latest contest, a draw day after it, a cutoff still ahead and a free number |
| Upcoming.EnsureAllKeeps | packages/shared-types/src/upcoming.ts:77-105 | a whole run never changes or removes an existing contest, result or pool |
| Upcoming.OnePerModality | packages/shared-types/src/upcoming.ts:79-101 | at most one contest per modality, even if the configuration lists one twice |
| Upcoming.SecondRunIsIdle | packages/shared-types/src/upcoming.ts:77-105 | a second run at the same instant creates nothing and changes nothing |
| UpcomingStore.CountWeekdays | packages/shared-types/src/upcoming.ts:61-70 | the map counts the recent real draws per weekday |
| UpcomingStore.ResolveDays | packages/shared-types/src/upcoming.ts:58-75 | configured days, else weekdays seen at least three times, else the standard ones |
| UpcomingStore.EnsureUpcomingContests | packages/shared-types/src/upcoming.ts:77-105 | the loop over the modalities is the projecting step, an invalid cutoff hour aborting the rest |
| Lifecycle.HistoryKeeps | apps/worker/src/history.ts:61-73 | storing a past draw settles its contest together with a result row |
| Lifecycle.HistoryEffect | apps/worker/src/history.ts:61-73 | a past draw settles the contest with its number, which keeps its date, or adds a settled one; with its result |
| Lifecycle.ManualEffect | apps/api/src/lotteries/lotteries.service.ts:268-281 | a manual contest is added open, and refused when its draw is past, its cutoff invalid or its number taken |
| Lifecycle.FestivalKeeps | apps/api/src/lotteries/lotteries.service.ts:291-330 | creating a festival contest, numbered or provisional, keeps the tables right |
| Lifecycle.NumberedFestivalEffect | apps/api/src/lotteries/lotteries.service.ts:306-330 | a festival with its official number is marked on the contest that has it, unless that is a festival already, or else added |
| Lifecycle.ProvisionalFestivalEffect | apps/api/src/lotteries/lotteries.service.ts:306-330 | without a number it is added under minus YYYYMMDD of its day, unless that is taken or a numbered festival is on that day |
| Lifecycle.NumberedKeeps | apps/api/src/lotteries/lotteries.service.ts:332-355 | giving a festival its official number, by taking it or by merging, keeps the tables right |
| Lifecycle.NumberedEffect | apps/api/src/lotteries/lotteries.service.ts:333-355 | a provisional festival takes a free number, or is merged with its day's candidates into the contest that has it; nothing else changes |
| Lifecycle.RemovedEffect | apps/api/src/lotteries/lotteries.service.ts:258-265 | only a festival without pools is removed, with its result |
| Lifecycle.StepKeeps | apps/worker/src/main.ts:53-160 | every step of the system keeps the invariant and undoes nothing |
| Lifecycle.RunKeeps | apps/worker/src/main.ts:53-160 | on every run: statuses only advance, (modality, number) is unique, every settled contest has a result, every pool points at an existing contest and none is lost |
| Lifecycle.NeverReopens | apps/worker/src/main.ts:44-51 | from the empty system on, a contest that was ever closed is never open again |
| Lifecycle.CycleEndsWithNothingExpired | apps/worker/src/main.ts:150-160 | after the close, projection and history of a cycle, nothing that had expired by that close is open |
| SettledRuns.ContestStepKept | apps/worker/src/main.ts:74-132 | no contest step moves a pool away from a contest with a result, or removes that result |
| SettledRuns.RunKeeps | apps/worker/src/settle.ts:11-41 | on every run of contests and pools together each pool is settled at most once, a settled pool points at a contest with a result, and is never lost, moved or given another prize |
| SettledRuns.RunFromEmpty | apps/worker/src/settle.ts:11-41 | so from the empty system on |
| WaitingPools.SettlementsRun | apps/worker/src/settle.ts:12-39 | settling the listed pools of a contest one by one is a run, and equals one settlement call |
| WaitingPools.SyncSettlesTheContest | apps/worker/src/main.ts:134-137 | after a drawn response is stored and its contest settled, no registered pool is left on that contest if its modality is settled automatically; each was settled against the numbers that are now its result |
| WaitingPools.SyncLands | apps/worker/src/main.ts:74-132 | a stored response leaves each pool under the number of the draw that adopts its contest, or where it was; that number has a result exactly if it had one before or was drawn |
| WaitingPools.LandsExactly | apps/worker/src/main.ts:53-160 | told from the tables before it, whether a contest step leaves a pool on a contest with a result |
| WaitingPools.WaitsExactly | apps/worker/src/settle.ts:12-12 | the registered pools on contests with a result after any step: those before it that it did not settle or change, and those whose contest it gave a result, that it moved onto one, or that were opened or registered there |
| WaitingPools.HistorySettlesNoPool | apps/worker/src/history.ts:61-73 | completing the history leaves every pool as it was |
| WaitingPools.HistoryLeavesNoneWaiting | apps/worker/src/history.ts:61-73 | with no pool waiting before, storing a past draw leaves none if and only if no registered pool is on that contest |
| WaitingPools.HistoryCanLeaveOneWaiting | apps/worker/src/history.ts:61-73 | three steps from the empty system that leave a registered pool on a contest with a result |
| WaitingPools.RunLeavesNoneWaiting | apps/worker/src/main.ts:53-160 | a run ends with no registered pool on a contest with a result if and only if each that is there at the start, or comes to be, is settled or leaves the status later |
| SourceFailover.TriesFacts | packages/shared-types/src/caixa-client.ts:197-209 | one source costs between 1 and retries + 1 attempts, and succeeds exactly if it answers within its tries |
| SourceFailover.FetchCaixaContest | packages/shared-types/src/caixa-client.ts:185-214 | the nested loops, with or without a health object that they update, compute `Fetch` |
| SourceFailover.CaixaSourceHealth.MarkSourceDown | packages/shared-types/src/caixa-client.ts:92-98 | a failed source rests until now plus the cooldown; other sources keep their state |
| SourceFailover.UnmarkedIsAwake | packages/shared-types/src/caixa-client.ts:95-97 | a source never marked down, or marked up again, does not rest |
| SourceFailover.AttemptsBounded | packages/shared-types/src/caixa-client.ts:185-214 | at most sources * (retries + 1) real attempts |
| SourceFailover.AtLeastOneAttempt | packages/shared-types/src/caixa-client.ts:188-194 | with a clock that does not go back and some source, at least one real attempt |
| SourceFailover.AttemptExactly | packages/shared-types/src/caixa-client.ts:188-208 | whatever the clock does, a call makes a real attempt if and only if health is not tracked, the first look finds all resting, or the second look finds some source awake |
| SourceFailover.SteppingClockCanSkipAll | packages/shared-types/src/caixa-client.ts:188-194 | a concrete call that makes no attempt because the clock stepped back between two readings |
| SourceFailover.AnswerIsTheFirst | packages/shared-types/src/caixa-client.ts:191-213 | a success is the first source, in order, that was not skipped and answers within its tries; every one tried before it failed and, unless it has the base that answered, is left resting |
| SourceFailover.OnlyRestingSourcesAreSkipped | packages/shared-types/src/caixa-client.ts:188-194 | a skipped source was, by what was remembered before the call, resting at a reading of the clock made during it, unless it repeats the base of an earlier one |
| SourceFailover.SkippedOnlyIfSomeAwake | packages/shared-types/src/caixa-client.ts:188-194 | a source is skipped only when health is tracked and some source was awake in the first look at them |
| Backfill.ParsedDrawIsGood | packages/shared-types/src/lottery-stats.ts:682-700 | only a draw of the contest asked for, with exactly `draw` distinct numbers in range and in increasing order, is accepted |
| Backfill.ParsedExactly | packages/shared-types/src/lottery-stats.ts:678-700 | exactly which replies are accepted, and that what is kept is the listed numbers, or else those in drawing order, sorted |
| Backfill.MissingFacts | apps/worker/src/history.ts:45-50 | the list has exactly the contests of the window without a result, newest first |
| Backfill.WindowSize | apps/worker/src/history.ts:43-43 | the window is the last `depth` contests, or all from the first when there are fewer |
| Backfill.WorksExactly | apps/worker/src/history.ts:55-75 | a contest is stored exactly when its reply is accepted and its transaction goes through |
| Backfill.BackfillHistory | apps/worker/src/history.ts:36-85 | the loop over the first `batch` missing contests below the newest result computes `Cycle`: what it stores, how many it fetches and how many it asks for |
| Backfill.CycleStopsAtThirdFailure | apps/worker/src/history.ts:53-84 | a cycle visits the whole batch, or stops exactly at the first third failure in a row |
| Backfill.CycleEffect | apps/worker/src/history.ts:53-84 | existing rows stay as they are, new ones are good draws of the batch, and the missing set shrinks by exactly `fetched` |
| Backfill.WindowStays | apps/worker/src/history.ts:42-45 | a cycle changes neither the newest result nor, with it, the window |
| Backfill.CompleteAfterCeil | apps/worker/src/history.ts:36-85 | if fetches succeed, the window is complete after ceil(missing / batch) cycles and not before |
| ResetTokens.WindowsAfterIssue | apps/api/src/account/account.service.ts:84-86 | issuing under the limit leaves at most three tokens in every hour open at its start, whoever issued them |
| ResetTokens.StepKeeps | apps/api/src/account/account.service.ts:80-160 | every request keeps: at most one unused token per user, the newest; three per hour; one change per token; one hour of life |
| ResetTokens.RunKeeps | apps/api/src/account/account.service.ts:80-160 | so does every run, with times in any order; versions never decrease and a used token stays used |
| ResetTokens.RunFromEmpty | apps/api/src/account/account.service.ts:80-160 | the guarantees hold on every run from accounts without tokens |
| ResetTokens.UsedIsForever | apps/api/src/account/account.service.ts:134-138 | a link that was used or replaced never works again |
| ResetTokens.WorkingTokenIsNewest | apps/api/src/account/account.service.ts:99-105 | a link that works is the last one issued to its user, the only unused one, and at most an hour old |
| ResetTokens.SensitiveChangesEndSessions | apps/api/src/admin/admin-users.service.ts:51-71 | whatever changes a password, an e-mail or an access raises the session version by exactly one |
| ResetTokens.NoLinkSurvives | apps/api/src/admin/admin-users.service.ts:51-71 | after any such change no earlier link of the user works |
| ResetTokens.IssuedExactly | apps/api/src/account/account.service.ts:80-86 | a link is issued exactly to an account with access, fewer than three of whose tokens are less than an hour old |
| ResetTokens.IssueWrites | apps/api/src/account/account.service.ts:99-107 | issuing spends the user's unused tokens and adds one for an hour; no account changes |
| ResetTokens.MailFailedWrites | apps/api/src/admin/admin-users.service.ts:143-149 | a mail that did not go spends its token and nothing else, so that its link never works |
| ResetTokens.NewLinkWorksOneHour | apps/api/src/account/account.service.ts:99-107 | a link just issued works for the whole hour, its end included, and no longer |
| ResetTokens.RedeemableExactly | apps/api/src/account/account.service.ts:131-134 | a link works exactly while it is unused, its account has access, and until one hour after it was issued |
| ResetTokens.ResetWrites | apps/api/src/account/account.service.ts:131-145 | redeeming a link writes the new password and version of its user, spends the user's links and records this one; a refused one changes nothing |
| ResetTokens.EditsWrite | apps/api/src/admin/admin-users.service.ts:39-76 | own password, recovered password, e-mail and access: exactly that field and the version are written, for that account alone, or nothing |
| ResetLimits.ClosedHourCanHoldSix | apps/api/src/account/account.service.ts:84-85 | three requests at one instant and three exactly an hour later all issue a token |
| ResetLimits.ClosedHourHoldsAtMostSix | apps/api/src/account/account.service.ts:84-85 | and no hour, both ends included, ever holds more than six |
| ResetLimits.IssuedHoldsExactly | apps/api/src/account/account.service.ts:84-86 | a token issued under the limit keeps every closed hour at three if and only if the closed hour before it holds fewer than three (the guard with >= for >) |
| ResetLimits.RunHoldsExactly | apps/api/src/account/account.service.ts:80-160 | over whole runs, whatever the clock does, every closed hour holds at most three if and only if each token was issued under that guard |
| ResetTokens.Accounts.ResetByToken | apps/api/src/account/account.service.ts:131-145 | succeeds exactly with a valid password and a link that works |
| ResetTokens.Accounts.ChangeOwnPassword | apps/api/src/account/account.service.ts:147-160 | succeeds exactly with the current password and a valid, different one; ends sessions and links |
| ResetTokens.Accounts.RequestResetByEmail | apps/api/src/account/account.service.ts:80-107 | issues a token exactly when the account exists, is active and has fewer than three in the last hour |
| ResetTokens.Accounts.AdminLink | apps/api/src/account/account.service.ts:110-129 | the administrator's link under the same limit |
| ResetTokens.Accounts.SendResetMail | apps/api/src/admin/admin-users.service.ts:125-142 | the support mail under the same limit, only when mail can be sent |
| ResetTokens.Accounts.MailDidNotGo | apps/api/src/admin/admin-users.service.ts:143-149 | a mail that failed spends its token and nothing else |
| ResetTokens.Accounts.EditUser | apps/api/src/admin/admin-users.service.ts:39-61 | a new e-mail, free of other accounts, ends sessions and links; the same e-mail does not |
| ResetTokens.Accounts.SetUserActive | apps/api/src/admin/admin-users.service.ts:62-76 | giving or removing access ends sessions and links; nobody removes their own |
| ResetTokens.Accounts.RecoverAdminPassword | apps/api/src/auth/admin-recovery.ts:5-20 | console recovery changes the password of an active administrator, ending sessions and links |

## Left out

- Floating point: prizes, quotas and fees are integer cents and basis points, percentages are reals; the log-space odds
  are exact counts. `erf`, `chiSquareSurvival`, averages and rounding for display are not part of this model.
- PrizeFairness.LargerFractionFirst: the source takes fractions from doubles, so equal fractions of different quantities
  can differ there: 100 cents among quantities 1, 1 and 4 (a, b, c) give a, b, c 17, 16, 67 cents in the source and 17,
  17, 66 in exact arithmetic. Equal quantities have equal doubles (`PrizeFairness.EqualQuantitiesById`).
- PoolPricing.PercentGivesLeastQuota: the source divides doubles, and a quotient just above a whole cent is rounded up:
  249 cents at 0.4% are charged 251, though 250 reaches 0.4%; so are 991 at 0.9% and 981 at 1.9%, 1001 instead of 1000.
- PoolPricing.FeesAreNearest: holds of doubles too, but a fee of exactly half a cent may go the other way: 1.14% of 2500
  cents is 28 in the source and 29 in exact arithmetic.
- Prize values of less than a cent: tiers arrive in whole cents.
- Text: tier descriptions, amounts, dates and CAIXA payloads arrive parsed; `parseTierHits`, `toCents`,
  `explainCaixaFailure` and `normalizeCaixaContestPayload` only branch on text.
- Time-zone databases: Brazil is UTC-03:00, as the source writes; days of past daylight saving time are not modelled.
- Festivals.ForecastStaysInYear: years are natural numbers of the calendar. The source agrees from 100 to 9999:
  `Date.UTC` reads the years 0 to 99 as 1900 to 1999, and a year of five digits makes a text that is not a date.
- Festivals.NextForecast: the same, for the years it scans.
- Festivals.ProximoSorteioFesta: the same, for instants whose year, or the two after it, lie outside 100 to 9999.
- Festivals.EasterIsFirstSundayAfterMoon: negative years, where the source's remainders are negative.
- PrizeSplit.SplitPrize: lists in which an id is repeated. Between equal ids and fractions the source's comparator
  answers 1 both ways, so the order, and who gets the cent, is up to the sort of the platform; ids are primary keys.
- Isolation and locks: each transaction is one atomic step, and the race of two processes is not modelled. A pool is
  settled as it stands at its own transaction; the source reads all pools of the contest when it lists them.
- Database order: rows are found by the query the source writes and may come in any order; row ids are never reused.
- Mail, push, alerts, notifications and tier labels on shares: only the rows and the audit trail that settlement writes.
- Prize estimates, accumulation flags, prices and names of contests: they move with a row and decide nothing.
- DrawStats.ComputeStats: leaves out the expected counts, z-scores, average intervals and the hot, cold and overdue flags
  of a number, and the parity, sums, groups, quantiles, repetitions and uniformity of the same pass.
- GameGenerator.SuggestGames: the strategy's weights, the filter and the random source are arbitrary parameters.
- Backfill.BackfillHistory: pauses and the log are left out; a failed fetch and a failed transaction count alike.
- SourceFailover.FetchCaixaContest: building URLs and pausing between tries are left out.
- ResetTokens.Accounts.EditUser: names, phone and birth date change no token and are left out, as is deleting an empty
  account; roles and permissions arrive as a yes or no.
- Lifecycle.StepKeeps: the API's own synchronising step, which keeps the hour of special contests, its own completion of
  the history and the throttled variant of `ensureUpcomingContests` are not steps of the system; deleting an unused pool
  is a step of `SettledRuns` only.
- Lifecycle.FestivalKeeps: the festival's name and hour checks are taken as already made; years before 0 are refused.
- SettledRuns.RunKeeps: a pool's sale, payment and registration are arbitrary changes of its details; what happens to
  the shares of a settled pool afterwards, such as paying out a prize, is not restricted. A settlement in a run may use
  any numbers; `WaitingPools.SyncSettlesTheContest` is about those just stored.
