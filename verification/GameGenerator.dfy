/**
  Suggested games (packages/shared-types/src/lottery-stats.ts). The random source is an oracle that gives every
  number a key at every call, and the statistical filter is an arbitrary predicate: the guarantees hold for all of them.
 */
module GameGenerator {
  import opened Sets
  import opened Sorting
  import opened DrawPatterns
  import opened Wrappers

  datatype Rule = Rule(min: int, max: int, betMin: int, betMax: int)
  datatype Suggestion = Suggestion(numbers: seq<int>, relaxed: bool)

  predicate ValidRule(r: Rule) {
    r.min <= r.max && 1 <= r.betMin <= r.betMax <= r.max - r.min + 1
  }

  /** The rules of the seven modalities. */
  const RULES := [
    Rule(1, 60, 6, 20), Rule(1, 25, 15, 20), Rule(1, 80, 5, 15), Rule(0, 99, 50, 50),
    Rule(1, 50, 6, 15), Rule(1, 80, 10, 10), Rule(1, 31, 7, 15)
  ]

  lemma RulesAreValid()
    ensures forall r :: r in RULES ==> ValidRule(r)
  {
  }

  function Clamp(x: int, low: int, high: int): int {
    var y := if x < low then low else x;
    if y > high then high else y
  }

  /** The nearest number of a range. */
  lemma ClampIsNearest(x: int, low: int, high: int)
    requires low <= high
    ensures low <= Clamp(x, low, high) <= high
    ensures low <= x <= high ==> Clamp(x, low, high) == x
    ensures x < low ==> Clamp(x, low, high) == low
    ensures x > high ==> Clamp(x, low, high) == high
  {
  }

  /** `[...new Set(s)]`: first occurrences, in order. */
  function Dedup(s: seq<int>): (r: seq<int>)
    ensures Members(r) == Members(s)
    ensures Distinct(r)
  {
    if s == [] then []
    else
      var front, last := s[..|s| - 1], s[|s| - 1];
      assert s == front + [last];
      var r := Dedup(front);
      assert last in front <==> last in Members(front);
      assert last in r <==> last in Members(r);
      assert Members(s) == Members(front) + {last};
      assert Members(r + [last]) == Members(r) + {last};
      if last in front then r else r + [last]
  }

  function FirstAt(s: seq<int>, v: int): (k: nat)
    requires v in s
    ensures k < |s| && s[k] == v && forall j :: 0 <= j < k ==> s[j] != v
  {
    if s[0] == v then 0 else 1 + FirstAt(s[1..], v)
  }

  lemma {:induction false} DedupInOrder(s: seq<int>, i: nat, j: nat)
    requires i < j < |Dedup(s)|
    ensures Dedup(s)[i] in s && Dedup(s)[j] in s && FirstAt(s, Dedup(s)[i]) < FirstAt(s, Dedup(s)[j])
  {
    var front, last := s[..|s| - 1], s[|s| - 1];
    assert s == front + [last];
    assert Dedup(s)[i] in Members(s) && Dedup(s)[j] in Members(s);
    if j < |Dedup(front)| {
      DedupInOrder(front, i, j);
    } else {
      assert Dedup(s)[i] in Members(front) && last !in front;
    }
  }

  function Kept(r: Rule, exclude: seq<int>, fixed: seq<int>): seq<int> {
    if fixed == [] then []
    else (if r.min <= fixed[0] <= r.max && fixed[0] !in exclude then [fixed[0]] else []) + Kept(r, exclude, fixed[1..])
  }

  lemma {:induction false} KeptMembers(r: Rule, exclude: seq<int>, fixed: seq<int>)
    ensures forall v :: v in Kept(r, exclude, fixed) <==> v in fixed && r.min <= v <= r.max && v !in exclude
  {
    if fixed != [] {
      KeptMembers(r, exclude, fixed[1..]);
      assert fixed == [fixed[0]] + fixed[1..];
    }
  }

  /** Numbers that may be played at all. */
  ghost function Available(r: Rule, exclude: seq<int>): set<int> {
    set v | r.min <= v <= r.max && v !in exclude
  }

  lemma {:induction false} DistinctSize(s: seq<int>)
    requires Distinct(s)
    ensures |Members(s)| == |s|
  {
    if s == [] {
      assert Members(s) == {};
    } else {
      var front, last := s[..|s| - 1], s[|s| - 1];
      assert s == front + [last];
      DistinctSize(front);
      assert Members(s) == Members(front) + {last};
      assert last !in front;
    }
  }

  method Pool(r: Rule, exclude: seq<int>, fixed: seq<int>) returns (pool: seq<int>)
    requires Distinct(fixed) && Members(fixed) <= Available(r, exclude)
    ensures Distinct(pool) && Members(pool) == Available(r, exclude) - Members(fixed)
    ensures |fixed| + |pool| == |Available(r, exclude)|
  {
    pool := [];
    var v := r.min;
    while v <= r.max
      invariant Distinct(pool)
      invariant forall x :: x in pool <==> r.min <= x < v && x in Available(r, exclude) && x !in fixed
      invariant v <= r.max + 1 || pool == []
    {
      if v !in exclude && v !in fixed { pool := pool + [v]; }
      v := v + 1;
    }
    forall x ensures x in Members(pool) <==> x in Available(r, exclude) - Members(fixed) {
      assert x in Members(fixed) <==> x in fixed;
    }
    DistinctSize(pool);
    DistinctSize(fixed);
    assert Available(r, exclude) == Members(fixed) + Members(pool);
  }

  function HigherKey(keys: int -> real): (int, int) -> bool {
    (a: int, b: int) => keys(a) >= keys(b)
  }

  /** The `count` numbers of the pool with the largest random keys. */
  method WeightedSample(pool: seq<int>, keys: int -> real, count: nat) returns (sample: seq<int>)
    requires Distinct(pool)
    ensures Distinct(sample) && Members(sample) <= Members(pool)
    ensures |sample| == if count < |pool| then count else |pool|
    ensures forall x, y :: x in sample && y in pool && y !in sample ==> keys(x) >= keys(y)
  {
    var sorted := Sort(HigherKey(keys), pool);
    SortSorted(HigherKey(keys), pool);
    DistinctPermutation(pool, sorted);
    SameMembers(pool, sorted);
    var n := if count < |sorted| then count else |sorted|;
    sample := sorted[..n];
    forall x, y | x in sample && y in pool && y !in sample ensures keys(x) >= keys(y) {
      assert y in sorted;
      var i :| 0 <= i < n && sorted[i] == x;
      var j :| 0 <= j < |sorted| && sorted[j] == y;
      assert forall k :: 0 <= k < n ==> sorted[k] == sample[k];
      assert HigherKey(keys)(sorted[i], sorted[j]);
    }
  }

  /** What every game must satisfy. */
  ghost predicate GoodGame(game: seq<int>, r: Rule, exclude: seq<int>, fixed: seq<int>, size: int) {
    && StrictlyIncreasing(game)
    && Members(game) <= Available(r, exclude)
    && Members(fixed) <= Members(game)
    && |game| == if size < |Available(r, exclude)| then size else |Available(r, exclude)|
  }

  /** One attempt: the fixed numbers and a sample of the rest, in increasing order. */
  method Pick(r: Rule, exclude: seq<int>, fixed: seq<int>, pool: seq<int>, size: int, keys: int -> real) returns (game: seq<int>)
    requires Distinct(fixed) && Members(fixed) <= Available(r, exclude) && |fixed| <= size
    requires Distinct(pool) && Members(pool) == Available(r, exclude) - Members(fixed)
    requires |fixed| + |pool| == |Available(r, exclude)|
    ensures GoodGame(game, r, exclude, fixed, size)
  {
    var sample := WeightedSample(pool, keys, size - |fixed|);
    var all := fixed + sample;
    forall i, j | 0 <= i < j < |all| ensures all[i] != all[j] {
      if i < |fixed| <= j {
        assert all[i] in Members(fixed) && sample[j - |fixed|] in Members(sample);
      }
    }
    game := Sort(AtMost, all);
    AscendingFacts(all);
    forall v ensures v in Members(all) <==> v in Members(fixed) || v in Members(sample) {
      assert v in all <==> v in fixed || v in sample;
    }
  }

  /** The numbers the generator keeps fixed: valid ones, without repetition, at most `size`. */
  function KeptFixed(r: Rule, exclude: seq<int>, fixed: seq<int>, size: nat): seq<int> {
    var kept := Dedup(Kept(r, exclude, fixed));
    if |kept| <= size then kept else kept[..size]
  }

  lemma KeptFixedFacts(r: Rule, exclude: seq<int>, fixed: seq<int>, size: nat)
    ensures Distinct(KeptFixed(r, exclude, fixed, size)) && |KeptFixed(r, exclude, fixed, size)| <= size
    ensures Members(KeptFixed(r, exclude, fixed, size)) <= Available(r, exclude)
    ensures |Dedup(Kept(r, exclude, fixed))| <= size ==>
      forall v :: v in fixed && v in Available(r, exclude) ==> v in Members(KeptFixed(r, exclude, fixed, size))
    ensures |Dedup(Kept(r, exclude, fixed))| > size ==> |KeptFixed(r, exclude, fixed, size)| == size
    ensures KeptFixed(r, exclude, fixed, size) <= Dedup(Kept(r, exclude, fixed))
  {
    var kept := Dedup(Kept(r, exclude, fixed));
    KeptMembers(r, exclude, fixed);
    forall v ensures v in kept <==> v in Kept(r, exclude, fixed) {
      assert v in kept <==> v in Members(kept);
      assert v in Kept(r, exclude, fixed) <==> v in Members(Kept(r, exclude, fixed));
    }
    var result := KeptFixed(r, exclude, fixed, size);
    forall v | v in Members(result) ensures v in Available(r, exclude) {
      assert v in result && v in kept;
    }
  }

  ghost predicate AllGood(games: seq<Suggestion>, r: Rule, exclude: seq<int>, fixed: seq<int>, size: int, check: seq<int> -> bool) {
    && (forall i :: 0 <= i < |games| ==> GoodGame(games[i].numbers, r, exclude, fixed, size))
    && (forall i, j :: 0 <= i < j < |games| ==> games[i].numbers != games[j].numbers)
    && (forall i :: 0 <= i < |games| && !games[i].relaxed ==> check(games[i].numbers))
  }

  const ATTEMPTS_PER_GAME: nat := 6000
  const RELAXED_TRIES: nat := 5000

  /**
    Whatever the random source and the filter: every game is good, games are pairwise different, those not marked
    as relaxed pass the filter, and both searches stay within their bounds. Only when both bounds are spent
    may there be fewer games than wanted. Relaxed games come last, and only from the second search.
   */
  method SuggestGames(r: Rule, wantedGames: Option<int>, wantedSize: Option<int>, fixedIn: seq<int>, exclude: seq<int>,
                      check: seq<int> -> bool, random: (nat, int) -> real)
    returns (games: seq<Suggestion>, size: nat, fixed: seq<int>, attempts: nat, relaxedTries: nat)
    requires ValidRule(r)
    ensures size == Clamp(if wantedSize.Some? then wantedSize.value else r.betMin, r.betMin, r.betMax)
    ensures fixed == KeptFixed(r, exclude, fixedIn, size)
    ensures AllGood(games, r, exclude, fixed, size, check)
    ensures var wanted := Clamp(if wantedGames.Some? then wantedGames.value else 3, 1, 20);
      && |games| <= wanted <= 20
      && attempts <= 6000 * wanted && relaxedTries <= 5000
      && (|games| < wanted ==> attempts == 6000 * wanted && relaxedTries == 5000)
      && (relaxedTries > 0 ==> attempts == 6000 * wanted)
    ensures forall i :: 0 <= i < |games| && games[i].relaxed ==> relaxedTries > 0
    ensures forall i, j :: 0 <= i < j < |games| && games[i].relaxed ==> games[j].relaxed
  {
    size := Clamp(if wantedSize.Some? then wantedSize.value else r.betMin, r.betMin, r.betMax);
    var wanted: nat := Clamp(if wantedGames.Some? then wantedGames.value else 3, 1, 20);
    fixed := KeptFixed(r, exclude, fixedIn, size);
    KeptFixedFacts(r, exclude, fixedIn, size);
    var pool := Pool(r, exclude, fixed);
    games := [];
    var seen: set<seq<int>> := {};
    var fallback: Option<seq<int>> := None;
    attempts := 0;
    while |games| < wanted && attempts < ATTEMPTS_PER_GAME * wanted
      invariant |games| <= wanted && attempts <= ATTEMPTS_PER_GAME * wanted
      invariant AllGood(games, r, exclude, fixed, size, check)
      invariant forall i :: 0 <= i < |games| ==> games[i].numbers in seen
      invariant seen != {} ==> fallback.Some?
      invariant attempts > 0 ==> fallback.Some?
      invariant forall i :: 0 <= i < |games| ==> !games[i].relaxed
    {
      attempts := attempts + 1;
      var picked := Pick(r, exclude, fixed, pool, size, (v: int) => random(attempts, v));
      if picked in seen { continue; }
      fallback := Some(picked);
      if !check(picked) { continue; }
      seen := seen + {picked};
      games := games + [Suggestion(picked, false)];
    }
    relaxedTries := 0;
    while |games| < wanted && fallback.Some? && relaxedTries < RELAXED_TRIES
      invariant |games| <= wanted && relaxedTries <= RELAXED_TRIES
      invariant AllGood(games, r, exclude, fixed, size, check)
      invariant forall i :: 0 <= i < |games| ==> games[i].numbers in seen
      invariant |games| < wanted || relaxedTries > 0 ==> attempts == ATTEMPTS_PER_GAME * wanted
      invariant |games| < wanted ==> fallback.Some?
      invariant forall i :: 0 <= i < |games| && games[i].relaxed ==> relaxedTries > 0
      invariant forall i, j :: 0 <= i < j < |games| && games[i].relaxed ==> games[j].relaxed
    {
      relaxedTries := relaxedTries + 1;
      var call := attempts + relaxedTries;
      var picked := Pick(r, exclude, fixed, pool, size, (v: int) => random(call, v));
      if picked in seen { continue; }
      seen := seen + {picked};
      games := games + [Suggestion(picked, true)];
    }
  }

  /** With at least `size` numbers left after the exclusions, a good game has exactly `size` numbers; otherwise it is shorter. */
  lemma GameSize(game: seq<int>, r: Rule, exclude: seq<int>, fixed: seq<int>, size: nat)
    requires GoodGame(game, r, exclude, fixed, size)
    ensures |game| == size <==> |Available(r, exclude)| >= size
    ensures |game| < size ==> Members(game) == Available(r, exclude)
  {
    if |Available(r, exclude)| <= size {
      assert Distinct(game);
      DistinctSize(game);
      SubsetOfSameSize(Members(game), Available(r, exclude));
    }
  }
}
