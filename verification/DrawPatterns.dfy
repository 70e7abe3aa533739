/** Consecutive numbers and number pairs (packages/shared-types/src/lottery-stats.ts). */
module DrawPatterns {
  import opened Arithmetic
  import opened Sorting

  function Ascending(s: seq<int>): seq<int> {
    Sort(AtMost, s)
  }

  ghost predicate StrictlyIncreasing(s: seq<int>) {
    forall i, j :: 0 <= i < j < |s| ==> s[i] < s[j]
  }

  ghost predicate NonDecreasing(s: seq<int>) {
    forall i, j :: 0 <= i < j < |s| ==> s[i] <= s[j]
  }

  lemma AscendingFacts(s: seq<int>)
    ensures Members(Ascending(s)) == Members(s) && |Ascending(s)| == |s|
    ensures NonDecreasing(Ascending(s))
    ensures Distinct(s) ==> StrictlyIncreasing(Ascending(s))
  {
    SortSorted(AtMost, s);
    SameMembers(s, Ascending(s));
    var r := Ascending(s);
    forall i, j | 0 <= i < j < |r| ensures r[i] <= r[j] { assert AtMost(r[i], r[j]); }
    if Distinct(s) { DistinctPermutation(s, r); }
  }

  // ----- streaks of the sorted game -----

  /** An entry is one more than the entry before it. */
  predicate Up(s: seq<int>, k: int) {
    0 < k < |s| && s[k] == s[k - 1] + 1
  }

  /** From position i, `length` entries that go up by one each. */
  ghost predicate Streak(s: seq<int>, i: int, length: int) {
    0 <= i && 0 <= length && i + length <= |s| && forall k :: i < k < i + length ==> Up(s, k)
  }

  ghost predicate LongestStreak(s: seq<int>, length: int) {
    && (exists i :: Streak(s, i, length))
    && (forall i, l :: Streak(s, i, l) ==> l <= length)
  }

  /** The streak that ends the sequence has exactly this length. */
  ghost predicate EndsIn(s: seq<int>, length: int) {
    1 <= length <= |s| && Streak(s, |s| - length, length) && !Up(s, |s| - length)
  }

  lemma UpInPrefix(s: seq<int>, y: int, k: int)
    ensures k < |s| ==> (Up(s + [y], k) <==> Up(s, k))
  {
  }

  lemma StreakInPrefix(s: seq<int>, y: int, i: int, length: int)
    requires i + length <= |s|
    ensures Streak(s + [y], i, length) <==> Streak(s, i, length)
  {
    forall k ensures k < |s| ==> (Up(s + [y], k) <==> Up(s, k)) { UpInPrefix(s, y, k); }
  }

  lemma NextEnd(s: seq<int>, y: int, ending: int)
    requires EndsIn(s, ending)
    ensures EndsIn(s + [y], if y == s[|s| - 1] + 1 then ending + 1 else 1)
  {
    var t := s + [y];
    forall k ensures k < |s| ==> (Up(t, k) <==> Up(s, k)) { UpInPrefix(s, y, k); }
    assert Up(t, |s|) <==> y == s[|s| - 1] + 1;
  }

  lemma NextStreak(s: seq<int>, y: int, longest: int, ending: int)
    requires LongestStreak(s, longest) && EndsIn(s, ending)
    ensures var r := if y == s[|s| - 1] + 1 then ending + 1 else 1;
      EndsIn(s + [y], r) && LongestStreak(s + [y], if r > longest then r else longest)
  {
    var t, r := s + [y], if y == s[|s| - 1] + 1 then ending + 1 else 1;
    var m := if r > longest then r else longest;
    NextEnd(s, y, ending);
    assert Streak(t, |t| - r, r);
    var i0 :| Streak(s, i0, longest);
    StreakInPrefix(s, y, i0, longest);
    hide Up;
    forall i, l | Streak(t, i, l) ensures l <= m {
      if i + l <= |s| { StreakInPrefix(s, y, i, l); }
    }
  }

  lemma FirstStreak(x: int)
    ensures EndsIn([x], 1) && LongestStreak([x], 1)
  {
    assert Streak([x], 0, 1);
  }

  lemma NoStreak()
    ensures LongestStreak([], 0)
  {
    assert Streak([], 0, 0);
  }

  // ----- numbers with their successor -----

  predicate HasSuccessor(s: set<int>, x: int) { x + 1 in s }

  ghost function Neighbours(s: set<int>): set<int> {
    set x | x in s && HasSuccessor(s, x)
  }

  lemma NewNeighbour(s: set<int>, y: int)
    requires forall k :: k in s ==> k < y
    ensures |Neighbours(s + {y})| == |Neighbours(s)| + if y - 1 in s then 1 else 0
  {
    if y - 1 in s {
      assert Neighbours(s + {y}) == Neighbours(s) + {y - 1};
    } else {
      assert Neighbours(s + {y}) == Neighbours(s);
    }
  }

  /** The next entry adds a neighbour exactly when it is one more than the entry before it. */
  lemma NextNeighbour(sorted: seq<int>, i: nat)
    requires 1 <= i < |sorted| && NonDecreasing(sorted)
    ensures |Neighbours(Members(sorted[..i + 1]))|
         == |Neighbours(Members(sorted[..i]))| + if sorted[i] == sorted[i - 1] + 1 then 1 else 0
  {
    var s, y := Members(sorted[..i]), sorted[i];
    assert sorted[..i + 1] == sorted[..i] + [y];
    assert Members(sorted[..i + 1]) == s + {y};
    assert sorted[..i][i - 1] == sorted[i - 1];
    assert forall k :: k in s ==> k <= sorted[i - 1];
    if y == sorted[i - 1] {
      assert s + {y} == s;
    } else {
      NewNeighbour(s, y);
      assert y - 1 in s <==> y - 1 == sorted[i - 1];
    }
  }

  /** How many numbers have their successor, and the longest streak of the sorted game. */
  method ConsecutiveInfo(numbers: seq<int>) returns (pairs: nat, maxRun: nat)
    ensures pairs == |Neighbours(Members(numbers))|
    ensures LongestStreak(Ascending(numbers), maxRun)
  {
    var sorted := Sort(AtMost, numbers);
    AscendingFacts(numbers);
    hide Sort, LongestStreak, EndsIn, Neighbours, NonDecreasing;
    pairs := 0;
    if sorted == [] {
      NoStreak();
      NoNeighbours(numbers);
      return 0, 0;
    }
    var run := 1;
    maxRun := 1;
    FirstStreak(sorted[0]);
    OneNeighbour(sorted[0]);
    assert sorted[..1] == [sorted[0]];
    for i := 1 to |sorted|
      invariant pairs == |Neighbours(Members(sorted[..i]))|
      invariant LongestStreak(sorted[..i], maxRun) && EndsIn(sorted[..i], run)
    {
      NextNeighbour(sorted, i);
      NextStreak(sorted[..i], sorted[i], maxRun, run);
      assert sorted[..i + 1] == sorted[..i] + [sorted[i]];
      if sorted[i] == sorted[i - 1] + 1 {
        pairs := pairs + 1;
        run := run + 1;
        maxRun := if run > maxRun then run else maxRun;
      } else {
        run := 1;
      }
    }
    assert sorted[..|sorted|] == sorted;
  }

  lemma NoNeighbours(numbers: seq<int>)
    requires |numbers| == 0
    ensures |Neighbours(Members(numbers))| == 0
  {
    assert Neighbours(Members(numbers)) == {};
  }

  lemma OneNeighbour(x: int)
    ensures |Neighbours(Members([x]))| == 0
  {
    assert Neighbours(Members([x])) == {};
  }

  // ----- for games without repetition, streaks are runs of numbers -----

  /** x, x + 1, ..., x + length - 1 are all there. */
  ghost predicate Run(s: set<int>, x: int, length: int) {
    forall k :: x <= k < x + length ==> k in s
  }

  ghost predicate LongestRun(s: set<int>, length: int) {
    && length >= 0
    && (exists x :: Run(s, x, length))
    && (forall x, l :: l >= 0 && Run(s, x, l) ==> l <= length)
  }

  lemma {:induction false} StreakValues(s: seq<int>, i: int, length: int, k: int)
    requires Streak(s, i, length) && 0 <= k < length
    ensures s[i + k] == s[i] + k
    decreases k
  {
    if k > 0 {
      StreakValues(s, i, length, k - 1);
      assert Up(s, i + k);
    }
  }

  lemma StreakIsRun(s: seq<int>, i: int, length: int)
    requires Streak(s, i, length) && length > 0
    ensures Run(Members(s), s[i], length)
  {
    forall k | s[i] <= k < s[i] + length ensures k in Members(s) {
      StreakValues(s, i, length, k - s[i]);
      assert s[i + (k - s[i])] in s;
    }
  }

  lemma NotAbove(s: seq<int>, i: int, j: int)
    requires StrictlyIncreasing(s) && 0 <= i <= j < |s|
    ensures s[i] <= s[j]
  {
  }

  lemma {:induction false} RunIsStreak(s: seq<int>, x: int, length: int) returns (i: int)
    requires StrictlyIncreasing(s) && length > 0 && Run(Members(s), x, length)
    ensures Streak(s, i, length) && s[i] == x
    decreases length
  {
    if length == 1 {
      assert x in Members(s);
      i :| 0 <= i < |s| && s[i] == x;
    } else {
      i := RunIsStreak(s, x, length - 1);
      StreakValues(s, i, length - 1, length - 2);
      var y := x + length - 1;
      assert y in Members(s);
      var j :| 0 <= j < |s| && s[j] == y;
      var next := i + length - 1;
      assert s[next - 1] == y - 1 && next - 1 < j;
      NotAbove(s, next, j);
      assert Up(s, next);
    }
  }

  /** Without repetition, the longest streak is the longest run of successive numbers in the game. */
  lemma LongestStreakIsRun(numbers: seq<int>, length: int)
    requires Distinct(numbers) && LongestStreak(Ascending(numbers), length)
    ensures LongestRun(Members(numbers), length)
  {
    var s, m := Ascending(numbers), Members(numbers);
    AscendingFacts(numbers);
    hide Sort;
    var i :| Streak(s, i, length);
    if length > 0 { StreakIsRun(s, i, length); } else { assert Run(m, 0, length); }
    forall x, l | l >= 0 && Run(m, x, l) ensures l <= length {
      if l > 0 {
        var j := RunIsStreak(s, x, l);
      }
    }
  }

  // ----- pairs -----

  function Key(a: int, b: int, min: int, size: int): int {
    (a - min) * size + (b - min)
  }

  /** A key gives its pair back, so no two pairs of the universe share one. */
  lemma KeyDecodes(a: int, b: int, min: int, size: int)
    requires size > 0 && min <= b < min + size
    ensures Key(a, b, min, size) / size + min == a
    ensures Key(a, b, min, size) % size + min == b
  {
    assert (a - min) * size == size * (a - min);
    DivUnique(Key(a, b, min, size), size, a - min);
    DivBracket(Key(a, b, min, size), size);
  }

  function Get(m: map<int, int>, k: int): int { if k in m then m[k] else 0 }

  /** Positions q from i + 1 up to j whose pair with position i has this key. */
  function RowCount(nums: seq<int>, i: nat, j: nat, min: int, size: int, key: int): nat
    requires i < |nums| && j <= |nums|
    decreases j
  {
    if j <= i + 1 then 0
    else RowCount(nums, i, j - 1, min, size, key) + if Key(nums[i], nums[j - 1], min, size) == key then 1 else 0
  }

  /** Pairs of positions p < q with this key, p being below i. */
  function PairsBelow(nums: seq<int>, i: nat, min: int, size: int, key: int): nat
    requires i <= |nums|
  {
    if i == 0 then 0 else PairsBelow(nums, i - 1, min, size, key) + RowCount(nums, i - 1, |nums|, min, size, key)
  }

  /** Over the history: pairs of positions of the sorted draws with this key. */
  function KeyTotal(draws: seq<seq<int>>, min: int, size: int, key: int): nat {
    if draws == [] then 0
    else
      var nums := Ascending(draws[|draws| - 1]);
      KeyTotal(draws[..|draws| - 1], min, size, key) + PairsBelow(nums, |nums|, min, size, key)
  }

  /** Each pair of positions of a sorted draw adds one under its key. */
  method AddDrawPairs(m0: map<int, int>, nums: seq<int>, min: int, size: int) returns (m: map<int, int>)
    ensures forall key :: Get(m, key) == Get(m0, key) + PairsBelow(nums, |nums|, min, size, key)
  {
    m := m0;
    for i := 0 to |nums|
      invariant forall key :: Get(m, key) == Get(m0, key) + PairsBelow(nums, i, min, size, key)
    {
      for j := i + 1 to |nums|
        invariant forall key :: Get(m, key) == Get(m0, key) + PairsBelow(nums, i, min, size, key) + RowCount(nums, i, j, min, size, key)
      {
        var key := (nums[i] - min) * size + (nums[j] - min);
        m := m[key := (if key in m then m[key] else 0) + 1];
      }
    }
  }

  /** The pair table of any history, whatever its draws hold. */
  method PairCounts(draws: seq<seq<int>>, min: int, size: int) returns (m: map<int, int>)
    ensures forall key :: Get(m, key) == KeyTotal(draws, min, size, key)
  {
    m := map[];
    for i := 0 to |draws|
      invariant forall key :: Get(m, key) == KeyTotal(draws[..i], min, size, key)
    {
      var now := draws[..i + 1];
      assert now[..|now| - 1] == draws[..i];
      m := AddDrawPairs(m, Sort(AtMost, draws[i]), min, size);
    }
    assert draws[..|draws|] == draws;
  }

  // ----- what the table says of well-formed draws -----

  ghost predicate InUniverse(s: seq<int>, min: int, size: int) {
    Distinct(s) && forall x :: x in s ==> min <= x < min + size
  }

  /** Draws that have both numbers. */
  function WithBoth(draws: seq<seq<int>>, a: int, b: int): nat {
    if draws == [] then 0
    else WithBoth(draws[..|draws| - 1], a, b) + if a in draws[|draws| - 1] && b in draws[|draws| - 1] then 1 else 0
  }

  /** The pairs of a sorted draw are counted under keys of their own. */
  lemma KeyIsOfPair(nums: seq<int>, i: nat, q: nat, a: int, b: int, min: int, size: int)
    requires size > 0 && i < |nums| && q < |nums| && min <= b < min + size && min <= nums[q] < min + size
    ensures Key(nums[i], nums[q], min, size) == Key(a, b, min, size) <==> nums[i] == a && nums[q] == b
  {
    KeyDecodes(a, b, min, size);
    KeyDecodes(nums[i], nums[q], min, size);
  }

  lemma {:induction false} RowHasPair(nums: seq<int>, i: nat, j: nat, a: int, b: int, min: int, size: int)
    requires size > 0 && StrictlyIncreasing(nums) && forall x :: x in nums ==> min <= x < min + size
    requires i < |nums| && i < j <= |nums| && min <= b < min + size
    ensures RowCount(nums, i, j, min, size, Key(a, b, min, size)) == if nums[i] == a && b in nums[i + 1..j] then 1 else 0
    decreases j
  {
    if j > i + 1 {
      RowHasPair(nums, i, j - 1, a, b, min, size);
      assert nums[j - 1] in nums;
      KeyIsOfPair(nums, i, j - 1, a, b, min, size);
      assert nums[i + 1..j] == nums[i + 1..j - 1] + [nums[j - 1]];
      assert nums[j - 1] !in nums[i + 1..j - 1];
    }
  }

  lemma {:induction false} DrawHasPair(nums: seq<int>, i: nat, a: int, b: int, min: int, size: int)
    requires size > 0 && StrictlyIncreasing(nums) && forall x :: x in nums ==> min <= x < min + size
    requires i <= |nums| && min <= a < b < min + size
    ensures PairsBelow(nums, i, min, size, Key(a, b, min, size)) == if a in nums[..i] && b in nums then 1 else 0
  {
    if i > 0 {
      DrawHasPair(nums, i - 1, a, b, min, size);
      RowHasPair(nums, i - 1, |nums|, a, b, min, size);
      assert nums[..i] == nums[..i - 1] + [nums[i - 1]];
      assert nums[i - 1] !in nums[..i - 1];
      if nums[i - 1] == a { LaterInRow(nums, i - 1, b); }
    }
  }

  lemma LaterInRow(nums: seq<int>, i: nat, b: int)
    requires StrictlyIncreasing(nums) && i < |nums| && nums[i] < b
    ensures b in nums <==> b in nums[i + 1..]
  {
    if b in nums {
      var q :| 0 <= q < |nums| && nums[q] == b;
      assert q > i;
      assert nums[i + 1..][q - i - 1] == b;
    }
  }

  /** For draws of distinct numbers of the universe, the table counts, for every two numbers, exactly the draws that have both. */
  lemma {:induction false} PairTableCountsDraws(draws: seq<seq<int>>, a: int, b: int, min: int, size: int)
    requires size > 0 && min <= a < b < min + size
    requires forall i :: 0 <= i < |draws| ==> InUniverse(draws[i], min, size)
    ensures KeyTotal(draws, min, size, Key(a, b, min, size)) == WithBoth(draws, a, b)
  {
    if draws != [] {
      var last := draws[|draws| - 1];
      var nums := Ascending(last);
      PairTableCountsDraws(draws[..|draws| - 1], a, b, min, size);
      AscendingFacts(last);
      hide Sort;
      forall x ensures x in nums <==> x in last {
        assert x in nums <==> x in Members(nums);
        assert x in last <==> x in Members(last);
      }
      DrawHasPair(nums, |nums|, a, b, min, size);
      assert nums[..|nums|] == nums;
    }
  }
}
