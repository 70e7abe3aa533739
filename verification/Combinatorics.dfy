/**
  Exact lottery odds (packages/shared-types/src/lottery-stats.ts). Integer binomials and cross-multiplied ratios
  replace the source's log-space floats: a hit probability is HitWays(...) / Choose(universe, drawSize).
 */
module Combinatorics {
  import opened Arithmetic
  import opened Sets

  function Choose(n: int, k: int): nat {
    if k < 0 || k > n then 0
    else if k == 0 || k == n then 1
    else Choose(n - 1, k - 1) + Choose(n - 1, k)
  }

  /** Draws of `drawSize` numbers that share exactly `hits` with a bet of `k`, out of `universe`. */
  function HitWays(universe: int, drawSize: int, k: int, hits: int): nat {
    Choose(k, hits) * Choose(universe - k, drawSize - hits)
  }

  lemma Pascal(n: int, k: int)
    requires n >= 1
    ensures Choose(n, k) == Choose(n - 1, k - 1) + Choose(n - 1, k)
  {
  }

  lemma {:induction false} ChoosePositive(n: nat, k: nat)
    requires k <= n
    ensures Choose(n, k) > 0
  {
    if 0 < k < n { ChoosePositive(n - 1, k); }
  }

  // ----- the odds count draws -----

  /** All draws of a size out of a set of numbers that hit a bet exactly `hits` times. */
  ghost function Draws(universe: set<int>, bet: set<int>, size: int, hits: int): set<set<int>> {
    set d: set<int> | d <= universe && |d| == size && |d * bet| == hits
  }

  ghost function WithMember(ds: set<set<int>>, x: int): set<set<int>> {
    set d | d in ds :: d + {x}
  }

  lemma AddIsInjective(d: set<int>, e: set<int>, x: int)
    requires x !in d && x !in e && d + {x} == e + {x}
    ensures d == e
  {
    assert d == (d + {x}) - {x} && e == (e + {x}) - {x};
  }

  lemma {:induction false} WithMemberSize(ds: set<set<int>>, x: int)
    requires forall d :: d in ds ==> x !in d
    ensures |WithMember(ds, x)| == |ds|
  {
    if ds == {} {
      assert WithMember(ds, x) == {};
    } else {
      var d :| d in ds;
      WithMemberSize(ds - {d}, x);
      assert d + {x} !in WithMember(ds - {d}, x) by {
        forall e | e in ds && d + {x} == e + {x} ensures e == d { AddIsInjective(d, e, x); }
      }
      assert WithMember(ds, x) == WithMember(ds - {d}, x) + {d + {x}};
    }
  }

  ghost predicate IsDraw(d: set<int>, universe: set<int>, bet: set<int>, size: int, hits: int) {
    d <= universe && |d| == size && |d * bet| == hits
  }

  lemma TakeOut(d: set<int>, universe: set<int>, bet: set<int>, size: int, hits: int, x: int)
    requires IsDraw(d, universe, bet, size, hits) && x in d
    ensures IsDraw(d - {x}, universe - {x}, bet, size - 1, if x in bet then hits - 1 else hits)
    ensures (d - {x}) + {x} == d
  {
    assert (d - {x}) * bet == if x in bet then d * bet - {x} else d * bet;
  }

  lemma PutIn(e: set<int>, universe: set<int>, bet: set<int>, size: int, hits: int, x: int)
    requires x in universe
    requires IsDraw(e, universe - {x}, bet, size - 1, if x in bet then hits - 1 else hits)
    ensures IsDraw(e + {x}, universe, bet, size, hits)
  {
    assert (e + {x}) * bet == if x in bet then e * bet + {x} else e * bet;
  }

  lemma DrawTaking(universe: set<int>, bet: set<int>, size: int, hits: int, x: int, d: set<int>)
    requires x in universe
    ensures d in Draws(universe, bet, size, hits) && x in d
       <==> d in WithMember(Draws(universe - {x}, bet, size - 1, if x in bet then hits - 1 else hits), x)
  {
    var taken := Draws(universe - {x}, bet, size - 1, if x in bet then hits - 1 else hits);
    if d in Draws(universe, bet, size, hits) && x in d {
      TakeOut(d, universe, bet, size, hits, x);
      assert d - {x} in taken;
    }
    if d in WithMember(taken, x) {
      var e :| e in taken && d == e + {x};
      PutIn(e, universe, bet, size, hits, x);
    }
  }

  /** Draws either leave a number out or take it. */
  lemma DrawsSplit(universe: set<int>, bet: set<int>, size: int, hits: int, x: int)
    requires x in universe
    ensures |Draws(universe, bet, size, hits)|
         == |Draws(universe - {x}, bet, size, hits)| + |Draws(universe - {x}, bet, size - 1, if x in bet then hits - 1 else hits)|
  {
    var all, without := Draws(universe, bet, size, hits), Draws(universe - {x}, bet, size, hits);
    var taken := Draws(universe - {x}, bet, size - 1, if x in bet then hits - 1 else hits);
    forall d ensures d in all && x in d <==> d in WithMember(taken, x) {
      DrawTaking(universe, bet, size, hits, x, d);
    }
    assert forall d :: d in all && x !in d <==> d in without;
    WithMemberSize(taken, x);
    UnionSize(all, without, WithMember(taken, x));
  }

  lemma NoDraws(universe: set<int>, bet: set<int>, size: int, hits: int)
    requires size < 0 || hits < 0 || hits > |universe * bet| || size - hits > |universe - bet| || hits > size
    ensures Draws(universe, bet, size, hits) == {}
  {
    forall d | d in Draws(universe, bet, size, hits) ensures false {
      assert d == d * bet + (d - bet);
      SubsetSize(d * bet, universe * bet);
      SubsetSize(d - bet, universe - bet);
      SubsetSize(d * bet, d);
    }
  }

  /** One number of the bet: Pascal on the first factor. */
  lemma WaysMember(universe: int, size: int, k: int, hits: int)
    requires k >= 1
    ensures HitWays(universe, size, k, hits) == HitWays(universe - 1, size - 1, k - 1, hits - 1) + HitWays(universe - 1, size, k - 1, hits)
  {
    Pascal(k, hits);
    Distribute(Choose(k - 1, hits - 1), Choose(k - 1, hits), Choose(universe - k, size - hits));
  }

  /** One number outside the bet: Pascal on the second factor. */
  lemma WaysStranger(universe: int, size: int, k: int, hits: int)
    requires universe - k >= 1
    ensures HitWays(universe, size, k, hits) == HitWays(universe - 1, size - 1, k, hits) + HitWays(universe - 1, size, k, hits)
  {
    var r := universe - k;
    Pascal(r, size - hits);
    Distribute(Choose(r - 1, size - hits - 1), Choose(r - 1, size - hits), Choose(k, hits));
  }

  /** HitWays counts exactly the draws that hit the bet `hits` times, so the hit probability is a true proportion. */
  lemma {:induction false} HitWaysCountsDraws(universe: set<int>, bet: set<int>, size: int, hits: int)
    requires bet <= universe
    ensures |Draws(universe, bet, size, hits)| == HitWays(|universe|, size, |bet|, hits)
    decreases |universe|
  {
    if universe == {} {
      EmptyUniverse(universe, bet, size, hits);
    } else {
      var x := PickOne(universe);
      var rest, b := universe - {x}, bet - {x};
      var h := if x in bet then hits - 1 else hits;
      DrawsSplit(universe, bet, size, hits, x);
      assert rest * bet == rest * b;
      SameDraws(rest, bet, b, size, hits);
      SameDraws(rest, bet, b, size - 1, h);
      HitWaysCountsDraws(rest, b, size, hits);
      HitWaysCountsDraws(rest, b, size - 1, h);
      if x in bet {
        WaysMember(|universe|, size, |bet|, hits);
      } else {
        assert b == bet;
        SubsetSize(bet, rest);
        WaysStranger(|universe|, size, |bet|, hits);
      }
    }
  }

  lemma EmptyUniverse(universe: set<int>, bet: set<int>, size: int, hits: int)
    requires universe == {} && bet == {}
    ensures |Draws(universe, bet, size, hits)| == HitWays(0, size, 0, hits)
  {
    if size == 0 && hits == 0 {
      assert Draws(universe, bet, size, hits) == {{}};
    } else {
      NoDraws(universe, bet, size, hits);
    }
  }

  lemma Distribute(a: int, b: int, c: int)
    ensures (a + b) * c == a * c + b * c
  {
  }

  lemma SameDraws(universe: set<int>, a: set<int>, b: set<int>, size: int, hits: int)
    requires universe * a == universe * b
    ensures Draws(universe, a, size, hits) == Draws(universe, b, size, hits)
  {
    forall d | d <= universe ensures d * a == d * b {
      assert d * a == d * (universe * a) && d * b == d * (universe * b);
    }
  }

  // ----- they add up -----

  /** Sum of HitWays over hits in 0..n. */
  function SumWays(universe: int, drawSize: int, k: int, n: nat): nat {
    if n == 0 then 0 else SumWays(universe, drawSize, k, n - 1) + HitWays(universe, drawSize, k, n - 1)
  }

  /** Adding one number to the bet, Pascal on the first factor. */
  lemma {:induction false} SumWaysStep(universe: int, drawSize: int, k: int, n: nat)
    requires k >= 1
    ensures SumWays(universe, drawSize, k, n)
         == SumWays(universe - 1, drawSize, k - 1, n) + SumWays(universe - 1, drawSize - 1, k - 1, n) - (if n == 0 then 0 else HitWays(universe - 1, drawSize - 1, k - 1, n - 1))
  {
    if n > 0 {
      SumWaysStep(universe, drawSize, k, n - 1);
      WaysMember(universe, drawSize, k, n - 1);
    }
  }

  /** Vandermonde: over enough hit counts, the ways add up to all draws. */
  lemma {:induction false} WaysSumToAllDraws(universe: nat, drawSize: int, k: nat, n: nat)
    requires k <= universe && n > k
    ensures SumWays(universe, drawSize, k, n) == Choose(universe, drawSize)
    decreases k
  {
    if k == 0 {
      SumWaysEmptyBet(universe, drawSize, n);
    } else {
      SumWaysStep(universe, drawSize, k, n);
      WaysSumToAllDraws(universe - 1, drawSize, k - 1, n);
      WaysSumToAllDraws(universe - 1, drawSize - 1, k - 1, n);
      assert HitWays(universe - 1, drawSize - 1, k - 1, n - 1) == 0;
      Pascal(universe, drawSize);
    }
  }

  lemma {:induction false} SumWaysEmptyBet(universe: nat, drawSize: int, n: nat)
    ensures SumWays(universe, drawSize, 0, n) == if n == 0 then 0 else Choose(universe, drawSize)
  {
    if n > 0 { SumWaysEmptyBet(universe, drawSize, n - 1); }
  }

  /** Hit counts past `n` add nothing when no draw reaches them. */
  lemma {:induction false} WaysBeyond(universe: int, drawSize: int, k: int, n: nat, m: nat)
    requires n <= m && n > drawSize
    ensures SumWays(universe, drawSize, k, m) == SumWays(universe, drawSize, k, n)
    decreases m
  {
    if n < m {
      WaysBeyond(universe, drawSize, k, n, m - 1);
      assert Choose(universe - k, drawSize - (m - 1)) == 0;
    }
  }

  ghost function OddsBelow(min: nat, n: nat): set<int> {
    set v | min <= v < n && v % 2 == 1
  }

  /** How many odd numbers the universe holds. */
  method OddInUniverse(min: nat, max: nat) returns (odd: nat)
    requires min <= max
    ensures odd == |OddsBelow(min, max + 1)| && odd <= max - min + 1
    ensures odd == |set v | min <= v <= max && v % 2 == 1|
  {
    assert OddsBelow(min, max + 1) == set v | min <= v <= max && v % 2 == 1;
    odd := 0;
    assert OddsBelow(min, min) == {};
    for n := min to max + 1
      invariant odd == |OddsBelow(min, n)| && odd <= n - min
    {
      if n % 2 == 1 {
        odd := odd + 1;
        assert OddsBelow(min, n + 1) == OddsBelow(min, n) + {n};
      } else {
        assert OddsBelow(min, n + 1) == OddsBelow(min, n);
      }
    }
  }

  // ----- probabilities -----

  /** The hypergeometric probability; 0 when there is no draw at all. */
  function HitProbability(universe: int, drawSize: int, k: int, hits: int): real {
    if Choose(universe, drawSize) == 0 then 0.0
    else HitWays(universe, drawSize, k, hits) as real / Choose(universe, drawSize) as real
  }

  /** The probability is the proportion of all draws of that size, as sets, that hit the bet that many times. */
  lemma ProbabilityIsProportion(universe: set<int>, bet: set<int>, size: nat, hits: int)
    requires bet <= universe && size <= |universe|
    ensures |Draws(universe, {}, size, 0)| > 0
    ensures HitProbability(|universe|, size, |bet|, hits) == |Draws(universe, bet, size, hits)| as real / |Draws(universe, {}, size, 0)| as real
  {
    ChoosePositive(|universe|, size);
    HitWaysCountsDraws(universe, bet, size, hits);
    HitWaysCountsDraws(universe, {}, size, 0);
    assert HitWays(|universe|, size, 0, 0) == Choose(|universe|, size);
  }

  function SumReal(s: seq<real>): real {
    if s == [] then 0.0 else SumReal(s[..|s| - 1]) + s[|s| - 1]
  }

  /** The probabilities of 0..n-1 hits. */
  function Distribution(universe: int, drawSize: int, k: int, n: nat): (r: seq<real>)
    ensures |r| == n && forall j :: 0 <= j < n ==> r[j] == HitProbability(universe, drawSize, k, j)
  {
    seq(n, j => HitProbability(universe, drawSize, k, j))
  }

  lemma AddQuotients(a: nat, b: nat, c: nat)
    requires c > 0
    ensures a as real / c as real + b as real / c as real == (a + b) as real / c as real
  {
  }

  lemma {:induction false} DistributionSum(universe: int, drawSize: int, k: int, n: nat)
    requires Choose(universe, drawSize) > 0
    ensures SumReal(Distribution(universe, drawSize, k, n)) == SumWays(universe, drawSize, k, n) as real / Choose(universe, drawSize) as real
  {
    if n > 0 {
      DistributionSum(universe, drawSize, k, n - 1);
      var all := Distribution(universe, drawSize, k, n);
      assert all[..n - 1] == Distribution(universe, drawSize, k, n - 1);
      AddQuotients(SumWays(universe, drawSize, k, n - 1), HitWays(universe, drawSize, k, n - 1), Choose(universe, drawSize));
    }
  }

  lemma {:induction false} OneOfTheWays(universe: int, drawSize: int, k: int, n: nat, j: nat)
    requires j < n
    ensures HitWays(universe, drawSize, k, j) <= SumWays(universe, drawSize, k, n)
  {
    if j < n - 1 { OneOfTheWays(universe, drawSize, k, n - 1, j); }
  }

  /** For every universe, draw size and bet, the hit probabilities lie between 0 and 1 and add up to exactly 1. */
  lemma ProbabilitiesSumToOne(universe: nat, drawSize: nat, k: nat, n: nat)
    requires drawSize <= universe && k <= universe && (n > k || n > drawSize)
    ensures SumReal(Distribution(universe, drawSize, k, n)) == 1.0
    ensures forall j :: 0 <= j < n ==> 0.0 <= Distribution(universe, drawSize, k, n)[j] <= 1.0
  {
    hide HitWays, SumWays, Choose, HitProbability;
    ChoosePositive(universe, drawSize);
    DistributionSum(universe, drawSize, k, n);
    EnoughHits(universe, drawSize, k, n);
    forall j | 0 <= j < n ensures 0.0 <= Distribution(universe, drawSize, k, n)[j] <= 1.0 {
      OneProbability(universe, drawSize, k, n, j);
    }
  }

  lemma EnoughHits(universe: nat, drawSize: nat, k: nat, n: nat)
    requires k <= universe && (n > k || n > drawSize)
    ensures SumWays(universe, drawSize, k, n) == Choose(universe, drawSize)
  {
    hide HitWays, SumWays, Choose;
    if n > k {
      WaysSumToAllDraws(universe, drawSize, k, n);
    } else {
      WaysSumToAllDraws(universe, drawSize, k, k + 1);
      WaysBeyond(universe, drawSize, k, n, k + 1);
    }
  }

  lemma OneProbability(universe: nat, drawSize: nat, k: nat, n: nat, j: nat)
    requires Choose(universe, drawSize) > 0 && SumWays(universe, drawSize, k, n) == Choose(universe, drawSize) && j < n
    ensures 0.0 <= HitProbability(universe, drawSize, k, j) <= 1.0
  {
    hide HitWays, SumWays, Choose;
    OneOfTheWays(universe, drawSize, k, n, j);
    Proportion(HitWays(universe, drawSize, k, j), Choose(universe, drawSize));
  }

  lemma Proportion(a: nat, c: nat)
    requires a <= c && c > 0
    ensures 0.0 <= a as real / c as real <= 1.0
  {
  }

  lemma {:induction false} NoDistribution(universe: int, drawSize: int, k: int, n: nat)
    requires Choose(universe, drawSize) == 0
    ensures SumReal(Distribution(universe, drawSize, k, n)) == 0.0
  {
    if n > 0 {
      NoDistribution(universe, drawSize, k, n - 1);
      assert Distribution(universe, drawSize, k, n)[..n - 1] == Distribution(universe, drawSize, k, n - 1);
    }
  }

  /**
    The theoretical distribution of odd numbers in a game of k numbers is a probability distribution; for a game larger
    than the universe, which cannot be drawn, every entry is 0.
   */
  method TheoreticalParity(min: nat, max: nat, k: nat) returns (out: seq<real>)
    requires min <= max
    ensures |out| == k + 1
    ensures forall j :: 0 <= j <= k ==> out[j] == HitProbability(max - min + 1, k, |OddsBelow(min, max + 1)|, j) && 0.0 <= out[j] <= 1.0
    ensures SumReal(out) == if k <= max - min + 1 then 1.0 else 0.0
  {
    var universe := max - min + 1;
    var odd := OddInUniverse(min, max);
    out := [];
    for j := 0 to k + 1
      invariant out == Distribution(universe, k, odd, j)
    {
      out := out + [HitProbability(universe, k, odd, j)];
    }
    if k <= universe {
      ProbabilitiesSumToOne(universe, k, odd, k + 1);
    } else {
      NoDistribution(universe, k, odd, k + 1);
      assert forall j :: 0 <= j <= k ==> out[j] == 0.0;
    }
  }

  function Factorial(n: nat): nat {
    if n == 0 then 1 else n * Factorial(n - 1)
  }

  lemma {:induction false} FactorialPositive(n: nat)
    ensures Factorial(n) > 0
  {
    if n > 0 {
      FactorialPositive(n - 1);
      MulMonotone(Factorial(n - 1), 1, n);
    }
  }

  lemma {:induction false} ChooseFactorial(n: nat, k: nat)
    requires k <= n
    ensures Choose(n, k) * Factorial(k) * Factorial(n - k) == Factorial(n)
  {
    if 0 < k < n {
      ChooseFactorial(n - 1, k - 1);
      ChooseFactorial(n - 1, k);
      Pascal(n, k);
      var a, b, fk, fr := Choose(n - 1, k - 1), Choose(n - 1, k), Factorial(k - 1), Factorial(n - k - 1);
      PascalFactorials(a, b, fk, fr, k, n - k, Factorial(n - 1));
    }
  }

  lemma PascalFactorials(a: int, b: int, fk: int, fr: int, k: int, r: int, f: int)
    requires a * fk * (r * fr) == f && b * (k * fk) * fr == f
    ensures (a + b) * (k * fk) * (r * fr) == (k + r) * f
  {
    var p := fk * fr;
    assert a * fk * (r * fr) == r * (a * p);
    assert b * (k * fk) * fr == k * (b * p);
    assert (a + b) * (k * fk) * (r * fr) == k * (r * (a * p)) + r * (k * (b * p));
  }

  /** Choosing a then b, or b then a, out of the rest. */
  lemma ChooseTwice(m: nat, a: nat, b: nat)
    requires a + b <= m
    ensures Choose(m, a) * Choose(m - a, b) == Choose(m, b) * Choose(m - b, a)
  {
    ChooseFactorial(m, a);
    ChooseFactorial(m - a, b);
    ChooseFactorial(m, b);
    ChooseFactorial(m - b, a);
    FactorialPositive(a);
    FactorialPositive(b);
    FactorialPositive(m - a - b);
    var fa, fb, fr := Factorial(a), Factorial(b), Factorial(m - a - b);
    Multinomial(Choose(m, a), Choose(m - a, b), fa, fb, fr, Factorial(m - a), Factorial(m));
    Multinomial(Choose(m, b), Choose(m - b, a), fb, fa, fr, Factorial(m - b), Factorial(m));
    var p := fa * fb * fr;
    assert fb * fa * fr == p;
    MulPositive(fa, fb);
    MulPositive(fa * fb, fr);
    CancelEqual(p, Choose(m, a) * Choose(m - a, b), Choose(m, b) * Choose(m - b, a));
  }

  lemma Multinomial(c1: int, c2: int, fa: int, fb: int, fr: int, inner: int, outer: int)
    requires c2 * fb * fr == inner && c1 * fa * inner == outer
    ensures (fa * fb * fr) * (c1 * c2) == outer
  {
    assert c1 * fa * (c2 * fb * fr) == (fa * fb * fr) * (c1 * c2);
  }

  lemma MulPositive(a: int, b: int)
    requires a > 0 && b > 0
    ensures a * b > 0
  {
  }

  lemma CancelEqual(p: int, x: int, y: int)
    requires p > 0 && p * x == p * y
    ensures x == y
  {
    Cancel(p, x, y);
    Cancel(p, y, x);
  }

  /**
    Marking k and drawing d gives the same odds as marking d and drawing k:
    HitWays(N, d, k, h) / Choose(N, d) == HitWays(N, k, d, h) / Choose(N, k).
   */
  lemma OddsAreSymmetric(universe: nat, drawSize: nat, k: nat, hits: int)
    requires drawSize <= universe && k <= universe
    ensures HitWays(universe, drawSize, k, hits) * Choose(universe, k) == HitWays(universe, k, drawSize, hits) * Choose(universe, drawSize)
  {
    if 0 <= hits && hits <= k && hits <= drawSize && k + drawSize - hits <= universe {
      var m, a, b := universe - hits, k - hits, drawSize - hits;
      ChooseTwice(m, a, b);
      Revision(universe, k, hits);
      Revision(universe, drawSize, hits);
      var top := Choose(universe, hits);
      // Choose(N,k) * Choose(k,h) == top * Choose(m,a), and likewise for the draw
      Rearrange(Choose(universe, k), Choose(k, hits), Choose(universe - k, drawSize - hits), top, Choose(m, a));
      Rearrange(Choose(universe, drawSize), Choose(drawSize, hits), Choose(universe - drawSize, k - hits), top, Choose(m, b));
      assert m - a == universe - k && m - b == universe - drawSize;
    } else {
      assert HitWays(universe, drawSize, k, hits) == 0;
      assert HitWays(universe, k, drawSize, hits) == 0;
    }
  }

  lemma EqualQuotients(a: nat, b: nat, c: nat, d: nat)
    requires b > 0 && d > 0 && a * d == c * b
    ensures a as real / b as real == c as real / d as real
  {
    var x, y := a as real / b as real, c as real / d as real;
    assert x * b as real == a as real && y * d as real == c as real;
    assert (a * d) as real == a as real * d as real && (c * b) as real == c as real * b as real;
    assert (x - y) * (b as real * d as real) == 0.0;
  }

  lemma ProbabilityIsSymmetric(universe: nat, drawSize: nat, k: nat, hits: int)
    requires drawSize <= universe && k <= universe
    ensures HitProbability(universe, drawSize, k, hits) == HitProbability(universe, k, drawSize, hits)
  {
    ChoosePositive(universe, drawSize);
    ChoosePositive(universe, k);
    OddsAreSymmetric(universe, drawSize, k, hits);
    EqualQuotients(HitWays(universe, drawSize, k, hits), Choose(universe, drawSize), HitWays(universe, k, drawSize, hits), Choose(universe, k));
  }

  lemma Rearrange(n: int, inner: int, rest: int, top: int, c: int)
    requires n * inner == top * c
    ensures inner * rest * n == top * (c * rest)
  {
    assert inner * rest * n == (n * inner) * rest;
  }

  /** Choose(n, k) * Choose(k, h) == Choose(n, h) * Choose(n - h, k - h). */
  lemma Revision(n: nat, k: nat, h: nat)
    requires h <= k <= n
    ensures Choose(n, k) * Choose(k, h) == Choose(n, h) * Choose(n - h, k - h)
  {
    ChooseFactorial(n, k);
    ChooseFactorial(k, h);
    ChooseFactorial(n, h);
    ChooseFactorial(n - h, k - h);
    FactorialPositive(h);
    FactorialPositive(k - h);
    FactorialPositive(n - k);
    var fh, fa, fr := Factorial(h), Factorial(k - h), Factorial(n - k);
    assert Choose(n, k) * Factorial(k) * fr == Factorial(n);
    Nested(Choose(n, k), Choose(k, h), fh, fa, fr, Factorial(k), Factorial(n));
    assert (n - h) - (k - h) == n - k;
    Multinomial(Choose(n, h), Choose(n - h, k - h), fh, fa, fr, Factorial(n - h), Factorial(n));
    MulPositive(fh, fa);
    MulPositive(fh * fa, fr);
    CancelEqual(fh * fa * fr, Choose(n, k) * Choose(k, h), Choose(n, h) * Choose(n - h, k - h));
  }

  lemma Nested(c1: int, c2: int, fh: int, fa: int, fr: int, inner: int, outer: int)
    requires c2 * fh * fa == inner && c1 * inner * fr == outer
    ensures (fh * fa * fr) * (c1 * c2) == outer
  {
    assert c1 * (c2 * fh * fa) * fr == (fh * fa * fr) * (c1 * c2);
  }
}
