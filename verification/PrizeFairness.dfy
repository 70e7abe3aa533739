/**
  What the largest-remainder division guarantees: it is exact, quota-respecting, monotone,
  independent of the order of the shares, and closest to the exact proportions.
 */
module PrizeFairness {
  import opened Arithmetic
  import opened PrizeSplit
  import opened Sorting

  function At(m: map<string, int>, id: string): int {
    if id in m then m[id] else 0
  }

  function PartGets(m: map<string, int>): Part -> int { (p: Part) => At(m, p.id) }

  function ShareGets(m: map<string, int>): Share -> int { (s: Share) => At(m, s.id) }

  /** Cents handed out by an allocation. */
  function Paid(m: map<string, int>, shares: seq<Share>): int {
    SumBy(ShareGets(m), shares)
  }

  function Square(x: int): int { x * x }

  function Miss(total: int, units: int, m: map<string, int>): Share -> int {
    (s: Share) => Square(units * At(m, s.id) - total * Weight(s))
  }

  /** Sum of squared distances to the exact entitlements, scaled by units. */
  function Deviation(total: int, m: map<string, int>, shares: seq<Share>): int {
    SumBy(Miss(total, Units(shares), m), shares)
  }

  // ----- exactness -----

  lemma {:induction false} FillSum(order: seq<Part>, remainder: int)
    requires DistinctParts(order)
    ensures SumBy(PartGets(Fill(order, remainder)), order)
         == SumBy(Base, order) + if remainder <= 0 then 0 else if remainder < |order| then remainder else |order|
  {
    if order != [] {
      DistinctTail(order);
      FillSum(order[1..], remainder - 1);
      var whole, rest := PartGets(Fill(order, remainder)), PartGets(Fill(order[1..], remainder - 1));
      forall i | 0 <= i < |order[1..]| ensures rest(order[1..][i]) == whole(order[1..][i]) {
        assert order[1..][i] in order[1..];
      }
      SumByEqual(rest, whole, order[1..]);
    }
  }

  lemma PaidByParts(total: int, shares: seq<Share>, m: map<string, int>)
    requires Units(shares) > 0
    ensures Paid(m, shares) == SumBy(PartGets(m), Order(total, shares))
  {
    var units := Units(shares);
    SumByMap(PartGets(m), PartOf(total, units), ShareGets(m), shares);
    SumByPermutation(PartGets(m), Parts(total, shares), Order(total, shares));
  }

  lemma {:induction false} ZeroSum(m: map<string, int>, shares: seq<Share>)
    requires forall id :: id in m ==> m[id] == 0
    ensures Paid(m, shares) == 0
  {
    if shares != [] { ZeroSum(m, shares[1..]); }
  }

  /**
    The parts add up to the whole prize exactly when there is a unit to pay; otherwise nothing is paid.
    So a positive prize is conserved if and only if some quantity is positive.
   */
  lemma SplitIsExact(total: int, shares: seq<Share>)
    requires DistinctIds(shares)
    ensures Paid(Split(total, shares), shares) == if Units(shares) > 0 && total > 0 then total else 0
  {
    if Units(shares) > 0 && total > 0 {
      OrderFacts(total, shares);
      PassExhaustsRemainder(total, shares);
      RemainderIsFractions(total, shares);
      FillSum(Order(total, shares), Remainder(total, shares));
      PaidByParts(total, shares, Split(total, shares));
    } else {
      ZeroSum(Split(total, shares), shares);
    }
  }

  /** Everyone is answered for, and the method cannot pay more or less than the prize. */
  lemma SplitKeys(total: int, shares: seq<Share>)
    requires DistinctIds(shares)
    ensures Split(total, shares).Keys == Ids(shares)
  {
    if Units(shares) > 0 && total > 0 {
      OrderFacts(total, shares);
      FillKeys(Order(total, shares), Remainder(total, shares));
      forall id ensures id in Split(total, shares) <==> id in Ids(shares) {
        if id in Ids(shares) {
          var s :| s in shares && s.id == id;
          var i :| 0 <= i < |shares| && shares[i] == s;
          assert Parts(total, shares)[i] in Order(total, shares);
        }
        if id in Split(total, shares) {
          var p :| p in Order(total, shares) && p.id == id;
          var i :| 0 <= i < |shares| && Parts(total, shares)[i] == p;
          assert shares[i].id == id;
        }
      }
    }
  }

  // ----- each share on its own -----

  /** Position of a share's part in the sorted order. */
  lemma PlaceOf(total: int, shares: seq<Share>, i: nat) returns (k: nat)
    requires DistinctIds(shares) && i < |shares| && Units(shares) > 0 && total > 0
    ensures k < |Order(total, shares)| && Order(total, shares)[k] == Parts(total, shares)[i]
    ensures shares[i].id in Split(total, shares)
    ensures Split(total, shares)[shares[i].id]
         == total * Weight(shares[i]) / Units(shares) + if k < Remainder(total, shares) then 1 else 0
  {
    OrderFacts(total, shares);
    var p := Parts(total, shares)[i];
    assert p in Order(total, shares);
    k :| 0 <= k < |Order(total, shares)| && Order(total, shares)[k] == p;
    FillAt(Order(total, shares), Remainder(total, shares), k);
  }

  /** Each part is the floor of the exact share, or its ceiling when the share is not a whole number of cents. */
  lemma FloorOrCeiling(total: int, shares: seq<Share>, i: nat)
    requires DistinctIds(shares) && i < |shares| && Units(shares) > 0 && total > 0
    ensures shares[i].id in Split(total, shares)
    ensures var exact := total * Weight(shares[i]); var x := Split(total, shares)[shares[i].id]; var units := Units(shares);
      && exact - units < units * x < exact + units
      && (exact % units == 0 ==> units * x == exact)
      && (shares[i].quantity <= 0 ==> x == 0)
  {
    var k := PlaceOf(total, shares, i);
    PassExhaustsRemainder(total, shares);
    assert Order(total, shares)[k].frac == total * Weight(shares[i]) % Units(shares);
    RaisedFloor(total * Weight(shares[i]), Units(shares), if k < Remainder(total, shares) then 1 else 0);
  }

  lemma RaisedFloor(exact: int, units: int, up: int)
    requires units > 0 && (up == 0 || (up == 1 && exact % units > 0))
    ensures var x := exact / units + up;
      && exact - units < units * x < exact + units
      && (exact % units == 0 ==> units * x == exact)
      && (exact == 0 ==> x == 0)
  {
    DivBracket(exact, units);
    assert units * (exact / units + up) == units * (exact / units) + units * up;
    if exact == 0 { DivUnique(0, units, 0); }
  }

  lemma QuotientOrder(total: int, units: int, a: int, b: int)
    requires units > 0 && total > 0 && a >= b
    ensures total * a / units >= total * b / units
    ensures a > b && total * a / units == total * b / units ==> total * a % units > total * b % units
  {
    MulMonotone(total, b, a);
    DivMonotone(total * b, total * a, units);
    DivBracket(total * a, units);
    DivBracket(total * b, units);
    if a > b {
      MulMonotone(total, b + 1, a);
      assert total * (b + 1) == total * b + total;
    }
  }

  /** A larger quantity never receives less, and equal quantities differ by at most one cent. */
  lemma LargerNeverLess(total: int, shares: seq<Share>, i: nat, j: nat)
    requires DistinctIds(shares) && i < |shares| && j < |shares| && Units(shares) > 0 && total > 0
    requires Weight(shares[i]) >= Weight(shares[j])
    ensures shares[i].id in Split(total, shares) && shares[j].id in Split(total, shares)
    ensures var x, y := Split(total, shares)[shares[i].id], Split(total, shares)[shares[j].id];
      if Weight(shares[i]) > Weight(shares[j]) then x >= y else -1 <= x - y <= 1
  {
    var ki := PlaceOf(total, shares, i);
    var kj := PlaceOf(total, shares, j);
    var units := Units(shares);
    QuotientOrder(total, units, Weight(shares[i]), Weight(shares[j]));
    var order := Order(total, shares);
    OrderFacts(total, shares);
    assert kj < ki ==> Goes(order[kj], order[ki]);
  }

  /** What a share gets above its whole cents. */
  function Extra(total: int, shares: seq<Share>, i: nat): int
    requires i < |shares| && Units(shares) > 0 && shares[i].id in Split(total, shares)
  {
    Split(total, shares)[shares[i].id] - total * Weight(shares[i]) / Units(shares)
  }

  /** In exact arithmetic, a spare cent goes to the larger fraction first and, between equal fractions, to the smaller id. */
  lemma LargerFractionFirst(total: int, shares: seq<Share>, i: nat, j: nat)
    requires DistinctIds(shares) && i < |shares| && j < |shares| && Units(shares) > 0 && total > 0
    requires var f, g := total * Weight(shares[i]) % Units(shares), total * Weight(shares[j]) % Units(shares);
      f > g || (f == g && LexLe(shares[i].id, shares[j].id))
    ensures shares[i].id in Split(total, shares) && shares[j].id in Split(total, shares)
    ensures 0 <= Extra(total, shares, j) <= Extra(total, shares, i) <= 1
  {
    var ki := PlaceOf(total, shares, i);
    var kj := PlaceOf(total, shares, j);
    OrderFacts(total, shares);
    var order := Order(total, shares);
    var ids := MapSeq(PartId, order);
    assert ki != kj ==> ids[ki] != ids[kj];
    assert kj < ki ==> Goes(order[kj], order[ki]);
    LexTotal(shares[i].id, shares[j].id);
    hide Split, Order, Weight, Units;
  }

  /** Equal quantities have the same whole cents and fraction however these are computed, so the smaller id never gets less. */
  lemma EqualQuantitiesById(total: int, shares: seq<Share>, i: nat, j: nat)
    requires DistinctIds(shares) && i < |shares| && j < |shares| && Units(shares) > 0 && total > 0
    requires Weight(shares[i]) == Weight(shares[j]) && LexLe(shares[i].id, shares[j].id)
    ensures shares[i].id in Split(total, shares) && shares[j].id in Split(total, shares)
    ensures var x, y := Split(total, shares)[shares[i].id], Split(total, shares)[shares[j].id]; y <= x <= y + 1
  {
    LargerFractionFirst(total, shares, i, j);
    hide Split, Weight, Units, LexLe;
  }

  // ----- independence from the input order -----

  lemma UnitsPermutation(a: seq<Share>, b: seq<Share>)
    requires multiset(a) == multiset(b)
    ensures Units(a) == Units(b)
  {
    SumByPermutation(Weight, a, b);
  }

  /** With distinct ids, the answer depends only on which shares there are. */
  lemma OrderIndependent(total: int, a: seq<Share>, b: seq<Share>)
    requires multiset(a) == multiset(b) && DistinctIds(a)
    ensures DistinctIds(b)
    ensures Split(total, a) == Split(total, b)
  {
    UnitsPermutation(a, b);
    MapPermutation(IdOf, a, b);
    DistinctPermutation(MapSeq(IdOf, a), MapSeq(IdOf, b));
    SameMembers(a, b);
    if Units(a) > 0 && total > 0 {
      SameOrder(total, a, b);
    } else {
      assert Ids(a) == Ids(b);
    }
  }

  lemma SameOrder(total: int, a: seq<Share>, b: seq<Share>)
    requires multiset(a) == multiset(b) && DistinctIds(a) && Units(a) == Units(b) > 0
    ensures Order(total, a) == Order(total, b) && Remainder(total, a) == Remainder(total, b)
  {
    var pa, pb := Parts(total, a), Parts(total, b);
    MapPermutation(PartOf(total, Units(a)), a, b);
    GoesIsOrder();
    OrderFacts(total, a);
    NoTiesAmongParts(pa);
    SortPermutation(Goes, pa, pb);
    SumByPermutation(Base, pa, pb);
  }

  // ----- optimality -----

  function PartMiss(units: int, m: map<string, int>): Part -> int {
    (p: Part) => Square(units * (At(m, p.id) - p.base) - p.frac)
  }

  lemma DeviationByParts(total: int, shares: seq<Share>, m: map<string, int>)
    requires Units(shares) > 0
    ensures Deviation(total, m, shares) == SumBy(PartMiss(Units(shares), m), Order(total, shares))
  {
    var units := Units(shares);
    var g, f, h := PartMiss(units, m), PartOf(total, units), Miss(total, units, m);
    forall i | 0 <= i < |shares| ensures g(f(shares[i])) == h(shares[i]) {
      var s := shares[i];
      var exact := total * Weight(s);
      assert exact == units * (exact / units) + exact % units;
      assert units * (At(m, s.id) - exact / units) == units * At(m, s.id) - units * (exact / units);
    }
    SumByMap(g, f, h, shares);
    SumByPermutation(g, Parts(total, shares), Order(total, shares));
  }

  /** The quadratic term beats any slope no steeper than its coefficient, at integers. */
  lemma IntegerParabola(u: int, d: int, e: int)
    requires u > 0 && -u <= e <= u
    ensures d * (u * d + e) >= 0
  {
    if d > 0 {
      MulMonotone(u, 1, d);
      MulNonNegative(d, u * d + e);
    } else if d < 0 {
      MulMonotone(u, d, -1);
      MulNonNegative(d, u * d + e);
    }
  }

  /**
    One part: moving from `bit` (0 or 1 cent above the floor) to any `y` costs at least the price
    `u * (u - 2 * theta)` per cent moved, where theta separates raised from unraised fractions.
   */
  lemma PartPrice(u: int, frac: int, theta: int, bit: int, y: int)
    requires u > 0 && 0 <= frac < u && 0 <= theta <= u
    requires (bit == 1 && frac >= theta) || (bit == 0 && frac <= theta)
    ensures Square(u * y - frac) - Square(u * bit - frac) + u * (2 * theta - u) * (y - bit) >= 0
  {
    var d := y - bit;
    var s := u * bit - frac;
    var e := 2 * s + 2 * theta - u;
    IntegerParabola(u, d, e);
    assert u * y - frac == u * d + s by { assert u * y == u * bit + u * d; }
    assert Square(u * d + s) - Square(s) == u * d * (u * d + 2 * s) by {
      var z := u * d;
      assert (z + s) * (z + s) - s * s == z * (z + 2 * s);
    }
    Regroup(u, d, s, theta, e);
    assert u * (d * (u * d + e)) >= 0;
  }

  lemma Regroup(u: int, d: int, s: int, theta: int, e: int)
    requires e == 2 * s + 2 * theta - u
    ensures u * d * (u * d + 2 * s) + u * (2 * theta - u) * d == u * (d * (u * d + e))
  {
    var z := u * d;
    assert u * (2 * theta - u) * d == z * (2 * theta - u);
    assert u * (d * (z + e)) == z * (z + e);
    assert z * (z + 2 * s) + z * (2 * theta - u) == z * (z + e);
  }

  ghost predicate Separated(s: seq<Part>, units: int, theta: int, m: map<string, int>) {
    forall p :: p in s ==> 0 <= p.frac < units && SideOf(p, theta, m)
  }

  lemma {:induction false} PriceSum(s: seq<Part>, units: int, theta: int, m: map<string, int>, other: map<string, int>)
    requires units > 0 && 0 <= theta <= units && Separated(s, units, theta, m)
    ensures SumBy(PartMiss(units, other), s) - SumBy(PartMiss(units, m), s)
          + units * (2 * theta - units) * (SumBy(PartGets(other), s) - SumBy(PartGets(m), s)) >= 0
  {
    if s != [] {
      var p := s[0];
      assert p in s && forall q :: q in s[1..] ==> q in s;
      PriceSum(s[1..], units, theta, m, other);
      PartPrice(units, p.frac, theta, At(m, p.id) - p.base, At(other, p.id) - p.base);
      var c := units * (2 * theta - units);
      var here, rest := At(other, p.id) - At(m, p.id), SumBy(PartGets(other), s[1..]) - SumBy(PartGets(m), s[1..]);
      MulSum(c, here, rest);
    }
  }

  /** The fraction of the first part that is not raised separates raised from unraised. */
  lemma Threshold(total: int, shares: seq<Share>) returns (theta: int)
    requires DistinctIds(shares) && Units(shares) > 0 && total > 0
    ensures 0 <= theta <= Units(shares)
    ensures Separated(Order(total, shares), Units(shares), theta, Split(total, shares))
  {
    var order, rem := Order(total, shares), Remainder(total, shares);
    OrderFacts(total, shares);
    RemainderIsFractions(total, shares);
    PassExhaustsRemainder(total, shares);
    theta := order[rem].frac;
    assert order[rem] in order;
    assert Split(total, shares) == Fill(order, rem);
    hide Split, Order, Remainder, Units;
    forall p | p in order ensures SideOf(p, theta, Fill(order, rem)) {
      var k :| 0 <= k < |order| && order[k] == p;
      SideOfThreshold(order, rem, k);
    }
  }

  /** A part raised by one cent has at least the threshold's fraction, one not raised at most. */
  ghost predicate SideOf(p: Part, theta: int, m: map<string, int>) {
    (At(m, p.id) - p.base == 1 && p.frac >= theta) || (At(m, p.id) - p.base == 0 && p.frac <= theta)
  }

  lemma SideOfThreshold(order: seq<Part>, rem: nat, k: nat)
    requires DistinctParts(order) && SortedBy(Goes, order) && rem < |order| && k < |order|
    ensures SideOf(order[k], order[rem].frac, Fill(order, rem))
  {
    FillAt(order, rem, k);
    hide Fill;
    assert k < rem ==> Goes(order[k], order[rem]);
    assert k > rem ==> Goes(order[rem], order[k]);
  }

  /**
    No integer allocation with the same total is closer to the exact proportions, for any number
    of shares, even when negative amounts are allowed.
   */
  lemma SplitIsOptimal(total: int, shares: seq<Share>, other: map<string, int>)
    requires DistinctIds(shares) && Units(shares) > 0 && total > 0
    requires Paid(other, shares) == total
    ensures Deviation(total, Split(total, shares), shares) <= Deviation(total, other, shares)
  {
    var units, order, mine := Units(shares), Order(total, shares), Split(total, shares);
    var theta := Threshold(total, shares);
    PriceSum(order, units, theta, mine, other);
    SplitIsExact(total, shares);
    PaidByParts(total, shares, mine);
    PaidByParts(total, shares, other);
    DeviationByParts(total, shares, mine);
    DeviationByParts(total, shares, other);
    NoMove(SumBy(PartMiss(units, other), order), SumBy(PartMiss(units, mine), order), units * (2 * theta - units),
           SumBy(PartGets(other), order), SumBy(PartGets(mine), order));
  }

  lemma NoMove(cost: int, best: int, price: int, x: int, y: int)
    requires cost - best + price * (x - y) >= 0 && x == y
    ensures best <= cost
  {
  }
}
