/**
  Division of a prize among shares by largest remainder (packages/shared-types/src/settlement.ts).
  All amounts are whole cents. A share's exact entitlement is total * quantity / units, kept as the
  pair (base, frac) with total * quantity == units * base + frac, so comparing `frac` compares fractions.
 */
module PrizeSplit {
  import opened Arithmetic
  import opened Sorting

  datatype Share = Share(id: string, quantity: int)
  datatype Part = Part(id: string, base: int, frac: int)

  /** A negative quantity weighs nothing. */
  function Weight(s: Share): int {
    if s.quantity > 0 then s.quantity else 0
  }

  /** The larger of the quantity and zero. */
  lemma WeightIsAtLeastZero(s: Share)
    ensures Weight(s) >= 0 && Weight(s) >= s.quantity && (Weight(s) == 0 || Weight(s) == s.quantity)
  {
  }

  function Units(shares: seq<Share>): int {
    SumBy(Weight, shares)
  }

  function PartOf(total: int, units: int): Share -> Part
    requires units > 0
  {
    (s: Share) => Part(s.id, total * Weight(s) / units, total * Weight(s) % units)
  }

  function Parts(total: int, shares: seq<Share>): seq<Part>
    requires Units(shares) > 0
  {
    MapSeq(PartOf(total, Units(shares)), shares)
  }

  function Base(p: Part): int { p.base }

  function Frac(p: Part): int { p.frac }

  /** String order by character code. */
  predicate LexLe(a: string, b: string) {
    a == [] || (b != [] && (a[0] < b[0] || (a[0] == b[0] && LexLe(a[1..], b[1..]))))
  }

  /** The first difference is at `k`, and there `a` has the smaller character. */
  ghost predicate SmallerAt(a: string, b: string, k: int) {
    0 <= k < |a| && k < |b| && a[..k] == b[..k] && a[k] < b[k]
  }

  /** `a` is a prefix of `b`, or has the smaller character where they first differ. */
  ghost predicate Precedes(a: string, b: string) {
    a <= b || exists k :: SmallerAt(a, b, k)
  }

  lemma SmallerLater(c: char, x: string, y: string, k: nat)
    ensures SmallerAt([c] + x, [c] + y, k + 1) <==> SmallerAt(x, y, k)
  {
    var a, b := [c] + x, [c] + y;
    if k <= |x| && k <= |y| {
      assert a[..k + 1] == [c] + x[..k] && b[..k + 1] == [c] + y[..k];
      assert a[..k + 1][1..] == x[..k] && b[..k + 1][1..] == y[..k];
    }
  }

  lemma PrecedesAfterSame(c: char, x: string, y: string)
    ensures Precedes([c] + x, [c] + y) <==> Precedes(x, y)
  {
    var a, b := [c] + x, [c] + y;
    assert a[1..] == x && b[1..] == y && (a <= b <==> x <= y);
    assert !SmallerAt(a, b, 0);
    forall k: nat ensures SmallerAt(a, b, k + 1) <==> SmallerAt(x, y, k) { SmallerLater(c, x, y, k); }
    if k :| SmallerAt(a, b, k) {
      assert k > 0 && SmallerAt(x, y, k - 1);
    }
    hide SmallerAt;
  }

  lemma PrecedesByFirst(a: string, b: string)
    requires a != [] && b != [] && a[0] != b[0]
    ensures Precedes(a, b) <==> a[0] < b[0]
  {
    assert a[..0] == b[..0];
    assert SmallerAt(a, b, 0) <==> a[0] < b[0];
    assert forall k :: 0 < k <= |a| && k <= |b| ==> a[..k][0] == a[0] && b[..k][0] == b[0];
  }

  lemma {:induction false} LexLeMeans(a: string, b: string)
    ensures LexLe(a, b) <==> Precedes(a, b)
  {
    if a != [] && b != [] {
      if a[0] == b[0] {
        LexLeMeans(a[1..], b[1..]);
        PrecedesAfterSame(a[0], a[1..], b[1..]);
        assert a == [a[0]] + a[1..] && b == [b[0]] + b[1..];
        hide Precedes;
      } else {
        PrecedesByFirst(a, b);
      }
    }
  }

  /** The comparator: larger fraction first, then smaller id. */
  predicate Goes(a: Part, b: Part) {
    a.frac > b.frac || (a.frac == b.frac && LexLe(a.id, b.id))
  }

  function IdOf(s: Share): string { s.id }

  function PartId(p: Part): string { p.id }

  predicate DistinctIds(shares: seq<Share>) {
    Distinct(MapSeq(IdOf, shares))
  }

  ghost predicate DistinctParts(parts: seq<Part>) {
    Distinct(MapSeq(PartId, parts))
  }

  function Ids(shares: seq<Share>): set<string> {
    set s | s in shares :: s.id
  }

  /** One pass over `order`: a cent to each part while any is left. */
  function Fill(order: seq<Part>, remainder: int): map<string, int> {
    if order == [] then map[]
    else Fill(order[1..], remainder - 1)[order[0].id := order[0].base + if remainder > 0 then 1 else 0]
  }

  function Remainder(total: int, shares: seq<Share>): int
    requires Units(shares) > 0
  {
    total - SumBy(Base, Parts(total, shares))
  }

  function Order(total: int, shares: seq<Share>): seq<Part>
    requires Units(shares) > 0
  {
    Sort(Goes, Parts(total, shares))
  }

  /** What each share receives, in cents. */
  function Split(total: int, shares: seq<Share>): map<string, int> {
    if Units(shares) <= 0 || total <= 0 then map id | id in Ids(shares) :: 0
    else Fill(Order(total, shares), Remainder(total, shares))
  }

  /** The pass itself: the parts' bases, kept by id, are raised in place in the sorted order. */
  method RaiseInOrder(order: seq<Part>, remainderCents: int) returns (base: map<string, int>)
    requires DistinctParts(order)
    ensures base == Fill(order, remainderCents)
  {
    base := Fill(order, 0);
    var remainder := remainderCents;
    var k := 0;
    forall j | 0 <= j < |order| ensures order[j].id in base && base[order[j].id] == order[j].base {
      FillAt(order, 0, j);
    }
    while k < |order| && remainder > 0
      invariant 0 <= k <= |order|
      invariant remainder == remainderCents - k
      invariant k == 0 || 0 <= remainder
      invariant base.Keys == Fill(order, 0).Keys
      invariant forall j :: 0 <= j < |order| ==> order[j].id in base
      invariant forall j :: 0 <= j < |order| ==> base[order[j].id] == order[j].base + if j < k then 1 else 0
    {
      ghost var ids := MapSeq(PartId, order);
      assert forall j :: 0 <= j < |order| && j != k ==> ids[j] != ids[k];
      base := base[order[k].id := base[order[k].id] + 1];
      remainder := remainder - 1;
      k := k + 1;
    }
    FillIs(order, remainderCents, base);
  }

  /** Copies the parts into the answer, one entry per part. */
  method Collect(parts: seq<Part>, base: map<string, int>) returns (out: map<string, int>)
    requires base.Keys == set p | p in parts :: p.id
    ensures out == base
  {
    out := map[];
    for i := 0 to |parts|
      invariant forall j :: 0 <= j < i ==> parts[j].id in out
      invariant forall id :: id in out ==> id in base && out[id] == base[id]
    {
      out := out[parts[i].id := base[parts[i].id]];
    }
  }

  method AllZero(shares: seq<Share>) returns (out: map<string, int>)
    ensures out == map id | id in Ids(shares) :: 0
  {
    out := map[];
    for i := 0 to |shares|
      invariant forall j :: 0 <= j < i ==> shares[j].id in out
      invariant forall id :: id in out ==> id in Ids(shares) && out[id] == 0
    {
      out := out[shares[i].id := 0];
    }
  }

  /** The imperative division. */
  method SplitPrize(total: int, shares: seq<Share>) returns (out: map<string, int>)
    requires DistinctIds(shares)
    ensures out == Split(total, shares)
  {
    if Units(shares) <= 0 || total <= 0 {
      out := AllZero(shares);
      return;
    }
    var parts := Parts(total, shares);
    var remainder := total - SumBy(Base, parts);
    var order := Sort(Goes, parts);
    OrderFacts(total, shares);
    var base := RaiseInOrder(order, remainder);
    FillKeys(order, remainder);
    out := Collect(parts, base);
  }

  // ----- the comparator is a total order -----

  lemma {:induction false} LexTotal(a: string, b: string)
    ensures LexLe(a, b) || LexLe(b, a)
    ensures LexLe(a, b) && LexLe(b, a) ==> a == b
  {
    if a != [] && b != [] && a[0] == b[0] {
      LexTotal(a[1..], b[1..]);
      assert a == [a[0]] + a[1..] && b == [b[0]] + b[1..];
    }
  }

  lemma {:induction false} LexTransitive(a: string, b: string, c: string)
    requires LexLe(a, b) && LexLe(b, c)
    ensures LexLe(a, c)
  {
    if a != [] && a[0] == b[0] && b[0] == c[0] { LexTransitive(a[1..], b[1..], c[1..]); }
  }

  lemma GoesIsOrder()
    ensures TotalPreorder(Goes)
  {
    forall a: Part, b: Part ensures Goes(a, b) || Goes(b, a) { LexTotal(a.id, b.id); }
    forall a: Part, b: Part, c: Part | Goes(a, b) && Goes(b, c) ensures Goes(a, c) {
      if a.frac == b.frac == c.frac { LexTransitive(a.id, b.id, c.id); }
    }
  }

  lemma NoTiesAmongParts(parts: seq<Part>)
    requires DistinctParts(parts)
    ensures NoTies(Goes, parts)
  {
    forall a, b | a in parts && b in parts && Goes(a, b) && Goes(b, a) ensures a == b {
      LexTotal(a.id, b.id);
      var i :| 0 <= i < |parts| && parts[i] == a;
      var j :| 0 <= j < |parts| && parts[j] == b;
      assert MapSeq(PartId, parts)[i] == MapSeq(PartId, parts)[j];
    }
  }

  // ----- the pass over the order -----

  lemma {:induction false} FillKeys(order: seq<Part>, remainder: int)
    ensures Fill(order, remainder).Keys == set p | p in order :: p.id
  {
    if order != [] {
      FillKeys(order[1..], remainder - 1);
      assert order == [order[0]] + order[1..];
    }
  }

  lemma DistinctTail(order: seq<Part>)
    requires DistinctParts(order) && order != []
    ensures DistinctParts(order[1..])
    ensures forall p :: p in order[1..] ==> p.id != order[0].id
  {
    var ids := MapSeq(PartId, order);
    assert MapSeq(PartId, order[1..]) == ids[1..];
    forall p | p in order[1..] ensures p.id != order[0].id {
      var i :| 0 <= i < |order[1..]| && order[1..][i] == p;
      assert ids[i + 1] == p.id && ids[0] == order[0].id;
    }
  }

  lemma {:induction false} FillAt(order: seq<Part>, remainder: int, k: nat)
    requires DistinctParts(order) && k < |order|
    ensures order[k].id in Fill(order, remainder)
    ensures Fill(order, remainder)[order[k].id] == order[k].base + if k < remainder then 1 else 0
  {
    DistinctTail(order);
    if k > 0 {
      FillAt(order[1..], remainder - 1, k - 1);
      assert order[1..][k - 1] == order[k];
    }
  }

  /** `Fill` is the only map with these keys and these values. */
  lemma FillIs(order: seq<Part>, remainder: int, m: map<string, int>)
    requires DistinctParts(order)
    requires m.Keys == Fill(order, 0).Keys
    requires forall j :: 0 <= j < |order| ==> order[j].id in m && m[order[j].id] == order[j].base + if j < remainder then 1 else 0
    ensures m == Fill(order, remainder)
  {
    FillKeys(order, 0);
    FillKeys(order, remainder);
    forall id | id in m ensures m[id] == Fill(order, remainder)[id] {
      var p :| p in order && p.id == id;
      var j :| 0 <= j < |order| && order[j] == p;
      FillAt(order, remainder, j);
    }
  }

  /** What sorting keeps of the parts. */
  lemma OrderFacts(total: int, shares: seq<Share>)
    requires DistinctIds(shares) && Units(shares) > 0
    ensures DistinctParts(Parts(total, shares)) && DistinctParts(Order(total, shares))
    ensures multiset(Order(total, shares)) == multiset(Parts(total, shares))
    ensures SortedBy(Goes, Order(total, shares))
    ensures forall p :: p in Order(total, shares) <==> p in Parts(total, shares)
  {
    var parts, order := Parts(total, shares), Order(total, shares);
    GoesIsOrder();
    SortSorted(Goes, parts);
    assert MapSeq(PartId, parts) == MapSeq(IdOf, shares);
    MapPermutation(PartId, parts, order);
    DistinctPermutation(MapSeq(PartId, parts), MapSeq(PartId, order));
    SameMembers(parts, order);
  }

  // ----- the parts before the pass -----

  function Exact(units: int): Part -> int { (p: Part) => units * p.base + p.frac }

  lemma {:induction false} LinearSum(units: int, s: seq<Part>)
    ensures SumBy(Exact(units), s) == units * SumBy(Base, s) + SumBy(Frac, s)
  {
    if s != [] { LinearSum(units, s[1..]); }
  }

  lemma ExactPart(total: int, units: int, s: Share)
    requires units > 0
    ensures Exact(units)(PartOf(total, units)(s)) == total * Weight(s)
  {
    DivBracket(total * Weight(s), units);
  }

  lemma {:induction false} WeightedSum(total: int, units: int, s: seq<Share>)
    requires units > 0
    ensures SumBy(Exact(units), MapSeq(PartOf(total, units), s)) == total * SumBy(Weight, s)
  {
    if s != [] {
      WeightedSum(total, units, s[1..]);
      ExactPart(total, units, s[0]);
      assert MapSeq(PartOf(total, units), s)[1..] == MapSeq(PartOf(total, units), s[1..]);
      MulSum(total, Weight(s[0]), SumBy(Weight, s[1..]));
    }
  }

  ghost predicate Fractions(units: int, s: seq<Part>) {
    forall p :: p in s ==> 0 <= p.frac < units
  }

  /** The fractions add up to exactly `remainder` whole units. */
  lemma RemainderIsFractions(total: int, shares: seq<Share>)
    requires Units(shares) > 0
    ensures Fractions(Units(shares), Order(total, shares))
    ensures SumBy(Frac, Order(total, shares)) == Units(shares) * Remainder(total, shares)
    ensures SumBy(Base, Order(total, shares)) == total - Remainder(total, shares)
  {
    var units, parts, order := Units(shares), Parts(total, shares), Order(total, shares);
    WeightedSum(total, units, shares);
    LinearSum(units, parts);
    SumByPermutation(Frac, parts, order);
    SumByPermutation(Base, parts, order);
    FractionsOfParts(total, units, shares);
    SameMembers(parts, order);
    Difference(total, units, SumBy(Base, parts), SumBy(Frac, parts));
  }

  lemma FractionsOfParts(total: int, units: int, shares: seq<Share>)
    requires units > 0
    ensures Fractions(units, MapSeq(PartOf(total, units), shares))
  {
  }

  lemma Difference(total: int, units: int, bases: int, fracs: int)
    requires units * bases + fracs == total * units
    ensures fracs == units * (total - bases)
  {
  }

  lemma {:induction false} FractionBound(units: int, s: seq<Part>)
    requires Fractions(units, s) && units > 0
    ensures 0 <= SumBy(Frac, s) <= (units - 1) * |s|
  {
    if s != [] {
      assert forall p :: p in s[1..] ==> p in s;
      FractionBound(units, s[1..]);
      assert s[0] in s;
      MulSum(units - 1, 1, |s| - 1);
    }
  }

  lemma {:induction false} ZeroFractions(s: seq<Part>)
    requires forall p :: p in s ==> p.frac == 0
    ensures SumBy(Frac, s) == 0
  {
    if s != [] {
      assert forall p :: p in s[1..] ==> p in s;
      assert s[0] in s;
      ZeroFractions(s[1..]);
    }
  }

  lemma NoFractionsAfter(units: int, order: seq<Part>, k: nat)
    requires Fractions(units, order) && SortedBy(Goes, order) && k < |order| && order[k].frac == 0
    ensures forall p :: p in order[k..] ==> p.frac == 0
  {
    var back := order[k..];
    forall p | p in back ensures p.frac == 0 {
      var j :| 0 <= j < |back| && back[j] == p;
      assert order[k + j] == p;
      assert j > 0 ==> Goes(order[k], order[k + j]);
      assert p in order;
    }
  }

  /** If the part at `k` is already exact, so are the parts after it, and the remainder is below `k`. */
  lemma ExactPartStops(units: int, order: seq<Part>, rem: int, k: nat)
    requires units > 0 && Fractions(units, order) && SortedBy(Goes, order)
    requires SumBy(Frac, order) == units * rem
    requires k < |order| && order[k].frac == 0
    ensures rem <= k
  {
    var front, back := order[..k], order[k..];
    NoFractionsAfter(units, order, k);
    ZeroFractions(back);
    FrontBound(units, order, k);
    SumByConcat(Frac, front, back);
    assert order == front + back;
    hide SortedBy, Fractions, SumBy;
    RoundDown(units, rem, k);
  }

  lemma FrontBound(units: int, order: seq<Part>, k: nat)
    requires units > 0 && Fractions(units, order) && k <= |order|
    ensures 0 <= SumBy(Frac, order[..k]) <= (units - 1) * k
  {
    assert forall p :: p in order[..k] ==> p in order;
    FractionBound(units, order[..k]);
  }

  /** One pass over the order is enough, and no cent goes to a part whose share was already exact. */
  lemma PassExhaustsRemainder(total: int, shares: seq<Share>)
    requires Units(shares) > 0
    ensures 0 <= Remainder(total, shares) < |shares|
    ensures forall k :: 0 <= k < Remainder(total, shares) ==> Order(total, shares)[k].frac > 0
  {
    var units, order, rem := Units(shares), Order(total, shares), Remainder(total, shares);
    RemainderIsFractions(total, shares);
    FractionBound(units, order);
    assert |order| == |shares| && shares != [];
    RoundDown(units, rem, |order|);
    GoesIsOrder();
    SortSorted(Goes, Parts(total, shares));
    forall k | 0 <= k < rem ensures order[k].frac > 0 {
      assert order[k] in order;
      if order[k].frac == 0 { ExactPartStops(units, order, rem, k); }
    }
  }

  lemma RoundDown(units: int, rem: int, n: int)
    requires units > 0 && n >= 0
    requires 0 <= units * rem <= (units - 1) * n
    ensures 0 <= rem && (rem < n || rem == n == 0)
  {
    if rem < 0 { MulMonotone(units, rem, -1); }
    if rem >= n {
      MulMonotone(units, n, rem);
      assert units * n == (units - 1) * n + n;
    }
  }
}
