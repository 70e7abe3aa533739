/**
  Sorting by a comparator, and the two facts about permutations the rest of the project needs:
  a sum over a sequence does not depend on its order, and a sorted permutation is unique.
  `Sort` stands for JavaScript's `Array.prototype.sort` (stable) when the comparator is a total preorder.
 */
module Sorting {

  ghost predicate TotalPreorder<T(!new)>(le: (T, T) -> bool) {
    && (forall a, b :: le(a, b) || le(b, a))
    && (forall a, b, c :: le(a, b) && le(b, c) ==> le(a, c))
  }

  /** No two different elements of `s` are tied. */
  ghost predicate NoTies<T(!new)>(le: (T, T) -> bool, s: seq<T>) {
    forall a, b :: a in s && b in s && le(a, b) && le(b, a) ==> a == b
  }

  ghost predicate SortedBy<T(!new)>(le: (T, T) -> bool, s: seq<T>) {
    forall i, j :: 0 <= i < j < |s| ==> le(s[i], s[j])
  }

  /** Inserts `x` before the first element that may follow it. */
  function Insert<T>(le: (T, T) -> bool, x: T, s: seq<T>): (r: seq<T>)
    ensures multiset(r) == multiset{x} + multiset(s)
  {
    if s == [] || le(x, s[0]) then
      assert s == [] ==> [x] + s == [x];
      [x] + s
    else
      assert s == [s[0]] + s[1..];
      [s[0]] + Insert(le, x, s[1..])
  }

  function Sort<T>(le: (T, T) -> bool, s: seq<T>): (r: seq<T>)
    ensures multiset(r) == multiset(s)
    ensures |r| == |s|
  {
    if s == [] then []
    else
      assert s == [s[0]] + s[1..];
      var r := Insert(le, s[0], Sort(le, s[1..]));
      assert |multiset(r)| == |multiset(s)|;
      r
  }

  lemma {:induction false} InsertSorted<T(!new)>(le: (T, T) -> bool, x: T, s: seq<T>)
    requires TotalPreorder(le) && SortedBy(le, s)
    ensures SortedBy(le, Insert(le, x, s))
  {
    if s == [] {
    } else if le(x, s[0]) {
      var r := [x] + s;
      forall i, j | 0 <= i < j < |r| ensures le(r[i], r[j]) {
        if i == 0 && j > 1 { assert le(s[0], s[j - 1]); }
      }
    } else {
      InsertSorted(le, x, s[1..]);
      var tail := Insert(le, x, s[1..]);
      var r := [s[0]] + tail;
      forall i, j | 0 <= i < j < |r| ensures le(r[i], r[j]) {
        if i == 0 {
          assert tail[j - 1] in multiset(tail);
          assert tail[j - 1] == x || tail[j - 1] in s[1..];
        }
      }
    }
  }

  lemma {:induction false} SortSorted<T(!new)>(le: (T, T) -> bool, s: seq<T>)
    requires TotalPreorder(le)
    ensures SortedBy(le, Sort(le, s))
  {
    if s != [] {
      SortSorted(le, s[1..]);
      InsertSorted(le, s[0], Sort(le, s[1..]));
    }
  }

  // ----- stability -----

  function Filter<T>(p: T -> bool, s: seq<T>): seq<T> {
    if s == [] then [] else (if p(s[0]) then [s[0]] else []) + Filter(p, s[1..])
  }

  lemma {:induction false} InsertIsStable<T(!new)>(le: (T, T) -> bool, p: T -> bool, x: T, s: seq<T>)
    requires forall a, b :: p(a) && p(b) ==> le(a, b)
    ensures Filter(p, Insert(le, x, s)) == (if p(x) then [x] else []) + Filter(p, s)
  {
    if s == [] || le(x, s[0]) {
      assert ([x] + s)[1..] == s;
    } else {
      InsertIsStable(le, p, x, s[1..]);
      assert Insert(le, x, s)[1..] == Insert(le, x, s[1..]);
    }
  }

  /** Elements that are tied with each other stay in the order in which they came. */
  lemma {:induction false} SortIsStable<T(!new)>(le: (T, T) -> bool, p: T -> bool, s: seq<T>)
    requires forall a, b :: p(a) && p(b) ==> le(a, b)
    ensures Filter(p, Sort(le, s)) == Filter(p, s)
  {
    if s != [] {
      SortIsStable(le, p, s[1..]);
      InsertIsStable(le, p, s[0], Sort(le, s[1..]));
    }
  }

  lemma SameMembers<T>(a: seq<T>, b: seq<T>)
    requires multiset(a) == multiset(b)
    ensures |a| == |b|
    ensures forall x :: x in a <==> x in b
  {
    assert |multiset(a)| == |a| && |multiset(b)| == |b|;
    forall x ensures x in a <==> x in b {
      assert x in a <==> x in multiset(a);
      assert x in b <==> x in multiset(b);
    }
  }

  lemma SortedHead<T(!new)>(le: (T, T) -> bool, a: seq<T>, b: seq<T>)
    requires TotalPreorder(le) && NoTies(le, a) && a != []
    requires SortedBy(le, a) && SortedBy(le, b) && multiset(a) == multiset(b)
    ensures b != [] && a[0] == b[0]
  {
    SameMembers(a, b);
    assert a[0] in b && b[0] in a;
    assert le(a[0], a[0]);
    assert le(a[0], b[0]) && le(b[0], a[0]);
  }

  lemma SortedTail<T(!new)>(le: (T, T) -> bool, s: seq<T>)
    requires SortedBy(le, s) && s != []
    ensures SortedBy(le, s[1..])
  {
  }

  lemma NoTiesTail<T(!new)>(le: (T, T) -> bool, s: seq<T>)
    requires NoTies(le, s) && s != []
    ensures NoTies(le, s[1..])
  {
    assert forall x :: x in s[1..] ==> x in s;
  }

  /** A sequence has only one sorted rearrangement when the order ties no two of its elements. */
  lemma {:induction false} SortedUnique<T(!new)>(le: (T, T) -> bool, a: seq<T>, b: seq<T>)
    requires TotalPreorder(le) && NoTies(le, a)
    requires SortedBy(le, a) && SortedBy(le, b) && multiset(a) == multiset(b)
    ensures a == b
  {
    hide SortedBy, NoTies, TotalPreorder;
    if a == [] {
      SameMembers(a, b);
    } else {
      SortedHead(le, a, b);
      TailMultiset(a);
      TailMultiset(b);
      SortedTail(le, a);
      SortedTail(le, b);
      NoTiesTail(le, a);
      SortedUnique(le, a[1..], b[1..]);
      assert a == [a[0]] + a[1..] && b == [b[0]] + b[1..];
    }
  }

  lemma TailMultiset<T>(s: seq<T>)
    requires s != []
    ensures multiset(s) == multiset{s[0]} + multiset(s[1..])
    ensures multiset(s[1..]) == multiset(s) - multiset{s[0]}
  {
    assert s == [s[0]] + s[1..];
  }

  function Members(s: seq<int>): set<int> {
    set x | x in s
  }

  /** The order of numbers, as a comparator. */
  predicate AtMost(a: int, b: int) { a <= b }

  predicate Distinct<T(==)>(s: seq<T>) {
    forall i, j :: 0 <= i < j < |s| ==> s[i] != s[j]
  }

  lemma SomeMember<T>(s: seq<T>)
    requires s != []
    ensures exists x :: x in s
  {
    assert s[0] in s;
  }

  lemma DistinctRest<T>(s: seq<T>)
    requires Distinct(s) && s != []
    ensures Distinct(s[1..]) && s[0] !in s[1..]
  {
    var rest := s[1..];
    forall i, j | 0 <= i < j < |rest| ensures rest[i] != rest[j] { assert s[i + 1] != s[j + 1]; }
    forall i | 0 <= i < |rest| ensures rest[i] != s[0] { assert s[i + 1] != s[0]; }
  }

  lemma DistinctCons<T>(x: T, s: seq<T>)
    requires Distinct(s) && x !in s
    ensures Distinct([x] + s)
  {
  }

  lemma {:induction false} DistinctCounts<T>(s: seq<T>)
    ensures Distinct(s) <==> forall x :: multiset(s)[x] <= 1
  {
    if s != [] {
      TailMultiset(s);
      DistinctCounts(s[1..]);
      assert s[0] in s[1..] <==> s[0] in multiset(s[1..]);
      if Distinct(s) {
        forall i, j | 0 <= i < j < |s[1..]| ensures s[1..][i] != s[1..][j] {
          assert s[i + 1] != s[j + 1];
        }
      } else {
        var i, j :| 0 <= i < j < |s| && s[i] == s[j];
        if i == 0 {
          assert s[1..][j - 1] == s[0];
          assert multiset(s)[s[0]] >= 2;
        } else {
          assert s[1..][i - 1] == s[1..][j - 1];
          var x :| multiset(s[1..])[x] > 1;
          assert multiset(s)[x] > 1;
        }
      }
    }
  }

  lemma DistinctPermutation<T>(a: seq<T>, b: seq<T>)
    requires multiset(a) == multiset(b) && Distinct(a)
    ensures Distinct(b)
  {
    DistinctCounts(a);
    DistinctCounts(b);
  }

  lemma SortPermutation<T(!new)>(le: (T, T) -> bool, a: seq<T>, b: seq<T>)
    requires TotalPreorder(le) && NoTies(le, a) && multiset(a) == multiset(b)
    ensures Sort(le, a) == Sort(le, b)
  {
    SortSorted(le, a);
    SortSorted(le, b);
    SameMembers(a, Sort(le, a));
    SortedUnique(le, Sort(le, a), Sort(le, b));
  }

  function SumBy<T>(f: T -> int, s: seq<T>): int {
    if s == [] then 0 else f(s[0]) + SumBy(f, s[1..])
  }

  lemma {:induction false} SumByConcat<T>(f: T -> int, a: seq<T>, b: seq<T>)
    ensures SumBy(f, a + b) == SumBy(f, a) + SumBy(f, b)
  {
    if a == [] {
      assert a + b == b;
    } else {
      assert (a + b)[1..] == a[1..] + b;
      SumByConcat(f, a[1..], b);
    }
  }

  /** Finds the first element of `a` in a rearrangement, and takes it out of both. */
  lemma TakeOut<T>(a: seq<T>, b: seq<T>) returns (front: seq<T>, back: seq<T>)
    requires a != [] && multiset(a) == multiset(b)
    ensures b == front + ([a[0]] + back)
    ensures multiset(a[1..]) == multiset(front + back)
  {
    TailMultiset(a);
    assert a[0] in multiset(b);
    var j :| 0 <= j < |b| && b[j] == a[0];
    front, back := b[..j], b[j + 1..];
    assert b == front + ([a[0]] + back);
  }

  lemma SumByCons<T>(f: T -> int, x: T, s: seq<T>)
    ensures SumBy(f, [x] + s) == f(x) + SumBy(f, s)
  {
    assert ([x] + s)[1..] == s;
  }

  lemma SumAround<T>(f: T -> int, front: seq<T>, x: T, back: seq<T>)
    ensures SumBy(f, front + ([x] + back)) == SumBy(f, front + back) + f(x)
  {
    SumByConcat(f, front, [x] + back);
    SumByCons(f, x, back);
    SumByConcat(f, front, back);
  }

  lemma {:induction false} SumByPermutation<T>(f: T -> int, a: seq<T>, b: seq<T>)
    requires multiset(a) == multiset(b)
    ensures SumBy(f, a) == SumBy(f, b)
  {
    if a == [] {
      SameMembers(a, b);
    } else {
      var front, back := TakeOut(a, b);
      SumByPermutation(f, a[1..], front + back);
      SumAround(f, front, a[0], back);
    }
  }

  function MapSeq<A, B>(f: A -> B, s: seq<A>): (r: seq<B>)
    ensures |r| == |s| && forall i :: 0 <= i < |s| ==> r[i] == f(s[i])
  {
    seq(|s|, i requires 0 <= i < |s| => f(s[i]))
  }

  /** The multiset built by mapping one element at a time. */
  ghost function Image<A, B>(f: A -> B, s: seq<A>): multiset<B> {
    if s == [] then multiset{} else multiset{f(s[0])} + Image(f, s[1..])
  }

  lemma {:induction false} ImageIsMap<A, B>(f: A -> B, s: seq<A>)
    ensures multiset(MapSeq(f, s)) == Image(f, s)
  {
    if s != [] {
      ImageIsMap(f, s[1..]);
      assert MapSeq(f, s) == [f(s[0])] + MapSeq(f, s[1..]);
    }
  }

  lemma {:induction false} ImageConcat<A, B>(f: A -> B, a: seq<A>, b: seq<A>)
    ensures Image(f, a + b) == Image(f, a) + Image(f, b)
  {
    if a == [] {
      assert a + b == b;
    } else {
      assert (a + b)[1..] == a[1..] + b;
      ImageConcat(f, a[1..], b);
    }
  }

  lemma ImageCons<A, B>(f: A -> B, x: A, s: seq<A>)
    ensures Image(f, [x] + s) == multiset{f(x)} + Image(f, s)
  {
    assert ([x] + s)[1..] == s;
  }

  lemma ImageAround<A, B>(f: A -> B, front: seq<A>, x: A, back: seq<A>)
    ensures Image(f, front + ([x] + back)) == Image(f, front + back) + multiset{f(x)}
  {
    ImageConcat(f, front, [x] + back);
    ImageCons(f, x, back);
    ImageConcat(f, front, back);
    Regroup(Image(f, front), multiset{f(x)}, Image(f, back));
  }

  lemma Regroup<B>(a: multiset<B>, b: multiset<B>, c: multiset<B>)
    ensures a + (b + c) == (a + c) + b
  {
  }

  lemma {:induction false} ImagePermutation<A, B>(f: A -> B, a: seq<A>, b: seq<A>)
    requires multiset(a) == multiset(b)
    ensures Image(f, a) == Image(f, b)
  {
    if a == [] {
      SameMembers(a, b);
    } else {
      var front, back := TakeOut(a, b);
      ImagePermutation(f, a[1..], front + back);
      ImageAround(f, front, a[0], back);
    }
  }

  lemma MapPermutation<A, B>(f: A -> B, a: seq<A>, b: seq<A>)
    requires multiset(a) == multiset(b)
    ensures multiset(MapSeq(f, a)) == multiset(MapSeq(f, b))
  {
    ImagePermutation(f, a, b);
    ImageIsMap(f, a);
    ImageIsMap(f, b);
  }

  lemma {:induction false} SumByMap<A, B>(g: B -> int, f: A -> B, h: A -> int, s: seq<A>)
    requires forall i :: 0 <= i < |s| ==> g(f(s[i])) == h(s[i])
    ensures SumBy(g, MapSeq(f, s)) == SumBy(h, s)
  {
    if s != [] {
      assert MapSeq(f, s)[1..] == MapSeq(f, s[1..]);
      SumByMap(g, f, h, s[1..]);
    }
  }

  /** The lists `f` gives for each element, one after the other. */
  function FlatMap<A, B>(f: A -> seq<B>, s: seq<A>): seq<B> {
    if s == [] then [] else f(s[0]) + FlatMap(f, s[1..])
  }

  lemma {:induction false} FlatMapConcat<A, B>(f: A -> seq<B>, a: seq<A>, b: seq<A>)
    ensures FlatMap(f, a + b) == FlatMap(f, a) + FlatMap(f, b)
  {
    if a == [] {
      assert a + b == b;
    } else {
      assert (a + b)[1..] == a[1..] + b;
      FlatMapConcat(f, a[1..], b);
    }
  }

  /** One more element at the end of a loop. */
  lemma FlatMapNext<A, B>(f: A -> seq<B>, s: seq<A>, i: nat)
    requires i < |s|
    ensures FlatMap(f, s[..i + 1]) == FlatMap(f, s[..i]) + f(s[i])
  {
    assert s[..i + 1] == s[..i] + [s[i]];
    FlatMapConcat(f, s[..i], [s[i]]);
    assert [s[i]][1..] == [];
    assert FlatMap(f, [s[i]]) == f(s[i]) + [];
  }

  lemma MapSeqNext<A, B>(f: A -> B, s: seq<A>, i: nat)
    requires i < |s|
    ensures MapSeq(f, s[..i + 1]) == MapSeq(f, s[..i]) + [f(s[i])]
  {
  }

  lemma SumByNext<A>(f: A -> int, s: seq<A>, i: nat)
    requires i < |s|
    ensures SumBy(f, s[..i + 1]) == SumBy(f, s[..i]) + f(s[i])
  {
    assert s[..i + 1] == s[..i] + [s[i]];
    SumByConcat(f, s[..i], [s[i]]);
  }

  /** Two sums agree when their terms do. */
  lemma {:induction false} SumByEqual<T>(f: T -> int, g: T -> int, s: seq<T>)
    requires forall i :: 0 <= i < |s| ==> f(s[i]) == g(s[i])
    ensures SumBy(f, s) == SumBy(g, s)
  {
    if s != [] { SumByEqual(f, g, s[1..]); }
  }
}
