/** Sorting by a total order: the result is a sorted permutation, which the order may determine. */
module Sorting {

  ghost predicate TotalOrder<T(!new)>(le: (T, T) -> bool) {
    && (forall x, y :: le(x, y) || le(y, x))
    && (forall x, y, z :: le(x, y) && le(y, z) ==> le(x, z))
  }

  ghost predicate SortedBy<T>(le: (T, T) -> bool, xs: seq<T>) {
    forall i, j | 0 <= i < j < |xs| :: le(xs[i], xs[j])
  }

  function Insert<T>(le: (T, T) -> bool, x: T, xs: seq<T>): (r: seq<T>)
    ensures |r| == |xs| + 1
  {
    if xs == [] || le(x, xs[0]) then [x] + xs else [xs[0]] + Insert(le, x, xs[1..])
  }

  /** A sorted permutation of the input. */
  function Sort<T>(le: (T, T) -> bool, xs: seq<T>): (r: seq<T>)
    ensures |r| == |xs|
  {
    if xs == [] then [] else Insert(le, xs[0], Sort(le, xs[1..]))
  }

  lemma {:induction false} InsertMembers<T>(le: (T, T) -> bool, x: T, xs: seq<T>)
    ensures multiset(Insert(le, x, xs)) == multiset(xs) + multiset{x}
  {
    if xs == [] || le(x, xs[0]) {
      assert multiset([x] + xs) == multiset{x} + multiset(xs);
    } else {
      InsertMembers(le, x, xs[1..]);
      assert xs == [xs[0]] + xs[1..];
    }
  }

  lemma {:induction false} SortMembers<T>(le: (T, T) -> bool, xs: seq<T>)
    ensures multiset(Sort(le, xs)) == multiset(xs)
    ensures forall x :: x in Sort(le, xs) <==> x in xs
  {
    if xs != [] {
      SortMembers(le, xs[1..]);
      InsertMembers(le, xs[0], Sort(le, xs[1..]));
      assert xs == [xs[0]] + xs[1..];
    }
    forall x
      ensures x in Sort(le, xs) <==> x in xs
    {
      assert x in Sort(le, xs) <==> x in multiset(Sort(le, xs));
      assert x in xs <==> x in multiset(xs);
    }
  }

  lemma {:induction false} InsertSorted<T(!new)>(le: (T, T) -> bool, x: T, xs: seq<T>)
    requires TotalOrder(le) && SortedBy(le, xs)
    ensures SortedBy(le, Insert(le, x, xs))
  {
    if xs == [] || le(x, xs[0]) {
    } else {
      InsertSorted(le, x, xs[1..]);
      var rest := Insert(le, x, xs[1..]);
      InsertMembers(le, x, xs[1..]);
      forall j | 0 <= j < |rest|
        ensures le(xs[0], rest[j])
      {
        assert rest[j] in multiset(rest);
        if rest[j] != x {
          assert rest[j] in xs[1..];
        }
      }
    }
  }

  lemma {:induction false} SortSorted<T(!new)>(le: (T, T) -> bool, xs: seq<T>)
    requires TotalOrder(le)
    ensures SortedBy(le, Sort(le, xs))
  {
    if xs != [] {
      SortSorted(le, xs[1..]);
      InsertSorted(le, xs[0], Sort(le, xs[1..]));
    }
  }

  lemma RestMembers<T>(xs: seq<T>)
    requires |xs| > 0
    ensures multiset(xs[1..]) == multiset(xs) - multiset{xs[0]}
  {
    assert xs == [xs[0]] + xs[1..];
  }

  lemma SameLeast<T(!new)>(le: (T, T) -> bool, xs: seq<T>, ys: seq<T>)
    requires TotalOrder(le) && (forall x, y :: le(x, y) && le(y, x) ==> x == y)
    requires SortedBy(le, xs) && SortedBy(le, ys) && multiset(xs) == multiset(ys)
    requires |xs| > 0 && |ys| > 0
    ensures xs[0] == ys[0]
  {
    assert xs[0] in multiset(ys) && ys[0] in multiset(xs);
    assert xs[0] in ys && ys[0] in xs;
    assert le(xs[0], xs[0]) && le(ys[0], ys[0]);
  }

  /** When the order tells any two values apart, a sorted permutation is unique. */
  lemma {:induction false} SortedUnique<T(!new)>(le: (T, T) -> bool, xs: seq<T>, ys: seq<T>)
    requires TotalOrder(le) && (forall x, y :: le(x, y) && le(y, x) ==> x == y)
    requires SortedBy(le, xs) && SortedBy(le, ys) && multiset(xs) == multiset(ys)
    ensures xs == ys
  {
    if xs == [] {
      assert |multiset(ys)| == 0;
    } else {
      assert |multiset(xs)| == |xs| && |multiset(ys)| == |ys|;
      SameLeast(le, xs, ys);
      RestMembers(xs);
      RestMembers(ys);
      SortedUnique(le, xs[1..], ys[1..]);
      assert xs == [xs[0]] + xs[1..] && ys == [ys[0]] + ys[1..];
    }
  }

  /** Sorting forgets the order of the input. */
  lemma SortPermutation<T(!new)>(le: (T, T) -> bool, xs: seq<T>, ys: seq<T>)
    requires TotalOrder(le) && (forall x, y :: le(x, y) && le(y, x) ==> x == y)
    requires multiset(xs) == multiset(ys)
    ensures Sort(le, xs) == Sort(le, ys)
  {
    SortMembers(le, xs);
    SortMembers(le, ys);
    SortSorted(le, xs);
    SortSorted(le, ys);
    SortedUnique(le, Sort(le, xs), Sort(le, ys));
  }

  /** Any two different positions hold values that are apart. */
  ghost predicate Pairwise<T>(apart: (T, T) -> bool, xs: seq<T>) {
    forall i, j | 0 <= i < j < |xs| :: apart(xs[i], xs[j])
  }

  lemma {:induction false} OccursTwice<T>(xs: seq<T>, x: T) returns (i: nat, j: nat)
    requires multiset(xs)[x] >= 2
    ensures i < j < |xs| && xs[i] == x && xs[j] == x
  {
    assert xs == [xs[0]] + xs[1..];
    if xs[0] == x {
      assert x in multiset(xs[1..]);
      j :| 0 <= j < |xs[1..]| && xs[1..][j] == x;
      i, j := 0, j + 1;
    } else {
      i, j := OccursTwice(xs[1..], x);
      i, j := i + 1, j + 1;
    }
  }

  lemma {:induction false} CountsTwice<T>(xs: seq<T>, i: nat, j: nat)
    requires i < j < |xs| && xs[i] == xs[j]
    ensures multiset(xs)[xs[i]] >= 2
  {
    assert xs == xs[..j] + [xs[j]] + xs[j + 1..];
    assert xs[i] in xs[..j];
    assert multiset(xs) == multiset(xs[..j]) + multiset{xs[j]} + multiset(xs[j + 1..]);
  }

  /** Being apart two by two does not depend on the order. */
  lemma PairwisePermuted<T(!new)>(apart: (T, T) -> bool, xs: seq<T>, ys: seq<T>)
    requires forall x, y :: apart(x, y) ==> apart(y, x)
    requires multiset(xs) == multiset(ys) && Pairwise(apart, xs)
    ensures Pairwise(apart, ys)
  {
    forall i, j | 0 <= i < j < |ys|
      ensures apart(ys[i], ys[j])
    {
      assert ys[i] in multiset(xs) && ys[j] in multiset(xs);
      if ys[i] == ys[j] {
        CountsTwice(ys, i, j);
        var k, l := OccursTwice(xs, ys[i]);
      } else {
        var k :| 0 <= k < |xs| && xs[k] == ys[i];
        var l :| 0 <= l < |xs| && xs[l] == ys[j];
        assert k < l || l < k;
      }
    }
  }

  /** A half-open range of addresses. */
  datatype Interval = Interval(start: int, end: int)

  predicate Apart(a: Interval, b: Interval) {
    !(a.start < b.end && b.start < a.end)
  }

  predicate Before(a: Interval, b: Interval) {
    a.start < b.start || (a.start == b.start && a.end <= b.end)
  }

  lemma BeforeOrders()
    ensures TotalOrder(Before)
  {
  }

  /** After sorting nonempty ranges, comparing neighbours finds every overlap. */
  lemma {:induction false} NeighboursApart(xs: seq<Interval>, i: nat, j: nat)
    requires forall k | 0 <= k < |xs| :: xs[k].start < xs[k].end
    requires SortedBy(Before, xs) && i < j < |xs|
    requires forall k, l | 0 <= k < l < |xs| && l == k + 1 :: Apart(xs[k], xs[l])
    ensures xs[i].end <= xs[j].start
    decreases j - i
  {
    assert Apart(xs[j - 1], xs[j]) && Before(xs[j - 1], xs[j]);
    if i < j - 1 {
      NeighboursApart(xs, i, j - 1);
    }
  }
}
