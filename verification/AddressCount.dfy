/** How many addresses a list of ranges has: its total length, if no two ranges share an address. */
module AddressCount {
  import opened Words
  import opened Sorting

  predicate Has(x: Interval, a: int) {
    x.start <= a < x.end
  }

  /** The addresses of the ranges. */
  ghost function Covered(xs: seq<Interval>): set<int> {
    set k: int, a: int | 0 <= k < |xs| && xs[k].start <= a < xs[k].end && Has(xs[k], a) :: a
  }

  ghost function Lengths(xs: seq<Interval>): int {
    if xs == [] then 0 else Lengths(xs[..|xs| - 1]) + xs[|xs| - 1].end - xs[|xs| - 1].start
  }

  ghost function RangeSet(x: Interval): set<int> {
    set a: int | x.start <= a < x.end && Has(x, a)
  }

  lemma {:induction false} RangeSize(x: Interval)
    requires x.start <= x.end
    ensures |RangeSet(x)| == x.end - x.start
    decreases x.end - x.start
  {
    if x.start < x.end {
      var shorter := x.(end := x.end - 1);
      RangeSize(shorter);
      assert RangeSet(x) == RangeSet(shorter) + {x.end - 1};
    }
  }

  lemma CoveredMore(xs: seq<Interval>)
    requires xs != []
    ensures Covered(xs) == Covered(xs[..|xs| - 1]) + RangeSet(xs[|xs| - 1])
  {
    var n := |xs| - 1;
    forall a: int
      ensures a in Covered(xs) <==> a in Covered(xs[..n]) + RangeSet(xs[n])
    {
      if a in Covered(xs) {
        var k :| 0 <= k < |xs| && xs[k].start <= a < xs[k].end;
        assert k < n ==> xs[..n][k] == xs[k];
      }
      if a in Covered(xs[..n]) {
        var k :| 0 <= k < n && xs[..n][k].start <= a < xs[..n][k].end;
        assert xs[k] == xs[..n][k];
      }
    }
  }

  lemma ApartShareNothing(xs: seq<Interval>)
    requires xs != [] && Pairwise(Apart, xs)
    ensures Covered(xs[..|xs| - 1]) !! RangeSet(xs[|xs| - 1])
  {
    var n := |xs| - 1;
    forall a: int | a in Covered(xs[..n])
      ensures a !in RangeSet(xs[n])
    {
      var k :| 0 <= k < n && xs[..n][k].start <= a < xs[..n][k].end;
      assert Apart(xs[k], xs[n]);
    }
  }

  /** The lengths of ranges without common addresses add up to the number of their addresses. */
  lemma {:induction false} LengthsCount(xs: seq<Interval>)
    requires Pairwise(Apart, xs) && forall k | 0 <= k < |xs| :: xs[k].start <= xs[k].end
    ensures Lengths(xs) == |Covered(xs)|
    decreases |xs|
  {
    if xs == [] {
      assert Covered(xs) == {};
    } else {
      var n := |xs| - 1;
      LengthsCount(xs[..n]);
      CoveredMore(xs);
      ApartShareNothing(xs);
      RangeSize(xs[n]);
    }
  }
}
