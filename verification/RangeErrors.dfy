/**
 * What the errors of a refused execution mean: each is reported once, in order, and says something about the extents
 * that does not depend on the sweep that found it.
 */
module RangeErrors {
  import opened Words
  import opened Arm32
  import opened Sorting
  import opened ExecutionRanges

  /** A refusal lists every error found, each once, in ascending order. */
  lemma ErrorsReported(entry: u32, extents: seq<DecodeExtent>)
    requires Canonical(entry, extents).Failure?
    ensures StrictlyOrdered(Canonical(entry, extents).error)
    ensures forall e :: e in Canonical(entry, extents).error <==> e in AllErrors(entry, extents)
  {
    hide AllErrors, Sort, StrictlyOrdered;
    SortedOnce(AllErrors(entry, extents));
  }

  // ---------------------------------------------------------------- what each says

  predicate Names(e: DecodeRangeError, x: DecodeExtent) {
    e.address == x.start && e.end == Some(x.end)
  }

  predicate SameBounds(x: DecodeExtent, y: DecodeExtent) {
    x.start == y.start && x.end == y.end
  }

  /** Two of the extents, at different positions. */
  ghost predicate TwoOf(xs: seq<DecodeExtent>, x: DecodeExtent, y: DecodeExtent) {
    exists i, j :: 0 <= i < |xs| && 0 <= j < |xs| && i != j && xs[i] == x && xs[j] == y
  }

  lemma TwoAt(xs: seq<DecodeExtent>, i: nat, j: nat)
    requires i < |xs| && j < |xs| && i != j
    ensures TwoOf(xs, xs[i], xs[j])
  {
  }

  lemma TwoPermuted(xs: seq<DecodeExtent>, ys: seq<DecodeExtent>, x: DecodeExtent, y: DecodeExtent)
    requires multiset(xs) == multiset(ys) && TwoOf(xs, x, y)
    ensures TwoOf(ys, x, y)
  {
    var i, j :| 0 <= i < |xs| && 0 <= j < |xs| && i != j && xs[i] == x && xs[j] == y;
    assert x in multiset(ys) && y in multiset(ys);
    if x == y {
      CountsTwice(xs, if i < j then i else j, if i < j then j else i);
      var k, l := OccursTwice(ys, x);
      TwoAt(ys, k, l);
    } else {
      var k :| 0 <= k < |ys| && ys[k] == x;
      var l :| 0 <= l < |ys| && ys[l] == y;
      TwoAt(ys, k, l);
    }
  }

  ghost predicate LengthWrong(xs: seq<DecodeExtent>, e: DecodeRangeError) {
    exists k :: 0 <= k < |xs| && Names(e, xs[k]) && xs[k].end <= xs[k].start
  }

  ghost predicate AlignmentWrong(xs: seq<DecodeExtent>, e: DecodeRangeError) {
    exists k :: 0 <= k < |xs| && Names(e, xs[k]) && !AlignedExtent(xs[k])
  }

  ghost predicate Repeated(xs: seq<DecodeExtent>, e: DecodeRangeError) {
    exists x, y :: TwoOf(xs, x, y) && SameBounds(x, y) && Names(e, x)
  }

  /** The error names an extent that shares an address with another one. */
  ghost predicate Overlapped(xs: seq<DecodeExtent>, e: DecodeRangeError) {
    exists x, y :: TwoOf(xs, x, y) && !ExtentsApart(x, y) && Names(e, x)
  }

  // ---------------------------------------------------------------- errors of single extents

  lemma {:induction false} ElementErrorsMean(xs: seq<DecodeExtent>, e: DecodeRangeError)
    ensures e in AllElementErrors(xs) <==>
            || (e.kind.InvalidInstructionLength? && LengthWrong(xs, e))
            || (e.kind.MisalignedInstruction? && AlignmentWrong(xs, e))
    decreases |xs|
  {
    if xs != [] {
      var n := |xs| - 1;
      ElementErrorsMean(xs[..n], e);
      hide AlignedExtent;
      LastLengthWrong(xs, e);
      LastAlignmentWrong(xs, e);
      assert AllElementErrors(xs) == AllElementErrors(xs[..n]) + ElementErrors(xs[n]);
    }
  }

  lemma LastLengthWrong(xs: seq<DecodeExtent>, e: DecodeRangeError)
    requires xs != []
    ensures var n := |xs| - 1;
            LengthWrong(xs, e) <==> LengthWrong(xs[..n], e) || (Names(e, xs[n]) && xs[n].end <= xs[n].start)
  {
    var n := |xs| - 1;
    if k :| 0 <= k < n && Names(e, xs[..n][k]) && xs[..n][k].end <= xs[..n][k].start {
      assert Names(e, xs[k]);
    }
    if k :| 0 <= k < |xs| && Names(e, xs[k]) && xs[k].end <= xs[k].start {
      assert k < n ==> xs[..n][k] == xs[k];
    }
  }

  lemma LastAlignmentWrong(xs: seq<DecodeExtent>, e: DecodeRangeError)
    requires xs != []
    ensures var n := |xs| - 1;
            AlignmentWrong(xs, e) <==> AlignmentWrong(xs[..n], e) || (Names(e, xs[n]) && !AlignedExtent(xs[n]))
  {
    hide AlignedExtent;
    var n := |xs| - 1;
    if k :| 0 <= k < n && Names(e, xs[..n][k]) && !AlignedExtent(xs[..n][k]) {
      assert Names(e, xs[k]);
    }
    if k :| 0 <= k < |xs| && Names(e, xs[k]) && !AlignedExtent(xs[k]) {
      assert k < n ==> xs[..n][k] == xs[k];
    }
  }

  // ---------------------------------------------------------------- errors of the sweep

  function StepAt(sorted: seq<DecodeExtent>, m: nat): seq<DecodeRangeError>
    requires 1 <= m < |sorted|
  {
    StepErrors(sorted[m - 1], MaximalPrior(sorted, m), sorted[m])
  }

  lemma SweepMore(sorted: seq<DecodeExtent>, n: nat)
    requires 1 < n <= |sorted|
    ensures SweepErrors(sorted, n) == SweepErrors(sorted, n - 1) + StepAt(sorted, n - 1)
  {
    hide StepErrors, MaximalPrior;
  }

  /** The sweep reports what its steps report. */
  lemma {:induction false} SweepSteps(sorted: seq<DecodeExtent>, n: nat, e: DecodeRangeError)
    requires n <= |sorted|
    ensures e in SweepErrors(sorted, n) <==> exists m :: 1 <= m < n && e in StepAt(sorted, m)
    decreases n
  {
    if n > 1 {
      SweepSteps(sorted, n - 1, e);
      SweepMore(sorted, n);
      hide SweepErrors, StepAt;
    }
  }

  lemma SweepHas(sorted: seq<DecodeExtent>, m: nat, e: DecodeRangeError)
    requires 1 <= m < |sorted| && e in StepAt(sorted, m)
    ensures e in SweepErrors(sorted, |sorted|)
  {
    SweepSteps(sorted, |sorted|, e);
    hide StepAt;
  }

  /** A later extent begins inside an earlier one, and the error names one of the two. */
  ghost predicate Crosses(sorted: seq<DecodeExtent>, i: nat, j: nat, e: DecodeRangeError) {
    && i < j < |sorted| && sorted[i].start <= sorted[j].start < sorted[i].end
    && (Names(e, sorted[i]) || Names(e, sorted[j]))
  }

  lemma StepMeans(sorted: seq<DecodeExtent>, m: nat, e: DecodeRangeError)
    requires 1 <= m < |sorted| && SortedBy(ExtentBefore, sorted) && e in StepAt(sorted, m)
    ensures e.kind.DuplicateExtent? || e.kind.OverlappingExtent?
    ensures e.kind.DuplicateExtent? ==> SameBounds(sorted[m - 1], sorted[m]) && Names(e, sorted[m])
    ensures e.kind.OverlappingExtent? ==> exists i: nat :: Crosses(sorted, i, m, e)
  {
    MaximalPriorBounds(sorted, m, 0);
    hide MaximalPrior;
    var i: nat :| i < m && sorted[i] == MaximalPrior(sorted, m);
    assert ExtentBefore(sorted[i], sorted[m]);
    if e.kind.OverlappingExtent? {
      assert Crosses(sorted, i, m, e);
    }
  }

  /** Equal bounds are neighbours in sorted order. */
  lemma EqualBoundsMeet(sorted: seq<DecodeExtent>, i: nat, j: nat)
    requires SortedBy(ExtentBefore, sorted) && i < j < |sorted| && SameBounds(sorted[i], sorted[j])
    ensures SameBounds(sorted[j - 1], sorted[j])
  {
    if i < j - 1 {
      assert ExtentBefore(sorted[i], sorted[j - 1]) && ExtentBefore(sorted[j - 1], sorted[j]);
    }
  }

  lemma DuplicateFound(sorted: seq<DecodeExtent>, i: nat, j: nat, e: DecodeRangeError)
    requires SortedBy(ExtentBefore, sorted) && i < j < |sorted| && SameBounds(sorted[i], sorted[j])
    requires e.kind.DuplicateExtent? && Names(e, sorted[j])
    ensures e in SweepErrors(sorted, |sorted|)
  {
    EqualBoundsMeet(sorted, i, j);
    hide MaximalPrior;
    assert e in StepAt(sorted, j);
    SweepHas(sorted, j, e);
  }

  /** An extent that an earlier one reaches into is reported when its turn comes. */
  lemma ReachedIsFound(sorted: seq<DecodeExtent>, k: nat, i: nat, e: DecodeRangeError)
    requires k < i < |sorted| && sorted[k].end > sorted[i].start
    requires e.kind.OverlappingExtent? && Names(e, sorted[i])
    ensures e in SweepErrors(sorted, |sorted|)
  {
    MaximalPriorBounds(sorted, i, k);
    hide MaximalPrior;
    assert e in StepAt(sorted, i);
    SweepHas(sorted, i, e);
  }

  lemma BecomesPrior(sorted: seq<DecodeExtent>, i: nat)
    requires i < |sorted| && sorted[i].start < sorted[i].end
    requires forall k | 0 <= k < i :: sorted[k].end <= sorted[i].start
    ensures MaximalPrior(sorted, i + 1) == sorted[i]
  {
    if i > 0 {
      MaximalPriorBounds(sorted, i, 0);
    }
  }

  /** An extent that is clear of the earlier ones but not of a later one is reported when the next one comes. */
  lemma ReachingIsFound(sorted: seq<DecodeExtent>, i: nat, j: nat, e: DecodeRangeError)
    requires SortedBy(ExtentBefore, sorted) && i < j < |sorted| && sorted[j].start < sorted[i].end
    requires sorted[i].start < sorted[i].end && forall k | 0 <= k < i :: sorted[k].end <= sorted[i].start
    requires e.kind.OverlappingExtent? && Names(e, sorted[i])
    ensures e in SweepErrors(sorted, |sorted|)
  {
    BecomesPrior(sorted, i);
    hide MaximalPrior;
    assert i + 1 < j ==> ExtentBefore(sorted[i + 1], sorted[j]);
    assert e in StepAt(sorted, i + 1);
    SweepHas(sorted, i + 1, e);
  }

  lemma OverlapFound(sorted: seq<DecodeExtent>, i: nat, j: nat, e: DecodeRangeError)
    requires SortedBy(ExtentBefore, sorted) && AllPositive(sorted) && i < |sorted| && j < |sorted| && i != j
    requires !ExtentsApart(sorted[i], sorted[j]) && e.kind.OverlappingExtent? && Names(e, sorted[i])
    ensures e in SweepErrors(sorted, |sorted|)
  {
    if k: nat :| k < i && sorted[k].end > sorted[i].start {
      ReachedIsFound(sorted, k, i, e);
    } else {
      assert j > i;
      ReachingIsFound(sorted, i, j, e);
    }
  }

  /** Duplicates are reported exactly; an overlap is reported only where two extents meet. */
  lemma SweepMeans(extents: seq<DecodeExtent>, e: DecodeRangeError)
    ensures var sorted := Sort(ExtentBefore, extents);
            e in SweepErrors(sorted, |sorted|) ==>
              || (e.kind.DuplicateExtent? && Repeated(extents, e))
              || (e.kind.OverlappingExtent? && (AllPositive(extents) ==> Overlapped(extents, e)))
  {
    var sorted := Sort(ExtentBefore, extents);
    SortedExtents(extents);
    hide Sort, StepAt, SweepErrors, TwoOf;
    if e in SweepErrors(sorted, |sorted|) {
      SweepSteps(sorted, |sorted|, e);
      var m :| 1 <= m < |sorted| && e in StepAt(sorted, m);
      StepMeans(sorted, m, e);
      if e.kind.DuplicateExtent? {
        TwoAt(sorted, m, m - 1);
        TwoPermuted(sorted, extents, sorted[m], sorted[m - 1]);
      } else if AllPositive(extents) {
        var i: nat :| Crosses(sorted, i, m, e);
        TwoAt(sorted, i, m);
        TwoAt(sorted, m, i);
        TwoPermuted(sorted, extents, sorted[i], sorted[m]);
        TwoPermuted(sorted, extents, sorted[m], sorted[i]);
        assert sorted[m].start < sorted[m].end;
      }
    }
  }

  lemma SweepFinds(extents: seq<DecodeExtent>, e: DecodeRangeError)
    ensures var sorted := Sort(ExtentBefore, extents);
            && (e.kind.DuplicateExtent? && Repeated(extents, e) ==> e in SweepErrors(sorted, |sorted|))
            && (e.kind.OverlappingExtent? && AllPositive(extents) && Overlapped(extents, e) ==>
                  e in SweepErrors(sorted, |sorted|))
  {
    var sorted := Sort(ExtentBefore, extents);
    SortedExtents(extents);
    hide Sort, SweepErrors, ExtentBefore;
    if e.kind.DuplicateExtent? && Repeated(extents, e) {
      var x, y :| TwoOf(extents, x, y) && SameBounds(x, y) && Names(e, x);
      TwoPermuted(extents, sorted, x, y);
      var i: nat, j: nat :| i < |sorted| && j < |sorted| && i != j && sorted[i] == x && sorted[j] == y;
      DuplicateFound(sorted, if i < j then i else j, if i < j then j else i, e);
    }
    if e.kind.OverlappingExtent? && AllPositive(extents) && Overlapped(extents, e) {
      var x, y :| TwoOf(extents, x, y) && !ExtentsApart(x, y) && Names(e, x);
      TwoPermuted(extents, sorted, x, y);
      var i: nat, j: nat :| i < |sorted| && j < |sorted| && i != j && sorted[i] == x && sorted[j] == y;
      OverlapFound(sorted, i, j, e);
    }
  }

  // ---------------------------------------------------------------- the theorems

  lemma EntryKinds(entry: u32, ranges: seq<DecodeExtent>, e: DecodeRangeError)
    requires e in EntryErrors(entry, ranges)
    ensures e.kind.EmptyProjection? || e.kind.EntryNotRangeStart? || e.kind.MissingInstructionAtEntry?
    ensures e.kind.EmptyProjection? <==> ranges == []
    ensures e.address == entry && e.end == None
  {
  }

  lemma ElementKinds(xs: seq<DecodeExtent>, e: DecodeRangeError)
    requires e in AllElementErrors(xs)
    ensures e.kind.InvalidInstructionLength? || e.kind.MisalignedInstruction?
  {
    ElementErrorsMean(xs, e);
  }

  /** Length, alignment and duplication errors are reported exactly for the extents that are at fault. */
  lemma FaultsReported(entry: u32, extents: seq<DecodeExtent>, e: DecodeRangeError)
    ensures e.kind.InvalidInstructionLength? ==> (e in AllErrors(entry, extents) <==> LengthWrong(extents, e))
    ensures e.kind.MisalignedInstruction? ==> (e in AllErrors(entry, extents) <==> AlignmentWrong(extents, e))
    ensures e.kind.DuplicateExtent? ==> (e in AllErrors(entry, extents) <==> Repeated(extents, e))
  {
    var sorted := Sort(ExtentBefore, extents);
    ElementErrorsMean(extents, e);
    SweepMeans(extents, e);
    SweepFinds(extents, e);
    hide Sort, SweepErrors, AllElementErrors, EntryErrors, LengthWrong, AlignmentWrong, Repeated, Overlapped, Merged;
    if e in EntryErrors(entry, Merged(sorted)) {
      EntryKinds(entry, Merged(sorted), e);
    }
  }

  /** Among extents of positive length, the overlaps reported are exactly the extents that overlap another one. */
  lemma OverlapsReported(entry: u32, extents: seq<DecodeExtent>, e: DecodeRangeError)
    requires AllPositive(extents) && e.kind.OverlappingExtent?
    ensures e in AllErrors(entry, extents) <==> Overlapped(extents, e)
  {
    var sorted := Sort(ExtentBefore, extents);
    SweepMeans(extents, e);
    SweepFinds(extents, e);
    hide Sort, SweepErrors, AllElementErrors, EntryErrors, Repeated, Overlapped, Merged;
    if e in EntryErrors(entry, Merged(sorted)) {
      EntryKinds(entry, Merged(sorted), e);
    }
    if e in AllElementErrors(extents) {
      ElementKinds(extents, e);
    }
  }

  /** The instruction set at the entry goes on from before it. */
  ghost predicate EntryContinues(extents: seq<DecodeExtent>, entry: u32) {
    exists isa :: Decodes(extents, entry, isa) && Decodes(extents, entry - 1, isa)
  }

  ghost predicate EntryDecoded(extents: seq<DecodeExtent>, entry: u32) {
    exists isa :: Decodes(extents, entry, isa)
  }

  lemma HoldsInsideMeans(xs: seq<DecodeExtent>, entry: u32)
    requires IsCanonical(xs) && !StartsAt(xs, entry)
    ensures HoldsInside(xs, entry) <==> EntryContinues(xs, entry)
    ensures HoldsInside(xs, entry) <==> EntryDecoded(xs, entry)
  {
    if isa :| Decodes(xs, entry, isa) {
      var k :| 0 <= k < |xs| && xs[k].isa == isa && xs[k].start <= entry < xs[k].end;
      assert xs[k].start < entry;
    }
    if k :| 0 <= k < |xs| && xs[k].start < entry < xs[k].end {
      assert Decodes(xs, entry, xs[k].isa) && Decodes(xs, entry - 1, xs[k].isa);
    }
  }

  lemma SameEntry(xs: seq<DecodeExtent>, ys: seq<DecodeExtent>, entry: u32)
    requires SameDecodes(xs, ys)
    ensures EntryContinues(xs, entry) <==> EntryContinues(ys, entry)
    ensures EntryDecoded(xs, entry) <==> EntryDecoded(ys, entry)
  {
    hide Decodes;
  }

  /** The entry errors, for extents that are otherwise in order: nothing at all, nothing there, or not the beginning. */
  lemma EntryReported(entry: u32, extents: seq<DecodeExtent>, e: DecodeRangeError)
    requires AllPositive(extents) && Pairwise(ExtentsApart, extents) && e.address == entry && e.end == None
    ensures e.kind.EmptyProjection? ==> (e in AllErrors(entry, extents) <==> extents == [])
    ensures e.kind.MissingInstructionAtEntry? ==>
              (e in AllErrors(entry, extents) <==> extents != [] && !EntryDecoded(extents, entry))
    ensures e.kind.EntryNotRangeStart? ==>
              (e in AllErrors(entry, extents) <==> EntryContinues(extents, entry) && !EntryBegins(extents, entry))
  {
    var sorted := Sort(ExtentBefore, extents);
    var ranges := Merged(sorted);
    MergedIsCanonical(extents);
    SameEntry(ranges, extents, entry);
    EntryAt(ranges, extents, entry);
    hide Sort, Merged, SweepErrors, AllElementErrors, IsCanonical, Decodes, StartsAt, HoldsInside, Pairwise,
      AllPositive, EntryContinues, EntryDecoded, EntryBegins;
    if !StartsAt(ranges, entry) {
      HoldsInsideMeans(ranges, entry);
    }
    if e in AllElementErrors(extents) {
      ElementKinds(extents, e);
    }
    if extents == [] {
      NothingDecoded(entry);
    }
  }

  lemma NothingDecoded(entry: u32)
    ensures !EntryDecoded([], entry) && !EntryContinues([], entry) && !EntryBegins([], entry)
  {
  }

  ghost predicate EntryBegins(extents: seq<DecodeExtent>, entry: u32) {
    exists isa :: Decodes(extents, entry, isa) && !Decodes(extents, entry - 1, isa)
  }

  lemma EntryAt(ranges: seq<DecodeExtent>, extents: seq<DecodeExtent>, entry: u32)
    requires IsCanonical(ranges) && SameDecodes(ranges, extents)
    ensures StartsAt(ranges, entry) <==> EntryBegins(extents, entry)
    ensures EntryBegins(extents, entry) ==> EntryDecoded(extents, entry)
  {
    CanonicalStarts(ranges, entry);
    hide Decodes, StartsAt, IsCanonical;
  }

  // ---------------------------------------------------------------- with empty or wrapping extents

  /** Of the extents before `j`, the first that reaches furthest. */
  ghost predicate IsFurthest(sorted: seq<DecodeExtent>, i: nat, j: nat) {
    && i < j <= |sorted|
    && (forall k | 0 <= k < j :: sorted[k].end <= sorted[i].end)
    && (forall k | 0 <= k < i :: sorted[k].end < sorted[i].end)
  }

  lemma {:induction false} PriorIsFurthest(sorted: seq<DecodeExtent>, j: nat) returns (i: nat)
    requires 1 <= j <= |sorted|
    ensures IsFurthest(sorted, i, j) && MaximalPrior(sorted, j) == sorted[i]
    decreases j
  {
    if j == 1 {
      i := 0;
    } else {
      i := PriorIsFurthest(sorted, j - 1);
      if sorted[j - 1].end > sorted[i].end {
        i := j - 1;
      }
    }
  }

  lemma FurthestIsPrior(sorted: seq<DecodeExtent>, i: nat, j: nat)
    requires IsFurthest(sorted, i, j)
    ensures MaximalPrior(sorted, j) == sorted[i]
  {
    var k := PriorIsFurthest(sorted, j);
    assert k == i;
  }

  ghost predicate ReachesInto(sorted: seq<DecodeExtent>, i: nat, j: nat) {
    i < j < |sorted| && sorted[i].end > sorted[j].start
  }

  /** An extent that some earlier one reaches into. */
  ghost predicate ReachedInto(sorted: seq<DecodeExtent>, e: DecodeRangeError) {
    exists i: nat, j: nat :: ReachesInto(sorted, i, j) && Names(e, sorted[j])
  }

  /** An extent that reaches into a later one, further than any other before it. */
  ghost predicate ReachesFurthest(sorted: seq<DecodeExtent>, e: DecodeRangeError) {
    exists i: nat, j: nat :: ReachesInto(sorted, i, j) && IsFurthest(sorted, i, j) && Names(e, sorted[i])
  }

  lemma StepReaches(sorted: seq<DecodeExtent>, e: DecodeRangeError, m: nat)
    requires 1 <= m < |sorted| && e in StepAt(sorted, m) && e.kind.OverlappingExtent?
    ensures ReachedInto(sorted, e) || ReachesFurthest(sorted, e)
  {
    StepOverlap(sorted, m, e);
    var i := PriorIsFurthest(sorted, m);
    hide StepAt, MaximalPrior;
    assert ReachesInto(sorted, i, m);
  }

  lemma ReachesStep(sorted: seq<DecodeExtent>, e: DecodeRangeError) returns (m: nat)
    requires e.kind.OverlappingExtent? && (ReachedInto(sorted, e) || ReachesFurthest(sorted, e))
    ensures 1 <= m < |sorted| && e in StepAt(sorted, m)
  {
    hide StepAt, MaximalPrior;
    if i: nat, j: nat :| ReachesInto(sorted, i, j) && Names(e, sorted[j]) {
      MaximalPriorBounds(sorted, j, i);
      StepOverlap(sorted, j, e);
      m := j;
    } else {
      var i: nat, j: nat :| ReachesInto(sorted, i, j) && IsFurthest(sorted, i, j) && Names(e, sorted[i]);
      FurthestIsPrior(sorted, i, j);
      StepOverlap(sorted, j, e);
      m := j;
    }
  }

  lemma StepOverlap(sorted: seq<DecodeExtent>, m: nat, e: DecodeRangeError)
    requires 1 <= m < |sorted| && e.kind.OverlappingExtent?
    ensures e in StepAt(sorted, m) <==>
            && sorted[m].start < MaximalPrior(sorted, m).end
            && (Names(e, sorted[m]) || Names(e, MaximalPrior(sorted, m)))
  {
    hide MaximalPrior;
  }

  /** For any extents: an overlap names one that is reached into, or one that reaches furthest into a later one. */
  lemma OverlapsAlways(entry: u32, extents: seq<DecodeExtent>, e: DecodeRangeError)
    requires e.kind.OverlappingExtent?
    ensures var sorted := Sort(ExtentBefore, extents);
            e in AllErrors(entry, extents) <==> ReachedInto(sorted, e) || ReachesFurthest(sorted, e)
  {
    var sorted := Sort(ExtentBefore, extents);
    SweepSteps(sorted, |sorted|, e);
    if e in EntryErrors(entry, Merged(sorted)) {
      EntryKinds(entry, Merged(sorted), e);
    }
    if e in AllElementErrors(extents) {
      ElementKinds(extents, e);
    }
    hide Sort, SweepErrors, AllElementErrors, EntryErrors, Merged, StepAt, MaximalPrior;
    if m :| 1 <= m < |sorted| && e in StepAt(sorted, m) {
      StepReaches(sorted, e, m);
    }
    hide ReachedInto, ReachesFurthest;
    if ReachedInto(sorted, e) || ReachesFurthest(sorted, e) {
      var m := ReachesStep(sorted, e);
    }
  }

  // ---------------------------------------------------------------- runs of extents

  /** One extent goes on where the other ends, in the same set. */
  predicate GoesOn(a: DecodeExtent, b: DecodeExtent) {
    a.isa == b.isa && a.end == b.start
  }

  /** A range begins at the extent: it is the first, or the one before does not go on into it. */
  predicate Begins(sorted: seq<DecodeExtent>, i: nat)
    requires i < |sorted|
  {
    i == 0 || !GoesOn(sorted[i - 1], sorted[i])
  }

  /** The extents from `i` to `j` follow one another, and neither end goes on. */
  ghost predicate IsRun(sorted: seq<DecodeExtent>, i: nat, j: nat)
    ensures IsRun(sorted, i, j) ==> i <= j < |sorted|
  {
    && i <= j < |sorted| && Begins(sorted, i)
    && (forall k | i < k <= j :: !Begins(sorted, k))
    && (j + 1 < |sorted| ==> Begins(sorted, j + 1))
  }

  function RangeOf(sorted: seq<DecodeExtent>, i: nat, j: nat): DecodeExtent
    requires i <= j < |sorted|
  {
    DecodeExtent(sorted[i].start, sorted[j].end, sorted[i].isa)
  }

  lemma {:induction false} OneSet(sorted: seq<DecodeExtent>, i: nat, j: nat)
    requires i <= j < |sorted| && forall k | i < k <= j :: !Begins(sorted, k)
    ensures sorted[j].isa == sorted[i].isa
    decreases j
  {
    if i < j {
      assert !Begins(sorted, j);
      OneSet(sorted, i, j - 1);
    }
  }

  /** The positions where ranges begin, in order. */
  ghost predicate AreStarts(sorted: seq<DecodeExtent>, starts: seq<nat>) {
    && (forall k | 0 <= k < |starts| :: starts[k] < |sorted| && Begins(sorted, starts[k]))
    && (forall k, l | 0 <= k < l < |starts| :: starts[k] < starts[l])
    && (forall i: nat | i < |sorted| && Begins(sorted, i) :: i in starts)
  }

  function LastOf(sorted: seq<DecodeExtent>, starts: seq<nat>, k: nat): int
    requires k < |starts|
  {
    if k + 1 < |starts| then starts[k + 1] - 1 else |sorted| - 1
  }

  /** The ranges run from one beginning to the next. */
  ghost predicate RangesFrom(sorted: seq<DecodeExtent>, starts: seq<nat>, ranges: seq<DecodeExtent>) {
    && AreStarts(sorted, starts) && |ranges| == |starts|
    && forall k | 0 <= k < |starts| ::
         && starts[k] <= LastOf(sorted, starts, k) < |sorted|
         && ranges[k] == RangeOf(sorted, starts[k], LastOf(sorted, starts, k))
  }

  lemma NothingFrom()
    ensures RangesFrom([], [], [])
  {
  }

  lemma StartPlaces(sorted: seq<DecodeExtent>, starts: seq<nat>, k: nat, i: nat)
    requires AreStarts(sorted, starts) && k < |starts| && i < |sorted| && Begins(sorted, i)
    ensures i <= starts[k] || (k + 1 < |starts| && starts[k + 1] <= i)
  {
    var l :| 0 <= l < |starts| && starts[l] == i;
    assert l < k ==> starts[l] < starts[k];
    assert k + 1 < |starts| && k + 1 < l ==> starts[k + 1] < starts[l];
  }

  lemma StartsNeedExtents(sorted: seq<DecodeExtent>, starts: seq<nat>)
    requires AreStarts(sorted, starts)
    ensures starts != [] ==> sorted != []
  {
    assert starts != [] ==> starts[0] < |sorted|;
  }

  lemma LastStart(sorted: seq<DecodeExtent>, starts: seq<nat>)
    requires AreStarts(sorted, starts) && sorted != []
    ensures starts != [] && forall i | starts[|starts| - 1] < i < |sorted| :: !Begins(sorted, i)
  {
    assert Begins(sorted, 0);
    forall i: nat | i < |sorted| && Begins(sorted, i)
      ensures i <= starts[|starts| - 1]
    {
      StartPlaces(sorted, starts, |starts| - 1, i);
    }
  }

  lemma BeginsInPrefix(sorted: seq<DecodeExtent>, i: nat)
    requires i < |sorted| - 1
    ensures Begins(sorted[..|sorted| - 1], i) == Begins(sorted, i)
  {
  }

  lemma LastRange(sorted: seq<DecodeExtent>, starts: seq<nat>, ranges: seq<DecodeExtent>)
    requires sorted != [] && RangesFrom(sorted, starts, ranges)
    ensures starts != [] && starts[|starts| - 1] <= |sorted| - 1
    ensures ranges[|starts| - 1] == RangeOf(sorted, starts[|starts| - 1], |sorted| - 1)
    ensures ranges[|starts| - 1].isa == sorted[|sorted| - 1].isa
    ensures forall i | starts[|starts| - 1] < i < |sorted| :: !Begins(sorted, i)
  {
    LastStart(sorted, starts);
    var last := |starts| - 1;
    assert LastOf(sorted, starts, last) == |sorted| - 1;
    hide Begins;
    OneSet(sorted, starts[last], |sorted| - 1);
  }

  lemma SameStarts(sorted: seq<DecodeExtent>, starts: seq<nat>)
    requires |sorted| > 1 && AreStarts(sorted[..|sorted| - 1], starts) && !Begins(sorted, |sorted| - 1)
    ensures AreStarts(sorted, starts)
  {
    var n := |sorted| - 1;
    forall i: nat | i < n
      ensures Begins(sorted[..n], i) == Begins(sorted, i)
    {
      BeginsInPrefix(sorted, i);
    }
    hide Begins;
  }

  lemma LongerRange(ranges: seq<DecodeExtent>, a: DecodeExtent, b: DecodeExtent)
    requires ranges != [] && ranges[|ranges| - 1].end == a.end && ranges[|ranges| - 1].isa == a.isa && GoesOn(a, b)
    ensures Extend(ranges, b) == ranges[..|ranges| - 1] + [ranges[|ranges| - 1].(end := b.end)]
  {
  }

  /** One more extent that goes on makes the last range longer. */
  lemma GoesOnFrom(sorted: seq<DecodeExtent>, starts: seq<nat>, ranges: seq<DecodeExtent>)
    requires |sorted| > 1 && RangesFrom(sorted[..|sorted| - 1], starts, ranges) && !Begins(sorted, |sorted| - 1)
    ensures RangesFrom(sorted, starts, Extend(ranges, sorted[|sorted| - 1]))
  {
    var n := |sorted| - 1;
    LastRange(sorted[..n], starts, ranges);
    SameStarts(sorted, starts);
    LongerRange(ranges, sorted[n - 1], sorted[n]);
    hide Begins, Extend, AreStarts, GoesOn;
    forall k | 0 <= k < |starts|
      ensures starts[k] <= LastOf(sorted, starts, k) < |sorted|
      ensures Extend(ranges, sorted[n])[k] == RangeOf(sorted, starts[k], LastOf(sorted, starts, k))
    {
      assert LastOf(sorted, starts, k) == if k == |starts| - 1 then n else LastOf(sorted[..n], starts, k);
    }
  }

  lemma MoreStarts(sorted: seq<DecodeExtent>, starts: seq<nat>)
    requires sorted != [] && AreStarts(sorted[..|sorted| - 1], starts) && Begins(sorted, |sorted| - 1)
    ensures AreStarts(sorted, starts + [|sorted| - 1])
  {
    var n := |sorted| - 1;
    var more := starts + [n];
    forall i: nat | i < n
      ensures Begins(sorted[..n], i) == Begins(sorted, i)
    {
      BeginsInPrefix(sorted, i);
    }
    hide Begins;
    forall i: nat | i < |sorted| && Begins(sorted, i)
      ensures i in more
    {
      assert i < n ==> i in starts;
      assert more[|starts|] == n;
    }
  }

  lemma NewRange(ranges: seq<DecodeExtent>, a: DecodeExtent, b: DecodeExtent)
    requires ranges != [] && ranges[|ranges| - 1].end == a.end && ranges[|ranges| - 1].isa == a.isa && !GoesOn(a, b)
    ensures Extend(ranges, b) == ranges + [b]
  {
  }

  lemma AnotherRange(sorted: seq<DecodeExtent>, starts: seq<nat>, ranges: seq<DecodeExtent>)
    requires |sorted| > 1 && RangesFrom(sorted[..|sorted| - 1], starts, ranges) && Begins(sorted, |sorted| - 1)
    ensures Extend(ranges, sorted[|sorted| - 1]) == ranges + [sorted[|sorted| - 1]]
  {
    var n := |sorted| - 1;
    LastRange(sorted[..n], starts, ranges);
    hide Extend, AreStarts;
    NewRange(ranges, sorted[n - 1], sorted[n]);
  }

  lemma FirstRange(sorted: seq<DecodeExtent>, starts: seq<nat>, ranges: seq<DecodeExtent>)
    requires |sorted| == 1 && RangesFrom(sorted[..0], starts, ranges)
    ensures Extend(ranges, sorted[0]) == ranges + [sorted[0]]
  {
    StartsNeedExtents(sorted[..0], starts);
    hide AreStarts;
  }

  lemma MoreLasts(sorted: seq<DecodeExtent>, starts: seq<nat>, k: nat)
    requires sorted != [] && k <= |starts|
    ensures LastOf(sorted, starts + [|sorted| - 1], k)
            == if k < |starts| then LastOf(sorted[..|sorted| - 1], starts, k) else |sorted| - 1
  {
  }

  /** One more extent that does not go on begins a range. */
  lemma BeginsFrom(sorted: seq<DecodeExtent>, starts: seq<nat>, ranges: seq<DecodeExtent>)
    requires sorted != [] && RangesFrom(sorted[..|sorted| - 1], starts, ranges) && Begins(sorted, |sorted| - 1)
    ensures RangesFrom(sorted, starts + [|sorted| - 1], Extend(ranges, sorted[|sorted| - 1]))
  {
    var n := |sorted| - 1;
    var rest, more := sorted[..n], starts + [n];
    MoreStarts(sorted, starts);
    if n == 0 {
      FirstRange(sorted, starts, ranges);
    } else {
      AnotherRange(sorted, starts, ranges);
    }
    var longer := Extend(ranges, sorted[n]);
    hide Begins, Extend, AreStarts, LastOf;
    forall k | 0 <= k < |more|
      ensures more[k] <= LastOf(sorted, more, k) < |sorted|
      ensures longer[k] == RangeOf(sorted, more[k], LastOf(sorted, more, k))
    {
      MoreLasts(sorted, starts, k);
      if k < |starts| {
        assert longer[k] == ranges[k];
      }
    }
  }

  lemma {:induction false} MergedFrom(sorted: seq<DecodeExtent>) returns (starts: seq<nat>)
    ensures RangesFrom(sorted, starts, Merged(sorted))
    decreases |sorted|
  {
    hide RangesFrom, Extend;
    if sorted == [] {
      starts := [];
      NothingFrom();
    } else {
      var n := |sorted| - 1;
      starts := MergedFrom(sorted[..n]);
      if Begins(sorted, n) {
        BeginsFrom(sorted, starts, Merged(sorted[..n]));
        starts := starts + [n];
      } else {
        GoesOnFrom(sorted, starts, Merged(sorted[..n]));
      }
    }
  }

  lemma RunFrom(sorted: seq<DecodeExtent>, starts: seq<nat>, k: nat)
    requires AreStarts(sorted, starts) && k < |starts| && starts[k] <= LastOf(sorted, starts, k) < |sorted|
    ensures IsRun(sorted, starts[k], LastOf(sorted, starts, k))
  {
    hide Begins;
    var j := LastOf(sorted, starts, k);
    forall i: nat | i < |sorted| && Begins(sorted, i)
      ensures i <= starts[k] || j < i
    {
      StartPlaces(sorted, starts, k, i);
    }
  }

  lemma RunIsFrom(sorted: seq<DecodeExtent>, starts: seq<nat>, i: nat, j: nat) returns (k: nat)
    requires AreStarts(sorted, starts) && IsRun(sorted, i, j)
    requires forall l | 0 <= l < |starts| :: starts[l] <= LastOf(sorted, starts, l) < |sorted|
    ensures k < |starts| && starts[k] == i && LastOf(sorted, starts, k) == j
  {
    hide Begins;
    k :| 0 <= k < |starts| && starts[k] == i;
    RunFrom(sorted, starts, k);
    SameRun(sorted, i, j, LastOf(sorted, starts, k));
  }

  lemma RunStops(sorted: seq<DecodeExtent>, i: nat, j: nat, l: nat)
    requires IsRun(sorted, i, j) && IsRun(sorted, i, l)
    ensures l <= j
  {
    hide Begins;
    assert j < |sorted| - 1 ==> Begins(sorted, j + 1);
  }

  lemma SameRun(sorted: seq<DecodeExtent>, i: nat, j: nat, l: nat)
    requires IsRun(sorted, i, j) && IsRun(sorted, i, l)
    ensures j == l
  {
    RunStops(sorted, i, j, l);
    RunStops(sorted, i, l, j);
  }

  /** For any sorted list, the merged ranges are those of its runs. */
  lemma MergedRuns(sorted: seq<DecodeExtent>, r: DecodeExtent)
    ensures r in Merged(sorted) <==> exists i: nat, j: nat :: IsRun(sorted, i, j) && r == RangeOf(sorted, i, j)
  {
    var starts := MergedFrom(sorted);
    var ranges := Merged(sorted);
    hide Merged, AreStarts;
    if k :| 0 <= k < |ranges| && ranges[k] == r {
      RunFrom(sorted, starts, k);
    }
    if i: nat, j: nat :| IsRun(sorted, i, j) && r == RangeOf(sorted, i, j) {
      var k := RunIsFrom(sorted, starts, i, j);
      assert ranges[k] == r;
    }
  }

  /** Some run begins at the address. */
  ghost predicate RunBeginsAt(sorted: seq<DecodeExtent>, entry: u32) {
    exists i: nat, j: nat :: IsRun(sorted, i, j) && sorted[i].start == entry
  }

  /** Some run begins before the address and ends after it. */
  ghost predicate RunHolds(sorted: seq<DecodeExtent>, entry: u32) {
    exists i: nat, j: nat :: IsRun(sorted, i, j) && sorted[i].start < entry < sorted[j].end
  }

  lemma RunsDecide(sorted: seq<DecodeExtent>, entry: u32)
    ensures StartsAt(Merged(sorted), entry) <==> RunBeginsAt(sorted, entry)
    ensures HoldsInside(Merged(sorted), entry) <==> RunHolds(sorted, entry)
  {
    var ranges := Merged(sorted);
    hide Merged, IsRun;
    if k :| 0 <= k < |ranges| && ranges[k].start == entry {
      MergedRuns(sorted, ranges[k]);
    }
    if k :| 0 <= k < |ranges| && ranges[k].start < entry < ranges[k].end {
      MergedRuns(sorted, ranges[k]);
    }
    if i: nat, j: nat :| IsRun(sorted, i, j) && sorted[i].start == entry {
      MergedRuns(sorted, RangeOf(sorted, i, j));
    }
    if i: nat, j: nat :| IsRun(sorted, i, j) && sorted[i].start < entry < sorted[j].end {
      MergedRuns(sorted, RangeOf(sorted, i, j));
    }
  }

  /** For any extents: there are no runs, or none begins at the entry and one holds it, or none begins or holds it. */
  lemma EntryAlways(entry: u32, extents: seq<DecodeExtent>, e: DecodeRangeError)
    requires e.address == entry && e.end == None
    ensures var sorted := Sort(ExtentBefore, extents);
            && (e.kind.EmptyProjection? ==> (e in AllErrors(entry, extents) <==> extents == []))
            && (e.kind.EntryNotRangeStart? ==>
                  (e in AllErrors(entry, extents) <==> !RunBeginsAt(sorted, entry) && RunHolds(sorted, entry)))
            && (e.kind.MissingInstructionAtEntry? ==>
                  (e in AllErrors(entry, extents) <==>
                     extents != [] && !RunBeginsAt(sorted, entry) && !RunHolds(sorted, entry)))
  {
    var sorted := Sort(ExtentBefore, extents);
    RunsDecide(sorted, entry);
    MergedNothing(sorted);
    NotAnEntryError(entry, extents, e);
    hide Merged, SweepErrors, AllElementErrors, RunBeginsAt, RunHolds, StartsAt, HoldsInside;
    if extents == [] {
      NoRuns(entry);
    }
  }

  lemma MergedNothing(sorted: seq<DecodeExtent>)
    ensures Merged(sorted) == [] <==> sorted == []
  {
  }

  lemma NoRuns(entry: u32)
    ensures !RunBeginsAt([], entry) && !RunHolds([], entry)
  {
  }

  lemma ElementErrorsEnd(extents: seq<DecodeExtent>, e: DecodeRangeError)
    requires e.end == None
    ensures e !in AllElementErrors(extents)
  {
    ElementErrorsMean(extents, e);
  }

  lemma SweepErrorsEnd(sorted: seq<DecodeExtent>, e: DecodeRangeError)
    requires e.end == None
    ensures e !in SweepErrors(sorted, |sorted|)
  {
    SweepSteps(sorted, |sorted|, e);
    hide SweepErrors, MaximalPrior;
  }

  /** Only the entry errors have no end. */
  lemma NotAnEntryError(entry: u32, extents: seq<DecodeExtent>, e: DecodeRangeError)
    requires e.end == None
    ensures e in AllErrors(entry, extents) <==> e in EntryErrors(entry, Merged(Sort(ExtentBefore, extents)))
  {
    hide *;
    ErrorsAre(entry, extents);
    ElementErrorsEnd(extents, e);
    SweepErrorsEnd(Sort(ExtentBefore, extents), e);
  }

  lemma ErrorsAre(entry: u32, extents: seq<DecodeExtent>)
    ensures var sorted := Sort(ExtentBefore, extents);
            AllErrors(entry, extents)
            == AllElementErrors(extents) + SweepErrors(sorted, |sorted|) + EntryErrors(entry, Merged(sorted))
  {
    hide Sort, SweepErrors, AllElementErrors, EntryErrors, Merged;
  }
}
