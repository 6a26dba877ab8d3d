/**
 * Canonical decode ranges. Instruction extents are sorted, swept for overlaps and merged; the outcome,
 * accepted or refused, does not depend on the order the extents came in.
 */
module ExecutionRanges {
  import opened Words
  import opened Arm32
  import opened Sorting

  datatype DecodeExtent = DecodeExtent(start: u32, end: u32, isa: Isa)

  datatype ErrorKind =
    | DuplicateExtent
    | EmptyProjection
    | EntryNotRangeStart
    | InvalidInstructionLength
    | MisalignedInstruction
    | MissingInstructionAtEntry
    | OverlappingExtent

  datatype DecodeRangeError = DecodeRangeError(kind: ErrorKind, address: u32, end: Option<u32>)

  function IsaRank(isa: Isa): nat {
    if isa.Arm? then 0 else 1
  }

  predicate ExtentBefore(a: DecodeExtent, b: DecodeExtent) {
    || a.start < b.start
    || (a.start == b.start && a.end < b.end)
    || (a.start == b.start && a.end == b.end && IsaRank(a.isa) <= IsaRank(b.isa))
  }

  /** Error kinds in the alphabetical order of their names. */
  function KindRank(kind: ErrorKind): nat {
    match kind
    case DuplicateExtent => 0
    case EmptyProjection => 1
    case EntryNotRangeStart => 2
    case InvalidInstructionLength => 3
    case MisalignedInstruction => 4
    case MissingInstructionAtEntry => 5
    case OverlappingExtent => 6
  }

  function EndRank(end: Option<u32>): int {
    if end.None? then -1 else end.value
  }

  predicate ErrorBefore(a: DecodeRangeError, b: DecodeRangeError) {
    || a.address < b.address
    || (a.address == b.address && KindRank(a.kind) < KindRank(b.kind))
    || (a.address == b.address && a.kind == b.kind && EndRank(a.end) <= EndRank(b.end))
  }

  lemma ExtentOrder()
    ensures TotalOrder(ExtentBefore) && forall x, y :: ExtentBefore(x, y) && ExtentBefore(y, x) ==> x == y
  {
  }

  lemma ErrorOrder()
    ensures TotalOrder(ErrorBefore) && forall x, y :: ErrorBefore(x, y) && ErrorBefore(y, x) ==> x == y
  {
  }

  // ---------------------------------------------------------------- specification

  predicate AlignedExtent(e: DecodeExtent) {
    var unit := if e.isa.Arm? then 4 else 2;
    e.start % unit == 0 && e.start <= e.end && (e.end - e.start) % unit == 0
  }

  /** What is wrong with one extent by itself. */
  function ElementErrors(e: DecodeExtent): seq<DecodeRangeError> {
    (if e.end <= e.start then [DecodeRangeError(InvalidInstructionLength, e.start, Some(e.end))] else [])
    + if !AlignedExtent(e) then [DecodeRangeError(MisalignedInstruction, e.start, Some(e.end))] else []
  }

  function AllElementErrors(xs: seq<DecodeExtent>): seq<DecodeRangeError> {
    if xs == [] then [] else AllElementErrors(xs[..|xs| - 1]) + ElementErrors(xs[|xs| - 1])
  }

  /** What the sweep reports at an extent, given the one before it and the one that reaches furthest. */
  function StepErrors(previous: DecodeExtent, prior: DecodeExtent, current: DecodeExtent): seq<DecodeRangeError> {
    (if current.start == previous.start && current.end == previous.end then
       [DecodeRangeError(DuplicateExtent, current.start, Some(current.end))] else [])
    + if current.start < prior.end then
        [DecodeRangeError(OverlappingExtent, prior.start, Some(prior.end)),
         DecodeRangeError(OverlappingExtent, current.start, Some(current.end))]
      else []
  }

  /** The first of the leading extents that reaches furthest. */
  function MaximalPrior(sorted: seq<DecodeExtent>, n: nat): DecodeExtent
    requires 1 <= n <= |sorted|
  {
    if n == 1 then sorted[0]
    else
      var prior := MaximalPrior(sorted, n - 1);
      if sorted[n - 1].end > prior.end then sorted[n - 1] else prior
  }

  function SweepErrors(sorted: seq<DecodeExtent>, n: nat): seq<DecodeRangeError>
    requires n <= |sorted|
  {
    if n <= 1 then []
    else SweepErrors(sorted, n - 1) + StepErrors(sorted[n - 2], MaximalPrior(sorted, n - 1), sorted[n - 1])
  }

  /** Extends the last range, or starts a new one. */
  function Extend(ranges: seq<DecodeExtent>, e: DecodeExtent): seq<DecodeExtent> {
    if ranges != [] && ranges[|ranges| - 1].isa == e.isa && ranges[|ranges| - 1].end == e.start then
      ranges[..|ranges| - 1] + [ranges[|ranges| - 1].(end := e.end)]
    else ranges + [e]
  }

  function Merged(sorted: seq<DecodeExtent>): seq<DecodeExtent> {
    if sorted == [] then [] else Extend(Merged(sorted[..|sorted| - 1]), sorted[|sorted| - 1])
  }

  predicate StartsAt(ranges: seq<DecodeExtent>, entry: u32) {
    exists k :: 0 <= k < |ranges| && ranges[k].start == entry
  }

  predicate HoldsInside(ranges: seq<DecodeExtent>, entry: u32) {
    exists k :: 0 <= k < |ranges| && ranges[k].start < entry < ranges[k].end
  }

  function EntryErrors(entry: u32, ranges: seq<DecodeExtent>): seq<DecodeRangeError> {
    if ranges == [] then [DecodeRangeError(EmptyProjection, entry, None)]
    else if StartsAt(ranges, entry) then []
    else [DecodeRangeError(if HoldsInside(ranges, entry) then EntryNotRangeStart else MissingInstructionAtEntry,
                           entry, None)]
  }

  /** Consecutive equal errors are reported once. */
  function Dedup(errors: seq<DecodeRangeError>): seq<DecodeRangeError> {
    if errors == [] then []
    else if |errors| > 1 && errors[|errors| - 2] == errors[|errors| - 1] then Dedup(errors[..|errors| - 1])
    else Dedup(errors[..|errors| - 1]) + [errors[|errors| - 1]]
  }

  function AllErrors(entry: u32, extents: seq<DecodeExtent>): seq<DecodeRangeError> {
    var sorted := Sort(ExtentBefore, extents);
    AllElementErrors(extents) + SweepErrors(sorted, |sorted|) + EntryErrors(entry, Merged(sorted))
  }

  function Canonical(entry: u32, extents: seq<DecodeExtent>): Result<seq<DecodeExtent>, seq<DecodeRangeError>> {
    var errors := AllErrors(entry, extents);
    if errors != [] then Failure(Dedup(Sort(ErrorBefore, errors)))
    else Success(Merged(Sort(ExtentBefore, extents)))
  }

  // ---------------------------------------------------------------- the operation

  /** Each error comes strictly before the later ones. */
  ghost predicate StrictlyOrdered(errors: seq<DecodeRangeError>) {
    forall i, j | 0 <= i < j < |errors| :: ErrorBefore(errors[i], errors[j]) && errors[i] != errors[j]
  }

  lemma LaterDiffers(errors: seq<DecodeRangeError>, e: DecodeRangeError)
    requires SortedBy(ErrorBefore, errors) && |errors| > 1 && errors[|errors| - 2] != errors[|errors| - 1]
    requires e in errors[..|errors| - 1]
    ensures ErrorBefore(e, errors[|errors| - 1]) && e != errors[|errors| - 1]
  {
    var n := |errors| - 1;
    var k :| 0 <= k < n && errors[k] == e;
    ErrorOrder();
    hide ErrorBefore;
    assert k < n - 1 ==> ErrorBefore(errors[k], errors[n - 1]);
    assert ErrorBefore(errors[n - 1], errors[n]) && ErrorBefore(errors[k], errors[n]);
  }

  lemma OrderedMore(kept: seq<DecodeRangeError>, last: DecodeRangeError)
    requires StrictlyOrdered(kept)
    requires forall e | e in kept :: ErrorBefore(e, last) && e != last
    ensures StrictlyOrdered(kept + [last])
  {
    hide ErrorBefore;
    assert forall i | 0 <= i < |kept| :: kept[i] in kept;
  }

  /** Dropping repetitions from a sorted list keeps its members and orders them strictly. */
  lemma {:induction false} DedupOrders(errors: seq<DecodeRangeError>)
    requires SortedBy(ErrorBefore, errors)
    ensures StrictlyOrdered(Dedup(errors))
    ensures forall e :: e in Dedup(errors) <==> e in errors
    decreases |errors|
  {
    hide ErrorBefore, StrictlyOrdered;
    if errors == [] {
      NothingOrdered();
    } else {
      var n := |errors| - 1;
      var rest, last := errors[..n], errors[n];
      DedupOrders(rest);
      assert errors == rest + [last];
      if n > 0 && errors[n - 1] == last {
        assert Dedup(errors) == Dedup(rest);
        assert rest[n - 1] == last;
      } else {
        assert Dedup(errors) == Dedup(rest) + [last];
        forall e | e in Dedup(rest)
          ensures ErrorBefore(e, last) && e != last
        {
          LaterDiffers(errors, e);
        }
        OrderedMore(Dedup(rest), last);
      }
    }
  }

  lemma SortedOnce(errors: seq<DecodeRangeError>)
    ensures StrictlyOrdered(Dedup(Sort(ErrorBefore, errors)))
    ensures forall e :: e in Dedup(Sort(ErrorBefore, errors)) <==> e in errors
  {
    ErrorOrder();
    SortSorted(ErrorBefore, errors);
    SortMembers(ErrorBefore, errors);
    hide Sort, ErrorBefore, StrictlyOrdered;
    DedupOrders(Sort(ErrorBefore, errors));
  }

  lemma NothingOrdered()
    ensures StrictlyOrdered([]) && Dedup([]) == []
  {
  }

  /** `dedup`: keeps the first of each run of equal errors. */
  method CanonicalizeErrors(errors: seq<DecodeRangeError>) returns (kept: seq<DecodeRangeError>)
    ensures kept == Dedup(Sort(ErrorBefore, errors))
    ensures StrictlyOrdered(kept) && forall e :: e in kept <==> e in errors
  {
    hide ErrorBefore, StrictlyOrdered, Sort;
    SortedOnce(errors);
    var sorted := Sort(ErrorBefore, errors);
    kept := [];
    assert sorted[..0] == [];
    for k := 0 to |sorted|
      invariant kept == Dedup(sorted[..k])
    {
      assert sorted[..k + 1][..k] == sorted[..k];
      if k == 0 || sorted[k - 1] != sorted[k] {
        kept := kept + [sorted[k]];
      }
    }
    assert sorted[..|sorted|] == sorted;
  }

  /** Collects every error; without any, the merged ranges. */
  method CanonicalizeInstructionExtents(entry: u32, extents: seq<DecodeExtent>)
    returns (r: Result<seq<DecodeExtent>, seq<DecodeRangeError>>)
    ensures r == Canonical(entry, extents)
  {
    hide Sort, ElementErrors, StepErrors, Extend, EntryErrors;
    var errors := [];
    assert extents[..0] == [];
    for k := 0 to |extents|
      invariant errors == AllElementErrors(extents[..k])
    {
      assert extents[..k + 1][..k] == extents[..k];
      errors := errors + ElementErrors(extents[k]);
    }
    assert extents[..|extents|] == extents;
    var sorted := Sort(ExtentBefore, extents);
    ghost var before := errors;
    if sorted != [] {
      var prior := sorted[0];
      for index := 1 to |sorted|
        invariant prior == MaximalPrior(sorted, index)
        invariant errors == before + SweepErrors(sorted, index)
      {
        errors := errors + StepErrors(sorted[index - 1], prior, sorted[index]);
        if sorted[index].end > prior.end {
          prior := sorted[index];
        }
      }
    }
    var ranges := [];
    assert sorted[..0] == [];
    for k := 0 to |sorted|
      invariant ranges == Merged(sorted[..k])
    {
      assert sorted[..k + 1][..k] == sorted[..k];
      ranges := Extend(ranges, sorted[k]);
    }
    assert sorted[..|sorted|] == sorted;
    errors := errors + EntryErrors(entry, ranges);
    if errors != [] {
      errors := CanonicalizeErrors(errors);
      return Failure(errors);
    }
    r := Success(ranges);
  }

  // ---------------------------------------------------------------- when the sweep reports nothing

  ghost predicate AllPositive(xs: seq<DecodeExtent>) {
    forall k | 0 <= k < |xs| :: xs[k].start < xs[k].end
  }

  ghost predicate AllAligned(xs: seq<DecodeExtent>) {
    forall k | 0 <= k < |xs| :: AlignedExtent(xs[k])
  }

  /** Sorted, nonempty and disjoint. */
  ghost predicate InOrder(xs: seq<DecodeExtent>) {
    AllPositive(xs) && forall i, j | 0 <= i < j < |xs| :: xs[i].end <= xs[j].start
  }

  predicate ExtentsApart(a: DecodeExtent, b: DecodeExtent) {
    !(a.start < b.end && b.start < a.end)
  }

  lemma {:induction false} ElementErrorsNone(xs: seq<DecodeExtent>)
    ensures AllElementErrors(xs) == [] <==> AllPositive(xs) && AllAligned(xs)
    decreases |xs|
  {
    if xs != [] {
      var rest := xs[..|xs| - 1];
      ElementErrorsNone(rest);
      assert xs == rest + [xs[|xs| - 1]];
      hide AlignedExtent;
    }
  }

  lemma {:induction false} MaximalPriorBounds(sorted: seq<DecodeExtent>, n: nat, k: nat)
    requires 1 <= n <= |sorted| && k < n
    ensures sorted[k].end <= MaximalPrior(sorted, n).end
    ensures exists i :: 0 <= i < n && sorted[i] == MaximalPrior(sorted, n)
    decreases n
  {
    if n > 1 {
      MaximalPriorBounds(sorted, n - 1, if k < n - 1 then k else 0);
      var i :| 0 <= i < n - 1 && sorted[i] == MaximalPrior(sorted, n - 1);
    }
  }

  ghost predicate DisjointUpTo(sorted: seq<DecodeExtent>, n: nat)
    requires n <= |sorted|
  {
    forall i, j | 0 <= i < j < n :: sorted[i].end <= sorted[j].start
  }

  lemma StepClear(sorted: seq<DecodeExtent>, n: nat)
    requires 1 <= n < |sorted| && SortedBy(ExtentBefore, sorted) && AllPositive(sorted)
    ensures StepErrors(sorted[n - 1], MaximalPrior(sorted, n), sorted[n]) == []
            <==> forall i | 0 <= i < n :: sorted[i].end <= sorted[n].start
  {
    forall i | 0 <= i < n
      ensures sorted[i].end <= MaximalPrior(sorted, n).end
    {
      MaximalPriorBounds(sorted, n, i);
    }
    MaximalPriorBounds(sorted, n, 0);
    hide MaximalPrior;
    assert sorted[n - 1].start < sorted[n - 1].end;
  }

  /** Comparing each extent with the one that reaches furthest finds every overlap. */
  lemma {:induction false} SweepFindsOverlaps(sorted: seq<DecodeExtent>, n: nat)
    requires n <= |sorted| && SortedBy(ExtentBefore, sorted) && AllPositive(sorted)
    ensures SweepErrors(sorted, n) == [] <==> DisjointUpTo(sorted, n)
    decreases n
  {
    if n > 1 {
      SweepFindsOverlaps(sorted, n - 1);
      StepClear(sorted, n - 1);
      hide StepErrors, MaximalPrior;
      var reported := StepErrors(sorted[n - 2], MaximalPrior(sorted, n - 1), sorted[n - 1]);
      assert SweepErrors(sorted, n) == SweepErrors(sorted, n - 1) + reported;
    }
  }

  lemma SortedExtents(extents: seq<DecodeExtent>)
    ensures var sorted := Sort(ExtentBefore, extents);
            && SortedBy(ExtentBefore, sorted) && multiset(sorted) == multiset(extents)
            && (forall x :: x in sorted <==> x in extents)
            && (AllPositive(extents) <==> AllPositive(sorted))
            && (Pairwise(ExtentsApart, extents) <==> Pairwise(ExtentsApart, sorted))
  {
    var sorted := Sort(ExtentBefore, extents);
    ExtentOrder();
    SortMembers(ExtentBefore, extents);
    SortSorted(ExtentBefore, extents);
    ApartPermuted(extents, sorted);
    ApartPermuted(sorted, extents);
    PositivePermuted(extents, sorted);
    PositivePermuted(sorted, extents);
  }

  lemma ApartPermuted(xs: seq<DecodeExtent>, ys: seq<DecodeExtent>)
    requires multiset(xs) == multiset(ys)
    ensures Pairwise(ExtentsApart, xs) ==> Pairwise(ExtentsApart, ys)
  {
    if Pairwise(ExtentsApart, xs) {
      PairwisePermuted(ExtentsApart, xs, ys);
    }
  }

  lemma PositivePermuted(xs: seq<DecodeExtent>, ys: seq<DecodeExtent>)
    requires forall x :: x in ys ==> x in xs
    ensures AllPositive(xs) ==> AllPositive(ys)
  {
    if AllPositive(xs) {
      forall k | 0 <= k < |ys|
        ensures ys[k].start < ys[k].end
      {
        assert ys[k] in xs;
      }
    }
  }

  lemma SortedDisjoint(sorted: seq<DecodeExtent>)
    requires SortedBy(ExtentBefore, sorted) && AllPositive(sorted)
    ensures DisjointUpTo(sorted, |sorted|) <==> Pairwise(ExtentsApart, sorted)
    ensures DisjointUpTo(sorted, |sorted|) <==> InOrder(sorted)
  {
    forall i, j | 0 <= i < j < |sorted|
      ensures ExtentsApart(sorted[i], sorted[j]) <==> sorted[i].end <= sorted[j].start
    {
      assert ExtentBefore(sorted[i], sorted[j]);
    }
  }

  // ---------------------------------------------------------------- what merging keeps

  /** The address holds an instruction of the set. */
  ghost predicate Decodes(xs: seq<DecodeExtent>, a: int, isa: Isa) {
    exists k :: 0 <= k < |xs| && xs[k].isa == isa && xs[k].start <= a < xs[k].end
  }

  /** No range could be joined with the next one. */
  ghost predicate FullyMerged(xs: seq<DecodeExtent>) {
    forall i, j | 0 <= i < j < |xs| && j == i + 1 :: !(xs[i].isa == xs[j].isa && xs[i].end == xs[j].start)
  }

  ghost predicate IsCanonical(xs: seq<DecodeExtent>) {
    InOrder(xs) && FullyMerged(xs)
  }

  lemma ExtendKeeps(ranges: seq<DecodeExtent>, e: DecodeExtent)
    requires IsCanonical(ranges) && e.start < e.end
    requires ranges != [] ==> ranges[|ranges| - 1].end <= e.start
    ensures IsCanonical(Extend(ranges, e)) && Extend(ranges, e) != []
    ensures Extend(ranges, e)[|Extend(ranges, e)| - 1].end == e.end
  {
    if ranges != [] && ranges[|ranges| - 1].isa == e.isa && ranges[|ranges| - 1].end == e.start {
      LastLonger(ranges, e);
    } else {
      OneMoreRange(ranges, e);
    }
  }

  lemma LastLonger(ranges: seq<DecodeExtent>, e: DecodeExtent)
    requires IsCanonical(ranges) && e.start < e.end && ranges != [] && ranges[|ranges| - 1].end == e.start
    ensures IsCanonical(ranges[..|ranges| - 1] + [ranges[|ranges| - 1].(end := e.end)])
  {
    var n := |ranges| - 1;
    var longer := ranges[..n] + [ranges[n].(end := e.end)];
    assert forall k | 0 <= k < n :: longer[k] == ranges[k];
    assert longer[n].start == ranges[n].start && longer[n].isa == ranges[n].isa;
  }

  lemma OneMoreRange(ranges: seq<DecodeExtent>, e: DecodeExtent)
    requires IsCanonical(ranges) && e.start < e.end
    requires ranges != [] ==> ranges[|ranges| - 1].end <= e.start
    requires ranges != [] ==> !(ranges[|ranges| - 1].isa == e.isa && ranges[|ranges| - 1].end == e.start)
    ensures IsCanonical(ranges + [e])
  {
    var n := |ranges|;
    var longer := ranges + [e];
    assert forall k | 0 <= k < n :: longer[k] == ranges[k];
    forall k | 0 <= k < n
      ensures ranges[k].end <= e.start
    {
      assert k < n - 1 ==> ranges[k].end <= ranges[n - 1].start;
    }
  }

  lemma ExtendDecodes(ranges: seq<DecodeExtent>, e: DecodeExtent, a: int, isa: Isa)
    requires e.start < e.end && AllPositive(ranges)
    ensures Decodes(Extend(ranges, e), a, isa)
            <==> Decodes(ranges, a, isa) || (e.isa == isa && e.start <= a < e.end)
  {
    var longer := Extend(ranges, e);
    var n := |longer| - 1;
    if e.isa == isa && e.start <= a < e.end {
      assert longer[n].isa == isa && longer[n].start <= a < longer[n].end;
    }
    if k :| 0 <= k < |ranges| && ranges[k].isa == isa && ranges[k].start <= a < ranges[k].end {
      assert longer[k].isa == isa && longer[k].start <= a < longer[k].end;
    }
    if k :| 0 <= k < |longer| && longer[k].isa == isa && longer[k].start <= a < longer[k].end {
      assert k < n ==> longer[k] == ranges[k];
      if k == n && !(e.start <= a < e.end && e.isa == isa) {
        assert ranges[n].start <= a < ranges[n].end && ranges[n].isa == isa;
      }
    }
  }

  /** Merging keeps exactly the decoded addresses, and leaves nothing to merge. */
  lemma {:induction false} MergedKeeps(sorted: seq<DecodeExtent>)
    requires InOrder(sorted)
    ensures IsCanonical(Merged(sorted))
    ensures forall a, isa :: Decodes(Merged(sorted), a, isa) <==> Decodes(sorted, a, isa)
    ensures sorted != [] ==>
              Merged(sorted) != [] && Merged(sorted)[|Merged(sorted)| - 1].end == sorted[|sorted| - 1].end
    decreases |sorted|
  {
    if sorted != [] {
      var n := |sorted| - 1;
      var rest := sorted[..n];
      MergedKeeps(rest);
      ExtendKeeps(Merged(rest), sorted[n]);
      hide Extend;
      forall a, isa
        ensures Decodes(Merged(sorted), a, isa) <==> Decodes(sorted, a, isa)
      {
        ExtendDecodes(Merged(rest), sorted[n], a, isa);
        DecodesLast(sorted, a, isa);
      }
    }
  }

  lemma DecodesLast(xs: seq<DecodeExtent>, a: int, isa: Isa)
    requires xs != []
    ensures var n := |xs| - 1;
            Decodes(xs, a, isa) <==> Decodes(xs[..n], a, isa) || (xs[n].isa == isa && xs[n].start <= a < xs[n].end)
  {
    var n := |xs| - 1;
    if k :| 0 <= k < |xs| && xs[k].isa == isa && xs[k].start <= a < xs[k].end {
      assert k < n ==> xs[..n][k] == xs[k];
    }
    if k :| 0 <= k < n && xs[..n][k].isa == isa && xs[..n][k].start <= a < xs[..n][k].end {
      assert xs[k] == xs[..n][k];
    }
  }

  /** In a canonical list a range starts where an instruction set begins. */
  lemma CanonicalStarts(xs: seq<DecodeExtent>, a: u32)
    requires IsCanonical(xs)
    ensures StartsAt(xs, a) <==> exists isa :: Decodes(xs, a, isa) && !Decodes(xs, a - 1, isa)
  {
    if k :| 0 <= k < |xs| && xs[k].start == a {
      assert Decodes(xs, a, xs[k].isa);
      assert !Decodes(xs, a - 1, xs[k].isa) by {
        forall j | 0 <= j < |xs| && xs[j].isa == xs[k].isa
          ensures !(xs[j].start <= a - 1 < xs[j].end)
        {
          StartsFresh(xs, j, k);
        }
      }
    }
    if isa :| Decodes(xs, a, isa) && !Decodes(xs, a - 1, isa) {
      var k :| 0 <= k < |xs| && xs[k].isa == isa && xs[k].start <= a < xs[k].end;
      BeginsOrContinues(xs, k, a);
    }
  }

  lemma BeginsOrContinues(xs: seq<DecodeExtent>, k: nat, a: u32)
    requires k < |xs| && xs[k].start <= a < xs[k].end
    ensures xs[k].start == a || Decodes(xs, a - 1, xs[k].isa)
  {
    if xs[k].start < a {
      assert xs[k].start <= a - 1 < xs[k].end;
    }
  }

  lemma StartsFresh(xs: seq<DecodeExtent>, j: nat, k: nat)
    requires IsCanonical(xs) && j < |xs| && k < |xs| && xs[j].isa == xs[k].isa
    ensures !(xs[j].start <= xs[k].start - 1 < xs[j].end)
  {
    if j < k {
      assert xs[j].end <= xs[k].start;
      if j + 1 < k {
        assert xs[j].end <= xs[j + 1].start && xs[j + 1].end <= xs[k].start;
      }
    } else if k < j {
      assert xs[k].end <= xs[j].start;
    }
  }

  lemma FirstStarts(xs: seq<DecodeExtent>, a: int, isa: Isa)
    requires InOrder(xs) && Decodes(xs, a, isa)
    ensures xs != [] && xs[0].start <= a && (a < xs[0].end ==> xs[0].isa == isa)
  {
    var k :| 0 <= k < |xs| && xs[k].isa == isa && xs[k].start <= a < xs[k].end;
    if k > 0 {
      assert xs[0].end <= xs[k].start;
    }
  }

  lemma DecodesFirst(xs: seq<DecodeExtent>)
    requires xs != [] && xs[0].start < xs[0].end
    ensures Decodes(xs, xs[0].start, xs[0].isa) && Decodes(xs, xs[0].end - 1, xs[0].isa)
  {
  }

  /** The first range ends where its instruction set ends. */
  lemma FirstEnds(xs: seq<DecodeExtent>)
    requires IsCanonical(xs) && xs != []
    ensures !Decodes(xs, xs[0].end, xs[0].isa)
    ensures forall a | xs[0].start <= a < xs[0].end :: Decodes(xs, a, xs[0].isa)
  {
    forall k | 0 <= k < |xs| && xs[k].isa == xs[0].isa
      ensures !(xs[k].start <= xs[0].end < xs[k].end)
    {
      if k > 0 {
        StartsFresh(xs, 0, k);
        assert xs[0].end <= xs[k].start;
        if k > 1 {
          assert xs[0].end <= xs[1].start < xs[1].end <= xs[k].start;
        }
      }
    }
  }

  ghost predicate SameDecodes(xs: seq<DecodeExtent>, ys: seq<DecodeExtent>) {
    forall a, isa :: Decodes(xs, a, isa) <==> Decodes(ys, a, isa)
  }

  lemma SameFirst(xs: seq<DecodeExtent>, ys: seq<DecodeExtent>)
    requires IsCanonical(xs) && IsCanonical(ys) && SameDecodes(xs, ys) && xs != []
    ensures ys != [] && xs[0] == ys[0]
  {
    hide Decodes, FullyMerged;
    DecodesFirst(xs);
    FirstStarts(ys, xs[0].start, xs[0].isa);
    DecodesFirst(ys);
    FirstStarts(xs, ys[0].start, ys[0].isa);
    FirstEnds(xs);
    FirstEnds(ys);
    assert xs[0].start == ys[0].start && xs[0].isa == ys[0].isa;
    assert !(xs[0].end < ys[0].end) && !(ys[0].end < xs[0].end);
  }

  lemma TailDecodes(xs: seq<DecodeExtent>, a: int, isa: Isa)
    requires InOrder(xs) && xs != []
    ensures Decodes(xs[1..], a, isa) <==> Decodes(xs, a, isa) && a >= xs[0].end
  {
    if k :| 0 <= k < |xs| && xs[k].isa == isa && xs[k].start <= a < xs[k].end {
      assert k > 0 ==> xs[1..][k - 1] == xs[k] && xs[0].end <= xs[k].start;
    }
    if k :| 0 <= k < |xs[1..]| && xs[1..][k].isa == isa && xs[1..][k].start <= a < xs[1..][k].end {
      assert xs[k + 1] == xs[1..][k] && xs[0].end <= xs[k + 1].start;
    }
  }

  lemma TailCanonical(xs: seq<DecodeExtent>)
    requires IsCanonical(xs) && xs != []
    ensures IsCanonical(xs[1..])
  {
    forall i, j | 0 <= i < j < |xs[1..]| && j == i + 1
      ensures !(xs[1..][i].isa == xs[1..][j].isa && xs[1..][i].end == xs[1..][j].start)
    {
      assert xs[1..][i] == xs[i + 1] && xs[1..][j] == xs[j + 1];
    }
  }

  /** A canonical list is determined by what it decodes. */
  lemma {:induction false} CanonicalUnique(xs: seq<DecodeExtent>, ys: seq<DecodeExtent>)
    requires IsCanonical(xs) && IsCanonical(ys) && SameDecodes(xs, ys)
    ensures xs == ys
    decreases |xs|
  {
    hide IsCanonical, Decodes;
    if xs == [] {
      if ys != [] {
        SameFirst(ys, xs);
      }
    } else {
      SameFirst(xs, ys);
      CanonicalInOrder(xs);
      CanonicalInOrder(ys);
      TailCanonical(xs);
      TailCanonical(ys);
      forall a, isa
        ensures Decodes(xs[1..], a, isa) <==> Decodes(ys[1..], a, isa)
      {
        TailDecodes(xs, a, isa);
        TailDecodes(ys, a, isa);
      }
      CanonicalUnique(xs[1..], ys[1..]);
      assert xs == [xs[0]] + xs[1..] && ys == [ys[0]] + ys[1..];
    }
  }

  lemma CanonicalInOrder(xs: seq<DecodeExtent>)
    requires IsCanonical(xs)
    ensures InOrder(xs)
  {
  }

  // ---------------------------------------------------------------- the theorems

  /** What a caller must supply, and nothing more: the order of the extents plays no part. */
  ghost predicate Acceptable(entry: u32, extents: seq<DecodeExtent>) {
    && extents != [] && AllPositive(extents) && AllAligned(extents)
    && Pairwise(ExtentsApart, extents)
    && exists isa :: Decodes(extents, entry, isa) && !Decodes(extents, entry - 1, isa)
  }

  lemma SameMembersDecode(xs: seq<DecodeExtent>, ys: seq<DecodeExtent>)
    requires forall x :: x in xs <==> x in ys
    ensures SameDecodes(xs, ys)
  {
    forall a, isa
      ensures Decodes(xs, a, isa) <==> Decodes(ys, a, isa)
    {
      if k :| 0 <= k < |xs| && xs[k].isa == isa && xs[k].start <= a < xs[k].end {
        assert xs[k] in ys;
      }
      if k :| 0 <= k < |ys| && ys[k].isa == isa && ys[k].start <= a < ys[k].end {
        assert ys[k] in xs;
      }
    }
  }

  /** For positive, disjoint extents the sorted list is in order and merges to the canonical list. */
  lemma MergedIsCanonical(extents: seq<DecodeExtent>)
    requires AllPositive(extents) && Pairwise(ExtentsApart, extents)
    ensures var sorted := Sort(ExtentBefore, extents);
            && IsCanonical(Merged(sorted)) && SameDecodes(Merged(sorted), extents)
            && (sorted == [] <==> extents == []) && (Merged(sorted) == [] <==> extents == [])
            && SweepErrors(sorted, |sorted|) == []
  {
    var sorted := Sort(ExtentBefore, extents);
    SortedExtents(extents);
    SortedDisjoint(sorted);
    SweepFindsOverlaps(sorted, |sorted|);
    hide Sort, Merged, IsCanonical, Decodes, InOrder;
    MergedKeeps(sorted);
    SameMembersDecode(sorted, extents);
    MergedEmpty();
  }

  lemma MergedEmpty()
    ensures Merged([]) == []
  {
  }

  /** Acceptance is exactly the stated condition; the accepted ranges are canonical and decode the same. */
  lemma AcceptedExactly(entry: u32, extents: seq<DecodeExtent>)
    ensures Canonical(entry, extents).Success? <==> Acceptable(entry, extents)
    ensures Canonical(entry, extents).Success? ==>
              var ranges := Canonical(entry, extents).value;
              IsCanonical(ranges) && SameDecodes(ranges, extents) && StartsAt(ranges, entry)
  {
    var sorted := Sort(ExtentBefore, extents);
    ElementErrorsNone(extents);
    SortedExtents(extents);
    hide Sort, Merged, IsCanonical, Decodes, AllElementErrors, SweepErrors, Pairwise, SortedBy, AllAligned, AllPositive;
    if AllPositive(extents) {
      SweepFindsOverlaps(sorted, |sorted|);
      SortedDisjoint(sorted);
      if Pairwise(ExtentsApart, extents) {
        MergedIsCanonical(extents);
        CanonicalStarts(Merged(sorted), entry);
      }
    }
  }

  lemma {:induction false} ElementErrorsConcat(xs: seq<DecodeExtent>, ys: seq<DecodeExtent>)
    ensures AllElementErrors(xs + ys) == AllElementErrors(xs) + AllElementErrors(ys)
    decreases |ys|
  {
    if ys == [] {
      assert xs + ys == xs;
    } else {
      var rest := ys[..|ys| - 1];
      ElementErrorsConcat(xs, rest);
      assert (xs + ys)[..|xs + ys| - 1] == xs + rest;
    }
  }

  lemma {:induction false} ElementErrorsPermuted(xs: seq<DecodeExtent>, ys: seq<DecodeExtent>)
    requires multiset(xs) == multiset(ys)
    ensures multiset(AllElementErrors(xs)) == multiset(AllElementErrors(ys))
    decreases |xs|
  {
    hide ElementErrors;
    if xs == [] {
      assert |multiset(ys)| == 0;
    } else {
      var x := xs[|xs| - 1];
      var rest := xs[..|xs| - 1];
      assert xs == rest + [x] && x in multiset(ys);
      var k :| 0 <= k < |ys| && ys[k] == x;
      var before, after := ys[..k], ys[k + 1..];
      assert ys == before + [x] + after;
      Removed(rest, before, x, after);
      ElementErrorsPermuted(rest, before + after);
      ElementErrorsConcat(before, after);
      ElementErrorsConcat(before, [x]);
      ElementErrorsConcat(before + [x], after);
      SingleErrors(x);
    }
  }

  lemma Removed(rest: seq<DecodeExtent>, before: seq<DecodeExtent>, x: DecodeExtent, after: seq<DecodeExtent>)
    requires multiset(rest + [x]) == multiset(before + [x] + after)
    ensures multiset(rest) == multiset(before + after)
  {
    assert multiset(rest + [x]) - multiset{x} == multiset(rest);
    assert multiset(before + [x] + after) - multiset{x} == multiset(before + after);
  }

  lemma SingleErrors(x: DecodeExtent)
    ensures AllElementErrors([x]) == ElementErrors(x)
  {
  }

  /** The outcome does not depend on the order of the extents: the same ranges, or the same errors. */
  lemma OrderIrrelevant(entry: u32, xs: seq<DecodeExtent>, ys: seq<DecodeExtent>)
    requires multiset(xs) == multiset(ys)
    ensures Canonical(entry, xs) == Canonical(entry, ys)
  {
    ExtentOrder();
    SortPermutation(ExtentBefore, xs, ys);
    ElementErrorsPermuted(xs, ys);
    hide Sort, AllElementErrors, SweepErrors, EntryErrors, Merged;
    var sorted := Sort(ExtentBefore, xs);
    var rest := SweepErrors(sorted, |sorted|) + EntryErrors(entry, Merged(sorted));
    SameTail(AllElementErrors(xs), AllElementErrors(ys), SweepErrors(sorted, |sorted|),
        EntryErrors(entry, Merged(sorted)));
    ErrorOrder();
    SortPermutation(ErrorBefore, AllErrors(entry, xs), AllErrors(entry, ys));
    assert |AllErrors(entry, xs)| == |AllErrors(entry, ys)| by {
      assert |multiset(AllErrors(entry, xs))| == |multiset(AllErrors(entry, ys))|;
    }
  }

  lemma SameTail(a: seq<DecodeRangeError>, b: seq<DecodeRangeError>, c: seq<DecodeRangeError>, d: seq<DecodeRangeError>)
    requires multiset(a) == multiset(b)
    ensures multiset(a + c + d) == multiset(b + c + d)
  {
  }

  lemma {:induction false} AlignedKept(sorted: seq<DecodeExtent>)
    requires InOrder(sorted) && AllAligned(sorted)
    ensures AllAligned(Merged(sorted))
    decreases |sorted|
  {
    if sorted != [] {
      var n := |sorted| - 1;
      AlignedKept(sorted[..n]);
      MergedKeeps(sorted[..n]);
      ExtendAligned(Merged(sorted[..n]), sorted[n]);
    }
  }

  lemma ExtendAligned(ranges: seq<DecodeExtent>, e: DecodeExtent)
    requires AllAligned(ranges) && AlignedExtent(e)
    ensures AllAligned(Extend(ranges, e))
  {
    hide AlignedExtent;
    if ranges != [] && ranges[|ranges| - 1].isa == e.isa && ranges[|ranges| - 1].end == e.start {
      AlignedJoin(ranges[|ranges| - 1], e);
    }
  }

  lemma AlignedJoin(a: DecodeExtent, b: DecodeExtent)
    requires AlignedExtent(a) && AlignedExtent(b) && a.isa == b.isa && a.end == b.start
    ensures AlignedExtent(a.(end := b.end))
  {
    if a.isa.Arm? {
      SumOfFours(a.end - a.start, b.end - b.start);
    } else {
      SumOfTwos(a.end - a.start, b.end - b.start);
    }
  }

  lemma SumOfFours(x: nat, y: nat)
    requires x % 4 == 0 && y % 4 == 0
    ensures (x + y) % 4 == 0
  {
  }

  lemma SumOfTwos(x: nat, y: nat)
    requires x % 2 == 0 && y % 2 == 0
    ensures (x + y) % 2 == 0
  {
  }

  /** Accepted ranges are accepted again, unchanged. */
  lemma CanonicalFixed(entry: u32, extents: seq<DecodeExtent>)
    requires Canonical(entry, extents).Success?
    ensures Canonical(entry, Canonical(entry, extents).value) == Canonical(entry, extents)
  {
    var ranges := Canonical(entry, extents).value;
    AcceptedExactly(entry, extents);
    AlignedRanges(entry, extents);
    ApartInOrder(ranges);
    hide Canonical, Decodes, AllAligned, AllPositive, Pairwise, IsCanonical;
    CanonicalStarts(ranges, entry);
    assert Acceptable(entry, ranges);
    AcceptedExactly(entry, ranges);
    CanonicalUnique(Canonical(entry, ranges).value, ranges);
  }

  lemma AlignedRanges(entry: u32, extents: seq<DecodeExtent>)
    requires Canonical(entry, extents).Success?
    ensures AllAligned(Canonical(entry, extents).value)
  {
    var sorted := Sort(ExtentBefore, extents);
    AcceptedExactly(entry, extents);
    SortedExtents(extents);
    SortedDisjoint(sorted);
    hide Sort, AlignedExtent;
    assert AllAligned(sorted) by {
      forall k | 0 <= k < |sorted|
        ensures AlignedExtent(sorted[k])
      {
        assert sorted[k] in extents;
      }
    }
    AlignedKept(sorted);
  }

  lemma ApartInOrder(xs: seq<DecodeExtent>)
    requires IsCanonical(xs)
    ensures AllPositive(xs) && Pairwise(ExtentsApart, xs)
  {
  }
}
