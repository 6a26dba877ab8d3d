/**
 * Building a runtime image from the raw image and a scatter plan. An accepted plan leaves every raw
 * address reading its raw byte, makes each destination read what the plan says, and maps nothing else.
 */
module ScatterPlan {
  import opened Words
  import opened Sorting
  import opened RuntimeImage

  const MAX_ENTRIES: nat := 256
  const MAX_LOGICAL_OUTPUT: nat := 512 * 1024 * 1024

  datatype Operation = NullOperation | Copy | Decompress1 | ZeroOperation

  datatype Descriptor = Descriptor(source: u32, destination: u32, size: u32, handler: u32) {
    function Destination(): Interval {
      Interval(destination, destination + size)
    }
  }

  datatype HandlerMap = HandlerMap(none: u32, copy: u32, decompress1: u32, zero: u32)

  datatype PlannedOutput = NoOutput | SelfCopy | Bytes(bytes: seq<byte>) | ZeroFill

  datatype PlannedEntry = PlannedEntry(index: nat, descriptor: Descriptor, operation: Operation,
                                       compressedSize: Option<u32>, output: PlannedOutput)
  {
    /** Decompressed output that is all zero is kept as zero-fill. */
    predicate StoredAsZero() {
      output.ZeroFill? || (output.Bytes? && operation.Decompress1? && forall b | b in output.bytes :: b == 0)
    }

    predicate WritesMemory() {
      output.Bytes? || output.ZeroFill?
    }

    function ToSegment(): Option<Segment> {
      if WritesMemory() && descriptor.destination + descriptor.size < LIMIT32 then
        Some(Segment(descriptor.destination, descriptor.destination + descriptor.size,
                     if StoredAsZero() then Zero(index) else PlanBytes(output.bytes, index)))
      else None
    }
  }

  datatype LoadPlan = LoadPlan(imageBase: u32, imageSize: u32, handlers: HandlerMap, entries: seq<PlannedEntry>,
                               logicalOutputSize: u64)

  function HandlerFor(operation: Operation, plan: LoadPlan): u32 {
    match operation
    case NullOperation => plan.handlers.none
    case Copy => plan.handlers.copy
    case Decompress1 => plan.handlers.decompress1
    case ZeroOperation => plan.handlers.zero
  }

  // ---------------------------------------------------------------- sorting ranges

  function IntervalOf(s: Segment): Interval {
    Interval(s.start, s.end)
  }

  predicate SegmentBefore(s: Segment, t: Segment) {
    Before(IntervalOf(s), IntervalOf(t))
  }

  predicate SegmentsApart(s: Segment, t: Segment) {
    Apart(IntervalOf(s), IntervalOf(t))
  }

  predicate Nonempty(s: Segment) {
    s.start < s.end
  }

  lemma SegmentOrder()
    ensures TotalOrder(SegmentBefore)
  {
  }

  /** None of the first `n` segments overlaps the one before it. */
  ghost predicate NeighboursClear(sorted: seq<Segment>, n: nat)
    requires n <= |sorted|
  {
    forall k, l | 0 <= k < l < n && l == k + 1 :: SegmentsApart(sorted[k], sorted[l])
  }

  lemma SortedApart(sorted: seq<Segment>)
    requires SortedBy(SegmentBefore, sorted) && forall k | 0 <= k < |sorted| :: Nonempty(sorted[k])
    requires NeighboursClear(sorted, |sorted|)
    ensures Disjoint(sorted) && Pairwise(SegmentsApart, sorted)
  {
    var xs := seq(|sorted|, i requires 0 <= i < |sorted| => IntervalOf(sorted[i]));
    forall i, j | 0 <= i < j < |xs|
      ensures Before(xs[i], xs[j])
    {
      assert SegmentBefore(sorted[i], sorted[j]);
    }
    forall k, l | 0 <= k < l < |xs| && l == k + 1
      ensures Apart(xs[k], xs[l])
    {
      assert SegmentsApart(sorted[k], sorted[l]);
    }
    forall i, j | 0 <= i < j < |sorted|
      ensures sorted[i].end <= sorted[j].start
    {
      NeighboursApart(xs, i, j);
    }
  }

  ghost predicate CanBeImage(segments: seq<Segment>) {
    (forall k | 0 <= k < |segments| :: Nonempty(segments[k])) && Pairwise(SegmentsApart, segments)
  }

  lemma SameMembers(segments: seq<Segment>, sorted: seq<Segment>)
    requires multiset(segments) == multiset(sorted)
    ensures CanBeImage(segments) <==> CanBeImage(sorted)
  {
    SameMembersOneWay(segments, sorted);
    SameMembersOneWay(sorted, segments);
  }

  lemma SameMembersOneWay(xs: seq<Segment>, ys: seq<Segment>)
    requires multiset(xs) == multiset(ys)
    ensures CanBeImage(xs) ==> CanBeImage(ys)
  {
    if CanBeImage(xs) {
      PairwisePermuted(SegmentsApart, xs, ys);
      forall k | 0 <= k < |ys|
        ensures Nonempty(ys[k])
      {
        assert ys[k] in multiset(xs);
      }
    }
  }

  /** Sorts the segments; refuses exactly when one is empty or any two overlap. */
  method FromSegments(segments: seq<Segment>) returns (r: Result<seq<Segment>, string>)
    ensures r.Success? <==> CanBeImage(segments)
    ensures r.Success? ==> Disjoint(r.value) && multiset(r.value) == multiset(segments)
  {
    hide *;
    var sorted := Sort(SegmentBefore, segments);
    SortedSegments(segments);
    for k := 0 to |sorted|
      invariant forall j | 0 <= j < k :: Nonempty(sorted[j])
    {
      if !Nonempty(sorted[k]) {
        RefusedEmpty(sorted, k);
        return Failure("runtime segment is empty or wraps");
      }
    }
    FirstClear(sorted);
    var k := 1;
    while k < |sorted|
      invariant sorted != [] ==> 1 <= k <= |sorted| && NeighboursClear(sorted, k)
    {
      if !SegmentsApart(sorted[k - 1], sorted[k]) {
        RefusedOverlap(sorted, k);
        return Failure("runtime segments overlap ambiguously");
      }
      NextClear(sorted, k);
      k := k + 1;
    }
    SortedApart(sorted);
    AcceptedSegments(sorted);
    r := Success(sorted);
  }

  lemma SortedSegments(segments: seq<Segment>)
    ensures var sorted := Sort(SegmentBefore, segments);
            && SortedBy(SegmentBefore, sorted) && multiset(sorted) == multiset(segments)
            && (CanBeImage(segments) <==> CanBeImage(sorted))
  {
    SegmentOrder();
    SortMembers(SegmentBefore, segments);
    SortSorted(SegmentBefore, segments);
    SameMembers(segments, Sort(SegmentBefore, segments));
  }

  lemma FirstClear(sorted: seq<Segment>)
    ensures NeighboursClear(sorted, 0) && (sorted != [] ==> NeighboursClear(sorted, 1))
  {
  }

  lemma NextClear(sorted: seq<Segment>, k: nat)
    requires 0 < k < |sorted| && NeighboursClear(sorted, k) && SegmentsApart(sorted[k - 1], sorted[k])
    ensures NeighboursClear(sorted, k + 1)
  {
  }

  lemma RefusedEmpty(sorted: seq<Segment>, k: nat)
    requires k < |sorted| && !Nonempty(sorted[k])
    ensures !CanBeImage(sorted)
  {
  }

  lemma RefusedOverlap(sorted: seq<Segment>, k: nat)
    requires 0 < k < |sorted| && !SegmentsApart(sorted[k - 1], sorted[k])
    ensures !CanBeImage(sorted)
  {
  }

  lemma AcceptedSegments(sorted: seq<Segment>)
    requires (forall k | 0 <= k < |sorted| :: Nonempty(sorted[k])) && Pairwise(SegmentsApart, sorted)
    ensures CanBeImage(sorted)
  {
  }

  // ---------------------------------------------------------------- destinations

  ghost predicate AllRanges(ranges: seq<Interval>) {
    forall k | 0 <= k < |ranges| :: ranges[k].start < ranges[k].end
  }

  ghost predicate RangesClear(sorted: seq<Interval>, n: nat)
    requires n <= |sorted|
  {
    forall k, l | 0 <= k < l < n && l == k + 1 :: Apart(sorted[k], sorted[l])
  }

  lemma SortedRanges(ranges: seq<Interval>)
    requires AllRanges(ranges)
    ensures var sorted := Sort(Before, ranges);
            && (Pairwise(Apart, sorted) <==> Pairwise(Apart, ranges))
            && (RangesClear(sorted, |sorted|) ==> Pairwise(Apart, sorted))
  {
    var sorted := Sort(Before, ranges);
    BeforeOrders();
    SortMembers(Before, ranges);
    SortSorted(Before, ranges);
    RangesPermuted(ranges, sorted);
    RangesPermuted(sorted, ranges);
    forall k | 0 <= k < |sorted|
      ensures sorted[k].start < sorted[k].end
    {
      assert sorted[k] in ranges;
    }
    if RangesClear(sorted, |sorted|) {
      forall i, j | 0 <= i < j < |sorted|
        ensures Apart(sorted[i], sorted[j])
      {
        NeighboursApart(sorted, i, j);
      }
    }
  }

  lemma RangesPermuted(xs: seq<Interval>, ys: seq<Interval>)
    requires multiset(xs) == multiset(ys)
    ensures Pairwise(Apart, xs) ==> Pairwise(Apart, ys)
  {
    if Pairwise(Apart, xs) {
      PairwisePermuted(Apart, xs, ys);
    }
  }

  /** Sorts the destinations and compares neighbours: accepts exactly when no two overlap. */
  method RejectDestinationOverlap(destinations: seq<Interval>) returns (ok: bool)
    requires AllRanges(destinations)
    ensures ok <==> Pairwise(Apart, destinations)
  {
    hide *;
    var sorted := Sort(Before, destinations);
    SortedRanges(destinations);
    FirstRangeClear(sorted);
    var k := 1;
    while k < |sorted|
      invariant sorted != [] ==> 1 <= k <= |sorted| && RangesClear(sorted, k)
    {
      if !Apart(sorted[k - 1], sorted[k]) {
        RangesOverlap(sorted, k);
        return false;
      }
      NextRangeClear(sorted, k);
      k := k + 1;
    }
    ok := true;
  }

  lemma FirstRangeClear(sorted: seq<Interval>)
    ensures RangesClear(sorted, 0) && (sorted != [] ==> RangesClear(sorted, 1))
  {
  }

  lemma NextRangeClear(sorted: seq<Interval>, k: nat)
    requires 0 < k < |sorted| && RangesClear(sorted, k) && Apart(sorted[k - 1], sorted[k])
    ensures RangesClear(sorted, k + 1)
  {
  }

  lemma RangesOverlap(sorted: seq<Interval>, k: nat)
    requires 0 < k < |sorted| && !Apart(sorted[k - 1], sorted[k])
    ensures !Pairwise(Apart, sorted)
  {
  }

  // ---------------------------------------------------------------- what a plan must satisfy

  predicate RawFits(raw: seq<byte>, base: u32) {
    raw != [] && base + |raw| < LIMIT32
  }

  predicate DescriptorOk(plan: LoadPlan, e: PlannedEntry) {
    && e.descriptor.handler == HandlerFor(e.operation, plan)
    && (e.operation.Decompress1? <==> e.compressedSize.Some?)
  }

  predicate DestinationOk(e: PlannedEntry) {
    !e.operation.NullOperation? ==>
      && e.descriptor.size > 0 && e.descriptor.destination > 0
      && e.descriptor.destination + e.descriptor.size < LIMIT32
  }

  /** The output is one the operation can have; new bytes and zeros stay clear of the raw image. */
  predicate OutputOk(raw: seq<byte>, base: u32, e: PlannedEntry) {
    var d := e.descriptor;
    match e.output
    case NoOutput => e.operation.NullOperation? && d.size == 0
    case SelfCopy =>
      e.operation.Copy? && d.source == d.destination && base <= d.source && d.source - base + d.size <= |raw|
    case Bytes(bytes) =>
      && (e.operation.Copy? || e.operation.Decompress1?) && |bytes| == d.size
      && Apart(d.Destination(), Interval(base, base + |raw|))
    case ZeroFill => e.operation.ZeroOperation? && Apart(d.Destination(), Interval(base, base + |raw|))
  }

  predicate EntryOk(raw: seq<byte>, base: u32, plan: LoadPlan, e: PlannedEntry) {
    DescriptorOk(plan, e) && DestinationOk(e) && OutputOk(raw, base, e)
  }

  ghost predicate EntriesOk(raw: seq<byte>, base: u32, plan: LoadPlan, entries: seq<PlannedEntry>) {
    && (forall k | 0 <= k < |entries| :: EntryOk(raw, base, plan, entries[k]))
    && (forall k, l | 0 <= k < l < |entries| :: entries[k].index != entries[l].index)
  }

  function OutputSize(e: PlannedEntry): nat {
    if e.operation.NullOperation? then 0 else e.descriptor.size
  }

  ghost function TotalOutput(entries: seq<PlannedEntry>): nat {
    if entries == [] then 0
    else TotalOutput(entries[..|entries| - 1]) + OutputSize(entries[|entries| - 1])
  }

  /** The destinations of the entries that have one. */
  ghost function Destinations(entries: seq<PlannedEntry>): seq<Interval> {
    if entries == [] then []
    else
      var last := entries[|entries| - 1];
      Destinations(entries[..|entries| - 1])
      + if last.operation.NullOperation? then [] else [last.descriptor.Destination()]
  }

  /** The segments of the entries that write memory. */
  ghost function PlannedSegments(entries: seq<PlannedEntry>): seq<Segment> {
    if entries == [] then []
    else
      var last := entries[|entries| - 1].ToSegment();
      PlannedSegments(entries[..|entries| - 1]) + if last.Some? then [last.value] else []
  }

  ghost predicate PlanOk(raw: seq<byte>, base: u32, plan: LoadPlan) {
    && RawFits(raw, base) && plan.imageBase == base && plan.imageSize == |raw|
    && 1 <= |plan.entries| <= MAX_ENTRIES
    && EntriesOk(raw, base, plan, plan.entries)
    && TotalOutput(plan.entries) <= MAX_LOGICAL_OUTPUT && TotalOutput(plan.entries) == plan.logicalOutputSize
    && Pairwise(Apart, Destinations(plan.entries))
  }

  // ---------------------------------------------------------------- what an accepted plan means

  /** The byte an entry puts at an address of its destination. */
  function PlannedByte(e: PlannedEntry, a: int): byte {
    if e.output.Bytes? && 0 <= a - e.descriptor.destination < |e.output.bytes| then
      e.output.bytes[a - e.descriptor.destination]
    else 0
  }

  predicate WritesAt(e: PlannedEntry, a: int) {
    e.WritesMemory() && e.descriptor.destination <= a < e.descriptor.destination + e.descriptor.size
  }

  ghost predicate RawCell(raw: seq<byte>, base: u32, a: int, cell: Cell) {
    0 <= a - base < |raw| && cell == Cell(raw[a - base], RawStorage, None)
  }

  ghost predicate EntryCell(e: PlannedEntry, a: int, cell: Cell) {
    WritesAt(e, a)
    && cell == Cell(PlannedByte(e, a), if e.StoredAsZero() then ScatterZero else ScatterBytes, Some(e.index))
  }

  /** The memory the plan describes: the raw image, and each entry's bytes or zeros at its destination. */
  ghost predicate PlanMaps(raw: seq<byte>, base: u32, entries: seq<PlannedEntry>, a: int, cell: Cell) {
    RawCell(raw, base, a, cell) || exists k :: 0 <= k < |entries| && EntryCell(entries[k], a, cell)
  }

  lemma {:induction false} PlannedMembers(entries: seq<PlannedEntry>, s: Segment)
    ensures s in PlannedSegments(entries) <==> exists k :: 0 <= k < |entries| && entries[k].ToSegment() == Some(s)
    decreases |entries|
  {
    if entries != [] {
      var n := |entries| - 1;
      var rest := entries[..n];
      PlannedMembers(rest, s);
      if k :| 0 <= k < |rest| && rest[k].ToSegment() == Some(s) {
        assert entries[k].ToSegment() == Some(s);
      }
      if k :| 0 <= k < |entries| && entries[k].ToSegment() == Some(s) {
        assert k < n ==> rest[k].ToSegment() == Some(s);
      }
    }
  }

  /** The segment of an acceptable entry: in bounds, backed, and clear of the raw image. */
  lemma EntrySegment(raw: seq<byte>, base: u32, plan: LoadPlan, e: PlannedEntry)
    requires RawFits(raw, base) && EntryOk(raw, base, plan, e)
    ensures e.ToSegment().Some? <==> e.WritesMemory()
    ensures e.ToSegment().Some? ==>
              var s := e.ToSegment().value;
              && !e.operation.NullOperation? && IntervalOf(s) == e.descriptor.Destination()
              && s.Backed() && Apart(IntervalOf(s), Interval(base, base + |raw|))
    ensures forall a, cell :: EntryCell(e, a, cell) <==>
              e.ToSegment().Some? && e.ToSegment().value.Covers(a) && cell == CellOf(e.ToSegment().value, a)
  {
    forall a | WritesAt(e, a)
      ensures PlannedByte(e, a) == CellOf(e.ToSegment().value, a).value
    {
      if e.output.Bytes? {
        assert e.output.bytes[a - e.descriptor.destination] in e.output.bytes;
      }
    }
  }

  ghost predicate SegmentsFit(raw: seq<byte>, base: u32, segments: seq<Segment>, destinations: seq<Interval>) {
    && CanBeImage(segments) && AllBacked(segments)
    && (forall k | 0 <= k < |segments| ::
          Apart(IntervalOf(segments[k]), Interval(base, base + |raw|)) && IntervalOf(segments[k]) in destinations)
  }

  lemma {:induction false} PlannedFit(raw: seq<byte>, base: u32, plan: LoadPlan, entries: seq<PlannedEntry>)
    requires RawFits(raw, base) && EntriesOk(raw, base, plan, entries) && Pairwise(Apart, Destinations(entries))
    ensures SegmentsFit(raw, base, PlannedSegments(entries), Destinations(entries))
    decreases |entries|
  {
    if entries != [] {
      var n := |entries| - 1;
      var rest := entries[..n];
      PrefixApart(Destinations(rest), Destinations(entries));
      PlannedFit(raw, base, plan, rest);
      EntrySegment(raw, base, plan, entries[n]);
      if entries[n].ToSegment().Some? {
        FitMore(raw, base, PlannedSegments(rest), Destinations(rest), entries[n].ToSegment().value);
      } else {
        FitWider(raw, base, PlannedSegments(rest), Destinations(rest), Destinations(entries));
      }
    }
  }

  lemma PrefixApart(few: seq<Interval>, many: seq<Interval>)
    requires few <= many && Pairwise(Apart, many)
    ensures Pairwise(Apart, few)
  {
  }

  lemma FitMore(raw: seq<byte>, base: u32, segments: seq<Segment>, destinations: seq<Interval>, s: Segment)
    requires SegmentsFit(raw, base, segments, destinations)
    requires s.Backed() && Apart(IntervalOf(s), Interval(base, base + |raw|))
    requires Pairwise(Apart, destinations + [IntervalOf(s)])
    ensures SegmentsFit(raw, base, segments + [s], destinations + [IntervalOf(s)])
  {
    var more := destinations + [IntervalOf(s)];
    forall k | 0 <= k < |segments|
      ensures SegmentsApart(segments[k], s)
    {
      var i :| 0 <= i < |destinations| && destinations[i] == IntervalOf(segments[k]);
      assert more[i] == destinations[i] && more[|destinations|] == IntervalOf(s);
    }
  }

  lemma FitWider(raw: seq<byte>, base: u32, segments: seq<Segment>, few: seq<Interval>, many: seq<Interval>)
    requires SegmentsFit(raw, base, segments, few) && few <= many
    ensures SegmentsFit(raw, base, segments, many)
  {
  }

  function RawSegment(raw: seq<byte>, base: u32): Segment
    requires RawFits(raw, base)
  {
    Segment(base, base + |raw|, Raw(raw))
  }

  lemma WithRaw(raw: seq<byte>, base: u32, segments: seq<Segment>, destinations: seq<Interval>)
    requires RawFits(raw, base) && SegmentsFit(raw, base, segments, destinations)
    ensures CanBeImage([RawSegment(raw, base)] + segments) && AllBacked([RawSegment(raw, base)] + segments)
  {
  }

  /** The flat map is what the segments cover. */
  lemma FlatIs(segments: seq<Segment>, a: int, cell: Cell)
    requires ValidImage(segments)
    ensures Flat(segments, a) == Some(cell) <==>
            exists s :: s in segments && s.Backed() && s.Covers(a) && cell == CellOf(s, a)
  {
    if Flat(segments, a) == Some(cell) {
      var k := FlatSomewhere(segments, a);
      FlatAt(segments, k, a);
      assert segments[k] in segments;
    }
    if s :| s in segments && s.Backed() && s.Covers(a) && cell == CellOf(s, a) {
      var k :| 0 <= k < |segments| && segments[k] == s;
      FlatAt(segments, k, a);
    }
  }

  lemma RawCellIs(raw: seq<byte>, base: u32, a: int, cell: Cell)
    requires RawFits(raw, base)
    ensures RawSegment(raw, base).Backed()
    ensures RawCell(raw, base, a, cell) <==>
            RawSegment(raw, base).Covers(a) && cell == CellOf(RawSegment(raw, base), a)
  {
  }

  /** The segments describe exactly the memory of the plan. */
  lemma PlanIsMapped(raw: seq<byte>, base: u32, plan: LoadPlan, segments: seq<Segment>, a: int, cell: Cell)
    requires RawFits(raw, base) && EntriesOk(raw, base, plan, plan.entries)
    requires ValidImage(segments)
    requires multiset(segments) == multiset([RawSegment(raw, base)] + PlannedSegments(plan.entries))
    ensures Flat(segments, a) == Some(cell) <==> PlanMaps(raw, base, plan.entries, a, cell)
  {
    hide Flat, PlannedSegments, EntryOk, RawSegment, RawCell, EntryCell, PlannedEntry.ToSegment, CellOf, ValidImage;
    var planned := PlannedSegments(plan.entries);
    FlatIs(segments, a, cell);
    RawCellIs(raw, base, a, cell);
    assert forall s :: s in segments <==> s == RawSegment(raw, base) || s in planned by {
      SameElements(segments, [RawSegment(raw, base)] + planned);
    }
    if s :| s in segments && s.Backed() && s.Covers(a) && cell == CellOf(s, a) {
      PlannedMembers(plan.entries, s);
      if s in planned {
        var k :| 0 <= k < |plan.entries| && plan.entries[k].ToSegment() == Some(s);
        EntrySegment(raw, base, plan, plan.entries[k]);
        assert EntryCell(plan.entries[k], a, cell);
      }
    }
    if k :| 0 <= k < |plan.entries| && EntryCell(plan.entries[k], a, cell) {
      EntrySegment(raw, base, plan, plan.entries[k]);
      PlannedMembers(plan.entries, plan.entries[k].ToSegment().value);
    }
  }

  lemma SameElements(xs: seq<Segment>, ys: seq<Segment>)
    requires multiset(xs) == multiset(ys)
    ensures forall s :: s in xs <==> s in ys
  {
    forall s
      ensures s in xs <==> s in ys
    {
      assert s in xs <==> s in multiset(xs);
      assert s in ys <==> s in multiset(ys);
    }
  }

  // ---------------------------------------------------------------- the loop over the entries

  /** The state of the loop after the first `k` entries, all of them acceptable. */
  ghost predicate Planned(raw: seq<byte>, base: u32, plan: LoadPlan, k: nat, segments: seq<Segment>,
                          indices: set<nat>, destinations: seq<Interval>, total: nat)
  {
    && k <= |plan.entries| && RawFits(raw, base)
    && EntriesOk(raw, base, plan, plan.entries[..k])
    && segments == [RawSegment(raw, base)] + PlannedSegments(plan.entries[..k])
    && (forall x :: x in indices <==> exists j :: 0 <= j < k && plan.entries[j].index == x)
    && destinations == Destinations(plan.entries[..k])
    && total == TotalOutput(plan.entries[..k]) && total <= MAX_LOGICAL_OUTPUT
  }

  lemma NothingPlanned(raw: seq<byte>, base: u32, plan: LoadPlan)
    requires RawFits(raw, base)
    ensures Planned(raw, base, plan, 0, [RawSegment(raw, base)], {}, [], 0)
  {
  }

  lemma PlannedNext(raw: seq<byte>, base: u32, plan: LoadPlan, k: nat, segments: seq<Segment>,
                    indices: set<nat>, destinations: seq<Interval>, total: nat)
    requires Planned(raw, base, plan, k, segments, indices, destinations, total) && k < |plan.entries|
    requires var e := plan.entries[k];
             EntryOk(raw, base, plan, e) && e.index !in indices && total + OutputSize(e) <= MAX_LOGICAL_OUTPUT
    ensures var e := plan.entries[k];
            Planned(raw, base, plan, k + 1,
                    segments + if e.ToSegment().Some? then [e.ToSegment().value] else [], indices + {e.index},
                    destinations + if e.operation.NullOperation? then [] else [e.descriptor.Destination()],
                    total + OutputSize(e))
  {
    hide EntryOk, PlannedEntry.ToSegment, OutputSize, RawSegment, RawFits;
    var e := plan.entries[k];
    var some, more := plan.entries[..k], plan.entries[..k + 1];
    assert more[..|more| - 1] == some && more[|more| - 1] == e;
    forall i, j | 0 <= i < j < |more|
      ensures more[i].index != more[j].index
    {
      if j < k {
        assert some[i].index != some[j].index;
      } else {
        assert plan.entries[i].index in indices;
      }
    }
  }

  lemma RefusedEntry(raw: seq<byte>, base: u32, plan: LoadPlan, k: nat)
    requires k < |plan.entries| && !EntryOk(raw, base, plan, plan.entries[k])
    ensures !PlanOk(raw, base, plan)
  {
  }

  lemma RefusedIndex(raw: seq<byte>, base: u32, plan: LoadPlan, k: nat, segments: seq<Segment>,
                     indices: set<nat>, destinations: seq<Interval>, total: nat)
    requires Planned(raw, base, plan, k, segments, indices, destinations, total) && k < |plan.entries|
    requires plan.entries[k].index in indices
    ensures !PlanOk(raw, base, plan)
  {
    var j :| 0 <= j < k && plan.entries[j].index == plan.entries[k].index;
  }

  lemma {:induction false} TotalGrows(entries: seq<PlannedEntry>, k: nat)
    requires k <= |entries|
    ensures TotalOutput(entries[..k]) <= TotalOutput(entries)
    decreases |entries|
  {
    if k == |entries| {
      assert entries[..k] == entries;
    } else {
      var rest := entries[..|entries| - 1];
      TotalGrows(rest, k);
      assert rest[..k] == entries[..k];
    }
  }

  lemma RefusedTotal(raw: seq<byte>, base: u32, plan: LoadPlan, k: nat, segments: seq<Segment>,
                     indices: set<nat>, destinations: seq<Interval>, total: nat)
    requires Planned(raw, base, plan, k, segments, indices, destinations, total) && k < |plan.entries|
    requires total + OutputSize(plan.entries[k]) > MAX_LOGICAL_OUTPUT
    ensures !PlanOk(raw, base, plan)
  {
    var more := plan.entries[..k + 1];
    assert more[..|more| - 1] == plan.entries[..k];
    TotalGrows(plan.entries, k + 1);
  }

  /** With every entry acceptable, the rest of the conditions are the two totals and the destinations. */
  lemma PlannedAll(raw: seq<byte>, base: u32, plan: LoadPlan, segments: seq<Segment>,
                   indices: set<nat>, destinations: seq<Interval>, total: nat)
    requires Planned(raw, base, plan, |plan.entries|, segments, indices, destinations, total)
    requires plan.imageBase == base && plan.imageSize == |raw| && 1 <= |plan.entries| <= MAX_ENTRIES
    ensures AllRanges(destinations)
    ensures PlanOk(raw, base, plan) <==> total == plan.logicalOutputSize && Pairwise(Apart, destinations)
  {
    assert plan.entries[..|plan.entries|] == plan.entries;
    DestinationsNonempty(raw, base, plan, plan.entries);
  }

  lemma {:induction false} DestinationsNonempty(raw: seq<byte>, base: u32, plan: LoadPlan, entries: seq<PlannedEntry>)
    requires EntriesOk(raw, base, plan, entries)
    ensures AllRanges(Destinations(entries))
    decreases |entries|
  {
    if entries != [] {
      DestinationsNonempty(raw, base, plan, entries[..|entries| - 1]);
      assert EntryOk(raw, base, plan, entries[|entries| - 1]);
    }
  }

  /** Whether the entry's output is one its operation can have, and the segment it adds. */
  method PlanOutput(raw: seq<byte>, base: u32, plan: LoadPlan, entry: PlannedEntry)
    returns (r: Result<Option<Segment>, string>)
    requires RawFits(raw, base) && DestinationOk(entry)
    ensures r.Success? <==> OutputOk(raw, base, entry)
    ensures r.Success? ==> r.value == entry.ToSegment()
  {
    var d := entry.descriptor;
    var rawEnd := base + |raw|;
    match entry.output {
    case NoOutput =>
      if !entry.operation.NullOperation? || d.size != 0 {
        return Failure("none output is not a null entry");
      }
      r := Success(None);
    case SelfCopy =>
      if !entry.operation.Copy? || d.source != d.destination {
        return Failure("self-copy output is not an exact copy");
      }
      if d.source < base || d.source - base + d.size > |raw| {
        return Failure("self-copy range escapes the image");
      }
      r := Success(None);
    case Bytes(bytes) =>
      if !entry.operation.Copy? && !entry.operation.Decompress1? {
        return Failure("byte output has an invalid operation");
      }
      if |bytes| != d.size {
        return Failure("byte output length does not match its descriptor");
      }
      if d.destination < rawEnd && base < d.destination + d.size {
        return Failure("byte destination overlaps the raw image");
      }
      r := Success(Some(Segment(d.destination, d.destination + d.size,
                                if entry.StoredAsZero() then Zero(entry.index) else PlanBytes(bytes, entry.index))));
    case ZeroFill =>
      if !entry.operation.ZeroOperation? {
        return Failure("zero-fill output is not a zero operation");
      }
      if d.destination < rawEnd && base < d.destination + d.size {
        return Failure("zero-fill destination overlaps the raw image");
      }
      r := Success(Some(Segment(d.destination, d.destination + d.size, Zero(entry.index))));
    }
  }

  /** A raw image without a plan is accepted when it fits; with one, exactly when the plan is sound. */
  ghost predicate Accepts(raw: seq<byte>, base: u32, plan: Option<LoadPlan>) {
    RawFits(raw, base) && (plan.Some? ==> PlanOk(raw, base, plan.value))
  }

  function EntriesOf(plan: Option<LoadPlan>): seq<PlannedEntry> {
    if plan.Some? then plan.value.entries else []
  }

  ghost predicate MapsExactly(segments: seq<Segment>, raw: seq<byte>, base: u32, entries: seq<PlannedEntry>) {
    && ValidImage(segments)
    && forall a, cell :: Flat(segments, a) == Some(cell) <==> PlanMaps(raw, base, entries, a, cell)
  }

  /** The image of a raw file and its scatter plan. */
  method FromPlan(raw: seq<byte>, base: u32, plan: Option<LoadPlan>) returns (r: Result<seq<Segment>, string>)
    ensures r.Success? <==> Accepts(raw, base, plan)
    ensures r.Success? ==> MapsExactly(r.value, raw, base, EntriesOf(plan))
  {
    if !RawFits(raw, base) {
      return Failure("raw image does not fit the address space");
    }
    if plan.None? {
      NoPlanFits(raw, base);
      r := FromSegments([RawSegment(raw, base)]);
      if r.Success? {
        NoPlanMaps(raw, base, r.value);
      }
      return;
    }
    r := FromEntries(raw, base, plan.value);
  }

  lemma NoPlanFits(raw: seq<byte>, base: u32)
    requires RawFits(raw, base)
    ensures CanBeImage([RawSegment(raw, base)])
  {
  }

  lemma NoPlanMaps(raw: seq<byte>, base: u32, segments: seq<Segment>)
    requires RawFits(raw, base) && Disjoint(segments) && multiset(segments) == multiset([RawSegment(raw, base)])
    ensures MapsExactly(segments, raw, base, [])
  {
    assert segments == [RawSegment(raw, base)] by {
      assert |segments| == |multiset(segments)| == 1;
      assert segments[0] in multiset(segments);
    }
  }

  /** The checks on one entry, in order, and the segment it adds. */
  method CheckEntry(raw: seq<byte>, base: u32, plan: LoadPlan, k: nat, ghost segments: seq<Segment>, indices: set<nat>,
                    ghost destinations: seq<Interval>, total: nat)
    returns (r: Result<Option<Segment>, string>)
    requires RawFits(raw, base) && k < |plan.entries|
    requires Planned(raw, base, plan, k, segments, indices, destinations, total)
    ensures r.Success? <==> EntryOk(raw, base, plan, plan.entries[k]) && plan.entries[k].index !in indices
                            && total + OutputSize(plan.entries[k]) <= MAX_LOGICAL_OUTPUT
    ensures r.Success? ==> r.value == plan.entries[k].ToSegment()
    ensures r.Failure? ==> !PlanOk(raw, base, plan)
  {
    hide *;
    var entry := plan.entries[k];
    EntryParts(raw, base, plan, entry);
    if entry.index in indices {
      RefusedIndex(raw, base, plan, k, segments, indices, destinations, total);
      return Failure("duplicate scatter entry index");
    }
    if !DescriptorOk(plan, entry) {
      RefusedEntry(raw, base, plan, k);
      return Failure("handler or compressed size does not match the operation");
    }
    if !DestinationOk(entry) {
      RefusedEntry(raw, base, plan, k);
      return Failure("zero or wrapping destination");
    }
    if total + OutputSize(entry) > MAX_LOGICAL_OUTPUT {
      RefusedTotal(raw, base, plan, k, segments, indices, destinations, total);
      return Failure("scatter plan logical output exceeds the supported limit");
    }
    var output := PlanOutput(raw, base, plan, entry);
    if output.Failure? {
      RefusedEntry(raw, base, plan, k);
      return Failure(output.error);
    }
    r := output;
  }

  /** The loop over the entries of a plan. */
  method FromEntries(raw: seq<byte>, base: u32, plan: LoadPlan) returns (r: Result<seq<Segment>, string>)
    requires RawFits(raw, base)
    ensures r.Success? <==> PlanOk(raw, base, plan)
    ensures r.Success? ==> MapsExactly(r.value, raw, base, plan.entries)
  {
    if plan.imageBase != base || plan.imageSize != |raw| {
      return Failure("scatter plan image identity does not match the raw image");
    }
    if plan.entries == [] || |plan.entries| > MAX_ENTRIES {
      return Failure("scatter plan has an invalid entry count");
    }
    hide *;
    var segments := [RawSegment(raw, base)];
    var indices: set<nat>, destinations: seq<Interval>, total: nat := {}, [], 0;
    NothingPlanned(raw, base, plan);
    for k := 0 to |plan.entries|
      invariant Planned(raw, base, plan, k, segments, indices, destinations, total)
    {
      var entry := plan.entries[k];
      var output := CheckEntry(raw, base, plan, k, segments, indices, destinations, total);
      if output.Failure? {
        return Failure(output.error);
      }
      PlannedNext(raw, base, plan, k, segments, indices, destinations, total);
      total := total + OutputSize(entry);
      indices := indices + {entry.index};
      if !entry.operation.NullOperation? {
        destinations := destinations + [entry.descriptor.Destination()];
      }
      if output.value.Some? {
        segments := segments + [output.value.value];
      }
    }
    PlannedAll(raw, base, plan, segments, indices, destinations, total);
    if total != plan.logicalOutputSize {
      return Failure("scatter plan logical output does not match its entries");
    }
    var clear := RejectDestinationOverlap(destinations);
    if !clear {
      return Failure("scatter destinations overlap");
    }
    PlanFits(raw, base, plan, segments, indices, destinations, total);
    r := FromSegments(segments);
    PlanMapped(raw, base, plan, segments, r.value);
  }

  lemma EntryParts(raw: seq<byte>, base: u32, plan: LoadPlan, e: PlannedEntry)
    ensures EntryOk(raw, base, plan, e) <==> DescriptorOk(plan, e) && DestinationOk(e) && OutputOk(raw, base, e)
  {
  }

  /** The final build cannot fail: the checks on the entries already cover it. */
  lemma PlanFits(raw: seq<byte>, base: u32, plan: LoadPlan, segments: seq<Segment>,
                 indices: set<nat>, destinations: seq<Interval>, total: nat)
    requires Planned(raw, base, plan, |plan.entries|, segments, indices, destinations, total)
    requires PlanOk(raw, base, plan)
    ensures segments == [RawSegment(raw, base)] + PlannedSegments(plan.entries)
    ensures CanBeImage(segments) && AllBacked(segments)
  {
    hide EntriesOk, Pairwise, TotalOutput, CanBeImage, AllBacked, SegmentsFit, PlannedSegments, Destinations;
    assert plan.entries[..|plan.entries|] == plan.entries;
    PlannedFit(raw, base, plan, plan.entries);
    WithRaw(raw, base, PlannedSegments(plan.entries), Destinations(plan.entries));
  }

  lemma PlanMapped(raw: seq<byte>, base: u32, plan: LoadPlan, segments: seq<Segment>, sorted: seq<Segment>)
    requires PlanOk(raw, base, plan) && segments == [RawSegment(raw, base)] + PlannedSegments(plan.entries)
    requires AllBacked(segments) && Disjoint(sorted) && multiset(sorted) == multiset(segments)
    ensures MapsExactly(sorted, raw, base, plan.entries)
  {
    SameElements(sorted, segments);
    assert AllBacked(sorted) by {
      forall k | 0 <= k < |sorted|
        ensures sorted[k].Backed()
      {
        assert sorted[k] in segments;
      }
    }
    hide Flat, PlanMaps, EntriesOk, PlannedSegments;
    forall a, cell
      ensures Flat(sorted, a) == Some(cell) <==> PlanMaps(raw, base, plan.entries, a, cell)
    {
      PlanIsMapped(raw, base, plan, sorted, a, cell);
    }
  }

  /** The byte a destination address must read: the copied, decompressed or zeroed byte, or the image's own. */
  function DestinationByte(raw: seq<byte>, base: u32, e: PlannedEntry, a: int): byte {
    match e.output
    case NoOutput => 0
    case SelfCopy => if 0 <= a - base < |raw| then raw[a - base] else 0
    case Bytes(_) => PlannedByte(e, a)
    case ZeroFill => 0
  }

  /** Every destination of an accepted plan reads what the plan says, and the raw image still reads itself. */
  lemma DestinationReads(raw: seq<byte>, base: u32, plan: LoadPlan, segments: seq<Segment>, k: nat, a: int)
    requires PlanOk(raw, base, plan) && MapsExactly(segments, raw, base, plan.entries)
    ensures 0 <= a - base < |raw| ==> Flat(segments, a) == Some(Cell(raw[a - base], RawStorage, None))
    ensures k < |plan.entries| && plan.entries[k].descriptor.Destination().start <= a
            < plan.entries[k].descriptor.Destination().end ==>
              Flat(segments, a).Some? && FlatByte(segments, a) == DestinationByte(raw, base, plan.entries[k], a)
  {
    hide Flat, ValidImage;
    if 0 <= a - base < |raw| {
      assert PlanMaps(raw, base, plan.entries, a, Cell(raw[a - base], RawStorage, None));
    }
    if k < |plan.entries| && plan.entries[k].descriptor.Destination().start <= a
       < plan.entries[k].descriptor.Destination().end {
      var e := plan.entries[k];
      assert EntryOk(raw, base, plan, e);
      if e.WritesMemory() {
        var kind := if e.StoredAsZero() then ScatterZero else ScatterBytes;
        assert EntryCell(e, a, Cell(PlannedByte(e, a), kind, Some(e.index)));
        assert PlanMaps(raw, base, plan.entries, a, Cell(PlannedByte(e, a), kind, Some(e.index)));
      }
    }
  }
}
