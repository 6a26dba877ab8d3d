/** What the entries of a scatter plan may be, operation by operation, and what they put where. */
module PlanTables {
  import opened Words
  import opened Sorting
  import opened AddressCount
  import opened RuntimeImage
  import opened ScatterPlan

  /** The destination is a place in memory that does not reach its end. */
  predicate IsPlaced(e: PlannedEntry) {
    0 < e.descriptor.destination && 0 < e.descriptor.size
    && e.descriptor.destination + e.descriptor.size < LIMIT32
  }

  predicate InRaw(raw: seq<byte>, base: u32, a: int) {
    base <= a < base + |raw|
  }

  /** No address of the destination is one of the raw image. */
  ghost predicate IsClear(raw: seq<byte>, base: u32, e: PlannedEntry) {
    forall a: int :: Has(e.descriptor.Destination(), a) ==> !InRaw(raw, base, a)
  }

  /** Every address of the source is one of the raw image. */
  ghost predicate CopiesRaw(raw: seq<byte>, base: u32, e: PlannedEntry) {
    forall a: int :: Has(Interval(e.descriptor.source, e.descriptor.source + e.descriptor.size), a) ==>
                       InRaw(raw, base, a)
  }

  /** A null entry does nothing. */
  predicate IsNull(handlers: HandlerMap, e: PlannedEntry) {
    && e.descriptor.handler == handlers.none && e.compressedSize.None?
    && e.output.NoOutput? && e.descriptor.size == 0
  }

  /** A copy either stays where it is in the raw image or brings its bytes to a place outside. */
  ghost predicate IsCopy(raw: seq<byte>, base: u32, handlers: HandlerMap, e: PlannedEntry) {
    && e.descriptor.handler == handlers.copy && e.compressedSize.None? && IsPlaced(e)
    && ((e.output.SelfCopy? && e.descriptor.source == e.descriptor.destination && CopiesRaw(raw, base, e))
        || (e.output.Bytes? && |e.output.bytes| == e.descriptor.size && IsClear(raw, base, e)))
  }

  /** A decompression knows the size of its input and brings its bytes to a place outside. */
  ghost predicate IsDecompression(raw: seq<byte>, base: u32, handlers: HandlerMap, e: PlannedEntry) {
    && e.descriptor.handler == handlers.decompress1 && e.compressedSize.Some? && IsPlaced(e)
    && e.output.Bytes? && |e.output.bytes| == e.descriptor.size && IsClear(raw, base, e)
  }

  /** A zero entry fills a place outside with zeros. */
  ghost predicate IsZeroFill(raw: seq<byte>, base: u32, handlers: HandlerMap, e: PlannedEntry) {
    && e.descriptor.handler == handlers.zero && e.compressedSize.None? && IsPlaced(e)
    && e.output.ZeroFill? && IsClear(raw, base, e)
  }

  ghost predicate IsSound(raw: seq<byte>, base: u32, handlers: HandlerMap, e: PlannedEntry) {
    match e.operation
    case NullOperation => IsNull(handlers, e)
    case Copy => IsCopy(raw, base, handlers, e)
    case Decompress1 => IsDecompression(raw, base, handlers, e)
    case ZeroOperation => IsZeroFill(raw, base, handlers, e)
  }

  // ---------------------------------------------------------------- the checks say the same

  lemma ClearExactly(raw: seq<byte>, base: u32, e: PlannedEntry)
    requires raw != [] && e.descriptor.size > 0
    ensures Apart(e.descriptor.Destination(), Interval(base, base + |raw|)) <==> IsClear(raw, base, e)
  {
    var d := e.descriptor.Destination();
    if !Apart(d, Interval(base, base + |raw|)) {
      var a := if d.start < base then base as int else d.start;
      assert Has(d, a) && InRaw(raw, base, a);
    }
  }

  lemma RawExactly(raw: seq<byte>, base: u32, e: PlannedEntry)
    requires e.descriptor.size > 0
    ensures CopiesRaw(raw, base, e)
            <==> base <= e.descriptor.source && e.descriptor.source - base + e.descriptor.size <= |raw|
  {
    var source := Interval(e.descriptor.source, e.descriptor.source + e.descriptor.size);
    if CopiesRaw(raw, base, e) {
      assert Has(source, source.start) && Has(source, source.end - 1);
      assert InRaw(raw, base, source.start) && InRaw(raw, base, source.end - 1);
    }
  }

  /** An entry is acceptable exactly when it is sound for its operation. */
  lemma EntryExactly(raw: seq<byte>, base: u32, plan: LoadPlan, e: PlannedEntry)
    requires RawFits(raw, base)
    ensures EntryOk(raw, base, plan, e) <==> IsSound(raw, base, plan.handlers, e)
  {
    hide IsClear, CopiesRaw;
    if e.descriptor.size > 0 {
      ClearExactly(raw, base, e);
      RawExactly(raw, base, e);
    }
    hide Apart;
  }

  /** What is kept as zero fill: zeros, and decompressed bytes that are all zero. */
  lemma StoredExactly(raw: seq<byte>, base: u32, handlers: HandlerMap, e: PlannedEntry)
    requires IsSound(raw, base, handlers, e) && e.WritesMemory()
    ensures e.StoredAsZero() <==>
            !e.operation.Copy? && forall a: int :: Has(e.descriptor.Destination(), a) ==> PlannedByte(e, a) == 0
  {
    var start := e.descriptor.destination;
    if e.StoredAsZero() {
      forall a: int | Has(e.descriptor.Destination(), a)
        ensures PlannedByte(e, a) == 0
      {
        assert e.output.Bytes? ==> e.output.bytes[a - start] in e.output.bytes;
      }
    }
    if e.output.Bytes? && forall a: int :: Has(e.descriptor.Destination(), a) ==> PlannedByte(e, a) == 0 {
      forall k | 0 <= k < |e.output.bytes|
        ensures e.output.bytes[k] == 0
      {
        assert Has(e.descriptor.Destination(), start + k) && PlannedByte(e, start + k) == e.output.bytes[k];
      }
    }
  }

  // ---------------------------------------------------------------- the whole plan

  predicate HasDestination(e: PlannedEntry, x: Interval) {
    !e.operation.NullOperation? && x == e.descriptor.Destination()
  }

  lemma {:induction false} LengthsAre(entries: seq<PlannedEntry>)
    ensures Lengths(Destinations(entries)) == TotalOutput(entries)
    decreases |entries|
  {
    if entries != [] {
      var n := |entries| - 1;
      LengthsAre(entries[..n]);
      LengthsMore(Destinations(entries[..n]), entries[n].descriptor.Destination());
      hide Lengths;
      assert Destinations(entries[..n]) + [] == Destinations(entries[..n]);
    }
  }

  lemma LengthsMore(xs: seq<Interval>, x: Interval)
    ensures Lengths(xs + [x]) == Lengths(xs) + x.end - x.start
  {
    assert (xs + [x])[..|xs|] == xs;
  }

  lemma {:induction false} DestinationsAre(entries: seq<PlannedEntry>, x: Interval)
    ensures x in Destinations(entries) <==> exists k :: 0 <= k < |entries| && HasDestination(entries[k], x)
    decreases |entries|
  {
    if entries != [] {
      var n := |entries| - 1;
      DestinationsAre(entries[..n], x);
      DestinationMore(entries, x);
    }
  }

  lemma DestinationMore(entries: seq<PlannedEntry>, x: Interval)
    requires entries != []
    ensures var n := |entries| - 1;
            (exists k :: 0 <= k < |entries| && HasDestination(entries[k], x)) <==>
              (exists k :: 0 <= k < n && HasDestination(entries[..n][k], x)) || HasDestination(entries[n], x)
  {
    var n := |entries| - 1;
    if k :| 0 <= k < |entries| && HasDestination(entries[k], x) {
      assert k < n ==> HasDestination(entries[..n][k], x);
    }
    if k :| 0 <= k < n && HasDestination(entries[..n][k], x) {
      assert HasDestination(entries[k], x);
    }
  }

  /** No two destinations share an address, and together they have as many as the plan says. */
  ghost predicate OutputsFit(plan: LoadPlan) {
    && Pairwise(Apart, Destinations(plan.entries))
    && |Covered(Destinations(plan.entries))| == plan.logicalOutputSize
    && plan.logicalOutputSize <= 512 * 1024 * 1024
  }

  ghost predicate DistinctIndices(entries: seq<PlannedEntry>) {
    forall k, l | 0 <= k < l < |entries| :: entries[k].index != entries[l].index
  }

  /**
   * A plan is accepted exactly when it is about this image, has between one and 256 entries with indices of their own,
   * each sound for its operation, and the outputs fit.
   */
  lemma PlanExactly(raw: seq<byte>, base: u32, plan: LoadPlan)
    requires RawFits(raw, base)
    ensures PlanOk(raw, base, plan) <==>
            && plan.imageBase == base && plan.imageSize == |raw| && 1 <= |plan.entries| <= 256
            && (forall k | 0 <= k < |plan.entries| :: IsSound(raw, base, plan.handlers, plan.entries[k]))
            && DistinctIndices(plan.entries) && OutputsFit(plan)
  {
    hide EntryOk, IsSound, Pairwise, Covered, Destinations, TotalOutput;
    forall k | 0 <= k < |plan.entries|
      ensures EntryOk(raw, base, plan, plan.entries[k]) <==> IsSound(raw, base, plan.handlers, plan.entries[k])
    {
      EntryExactly(raw, base, plan, plan.entries[k]);
    }
    LengthsAre(plan.entries);
    DestinationsAscend(plan.entries);
    if Pairwise(Apart, Destinations(plan.entries)) {
      LengthsCount(Destinations(plan.entries));
    }
  }

  lemma DestinationsAscend(entries: seq<PlannedEntry>)
    ensures var xs := Destinations(entries); forall k | 0 <= k < |xs| :: xs[k].start <= xs[k].end
  {
    var xs := Destinations(entries);
    hide Destinations;
    forall k | 0 <= k < |xs|
      ensures xs[k].start <= xs[k].end
    {
      DestinationsAre(entries, xs[k]);
      var l :| 0 <= l < |entries| && HasDestination(entries[l], xs[k]);
    }
  }
}
