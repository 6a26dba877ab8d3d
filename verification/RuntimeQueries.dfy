/** Hashes, provenance, byte-backing and strings read from the flat memory map through the segments. */
module RuntimeQueries {
  import opened Words
  import opened Sorting
  import opened RuntimeImage

  /** A hash is an unknown function of the bytes fed to it. */
  type Hash = seq<byte> -> seq<byte>

  lemma ChunkOfSpan(s: Span, consumed: nat, length: nat)
    requires SpanOk(s) && consumed + length <= s.size
    ensures s.segment.Backed() && s.offset + s.size <= s.segment.end - s.segment.start
    ensures |SpanBytes(s)[..consumed]| == consumed
    ensures SpanBytes(s)[..consumed + length] ==
            SpanBytes(s)[..consumed] + SpanBytes(s)[consumed..consumed + length]
  {
  }

  /** Feeds one span to the hasher in chunks of at most 64 KiB. */
  method FeedSpan(s: Span, already: seq<byte>) returns (fed: seq<byte>)
    requires SpanOk(s)
    ensures s.segment.Backed() && s.offset + s.size <= s.segment.end - s.segment.start
    ensures fed == already + SpanBytes(s)
  {
    fed := already;
    var consumed: nat := 0;
    ChunkOfSpan(s, 0, 0);
    while consumed < s.size
      invariant consumed <= s.size
      invariant fed == already + SpanBytes(s)[..consumed]
    {
      var length := if s.size - consumed < MAX_EXACT_READ then s.size - consumed else MAX_EXACT_READ;
      ChunkOfSpan(s, consumed, length);
      fed := fed + SpanBytes(s)[consumed..consumed + length];
      consumed := consumed + length;
    }
    assert SpanBytes(s)[..s.size] == SpanBytes(s);
  }

  /** The hash of a range is the hash of the bytes the flat map holds there, however they are chunked. */
  method HashRange(segments: seq<Segment>, address: u32, size: u32, hash: Hash) returns (r: Result<seq<byte>, string>)
    requires ValidImage(segments)
    ensures r.Success? <==> address + size < LIMIT32 && Mapped(segments, address, address + size)
    ensures r.Success? ==> r.value == hash(FlatBytes(segments, address, address + size))
  {
    hide *;
    ValidIsBacked(segments);
    var visited := VisitRange(segments, address, size);
    if visited.Failure? {
      return Failure(visited.error);
    }
    var spans := visited.value;
    var fed: seq<byte> := [];
    ghost var to := address + size;
    StartOfFirst(segments, spans, address, to);
    NoBytes(segments, address);
    for k := 0 to |spans|
      invariant address <= StartOf(spans, k, to) && Mapped(segments, address, StartOf(spans, k, to))
      invariant fed == FlatBytes(segments, address, StartOf(spans, k, to))
    {
      StartOfNext(segments, spans, address, to, k);
      NextBytes(segments, address, spans[k], to);
      fed := FeedSpan(spans[k], fed);
    }
    r := Success(hash(fed));
  }

  // ---------------------------------------------------------------- provenance

  datatype StorageSpan = StorageSpan(kind: StorageKind, address: u32, size: u32, entry: Option<nat>)

  function Describe(s: Span): StorageSpan {
    StorageSpan(s.segment.Kind(), s.address, s.size, s.segment.ScatterEntry())
  }

  /** Every address of the span has the span's storage. */
  ghost predicate DescribesCells(segments: seq<Segment>, s: StorageSpan)
    requires AllBacked(segments)
  {
    forall a | s.address <= a < s.address + s.size ::
      Flat(segments, a).Some? && Flat(segments, a).value.kind == s.kind && Flat(segments, a).value.entry == s.entry
  }

  /** The spans follow each other from `from` to `to`, each nonempty. */
  ghost predicate Partitions(spans: seq<StorageSpan>, from: int, to: int) {
    && (spans == [] ==> from == to)
    && (spans != [] ==> spans[0].address == from && spans[|spans| - 1].address + spans[|spans| - 1].size == to)
    && (forall k | 0 <= k < |spans| :: spans[k].size > 0)
    && (forall k | 0 < k < |spans| :: spans[k].address == spans[k - 1].address + spans[k - 1].size)
  }

  /** One segment holds the whole span, and a span stops short of its segment only where the range does. */
  ghost predicate OnePerSegment(segments: seq<Segment>, s: StorageSpan, from: int, to: int) {
    exists k :: 0 <= k < |segments| &&
      s.address == Larger(segments[k].start, from) && s.address + s.size == Smaller(segments[k].end, to)
  }

  ghost function Larger(x: int, y: int): int { if x > y then x else y }

  ghost function Smaller(x: int, y: int): int { if x < y then x else y }

  lemma DescribeSpan(segments: seq<Segment>, spans: seq<Span>, from: int, to: int, k: nat)
    requires ValidImage(segments) && Resolves(segments, spans, from, to) && Maximal(spans, from, to) && k < |spans|
    ensures DescribesCells(segments, Describe(spans[k]))
    ensures OnePerSegment(segments, Describe(spans[k]), from, to)
    ensures spans[k].size > 0 && StartOf(spans, k, to) == spans[k].address
    ensures StartOf(spans, k + 1, to) == spans[k].address + spans[k].size
  {
    var s := spans[k];
    StartOfNext(segments, spans, from, to, k);
    var j :| 0 <= j < |segments| && segments[j] == s.segment;
    forall a | s.address <= a < s.address + s.size
      ensures Flat(segments, a) == Some(CellOf(s.segment, a))
    {
      FlatAt(segments, j, a);
    }
    assert s.address == Larger(segments[j].start, from);
    assert s.address + s.size == Smaller(segments[j].end, to);
  }

  lemma PartitionMore(spans: seq<StorageSpan>, from: int, s: StorageSpan)
    requires Partitions(spans, from, s.address) && s.size > 0
    ensures Partitions(spans + [s], from, s.address + s.size)
  {
  }

  /** The storage behind a range, one span per segment, in address order. */
  method StorageSpans(segments: seq<Segment>, address: u32, size: u32) returns (r: Result<seq<StorageSpan>, string>)
    requires ValidImage(segments)
    ensures r.Success? <==> address + size < LIMIT32 && Mapped(segments, address, address + size)
    ensures r.Success? ==> Partitions(r.value, address, address + size)
    ensures r.Success? ==> forall s | s in r.value ::
              DescribesCells(segments, s) && OnePerSegment(segments, s, address, address + size)
  {
    hide *;
    ValidIsBacked(segments);
    var visited := VisitRange(segments, address, size);
    if visited.Failure? {
      return Failure(visited.error);
    }
    var resolved := visited.value;
    var spans: seq<StorageSpan> := [];
    ghost var to := address + size;
    StartOfFirst(segments, resolved, address, to);
    NoPartition(address);
    for k := 0 to |resolved|
      invariant Partitions(spans, address, StartOf(resolved, k, to))
      invariant forall s | s in spans :: DescribesCells(segments, s) && OnePerSegment(segments, s, address, to)
    {
      DescribeSpan(segments, resolved, address, to, k);
      DescribeFields(resolved[k]);
      PartitionMore(spans, address, Describe(resolved[k]));
      spans := spans + [Describe(resolved[k])];
    }
    r := Success(spans);
  }

  lemma NoPartition(from: int)
    ensures Partitions([], from, from)
  {
  }

  lemma DescribeFields(s: Span)
    ensures Describe(s).address == s.address && Describe(s).size == s.size && Describe(s).kind == s.segment.Kind()
  {
  }

  // ---------------------------------------------------------------- byte backing

  predicate ByteBackedAt(segments: seq<Segment>, a: int)
    requires AllBacked(segments)
  {
    Flat(segments, a).Some? && Flat(segments, a).value.kind != ScatterZero
  }

  /** Whether a mapped range has bytes everywhere, and never virtual zeros. */
  method IsByteBacked(segments: seq<Segment>, address: u32, size: u32) returns (r: Result<bool, string>)
    requires ValidImage(segments)
    ensures r.Success? <==> address + size < LIMIT32 && Mapped(segments, address, address + size)
    ensures r.Success? ==> (r.value <==> forall a | address <= a < address + size :: ByteBackedAt(segments, a))
  {
    hide *;
    ValidIsBacked(segments);
    var visited := VisitRange(segments, address, size);
    if visited.Failure? {
      return Failure(visited.error);
    }
    var spans := visited.value;
    var byteBacked := true;
    ghost var to := address + size;
    StartOfFirst(segments, spans, address, to);
    BackedMeans(segments, address, address);
    for k := 0 to |spans|
      invariant byteBacked <==> BackedRange(segments, address, StartOf(spans, k, to))
    {
      DescribeSpan(segments, spans, address, to, k);
      DescribeFields(spans[k]);
      StartOfNext(segments, spans, address, to, k);
      BackedMore(segments, address, Describe(spans[k]));
      byteBacked := byteBacked && spans[k].segment.Kind() != ScatterZero;
    }
    BackedMeans(segments, address, to);
    r := Success(byteBacked);
  }

  predicate BackedRange(segments: seq<Segment>, from: int, to: int)
    requires AllBacked(segments)
  {
    forall a | from <= a < to :: ByteBackedAt(segments, a)
  }

  lemma BackedMeans(segments: seq<Segment>, from: int, to: int)
    requires AllBacked(segments)
    ensures BackedRange(segments, from, to) <==> forall a | from <= a < to :: ByteBackedAt(segments, a)
    ensures BackedRange(segments, from, from)
  {
  }

  lemma BackedMore(segments: seq<Segment>, from: int, s: StorageSpan)
    requires AllBacked(segments) && DescribesCells(segments, s) && s.size > 0 && from <= s.address
    ensures BackedRange(segments, from, s.address + s.size) <==>
            BackedRange(segments, from, s.address) && s.kind != ScatterZero
  {
    assert s.address + s.size > s.address;
    if BackedRange(segments, from, s.address + s.size) {
      assert ByteBackedAt(segments, s.address);
    }
  }

  datatype ByteBackedRange = ByteBackedRange(start: u32, end: u32) {
    predicate Holds(a: int) {
      start <= a < end
    }
  }

  /** Nonempty ranges in ascending order with a gap between any two. */
  ghost predicate Separated(ranges: seq<ByteBackedRange>) {
    && (forall k | 0 <= k < |ranges| :: ranges[k].start < ranges[k].end)
    && (forall j, k | 0 <= j < k < |ranges| :: ranges[j].end < ranges[k].start)
  }

  ghost predicate InRanges(ranges: seq<ByteBackedRange>, a: int) {
    exists k :: 0 <= k < |ranges| && ranges[k].Holds(a)
  }

  /** Some segment below index `k` backs the address with bytes. */
  ghost predicate BackedBy(segments: seq<Segment>, k: nat, a: int)
    requires k <= |segments|
  {
    exists j :: 0 <= j < k && segments[j].Covers(a) && segments[j].Kind() != ScatterZero
  }

  ghost predicate RangesUpTo(segments: seq<Segment>, ranges: seq<ByteBackedRange>, k: nat)
    requires k <= |segments|
  {
    && Separated(ranges)
    && (forall a: int :: InRanges(ranges, a) <==> BackedBy(segments, k, a))
    && (ranges != [] ==> k > 0 && ranges[|ranges| - 1].end <= segments[k - 1].end)
  }

  lemma RangesStart(segments: seq<Segment>)
    ensures RangesUpTo(segments, [], 0)
  {
  }

  lemma BackedByNext(segments: seq<Segment>, k: nat, a: int)
    requires k < |segments|
    ensures BackedBy(segments, k + 1, a) <==>
            BackedBy(segments, k, a) || (segments[k].Covers(a) && segments[k].Kind() != ScatterZero)
  {
  }

  lemma RangesSkip(segments: seq<Segment>, ranges: seq<ByteBackedRange>, k: nat)
    requires ValidImage(segments) && k < |segments| && RangesUpTo(segments, ranges, k)
    requires segments[k].Kind() == ScatterZero
    ensures RangesUpTo(segments, ranges, k + 1)
  {
    forall a: int
      ensures InRanges(ranges, a) <==> BackedBy(segments, k + 1, a)
    {
      BackedByNext(segments, k, a);
    }
    if k > 0 {
      assert segments[k - 1].end <= segments[k].start && segments[k].Backed();
    }
  }

  lemma RangesExtend(segments: seq<Segment>, ranges: seq<ByteBackedRange>, k: nat)
    requires ValidImage(segments) && k < |segments| && RangesUpTo(segments, ranges, k)
    requires segments[k].Kind() != ScatterZero
    requires ranges != [] && ranges[|ranges| - 1].end == segments[k].start
    ensures RangesUpTo(segments, ranges[|ranges| - 1 := ranges[|ranges| - 1].(end := segments[k].end)], k + 1)
  {
    var top := |ranges| - 1;
    var more := ranges[top := ranges[top].(end := segments[k].end)];
    assert segments[k].Backed();
    forall a: int
      ensures InRanges(more, a) <==> BackedBy(segments, k + 1, a)
    {
      BackedByNext(segments, k, a);
      if InRanges(more, a) {
        var j :| 0 <= j < |more| && more[j].Holds(a);
        assert ranges[j].Holds(a) || segments[k].Covers(a);
      }
      if InRanges(ranges, a) {
        var j :| 0 <= j < |ranges| && ranges[j].Holds(a);
        assert more[j].Holds(a);
      }
      if segments[k].Covers(a) {
        assert more[top].Holds(a);
      }
    }
  }

  lemma RangesPush(segments: seq<Segment>, ranges: seq<ByteBackedRange>, k: nat)
    requires ValidImage(segments) && k < |segments| && RangesUpTo(segments, ranges, k)
    requires segments[k].Kind() != ScatterZero
    requires ranges != [] ==> ranges[|ranges| - 1].end != segments[k].start
    ensures RangesUpTo(segments, ranges + [ByteBackedRange(segments[k].start, segments[k].end)], k + 1)
  {
    var more := ranges + [ByteBackedRange(segments[k].start, segments[k].end)];
    assert segments[k].Backed();
    if ranges != [] {
      assert segments[k - 1].end <= segments[k].start;
    }
    forall a: int
      ensures InRanges(more, a) <==> BackedBy(segments, k + 1, a)
    {
      BackedByNext(segments, k, a);
      if InRanges(more, a) {
        var j :| 0 <= j < |more| && more[j].Holds(a);
        assert j < |ranges| ==> ranges[j].Holds(a);
      }
      if InRanges(ranges, a) {
        var j :| 0 <= j < |ranges| && ranges[j].Holds(a);
        assert more[j].Holds(a);
      }
      assert more[|ranges|].Holds(a) <==> segments[k].Covers(a);
    }
  }

  lemma BackedByAll(segments: seq<Segment>, a: int)
    requires ValidImage(segments)
    ensures BackedBy(segments, |segments|, a) <==> ByteBackedAt(segments, a)
  {
    if Flat(segments, a).Some? {
      var k := FlatSomewhere(segments, a);
      FlatAt(segments, k, a);
    }
    forall k | 0 <= k < |segments| && segments[k].Covers(a)
      ensures Flat(segments, a) == Some(CellOf(segments[k], a))
    {
      FlatAt(segments, k, a);
    }
  }

  lemma RangesAll(segments: seq<Segment>, ranges: seq<ByteBackedRange>)
    requires ValidImage(segments) && RangesUpTo(segments, ranges, |segments|)
    ensures AllBacked(segments) && Separated(ranges)
    ensures forall a: int :: InRanges(ranges, a) <==> ByteBackedAt(segments, a)
  {
    hide InRanges, ByteBackedAt, BackedBy, Separated;
    forall a: int
      ensures InRanges(ranges, a) <==> ByteBackedAt(segments, a)
    {
      BackedByAll(segments, a);
    }
  }

  /** The maximal intervals of byte-backed addresses, in ascending order. */
  method ByteBackedRanges(segments: seq<Segment>) returns (ranges: seq<ByteBackedRange>)
    requires ValidImage(segments)
    ensures Separated(ranges)
    ensures forall a: int :: InRanges(ranges, a) <==> ByteBackedAt(segments, a)
  {
    hide *;
    ranges := [];
    RangesStart(segments);
    for k := 0 to |segments|
      invariant RangesUpTo(segments, ranges, k)
    {
      var segment := segments[k];
      if segment.Kind() == ScatterZero {
        RangesSkip(segments, ranges, k);
      } else if ranges != [] && ranges[|ranges| - 1].end == segment.start {
        RangesExtend(segments, ranges, k);
        ranges := ranges[|ranges| - 1 := ranges[|ranges| - 1].(end := segment.end)];
      } else {
        RangesPush(segments, ranges, k);
        ranges := ranges + [ByteBackedRange(segment.start, segment.end)];
      }
    }
    RangesAll(segments, ranges);
  }

  // ---------------------------------------------------------------- strings and words

  predicate Printable(b: byte) {
    0x20 <= b <= 0x7e
  }

  /** From the space to the tilde. */
  lemma PrintableExactly(b: byte)
    ensures Printable(b) <==> ' ' as int <= b <= '~' as int
  {
  }

  ghost predicate PrintableAt(segments: seq<Segment>, a: int)
    requires AllBacked(segments)
  {
    ByteBackedAt(segments, a) && Printable(FlatByte(segments, a))
  }

  /** A NUL-terminated printable string of `n` characters, all of it byte-backed. */
  ghost predicate StringOf(segments: seq<Segment>, address: int, n: nat)
    requires AllBacked(segments)
  {
    && (forall a | address <= a < address + n :: PrintableAt(segments, a))
    && ByteBackedAt(segments, address + n) && FlatByte(segments, address + n) == 0
  }

  /** One byte, or nothing when the address is unmapped or virtual zero-fill. */
  method BackedByte(segments: seq<Segment>, cursor: u32) returns (r: Option<byte>)
    requires ValidImage(segments)
    ensures r.Some? <==> ByteBackedAt(segments, cursor)
    ensures r.Some? ==> Flat(segments, cursor).Some? && r.value == FlatByte(segments, cursor)
  {
    if cursor == LIMIT32 - 1 {
      TopUnmapped(segments, cursor);
    }
    var backed := IsByteBacked(segments, cursor, 1);
    if backed.Failure? || !backed.value {
      return None;
    }
    var read := ReadExact(segments, cursor, 1);
    assert ByteBackedAt(segments, cursor);
    assert FlatBytes(segments, cursor, cursor + 1)[0] == FlatByte(segments, cursor);
    r := Some(read.value[0]);
  }

  lemma TopUnmapped(segments: seq<Segment>, a: int)
    requires ValidImage(segments) && a >= LIMIT32 - 1
    ensures Flat(segments, a).None?
  {
    FlatNowhere(segments, a);
  }

  ghost predicate PrintableRange(segments: seq<Segment>, from: int, to: int)
    requires AllBacked(segments)
  {
    forall a | from <= a < to :: PrintableAt(segments, a)
  }

  /** Some string of at most `max` characters starts at `address`. */
  ghost predicate HasString(segments: seq<Segment>, address: int, max: nat)
    requires AllBacked(segments)
  {
    exists n: nat :: n <= max && StringOf(segments, address, n)
  }

  lemma FoundString(segments: seq<Segment>, address: int, n: nat, max: nat)
    requires ValidImage(segments) && PrintableRange(segments, address, address + n) && n <= max
    requires ByteBackedAt(segments, address + n) && FlatByte(segments, address + n) == 0
    ensures HasString(segments, address, max) && StringOf(segments, address, n)
    ensures Mapped(segments, address, address + n + 1) && address + n + 1 < LIMIT32
  {
    assert StringOf(segments, address, n);
    if address + n + 1 >= LIMIT32 {
      TopUnmapped(segments, address + n);
    }
    forall a | address <= a < address + n + 1
      ensures Flat(segments, a).Some?
    {
      assert a < address + n ==> PrintableAt(segments, a);
    }
  }

  lemma NotOfLength(segments: seq<Segment>, address: int, n: nat, m: nat)
    requires AllBacked(segments) && PrintableRange(segments, address, address + n)
    requires !ByteBackedAt(segments, address + n)
             || (FlatByte(segments, address + n) != 0 && !Printable(FlatByte(segments, address + n)))
    ensures !StringOf(segments, address, m)
  {
    if m < n {
      assert PrintableAt(segments, address + m);
    } else if m > n {
      assert !PrintableAt(segments, address + n);
    }
  }

  lemma TooLong(segments: seq<Segment>, address: int, n: nat, m: nat)
    requires AllBacked(segments) && PrintableRange(segments, address, address + n) && m < n
    ensures !StringOf(segments, address, m)
  {
    assert PrintableAt(segments, address + m);
  }

  lemma NoString(segments: seq<Segment>, address: int, n: nat, max: nat)
    requires AllBacked(segments) && PrintableRange(segments, address, address + n)
    requires n > max || !ByteBackedAt(segments, address + n)
             || (FlatByte(segments, address + n) != 0 && !Printable(FlatByte(segments, address + n)))
    ensures !HasString(segments, address, max)
  {
    forall m: nat | m <= max
      ensures !StringOf(segments, address, m)
    {
      if n > max {
        TooLong(segments, address, n, m);
      } else {
        NotOfLength(segments, address, n, m);
      }
    }
  }

  lemma PrintableMore(segments: seq<Segment>, address: int, n: nat)
    requires AllBacked(segments) && PrintableRange(segments, address, address + n)
    requires ByteBackedAt(segments, address + n) && Printable(FlatByte(segments, address + n))
    ensures PrintableRange(segments, address, address + n + 1)
    ensures Mapped(segments, address, address + n) && Mapped(segments, address, address + n + 1)
    ensures FlatBytes(segments, address, address + n + 1) ==
            FlatBytes(segments, address, address + n) + [FlatByte(segments, address + n)]
  {
    forall a | address <= a < address + n + 1
      ensures PrintableAt(segments, a)
    {
    }
    forall a | address <= a < address + n + 1
      ensures Flat(segments, a).Some?
    {
      assert PrintableAt(segments, a);
    }
    FlatBytesSplit(segments, address, address + n, address + n + 1);
    assert FlatBytes(segments, address + n, address + n + 1) == [FlatByte(segments, address + n)];
  }

  lemma NothingPrintable(segments: seq<Segment>, address: int)
    requires AllBacked(segments)
    ensures PrintableRange(segments, address, address) && Mapped(segments, address, address)
    ensures FlatBytes(segments, address, address) == []
  {
  }

  /** Reads a NUL-terminated printable string of at most `max` characters and its storage. */
  method ReadAsciiNul(segments: seq<Segment>, address: u32, max: nat)
    returns (r: Result<(seq<byte>, seq<StorageSpan>), string>)
    requires ValidImage(segments)
    ensures r.Success? <==> max <= MAX_ASCII_NUL && HasString(segments, address, max)
    ensures r.Success? ==> var n := |r.value.0|;
              && n <= max && StringOf(segments, address, n)
              && Mapped(segments, address, address + n)
              && r.value.0 == FlatBytes(segments, address, address + n)
              && Partitions(r.value.1, address, address + n + 1)
              && forall s | s in r.value.1 ::
                   DescribesCells(segments, s) && OnePerSegment(segments, s, address, address + n + 1)
  {
    if max > MAX_ASCII_NUL {
      return Failure("ASCII string bound exceeds 128 bytes");
    }
    hide *;
    ValidIsBacked(segments);
    var bytes: seq<byte> := [];
    NothingPrintable(segments, address);
    var offset: nat := 0;
    while true
      invariant offset <= max && |bytes| == offset
      invariant PrintableRange(segments, address, address + offset)
      invariant Mapped(segments, address, address + offset)
      invariant bytes == FlatBytes(segments, address, address + offset)
      decreases max - offset
    {
      if address + offset >= LIMIT32 {
        BeyondTop(segments, address + offset);
        NoString(segments, address, offset, max);
        return Failure("ASCII string address wraps the 32-bit address space");
      }
      var cursor: u32 := address + offset;
      var next := BackedByte(segments, cursor);
      if next.None? {
        NoString(segments, address, offset, max);
        return Failure("ASCII string crosses virtual zero-fill storage");
      }
      if next.value == 0 {
        FoundString(segments, address, offset, max);
        var storage := StorageSpans(segments, address, offset + 1);
        return Success((bytes, storage.value));
      }
      if !Printable(next.value) {
        NoString(segments, address, offset, max);
        return Failure("ASCII string contains a non-printable byte");
      }
      PrintableMore(segments, address, offset);
      if offset == max {
        NoString(segments, address, offset + 1, max);
        return Failure("ASCII string is not NUL-terminated within its bound");
      }
      bytes := bytes + [next.value];
      offset := offset + 1;
    }
  }

  lemma BeyondTop(segments: seq<Segment>, a: int)
    requires ValidImage(segments) && a >= LIMIT32
    ensures AllBacked(segments) && !ByteBackedAt(segments, a)
  {
    TopUnmapped(segments, a);
  }

  // ---------------------------------------------------------------- words

  predicate BackedWord(segments: seq<Segment>, a: u32)
    requires AllBacked(segments)
  {
    BackedRange(segments, a, a + 4)
  }

  function WordAt(segments: seq<Segment>, a: u32): u32
    requires AllBacked(segments) && BackedWord(segments, a)
  {
    assert ByteBackedAt(segments, a) && ByteBackedAt(segments, a + 1);
    assert ByteBackedAt(segments, a + 2) && ByteBackedAt(segments, a + 3);
    LittleEndian32(FlatByte(segments, a), FlatByte(segments, a + 1), FlatByte(segments, a + 2),
                   FlatByte(segments, a + 3))
  }

  /** A literal word is the number whose low byte comes first, of four bytes that are there and no virtual zero-fill. */
  lemma WordExactly(segments: seq<Segment>, a: u32)
    requires AllBacked(segments)
    ensures BackedWord(segments, a) <==>
            && ByteBackedAt(segments, a) && ByteBackedAt(segments, a + 1)
            && ByteBackedAt(segments, a + 2) && ByteBackedAt(segments, a + 3)
    ensures BackedWord(segments, a) ==>
              WordAt(segments, a)
              == FlatByte(segments, a) as int + FlatByte(segments, a + 1) as int * 0x100
                 + FlatByte(segments, a + 2) as int * 0x1_0000 + FlatByte(segments, a + 3) as int * 0x100_0000
  {
    hide Flat;
    if BackedWord(segments, a) {
      assert ByteBackedAt(segments, a) && ByteBackedAt(segments, a + 1);
      assert ByteBackedAt(segments, a + 2) && ByteBackedAt(segments, a + 3);
    } else {
      var b :| a <= b < a + 4 && !ByteBackedAt(segments, b);
      assert b == a || b == a + 1 || b == a + 2 || b == a + 3;
    }
  }

  /** The literal words of an image: the little-endian word at every address with four backed bytes. */
  function ImageWords(segments: seq<Segment>): map<u32, u32>
    requires AllBacked(segments)
  {
    map a: u32 | 0 <= a < LIMIT32 && BackedWord(segments, a) :: WordAt(segments, a)
  }

  lemma BackedIsMapped(segments: seq<Segment>, from: int, to: int)
    requires AllBacked(segments) && BackedRange(segments, from, to)
    ensures Mapped(segments, from, to)
  {
    forall a | from <= a < to
      ensures Flat(segments, a).Some?
    {
      assert ByteBackedAt(segments, a);
    }
  }

  /** A literal word is resolved exactly where the image has one. */
  method ReadLiteralWord(segments: seq<Segment>, address: u32) returns (r: Option<u32>)
    requires ValidImage(segments)
    ensures r.Some? <==> address in ImageWords(segments)
    ensures r.Some? ==> r.value == ImageWords(segments)[address]
  {
    var backed := IsByteBacked(segments, address, 4);
    if address + 4 >= LIMIT32 {
      assert !ByteBackedAt(segments, LIMIT32 - 1) by { TopUnmapped(segments, LIMIT32 - 1); }
    }
    if BackedRange(segments, address, address + 4) {
      BackedIsMapped(segments, address, address + 4);
    }
    if backed.Failure? || !backed.value {
      return None;
    }
    var read := ReadExact(segments, address, 4);
    var bytes := read.value;
    assert forall k | 0 <= k < 4 :: bytes[k] == FlatByte(segments, address + k);
    r := Some(LittleEndian32(bytes[0], bytes[1], bytes[2], bytes[3]));
  }
}
