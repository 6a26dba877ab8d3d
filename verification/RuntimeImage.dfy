/**
 * The segmented 32-bit address space. Every read walks the segments; what it returns is what one flat
 * partial memory map holds.
 */
module RuntimeImage {
  import opened Words
  import opened Sorting

  const MAX_EXACT_READ: nat := 0x1_0000
  const MAX_ASCII_NUL: nat := 128

  datatype StorageKind = RawStorage | ScatterBytes | ScatterZero

  datatype Backing = Raw(bytes: seq<byte>) | PlanBytes(bytes: seq<byte>, entry: nat) | Zero(entry: nat)

  datatype Segment = Segment(start: u32, end: u32, backing: Backing) {
    predicate Covers(a: int) {
      start <= a < end
    }

    function Kind(): StorageKind {
      match backing
      case Raw(_) => RawStorage
      case PlanBytes(_, _) => ScatterBytes
      case Zero(_) => ScatterZero
    }

    function ScatterEntry(): Option<nat> {
      match backing
      case Raw(_) => None
      case PlanBytes(_, e) => Some(e)
      case Zero(e) => Some(e)
    }

    /** The backing has one byte for every address. */
    ghost predicate Backed() {
      start < end && (backing.Zero? || |backing.bytes| == end - start)
    }

    function ByteAt(offset: nat): byte
      requires Backed() && offset < end - start
    {
      if backing.Zero? then 0 else backing.bytes[offset]
    }
  }

  /** What the flat memory map says about an address. */
  datatype Cell = Cell(value: byte, kind: StorageKind, entry: Option<nat>)

  ghost predicate AllBacked(segments: seq<Segment>) {
    forall k | 0 <= k < |segments| :: segments[k].Backed()
  }

  ghost predicate Disjoint(segments: seq<Segment>) {
    forall i, j | 0 <= i < j < |segments| :: segments[i].end <= segments[j].start
  }

  /** Sorted, nonempty, disjoint segments: what every runtime image holds. */
  ghost predicate ValidImage(segments: seq<Segment>) {
    AllBacked(segments) && Disjoint(segments)
  }

  function CellOf(s: Segment, a: int): Cell
    requires s.Backed() && s.Covers(a)
  {
    Cell(s.ByteAt(a - s.start), s.Kind(), s.ScatterEntry())
  }

  /** The flat partial memory map. */
  function Flat(segments: seq<Segment>, a: int): Option<Cell>
    requires AllBacked(segments)
  {
    if segments == [] then None
    else if segments[0].Covers(a) then Some(CellOf(segments[0], a))
    else Flat(segments[1..], a)
  }

  lemma {:induction false} FlatAt(segments: seq<Segment>, k: nat, a: int)
    requires ValidImage(segments) && k < |segments| && segments[k].Covers(a)
    ensures Flat(segments, a) == Some(CellOf(segments[k], a))
  {
    if k > 0 {
      assert segments[0].end <= segments[k].start;
      FlatAt(segments[1..], k - 1, a);
    }
  }

  lemma {:induction false} FlatNowhere(segments: seq<Segment>, a: int)
    requires AllBacked(segments) && forall k | 0 <= k < |segments| :: !segments[k].Covers(a)
    ensures Flat(segments, a).None?
  {
    if segments != [] {
      FlatNowhere(segments[1..], a);
    }
  }

  lemma {:induction false} FlatSomewhere(segments: seq<Segment>, a: int) returns (k: nat)
    requires AllBacked(segments) && Flat(segments, a).Some?
    ensures k < |segments| && segments[k].Covers(a)
  {
    if segments[0].Covers(a) {
      k := 0;
    } else {
      k := FlatSomewhere(segments[1..], a);
      k := k + 1;
    }
  }

  ghost predicate Mapped(segments: seq<Segment>, from: int, to: int)
    requires AllBacked(segments)
  {
    forall a | from <= a < to :: Flat(segments, a).Some?
  }

  function FlatByte(segments: seq<Segment>, a: int): byte
    requires AllBacked(segments) && Flat(segments, a).Some?
  {
    Flat(segments, a).value.value
  }

  /** The bytes of a mapped range, in address order. */
  function FlatBytes(segments: seq<Segment>, from: int, to: int): seq<byte>
    requires AllBacked(segments) && from <= to && Mapped(segments, from, to)
  {
    seq<byte>(to - from,
              i requires 0 <= i < to - from && Flat(segments, from + i).Some? => FlatByte(segments, from + i))
  }

  lemma FlatBytesSplit(segments: seq<Segment>, from: int, middle: int, to: int)
    requires AllBacked(segments) && from <= middle <= to && Mapped(segments, from, to)
    ensures FlatBytes(segments, from, to) == FlatBytes(segments, from, middle) + FlatBytes(segments, middle, to)
  {
  }

  // ---------------------------------------------------------------- range resolution

  datatype Span = Span(segment: Segment, address: u32, offset: u32, size: u32)

  /** A nonempty piece of its segment. */
  ghost predicate SpanOk(s: Span) {
    && s.segment.Backed() && s.size > 0
    && s.address - s.segment.start == s.offset
    && s.address + s.size <= s.segment.end
  }

  /** The spans cover `[from, to)` left to right without gaps. */
  ghost predicate Tiles(spans: seq<Span>, from: int, to: int) {
    if spans == [] then from == to
    else
      var last := spans[|spans| - 1];
      last.address + last.size == to && Tiles(spans[..|spans| - 1], from, last.address)
  }

  /** Each span ends where its segment ends, unless the range ends there. */
  ghost predicate Maximal(spans: seq<Span>, from: int, to: int) {
    forall k | 0 <= k < |spans| ::
      && (spans[k].address + spans[k].size == spans[k].segment.end || spans[k].address + spans[k].size == to)
      && (spans[k].address == spans[k].segment.start || spans[k].address == from)
  }

  ghost predicate Resolves(segments: seq<Segment>, spans: seq<Span>, from: int, to: int) {
    && (forall k | 0 <= k < |spans| :: SpanOk(spans[k]) && spans[k].segment in segments)
    && Tiles(spans, from, to)
  }

  /** The index of the first segment that ends after `address`: segments are sorted by their ends. */
  method PartitionPoint(segments: seq<Segment>, address: u32) returns (index: nat)
    ensures index <= |segments|
    ensures forall k | 0 <= k < index :: segments[k].end <= address
    ensures index < |segments| ==> segments[index].end > address
  {
    index := 0;
    while index < |segments| && segments[index].end <= address
      invariant index <= |segments| && forall k | 0 <= k < index :: segments[k].end <= address
    {
      index := index + 1;
    }
  }

  /** The walk has passed every segment below the cursor; the next one is the only one it can be in. */
  ghost predicate AtCursor(segments: seq<Segment>, cursor: int, index: nat) {
    && index <= |segments|
    && (forall k | 0 <= k < index :: segments[k].end <= cursor)
    && (forall k | index <= k < |segments| :: cursor < segments[k].end)
  }

  lemma CursorStart(segments: seq<Segment>, address: u32, index: nat)
    requires ValidImage(segments) && index <= |segments|
    requires forall k | 0 <= k < index :: segments[k].end <= address
    requires index < |segments| ==> segments[index].end > address
    ensures AtCursor(segments, address, index)
  {
    forall k | index <= k < |segments|
      ensures address < segments[k].end
    {
      if k > index {
        assert segments[index].end <= segments[k].start && segments[k].Backed();
      }
    }
  }

  lemma CursorUnmapped(segments: seq<Segment>, cursor: u32, index: nat)
    requires ValidImage(segments) && AtCursor(segments, cursor, index)
    requires index == |segments| || cursor < segments[index].start
    ensures Flat(segments, cursor).None?
  {
    forall k | 0 <= k < |segments|
      ensures !segments[k].Covers(cursor)
    {
      if k > index {
        assert segments[index].end <= segments[k].start && segments[index].Backed();
      }
    }
    FlatNowhere(segments, cursor);
  }

  lemma SpanMapped(segments: seq<Segment>, k: nat, from: int, to: int)
    requires ValidImage(segments) && k < |segments| && segments[k].start <= from && to <= segments[k].end
    ensures Mapped(segments, from, to)
  {
    forall a | from <= a < to
      ensures Flat(segments, a).Some?
    {
      FlatAt(segments, k, a);
    }
  }

  lemma CursorNext(segments: seq<Segment>, cursor: int, index: nat)
    requires ValidImage(segments) && AtCursor(segments, cursor, index) && index < |segments|
    ensures AtCursor(segments, segments[index].end, index + 1)
  {
    forall k | index + 1 <= k < |segments|
      ensures segments[index].end < segments[k].end
    {
      assert segments[index].end <= segments[k].start && segments[k].Backed();
    }
  }

  lemma TilesMore(spans: seq<Span>, from: int, s: Span)
    requires Tiles(spans, from, s.address)
    ensures Tiles(spans + [s], from, s.address + s.size)
  {
    assert (spans + [s])[..|spans|] == spans;
  }

  /** Resolves a range to the pieces of the segments that back it. */
  method VisitRange(segments: seq<Segment>, address: u32, size: u32) returns (r: Result<seq<Span>, string>)
    requires ValidImage(segments)
    ensures r.Success? <==> address + size < LIMIT32 && Mapped(segments, address, address + size)
    ensures r.Success? ==> Resolves(segments, r.value, address, address + size)
    ensures r.Success? ==> Maximal(r.value, address, address + size)
  {
    if address + size >= LIMIT32 {
      return Failure("runtime read wraps the 32-bit address space");
    }
    var end: u32 := address + size;
    if size == 0 {
      return Success([]);
    }
    hide *;
    var index: nat := PartitionPoint(segments, address);
    CursorStart(segments, address, index);
    var cursor: u32 := address;
    var spans: seq<Span> := [];
    NothingYet(segments, address, end);
    while cursor < end
      invariant address <= cursor <= end && index <= |segments|
      invariant cursor < end ==> AtCursor(segments, cursor, index)
      invariant Walked(segments, spans, address, cursor, end)
      invariant cursor < end ==> FollowsLast(segments, spans, address, cursor, index)
      decreases end - cursor
    {
      if index >= |segments| || cursor < segments[index].start || cursor >= segments[index].end {
        Blocked(segments, address, end, cursor, index);
        return Failure("runtime range crosses unmapped memory");
      }
      var segment := segments[index];
      var spanEnd: u32 := if segment.end < end then segment.end else end;
      var span := Span(segment, cursor, cursor - segment.start, spanEnd - cursor);
      Advance(segments, spans, address, cursor, spanEnd, end, index, span);
      spans := spans + [span];
      cursor := spanEnd;
      index := index + 1;
    }
    WalkedAll(segments, spans, address, end);
    r := Success(spans);
  }

  /** The range up to the cursor is mapped and resolved. */
  ghost predicate Walked(segments: seq<Segment>, spans: seq<Span>, from: int, cursor: int, end: int) {
    && ValidImage(segments) && Mapped(segments, from, cursor)
    && Resolves(segments, spans, from, cursor) && Maximal(spans, from, end)
  }

  ghost predicate FollowsLast(segments: seq<Segment>, spans: seq<Span>, from: int, cursor: int, index: nat) {
    if spans == [] then cursor == from else 0 < index <= |segments| && segments[index - 1].end == cursor
  }

  lemma NothingYet(segments: seq<Segment>, address: u32, end: u32)
    requires ValidImage(segments)
    ensures Walked(segments, [], address, address, end)
    ensures forall index: nat :: FollowsLast(segments, [], address, address, index)
  {
  }

  lemma WalkedAll(segments: seq<Segment>, spans: seq<Span>, address: u32, end: u32)
    requires Walked(segments, spans, address, end, end)
    ensures AllBacked(segments) && Mapped(segments, address, end)
    ensures Resolves(segments, spans, address, end) && Maximal(spans, address, end)
  {
  }

  lemma Blocked(segments: seq<Segment>, address: u32, end: u32, cursor: u32, index: nat)
    requires ValidImage(segments) && address <= cursor < end && AtCursor(segments, cursor, index)
    requires index >= |segments| || cursor < segments[index].start || cursor >= segments[index].end
    ensures AllBacked(segments) && !Mapped(segments, address, end)
  {
    CursorUnmapped(segments, cursor, index);
    assert Flat(segments, cursor).None?;
  }

  lemma Advance(segments: seq<Segment>, spans: seq<Span>, address: u32, cursor: u32, next: u32, end: u32,
                index: nat, span: Span)
    requires ValidImage(segments) && index < |segments| && AtCursor(segments, cursor, index)
    requires segments[index].start <= cursor < segments[index].end && address <= cursor < end
    requires next == if segments[index].end < end then segments[index].end else end
    requires span == Span(segments[index], cursor, cursor - segments[index].start, next - cursor)
    requires Walked(segments, spans, address, cursor, end) && FollowsLast(segments, spans, address, cursor, index)
    ensures Walked(segments, spans + [span], address, next, end)
    ensures next < end ==> AtCursor(segments, next, index + 1)
    ensures next < end ==> FollowsLast(segments, spans + [span], address, next, index + 1)
  {
    SpanMapped(segments, index, cursor, next);
    TilesMore(spans, address, span);
    if segments[index].end == next {
      CursorNext(segments, cursor, index);
    }
    MaximalMore(segments, spans, address, cursor, end, index, span);
    assert segments[index].Backed();
    hide Flat, Tiles, AtCursor, Maximal;
  }

  lemma MaximalMore(segments: seq<Segment>, spans: seq<Span>, address: u32, cursor: u32, end: u32,
                    index: nat, span: Span)
    requires Disjoint(segments) && index < |segments| && segments[index].start <= cursor
    requires span.segment == segments[index] && span.address == cursor
    requires span.address + span.size == if segments[index].end < end then segments[index].end else end
    requires Maximal(spans, address, end) && FollowsLast(segments, spans, address, cursor, index)
    ensures Maximal(spans + [span], address, end)
  {
    if spans != [] {
      assert segments[index - 1].end <= segments[index].start;
    }
  }

  // ---------------------------------------------------------------- reads

  /** The bytes of one span. */
  function SpanBytes(s: Span): (bytes: seq<byte>)
    requires s.segment.Backed() && s.offset + s.size <= s.segment.end - s.segment.start
    ensures |bytes| == s.size
    ensures forall i | 0 <= i < s.size :: bytes[i] == s.segment.ByteAt(s.offset + i)
  {
    if s.segment.backing.Zero? then Zeros(s.size) else s.segment.backing.bytes[s.offset..s.offset + s.size]
  }

  function Zeros(n: nat): (z: seq<byte>)
    ensures |z| == n && forall i | 0 <= i < n :: z[i] == 0
  {
    if n == 0 then [] else Zeros(n - 1) + [0]
  }

  lemma SpanBytesFlat(segments: seq<Segment>, s: Span)
    requires ValidImage(segments) && SpanOk(s) && s.segment in segments
    ensures Mapped(segments, s.address, s.address + s.size)
    ensures SpanBytes(s) == FlatBytes(segments, s.address, s.address + s.size)
  {
    var k :| 0 <= k < |segments| && segments[k] == s.segment;
    forall a | s.address <= a < s.address + s.size
      ensures Flat(segments, a) == Some(CellOf(s.segment, a))
    {
      FlatAt(segments, k, a);
    }
    var bytes := FlatBytes(segments, s.address, s.address + s.size);
    forall i | 0 <= i < s.size
      ensures bytes[i] == SpanBytes(s)[i]
    {
      assert bytes[i] == FlatByte(segments, s.address + i);
    }
  }

  lemma {:induction false} TilesBelow(spans: seq<Span>, from: int, to: int, k: nat)
    requires Tiles(spans, from, to) && k < |spans| && forall j | 0 <= j < |spans| :: SpanOk(spans[j])
    ensures from <= spans[k].address && spans[k].address + spans[k].size <= to
    ensures Tiles(spans[..k], from, spans[k].address)
    decreases |spans|
  {
    var last := spans[|spans| - 1];
    if |spans| > 1 {
      TilesBelow(spans[..|spans| - 1], from, last.address, |spans| - 2);
    }
    if k < |spans| - 1 {
      TilesBelow(spans[..|spans| - 1], from, last.address, k);
      assert spans[..|spans| - 1][..k] == spans[..k];
    }
  }

  /** Copies one span into the read buffer. */
  method ReadInto(s: Span, output: array<byte>, written: nat)
    requires s.segment.Backed() && s.offset + s.size <= s.segment.end - s.segment.start
    requires written + s.size <= output.Length
    modifies output
    ensures output[..] == old(output[..written]) + SpanBytes(s) + old(output[written + s.size..])
  {
    var bytes := SpanBytes(s);
    var i := 0;
    while i < s.size
      invariant 0 <= i <= s.size
      invariant forall k | 0 <= k < output.Length ::
                  output[k] == if written <= k < written + i then bytes[k - written] else old(output[k])
    {
      output[written + i] := bytes[i];
      i := i + 1;
    }
  }

  /** Where span `k` starts; past the last span, where the range ends. */
  ghost function StartOf(spans: seq<Span>, k: nat, to: int): int {
    if k < |spans| then spans[k].address else to
  }

  lemma StartOfNext(segments: seq<Segment>, spans: seq<Span>, from: int, to: int, k: nat)
    requires Resolves(segments, spans, from, to) && k < |spans|
    ensures spans[k] in spans && SpanOk(spans[k]) && spans[k].segment in segments
    ensures from <= spans[k].address && spans[k].address + spans[k].size <= to
    ensures StartOf(spans, k + 1, to) == spans[k].address + spans[k].size
    ensures StartOf(spans, k, to) == spans[k].address
  {
    TilesBelow(spans, from, to, k);
    if k + 1 < |spans| {
      TilesBelow(spans, from, to, k + 1);
      assert spans[..k + 1][..k] == spans[..k];
    } else {
      assert spans[..|spans|] == spans;
    }
  }

  lemma StartOfFirst(segments: seq<Segment>, spans: seq<Span>, from: int, to: int)
    requires Resolves(segments, spans, from, to)
    ensures StartOf(spans, 0, to) == from && StartOf(spans, |spans|, to) == to
  {
    if spans != [] {
      TilesBelow(spans, from, to, 0);
      assert spans[..0] == [];
    }
  }

  lemma PrefixMapped(segments: seq<Segment>, from: int, middle: int, to: int)
    requires AllBacked(segments) && Mapped(segments, from, to) && from <= middle <= to
    ensures Mapped(segments, from, middle)
  {
  }

  /** Bytes up to a span, followed by the span's bytes, are the bytes up to its end. */
  lemma NextBytes(segments: seq<Segment>, from: int, s: Span, to: int)
    requires ValidImage(segments) && SpanOk(s) && s.segment in segments
    requires Mapped(segments, from, to) && from <= s.address && s.address + s.size <= to
    ensures Mapped(segments, from, s.address) && Mapped(segments, from, s.address + s.size)
    ensures s.offset + s.size <= s.segment.end - s.segment.start && s.segment.Backed()
    ensures FlatBytes(segments, from, s.address + s.size) == FlatBytes(segments, from, s.address) + SpanBytes(s)
  {
    PrefixMapped(segments, from, s.address, to);
    PrefixMapped(segments, from, s.address + s.size, to);
    SpanBytesFlat(segments, s);
    FlatBytesSplit(segments, from, s.address, s.address + s.size);
  }

  lemma NoBytes(segments: seq<Segment>, from: int)
    requires AllBacked(segments)
    ensures Mapped(segments, from, from) && FlatBytes(segments, from, from) == []
  {
  }

  lemma SingleSpan(segments: seq<Segment>, spans: seq<Span>, from: int, to: int)
    requires ValidImage(segments) && Resolves(segments, spans, from, to) && |spans| == 1
    ensures SpanOk(spans[0]) && from <= to && Mapped(segments, from, to)
    ensures spans[0].offset + spans[0].size <= spans[0].segment.end - spans[0].segment.start
    ensures SpanBytes(spans[0]) == FlatBytes(segments, from, to)
  {
    StartOfNext(segments, spans, from, to, 0);
    StartOfFirst(segments, spans, from, to);
    SpanBytesFlat(segments, spans[0]);
  }

  /** Fills the read buffer span by span. */
  method CopySpans(segments: seq<Segment>, spans: seq<Span>, address: u32, size: nat) returns (bytes: seq<byte>)
    requires ValidImage(segments) && Resolves(segments, spans, address, address + size)
    requires Mapped(segments, address, address + size)
    ensures bytes == FlatBytes(segments, address, address + size)
  {
    hide *;
    ValidIsBacked(segments);
    var output := new byte[size](_ => 0);
    var written: nat := 0;
    ghost var to := address + size;
    StartOfFirst(segments, spans, address, to);
    NoBytes(segments, address);
    for k := 0 to |spans|
      invariant written <= size && address + written == StartOf(spans, k, to)
      invariant Mapped(segments, address, address + written)
      invariant output[..written] == FlatBytes(segments, address, address + written)
    {
      StartOfNext(segments, spans, address, to, k);
      NextBytes(segments, address, spans[k], to);
      ghost var before := output[..written];
      ReadInto(spans[k], output, written);
      BufferPrefix(output[..], before, SpanBytes(spans[k]));
      written := written + spans[k].size;
    }
    assert output[..] == output[..written];
    bytes := output[..];
  }

  lemma ValidIsBacked(segments: seq<Segment>)
    requires ValidImage(segments)
    ensures AllBacked(segments)
  {
  }

  lemma BufferPrefix(buffer: seq<byte>, before: seq<byte>, added: seq<byte>)
    requires |before| + |added| <= |buffer| && buffer == before + added + buffer[|before| + |added|..]
    ensures buffer[..|before| + |added|] == before + added
  {
  }

  /** An exact read of at most 64 KiB: borrowed when one span backs it, copied span by span otherwise. */
  method ReadExact(segments: seq<Segment>, address: u32, size: nat) returns (r: Result<seq<byte>, string>)
    requires ValidImage(segments)
    ensures r.Success? <==> size <= MAX_EXACT_READ &&
                            (size == 0 || (address + size < LIMIT32 && Mapped(segments, address, address + size)))
    ensures r.Success? && size > 0 ==> r.value == FlatBytes(segments, address, address + size)
    ensures r.Success? && size == 0 ==> r.value == []
  {
    if size > MAX_EXACT_READ {
      return Failure("exact runtime read exceeds 64 KiB");
    }
    if size == 0 {
      return Success([]);
    }
    hide *;
    ValidIsBacked(segments);
    var visited := VisitRange(segments, address, size);
    if visited.Failure? {
      return Failure(visited.error);
    }
    var spans := visited.value;
    if |spans| == 1 {
      SingleSpan(segments, spans, address, address + size);
      return Success(SpanBytes(spans[0]));
    }
    var bytes := CopySpans(segments, spans, address, size);
    r := Success(bytes);
  }
}
