/** What an execution identity is hashed over, byte by byte, and what a budget charges for, address by address. */
module FrameLayout {
  import opened Words
  import opened Arm32
  import opened Sorting
  import opened AddressCount
  import opened RuntimeImage
  import opened RuntimeQueries
  import opened ExecutionRanges
  import opened ExecutionIdentity

  /** One byte for the instruction set, the bounds, and the hash of the bytes between them. */
  ghost predicate RangeAt(bytes: seq<byte>, at: nat, r: AuthenticatedDecodeRange) {
    && at + 41 <= |bytes| && bytes[at] == (match r.isa case Arm => 0 case Thumb => 1)
    && NumberAt(bytes, at + 1, r.start) && NumberAt(bytes, at + 5, r.end) && bytes[at + 9..at + 41] == r.blake3
  }

  /** The domain and a NUL, the entry, the number of ranges, and the ranges in order. */
  ghost predicate FrameLaidOut(bytes: seq<byte>, entry: u32, ranges: seq<AuthenticatedDecodeRange>) {
    && |bytes| == 43 + 41 * |ranges|
    && SpelledAt(bytes, 0, "pixel-modem-extractor-execution-v1") && bytes[34] == 0
    && NumberAt(bytes, 35, entry) && NumberAt(bytes, 39, |ranges|)
    && forall k | 0 <= k < |ranges| :: RangeAt(bytes, 43 + 41 * k, ranges[k])
  }

  lemma DomainSpelled()
    ensures |DIGEST_DOMAIN| == 35 && SpelledAt(DIGEST_DOMAIN, 0, "pixel-modem-extractor-execution-v1")
    ensures DIGEST_DOMAIN[34] == 0
  {
  }

  lemma {:induction false} RangesAt(ranges: seq<AuthenticatedDecodeRange>, k: nat)
    requires k < |ranges|
    ensures RangeFrames(ranges)[41 * k..41 * (k + 1)] == RangeFrame(ranges[k])
    decreases |ranges|
  {
    hide RangeFrame;
    var n := |ranges| - 1;
    if k < n {
      RangesAt(ranges[..n], k);
      assert RangeFrames(ranges)[41 * k..41 * (k + 1)] == RangeFrames(ranges[..n])[41 * k..41 * (k + 1)];
    }
  }

  lemma RangeParts(r: AuthenticatedDecodeRange)
    ensures var f := RangeFrame(r);
            && f[0] == IsaRank(r.isa) && f[1..5] == LittleEndian(r.start) && f[5..9] == LittleEndian(r.end)
            && f[9..41] == r.blake3
  {
    hide LittleEndian;
  }

  lemma RangeIsAt(bytes: seq<byte>, at: nat, r: AuthenticatedDecodeRange)
    requires at + 41 <= |bytes| && bytes[at..at + 41] == RangeFrame(r)
    ensures RangeAt(bytes, at, r)
  {
    RangeParts(r);
    SubSlice(bytes, at, at + 41, 1, 5);
    SubSlice(bytes, at, at + 41, 5, 9);
    SubSlice(bytes, at, at + 41, 9, 41);
    assert bytes[at] == bytes[at..at + 41][0];
    hide RangeFrame, LittleEndian, NumberAt;
    NumberIn(bytes, at + 1, r.start);
    NumberIn(bytes, at + 5, r.end);
  }

  lemma FrameParts(entry: u32, ranges: seq<AuthenticatedDecodeRange>)
    requires |ranges| < LIMIT32
    ensures var f := Frame(entry, ranges);
            && |f| == 43 + 41 * |ranges| && f[..35] == DIGEST_DOMAIN
            && f[35..39] == LittleEndian(entry) && f[39..43] == LittleEndian(|ranges|)
            && f[43..] == RangeFrames(ranges)
  {
    DomainSpelled();
    hide DIGEST_DOMAIN, LittleEndian, RangeFrames;
  }

  /** The bytes that are hashed are laid out so. */
  lemma FrameIsLaidOut(entry: u32, ranges: seq<AuthenticatedDecodeRange>)
    requires |ranges| < LIMIT32
    ensures FrameLaidOut(Frame(entry, ranges), entry, ranges)
  {
    var f := Frame(entry, ranges);
    FrameParts(entry, ranges);
    DomainSpelled();
    assert forall k | 0 <= k < 35 :: f[k] == f[..35][k];
    hide Frame, DIGEST_DOMAIN, RangeFrames, RangeFrame, LittleEndian, NumberAt, RangeAt;
    NumberIn(f, 35, entry);
    NumberIn(f, 39, |ranges|);
    forall k | 0 <= k < |ranges|
      ensures RangeAt(f, 43 + 41 * k, ranges[k])
    {
      RangesAt(ranges, k);
      assert f[43..][41 * k..41 * (k + 1)] == f[43 + 41 * k..43 + 41 * k + 41];
      RangeIsAt(f, 43 + 41 * k, ranges[k]);
    }
  }

  // ---------------------------------------------------------------- what is charged

  ghost function Intervals(extents: seq<DecodeExtent>): (xs: seq<Interval>)
    ensures |xs| == |extents|
    ensures forall k | 0 <= k < |xs| :: xs[k] == Interval(extents[k].start, extents[k].end)
  {
    seq(|extents|, k requires 0 <= k < |extents| => Interval(extents[k].start, extents[k].end))
  }

  lemma {:induction false} TotalIsLengths(extents: seq<DecodeExtent>)
    requires AllPositive(extents)
    ensures TotalLength(extents) == Lengths(Intervals(extents))
    decreases |extents|
  {
    if extents != [] {
      var n := |extents| - 1;
      TotalIsLengths(extents[..n]);
      assert Intervals(extents)[..n] == Intervals(extents[..n]);
    }
  }

  /** An execution is charged one byte for every address of its ranges. */
  lemma ChargedByAddress(extents: seq<DecodeExtent>)
    requires AllPositive(extents) && Pairwise(ExtentsApart, extents)
    ensures ChargeOf(extents) == Charge(|extents|, |Covered(Intervals(extents))|)
  {
    TotalIsLengths(extents);
    var xs := Intervals(extents);
    assert forall i, j | 0 <= i < j < |xs| :: Apart(xs[i], xs[j]) by {
      assert forall i, j | 0 <= i < j < |extents| :: ExtentsApart(extents[i], extents[j]);
    }
    LengthsCount(xs);
  }

  /** A charge is affordable when the budget with it keeps to the limits, and the execution to its own. */
  lemma AffordableExactly(b: ExecutionBudget, c: Charge)
    requires b.Valid()
    ensures b.Affordable(c)
            <==> && c.ranges <= 65_536 && |b.granted + [c]| <= 262_144
                 && b.startRanges + TotalRanges(b.granted + [c]) <= 1_048_576
                 && b.startBytes + TotalBytes(b.granted + [c]) <= 536_870_912
  {
    var all := b.granted + [c];
    assert all[..|all| - 1] == b.granted;
  }

  // ---------------------------------------------------------------- what is authenticated

  /** Every address of the extents has a byte of the image, and none is virtual zero-fill. */
  ghost predicate AllBytesThere(image: seq<Segment>, extents: seq<DecodeExtent>)
    requires AllBacked(image)
  {
    forall k, a: int | 0 <= k < |extents| && extents[k].start <= a < extents[k].end :: ByteBackedAt(image, a)
  }

  /** The expected hash of an extent is that of the bytes at its addresses. */
  ghost predicate HashMatches(image: seq<Segment>, e: DecodeExtent, hash: Blake3, expected: Digest)
    requires AllBacked(image)
  {
    exists bytes: seq<byte> :: IsBytesOf(image, e, bytes) && hash(bytes) == expected
  }

  ghost predicate IsBytesOf(image: seq<Segment>, e: DecodeExtent, bytes: seq<byte>)
    requires AllBacked(image)
  {
    && |bytes| == e.end - e.start
    && forall i | 0 <= i < |bytes| :: Flat(image, e.start + i).Some? && Flat(image, e.start + i).value.value == bytes[i]
  }

  lemma BytesAre(image: seq<Segment>, e: DecodeExtent, bytes: seq<byte>)
    requires AllBacked(image) && e.start < e.end && BackedRange(image, e.start, e.end)
    ensures Mapped(image, e.start, e.end)
    ensures IsBytesOf(image, e, bytes) <==> bytes == FlatBytes(image, e.start, e.end)
  {
    BackedIsMapped(image, e.start, e.end);
    hide Flat;
    var flat := FlatBytes(image, e.start, e.end);
    forall i | 0 <= i < e.end - e.start
      ensures Flat(image, e.start + i).Some? && flat[i] == Flat(image, e.start + i).value.value
    {
    }
    assert IsBytesOf(image, e, bytes) ==> forall i | 0 <= i < |bytes| :: bytes[i] == flat[i];
  }

  lemma OneAuthentic(image: seq<Segment>, extents: seq<DecodeExtent>, expected: Option<seq<Digest>>, hash: Blake3,
                     k: nat)
    requires AllBacked(image) && WellFormedRequest(extents, expected) && k < |extents|
    ensures Authentic(image, extents, expected, hash, k)
            <==> BackedRange(image, extents[k].start, extents[k].end)
                 && (expected.Some? ==> HashMatches(image, extents[k], hash, expected.value[k]))
  {
    var e := extents[k];
    if BackedRange(image, e.start, e.end) {
      BytesAre(image, e, FlatBytesOf(image, e));
      hide IsBytesOf, FlatBytes;
      if HashMatches(image, e, hash, if expected.Some? then expected.value[k] else hash([])) {
        var bytes :| IsBytesOf(image, e, bytes)
                     && hash(bytes) == if expected.Some? then expected.value[k] else hash([]);
        BytesAre(image, e, bytes);
      }
    }
  }

  ghost function FlatBytesOf(image: seq<Segment>, e: DecodeExtent): seq<byte>
    requires AllBacked(image) && e.start < e.end && BackedRange(image, e.start, e.end)
  {
    BackedIsMapped(image, e.start, e.end);
    FlatBytes(image, e.start, e.end)
  }

  /** A request is authentic exactly when all its bytes are there and have the expected hashes, if any are expected. */
  lemma AuthenticExactly(image: seq<Segment>, extents: seq<DecodeExtent>, expected: Option<seq<Digest>>, hash: Blake3)
    requires AllBacked(image) && WellFormedRequest(extents, expected)
    ensures AuthenticUpTo(image, extents, expected, hash, |extents|)
            <==> AllBytesThere(image, extents)
                 && (expected.Some? ==>
                       forall k | 0 <= k < |extents| :: HashMatches(image, extents[k], hash, expected.value[k]))
  {
    hide Authentic, HashMatches, ByteBackedAt;
    forall k | 0 <= k < |extents|
      ensures Authentic(image, extents, expected, hash, k)
              <==> BackedRange(image, extents[k].start, extents[k].end)
                   && (expected.Some? ==> HashMatches(image, extents[k], hash, expected.value[k]))
    {
      OneAuthentic(image, extents, expected, hash, k);
    }
  }

  /** Hashes are expected for every extent or for none, and every extent has an address. */
  lemma RequestExactly(extents: seq<DecodeExtent>, expected: Option<seq<Digest>>)
    ensures WellFormedRequest(extents, expected)
            <==> (expected == None || |expected.value| == |extents|)
                 && forall k | 0 <= k < |extents| :: extents[k].start < extents[k].end
  {
  }
}
