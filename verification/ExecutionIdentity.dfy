/**
 * Authenticating decode ranges: an atomic budget, the bytes each range is hashed over, and a digest
 * whose framing tells any two identities apart.
 */
module ExecutionIdentity {
  import opened Words
  import opened Arm32
  import opened RuntimeImage
  import opened RuntimeQueries
  import opened ExecutionRanges

  const MAX_EXECUTION_FUNCTIONS: nat := 262_144
  const MAX_EXECUTION_RANGES: nat := 1_048_576
  const MAX_EXECUTION_RANGES_PER_FUNCTION: nat := 65_536
  const MAX_EXECUTION_CHARGED_BYTES: nat := 512 * 1024 * 1024

  /** What a 256-bit hash returns. */
  type Digest = d: seq<byte> | |d| == 32 witness seq<byte>(32, i => 0)

  /** Nothing is known about the hash but the width of what it returns. */
  type Blake3 = seq<byte> -> Digest

  datatype AuthenticatedDecodeRange = AuthenticatedDecodeRange(isa: Isa, start: u32, end: u32, blake3: Digest)

  datatype Identity = Identity(entry: u32, decodeRanges: seq<AuthenticatedDecodeRange>, executionBlake3: Digest)

  // ---------------------------------------------------------------- the budget

  datatype Charge = Charge(ranges: nat, bytes: nat)

  ghost function TotalRanges(charges: seq<Charge>): nat {
    if charges == [] then 0 else TotalRanges(charges[..|charges| - 1]) + charges[|charges| - 1].ranges
  }

  ghost function TotalBytes(charges: seq<Charge>): nat {
    if charges == [] then 0 else TotalBytes(charges[..|charges| - 1]) + charges[|charges| - 1].bytes
  }

  lemma ChargeNext(charges: seq<Charge>, c: Charge)
    ensures TotalRanges(charges + [c]) == TotalRanges(charges) + c.ranges
    ensures TotalBytes(charges + [c]) == TotalBytes(charges) + c.bytes
  {
    assert (charges + [c])[..|charges + [c]| - 1] == charges;
  }

  class ExecutionBudget {
    var functions: nat
    var ranges: nat
    var chargedBytes: nat
    ghost const startRanges: nat
    ghost const startBytes: nat
    ghost var granted: seq<Charge>

    /** The counters are what has been granted on top of the start, and never exceed the limits. */
    ghost predicate Valid()
      reads this
    {
      && functions == |granted|
      && ranges == startRanges + TotalRanges(granted)
      && chargedBytes == startBytes + TotalBytes(granted)
      && functions <= MAX_EXECUTION_FUNCTIONS && ranges <= MAX_EXECUTION_RANGES
      && chargedBytes <= MAX_EXECUTION_CHARGED_BYTES
    }

    constructor FromRangeUsage(rangeCount: nat, bytes: nat)
      requires rangeCount <= MAX_EXECUTION_RANGES && bytes <= MAX_EXECUTION_CHARGED_BYTES
      ensures Valid() && granted == [] && startRanges == rangeCount && startBytes == bytes
    {
      functions := 0;
      ranges := rangeCount;
      chargedBytes := bytes;
      startRanges := rangeCount;
      startBytes := bytes;
      granted := [];
    }

    /** A budget that continues from recorded usage, unless that is past a limit already. */
    static method Continue(rangeCount: nat, bytes: nat) returns (r: Result<ExecutionBudget, string>)
      ensures r.Success? <==> rangeCount <= MAX_EXECUTION_RANGES && bytes <= MAX_EXECUTION_CHARGED_BYTES
      ensures r.Success? ==> fresh(r.value) && r.value.Valid() && r.value.granted == []
      ensures r.Success? ==> r.value.ranges == rangeCount && r.value.chargedBytes == bytes
    {
      if rangeCount > MAX_EXECUTION_RANGES {
        return Failure("execution range count exceeds the supported limit");
      }
      if bytes > MAX_EXECUTION_CHARGED_BYTES {
        return Failure("execution charged bytes exceed the supported limit");
      }
      var budget := new ExecutionBudget.FromRangeUsage(rangeCount, bytes);
      r := Success(budget);
    }

    /** The charge fits every limit. */
    predicate Affordable(c: Charge)
      reads this
    {
      && c.ranges <= MAX_EXECUTION_RANGES_PER_FUNCTION
      && functions + 1 <= MAX_EXECUTION_FUNCTIONS
      && ranges + c.ranges <= MAX_EXECUTION_RANGES
      && chargedBytes + c.bytes <= MAX_EXECUTION_CHARGED_BYTES
    }

    /** The counters after one more charge, or the first limit it would pass. */
    method CheckedCharge(c: Charge) returns (r: Result<(nat, nat, nat), string>)
      ensures r.Success? <==> Affordable(c)
      ensures r.Success? ==> r.value == (functions + 1, ranges + c.ranges, chargedBytes + c.bytes)
    {
      if c.ranges > MAX_EXECUTION_RANGES_PER_FUNCTION {
        return Failure("execution range count exceeds the per-function limit");
      }
      var nextFunctions, nextRanges, nextBytes := functions + 1, ranges + c.ranges, chargedBytes + c.bytes;
      if nextFunctions > MAX_EXECUTION_FUNCTIONS {
        return Failure("execution function count exceeds the supported limit");
      }
      if nextRanges > MAX_EXECUTION_RANGES {
        return Failure("execution range count exceeds the supported limit");
      }
      if nextBytes > MAX_EXECUTION_CHARGED_BYTES {
        return Failure("execution charged bytes exceed the supported limit");
      }
      r := Success((nextFunctions, nextRanges, nextBytes));
    }

    /** All three counters move together, or none does. */
    method TryCharge(c: Charge) returns (r: Result<(), string>)
      requires Valid()
      modifies this
      ensures Valid()
      ensures r.Success? <==> old(Affordable(c))
      ensures granted == if r.Success? then old(granted) + [c] else old(granted)
    {
      var checked := CheckedCharge(c);
      if checked.Failure? {
        return Failure(checked.error);
      }
      ChargeNext(granted, c);
      functions, ranges, chargedBytes := checked.value.0, checked.value.1, checked.value.2;
      granted := granted + [c];
      r := Success(());
    }
  }

  // ---------------------------------------------------------------- framing

  /** `pixel-modem-extractor-execution-v1` and a NUL, as bytes. */
  const DIGEST_DOMAIN: seq<byte> := [
    112, 105, 120, 101, 108, 45, 109, 111, 100, 101, 109, 45, 101, 120, 116, 114, 97, 99, 116, 111, 114, 45,
    101, 120, 101, 99, 117, 116, 105, 111, 110, 45, 118, 49, 0]

  function RangeFrame(r: AuthenticatedDecodeRange): (bytes: seq<byte>)
    ensures |bytes| == 41
  {
    [IsaRank(r.isa)] + LittleEndian(r.start) + LittleEndian(r.end) + r.blake3
  }

  function RangeFrames(ranges: seq<AuthenticatedDecodeRange>): (bytes: seq<byte>)
    ensures |bytes| == 41 * |ranges|
  {
    if ranges == [] then [] else RangeFrames(ranges[..|ranges| - 1]) + RangeFrame(ranges[|ranges| - 1])
  }

  /** The bytes fed to the hash. */
  function Frame(entry: u32, ranges: seq<AuthenticatedDecodeRange>): seq<byte>
    requires |ranges| < LIMIT32
  {
    DIGEST_DOMAIN + LittleEndian(entry) + LittleEndian(|ranges|) + RangeFrames(ranges)
  }

  lemma RangeFrameInjective(r: AuthenticatedDecodeRange, s: AuthenticatedDecodeRange)
    requires RangeFrame(r) == RangeFrame(s)
    ensures r == s
  {
    hide LittleEndian;
    var a, b := RangeFrame(r), RangeFrame(s);
    assert [a[0]] == [IsaRank(r.isa)] && [b[0]] == [IsaRank(s.isa)];
    assert a[1..5] == LittleEndian(r.start) && b[1..5] == LittleEndian(s.start);
    assert a[5..9] == LittleEndian(r.end) && b[5..9] == LittleEndian(s.end);
    assert a[9..] == r.blake3 && b[9..] == s.blake3;
    LittleEndianInjective(r.start, s.start);
    LittleEndianInjective(r.end, s.end);
  }

  lemma {:induction false} RangeFramesInjective(rs: seq<AuthenticatedDecodeRange>, ss: seq<AuthenticatedDecodeRange>)
    requires RangeFrames(rs) == RangeFrames(ss)
    ensures rs == ss
    decreases |rs|
  {
    hide RangeFrame;
    assert 41 * |rs| == |RangeFrames(rs)| == |RangeFrames(ss)| == 41 * |ss|;
    if rs != [] {
      var n := |rs| - 1;
      var a, b := RangeFrames(rs), RangeFrames(ss);
      assert a[..41 * n] == RangeFrames(rs[..n]) && b[..41 * n] == RangeFrames(ss[..n]);
      assert a[41 * n..] == RangeFrame(rs[n]) && b[41 * n..] == RangeFrame(ss[n]);
      RangeFramesInjective(rs[..n], ss[..n]);
      RangeFrameInjective(rs[n], ss[n]);
      assert rs == rs[..n] + [rs[n]] && ss == ss[..n] + [ss[n]];
    }
  }

  /** Two identities are hashed over the same bytes only when they are the same. */
  lemma FrameInjective(e: u32, rs: seq<AuthenticatedDecodeRange>, f: u32, ss: seq<AuthenticatedDecodeRange>)
    requires |rs| < LIMIT32 && |ss| < LIMIT32 && Frame(e, rs) == Frame(f, ss)
    ensures e == f && rs == ss
  {
    hide LittleEndian, RangeFrames;
    var n := |DIGEST_DOMAIN|;
    var a, b := Frame(e, rs), Frame(f, ss);
    assert a[n..n + 4] == LittleEndian(e) && b[n..n + 4] == LittleEndian(f);
    assert a[n + 8..] == RangeFrames(rs) && b[n + 8..] == RangeFrames(ss);
    LittleEndianInjective(e, f);
    RangeFramesInjective(rs, ss);
  }

  /** Feeds the fixed-width frame to the hash. */
  method ExecutionDigest(entry: u32, ranges: seq<AuthenticatedDecodeRange>, hash: Blake3) returns (digest: Digest)
    requires |ranges| < LIMIT32
    ensures digest == hash(Frame(entry, ranges))
  {
    hide LittleEndian;
    var fed := DIGEST_DOMAIN;
    fed := fed + LittleEndian(entry);
    fed := fed + LittleEndian(|ranges|);
    ghost var header := fed;
    assert ranges[..0] == [];
    for k := 0 to |ranges|
      invariant fed == header + RangeFrames(ranges[..k])
    {
      assert ranges[..k + 1][..k] == ranges[..k];
      fed := fed + [IsaRank(ranges[k].isa)];
      fed := fed + LittleEndian(ranges[k].start);
      fed := fed + LittleEndian(ranges[k].end);
      fed := fed + ranges[k].blake3;
      assert fed == header + (RangeFrames(ranges[..k]) + RangeFrame(ranges[k]));
    }
    assert ranges[..|ranges|] == ranges;
    digest := hash(fed);
  }

  // ---------------------------------------------------------------- authentication

  ghost function TotalLength(extents: seq<DecodeExtent>): nat
    requires AllPositive(extents)
  {
    if extents == [] then 0
    else TotalLength(extents[..|extents| - 1]) + (extents[|extents| - 1].end - extents[|extents| - 1].start)
  }

  ghost function ChargeOf(extents: seq<DecodeExtent>): Charge
    requires AllPositive(extents)
  {
    Charge(|extents|, TotalLength(extents))
  }

  /** The request is one the budget is asked about. */
  ghost predicate WellFormedRequest(extents: seq<DecodeExtent>, expected: Option<seq<Digest>>) {
    AllPositive(extents) && (expected.Some? ==> |expected.value| == |extents|)
  }

  /** The hash of the bytes the flat memory map holds in an extent. */
  ghost function ExtentHash(image: seq<Segment>, e: DecodeExtent, hash: Blake3): Digest
    requires AllBacked(image) && e.start < e.end && BackedRange(image, e.start, e.end)
  {
    BackedIsMapped(image, e.start, e.end);
    hash(FlatBytes(image, e.start, e.end))
  }

  /** The extent has bytes throughout, and they hash to what was expected. */
  ghost predicate Authentic(image: seq<Segment>, extents: seq<DecodeExtent>, expected: Option<seq<Digest>>,
                            hash: Blake3, k: nat)
    requires AllBacked(image) && WellFormedRequest(extents, expected) && k < |extents|
  {
    && BackedRange(image, extents[k].start, extents[k].end)
    && (expected.Some? ==> expected.value[k] == ExtentHash(image, extents[k], hash))
  }

  ghost predicate AuthenticUpTo(image: seq<Segment>, extents: seq<DecodeExtent>, expected: Option<seq<Digest>>,
                                hash: Blake3, n: nat)
    requires AllBacked(image) && WellFormedRequest(extents, expected) && n <= |extents|
  {
    forall k | 0 <= k < n :: Authentic(image, extents, expected, hash, k)
  }

  /** The ranges carry the extents with the hashes of their bytes. */
  ghost predicate Authenticates(image: seq<Segment>, extents: seq<DecodeExtent>, hash: Blake3,
                                ranges: seq<AuthenticatedDecodeRange>)
    requires AllBacked(image) && AllPositive(extents) && |ranges| <= |extents|
  {
    forall k | 0 <= k < |ranges| ::
      && BackedRange(image, extents[k].start, extents[k].end)
      && ranges[k] == AuthenticatedDecodeRange(extents[k].isa, extents[k].start, extents[k].end,
                                               ExtentHash(image, extents[k], hash))
  }

  lemma MeansBacked(image: seq<Segment>, from: int, to: int)
    requires AllBacked(image)
    ensures BackedRange(image, from, to) <==> forall a | from <= a < to :: ByteBackedAt(image, a)
    ensures BackedRange(image, from, to) ==> Mapped(image, from, to)
  {
    BackedMeans(image, from, to);
    if BackedRange(image, from, to) {
      BackedIsMapped(image, from, to);
    }
  }

  lemma ExtentHashIs(image: seq<Segment>, e: DecodeExtent, hash: Blake3)
    requires AllBacked(image) && e.start < e.end && BackedRange(image, e.start, e.end)
    ensures Mapped(image, e.start, e.end) && ExtentHash(image, e, hash) == hash(FlatBytes(image, e.start, e.end))
  {
    BackedIsMapped(image, e.start, e.end);
  }

  /** One extent: its hash when it has bytes throughout. */
  method HashExtent(image: seq<Segment>, e: DecodeExtent, hash: Blake3) returns (r: Result<Digest, string>)
    requires ValidImage(image) && AllBacked(image) && e.start < e.end
    ensures r.Success? <==> BackedRange(image, e.start, e.end)
    ensures r.Success? ==> r.value == ExtentHash(image, e, hash)
  {
    hide ValidImage, AllBacked, BackedRange, Mapped, FlatBytes, Flat, ByteBackedAt;
    MeansBacked(image, e.start, e.end);
    var size := e.end - e.start;
    var backed := IsByteBacked(image, e.start, size);
    if backed.Failure? {
      return Failure(backed.error);
    }
    if !backed.value {
      return Failure("execution range crosses virtual zero-fill storage");
    }
    assert e.start + size == e.end;
    ExtentHashIs(image, e, hash);
    var plain: Hash := bytes => hash(bytes);
    var hashed := HashRange(image, e.start, size, plain);
    assert hashed.value == plain(FlatBytes(image, e.start, e.end));
    var digest: Digest := hashed.value;
    r := Success(digest);
  }

  /** The bytes an execution is charged for; refuses an empty or wrapping range. */
  method ChargedBytes(extents: seq<DecodeExtent>) returns (r: Result<nat, string>)
    ensures r.Success? <==> AllPositive(extents)
    ensures r.Success? ==> r.value == TotalLength(extents)
  {
    var total := 0;
    assert extents[..0] == [];
    for k := 0 to |extents|
      invariant AllPositive(extents[..k]) && total == TotalLength(extents[..k])
    {
      if extents[k].end <= extents[k].start {
        return Failure("execution range is empty or wraps");
      }
      assert extents[..k + 1][..k] == extents[..k];
      total := total + (extents[k].end - extents[k].start);
    }
    assert extents[..|extents|] == extents;
    r := Success(total);
  }

  method HashExtents(extents: seq<DecodeExtent>, expected: Option<seq<Digest>>, image: seq<Segment>, hash: Blake3)
    returns (r: Result<seq<AuthenticatedDecodeRange>, string>)
    requires ValidImage(image) && AllBacked(image) && WellFormedRequest(extents, expected)
    ensures r.Success? <==> AuthenticUpTo(image, extents, expected, hash, |extents|)
    ensures r.Success? ==> |r.value| == |extents| && Authenticates(image, extents, hash, r.value)
  {
    hide ExtentHash, BackedRange, ValidImage, AllBacked;
    var ranges := [];
    for k := 0 to |extents|
      invariant |ranges| == k
      invariant AuthenticUpTo(image, extents, expected, hash, k) && Authenticates(image, extents, hash, ranges)
    {
      var digest := HashExtent(image, extents[k], hash);
      if digest.Failure? {
        assert !Authentic(image, extents, expected, hash, k);
        return Failure(digest.error);
      }
      if expected.Some? && expected.value[k] != digest.value {
        assert !Authentic(image, extents, expected, hash, k);
        return Failure("execution range BLAKE3 does not match runtime bytes");
      }
      ranges := ranges + [AuthenticatedDecodeRange(extents[k].isa, extents[k].start, extents[k].end, digest.value)];
    }
    r := Success(ranges);
  }

  /**
   * Charges first, then hashes. A refused charge leaves the budget alone; once charged, a failed lookup
   * stays charged.
   */
  method AuthenticateExtents(entry: u32, extents: seq<DecodeExtent>, expected: Option<seq<Digest>>,
                             image: seq<Segment>, budget: ExecutionBudget, hash: Blake3)
    returns (r: Result<Identity, string>)
    requires ValidImage(image) && AllBacked(image) && budget.Valid()
    modifies budget
    ensures budget.Valid()
    ensures var charged := WellFormedRequest(extents, expected) && old(budget.Affordable(ChargeOf(extents)));
            && budget.granted == (if charged then old(budget.granted) + [ChargeOf(extents)] else old(budget.granted))
            && (r.Success? <==> charged && AuthenticUpTo(image, extents, expected, hash, |extents|))
    ensures r.Success? ==>
              && |r.value.decodeRanges| == |extents| && |extents| < LIMIT32 && AllPositive(extents)
              && r.value.entry == entry && Authenticates(image, extents, hash, r.value.decodeRanges)
              && r.value.executionBlake3 == hash(Frame(entry, r.value.decodeRanges))
  {
    hide Frame, Authentic, AuthenticUpTo, Authenticates, AllPositive, ValidImage, AllBacked, TotalLength;
    var total := ChargedBytes(extents);
    if total.Failure? {
      return Failure(total.error);
    }
    if expected.Some? && |expected.value| != |extents| {
      return Failure("execution range hash count mismatch");
    }
    var charged := budget.TryCharge(Charge(|extents|, total.value));
    if charged.Failure? {
      return Failure(charged.error);
    }
    var ranges := HashExtents(extents, expected, image, hash);
    if ranges.Failure? {
      return Failure(ranges.error);
    }
    var digest := ExecutionDigest(entry, ranges.value, hash);
    r := Success(Identity(entry, ranges.value, digest));
  }

  /**
   * Geometry first, then bytes: acceptable extents are charged as their canonical ranges, when the budget can afford
   * them, and pass exactly when those ranges have bytes throughout.
   */
  method ValidateExecution(entry: u32, extents: seq<DecodeExtent>, image: seq<Segment>, budget: ExecutionBudget,
                           hash: Blake3) returns (r: Result<Identity, string>)
    requires ValidImage(image) && AllBacked(image) && budget.Valid()
    modifies budget
    ensures budget.Valid()
    ensures Canonical(entry, extents).Success? <==> Acceptable(entry, extents)
    ensures !Acceptable(entry, extents) ==> r.Failure? && budget.granted == old(budget.granted)
    ensures Acceptable(entry, extents) ==>
              var ranges := Canonical(entry, extents).value;
              && WellFormedRequest(ranges, None)
              && var charged := old(budget.Affordable(ChargeOf(ranges)));
              && budget.granted == (if charged then old(budget.granted) + [ChargeOf(ranges)] else old(budget.granted))
              && (r.Success? <==> charged && AllBackedRanges(image, ranges))
    ensures r.Success? ==>
              var ranges := Canonical(entry, extents).value;
              && AllPositive(ranges) && |r.value.decodeRanges| == |ranges| < LIMIT32
              && r.value.entry == entry && Authenticates(image, ranges, hash, r.value.decodeRanges)
              && r.value.executionBlake3 == hash(Frame(entry, r.value.decodeRanges))
  {
    hide Canonical, Acceptable, Frame, Authenticates, AuthenticUpTo, ValidImage, AllBacked, IsCanonical, TotalLength,
      AllBackedRanges;
    AcceptedExactly(entry, extents);
    var canonical := CanonicalizeInstructionExtents(entry, extents);
    if canonical.Failure? {
      return Failure("execution extents are not canonical");
    }
    CanonicalInOrder(canonical.value);
    BackedIsAuthentic(image, canonical.value, hash);
    r := AuthenticateExtents(entry, canonical.value, None, image, budget, hash);
  }

  /** Every range has bytes throughout, and no virtual zeros. */
  ghost predicate AllBackedRanges(image: seq<Segment>, ranges: seq<DecodeExtent>)
    requires AllBacked(image)
  {
    forall k | 0 <= k < |ranges| :: BackedRange(image, ranges[k].start, ranges[k].end)
  }

  lemma BackedIsAuthentic(image: seq<Segment>, ranges: seq<DecodeExtent>, hash: Blake3)
    requires AllBacked(image) && AllPositive(ranges)
    ensures AuthenticUpTo(image, ranges, None, hash, |ranges|) <==> AllBackedRanges(image, ranges)
  {
    hide BackedRange;
    if AuthenticUpTo(image, ranges, None, hash, |ranges|) {
      forall k | 0 <= k < |ranges|
        ensures BackedRange(image, ranges[k].start, ranges[k].end)
      {
        assert Authentic(image, ranges, None, hash, k);
      }
    }
  }
}
