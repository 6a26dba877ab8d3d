/**
 * What the geometry of an execution says about instructions: an accepted extent is a row of whole instructions of one
 * set, each at an address where that set can have one.
 */
module InstructionExtents {
  import opened Words
  import opened Arm32
  import opened Sorting
  import opened ExecutionRanges
  import opened RangeErrors

  /** One instruction fills the extent: its address is aligned and its length possible. */
  predicate IsInstruction(e: DecodeExtent) {
    IsAligned(e.start, e.isa) && 0 < e.end - e.start < 256 && ValidLength(e.isa, e.end - e.start)
  }

  /** Instructions of one set that follow one another. */
  ghost predicate IsRow(parts: seq<DecodeExtent>) {
    && parts != []
    && (forall k | 0 <= k < |parts| :: IsInstruction(parts[k]) && parts[k].isa == parts[0].isa)
    && (forall k | 0 < k < |parts| :: parts[k].start == parts[k - 1].end)
  }

  /** The row fills the extent. */
  ghost predicate Fills(parts: seq<DecodeExtent>, e: DecodeExtent) {
    IsRow(parts) && parts[0].start == e.start && parts[0].isa == e.isa && parts[|parts| - 1].end == e.end
  }

  /** The extent is a row of whole instructions. */
  ghost predicate IsCode(e: DecodeExtent) {
    exists parts :: Fills(parts, e)
  }

  ghost predicate AllCode(xs: seq<DecodeExtent>) {
    forall k | 0 <= k < |xs| :: IsCode(xs[k])
  }

  // ---------------------------------------------------------------- rows and alignment

  function Unit(isa: Isa): nat {
    if isa.Arm? then 4 else 2
  }

  lemma OneMore(parts: seq<DecodeExtent>, e: DecodeExtent)
    requires IsRow(parts) && IsInstruction(e) && e.isa == parts[0].isa && e.start == parts[|parts| - 1].end
    ensures IsRow(parts + [e])
  {
    hide IsInstruction;
  }

  lemma UnitIsInstruction(start: u32, end: u32, isa: Isa)
    requires end == start + Unit(isa) && IsAligned(start, isa)
    ensures IsInstruction(DecodeExtent(start, end, isa))
  {
  }

  lemma StillAligned(e: DecodeExtent)
    requires AlignedExtent(e) && e.start < e.end
    ensures e.start + Unit(e.isa) <= e.end && IsAligned(e.end - Unit(e.isa), e.isa)
    ensures AlignedExtent(e.(end := e.end - Unit(e.isa)))
  {
    if e.isa.Arm? {
      MultipleSplits(e.start, e.end, 4);
    } else {
      MultipleSplits(e.start, e.end, 2);
    }
  }

  lemma MultipleSplits(start: nat, end: nat, unit: nat)
    requires (unit == 2 || unit == 4) && start < end && start % unit == 0 && (end - start) % unit == 0
    ensures end - start >= unit && (end - unit) % unit == 0 && (end - unit - start) % unit == 0
  {
    var a, b := start / unit, (end - start) / unit;
    if unit == 2 {
      assert start == 2 * a && end - start == 2 * b;
      assert end - 2 == 2 * (a + b - 1) && end - 2 - start == 2 * (b - 1);
    } else {
      assert start == 4 * a && end - start == 4 * b;
      assert end - 4 == 4 * (a + b - 1) && end - 4 - start == 4 * (b - 1);
    }
  }

  lemma {:induction false} AlignedFills(e: DecodeExtent) returns (parts: seq<DecodeExtent>)
    requires AlignedExtent(e) && e.start < e.end
    ensures Fills(parts, e)
    decreases e.end - e.start
  {
    StillAligned(e);
    var at: u32 := e.end - Unit(e.isa);
    var last := DecodeExtent(at, e.end, e.isa);
    UnitIsInstruction(at, e.end, e.isa);
    hide AlignedExtent, IsInstruction, Unit;
    if at == e.start {
      parts := [last];
    } else {
      var rest := AlignedFills(e.(end := at));
      OneMore(rest, last);
      parts := rest + [last];
    }
  }

  lemma InstructionAligned(e: DecodeExtent)
    requires IsInstruction(e)
    ensures AlignedExtent(e) && e.start < e.end
  {
  }

  lemma {:induction false} RowAligned(parts: seq<DecodeExtent>)
    requires IsRow(parts)
    ensures parts[0].start < parts[|parts| - 1].end
    ensures AlignedExtent(DecodeExtent(parts[0].start, parts[|parts| - 1].end, parts[0].isa))
    decreases |parts|
  {
    var n := |parts| - 1;
    InstructionAligned(parts[n]);
    if n > 0 {
      RowAligned(parts[..n]);
      hide AlignedExtent, IsInstruction;
      AlignedJoin(DecodeExtent(parts[0].start, parts[n - 1].end, parts[0].isa), parts[n]);
    }
  }

  /** Positive and aligned says that the extent is a row of whole instructions. */
  lemma CodeExactly(e: DecodeExtent)
    ensures IsCode(e) <==> AlignedExtent(e) && e.start < e.end
  {
    hide AlignedExtent, IsInstruction;
    if AlignedExtent(e) && e.start < e.end {
      var parts := AlignedFills(e);
    }
    if parts: seq<DecodeExtent> :| Fills(parts, e) {
      RowAligned(parts);
      assert e == DecodeExtent(parts[0].start, parts[|parts| - 1].end, parts[0].isa);
    }
  }

  /** An extent without any address is aligned exactly where an instruction could stand. */
  lemma EmptyExactly(e: DecodeExtent)
    ensures e.end <= e.start ==> (AlignedExtent(e) <==> e.start == e.end && IsAligned(e.start, e.isa))
  {
  }

  // ---------------------------------------------------------------- the theorems

  /** One instruction is a row of its own, and no fault is found with it. */
  lemma InstructionAccepted(e: DecodeExtent)
    requires IsInstruction(e)
    ensures IsCode(e) && ElementErrors(e) == []
  {
    assert Fills([e], e);
    InstructionAligned(e);
  }

  /** An empty extent at an address where an instruction could stand. */
  predicate IsPlace(e: DecodeExtent) {
    e.start == e.end && IsAligned(e.start, e.isa)
  }

  /** Misalignment is reported exactly for an extent that is neither a row of instructions nor a place for one. */
  lemma MisalignedExactly(entry: u32, extents: seq<DecodeExtent>, e: DecodeRangeError)
    requires e.kind.MisalignedInstruction?
    ensures e in AllErrors(entry, extents) <==>
              exists k :: 0 <= k < |extents| && Names(e, extents[k]) && !IsCode(extents[k]) && !IsPlace(extents[k])
  {
    FaultsReported(entry, extents, e);
    hide AllErrors, AlignedExtent, IsCode, IsAligned;
    forall k | 0 <= k < |extents|
      ensures AlignedExtent(extents[k]) <==> IsCode(extents[k]) || IsPlace(extents[k])
    {
      CodeExactly(extents[k]);
      EmptyExactly(extents[k]);
    }
  }

  /** Whatever is not a row of instructions is reported. */
  lemma NotCodeReported(entry: u32, extents: seq<DecodeExtent>, k: nat)
    requires k < |extents| && !IsCode(extents[k])
    ensures exists e ::
              && e in AllErrors(entry, extents) && Names(e, extents[k])
              && (e.kind.MisalignedInstruction? || e.kind.InvalidInstructionLength?)
    ensures Canonical(entry, extents).Failure?
  {
    var x := extents[k];
    CodeExactly(x);
    var misaligned := DecodeRangeError(MisalignedInstruction, x.start, Some(x.end));
    var empty := DecodeRangeError(InvalidInstructionLength, x.start, Some(x.end));
    FaultsReported(entry, extents, misaligned);
    FaultsReported(entry, extents, empty);
    hide AllErrors, AlignedExtent, IsCode;
    if x.end <= x.start {
      assert Names(empty, x);
    } else {
      assert Names(misaligned, x);
    }
  }

  /** Accepted are exactly rows of instructions that share no address and begin an instruction set at the entry. */
  lemma AcceptedAsCode(entry: u32, extents: seq<DecodeExtent>)
    ensures Canonical(entry, extents).Success? <==>
            && extents != [] && AllCode(extents) && Pairwise(ExtentsApart, extents)
            && exists isa :: Decodes(extents, entry, isa) && !Decodes(extents, entry - 1, isa)
  {
    AcceptedExactly(entry, extents);
    hide Canonical, AlignedExtent, IsCode, Pairwise, Decodes;
    forall k | 0 <= k < |extents|
      ensures IsCode(extents[k]) <==> AlignedExtent(extents[k]) && extents[k].start < extents[k].end
    {
      CodeExactly(extents[k]);
    }
  }

  /** Every accepted range is a row of instructions again. */
  lemma RangesAreCode(entry: u32, extents: seq<DecodeExtent>)
    requires Canonical(entry, extents).Success?
    ensures AllCode(Canonical(entry, extents).value)
  {
    CanonicalFixed(entry, extents);
    hide Canonical;
    AcceptedAsCode(entry, Canonical(entry, extents).value);
  }

  /** Extents that are apart share no address, and the other way round. */
  lemma ApartExactly(x: DecodeExtent, y: DecodeExtent)
    requires x.start < x.end && y.start < y.end
    ensures ExtentsApart(x, y) <==> forall a: int :: !(InExtent(x, a) && InExtent(y, a))
  {
    if !ExtentsApart(x, y) {
      var a := if x.start < y.start then y.start else x.start;
      assert InExtent(x, a) && InExtent(y, a);
    }
  }

  // ---------------------------------------------------------------- the order of the errors

  function KindName(kind: ErrorKind): string {
    match kind
    case DuplicateExtent => "duplicate_extent"
    case EmptyProjection => "empty_projection"
    case EntryNotRangeStart => "entry_not_range_start"
    case InvalidInstructionLength => "invalid_instruction_length"
    case MisalignedInstruction => "misaligned_instruction"
    case MissingInstructionAtEntry => "missing_instruction_at_entry"
    case OverlappingExtent => "overlapping_extent"
  }

  predicate NameBefore(s: string, t: string) {
    exists k :: 0 <= k < |s| && k < |t| && s[..k] == t[..k] && s[k] < t[k]
  }

  lemma FirstDiffer(s: string, t: string, k: nat)
    requires k < |s| && k < |t| && s[..k] == t[..k] && s[k] < t[k]
    ensures NameBefore(s, t)
  {
  }

  /** At one address, errors come in the order of the names of their kinds, and none before the end is given. */
  lemma ErrorsByName(a: DecodeRangeError, b: DecodeRangeError)
    requires a.address < b.address || (a.address == b.address && KindRank(a.kind) < KindRank(b.kind))
             || (a.address == b.address && a.kind == b.kind && EndRank(a.end) < EndRank(b.end))
    ensures ErrorBefore(a, b) && !ErrorBefore(b, a)
    ensures a.address == b.address && a.kind != b.kind ==> NameBefore(KindName(a.kind), KindName(b.kind))
    ensures a.address == b.address && a.kind == b.kind && b.end.Some? ==> a.end.None? || a.end.value < b.end.value
    ensures a.address == b.address && a.kind == b.kind ==> b.end.Some?
  {
    if a.address == b.address && a.kind != b.kind {
      KindsByName(a.kind, b.kind);
    }
  }

  lemma KindsByName(a: ErrorKind, b: ErrorKind)
    requires KindRank(a) < KindRank(b)
    ensures NameBefore(KindName(a), KindName(b))
  {
    var k := if a.EmptyProjection? && b.EntryNotRangeStart? then 1
             else if a.MisalignedInstruction? && b.MissingInstructionAtEntry? then 3
             else 0;
    FirstDiffer(KindName(a), KindName(b), k);
  }

  predicate InExtent(x: DecodeExtent, a: int) {
    x.start <= a < x.end
  }
}
