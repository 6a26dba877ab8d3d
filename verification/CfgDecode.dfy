/**
 * The bounded decode walk. It ends; when it succeeds it has kept exactly the instructions reached from
 * the entry, with disjoint extents, every edge accounted for, and no limit exceeded.
 */
module CfgDecode {
  import opened Words
  import opened ControlGraph
  import opened Arm32
  import opened RuntimeImage
  import opened RuntimeQueries
  import opened CfgWalk
  import opened CfgWalkSteps
  import opened QueueOrder

  /** Each attempted address was attempted once. */
  ghost predicate IsHistory(history: seq<u32>, attempted: set<u32>) {
    && (forall pc :: pc in history <==> pc in attempted)
    && |history| == |attempted|
  }

  function Last(s: set<u32>): (r: Option<u32>)
    ensures r.None? <==> s == {}
    ensures r.Some? ==> r.value in s && forall a | a in s :: a <= r.value
  {
    var q := Ascending(s);
    EndsBound(q);
    if q == [] then None else Some(q[|q| - 1])
  }

  function First(s: set<u32>): (r: Option<u32>)
    ensures r.None? <==> s == {}
    ensures r.Some? ==> r.value in s && forall a | a in s :: r.value <= a
  {
    var q := Ascending(s);
    EndsBound(q);
    if q == [] then None else Some(q[0])
  }

  /** `range(..=pc).next_back()` on an ordered map's keys. */
  function LastAtOrBelow(keys: set<u32>, pc: u32): (r: Option<u32>)
    ensures r.None? ==> forall a | a in keys :: a > pc
    ensures r.Some? ==> r.value in keys && r.value <= pc && forall a | a in keys && a <= pc :: a <= r.value
  {
    var below := set a | a in keys && a <= pc;
    assert forall a | a in keys && a <= pc :: a in below;
    Last(below)
  }

  /** `range(pc..).next()` on an ordered map's keys. */
  function FirstAtOrAbove(keys: set<u32>, pc: u32): (r: Option<u32>)
    ensures r.None? ==> forall a | a in keys :: a < pc
    ensures r.Some? ==> r.value in keys && pc <= r.value && forall a | a in keys && pc <= a :: r.value <= a
  {
    var above := set a | a in keys && pc <= a;
    assert forall a | a in keys && pc <= a :: a in above;
    First(above)
  }

  lemma EndsBound(q: seq<u32>)
    requires StrictlyAscending(q)
    ensures forall x | x in q :: q[0] <= x <= q[|q| - 1]
  {
    forall x | x in q
      ensures q[0] <= x <= q[|q| - 1]
    {
      var i :| 0 <= i < |q| && q[i] == x;
      assert q[0] <= q[i] && q[i] <= q[|q| - 1];
    }
  }

  ghost predicate Covers(extents: map<u32, u32>, a: u32, pc: u32) {
    a in extents && a < pc < extents[a]
  }

  ghost predicate InsideExtent(extents: map<u32, u32>, pc: u32) {
    exists a :: Covers(extents, a, pc)
  }

  lemma NotInside(extents: map<u32, u32>, pc: u32, prior: Option<u32>)
    requires ExtentsDisjoint(extents) && prior == LastAtOrBelow(extents.Keys, pc)
    requires prior.Some? && prior.value != pc ==> extents[prior.value] <= pc
    ensures !InsideExtent(extents, pc)
  {
    forall a: u32
      ensures !Covers(extents, a, pc)
    {
      if a in extents && a < pc {
        assert prior.Some? && a <= prior.value;
        assert a == prior.value || extents[a] <= prior.value;
      }
    }
  }

  lemma PriorOverlaps(extents: map<u32, u32>, pc: u32, end: u32, a: u32)
    requires a in extents && a < pc && pc !in extents && pc < extents[a]
    ensures InsideExtent(extents, pc) && !ExtentsDisjoint(extents[pc := end])
  {
    assert Covers(extents, a, pc);
    var grown := extents[pc := end];
    assert a in grown && pc in grown && grown[a] == extents[a];
  }

  lemma NextOverlaps(extents: map<u32, u32>, pc: u32, end: u32, b: u32)
    requires b in extents && pc < b < end && pc !in extents
    ensures !ExtentsDisjoint(extents[pc := end])
  {
    var grown := extents[pc := end];
    assert b in grown && pc in grown && grown[pc] == end;
  }

  lemma NeighboursClear(extents: map<u32, u32>, pc: u32, end: u32, prior: Option<u32>, next: Option<u32>)
    requires pc !in extents && pc < end
    requires prior == LastAtOrBelow(extents.Keys, pc) && next == FirstAtOrAbove(extents.Keys, pc)
    requires prior.Some? && prior.value != pc ==> extents[prior.value] <= pc
    requires next.Some? && next.value != pc ==> end <= next.value
    ensures NoNeighbourOverlap(extents, pc, end)
  {
    forall a | a in extents && IsPrior(extents.Keys, pc, a)
      ensures extents[a] <= pc
    {
      assert a == prior.value;
    }
    forall a | a in extents && IsNext(extents.Keys, pc, a)
      ensures end <= a
    {
      assert a == next.value;
    }
  }

  /** One more block start than the limit allows. */
  ghost predicate TooManyBlocks(c: Config, starts: set<u32>, target: u32, e: SemanticCfgError) {
    && target !in starts && |starts| + 1 > c.limits.maxBlocks
    && e == ResourceLimit("blocks", |starts| + 1, c.limits.maxBlocks)
  }

  lemma {:induction false} NoRepeat(history: seq<u32>, all: set<u32>)
    requires IsHistory(history, all)
    ensures forall i, j | 0 <= i < j < |history| :: history[i] != history[j]
    decreases |history|
  {
    if history != [] {
      var last, rest := history[|history| - 1], history[..|history| - 1];
      ghost var members := set pc | pc in rest;
      assert history == rest + [last];
      assert all == members + {last};
      MembersBound(rest, members);
      assert |members| < |all| && members + {last} == all;
      NoRepeat(rest, members);
    }
  }

  lemma {:induction false} MembersBound(list: seq<u32>, members: set<u32>)
    requires forall pc :: pc in list <==> pc in members
    ensures |members| <= |list|
    decreases |list|
  {
    if list != [] {
      var rest := list[1..];
      var fewer := set pc | pc in rest;
      assert list == [list[0]] + rest;
      assert members == fewer + {list[0]};
      MembersBound(rest, fewer);
    } else {
      assert members == {};
    }
  }

  class CfgBuilder {
    const c: Config
    var chargedBytes: u64
    var instructionsAttempted: nat
    var instructions: map<u32, Instruction>
    var extents: map<u32, u32>
    var successors: Adjacency
    var incoming: Adjacency
    var failedTargets: map<u32, BoundaryKind>
    var handoffs: set<Handoff>
    var blockStarts: set<u32>
    var pending: seq<u32>
    var queued: set<u32>
    var attempted: set<u32>

    ghost function Now(): Walk
      reads this
    {
      Walk(instructions, extents, successors, incoming, failedTargets, handoffs, blockStarts, pending, queued,
           attempted)
    }

    lemma NowIs()
      ensures Now() == Walk(instructions, extents, successors, incoming, failedTargets, handoffs, blockStarts, pending,
                            queued, attempted)
    {
    }

    ghost predicate WithinLimits()
      reads this`chargedBytes, this`instructionsAttempted, this`blockStarts
    {
      && chargedBytes <= c.limits.maxChargedBytes
      && instructionsAttempted <= c.limits.maxInstructions
      && |blockStarts| <= c.limits.maxBlocks
    }

    /** The counters say what has been attempted and what it cost. */
    ghost predicate Counted(history: seq<u32>)
      requires AllBacked(c.image)
      reads this`attempted, this`chargedBytes, this`instructionsAttempted
    {
      && IsHistory(history, attempted)
      && instructionsAttempted == |history|
      && chargedBytes == Saturated(TotalCost(c, history))
    }

    constructor (config: Config)
      requires ValidImage(config.image) && IsAligned(config.entry, config.isa) && config.limits.maxBlocks >= 1
      ensures c == config && Now() == Opening(config.entry)
      ensures WithinLimits() && Counted([])
    {
      c := config;
      chargedBytes := 0;
      instructionsAttempted := 0;
      instructions := map[];
      extents := map[];
      successors := map[];
      incoming := map[];
      failedTargets := map[];
      handoffs := {};
      blockStarts := {config.entry};
      pending := [config.entry];
      queued := {config.entry};
      attempted := {};
    }

    /** A saturating charge; a refused one changes nothing. */
    method ChargeBytes(bytes: nat) returns (error: Option<SemanticCfgError>)
      requires WithinLimits()
      modifies this`chargedBytes
      ensures WithinLimits()
      ensures chargedBytes == if error.None? then Saturated(old(chargedBytes) + bytes) else old(chargedBytes)
      ensures error.Some? <==> Saturated(old(chargedBytes) + bytes) > c.limits.maxChargedBytes
      ensures error.Some? ==>
                error.value
                == ResourceLimit("charged bytes", Saturated(old(chargedBytes) + bytes), c.limits.maxChargedBytes)
    {
      var actual := Saturated(chargedBytes + bytes);
      if actual > c.limits.maxChargedBytes {
        return Some(ResourceLimit("charged bytes", actual, c.limits.maxChargedBytes));
      }
      chargedBytes := actual;
      error := None;
    }

    /** Counts an attempt; a refused one changes nothing. */
    method ChargeInstruction() returns (error: Option<SemanticCfgError>)
      requires WithinLimits()
      modifies this`instructionsAttempted
      ensures WithinLimits()
      ensures instructionsAttempted == old(instructionsAttempted) + if error.None? then 1 else 0
      ensures error.Some? <==> old(instructionsAttempted) + 1 > c.limits.maxInstructions
      ensures error.Some? ==>
                error.value == ResourceLimit("instructions", old(instructionsAttempted) + 1, c.limits.maxInstructions)
    {
      var actual := instructionsAttempted + 1;
      if actual > c.limits.maxInstructions {
        return Some(ResourceLimit("instructions", actual, c.limits.maxInstructions));
      }
      instructionsAttempted := actual;
      error := None;
    }

    /** Adds a block start once, within the limit. */
    method AddBlock(pc: u32) returns (error: Option<SemanticCfgError>)
      requires WithinLimits()
      modifies this`blockStarts
      ensures WithinLimits()
      ensures blockStarts == old(blockStarts) + if error.None? then {pc} else {}
      ensures error.Some? <==> pc !in old(blockStarts) && |old(blockStarts)| + 1 > c.limits.maxBlocks
      ensures error.Some? ==> TooManyBlocks(c, old(blockStarts), pc, error.value)
    {
      if pc in blockStarts {
        return None;
      }
      var actual := |blockStarts| + 1;
      if actual > c.limits.maxBlocks {
        return Some(ResourceLimit("blocks", actual, c.limits.maxBlocks));
      }
      blockStarts := blockStarts + {pc};
      error := None;
    }

    /** Bytes the walk may decode: byte-backed throughout, never virtual zero-fill. */
    method ExecutableBytes(pc: u32, size: nat) returns (bytes: Option<seq<byte>>)
      requires ValidImage(c.image) && 0 < size <= 4
      ensures bytes == Fetch(c.image, pc, size)
      ensures bytes.Some? ==> |bytes.value| == size
    {
      hide *;
      ValidIsBacked(c.image);
      var backed := IsByteBacked(c.image, pc, size);
      FetchMeans(c.image, pc, size);
      if backed.Success? && backed.value {
        var read := ReadExactSmall(c.image, pc, size);
        return read;
      }
      bytes := None;
    }

    /** Charges, fetches and decodes; the charge comes first and is never given back. */
    method DecodeOne(pc: u32) returns (r: Result<DecodedAt, SemanticCfgError>)
      requires ValidImage(c.image) && WithinLimits()
      modifies this`chargedBytes
      ensures WithinLimits()
      ensures r.Success? ==> r.value == DecodeAt(c, pc)
      ensures r.Success? ==> chargedBytes == Saturated(old(chargedBytes) + Cost(c, pc))
      ensures r.Failure? ==>
                && r.error.ResourceLimit? && r.error.what == "charged bytes"
                && r.error.limit == c.limits.maxChargedBytes
                && r.error.limit < r.error.actual <= Saturated(old(chargedBytes) + Cost(c, pc))
    {
      hide Fetch, IsWide, ValidImage, AllBacked;
      ValidIsBacked(c.image);
      var bytes: Option<seq<byte>>;
      match c.isa {
      case Arm =>
        var error := ChargeBytes(4);
        if error.Some? {
          return Failure(error.value);
        }
        bytes := ExecutableBytes(pc, 4);
      case Thumb =>
        var error := ChargeBytes(2);
        if error.Some? {
          return Failure(error.value);
        }
        var first := ExecutableBytes(pc, 2);
        bytes := first;
        if first.Some? && IsWide(first.value) {
          error := ChargeBytes(2);
          if error.Some? {
            return Failure(error.value);
          }
          bytes := ExecutableBytes(pc, 4);
        }
      }
      r := Success(Decode(c, pc, bytes));
    }

    /** Hands the failure off at every edge that leads there, or at the address itself. */
    method RecordFailedTarget(target: u32, kind: BoundaryKind)
      modifies this`failedTargets, this`handoffs
      ensures failedTargets == old(failedTargets)[target := kind]
      ensures handoffs == old(handoffs) + FailureHandoffs(old(Now()), target, kind)
    {
      hide *;
      NowIs();
      ghost var start := Now();
      failedTargets := failedTargets[target := kind];
      var recorded := false;
      var sources := Ascending(Targets(incoming, target));
      ghost var before := handoffs;
      MarkedNone(kind);
      assert sources[..0] == [];
      for k := 0 to |sources|
        invariant handoffs == before + MarkedBy(sources[..k], kind)
        invariant recorded <==> k > 0
        invariant failedTargets == old(failedTargets)[target := kind]
      {
        MarkedOne(sources, k, kind);
        handoffs := handoffs + {Handoff(sources[k], kind)};
        recorded := true;
      }
      MarkedAll(start, target, sources, kind);
      if !recorded {
        handoffs := handoffs + {Handoff(target, kind)};
      }
    }

    /** The tail of `Schedule`: the target may start a block, and is queued unless it was seen. */
    method Admit(target: u32, startsBlock: bool) returns (error: Option<SemanticCfgError>)
      requires WithinLimits()
      modifies this`blockStarts, this`pending, this`queued
      ensures WithinLimits()
      ensures error.None? ==>
                blockStarts == if startsBlock then old(blockStarts) + {target} else old(blockStarts)
      ensures error.None? ==>
                pending == if target !in attempted && target !in old(queued) then old(pending) + [target]
                           else old(pending)
      ensures error.None? ==>
                queued == if target !in attempted && target !in old(queued) then old(queued) + {target} else old(queued)
      ensures error.Some? ==> startsBlock && TooManyBlocks(c, old(blockStarts), target, error.value)
    {
      hide *;
      if startsBlock {
        error := AddBlock(target);
        if error.Some? {
          return;
        }
      }
      if target !in attempted && target !in queued {
        queued := queued + {target};
        pending := pending + [target];
      }
      error := None;
    }

    /** The edge has been recorded; its target is away, and the source hands it off. */
    method HandOver(source: u32, target: u32, startsBlock: bool, kind: BoundaryKind, ghost before: Walk)
      requires EdgeAdded(before, Now(), source, target) && QueuesSame(before, Now()) && handoffs == before.handoffs
      requires if PcInWindow(c, target) then target in failedTargets && kind == failedTargets[target]
               else kind == Unmapped
      modifies this`handoffs
      ensures Now() == Scheduled(c, before, source, target, startsBlock)
    {
      handoffs := handoffs + {Handoff(source, kind)};
      ScheduledAway(c, before, Now(), source, target, startsBlock, kind);
      hide *;
    }

    /** Records an edge both ways and hands it off, or admits its target. */
    method Schedule(source: u32, target: u32, startsBlock: bool) returns (error: Option<SemanticCfgError>)
      requires WithinLimits()
      modifies this`successors, this`incoming, this`handoffs, this`blockStarts, this`pending, this`queued
      ensures WithinLimits()
      ensures error.None? ==> IsAligned(target, c.isa)
      ensures error.None? ==> Now() == Scheduled(c, old(Now()), source, target, startsBlock)
      ensures error.Some? ==>
                if IsAligned(target, c.isa) then
                  && startsBlock && PcInWindow(c, target) && target !in failedTargets
                  && TooManyBlocks(c, old(blockStarts), target, error.value)
                else error.value == InvalidFlow(target)
    {
      hide *;
      if !IsAligned(target, c.isa) {
        return Some(InvalidFlow(target));
      }
      NowIs();
      ghost var before := Now();
      successors := AddEdge(successors, source, target);
      incoming := AddEdge(incoming, target, source);
      NowIs();
      EdgeNoted(before, Now(), source, target);
      NoQueueing(before, Now());
      if !PcInWindow(c, target) {
        HandOver(source, target, startsBlock, Unmapped, before);
        return None;
      }
      if target in failedTargets {
        HandOver(source, target, startsBlock, failedTargets[target], before);
        return None;
      }
      error := Admit(target, startsBlock);
      if error.None? {
        NowIs();
        EdgeNoted(before, Now(), source, target);
        ScheduledInside(c, before, Now(), source, target, startsBlock);
      }
    }

    /** Notes the handoff an instruction is by itself. */
    method Note(pc: u32, kind: BoundaryKind)
      requires Walking(c, Now(), Some(pc)) && pc in instructions && FlowHandoff(c.calls, instructions[pc]) == Some(kind)
      modifies this`handoffs
      ensures Walking(c, Now(), Some(pc)) && handoffs == old(handoffs) + {Handoff(pc, kind)}
      ensures Now() == Noted(c, old(Now()), pc, instructions[pc])
    {
      hide *;
      NowIs();
      ghost var before := Now();
      handoffs := handoffs + {Handoff(pc, kind)};
      NowIs();
      HandoffNoted(before, Now(), Handoff(pc, kind));
      NotedIs(c, before, pc, instructions[pc], kind);
      HandoffKeeps(c, before, pc, kind);
    }

    /** Schedules one of the edges of the instruction being followed. */
    method FollowEdge(pc: u32, target: u32, startsBlock: bool, ghost history: seq<u32>)
      returns (error: Option<SemanticCfgError>)
      requires WithinLimits() && AllBacked(c.image) && Walking(c, Now(), Some(pc)) && Counting(c, Now(), pc, history)
      requires pc in instructions && target in StaticTargets(c, pc) && startsBlock == StartsBlocks(instructions[pc])
      modifies this`successors, this`incoming, this`handoffs, this`blockStarts, this`pending, this`queued
      ensures WithinLimits()
      ensures error.None? ==> Walking(c, Now(), Some(pc)) && old(handoffs) <= handoffs && IsAligned(target, c.isa)
      ensures error.None? ==> Targets(successors, pc) == old(Targets(successors, pc)) + {target}
      ensures error.None? ==> Now() == Scheduled(c, old(Now()), pc, target, startsBlock)
      ensures error.None? ==> Counting(c, Now(), pc, history)
      ensures error.Some? ==> Refuses(c, error.value)
    {
      hide *;
      NowIs();
      ghost var before := Now();
      error := Schedule(pc, target, startsBlock);
      if error.None? {
        NowIs();
        ScheduledFields(c, before, pc, target, startsBlock);
        SchedulesThis(c, before, pc, target, startsBlock);
        ScheduleKeeps(c, before, pc, target, startsBlock);
        WalkingFacts(c, before, Some(pc));
        ScheduleCounts(c, before, pc, target, startsBlock, history);
      } else {
        RefusedTarget(c, before, pc, target, startsBlock, error.value, history);
      }
    }

    /** Schedules the edges the flow and the call policy give, and notes the handoff of the instruction. */
    method FollowInstruction(pc: u32, next: u32, instruction: Instruction, ghost history: seq<u32>)
      returns (error: Option<SemanticCfgError>)
      requires WithinLimits() && AllBacked(c.image) && Walking(c, Now(), Some(pc)) && Counting(c, Now(), pc, history)
      requires pc in instructions && instructions[pc] == instruction && next == pc + instruction.length
      requires Targets(successors, pc) == {}
      modifies this`successors, this`incoming, this`handoffs, this`blockStarts, this`pending, this`queued
      ensures WithinLimits()
      ensures error.None? ==> Walking(c, Now(), None)
      ensures error.None? ==> Now() == FollowedWhole(c, old(Now()), pc, instruction, next)
      ensures error.Some? ==> Refuses(c, error.value)
    {
      hide Walking, StaticTargets, Targets, IsAligned, Refuses, WithinLimits, AllBacked, Now, Scheduled, Counting,
        Noted, FollowedEdges;
      NowIs();
      ghost var before := Now();
      CountingNoted(c, before, pc, instruction, history);
      NothingNoted(c, before, pc, instruction);
      KeptTargets(c, Now(), pc, next);
      match instruction.flow {
      case Linear =>
        error := FollowEdge(pc, next, false, history);
      case DirectBranch(target, fallthrough) =>
        error := FollowEdge(pc, target, true, history);
        if error.Some? {
          return;
        }
        if fallthrough.Some? {
          if fallthrough.value != next {
            NowIs();
            WrongFlow(c, Now(), pc, InvalidFlow(pc));
            return Some(InvalidFlow(pc));
          }
          error := FollowEdge(pc, fallthrough.value, true, history);
        }
      case DirectCall(target) =>
        if !IsAligned(target, c.isa) {
          WrongFlow(c, Now(), pc, InvalidFlow(target));
          return Some(InvalidFlow(target));
        }
        if c.calls.FallthroughAndHandoff? {
          Note(pc, CallBoundary);
        }
        error := FollowEdge(pc, next, true, history);
      case ExceptionCall =>
        Note(pc, ExceptionCallBoundary);
        if instruction.conditional || c.calls.Fallthrough? {
          error := FollowEdge(pc, next, true, history);
        } else {
          error := None;
        }
      case Return =>
        Note(pc, ReturnBoundary);
        if instruction.conditional {
          error := FollowEdge(pc, next, true, history);
        } else {
          error := None;
        }
      case Barrier =>
        Note(pc, Indirect);
        if instruction.conditional || (instruction.linksLr && c.calls.Fallthrough?) {
          error := FollowEdge(pc, next, true, history);
        } else {
          error := None;
        }
      }
      if error.None? {
        NowIs();
        Followed(c, Now(), pc, next);
        FollowedCases(c, before, pc, instruction, next);
      }
    }

    /** The pc must not fall strictly inside an instruction already kept. */
    method RejectPcInsideExtent(pc: u32) returns (error: Option<SemanticCfgError>)
      requires ExtentsDisjoint(extents)
      ensures error.Some? <==> InsideExtent(extents, pc)
      ensures error.Some? ==> error.value == InvalidFlow(pc)
    {
      var prior := LastAtOrBelow(extents.Keys, pc);
      if prior.Some? && prior.value != pc && extents[prior.value] > pc {
        assert Covers(extents, prior.value, pc);
        return Some(InvalidFlow(pc));
      }
      NotInside(extents, pc, prior);
      error := None;
    }

    /** The new extent must clear its neighbours, and so clears every kept extent. */
    method RejectExtentOverlap(pc: u32, end: u32) returns (error: Option<SemanticCfgError>)
      requires ExtentsDisjoint(extents) && pc !in extents && pc < end
      ensures error.None? <==> ExtentsDisjoint(extents[pc := end])
      ensures error.None? ==> NoNeighbourOverlap(extents, pc, end)
      ensures error.Some? ==> error.value == InvalidFlow(pc)
      ensures error.Some? ==> InsideExtent(extents, pc) || exists b :: b in extents && pc < b < end
    {
      hide ExtentsDisjoint, NoNeighbourOverlap;
      var prior := LastAtOrBelow(extents.Keys, pc);
      if prior.Some? && prior.value != pc && extents[prior.value] > pc {
        PriorOverlaps(extents, pc, end, prior.value);
        return Some(InvalidFlow(pc));
      }
      var next := FirstAtOrAbove(extents.Keys, pc);
      if next.Some? && next.value != pc && next.value < end {
        NextOverlaps(extents, pc, end, next.value);
        return Some(InvalidFlow(pc));
      }
      NeighboursClear(extents, pc, end, prior, next);
      NeighboursSuffice(extents, pc, end);
      error := None;
    }

    /** The decoder must agree about the address, the instruction set and the length. */
    method ValidateInstruction(pc: u32, instruction: Instruction) returns (error: Option<SemanticCfgError>)
      ensures error.None? <==>
              instruction.pc == pc && instruction.isa == c.isa && ValidLength(c.isa, instruction.length)
      ensures error.Some? ==> error.value == DecodeError(pc)
    {
      if instruction.pc != pc {
        return Some(DecodeError(pc));
      }
      if instruction.isa != c.isa {
        return Some(DecodeError(pc));
      }
      if !ValidLength(c.isa, instruction.length) {
        return Some(DecodeError(pc));
      }
      error := None;
    }

    /** One attempt at an address taken off the queue: the walk was `before`, and has popped its head. */
    method Attempt(pc: u32, ghost before: Walk, ghost history: seq<u32>) returns (error: Option<SemanticCfgError>)
      requires IsHistory(history, before.attempted) && instructionsAttempted == |history|
      requires AllBacked(c.image) && chargedBytes == Saturated(TotalCost(c, history))
      requires WithinLimits() && AllBacked(c.image) && Walking(c, before, None) && Ordered(c, before, history)
      requires before.pending != [] && pc == before.pending[0] && pc !in before.attempted && Now() == Popped(before)
      modifies this
      ensures WithinLimits()
      ensures error.None? ==> Walking(c, Now(), None)
      ensures error.None? ==> !InsideExtent(before.extents, pc) && Ordered(c, Now(), history + [pc])
      ensures error.None? ==>
                && attempted == old(attempted) + {pc} && instructionsAttempted == old(instructionsAttempted) + 1
                && chargedBytes == Saturated(old(chargedBytes) + Cost(c, pc))
      ensures error.Some? ==> Refuses(c, error.value)
    {
      hide *;
      NowIs();
      PoppedFields(before);
      WalkingFacts(c, before, None);
      AllSoughtMore(c, before, history);
      HeadInTurn(c, before, history);
      error := RejectPcInsideExtent(pc);
      if error.Some? {
        InsideIsRefused(c, before, error.value, history);
        return;
      }
      error := ChargeInstruction();
      if error.Some? {
        TooManyInstructions(c, history, pc, error.value);
        return;
      }
      attempted := attempted + {pc};
      var decoded := DecodeOne(pc);
      if decoded.Failure? {
        TooManyBytes(c, history, pc, decoded.error);
        return Some(decoded.error);
      }
      NowIs();
      TriedIs(before, Now());
      error := Settle(pc, decoded.value, before, history);
    }

    /** What was found at the address is kept and followed, recorded as a failure, or refused. */
    method Settle(pc: u32, decoded: DecodedAt, ghost before: Walk, ghost history: seq<u32>)
      returns (error: Option<SemanticCfgError>)
      requires WithinLimits() && AllBacked(c.image) && Walking(c, before, None)
      requires Ordered(c, before, history) && IsHistory(history, before.attempted)
      requires before.pending != [] && pc == before.pending[0] && pc !in before.attempted && Now() == Tried(before)
      requires decoded == DecodeAt(c, pc)
      modifies this`instructions, this`extents, this`failedTargets,
               this`successors, this`incoming, this`handoffs, this`blockStarts, this`pending, this`queued
      ensures WithinLimits()
      ensures error.None? ==> Walking(c, Now(), None) && Ordered(c, Now(), history + [pc])
      ensures error.Some? ==> Refuses(c, error.value)
    {
      hide *;
      WalkingFacts(c, before, None);
      match decoded {
      case AtBoundary(kind) =>
        BoundaryFails(c, pc);
        GiveUp(pc, kind, before, history);
        error := None;
      case AtInstruction(instruction, itOpen) =>
        if itOpen {
          RefusedInstruction(c, before, InvalidFlow(pc));
          return Some(InvalidFlow(pc));
        }
        error := ValidateInstruction(pc, instruction);
        if error.Some? {
          RefusedInstruction(c, before, error.value);
          return;
        }
        if instruction.pc + instruction.length >= 0x1_0000_0000 {
          RefusedInstruction(c, before, InvalidFlow(pc));
          return Some(InvalidFlow(pc));
        }
        var end: u32 := instruction.pc + instruction.length;
        AcceptedHere(c, pc);
        if !ExtentInWindow(c, pc, end) {
          GiveUp(pc, Unmapped, before, history);
          return None;
        }
        error := KeepAndFollow(pc, end, instruction, before, history);
      }
    }

    method KeepAndFollow(pc: u32, end: u32, instruction: Instruction, ghost before: Walk, ghost history: seq<u32>)
      returns (error: Option<SemanticCfgError>)
      requires WithinLimits() && AllBacked(c.image) && Walking(c, before, None)
      requires Ordered(c, before, history) && IsHistory(history, before.attempted)
      requires before.pending != [] && pc == before.pending[0] && pc !in before.attempted && Now() == Tried(before)
      requires Decodable(c, pc) && Accepted(c, pc) && DecodeAt(c, pc).AtInstruction?
      requires instruction == DecodeAt(c, pc).instruction && end == pc + instruction.length
      modifies this`instructions, this`extents,
               this`successors, this`incoming, this`handoffs, this`blockStarts, this`pending, this`queued
      ensures WithinLimits()
      ensures error.None? ==> Walking(c, Now(), None) && Ordered(c, Now(), history + [pc])
      ensures error.Some? ==> Refuses(c, error.value)
    {
      hide *;
      NowIs();
      TriedFields(before);
      WalkingFacts(c, before, None);
      KeepsHere(c, before, instruction, end);
      error := RejectExtentOverlap(pc, end);
      if error.Some? {
        OverlapIsRefused(c, before, instruction, end, error.value, history);
        return;
      }
      extents := extents[pc := end];
      instructions := instructions[pc := instruction];
      NowIs();
      KeptFields(before, Now(), instruction, end);
      KeptHas(before, instruction, end);
      KeepKeeps(c, before, instruction, end);
      HistoryTried(history, before);
      KeepOrdered(c, before, instruction, end, history);
      KeepCounts(c, before, instruction, end, history);
      error := FollowInstruction(pc, end, instruction, history + [pc]);
    }

    /** The address holds nothing to keep: it is recorded at every edge that leads there. */
    method GiveUp(pc: u32, kind: BoundaryKind, ghost before: Walk, ghost history: seq<u32>)
      requires AllBacked(c.image) && Walking(c, before, None)
      requires before.pending != [] && pc == before.pending[0] && pc !in before.attempted
      requires Now() == Tried(before)
      requires !Decodable(c, pc) && kind == FailureAt(c, pc)
      requires DecodeAt(c, pc).AtInstruction? ==> Accepted(c, pc)
      requires Ordered(c, before, history) && IsHistory(history, before.attempted)
      modifies this`failedTargets, this`handoffs
      ensures Walking(c, Now(), None) && Ordered(c, Now(), history + [pc])
    {
      hide *;
      NowIs();
      ghost var mid := Now();
      RecordFailedTarget(pc, kind);
      NowIs();
      FailedFields(before, mid, Now(), kind);
      FailKeeps(c, before, kind);
      HistoryTried(history, before);
      FailOrdered(c, before, kind, history);
    }

    /** One turn of the worklist. */
    method Step(ghost history: seq<u32>) returns (error: Option<SemanticCfgError>, ghost longer: seq<u32>)
      requires WithinLimits() && AllBacked(c.image) && Walking(c, Now(), None) && pending != [] && Counted(history)
      requires NeverEnters(c, history) && Ordered(c, Now(), history)
      modifies this
      ensures WithinLimits()
      ensures error.None? ==> Walking(c, Now(), None) && Counted(longer) && NeverEnters(c, longer)
      ensures error.None? ==> Ordered(c, Now(), longer)
      ensures error.None? ==> instructionsAttempted > old(instructionsAttempted)
                              || (instructionsAttempted == old(instructionsAttempted) && |pending| < |old(pending)|)
      ensures error.Some? ==> Refuses(c, error.value)
    {
      hide *;
      NowIs();
      ghost var before := Now();
      var pc := pending[0];
      pending := pending[1..];
      queued := queued - {pc};
      NowIs();
      PoppedIs(before, Now());
      longer := history;
      CountIs(history);
      HistoryTried(history, before);
      SkipOrdered(c, before, history);
      if pc in attempted {
        SkipKeeps(c, before);
        return None, history;
      }
      ghost var had, count, charged := attempted, instructionsAttempted, chargedBytes;
      error := Attempt(pc, before, history);
      if error.None? {
        longer := history + [pc];
        EntersMore(c, before, history, pc);
        CountMore(c, history, had, count, charged, pc);
        CountFrom(longer);
      }
    }

    lemma CountIs(history: seq<u32>)
      requires AllBacked(c.image) && Counted(history)
      ensures IsHistory(history, attempted) && instructionsAttempted == |history|
      ensures chargedBytes == Saturated(TotalCost(c, history))
    {
    }

    lemma CountFrom(history: seq<u32>)
      requires AllBacked(c.image) && IsHistory(history, attempted) && instructionsAttempted == |history|
      requires chargedBytes == Saturated(TotalCost(c, history))
      ensures Counted(history)
    {
    }

    /** The walk ends: within its limits, and on success with no work left. */
    method Run() returns (error: Option<SemanticCfgError>, ghost history: seq<u32>)
      requires WithinLimits() && AllBacked(c.image) && Walking(c, Now(), None) && Counted([]) && Ordered(c, Now(), [])
      modifies this
      ensures WithinLimits()
      ensures error.None? ==> Walking(c, Now(), None) && pending == [] && Counted(history) && NeverEnters(c, history)
      ensures error.None? ==> Ordered(c, Now(), history)
      ensures error.Some? ==> Refuses(c, error.value)
    {
      hide *;
      history := [];
      NothingEntered(c);
      while pending != []
        invariant WithinLimits() && Walking(c, Now(), None) && Counted(history) && NeverEnters(c, history)
        invariant Ordered(c, Now(), history)
        decreases c.limits.maxInstructions - instructionsAttempted, |pending|
      {
        LimitHolds();
        error, history := Step(history);
        if error.Some? {
          return;
        }
        LimitHolds();
      }
      error := None;
    }

    lemma LimitHolds()
      requires WithinLimits()
      ensures instructionsAttempted <= c.limits.maxInstructions
    {
    }
  }

  /** The head of the queue has been taken off and counted as attempted. */
  ghost function Tried(w: Walk): Walk
    requires w.pending != []
  {
    Popped(w).(attempted := w.attempted + {w.pending[0]})
  }

  lemma TriedIs(w: Walk, v: Walk)
    requires w.pending != []
    requires v == Walk(w.instructions, w.extents, w.successors, w.incoming, w.failedTargets, w.handoffs, w.blockStarts,
                       w.pending[1..], w.queued - {w.pending[0]}, w.attempted + {w.pending[0]})
    ensures v == Tried(w)
  {
  }

  lemma TriedFields(w: Walk)
    requires w.pending != []
    ensures Tried(w) == Walk(w.instructions, w.extents, w.successors, w.incoming, w.failedTargets, w.handoffs,
                             w.blockStarts, w.pending[1..], w.queued - {w.pending[0]}, w.attempted + {w.pending[0]})
  {
  }

  lemma KeptHas(w: Walk, i: Instruction, end: u32)
    requires w.pending != []
    ensures var v := Kept(w, i, end); w.pending[0] in v.instructions && v.instructions[w.pending[0]] == i
    ensures Kept(w, i, end).successors == w.successors
  {
  }

  lemma PoppedFields(w: Walk)
    requires w.pending != []
    ensures var v := Popped(w);
            && v.instructions == w.instructions && v.extents == w.extents && v.successors == w.successors
            && v.incoming == w.incoming && v.failedTargets == w.failedTargets && v.handoffs == w.handoffs
            && v.blockStarts == w.blockStarts && v.attempted == w.attempted
            && v.pending == w.pending[1..] && v.queued == w.queued - {w.pending[0]}
  {
  }

  lemma PoppedIs(w: Walk, v: Walk)
    requires w.pending != []
    requires v == w.(pending := w.pending[1..], queued := w.queued - {w.pending[0]})
    ensures v == Popped(w)
  {
  }

  lemma KeptFields(w: Walk, v: Walk, i: Instruction, end: u32)
    requires w.pending != []
    requires var pc := w.pending[0];
             v == Walk(w.instructions[pc := i], w.extents[pc := end], w.successors, w.incoming, w.failedTargets,
                       w.handoffs, w.blockStarts, w.pending[1..], w.queued - {pc}, w.attempted + {pc})
    ensures v == Kept(w, i, end)
  {
  }

  lemma FailedFields(w: Walk, mid: Walk, v: Walk, kind: BoundaryKind)
    requires w.pending != []
    requires mid == Tried(w)
    requires v == mid.(failedTargets := mid.failedTargets[w.pending[0] := kind],
                       handoffs := mid.handoffs + FailureHandoffs(mid, w.pending[0], kind))
    ensures v == Failed(w, kind)
  {
  }

  lemma TooManyInstructions(c: Config, history: seq<u32>, pc: u32, e: SemanticCfgError)
    requires AllBacked(c.image) && AllSought(c, history + [pc]) && |history| + 1 > c.limits.maxInstructions
    requires e == ResourceLimit("instructions", |history| + 1, c.limits.maxInstructions)
    requires InTurn(c, history + [pc])
    ensures Refuses(c, e)
  {
    hide AllBlocks, AllSought, InTurn, Admitted;
    assert |history + [pc]| == |history| + 1;
    MisfitNotAdmitted(c, history + [pc]);
  }

  lemma TotalNext(c: Config, history: seq<u32>, pc: u32)
    requires AllBacked(c.image)
    ensures TotalCost(c, history + [pc]) == TotalCost(c, history) + Cost(c, pc)
  {
    hide Cost;
    var longer := history + [pc];
    assert longer[..|longer| - 1] == history && longer[|longer| - 1] == pc;
  }

  lemma SaturatedTwice(a: nat, b: nat)
    ensures Saturated(Saturated(a) + b) == Saturated(a + b)
  {
  }

  lemma TooManyBytes(c: Config, history: seq<u32>, pc: u32, e: SemanticCfgError)
    requires AllBacked(c.image) && AllSought(c, history + [pc])
    requires e.ResourceLimit? && e.what == "charged bytes" && e.limit == c.limits.maxChargedBytes
    requires e.limit < e.actual <= Saturated(Saturated(TotalCost(c, history)) + Cost(c, pc))
    requires InTurn(c, history + [pc])
    ensures Refuses(c, e)
  {
    hide *;
    TotalNext(c, history, pc);
    SaturatedTwice(TotalCost(c, history), Cost(c, pc));
    BytesPassed(c, history + [pc], e);
    BytesNotAdmitted(c, history + [pc], e.actual);
    RefusesFrom(c, e);
  }

  lemma BytesNotAdmitted(c: Config, history: seq<u32>, actual: nat)
    requires AllBacked(c.image) && InTurn(c, history)
    requires c.limits.maxChargedBytes < actual <= Saturated(TotalCost(c, history))
    ensures !Admitted(c)
  {
    hide InTurn, TotalCost, Saturated;
    MisfitNotAdmitted(c, history);
  }

  lemma BytesPassed(c: Config, history: seq<u32>, e: SemanticCfgError)
    requires AllBacked(c.image) && AllSought(c, history)
    requires e.ResourceLimit? && e.what == "charged bytes" && e.limit == c.limits.maxChargedBytes
    requires e.limit < e.actual <= Saturated(TotalCost(c, history))
    ensures Justified(c, e)
  {
    hide AllBlocks, AllSought, Cost, TotalCost, Saturated;
  }

  /** Distinct attempts followed by one more are distinct, and each was sought. */
  lemma AllSoughtMore(c: Config, w: Walk, history: seq<u32>)
    requires AllBacked(c.image) && Walking(c, w, None) && IsHistory(history, w.attempted)
    requires w.pending != [] && w.pending[0] !in w.attempted
    ensures AllSought(c, history + [w.pending[0]])
  {
    WalkingFacts(c, w, None);
    HeadSought(c, w);
    NoRepeat(history, w.attempted);
    hide Walking, Sought, OutcomesOk, HandoffsOk, EdgesAccounted, QueueOk, BlocksOk, EdgesRecorded, EdgesMirrored,
         AllReachedByTrail, ExtentsDisjoint;
    forall i | 0 <= i < |history|
      ensures Sought(c, history[i]) && history[i] != w.pending[0]
    {
      assert history[i] in history;
      AttemptedSought(c, w, history[i]);
    }
    SoughtMore(c, history, w.pending[0]);
  }

  lemma SoughtMore(c: Config, history: seq<u32>, pc: u32)
    requires AllBacked(c.image) && Sought(c, pc)
    requires forall i | 0 <= i < |history| :: Sought(c, history[i]) && history[i] != pc
    requires forall i, j | 0 <= i < j < |history| :: history[i] != history[j]
    ensures AllSought(c, history + [pc])
  {
    hide Sought;
  }

  lemma AttemptedSought(c: Config, w: Walk, pc: u32)
    requires AllBacked(c.image) && OutcomesOk(c, w) && AllReachedByTrail(c, w) && pc in w.attempted
    ensures Sought(c, pc)
  {
    hide Sought, KeptOk, Reached, FailureAt, Decodable;
    if pc in w.instructions {
      ReachedSought(c, pc);
    } else {
      assert FailedOk(c, w, pc);
    }
  }

  lemma ReachedSought(c: Config, pc: u32)
    requires AllBacked(c.image) && Reached(c, pc)
    ensures Sought(c, pc)
  {
    hide Decodable, StaticTargets, PcInWindow;
    var p :| IsTrail(c, p) && p[|p| - 1] == pc;
    if |p| > 1 {
      var q := p[..|p| - 1];
      assert IsTrail(c, q) && q[|q| - 1] == p[|p| - 2];
      assert Reached(c, p[|p| - 2]);
    }
  }

  lemma NothingEntered(c: Config)
    requires AllBacked(c.image)
    ensures NeverEnters(c, [])
  {
  }

  lemma ReachedIsDecodable(c: Config, a: u32)
    requires AllBacked(c.image) && Reached(c, a)
    ensures Decodable(c, a)
  {
    hide Decodable;
    var p :| IsTrail(c, p) && p[|p| - 1] == a;
  }

  lemma EntersIsInside(c: Config, w: Walk, a: u32, pc: u32)
    requires AllBacked(c.image) && Walking(c, w, None) && a in w.attempted && EntersInstruction(c, a, pc)
    ensures InsideExtent(w.extents, pc)
  {
    WalkingFacts(c, w, None);
    ReachedIsDecodable(c, a);
    hide Walking, Sought, Reached, DecodeAt, Decodable, FailureAt, Accepted;
    assert a in w.failedTargets ==> FailedOk(c, w, a);
    KeptReached(c, w, a);
    assert Covers(w.extents, a, pc);
  }

  lemma EntersMore(c: Config, w: Walk, history: seq<u32>, pc: u32)
    requires AllBacked(c.image) && Walking(c, w, None) && IsHistory(history, w.attempted)
    requires NeverEnters(c, history) && !InsideExtent(w.extents, pc)
    ensures NeverEnters(c, history + [pc])
  {
    hide Walking, EntersInstruction, InsideExtent;
    var longer := history + [pc];
    forall i, j | 0 <= i < j < |longer|
      ensures !EntersInstruction(c, longer[i], longer[j])
    {
      if j == |history| && EntersInstruction(c, longer[i], pc) {
        assert longer[i] in history;
        EntersIsInside(c, w, longer[i], pc);
      }
    }
  }

  lemma KeptReached(c: Config, w: Walk, a: u32)
    requires AllBacked(c.image) && Walking(c, w, None) && a in w.extents
    ensures Reached(c, a) && DecodeAt(c, a).AtInstruction? && w.extents[a] == a + DecodeAt(c, a).instruction.length
  {
    WalkingFacts(c, w, None);
    hide Walking, Reached, DecodeAt, Decodable;
    assert KeptOk(c, w, a);
    DecodableIs(c, a);
  }

  /** The code is at fault, or it passes a limit in its turn; and the error says which. */
  ghost predicate Refuses(c: Config, e: SemanticCfgError)
    requires AllBacked(c.image)
  {
    Justified(c, e) && !Admitted(c)
  }

  lemma RefusedByFault(c: Config, e: SemanticCfgError)
    requires AllBacked(c.image) && AlwaysRefused(c) && !e.ResourceLimit?
    ensures Refuses(c, e)
  {
    FaultNotAdmitted(c);
    FaultIsMalformed(c);
    hide Malformed, AlwaysRefused, Admitted;
  }

  lemma FaultIsMalformed(c: Config)
    requires AllBacked(c.image) && AlwaysRefused(c)
    ensures Malformed(c)
  {
    hide BadInstruction, BadFlow, EntersInstruction, IsAligned, Reached;
    if a, b :| ReachedOverlap(c, a, b) {
      assert EntersInstruction(c, a, b);
    }
  }

  lemma HistoryTried(history: seq<u32>, w: Walk)
    requires IsHistory(history, w.attempted)
    ensures HasTried(history, w)
  {
  }

  lemma InsideEnters(c: Config, w: Walk, history: seq<u32>) returns (a: u32)
    requires AllBacked(c.image) && Walking(c, w, None) && w.pending != [] && InsideExtent(w.extents, w.pending[0])
    requires IsHistory(history, w.attempted)
    ensures EntersInstruction(c, a, w.pending[0]) && a in history
  {
    hide Walking, Sought, Reached, DecodeAt, KeptOk, FailedOk;
    WalkingFacts(c, w, None);
    HeadSought(c, w);
    a :| Covers(w.extents, a, w.pending[0]);
    KeptReached(c, w, a);
  }

  lemma EntersNotAdmitted(c: Config, history: seq<u32>, a: u32, pc: u32)
    requires AllBacked(c.image) && InTurn(c, history + [pc]) && a in history && EntersInstruction(c, a, pc)
    ensures !Admitted(c)
  {
    hide InTurn, EntersInstruction;
    var longer := history + [pc];
    var i :| 0 <= i < |history| && history[i] == a;
    assert EntersInstruction(c, longer[i], longer[|history|]);
    MisfitNotAdmitted(c, longer);
  }

  lemma EntersJustifies(c: Config, a: u32, b: u32, e: SemanticCfgError)
    requires AllBacked(c.image) && EntersInstruction(c, a, b) && !e.ResourceLimit?
    ensures Justified(c, e)
  {
    hide EntersInstruction, BadInstruction, BadFlow, IsAligned;
  }

  lemma RefusesFrom(c: Config, e: SemanticCfgError)
    requires AllBacked(c.image) && Justified(c, e) && !Admitted(c)
    ensures Refuses(c, e)
  {
    hide Justified, Admitted;
  }

  lemma InsideIsRefused(c: Config, w: Walk, e: SemanticCfgError, history: seq<u32>)
    requires AllBacked(c.image) && Walking(c, w, None) && w.pending != [] && InsideExtent(w.extents, w.pending[0])
    requires !e.ResourceLimit? && IsHistory(history, w.attempted) && InTurn(c, history + [w.pending[0]])
    ensures Refuses(c, e)
  {
    hide *;
    var a := InsideEnters(c, w, history);
    EntersNotAdmitted(c, history, a, w.pending[0]);
    EntersJustifies(c, a, w.pending[0], e);
    RefusesFrom(c, e);
  }

  lemma OverlapIsRefused(c: Config, w: Walk, i: Instruction, end: u32, e: SemanticCfgError, history: seq<u32>)
    requires AllBacked(c.image) && Walking(c, w, None) && Keeps(c, w, i, end) && w.pending != [] && !e.ResourceLimit?
    requires InsideExtent(w.extents, w.pending[0]) || exists b :: b in w.extents && w.pending[0] < b < end
    requires Ordered(c, w, history) && IsHistory(history, w.attempted)
    ensures Refuses(c, e)
  {
    hide *;
    if InsideExtent(w.extents, w.pending[0]) {
      HeadInTurn(c, w, history);
      InsideIsRefused(c, w, e, history);
    } else {
      var b :| b in w.extents && w.pending[0] < b < end;
      KeptInside(c, w, i, end, b);
      RefusedByFault(c, e);
    }
  }

  lemma KeptInside(c: Config, w: Walk, i: Instruction, end: u32, b: u32)
    requires AllBacked(c.image) && Walking(c, w, None) && Keeps(c, w, i, end)
    requires b in w.extents && w.pending[0] < b < end
    ensures AlwaysRefused(c)
  {
    hide Walking, Sought, Reached, DecodeAt, BadInstruction, BadFlow, IsAligned, Decodable, Accepted;
    KeptReached(c, w, b);
    ReachedSought(c, b);
    WalkingFacts(c, w, None);
    HeadReached(c, w, i, end);
    DecodableIs(c, w.pending[0]);
    assert ReachedOverlap(c, w.pending[0], b);
  }

  lemma RefusedInstruction(c: Config, w: Walk, e: SemanticCfgError)
    requires AllBacked(c.image) && Walking(c, w, None) && w.pending != [] && !e.ResourceLimit?
    requires DecodeAt(c, w.pending[0]).AtInstruction?
    requires var i := DecodeAt(c, w.pending[0]).instruction;
             || DecodeAt(c, w.pending[0]).itOpen || i.pc != w.pending[0] || i.isa != c.isa
             || !ValidLength(c.isa, i.length) || i.pc + i.length >= 0x1_0000_0000
    ensures Refuses(c, e)
  {
    hide Walking, Sought, DecodeAt, EntersInstruction, BadFlow, IsAligned, ValidLength, Refuses;
    WalkingFacts(c, w, None);
    HeadSought(c, w);
    assert BadInstruction(c, w.pending[0]);
    RefusedByFault(c, e);
  }

  lemma BoundaryFails(c: Config, pc: u32)
    requires AllBacked(c.image) && DecodeAt(c, pc).AtBoundary?
    ensures !Decodable(c, pc) && FailureAt(c, pc) == DecodeAt(c, pc).kind
  {
    hide DecodeAt;
  }

  lemma AcceptedHere(c: Config, pc: u32)
    requires AllBacked(c.image) && DecodeAt(c, pc).AtInstruction? && !DecodeAt(c, pc).itOpen
    requires var i := DecodeAt(c, pc).instruction;
             i.pc == pc && i.isa == c.isa && ValidLength(c.isa, i.length) && pc + i.length < 0x1_0000_0000
    ensures Accepted(c, pc)
    ensures Decodable(c, pc) <==> ExtentInWindow(c, pc, pc + DecodeAt(c, pc).instruction.length)
    ensures !Decodable(c, pc) ==> FailureAt(c, pc) == Unmapped
  {
    hide DecodeAt, ValidLength, ExtentInWindow;
  }

  lemma KeepsHere(c: Config, w: Walk, i: Instruction, end: u32)
    requires AllBacked(c.image) && w.pending != [] && w.pending[0] !in w.attempted && OutcomesOk(c, w)
    requires Decodable(c, w.pending[0]) && Accepted(c, w.pending[0]) && DecodeAt(c, w.pending[0]).AtInstruction?
    requires i == DecodeAt(c, w.pending[0]).instruction && end == w.pending[0] + i.length
    ensures Keeps(c, w, i, end) && w.pending[0] !in w.extents && w.pending[0] < end
  {
    hide DecodeAt, Decodable;
  }

  /** Charges saturate, so charging step by step is charging the total. */
  lemma CountMore(c: Config, history: seq<u32>, had: set<u32>, count: nat, charged: u64, pc: u32)
    requires AllBacked(c.image) && IsHistory(history, had) && count == |history| && pc !in had
    requires charged == Saturated(TotalCost(c, history))
    ensures var longer := history + [pc];
            && IsHistory(longer, had + {pc}) && count + 1 == |longer|
            && Saturated(charged + Cost(c, pc)) == Saturated(TotalCost(c, longer))
  {
    hide Cost, TotalCost, Saturated;
    TotalNext(c, history, pc);
    SaturatedTwice(TotalCost(c, history), Cost(c, pc));
    assert |had + {pc}| == |had| + 1;
  }

  /** An instruction about to be followed is the last attempt, and the blocks counted so far are those of the others. */
  lemma KeepCounts(c: Config, w: Walk, i: Instruction, end: u32, history: seq<u32>)
    requires AllBacked(c.image) && Ordered(c, w, history) && HasTried(history, w) && w.pending != []
    ensures Counting(c, Kept(w, i, end), w.pending[0], history + [w.pending[0]])
  {
    hide *;
    var pc, longer := w.pending[0], history + [w.pending[0]];
    HeadInTurn(c, w, history);
    KeptWork(w, i, end);
    TriedMore(history, w, Kept(w, i, end), pc);
    OrderedFacts(c, w, history);
    StartsGrow(c, longer, |history|);
    assert longer[..|history|] == history;
    CountingFrom(c, Kept(w, i, end), pc, longer);
  }

  lemma HandoffNoted(w: Walk, v: Walk, h: Handoff)
    requires v == w.(handoffs := w.handoffs + {h})
    ensures v == WithHandoff(w, h)
  {
  }

  lemma SchedulesThis(c: Config, w: Walk, s: u32, t: u32, startsBlock: bool)
    requires AllBacked(c.image) && Walking(c, w, Some(s)) && s in w.instructions && t in StaticTargets(c, s)
    requires IsAligned(t, c.isa) && startsBlock == StartsBlocks(w.instructions[s])
    ensures Schedules(c, w, s, t, startsBlock)
  {
    hide Walking, StaticTargets, IsAligned, StartsBlocks;
  }

  /** A followed instruction is a reached one. */
  lemma FollowedIsReached(c: Config, w: Walk, s: u32)
    requires AllBacked(c.image) && Walking(c, w, Some(s)) && s in w.instructions
    ensures Reached(c, s) && DecodeAt(c, s).AtInstruction? && w.instructions[s] == DecodeAt(c, s).instruction
    ensures Decodable(c, s) && Accepted(c, s)
  {
    WalkingFacts(c, w, Some(s));
    hide Walking, Reached, Decodable, Accepted, DecodeAt;
    assert KeptOk(c, w, s);
    assert Decodable(c, s) ==> DecodeAt(c, s).AtInstruction? by { DecodableIs(c, s); }
  }

  lemma DecodableIs(c: Config, pc: u32)
    requires AllBacked(c.image)
    ensures Decodable(c, pc) ==> DecodeAt(c, pc).AtInstruction?
  {
  }

  lemma StaticTargetsOf(c: Config, s: u32, i: Instruction, next: u32)
    requires AllBacked(c.image) && Decodable(c, s) && DecodeAt(c, s).AtInstruction? && DecodeAt(c, s).instruction == i
    requires next == s + i.length
    ensures StaticTargets(c, s) == FlowTargets(c.calls, i, next)
  {
    hide Decodable, DecodeAt, FlowTargets;
  }

  lemma KeptTargets(c: Config, w: Walk, s: u32, next: u32)
    requires AllBacked(c.image) && Walking(c, w, Some(s)) && s in w.instructions && next == s + w.instructions[s].length
    ensures StaticTargets(c, s) == FlowTargets(c.calls, w.instructions[s], next)
  {
    hide *;
    FollowedIsReached(c, w, s);
    StaticTargetsOf(c, s, w.instructions[s], next);
  }

  lemma KeptEdge(c: Config, w: Walk, current: Option<u32>, a: u32, b: u32)
    requires AllBacked(c.image) && Walking(c, w, current) && IsBlockEdge(w, a, b)
    ensures BranchesTo(c, a, b)
  {
    WalkingFacts(c, w, current);
    hide Walking, Reached, Decodable, Accepted, DecodeAt, StaticTargets, StartsBlocks, Targets;
    assert KeptOk(c, w, a);
    DecodableIs(c, a);
  }

  lemma BlocksAll(c: Config, w: Walk, s: u32, t: u32)
    requires AllBacked(c.image) && Walking(c, w, Some(s)) && BranchesTo(c, s, t) && PcInWindow(c, t)
    ensures AllBlocks(c, w.blockStarts + {t})
  {
    hide Walking, BranchesTo, PcInWindow;
    forall b | b in w.blockStarts && b != c.entry
      ensures PcInWindow(c, b) && exists a :: BranchesTo(c, a, b)
    {
      StartedByBranch(c, w, s, b);
    }
  }

  lemma StartedByBranch(c: Config, w: Walk, s: u32, b: u32)
    requires AllBacked(c.image) && Walking(c, w, Some(s)) && b in w.blockStarts && b != c.entry
    ensures PcInWindow(c, b) && exists a :: BranchesTo(c, a, b)
  {
    WalkingFacts(c, w, Some(s));
    hide Walking, BranchesTo, IsBlockEdge, PcInWindow, OutcomesOk, EdgesRecorded, EdgesAccounted, HandoffsOk, QueueOk,
      ExtentsDisjoint, EdgesMirrored, AllReachedByTrail;
    var a :| IsBlockEdge(w, a, b);
    KeptEdge(c, w, Some(s), a, b);
  }

  lemma TooManyJustified(c: Config, starts: set<u32>, t: u32, e: SemanticCfgError)
    requires AllBacked(c.image) && AllBlocks(c, starts + {t}) && TooManyBlocks(c, starts, t, e)
    ensures Justified(c, e)
  {
    hide AllBlocks, AllSought;
    assert |starts + {t}| == |starts| + 1;
  }

  lemma RefusedTarget(c: Config, w: Walk, s: u32, t: u32, startsBlock: bool, e: SemanticCfgError, history: seq<u32>)
    requires AllBacked(c.image) && Walking(c, w, Some(s)) && s in w.instructions && t in StaticTargets(c, s)
    requires startsBlock == StartsBlocks(w.instructions[s])
    requires if IsAligned(t, c.isa) then
               startsBlock && PcInWindow(c, t) && t !in w.failedTargets && TooManyBlocks(c, w.blockStarts, t, e)
             else e == InvalidFlow(t)
    requires Counting(c, w, s, history)
    ensures Refuses(c, e)
  {
    FollowedIsReached(c, w, s);
    hide Walking, Reached, Decodable, Accepted, DecodeAt, StaticTargets, IsAligned, StartsBlocks, TooManyBlocks,
         Refuses, Counting;
    if IsAligned(t, c.isa) {
      assert BranchesTo(c, s, t);
      TooManyRefused(c, w, s, t, e, history);
    } else {
      assert BadFlow(c, s);
      RefusedByFault(c, e);
    }
  }

  lemma TooManyRefused(c: Config, w: Walk, s: u32, t: u32, e: SemanticCfgError, history: seq<u32>)
    requires AllBacked(c.image) && Walking(c, w, Some(s)) && s in w.instructions && t in StaticTargets(c, s)
    requires StartsBlocks(w.instructions[s]) && PcInWindow(c, t) && t !in w.failedTargets
    requires TooManyBlocks(c, w.blockStarts, t, e) && BranchesTo(c, s, t) && Counting(c, w, s, history)
    ensures Refuses(c, e)
  {
    hide *;
    BlocksAll(c, w, s, t);
    TooManyJustified(c, w.blockStarts, t, e);
    WalkingFacts(c, w, Some(s));
    TargetCounts(c, w, s, t, history);
    CountingFacts(c, w, s, history);
    TooManyAre(c, w.blockStarts, t, e);
    BlocksNotAdmitted(c, w.blockStarts, t, history);
    RefusesFrom(c, e);
  }

  lemma TooManyAre(c: Config, starts: set<u32>, t: u32, e: SemanticCfgError)
    requires TooManyBlocks(c, starts, t, e)
    ensures t !in starts && |starts| + 1 > c.limits.maxBlocks
  {
  }

  lemma WrongFlow(c: Config, w: Walk, s: u32, e: SemanticCfgError)
    requires AllBacked(c.image) && Walking(c, w, Some(s)) && s in w.instructions && !e.ResourceLimit?
    requires var flow := w.instructions[s].flow;
             || (flow.DirectBranch? && flow.fallthrough.Some? && flow.fallthrough.value != s + w.instructions[s].length)
             || (flow.DirectCall? && !IsAligned(flow.target, c.isa))
    ensures Refuses(c, e)
  {
    FollowedIsReached(c, w, s);
    hide Walking, Reached, Decodable, Accepted, DecodeAt, StaticTargets, IsAligned, Refuses;
    assert BadFlow(c, s);
    RefusedByFault(c, e);
  }

  lemma NotedIs(c: Config, w: Walk, s: u32, i: Instruction, kind: BoundaryKind)
    requires FlowHandoff(c.calls, i) == Some(kind)
    ensures Noted(c, w, s, i) == WithHandoff(w, Handoff(s, kind))
  {
  }

  lemma NothingNoted(c: Config, w: Walk, s: u32, i: Instruction)
    ensures FlowHandoff(c.calls, i).None? ==> Noted(c, w, s, i) == w
  {
  }

  /** What following the instruction comes to, by the number of its edges. */
  lemma FollowedCases(c: Config, w: Walk, s: u32, i: Instruction, next: u32)
    ensures var v, b := Noted(c, w, s, i), StartsBlocks(i);
            FollowedWhole(c, w, s, i, next)
            == if i.flow.DirectBranch? then
                 var first := Scheduled(c, v, s, i.flow.target, b);
                 if i.flow.fallthrough.Some? then Scheduled(c, first, s, i.flow.fallthrough.value, b) else first
               else if next in FlowTargets(c.calls, i, next) then Scheduled(c, v, s, next, b)
               else v
  {
    var v, b := Noted(c, w, s, i), StartsBlocks(i);
    hide Noted, StartsBlocks, FlowTargets, Scheduled, FollowedEdges;
    FollowedNone(c, v, s, b);
    FollowedOne(c, v, s, next, b);
    if i.flow.DirectBranch? {
      FollowedOne(c, v, s, i.flow.target, b);
      if i.flow.fallthrough.Some? {
        FollowedTwo(c, v, s, i.flow.target, i.flow.fallthrough.value, b);
        assert [i.flow.target] + [i.flow.fallthrough.value] == [i.flow.target, i.flow.fallthrough.value];
      } else {
        assert [i.flow.target] + [] == [i.flow.target];
      }
    }
  }

  /** Every edge recorded and aligned, and the handoff noted: the instruction has been followed. */
  lemma Followed(c: Config, w: Walk, s: u32, next: u32)
    requires AllBacked(c.image) && Walking(c, w, Some(s)) && s in w.instructions && next == s + w.instructions[s].length
    requires var i := w.instructions[s];
             && Targets(w.successors, s) == FlowTargets(c.calls, i, next)
             && (forall t | t in FlowTargets(c.calls, i, next) :: IsAligned(t, c.isa))
             && (i.flow.DirectBranch? && i.flow.fallthrough.Some? ==> i.flow.fallthrough.value == next)
             && (i.flow.DirectCall? ==> IsAligned(i.flow.target, c.isa))
             && (FlowHandoff(c.calls, i).Some? ==> Handoff(s, FlowHandoff(c.calls, i).value) in w.handoffs)
    ensures Walking(c, w, None)
  {
    FollowedComplete(c, w, s, next);
    hide *;
    FollowedKeeps(c, w, s);
  }

  lemma FollowedComplete(c: Config, w: Walk, s: u32, next: u32)
    requires AllBacked(c.image) && Walking(c, w, Some(s)) && s in w.instructions && next == s + w.instructions[s].length
    requires var i := w.instructions[s];
             && Targets(w.successors, s) == FlowTargets(c.calls, i, next)
             && (forall t | t in FlowTargets(c.calls, i, next) :: IsAligned(t, c.isa))
             && (i.flow.DirectBranch? && i.flow.fallthrough.Some? ==> i.flow.fallthrough.value == next)
             && (i.flow.DirectCall? ==> IsAligned(i.flow.target, c.isa))
    ensures EdgesComplete(c, w, s)
  {
    FollowedIsReached(c, w, s);
    KeptTargets(c, w, s, next);
    hide Walking, Reached, Decodable, Accepted, DecodeAt, StaticTargets, IsAligned, FlowTargets, FlowHandoff, Targets,
      FlowSound;
    SoundFlow(c, s, w.instructions[s], next);
  }

  lemma SoundFlow(c: Config, s: u32, i: Instruction, next: u32)
    requires AllBacked(c.image) && DecodeAt(c, s).AtInstruction?
    requires i == DecodeAt(c, s).instruction && next == s + i.length
    requires forall t | t in StaticTargets(c, s) :: IsAligned(t, c.isa)
    requires i.flow.DirectBranch? && i.flow.fallthrough.Some? ==> i.flow.fallthrough.value == next
    requires i.flow.DirectCall? ==> IsAligned(i.flow.target, c.isa)
    ensures FlowSound(c, s)
  {
    hide DecodeAt, StaticTargets, IsAligned;
  }

  lemma NoQueueing(w: Walk, v: Walk)
    requires v.blockStarts == w.blockStarts && v.pending == w.pending && v.queued == w.queued
    ensures QueuesSame(w, v)
  {
  }

  ghost function MarkedBy(sources: seq<u32>, kind: BoundaryKind): set<Handoff> {
    set s | s in sources :: Handoff(s, kind)
  }

  lemma MarkedOne(sources: seq<u32>, k: nat, kind: BoundaryKind)
    requires k < |sources|
    ensures MarkedBy(sources[..k + 1], kind) == MarkedBy(sources[..k], kind) + {Handoff(sources[k], kind)}
  {
    assert sources[..k + 1] == sources[..k] + [sources[k]];
  }

  lemma MarkedNone(kind: BoundaryKind)
    ensures MarkedBy([], kind) == {}
  {
  }

  lemma MarkedAll(w: Walk, target: u32, sources: seq<u32>, kind: BoundaryKind)
    requires forall s :: s in sources <==> s in Targets(w.incoming, target)
    ensures sources[..|sources|] == sources
    ensures FailureHandoffs(w, target, kind)
         == if sources == [] then {Handoff(target, kind)} else MarkedBy(sources, kind)
    ensures sources == [] ==> MarkedBy(sources, kind) == {}
  {
    if sources != [] {
      assert sources[0] in sources;
    }
  }

  /** The edge from `s` to `t` is recorded in both directions; outcomes are as they were. */
  ghost predicate EdgeAdded(w: Walk, v: Walk, s: u32, t: u32) {
    && v.instructions == w.instructions && v.extents == w.extents && v.failedTargets == w.failedTargets
    && v.attempted == w.attempted
    && v.successors == AddEdge(w.successors, s, t) && v.incoming == AddEdge(w.incoming, t, s)
  }

  ghost predicate QueuesSame(w: Walk, v: Walk) {
    v.blockStarts == w.blockStarts && v.pending == w.pending && v.queued == w.queued
  }

  lemma EdgeNoted(w: Walk, v: Walk, s: u32, t: u32)
    requires v.instructions == w.instructions && v.extents == w.extents && v.failedTargets == w.failedTargets
    requires v.attempted == w.attempted
    requires v.successors == AddEdge(w.successors, s, t) && v.incoming == AddEdge(w.incoming, t, s)
    ensures EdgeAdded(w, v, s, t)
  {
  }

  lemma ScheduledAway(c: Config, w: Walk, v: Walk, s: u32, t: u32, startsBlock: bool, kind: BoundaryKind)
    requires EdgeAdded(w, v, s, t) && QueuesSame(w, v) && v.handoffs == w.handoffs + {Handoff(s, kind)}
    requires if PcInWindow(c, t) then t in w.failedTargets && kind == w.failedTargets[t] else kind == Unmapped
    ensures v == Scheduled(c, w, s, t, startsBlock)
  {
  }

  lemma ScheduledInside(c: Config, w: Walk, v: Walk, s: u32, t: u32, startsBlock: bool)
    requires EdgeAdded(w, v, s, t) && PcInWindow(c, t) && t !in w.failedTargets && v.handoffs == w.handoffs
    requires v.blockStarts == if startsBlock then w.blockStarts + {t} else w.blockStarts
    requires v.pending == if t !in w.attempted && t !in w.queued then w.pending + [t] else w.pending
    requires v.queued == if t !in w.attempted && t !in w.queued then w.queued + {t} else w.queued
    ensures v == Scheduled(c, w, s, t, startsBlock)
  {
  }

  lemma FetchMeans(image: seq<Segment>, pc: u32, size: nat)
    requires AllBacked(image) && size > 0
    ensures Fetch(image, pc, size).Some? ==>
              pc + size < LIMIT32 && Mapped(image, pc, pc + size) && BackedRange(image, pc, pc + size)
              && Fetch(image, pc, size).value == FlatBytes(image, pc, pc + size)
    ensures pc + size < LIMIT32 && (forall a | pc <= a < pc + size :: ByteBackedAt(image, a)) ==>
              Fetch(image, pc, size).Some?
  {
    if pc + size < LIMIT32 && BackedRange(image, pc, pc + size) {
      BackedIsMapped(image, pc, pc + size);
    }
  }

  method ReadExactSmall(image: seq<Segment>, pc: u32, size: nat) returns (bytes: Option<seq<byte>>)
    requires ValidImage(image) && 0 < size <= 4
    ensures bytes.Some? <==> pc + size < LIMIT32 && Mapped(image, pc, pc + size)
    ensures bytes.Some? ==> bytes.value == FlatBytes(image, pc, pc + size) && |bytes.value| == size
  {
    var read := ReadExact(image, pc, size);
    bytes := if read.Success? then Some(read.value) else None;
  }
}
