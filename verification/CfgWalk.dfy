/**
 * What a bounded decode walk is: the configuration, the decoder seen as a function of the image, the
 * edges an instruction has, and the states a walk goes through.
 */
module CfgWalk {
  import opened Words
  import opened ControlGraph
  import opened Arm32
  import opened RuntimeImage
  import opened RuntimeQueries

  datatype CfgLimits = CfgLimits(maxChargedBytes: u64, maxInstructions: nat, maxBlocks: nat)

  datatype CallPolicy = Fallthrough | FallthroughAndHandoff

  datatype BoundaryKind = CallBoundary | ReturnBoundary | ExceptionCallBoundary | Indirect | Unmapped | DecodeFailure

  datatype Handoff = Handoff(pc: u32, kind: BoundaryKind)

  datatype SemanticCfgError =
    | DecodeError(pc: u32)
    | InvalidFlow(pc: u32)
    | ResourceLimit(what: string, actual: nat, limit: nat)

  /** The instruction decoder: any partial function of the address and the fetched bytes. */
  datatype DecodeResult = Decoded(instruction: Instruction, itOpen: bool) | Undecodable

  type Decoder = (u32, seq<byte>) -> DecodeResult

  datatype Config = Config(
    image: seq<Segment>, entry: u32, isa: Isa, limits: CfgLimits, calls: CallPolicy,
    maxAddressSpan: Option<u32>, decoder: Decoder)

  // ---------------------------------------------------------------- one instruction

  /** The bytes of a range that is byte-backed throughout. */
  ghost function Fetch(image: seq<Segment>, pc: u32, size: nat): Option<seq<byte>>
    requires AllBacked(image)
  {
    if pc + size < LIMIT32 && BackedRange(image, pc, pc + size) then
      BackedIsMapped(image, pc, pc + size);
      Some(FlatBytes(image, pc, pc + size))
    else None
  }

  datatype DecodedAt = AtInstruction(instruction: Instruction, itOpen: bool) | AtBoundary(kind: BoundaryKind)

  function Decode(c: Config, pc: u32, bytes: Option<seq<byte>>): DecodedAt {
    if bytes.None? then AtBoundary(Unmapped)
    else
      match c.decoder(pc, bytes.value)
      case Undecodable => AtBoundary(DecodeFailure)
      case Decoded(instruction, itOpen) => AtInstruction(instruction, itOpen)
  }

  /** The first halfword of a Thumb instruction announces a second one. */
  predicate IsWide(halfword: seq<byte>)
    requires |halfword| == 2
  {
    (halfword[0] as int + halfword[1] as int * 0x100) / 0x800 >= 0x1d
  }

  ghost predicate NeedsSecondHalfword(c: Config, pc: u32)
    requires AllBacked(c.image)
  {
    c.isa.Thumb? && Fetch(c.image, pc, 2).Some? && IsWide(Fetch(c.image, pc, 2).value)
  }

  /** What the walk finds at an address: a function of the image alone. */
  ghost function DecodeAt(c: Config, pc: u32): DecodedAt
    requires AllBacked(c.image)
  {
    if c.isa.Arm? || NeedsSecondHalfword(c, pc) then Decode(c, pc, Fetch(c.image, pc, 4))
    else Decode(c, pc, Fetch(c.image, pc, 2))
  }

  /** The bytes charged for looking at an address, found or not. */
  ghost function Cost(c: Config, pc: u32): nat
    requires AllBacked(c.image)
  {
    if c.isa.Arm? || NeedsSecondHalfword(c, pc) then 4 else 2
  }

  predicate PcInWindow(c: Config, pc: u32) {
    c.maxAddressSpan.Some? ==> 0 <= pc - c.entry < c.maxAddressSpan.value
  }

  predicate ExtentInWindow(c: Config, pc: u32, end: int) {
    c.maxAddressSpan.Some? ==>
      0 <= pc - c.entry < c.maxAddressSpan.value && 0 <= end - c.entry <= c.maxAddressSpan.value
  }

  /** The address holds an instruction the walk keeps. */
  ghost predicate Decodable(c: Config, pc: u32)
    requires AllBacked(c.image)
  {
    && DecodeAt(c, pc).AtInstruction?
    && ExtentInWindow(c, pc, pc + DecodeAt(c, pc).instruction.length)
  }

  /** Why an address that was looked at holds no instruction the walk keeps. */
  ghost function FailureAt(c: Config, pc: u32): BoundaryKind
    requires AllBacked(c.image) && !Decodable(c, pc)
  {
    if DecodeAt(c, pc).AtBoundary? then DecodeAt(c, pc).kind else Unmapped
  }

  /** The direct edges of an instruction that ends at `next`. */
  function FlowTargets(calls: CallPolicy, i: Instruction, next: u32): set<u32> {
    match i.flow
    case Linear => {next}
    case DirectBranch(target, fallthrough) => {target} + if fallthrough.Some? then {fallthrough.value} else {}
    case DirectCall(_) => {next}
    case ExceptionCall => if i.conditional || calls.Fallthrough? then {next} else {}
    case Return => if i.conditional then {next} else {}
    case Barrier => if i.conditional || (i.linksLr && calls.Fallthrough?) then {next} else {}
  }

  /** The same edges in the order they are followed. */
  function FlowOrder(calls: CallPolicy, i: Instruction, next: u32): seq<u32> {
    if i.flow.DirectBranch? then
      [i.flow.target] + if i.flow.fallthrough.Some? then [i.flow.fallthrough.value] else []
    else if next in FlowTargets(calls, i, next) then [next]
    else []
  }

  /** The handoff an instruction is by itself. */
  function FlowHandoff(calls: CallPolicy, i: Instruction): Option<BoundaryKind> {
    match i.flow
    case Linear => None
    case DirectBranch(_, _) => None
    case DirectCall(_) => if calls.FallthroughAndHandoff? then Some(CallBoundary) else None
    case ExceptionCall => Some(ExceptionCallBoundary)
    case Return => Some(ReturnBoundary)
    case Barrier => Some(Indirect)
  }

  /** Branches and calls start basic blocks at their targets; falling through a linear instruction does not. */
  predicate StartsBlocks(i: Instruction) {
    !i.flow.Linear?
  }

  /** The edges of the image itself. */
  ghost function StaticTargets(c: Config, pc: u32): set<u32>
    requires AllBacked(c.image)
  {
    if Decodable(c, pc) && pc + DecodeAt(c, pc).instruction.length < LIMIT32 then
      FlowTargets(c.calls, DecodeAt(c, pc).instruction, pc + DecodeAt(c, pc).instruction.length)
    else {}
  }

  /** The decoder agrees with the walk about the address, the instruction set and the length; no IT block opens. */
  ghost predicate Accepted(c: Config, pc: u32)
    requires AllBacked(c.image)
  {
    && DecodeAt(c, pc).AtInstruction? && !DecodeAt(c, pc).itOpen
    && var i := DecodeAt(c, pc).instruction;
    && i.pc == pc && i.isa == c.isa && ValidLength(c.isa, i.length) && pc + i.length < LIMIT32
  }

  /** Direct targets are aligned, and a branch falls through to its own end. */
  ghost predicate FlowSound(c: Config, pc: u32)
    requires AllBacked(c.image)
  {
    DecodeAt(c, pc).AtInstruction? ==>
      var i := DecodeAt(c, pc).instruction;
      && (forall t | t in StaticTargets(c, pc) :: IsAligned(t, c.isa))
      && (i.flow.DirectBranch? && i.flow.fallthrough.Some? ==> i.flow.fallthrough.value == pc + i.length)
      && (i.flow.DirectCall? ==> IsAligned(i.flow.target, c.isa))
  }

  /** A chain of kept instructions from the entry, each in the window and a target of the one before. */
  ghost predicate IsTrail(c: Config, p: seq<u32>)
    requires AllBacked(c.image)
  {
    && p != [] && p[0] == c.entry
    && (forall k | 0 <= k < |p| :: Decodable(c, p[k]))
    && (forall k | 0 < k < |p| :: p[k] in StaticTargets(c, p[k - 1]) && PcInWindow(c, p[k]))
  }

  /** The address is kept by every successful walk. */
  ghost predicate Reached(c: Config, pc: u32)
    requires AllBacked(c.image)
  {
    exists p :: IsTrail(c, p) && p[|p| - 1] == pc
  }

  /** The walk looks at the address: the entry, or an in-window target of a reached instruction. */
  ghost predicate Sought(c: Config, pc: u32)
    requires AllBacked(c.image)
  {
    pc == c.entry || (PcInWindow(c, pc) && exists s :: Reached(c, s) && pc in StaticTargets(c, s))
  }

  ghost predicate BadInstruction(c: Config, pc: u32)
    requires AllBacked(c.image)
  {
    Sought(c, pc) && DecodeAt(c, pc).AtInstruction? && !Accepted(c, pc)
  }

  ghost predicate EntersInstruction(c: Config, a: u32, b: u32)
    requires AllBacked(c.image)
  {
    Reached(c, a) && Sought(c, b) && DecodeAt(c, a).AtInstruction? && a < b < a + DecodeAt(c, a).instruction.length
  }

  ghost predicate BadFlow(c: Config, pc: u32)
    requires AllBacked(c.image)
  {
    Reached(c, pc) && !FlowSound(c, pc)
  }

  /** The code reached from the entry breaks a rule of the walk, whatever the limits. */
  ghost predicate Malformed(c: Config)
    requires AllBacked(c.image)
  {
    || !IsAligned(c.entry, c.isa)
    || (exists pc :: BadInstruction(c, pc))
    || (exists a, b :: EntersInstruction(c, a, b))
    || (exists pc :: BadFlow(c, pc))
  }

  ghost predicate ReachedOverlap(c: Config, a: u32, b: u32)
    requires AllBacked(c.image)
  {
    Reached(c, b) && EntersInstruction(c, a, b)
  }

  /** Codes that no walk accepts, in whatever order it attempts them. */
  ghost predicate AlwaysRefused(c: Config)
    requires AllBacked(c.image)
  {
    || !IsAligned(c.entry, c.isa)
    || (exists pc :: BadInstruction(c, pc))
    || (exists a, b :: ReachedOverlap(c, a, b))
    || (exists pc :: BadFlow(c, pc))
  }

  function Saturated(n: nat): u64 {
    if n < LIMIT64 then n else LIMIT64 - 1
  }

  /** The bytes charged for a sequence of attempts. */
  ghost function TotalCost(c: Config, history: seq<u32>): nat
    requires AllBacked(c.image)
  {
    if history == [] then 0 else TotalCost(c, history[..|history| - 1]) + Cost(c, history[|history| - 1])
  }

  /** Distinct addresses that the walk looks at. */
  ghost predicate AllSought(c: Config, history: seq<u32>)
    requires AllBacked(c.image)
  {
    && (forall i | 0 <= i < |history| :: Sought(c, history[i]))
    && (forall i, j | 0 <= i < j < |history| :: history[i] != history[j])
  }

  /** A target of a reached branch or call. */
  ghost predicate BranchesTo(c: Config, s: u32, t: u32)
    requires AllBacked(c.image)
  {
    && Reached(c, s) && DecodeAt(c, s).AtInstruction? && StartsBlocks(DecodeAt(c, s).instruction)
    && t in StaticTargets(c, s)
  }

  ghost predicate AllBlocks(c: Config, starts: set<u32>)
    requires AllBacked(c.image)
  {
    forall b | b in starts :: b == c.entry || (PcInWindow(c, b) && exists s :: BranchesTo(c, s, b))
  }

  /** The reached code itself is too large for one of the limits. */
  ghost predicate LimitPassed(c: Config, e: SemanticCfgError)
    requires AllBacked(c.image) && e.ResourceLimit?
  {
    && e.actual > e.limit
    && (|| (e.what == "charged bytes" && e.limit == c.limits.maxChargedBytes
            && exists h :: AllSought(c, h) && e.actual <= Saturated(TotalCost(c, h)))
        || (e.what == "instructions" && e.limit == c.limits.maxInstructions
            && exists h :: AllSought(c, h) && e.actual == |h|)
        || (e.what == "blocks" && e.limit == c.limits.maxBlocks
            && exists b :: AllBlocks(c, b) && e.actual == |b|))
  }

  /** A refusal is the fault of the reached code: it breaks a rule, or it is too large for a limit. */
  ghost predicate Justified(c: Config, e: SemanticCfgError)
    requires AllBacked(c.image)
  {
    if e.ResourceLimit? then LimitPassed(c, e) else Malformed(c)
  }

  // ---------------------------------------------------------------- walk states

  datatype Walk = Walk(
    instructions: map<u32, Instruction>,
    extents: map<u32, u32>,
    successors: Adjacency,
    incoming: Adjacency,
    failedTargets: map<u32, BoundaryKind>,
    handoffs: set<Handoff>,
    blockStarts: set<u32>,
    pending: seq<u32>,
    queued: set<u32>,
    attempted: set<u32>)

  /** Everything attempted was kept or failed, as the image says. */
  ghost predicate OutcomesOk(c: Config, w: Walk)
    requires AllBacked(c.image)
  {
    && w.extents.Keys == w.instructions.Keys
    && w.attempted == w.instructions.Keys + w.failedTargets.Keys
    && (w.instructions.Keys != {} ==> c.entry in w.instructions)
    && (forall pc | pc in w.instructions :: KeptOk(c, w, pc))
    && (forall pc | pc in w.failedTargets :: FailedOk(c, w, pc))
  }

  ghost predicate FailedOk(c: Config, w: Walk, pc: u32)
    requires AllBacked(c.image) && pc in w.failedTargets
  {
    && !Decodable(c, pc) && w.failedTargets[pc] == FailureAt(c, pc) && Sought(c, pc)
    && (DecodeAt(c, pc).AtInstruction? ==> Accepted(c, pc))
  }

  ghost predicate KeptOk(c: Config, w: Walk, pc: u32)
    requires AllBacked(c.image) && pc in w.instructions
  {
    && Decodable(c, pc) && w.instructions[pc] == DecodeAt(c, pc).instruction
    && pc in w.extents && w.extents[pc] == pc + w.instructions[pc].length
    && IsAligned(pc, c.isa) && Accepted(c, pc)
  }

  /** No two extents share an address. */
  ghost predicate ExtentsDisjoint(extents: map<u32, u32>) {
    && (forall a | a in extents :: a < extents[a])
    && (forall a, b | a in extents && b in extents && a < b :: extents[a] <= b)
  }

  ghost predicate EdgesMirrored(w: Walk) {
    forall s, t :: s in Targets(w.incoming, t) <==> t in Targets(w.successors, s)
  }

  /** Every kept instruction, other than the one being followed, has all its edges recorded. */
  ghost predicate EdgesRecorded(c: Config, w: Walk, current: Option<u32>)
    requires AllBacked(c.image)
  {
    && (forall s | s in w.successors :: s in w.instructions)
    && (forall s | s in w.instructions && current != Some(s) :: EdgesComplete(c, w, s))
    && (forall s | s in w.instructions :: Targets(w.successors, s) <= StaticTargets(c, s))
  }

  ghost predicate EdgesComplete(c: Config, w: Walk, s: u32)
    requires AllBacked(c.image)
  {
    Targets(w.successors, s) == StaticTargets(c, s) && FlowSound(c, s)
  }

  /** A recorded edge leads to a kept instruction, to a handoff at its source, or to queued work. */
  ghost predicate EdgeAccounted(c: Config, w: Walk, s: u32, t: u32) {
    if !PcInWindow(c, t) then Handoff(s, Unmapped) in w.handoffs
    else if t in w.failedTargets then Handoff(s, w.failedTargets[t]) in w.handoffs
    else t in w.instructions || t in w.pending
  }

  ghost predicate EdgesAccounted(c: Config, w: Walk) {
    forall s, t | t in Targets(w.successors, s) :: EdgeAccounted(c, w, s, t)
  }

  /** A handoff is an instruction's own, or marks an edge that leaves the window or failed, or a failed entry. */
  ghost predicate HandoffJustified(c: Config, w: Walk, h: Handoff) {
    || (h.pc in w.instructions && FlowHandoff(c.calls, w.instructions[h.pc]) == Some(h.kind))
    || (exists t :: t in Targets(w.successors, h.pc) && EdgeFails(c, w, t, h.kind))
    || (h.pc == c.entry && h.pc in w.failedTargets && h.kind == w.failedTargets[h.pc])
  }

  ghost predicate EdgeFails(c: Config, w: Walk, t: u32, kind: BoundaryKind) {
    (!PcInWindow(c, t) && kind == Unmapped) || (t in w.failedTargets && kind == w.failedTargets[t])
  }

  ghost predicate HandoffsOk(c: Config, w: Walk, current: Option<u32>) {
    && (forall h | h in w.handoffs :: HandoffJustified(c, w, h))
    && (forall s | s in w.instructions && current != Some(s) && FlowHandoff(c.calls, w.instructions[s]).Some? ::
          Handoff(s, FlowHandoff(c.calls, w.instructions[s]).value) in w.handoffs)
    && (c.entry in w.failedTargets ==> Handoff(c.entry, w.failedTargets[c.entry]) in w.handoffs)
  }

  /** Queued work is the entry or an in-window target of a kept instruction. */
  ghost predicate QueueJustified(c: Config, w: Walk, q: u32) {
    q == c.entry || (PcInWindow(c, q) && exists s :: s in w.instructions && q in Targets(w.successors, s))
  }

  ghost predicate QueueOk(c: Config, w: Walk) {
    && (forall q | q in w.queued :: q in w.pending)
    && (forall q | q in w.pending :: IsAligned(q, c.isa) && QueueJustified(c, w, q))
    && (c.entry in w.pending || c.entry in w.attempted)
  }

  ghost predicate AllReachedByTrail(c: Config, w: Walk)
    requires AllBacked(c.image)
  {
    forall pc | pc in w.instructions :: Reached(c, pc)
  }

  ghost predicate IsBlockEdge(w: Walk, s: u32, t: u32) {
    s in w.instructions && StartsBlocks(w.instructions[s]) && t in Targets(w.successors, s)
  }

  /** The block starts are the entry and the in-window targets of branches and calls that did not fail. */
  ghost predicate BlocksOk(c: Config, w: Walk) {
    && c.entry in w.blockStarts
    && (forall b | b in w.blockStarts && b != c.entry :: PcInWindow(c, b) && exists s :: IsBlockEdge(w, s, b))
    && (forall s, t | IsBlockEdge(w, s, t) && PcInWindow(c, t) && t !in w.failedTargets :: t in w.blockStarts)
  }

  ghost predicate Walking(c: Config, w: Walk, current: Option<u32>) {
    && ValidImage(c.image)
    && OutcomesOk(c, w)
    && ExtentsDisjoint(w.extents)
    && EdgesMirrored(w)
    && EdgesRecorded(c, w, current)
    && EdgesAccounted(c, w)
    && HandoffsOk(c, w, current)
    && QueueOk(c, w)
    && AllReachedByTrail(c, w)
    && BlocksOk(c, w)
  }
}
