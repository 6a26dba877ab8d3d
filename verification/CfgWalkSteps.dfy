/** Each step of the decode walk keeps the walk invariant, and a finished walk kept what is reached. */
module CfgWalkSteps {
  import opened Words
  import opened ControlGraph
  import opened Arm32
  import opened RuntimeImage
  import opened CfgWalk

  function AddEdge(adjacency: Adjacency, from: u32, to: u32): (r: Adjacency)
    ensures forall n :: Targets(r, n) == Targets(adjacency, n) + if n == from then {to} else {}
    ensures r.Keys == adjacency.Keys + {from}
  {
    adjacency[from := Targets(adjacency, from) + {to}]
  }

  function Opening(entry: u32): Walk {
    Walk(map[], map[], map[], map[], map[], {}, {entry}, [entry], {entry}, {})
  }

  lemma OpeningWalks(c: Config)
    requires ValidImage(c.image) && IsAligned(c.entry, c.isa)
    ensures Walking(c, Opening(c.entry), None)
  {
  }

  // ---------------------------------------------------------------- taking work off the queue

  function Popped(w: Walk): Walk
    requires w.pending != []
  {
    w.(pending := w.pending[1..], queued := w.queued - {w.pending[0]})
  }

  lemma PoppedQueue(c: Config, w: Walk)
    requires QueueOk(c, w) && w.pending != []
    ensures IsAligned(w.pending[0], c.isa) && QueueJustified(c, w, w.pending[0])
    ensures forall q | q in Popped(w).queued :: q in w.pending[1..]
    ensures forall q | q in w.pending[1..] :: q in w.pending
    ensures forall q | q in w.pending && q != w.pending[0] :: q in w.pending[1..]
  {
    assert w.pending[0] in w.pending;
    assert w.pending == [w.pending[0]] + w.pending[1..];
  }

  lemma WalkingFacts(c: Config, w: Walk, current: Option<u32>)
    requires Walking(c, w, current)
    ensures ValidImage(c.image) && AllBacked(c.image)
    ensures OutcomesOk(c, w) && QueueOk(c, w) && EdgesRecorded(c, w, current) && EdgesAccounted(c, w)
    ensures AllReachedByTrail(c, w) && HandoffsOk(c, w, current) && BlocksOk(c, w) && EdgesMirrored(w)
    ensures ExtentsDisjoint(w.extents)
  {
    hide OutcomesOk, QueueOk, EdgesRecorded, EdgesAccounted, AllReachedByTrail, HandoffsOk, BlocksOk, EdgesMirrored,
         ExtentsDisjoint;
    ValidIsBacked(c.image);
  }

  lemma WalkingFrom(c: Config, w: Walk, current: Option<u32>)
    requires ValidImage(c.image) && AllBacked(c.image)
    requires OutcomesOk(c, w) && QueueOk(c, w) && EdgesRecorded(c, w, current) && EdgesAccounted(c, w)
    requires AllReachedByTrail(c, w) && HandoffsOk(c, w, current) && BlocksOk(c, w) && EdgesMirrored(w)
    requires ExtentsDisjoint(w.extents)
    ensures Walking(c, w, current)
  {
    hide OutcomesOk, QueueOk, EdgesRecorded, EdgesAccounted, AllReachedByTrail, HandoffsOk, BlocksOk, EdgesMirrored,
         ExtentsDisjoint, ValidImage;
  }

  lemma SkipKeeps(c: Config, w: Walk)
    requires Walking(c, w, None) && w.pending != [] && w.pending[0] in w.attempted
    ensures Walking(c, Popped(w), None)
  {
    hide *;
    WalkingFacts(c, w, None);
    SkipAccounted(c, w);
    SkipOutcomes(c, w);
    SkipEdges(c, w);
    SkipBlocks(c, w);
    SkipQueue(c, w);
    SkipHandoffs(c, w);
    WalkingFrom(c, Popped(w), None);
  }

  lemma SkipOutcomes(c: Config, w: Walk)
    requires AllBacked(c.image) && OutcomesOk(c, w) && w.pending != []
    ensures OutcomesOk(c, Popped(w))
  {
    forall pc | pc in w.failedTargets
      ensures FailedOk(c, Popped(w), pc)
    {
      assert FailedOk(c, w, pc);
    }
    forall pc | pc in w.instructions
      ensures KeptOk(c, Popped(w), pc)
    {
      assert KeptOk(c, w, pc);
    }
  }

  lemma SkipEdges(c: Config, w: Walk)
    requires AllBacked(c.image) && EdgesRecorded(c, w, None) && EdgesMirrored(w) && AllReachedByTrail(c, w)
    requires w.pending != []
    ensures EdgesRecorded(c, Popped(w), None) && EdgesMirrored(Popped(w)) && AllReachedByTrail(c, Popped(w))
    ensures Popped(w).extents == w.extents
  {
    hide StaticTargets, FlowSound, Targets, Reached;
  }

  lemma SkipBlocks(c: Config, w: Walk)
    requires BlocksOk(c, w) && w.pending != []
    ensures BlocksOk(c, Popped(w))
  {
    forall b | b in w.blockStarts && b != c.entry
      ensures PcInWindow(c, b) && exists s :: IsBlockEdge(Popped(w), s, b)
    {
      var s :| IsBlockEdge(w, s, b);
      assert IsBlockEdge(Popped(w), s, b);
    }
    forall s, t | IsBlockEdge(Popped(w), s, t) && PcInWindow(c, t) && t !in w.failedTargets
      ensures t in w.blockStarts
    {
      assert IsBlockEdge(w, s, t);
    }
  }

  lemma SkipQueue(c: Config, w: Walk)
    requires QueueOk(c, w) && w.pending != [] && w.pending[0] in w.attempted
    ensures QueueOk(c, Popped(w))
  {
    PoppedQueue(c, w);
  }

  lemma SkipHandoffs(c: Config, w: Walk)
    requires HandoffsOk(c, w, None) && w.pending != []
    ensures HandoffsOk(c, Popped(w), None)
  {
    forall h | h in w.handoffs
      ensures HandoffJustified(c, Popped(w), h)
    {
      assert HandoffJustified(c, w, h);
      SameJustification(c, w, Popped(w), h);
    }
  }

  /** A justification survives when nothing it rests on goes away. */
  lemma SameJustification(c: Config, w: Walk, v: Walk, h: Handoff)
    requires HandoffJustified(c, w, h)
    requires forall pc | pc in w.instructions :: pc in v.instructions && v.instructions[pc] == w.instructions[pc]
    requires forall pc | pc in w.failedTargets :: pc in v.failedTargets && v.failedTargets[pc] == w.failedTargets[pc]
    requires forall s :: Targets(w.successors, s) <= Targets(v.successors, s)
    ensures HandoffJustified(c, v, h)
  {
    if exists t :: t in Targets(w.successors, h.pc) && EdgeFails(c, w, t, h.kind) {
      var t :| t in Targets(w.successors, h.pc) && EdgeFails(c, w, t, h.kind);
      assert t in Targets(v.successors, h.pc) && EdgeFails(c, v, t, h.kind);
    }
  }

  lemma SkipAccounted(c: Config, w: Walk)
    requires AllBacked(c.image) && OutcomesOk(c, w) && w.pending != [] && w.pending[0] in w.attempted
    requires EdgesAccounted(c, w)
    ensures EdgesAccounted(c, Popped(w))
  {
    forall s, t | t in Targets(w.successors, s)
      ensures EdgeAccounted(c, Popped(w), s, t)
    {
      assert EdgeAccounted(c, w, s, t);
      assert t in w.pending ==> t == w.pending[0] || t in w.pending[1..];
    }
  }

  // ---------------------------------------------------------------- a target that fails

  function FailureHandoffs(w: Walk, pc: u32, kind: BoundaryKind): set<Handoff> {
    if Targets(w.incoming, pc) == {} then {Handoff(pc, kind)}
    else set s | s in Targets(w.incoming, pc) :: Handoff(s, kind)
  }

  function Failed(w: Walk, kind: BoundaryKind): Walk
    requires w.pending != []
  {
    var pc := w.pending[0];
    Popped(w).(failedTargets := w.failedTargets[pc := kind], attempted := w.attempted + {pc},
               handoffs := w.handoffs + FailureHandoffs(w, pc, kind))
  }

  /** Only the entry can be queued without an incoming edge. */
  lemma QueuedHasIncoming(c: Config, w: Walk)
    requires QueueOk(c, w) && EdgesMirrored(w) && w.pending != []
    ensures w.pending[0] != c.entry ==> Targets(w.incoming, w.pending[0]) != {}
  {
    PoppedQueue(c, w);
    var pc := w.pending[0];
    if pc != c.entry {
      var s :| s in w.instructions && pc in Targets(w.successors, s);
      assert s in Targets(w.incoming, pc);
    }
  }

  /** An edge back to the entry can only come from a walk that has attempted the entry. */
  lemma EntryHasIncoming(c: Config, w: Walk)
    requires AllBacked(c.image) && OutcomesOk(c, w) && EdgesMirrored(w) && EdgesRecorded(c, w, None)
    ensures Targets(w.incoming, c.entry) != {} ==> c.entry in w.attempted
  {
    if s :| s in Targets(w.incoming, c.entry) {
      assert c.entry in Targets(w.successors, s);
    }
  }

  /** Queued work is sought: the entry, or a target of a reached instruction. */
  lemma HeadSought(c: Config, w: Walk)
    requires AllBacked(c.image) && QueueOk(c, w) && EdgesRecorded(c, w, None) && AllReachedByTrail(c, w)
    requires w.pending != []
    ensures Sought(c, w.pending[0])
  {
    PoppedQueue(c, w);
    hide Reached, StaticTargets, PcInWindow;
  }

  lemma FailedEach(c: Config, w: Walk, kind: BoundaryKind, pc: u32)
    requires AllBacked(c.image) && OutcomesOk(c, w) && w.pending != []
    requires !Decodable(c, w.pending[0]) && kind == FailureAt(c, w.pending[0])
    requires DecodeAt(c, w.pending[0]).AtInstruction? ==> Accepted(c, w.pending[0])
    requires Sought(c, w.pending[0])
    requires pc in Failed(w, kind).failedTargets
    ensures FailedOk(c, Failed(w, kind), pc)
  {
    hide Sought, Decodable, FailureAt, KeptOk, FailureHandoffs;
    if pc != w.pending[0] {
      assert FailedOk(c, w, pc);
    }
  }

  lemma FailOutcomes(c: Config, w: Walk, kind: BoundaryKind)
    requires AllBacked(c.image) && OutcomesOk(c, w) && w.pending != [] && w.pending[0] !in w.attempted
    requires !Decodable(c, w.pending[0]) && kind == FailureAt(c, w.pending[0])
    requires DecodeAt(c, w.pending[0]).AtInstruction? ==> Accepted(c, w.pending[0])
    requires Sought(c, w.pending[0])
    ensures OutcomesOk(c, Failed(w, kind))
  {
    hide Sought, Decodable, FailureAt, Accepted, DecodeAt, IsAligned, FailureHandoffs, FailedOk;
    var v := Failed(w, kind);
    forall pc | pc in v.failedTargets
      ensures FailedOk(c, v, pc)
    {
      FailedEach(c, w, kind, pc);
    }
    forall pc | pc in w.instructions
      ensures KeptOk(c, v, pc)
    {
      assert KeptOk(c, w, pc);
    }
  }

  lemma FailAccounted(c: Config, w: Walk, kind: BoundaryKind)
    requires AllBacked(c.image) && OutcomesOk(c, w) && w.pending != [] && w.pending[0] !in w.attempted
    requires EdgesAccounted(c, w) && EdgesMirrored(w)
    ensures EdgesAccounted(c, Failed(w, kind))
  {
    var v := Failed(w, kind);
    var pc := w.pending[0];
    forall s, t | t in Targets(v.successors, s)
      ensures EdgeAccounted(c, v, s, t)
    {
      assert EdgeAccounted(c, w, s, t);
      if t == pc {
        assert s in Targets(w.incoming, pc);
        assert Handoff(s, kind) in FailureHandoffs(w, pc, kind);
      }
      assert t in w.pending ==> t == pc || t in w.pending[1..];
    }
  }

  lemma FailHandoffs(c: Config, w: Walk, kind: BoundaryKind)
    requires AllBacked(c.image) && OutcomesOk(c, w) && EdgesMirrored(w) && EdgesRecorded(c, w, None)
    requires HandoffsOk(c, w, None) && QueueOk(c, w) && w.pending != [] && w.pending[0] !in w.attempted
    ensures HandoffsOk(c, Failed(w, kind), None)
  {
    QueuedHasIncoming(c, w);
    EntryHasIncoming(c, w);
    FailedFacts(c, w, kind);
    var v := Failed(w, kind);
    hide Failed, OutcomesOk, EdgesRecorded, QueueOk, FailureHandoffs, Targets, FlowHandoff, HandoffJustified;
    forall h | h in v.handoffs
      ensures HandoffJustified(c, v, h)
    {
      FailJustified(c, w, kind, h);
    }
  }

  lemma FailedFacts(c: Config, w: Walk, kind: BoundaryKind)
    requires AllBacked(c.image) && OutcomesOk(c, w) && w.pending != [] && w.pending[0] !in w.attempted
    ensures var v, pc := Failed(w, kind), w.pending[0];
            && v.instructions == w.instructions && v.successors == w.successors
            && v.failedTargets == w.failedTargets[pc := kind] && pc !in w.failedTargets
            && w.handoffs <= v.handoffs
            && (Targets(w.incoming, pc) == {} ==> Handoff(pc, kind) in v.handoffs)
            && (forall h | h in v.handoffs && h !in w.handoffs ::
                  && h.kind == kind
                  && if Targets(w.incoming, pc) == {} then h.pc == pc else h.pc in Targets(w.incoming, pc))
            && (c.entry in w.failedTargets ==> c.entry in w.attempted)
            && (forall s | s in Targets(w.incoming, pc) :: Handoff(s, kind) in v.handoffs)
  {
    hide KeptOk, FailedOk, Targets;
  }

  lemma FailJustified(c: Config, w: Walk, kind: BoundaryKind, h: Handoff)
    requires AllBacked(c.image) && OutcomesOk(c, w) && EdgesMirrored(w) && HandoffsOk(c, w, None)
    requires w.pending != [] && w.pending[0] !in w.attempted && h in Failed(w, kind).handoffs
    requires w.pending[0] != c.entry ==> Targets(w.incoming, w.pending[0]) != {}
    ensures HandoffJustified(c, Failed(w, kind), h)
  {
    FailedFacts(c, w, kind);
    hide Failed, OutcomesOk, FailureHandoffs, Targets, FlowHandoff, PcInWindow;
    var v, pc := Failed(w, kind), w.pending[0];
    if h in w.handoffs {
      assert HandoffJustified(c, w, h);
      SameJustification(c, w, v, h);
    } else if Targets(w.incoming, pc) != {} {
      assert pc in Targets(v.successors, h.pc) && EdgeFails(c, v, pc, h.kind);
    }
  }

  lemma FailQueue(c: Config, w: Walk, kind: BoundaryKind)
    requires QueueOk(c, w) && w.pending != []
    ensures QueueOk(c, Failed(w, kind))
  {
    PoppedQueue(c, w);
    var v := Failed(w, kind);
    forall q | q in v.pending
      ensures QueueJustified(c, v, q)
    {
      assert QueueJustified(c, w, q);
    }
  }

  lemma FailBlocks(c: Config, w: Walk, kind: BoundaryKind)
    requires BlocksOk(c, w) && w.pending != []
    ensures BlocksOk(c, Failed(w, kind))
  {
    var v := Failed(w, kind);
    forall b | b in w.blockStarts && b != c.entry
      ensures PcInWindow(c, b) && exists s :: IsBlockEdge(v, s, b)
    {
      var s :| IsBlockEdge(w, s, b);
      assert IsBlockEdge(v, s, b);
    }
    forall s, t | IsBlockEdge(v, s, t) && PcInWindow(c, t) && t !in v.failedTargets
      ensures t in v.blockStarts
    {
      assert IsBlockEdge(w, s, t);
    }
  }

  lemma FailEdges(c: Config, w: Walk, kind: BoundaryKind)
    requires AllBacked(c.image) && w.pending != []
    requires EdgesMirrored(w) && EdgesRecorded(c, w, None) && AllReachedByTrail(c, w)
    ensures EdgesMirrored(Failed(w, kind)) && EdgesRecorded(c, Failed(w, kind), None)
    ensures AllReachedByTrail(c, Failed(w, kind)) && Failed(w, kind).extents == w.extents
  {
  }

  /** An address that holds nothing to keep is recorded at every edge that leads there. */
  lemma FailKeeps(c: Config, w: Walk, kind: BoundaryKind)
    requires Walking(c, w, None) && w.pending != [] && w.pending[0] !in w.attempted
    requires !Decodable(c, w.pending[0]) && kind == FailureAt(c, w.pending[0])
    requires DecodeAt(c, w.pending[0]).AtInstruction? ==> Accepted(c, w.pending[0])
    ensures Walking(c, Failed(w, kind), None)
  {
    hide OutcomesOk, EdgesAccounted, HandoffsOk, QueueOk, BlocksOk, Failed, Sought, EdgesRecorded, EdgesMirrored,
         AllReachedByTrail, ExtentsDisjoint, ValidImage;
    ValidIsBacked(c.image);
    FailAccounted(c, w, kind);
    HeadSought(c, w);
    FailOutcomes(c, w, kind);
    FailHandoffs(c, w, kind);
    FailQueue(c, w, kind);
    FailBlocks(c, w, kind);
    FailEdges(c, w, kind);
  }

  // ---------------------------------------------------------------- an instruction that is kept

  function Kept(w: Walk, i: Instruction, end: u32): Walk
    requires w.pending != []
  {
    var pc := w.pending[0];
    Popped(w).(instructions := w.instructions[pc := i], extents := w.extents[pc := end],
               attempted := w.attempted + {pc})
  }

  /** The conditions under which the walk keeps the address at the head of the queue. */
  ghost predicate Keeps(c: Config, w: Walk, i: Instruction, end: u32)
    requires AllBacked(c.image)
  {
    && w.pending != [] && w.pending[0] !in w.attempted
    && Decodable(c, w.pending[0]) && i == DecodeAt(c, w.pending[0]).instruction
    && end == w.pending[0] + i.length && Accepted(c, w.pending[0])
  }

  /** Looking only at the neighbours finds every overlap. */
  ghost predicate NoNeighbourOverlap(extents: map<u32, u32>, pc: u32, end: u32) {
    && (forall a | a in extents && IsPrior(extents.Keys, pc, a) :: extents[a] <= pc)
    && (forall a | a in extents && IsNext(extents.Keys, pc, a) :: end <= a)
  }

  /** The greatest start below `pc`. */
  ghost predicate IsPrior(starts: set<u32>, pc: u32, a: u32) {
    a in starts && a < pc && forall b | b in starts && b < pc :: b <= a
  }

  /** The least start above `pc`. */
  ghost predicate IsNext(starts: set<u32>, pc: u32, a: u32) {
    a in starts && pc < a && forall b | b in starts && pc < b :: a <= b
  }

  lemma {:induction false} GreatestBelow(keys: set<u32>, pc: u32, a: u32) returns (g: u32)
    requires a in keys && a < pc
    ensures IsPrior(keys, pc, g) && a <= g
    decreases pc - a
  {
    if b :| b in keys && a < b < pc {
      g := GreatestBelow(keys, pc, b);
    } else {
      g := a;
    }
  }

  lemma {:induction false} LeastAbove(keys: set<u32>, pc: u32, a: u32) returns (g: u32)
    requires a in keys && pc < a
    ensures IsNext(keys, pc, g) && g <= a
    decreases a - pc
  {
    if b :| b in keys && pc < b < a {
      g := LeastAbove(keys, pc, b);
    } else {
      g := a;
    }
  }

  lemma ClearBelow(extents: map<u32, u32>, pc: u32, end: u32, a: u32)
    requires ExtentsDisjoint(extents) && NoNeighbourOverlap(extents, pc, end) && a in extents && a < pc
    ensures extents[a] <= pc
  {
    var g := GreatestBelow(extents.Keys, pc, a);
    assert g in extents && extents[g] <= pc;
  }

  lemma ClearAbove(extents: map<u32, u32>, pc: u32, end: u32, a: u32)
    requires NoNeighbourOverlap(extents, pc, end) && a in extents && pc < a
    ensures end <= a
  {
    var g := LeastAbove(extents.Keys, pc, a);
    assert g in extents && end <= g;
  }

  lemma NeighboursSuffice(extents: map<u32, u32>, pc: u32, end: u32)
    requires ExtentsDisjoint(extents) && pc !in extents && pc < end && NoNeighbourOverlap(extents, pc, end)
    ensures ExtentsDisjoint(extents[pc := end])
  {
    hide NoNeighbourOverlap;
    forall a | a in extents && a < pc
      ensures extents[a] <= pc
    {
      ClearBelow(extents, pc, end, a);
    }
    forall a | a in extents && pc < a
      ensures end <= a
    {
      ClearAbove(extents, pc, end, a);
    }
  }

  lemma TrailMore(c: Config, p: seq<u32>, pc: u32)
    requires AllBacked(c.image) && IsTrail(c, p) && Decodable(c, pc)
    requires pc in StaticTargets(c, p[|p| - 1]) && PcInWindow(c, pc)
    ensures IsTrail(c, p + [pc])
  {
    hide Decodable, StaticTargets, PcInWindow;
  }

  lemma EntryReached(c: Config)
    requires AllBacked(c.image) && Decodable(c, c.entry)
    ensures Reached(c, c.entry)
  {
    assert IsTrail(c, [c.entry]);
  }

  lemma TargetReached(c: Config, s: u32, pc: u32)
    requires AllBacked(c.image) && Reached(c, s) && Decodable(c, pc)
    requires pc in StaticTargets(c, s) && PcInWindow(c, pc)
    ensures Reached(c, pc)
  {
    hide Decodable, StaticTargets, PcInWindow, DecodeAt;
    var p :| IsTrail(c, p) && p[|p| - 1] == s;
    TrailMore(c, p, pc);
    assert (p + [pc])[|p + [pc]| - 1] == pc;
  }

  lemma HeadReached(c: Config, w: Walk, i: Instruction, end: u32)
    requires AllBacked(c.image) && Keeps(c, w, i, end) && OutcomesOk(c, w) && QueueOk(c, w)
    requires EdgesRecorded(c, w, None) && AllReachedByTrail(c, w)
    ensures Reached(c, w.pending[0])
    ensures w.pending[0] != c.entry ==> c.entry in w.instructions
  {
    var pc := w.pending[0];
    PoppedQueue(c, w);
    hide Decodable, StaticTargets, PcInWindow, DecodeAt, Reached, QueueOk;
    if pc == c.entry {
      EntryReached(c);
    } else {
      var s :| s in w.instructions && pc in Targets(w.successors, s);
      TargetReached(c, s, pc);
    }
  }

  lemma KeepFailed(c: Config, w: Walk, v: Walk, pc: u32)
    requires AllBacked(c.image) && pc in w.failedTargets && v.failedTargets == w.failedTargets && FailedOk(c, w, pc)
    ensures FailedOk(c, v, pc)
  {
    hide Sought, Decodable, FailureAt, Accepted, DecodeAt;
  }

  lemma KeepEarlier(c: Config, w: Walk, v: Walk, pc: u32)
    requires AllBacked(c.image) && pc in w.instructions && KeptOk(c, w, pc)
    requires pc in v.instructions && v.instructions[pc] == w.instructions[pc]
    requires pc in v.extents && pc in w.extents && v.extents[pc] == w.extents[pc]
    ensures KeptOk(c, v, pc)
  {
    hide Decodable, Accepted, DecodeAt, IsAligned;
  }

  lemma KeepLatest(c: Config, w: Walk, i: Instruction, end: u32)
    requires AllBacked(c.image) && Keeps(c, w, i, end) && IsAligned(w.pending[0], c.isa)
    ensures KeptOk(c, Kept(w, i, end), w.pending[0])
  {
    hide Decodable, Accepted, DecodeAt, IsAligned;
  }

  lemma KeptIs(w: Walk, i: Instruction, end: u32)
    requires w.pending != []
    ensures var v, pc := Kept(w, i, end), w.pending[0];
            && v.instructions == w.instructions[pc := i] && v.extents == w.extents[pc := end]
            && v.failedTargets == w.failedTargets && v.attempted == w.attempted + {pc}
  {
  }

  lemma OutcomesParts(c: Config, w: Walk)
    requires AllBacked(c.image) && OutcomesOk(c, w)
    ensures w.extents.Keys == w.instructions.Keys && w.attempted == w.instructions.Keys + w.failedTargets.Keys
    ensures forall pc | pc in w.instructions :: KeptOk(c, w, pc)
    ensures forall pc | pc in w.failedTargets :: FailedOk(c, w, pc)
  {
    hide KeptOk, FailedOk;
  }

  lemma OutcomesFrom(c: Config, v: Walk)
    requires AllBacked(c.image)
    requires v.extents.Keys == v.instructions.Keys && v.attempted == v.instructions.Keys + v.failedTargets.Keys
    requires c.entry in v.instructions
    requires forall pc | pc in v.instructions :: KeptOk(c, v, pc)
    requires forall pc | pc in v.failedTargets :: FailedOk(c, v, pc)
    ensures OutcomesOk(c, v)
  {
    hide KeptOk, FailedOk;
  }

  lemma KeepsHead(c: Config, w: Walk, i: Instruction, end: u32)
    requires AllBacked(c.image) && Keeps(c, w, i, end)
    ensures w.pending != []
  {
    hide Decodable, Accepted, DecodeAt;
  }

  lemma KeepOutcomes(c: Config, w: Walk, i: Instruction, end: u32)
    requires AllBacked(c.image) && Keeps(c, w, i, end) && OutcomesOk(c, w) && QueueOk(c, w)
    requires w.pending[0] != c.entry ==> c.entry in w.instructions
    ensures OutcomesOk(c, Kept(w, i, end))
  {
    hide *;
    KeepsHead(c, w, i, end);
    PoppedQueue(c, w);
    KeptIs(w, i, end);
    KeepLatest(c, w, i, end);
    OutcomesParts(c, w);
    var v, pc := Kept(w, i, end), w.pending[0];
    forall q | q in w.failedTargets
      ensures FailedOk(c, v, q)
    {
      KeepFailed(c, w, v, q);
    }
    forall q | q in v.instructions
      ensures KeptOk(c, v, q)
    {
      if q != pc {
        assert q in w.extents;
        KeepEarlier(c, w, v, q);
      }
    }
    OutcomesFrom(c, v);
  }

  lemma KeepEdges(c: Config, w: Walk, i: Instruction, end: u32)
    requires AllBacked(c.image) && w.pending != [] && w.pending[0] !in w.instructions
    requires EdgesMirrored(w) && EdgesRecorded(c, w, None)
    ensures EdgesMirrored(Kept(w, i, end)) && EdgesRecorded(c, Kept(w, i, end), Some(w.pending[0]))
    ensures Targets(Kept(w, i, end).successors, w.pending[0]) == {}
  {
    hide StaticTargets;
  }

  lemma KeepAccounted(c: Config, w: Walk, i: Instruction, end: u32)
    requires EdgesAccounted(c, w) && w.pending != []
    ensures EdgesAccounted(c, Kept(w, i, end))
  {
    var v := Kept(w, i, end);
    forall s, t | t in Targets(v.successors, s)
      ensures EdgeAccounted(c, v, s, t)
    {
      assert EdgeAccounted(c, w, s, t);
      assert t in w.pending ==> t == w.pending[0] || t in w.pending[1..];
    }
  }

  lemma KeepHandoffs(c: Config, w: Walk, i: Instruction, end: u32)
    requires AllBacked(c.image) && Keeps(c, w, i, end) && OutcomesOk(c, w) && HandoffsOk(c, w, None)
    ensures HandoffsOk(c, Kept(w, i, end), Some(w.pending[0]))
  {
    var v := Kept(w, i, end);
    hide Decodable, DecodeAt, FlowHandoff;
    forall h | h in v.handoffs
      ensures HandoffJustified(c, v, h)
    {
      assert HandoffJustified(c, w, h);
      SameJustification(c, w, v, h);
    }
  }

  lemma KeepQueue(c: Config, w: Walk, i: Instruction, end: u32)
    requires QueueOk(c, w) && w.pending != []
    ensures QueueOk(c, Kept(w, i, end))
  {
    PoppedQueue(c, w);
    var v := Kept(w, i, end);
    forall q | q in v.pending
      ensures QueueJustified(c, v, q)
    {
      assert QueueJustified(c, w, q);
    }
  }

  lemma KeepBlocks(c: Config, w: Walk, i: Instruction, end: u32)
    requires BlocksOk(c, w) && w.pending != [] && w.pending[0] !in w.instructions
    requires Targets(w.successors, w.pending[0]) == {}
    ensures BlocksOk(c, Kept(w, i, end))
  {
    var v := Kept(w, i, end);
    forall b | b in w.blockStarts && b != c.entry
      ensures PcInWindow(c, b) && exists s :: IsBlockEdge(v, s, b)
    {
      var s :| IsBlockEdge(w, s, b);
      assert IsBlockEdge(v, s, b);
    }
    forall s, t | IsBlockEdge(v, s, t) && PcInWindow(c, t) && t !in v.failedTargets
      ensures t in v.blockStarts
    {
      assert IsBlockEdge(w, s, t);
    }
  }

  lemma KeepIsNew(c: Config, w: Walk, i: Instruction, end: u32)
    requires AllBacked(c.image) && Keeps(c, w, i, end) && OutcomesOk(c, w)
    ensures w.pending != [] && w.pending[0] !in w.instructions && w.pending[0] !in w.extents && w.pending[0] < end
  {
  }

  lemma KeepReaches(c: Config, w: Walk, i: Instruction, end: u32)
    requires AllBacked(c.image) && w.pending != [] && AllReachedByTrail(c, w) && Reached(c, w.pending[0])
    ensures AllReachedByTrail(c, Kept(w, i, end)) && Kept(w, i, end).extents == w.extents[w.pending[0] := end]
  {
  }

  /** Keeping an instruction whose extent clears its neighbours; its edges are followed next. */
  lemma KeepKeeps(c: Config, w: Walk, i: Instruction, end: u32)
    requires Walking(c, w, None) && Keeps(c, w, i, end) && NoNeighbourOverlap(w.extents, w.pending[0], end)
    ensures Walking(c, Kept(w, i, end), Some(w.pending[0]))
    ensures Targets(Kept(w, i, end).successors, w.pending[0]) == {}
  {
    hide OutcomesOk, EdgesAccounted, HandoffsOk, QueueOk, BlocksOk, Kept, Keeps, EdgesRecorded, EdgesMirrored,
         AllReachedByTrail, ExtentsDisjoint, NoNeighbourOverlap, ValidImage, Reached, Targets;
    ValidIsBacked(c.image);
    KeepIsNew(c, w, i, end);
    HeadReached(c, w, i, end);
    KeepOutcomes(c, w, i, end);
    KeepEdges(c, w, i, end);
    KeepAccounted(c, w, i, end);
    KeepNoEdges(c, w, i, end);
    KeepHandoffs(c, w, i, end);
    KeepQueue(c, w, i, end);
    KeepBlocks(c, w, i, end);
    NeighboursSuffice(w.extents, w.pending[0], end);
    KeepReaches(c, w, i, end);
  }

  lemma KeepNoEdges(c: Config, w: Walk, i: Instruction, end: u32)
    requires w.pending != []
    ensures Kept(w, i, end).successors == w.successors
  {
  }

  // ---------------------------------------------------------------- following the instruction

  function WithHandoff(w: Walk, h: Handoff): Walk {
    w.(handoffs := w.handoffs + {h})
  }

  /** The walk after the edge from `s` to `t` has been recorded and its target dealt with. */
  function Scheduled(c: Config, w: Walk, s: u32, t: u32, startsBlock: bool): Walk {
    var away := AwayKind(c, w, t);
    var queues := away.None? && t !in w.attempted && t !in w.queued;
    w.(successors := AddEdge(w.successors, s, t), incoming := AddEdge(w.incoming, t, s),
       handoffs := if away.Some? then w.handoffs + {Handoff(s, away.value)} else w.handoffs,
       blockStarts := if away.None? && startsBlock then w.blockStarts + {t} else w.blockStarts,
       pending := if queues then w.pending + [t] else w.pending,
       queued := if queues then w.queued + {t} else w.queued)
  }

  /** Why a target is handed off at once: it is outside the window, or it has failed. */
  function AwayKind(c: Config, w: Walk, t: u32): Option<BoundaryKind> {
    if !PcInWindow(c, t) then Some(Unmapped)
    else if t in w.failedTargets then Some(w.failedTargets[t])
    else None
  }

  /** The edge is one of the instruction being followed. */
  ghost predicate Schedules(c: Config, w: Walk, s: u32, t: u32, startsBlock: bool)
    requires AllBacked(c.image)
  {
    && Walking(c, w, Some(s)) && s in w.instructions && t in StaticTargets(c, s) && IsAligned(t, c.isa)
    && startsBlock == StartsBlocks(w.instructions[s])
  }

  lemma ScheduledSame(c: Config, w: Walk, s: u32, t: u32, startsBlock: bool)
    ensures var v := Scheduled(c, w, s, t, startsBlock);
            && v.instructions == w.instructions && v.extents == w.extents && v.failedTargets == w.failedTargets
            && v.attempted == w.attempted
            && v.successors == AddEdge(w.successors, s, t) && v.incoming == AddEdge(w.incoming, t, s)
  {
    hide Targets, PcInWindow, AddEdge;
  }

  lemma ScheduledGraph(c: Config, w: Walk, s: u32, t: u32, startsBlock: bool)
    ensures var v := Scheduled(c, w, s, t, startsBlock);
            && v.instructions == w.instructions && v.extents == w.extents && v.failedTargets == w.failedTargets
            && v.attempted == w.attempted
            && (forall n :: Targets(v.successors, n) == Targets(w.successors, n) + if n == s then {t} else {})
            && (forall n :: Targets(v.incoming, n) == Targets(w.incoming, n) + if n == t then {s} else {})
            && v.successors.Keys == w.successors.Keys + {s}
  {
    hide *;
    ScheduledSame(c, w, s, t, startsBlock);
  }

  lemma ScheduledWork(c: Config, w: Walk, s: u32, t: u32, startsBlock: bool)
    ensures var v := Scheduled(c, w, s, t, startsBlock);
            && (v.pending == w.pending || (v.pending == w.pending + [t] && PcInWindow(c, t)))
            && w.blockStarts <= v.blockStarts
            && (forall b | b in v.blockStarts :: b in w.blockStarts || (startsBlock && b == t && PcInWindow(c, t)))
            && (startsBlock && PcInWindow(c, t) && t !in w.failedTargets ==> t in v.blockStarts)
  {
    hide Targets, PcInWindow, AddEdge;
  }

  lemma ScheduledMarks(c: Config, w: Walk, s: u32, t: u32, startsBlock: bool)
    ensures var v := Scheduled(c, w, s, t, startsBlock);
            && w.handoffs <= v.handoffs
            && (forall h | h in v.handoffs :: h in w.handoffs || (h.pc == s && EdgeFails(c, v, t, h.kind)))
  {
    hide Targets, PcInWindow, AddEdge;
  }

  lemma ScheduledFields(c: Config, w: Walk, s: u32, t: u32, startsBlock: bool)
    ensures var v := Scheduled(c, w, s, t, startsBlock);
            && v.instructions == w.instructions && v.extents == w.extents && v.failedTargets == w.failedTargets
            && v.attempted == w.attempted
            && (forall n :: Targets(v.successors, n) == Targets(w.successors, n) + if n == s then {t} else {})
            && (forall n :: Targets(v.incoming, n) == Targets(w.incoming, n) + if n == t then {s} else {})
            && v.successors.Keys == w.successors.Keys + {s}
            && w.handoffs <= v.handoffs && w.blockStarts <= v.blockStarts
            && (v.pending == w.pending || v.pending == w.pending + [t])
            && (forall q | q in w.pending :: q in v.pending)
            && (forall q | q in v.pending :: q in w.pending || (q == t && PcInWindow(c, t)))
            && (forall b | b in v.blockStarts :: b in w.blockStarts || (startsBlock && b == t && PcInWindow(c, t)))
            && (forall h | h in v.handoffs :: h in w.handoffs || (h.pc == s && EdgeFails(c, v, t, h.kind)))
            && (startsBlock && PcInWindow(c, t) && t !in w.failedTargets ==> t in v.blockStarts)
  {
    hide *;
    ScheduledGraph(c, w, s, t, startsBlock);
    ScheduledWork(c, w, s, t, startsBlock);
    ScheduledMarks(c, w, s, t, startsBlock);
  }

  lemma ScheduledTarget(c: Config, w: Walk, s: u32, t: u32, startsBlock: bool)
    requires t in w.queued ==> t in w.pending
    requires t in w.attempted ==> t in w.instructions || t in w.failedTargets
    ensures EdgeAccounted(c, Scheduled(c, w, s, t, startsBlock), s, t)
  {
    hide Targets, PcInWindow, AddEdge;
    var v := Scheduled(c, w, s, t, startsBlock);
    if PcInWindow(c, t) && t !in w.failedTargets && t !in w.attempted && t !in w.queued {
      assert v.pending == w.pending + [t];
    }
  }

  lemma ScheduledQueued(c: Config, w: Walk, s: u32, t: u32, startsBlock: bool)
    requires AllBacked(c.image) && OutcomesOk(c, w) && QueueOk(c, w)
    ensures EdgeAccounted(c, Scheduled(c, w, s, t, startsBlock), s, t)
    ensures forall q | q in Scheduled(c, w, s, t, startsBlock).queued :: q in Scheduled(c, w, s, t, startsBlock).pending
  {
    hide Targets, PcInWindow, AddEdge, KeptOk, Decodable, FailureAt, QueueJustified, IsAligned, EdgeAccounted;
    ScheduledTarget(c, w, s, t, startsBlock);
    var v := Scheduled(c, w, s, t, startsBlock);
    forall q | q in v.queued
      ensures q in v.pending
    {
      if q in w.queued {
        assert q in w.pending;
      }
    }
  }

  lemma ScheduleAccounted(c: Config, w: Walk, s: u32, t: u32, startsBlock: bool)
    requires AllBacked(c.image) && OutcomesOk(c, w) && QueueOk(c, w) && EdgesAccounted(c, w)
    ensures EdgesAccounted(c, Scheduled(c, w, s, t, startsBlock))
  {
    var v := Scheduled(c, w, s, t, startsBlock);
    ScheduledFields(c, w, s, t, startsBlock);
    ScheduledQueued(c, w, s, t, startsBlock);
    hide Scheduled, OutcomesOk, QueueOk, Targets;
    forall a, b | b in Targets(v.successors, a)
      ensures EdgeAccounted(c, v, a, b)
    {
      if b in Targets(w.successors, a) {
        assert EdgeAccounted(c, w, a, b);
      }
    }
  }

  lemma ScheduleOutcomes(c: Config, w: Walk, s: u32, t: u32, startsBlock: bool)
    requires AllBacked(c.image) && OutcomesOk(c, w) && AllReachedByTrail(c, w)
    ensures var v := Scheduled(c, w, s, t, startsBlock);
            OutcomesOk(c, v) && AllReachedByTrail(c, v) && v.extents == w.extents
  {
    var v := Scheduled(c, w, s, t, startsBlock);
    ScheduledFields(c, w, s, t, startsBlock);
    hide Scheduled, Reached, Decodable, DecodeAt, Targets;
    forall pc | pc in w.failedTargets
      ensures FailedOk(c, v, pc)
    {
      assert FailedOk(c, w, pc);
    }
    forall pc | pc in v.instructions
      ensures KeptOk(c, v, pc)
    {
      assert KeptOk(c, w, pc);
    }
  }

  lemma ScheduleEdges(c: Config, w: Walk, s: u32, t: u32, startsBlock: bool)
    requires AllBacked(c.image) && EdgesMirrored(w) && EdgesRecorded(c, w, Some(s))
    requires s in w.instructions && t in StaticTargets(c, s)
    ensures var v := Scheduled(c, w, s, t, startsBlock); EdgesMirrored(v) && EdgesRecorded(c, v, Some(s))
  {
    ScheduledFields(c, w, s, t, startsBlock);
    hide Scheduled, StaticTargets, Targets;
  }

  lemma ScheduleHandoffs(c: Config, w: Walk, s: u32, t: u32, startsBlock: bool)
    requires HandoffsOk(c, w, Some(s))
    ensures HandoffsOk(c, Scheduled(c, w, s, t, startsBlock), Some(s))
  {
    var v := Scheduled(c, w, s, t, startsBlock);
    ScheduledFields(c, w, s, t, startsBlock);
    hide Scheduled, FlowHandoff;
    forall h | h in v.handoffs
      ensures HandoffJustified(c, v, h)
    {
      if h in w.handoffs {
        assert HandoffJustified(c, w, h);
        SameJustification(c, w, v, h);
      } else {
        assert t in Targets(v.successors, h.pc);
      }
    }
  }

  lemma ScheduleQueue(c: Config, w: Walk, s: u32, t: u32, startsBlock: bool)
    requires AllBacked(c.image) && OutcomesOk(c, w) && QueueOk(c, w) && s in w.instructions && IsAligned(t, c.isa)
    ensures QueueOk(c, Scheduled(c, w, s, t, startsBlock))
  {
    var v := Scheduled(c, w, s, t, startsBlock);
    ScheduledFields(c, w, s, t, startsBlock);
    ScheduledQueued(c, w, s, t, startsBlock);
    hide Scheduled, OutcomesOk, IsAligned, Targets;
    forall q | q in v.pending
      ensures QueueJustified(c, v, q)
    {
      if q in w.pending {
        assert QueueJustified(c, w, q);
      } else {
        assert t in Targets(v.successors, s);
      }
    }
  }

  lemma ScheduleBlocks(c: Config, w: Walk, s: u32, t: u32, startsBlock: bool)
    requires BlocksOk(c, w) && s in w.instructions && startsBlock == StartsBlocks(w.instructions[s])
    ensures BlocksOk(c, Scheduled(c, w, s, t, startsBlock))
  {
    var v := Scheduled(c, w, s, t, startsBlock);
    ScheduledFields(c, w, s, t, startsBlock);
    hide Scheduled, StartsBlocks, Targets;
    forall b | b in v.blockStarts && b != c.entry
      ensures PcInWindow(c, b) && exists a :: IsBlockEdge(v, a, b)
    {
      if b in w.blockStarts {
        var a :| IsBlockEdge(w, a, b);
        assert IsBlockEdge(v, a, b);
      } else {
        assert IsBlockEdge(v, s, b);
      }
    }
    forall a, b | IsBlockEdge(v, a, b) && PcInWindow(c, b) && b !in v.failedTargets
      ensures b in v.blockStarts
    {
      assert IsBlockEdge(w, a, b) || (a == s && b == t);
    }
  }

  lemma ScheduleKeeps(c: Config, w: Walk, s: u32, t: u32, startsBlock: bool)
    requires AllBacked(c.image) && Schedules(c, w, s, t, startsBlock)
    ensures Walking(c, Scheduled(c, w, s, t, startsBlock), Some(s))
  {
    hide OutcomesOk, EdgesAccounted, HandoffsOk, QueueOk, BlocksOk, Scheduled, EdgesRecorded, EdgesMirrored,
         AllReachedByTrail, ExtentsDisjoint, ValidImage, StaticTargets, IsAligned, StartsBlocks;
    ScheduleAccounted(c, w, s, t, startsBlock);
    ScheduleOutcomes(c, w, s, t, startsBlock);
    ScheduleEdges(c, w, s, t, startsBlock);
    ScheduleHandoffs(c, w, s, t, startsBlock);
    ScheduleQueue(c, w, s, t, startsBlock);
    ScheduleBlocks(c, w, s, t, startsBlock);
  }

  lemma HandoffOutcomes(c: Config, w: Walk, h: Handoff)
    requires AllBacked(c.image) && OutcomesOk(c, w) && EdgesAccounted(c, w) && QueueOk(c, w)
    ensures OutcomesOk(c, WithHandoff(w, h)) && EdgesAccounted(c, WithHandoff(w, h)) && QueueOk(c, WithHandoff(w, h))
  {
    var v := WithHandoff(w, h);
    hide Decodable, DecodeAt;
    forall pc | pc in w.failedTargets
      ensures FailedOk(c, v, pc)
    {
      assert FailedOk(c, w, pc);
    }
    forall pc | pc in v.instructions
      ensures KeptOk(c, v, pc)
    {
      assert KeptOk(c, w, pc);
    }
    forall a, b | b in Targets(v.successors, a)
      ensures EdgeAccounted(c, v, a, b)
    {
      assert EdgeAccounted(c, w, a, b);
    }
    forall q | q in v.pending
      ensures QueueJustified(c, v, q)
    {
      assert QueueJustified(c, w, q);
    }
  }

  lemma HandoffHandoffs(c: Config, w: Walk, s: u32, kind: BoundaryKind)
    requires HandoffsOk(c, w, Some(s)) && s in w.instructions && FlowHandoff(c.calls, w.instructions[s]) == Some(kind)
    ensures HandoffsOk(c, WithHandoff(w, Handoff(s, kind)), Some(s))
  {
    var v := WithHandoff(w, Handoff(s, kind));
    hide FlowHandoff;
    forall h | h in v.handoffs
      ensures HandoffJustified(c, v, h)
    {
      if h in w.handoffs {
        assert HandoffJustified(c, w, h);
        SameJustification(c, w, v, h);
      }
    }
  }

  lemma HandoffEdges(c: Config, w: Walk, h: Handoff, current: Option<u32>)
    requires AllBacked(c.image) && EdgesMirrored(w) && EdgesRecorded(c, w, current) && AllReachedByTrail(c, w)
    ensures var v := WithHandoff(w, h);
            EdgesMirrored(v) && EdgesRecorded(c, v, current) && AllReachedByTrail(c, v) && v.extents == w.extents
  {
  }

  /** Noting the followed instruction's own handoff. */
  lemma HandoffKeeps(c: Config, w: Walk, s: u32, kind: BoundaryKind)
    requires Walking(c, w, Some(s)) && s in w.instructions && FlowHandoff(c.calls, w.instructions[s]) == Some(kind)
    ensures Walking(c, WithHandoff(w, Handoff(s, kind)), Some(s))
  {
    hide OutcomesOk, EdgesAccounted, HandoffsOk, QueueOk, BlocksOk, EdgesRecorded, EdgesMirrored,
         AllReachedByTrail, ExtentsDisjoint, ValidImage, FlowHandoff, WithHandoff;
    ValidIsBacked(c.image);
    HandoffOutcomes(c, w, Handoff(s, kind));
    HandoffHandoffs(c, w, s, kind);
    HandoffEdges(c, w, Handoff(s, kind), Some(s));
    HandoffBlocks(c, w, Handoff(s, kind));
  }

  lemma HandoffBlocks(c: Config, w: Walk, h: Handoff)
    requires BlocksOk(c, w)
    ensures BlocksOk(c, WithHandoff(w, h))
  {
    var v := WithHandoff(w, h);
    forall b | b in w.blockStarts && b != c.entry
      ensures PcInWindow(c, b) && exists s :: IsBlockEdge(v, s, b)
    {
      var s :| IsBlockEdge(w, s, b);
      assert IsBlockEdge(v, s, b);
    }
    forall s, t | IsBlockEdge(v, s, t) && PcInWindow(c, t) && t !in v.failedTargets
      ensures t in v.blockStarts
    {
      assert IsBlockEdge(w, s, t);
    }
  }

  /** All edges recorded and the instruction's own handoff noted: the instruction has been followed. */
  lemma FollowedKeeps(c: Config, w: Walk, s: u32)
    requires Walking(c, w, Some(s)) && s in w.instructions && EdgesComplete(c, w, s)
    requires FlowHandoff(c.calls, w.instructions[s]).Some? ==>
               Handoff(s, FlowHandoff(c.calls, w.instructions[s]).value) in w.handoffs
    ensures Walking(c, w, None)
  {
    hide OutcomesOk, EdgesAccounted, QueueOk, BlocksOk, EdgesMirrored, AllReachedByTrail, ExtentsDisjoint,
         ValidImage, EdgesComplete, FlowHandoff, StaticTargets;
  }

  // ---------------------------------------------------------------- a finished walk

  lemma EntryKept(c: Config, w: Walk)
    requires AllBacked(c.image) && OutcomesOk(c, w) && QueueOk(c, w) && w.pending == [] && Decodable(c, c.entry)
    ensures c.entry in w.instructions
  {
    hide Decodable, FailureAt, KeptOk, IsAligned;
  }

  lemma TargetKept(c: Config, w: Walk, s: u32, t: u32)
    requires AllBacked(c.image) && OutcomesOk(c, w) && EdgesRecorded(c, w, None) && EdgesAccounted(c, w)
    requires w.pending == [] && s in w.instructions && t in StaticTargets(c, s) && PcInWindow(c, t) && Decodable(c, t)
    ensures t in w.instructions && t in Targets(w.successors, s)
  {
    hide Decodable, FailureAt, KeptOk, StaticTargets, PcInWindow;
    assert EdgesComplete(c, w, s);
    assert EdgeAccounted(c, w, s, t);
  }

  lemma TrailParts(c: Config, p: seq<u32>)
    requires AllBacked(c.image) && IsTrail(c, p)
    ensures p != []
    ensures |p| == 1 ==> p == [c.entry] && Decodable(c, c.entry)
    ensures |p| > 1 ==>
              var s, t := p[|p| - 2], p[|p| - 1];
              IsTrail(c, p[..|p| - 1]) && t in StaticTargets(c, s) && PcInWindow(c, t) && Decodable(c, t)
  {
    hide Decodable, StaticTargets, PcInWindow;
  }

  lemma {:induction false} TrailKept(c: Config, w: Walk, p: seq<u32>)
    requires Walking(c, w, None) && w.pending == [] && AllBacked(c.image) && IsTrail(c, p)
    ensures p != [] && p[|p| - 1] in w.instructions
    ensures Joins(w.successors, w.instructions.Keys, c.entry, p[|p| - 1], p)
    decreases |p|
  {
    hide *;
    WalkingFacts(c, w, None);
    TrailParts(c, p);
    if |p| == 1 {
      EntryKept(c, w);
      TrivialPath(w.successors, w.instructions.Keys, c.entry);
    } else {
      var q := p[..|p| - 1];
      TrailKept(c, w, q);
      var s, t := q[|q| - 1], p[|p| - 1];
      TargetKept(c, w, s, t);
      ExtendPath(w.successors, w.instructions.Keys, c.entry, s, t, q);
      assert q + [t] == p;
    }
  }

  lemma TrivialPath(succ: Adjacency, nodes: set<u32>, entry: u32)
    requires entry in nodes
    ensures Joins(succ, nodes, entry, entry, [entry])
  {
  }

  /** The kept instructions are exactly the reached ones, and the recorded graph reaches each of them. */
  lemma FinishedExactly(c: Config, w: Walk)
    requires Walking(c, w, None) && w.pending == []
    ensures forall pc :: pc in w.instructions <==> Reached(c, pc)
    ensures forall pc | pc in w.instructions :: Reaches(w.successors, w.instructions.Keys, c.entry, pc)
  {
    hide OutcomesOk, EdgesAccounted, HandoffsOk, QueueOk, BlocksOk, EdgesRecorded, EdgesMirrored, Decodable;
    forall pc | Reached(c, pc)
      ensures pc in w.instructions && Reaches(w.successors, w.instructions.Keys, c.entry, pc)
    {
      var p :| IsTrail(c, p) && p[|p| - 1] == pc;
      TrailKept(c, w, p);
    }
  }
}
