/**
 * Decoding a control-flow graph with its dominators and exact register states. Every part of the result
 * is stated about the image: which instructions, which edges, which handoffs, which paths, which runs.
 */
module SemanticDecode {
  import opened Words
  import opened ControlGraph
  import opened Arm32
  import opened RuntimeImage
  import opened RuntimeQueries
  import opened CfgWalk
  import opened MachineControl
  import Steps = CfgWalkSteps
  import opened QueueOrder
  import opened CfgDecode
  import opened SemanticGraph
  import opened MustValues
  import opened DataflowJoin
  import Solver = Dataflow
  import Machine = Architecture
  import Runs = MustValueSoundness

  datatype DecodedCfg = DecodedCfg(graph: SemanticCfg, handoffs: set<Handoff>, exactStates: States)

  // ---------------------------------------------------------------- what a decoded graph is

  /** The kept instructions are the reached ones, each as the image has it and with all its edges. */
  ghost predicate KeepsReached(c: Config, g: SemanticCfg)
    requires AllBacked(c.image)
  {
    && (forall pc :: pc in g.instructions <==> Reached(c, pc))
    && g.reachable == g.instructions.Keys
    && (forall pc | pc in g.instructions :: KeptAsDecoded(c, g, pc))
  }

  ghost predicate KeptAsDecoded(c: Config, g: SemanticCfg, pc: u32)
    requires AllBacked(c.image) && pc in g.instructions
  {
    && Accepted(c, pc) && FlowSound(c, pc)
    && g.instructions[pc] == DecodeAt(c, pc).instruction && Targets(g.successors, pc) == StaticTargets(c, pc)
  }

  /** No two reached instructions share an address. */
  ghost predicate ReachedDisjoint(c: Config, g: SemanticCfg) {
    forall a, b | a in g.instructions && b in g.instructions && a < b :: a + g.instructions[a].length <= b
  }

  /** The kept instructions are those that control can come to, and their edges lead where it can go. */
  ghost predicate FollowsControl(c: Config, g: SemanticCfg)
    requires AllBacked(c.image)
  {
    && (forall pc :: pc in g.instructions <==> Controlled(c, pc))
    && (forall s | s in g.instructions :: EdgesAsControl(c, g, s))
  }

  ghost predicate EdgesAsControl(c: Config, g: SemanticCfg, s: u32)
    requires AllBacked(c.image)
  {
    forall t: u32 :: t in Targets(g.successors, s) <==> ControlGoes(c, s, t)
  }

  /** An edge that is handed off: it leaves the window, or it leads to nothing that can be kept. */
  ghost predicate EdgeHandoff(c: Config, t: u32, kind: BoundaryKind)
    requires AllBacked(c.image)
  {
    if PcInWindow(c, t) then !Decodable(c, t) && kind == FailureAt(c, t) else kind == Unmapped
  }

  /** What the image says must be handed off. */
  ghost predicate HandoffOf(c: Config, h: Handoff)
    requires AllBacked(c.image)
  {
    || (Controlled(c, h.pc) && Decodable(c, h.pc) && CanHandOver(c.calls, DecodeAt(c, h.pc).instruction, h.kind))
    || (Controlled(c, h.pc) && exists t :: ControlGoes(c, h.pc, t) && EdgeHandoff(c, t, h.kind))
    || (h.pc == c.entry && !Decodable(c, h.pc) && h.kind == FailureAt(c, h.pc))
  }

  /** The same by the edges and the table that the walk goes by. */
  ghost predicate WalkHandoff(c: Config, h: Handoff)
    requires AllBacked(c.image)
  {
    || (Reached(c, h.pc) && Decodable(c, h.pc)
        && FlowHandoff(c.calls, DecodeAt(c, h.pc).instruction) == Some(h.kind))
    || (Reached(c, h.pc) && exists t :: t in StaticTargets(c, h.pc) && EdgeHandoff(c, t, h.kind))
    || (h.pc == c.entry && !Decodable(c, h.pc) && h.kind == FailureAt(c, h.pc))
  }

  /** Every way from the entry to `n` visits `d`. */
  ghost predicate Dominates(c: Config, d: u32, n: u32)
    requires AllBacked(c.image)
  {
    Controlled(c, d) && Controlled(c, n) && forall p | IsControlPath(c, p) && p[|p| - 1] == n :: d in p
  }

  ghost predicate TrailDominates(c: Config, d: u32, n: u32)
    requires AllBacked(c.image)
  {
    Reached(c, d) && Reached(c, n) && forall p | IsTrail(c, p) && p[|p| - 1] == n :: d in p
  }

  /** A step of the machine inside the window: an instruction executes, and control goes on as it can. */
  ghost predicate MachineStep(c: Config, from: Runs.Point, to: Runs.Point)
    requires AllBacked(c.image)
  {
    && Decodable(c, from.pc) && Decodable(c, to.pc)
    && ControlGoes(c, from.pc, to.pc) && PcInWindow(c, to.pc)
    && Machine.Executes(ImageWords(c.image), from.pc, DecodeAt(c, from.pc).instruction, from.regs, to.regs)
  }

  /** A run of the machine from the entry, with any registers. */
  ghost predicate IsExecution(c: Config, run: seq<Runs.Point>)
    requires AllBacked(c.image)
  {
    && run != [] && run[0].pc == c.entry && Decodable(c, c.entry)
    && forall k | 0 < k < |run| :: MachineStep(c, run[k - 1], run[k])
  }

  ghost predicate SoundStates(c: Config, exact: States)
    requires AllBacked(c.image)
  {
    forall run, k | IsExecution(c, run) && 0 <= k < |run| :: StateHolds(exact, run, k)
  }

  ghost predicate StateHolds(exact: States, run: seq<Runs.Point>, k: nat)
    requires k < |run|
  {
    run[k].pc in exact && Machine.Holds(exact[run[k].pc], run[k].regs)
  }

  /** Every start of a block that the image needs: the entry, and the kept targets of reached branches and calls. */
  ghost predicate NeededBlocks(c: Config, starts: set<u32>)
    requires AllBacked(c.image)
  {
    forall b | b in starts :: b == c.entry || (Decodable(c, b) && exists s :: BranchesTo(c, s, b))
  }

  /** The blocks of the image fit the limit. */
  ghost predicate BlocksFit(c: Config)
    requires AllBacked(c.image)
  {
    forall starts | NeededBlocks(c, starts) :: |starts| <= c.limits.maxBlocks
  }

  /** The work is one attempt at each sought address, and it fits the limits. */
  ghost predicate WorkFits(c: Config, history: seq<u32>)
    requires AllBacked(c.image)
  {
    && (forall pc :: pc in history <==> Sought(c, pc))
    && (forall i, j | 0 <= i < j < |history| :: history[i] != history[j])
    && |history| <= c.limits.maxInstructions
    && Saturated(TotalCost(c, history)) <= c.limits.maxChargedBytes
    && NeverEnters(c, history)
  }

  // ---------------------------------------------------------------- from a finished walk

  lemma InWindow(c: Config, pc: u32)
    requires AllBacked(c.image) && Decodable(c, pc)
    ensures PcInWindow(c, pc)
  {
    hide DecodeAt;
  }

  /** What a walk with nothing being followed knows about a kept instruction. */
  lemma KeptFacts(c: Config, w: Walk, pc: u32)
    requires AllBacked(c.image) && Walking(c, w, None) && pc in w.instructions
    ensures Decodable(c, pc) && PcInWindow(c, pc) && Accepted(c, pc) && FlowSound(c, pc) && Reached(c, pc)
    ensures DecodeAt(c, pc).AtInstruction? && w.instructions[pc] == DecodeAt(c, pc).instruction
    ensures Targets(w.successors, pc) == StaticTargets(c, pc)
    ensures pc in w.extents && w.extents[pc] == pc + w.instructions[pc].length
  {
    Steps.WalkingFacts(c, w, None);
    hide Walking, Decodable, StaticTargets, PcInWindow, Targets, Accepted, FlowSound, Reached, DecodeAt;
    assert KeptOk(c, w, pc) && EdgesComplete(c, w, pc);
    InWindow(c, pc);
    DecodableIs(c, pc);
  }

  /** The recorded paths from the entry are the trails of the image. */
  lemma PathIsTrail(c: Config, w: Walk, p: seq<u32>)
    requires AllBacked(c.image) && Walking(c, w, None)
    requires p != [] && Joins(w.successors, w.instructions.Keys, c.entry, p[|p| - 1], p)
    ensures IsTrail(c, p)
  {
    hide Walking, Decodable, StaticTargets, PcInWindow, Targets, Accepted, FlowSound, Reached, DecodeAt;
    forall k | 0 <= k < |p|
      ensures Decodable(c, p[k]) && PcInWindow(c, p[k]) && Targets(w.successors, p[k]) == StaticTargets(c, p[k])
    {
      KeptFacts(c, w, p[k]);
    }
  }

  lemma TrailsArePaths(c: Config, w: Walk, d: u32, n: u32)
    requires AllBacked(c.image) && Walking(c, w, None) && w.pending == []
    ensures d in w.instructions && n in w.instructions && MustPass(w.successors, w.instructions.Keys, c.entry, d, n)
            <==> TrailDominates(c, d, n)
  {
    hide Walking, IsTrail, Reached, Joins;
    Steps.FinishedExactly(c, w);
    forall p: seq<u32>
      ensures Joins(w.successors, w.instructions.Keys, c.entry, n, p)
              <==> p != [] && IsTrail(c, p) && p[|p| - 1] == n
    {
      if p != [] && IsTrail(c, p) && p[|p| - 1] == n {
        Steps.TrailKept(c, w, p);
      }
      if Joins(w.successors, w.instructions.Keys, c.entry, n, p) {
        JoinEnds(w.successors, w.instructions.Keys, c.entry, n, p);
        PathIsTrail(c, w, p);
      }
    }
    assert forall p | IsTrail(c, p) :: p != [] by { TrailsNonEmpty(c); }
  }

  lemma JoinEnds(succ: Adjacency, nodes: set<u32>, a: u32, b: u32, p: seq<u32>)
    requires Joins(succ, nodes, a, b, p)
    ensures p != [] && p[|p| - 1] == b
  {
  }

  lemma TrailsNonEmpty(c: Config)
    requires AllBacked(c.image)
    ensures forall p | IsTrail(c, p) :: p != []
  {
    hide Decodable, StaticTargets, PcInWindow;
  }

  lemma FinishedKeeps(c: Config, w: Walk, g: SemanticCfg)
    requires AllBacked(c.image) && Walking(c, w, None) && w.pending == []
    requires g.instructions == w.instructions && g.successors == w.successors
    requires forall n :: n in g.reachable <==> Reaches(w.successors, w.instructions.Keys, c.entry, n)
    ensures KeepsReached(c, g)
  {
    hide Walking, Decodable, StaticTargets, PcInWindow, Targets, Accepted, FlowSound, Reached, DecodeAt, Reaches;
    Steps.FinishedExactly(c, w);
    forall pc | pc in g.instructions
      ensures KeptAsDecoded(c, g, pc)
    {
      KeptFacts(c, w, pc);
    }
    forall n | Reaches(w.successors, w.instructions.Keys, c.entry, n)
      ensures n in w.instructions
    {
      ReachesInside(w.successors, w.instructions.Keys, c.entry, n);
    }
  }

  lemma ReachesInside(succ: Adjacency, nodes: set<u32>, entry: u32, n: u32)
    requires Reaches(succ, nodes, entry, n)
    ensures n in nodes && entry in nodes
  {
    var p :| Joins(succ, nodes, entry, n, p);
  }

  lemma DisjointPair(extents: map<u32, u32>, a: u32, b: u32)
    requires ExtentsDisjoint(extents) && a in extents && b in extents && a < b
    ensures extents[a] <= b
  {
  }

  lemma FinishedDisjoint(c: Config, w: Walk, g: SemanticCfg)
    requires AllBacked(c.image) && Walking(c, w, None) && g.instructions == w.instructions
    ensures ReachedDisjoint(c, g)
  {
    hide *;
    forall a, b | a in g.instructions && b in g.instructions && a < b
      ensures a + g.instructions[a].length <= b
    {
      Steps.WalkingFacts(c, w, None);
      KeptFacts(c, w, a);
      KeptFacts(c, w, b);
      DisjointPair(w.extents, a, b);
    }
    AllPairsDisjoint(c, g);
  }

  lemma AllPairsDisjoint(c: Config, g: SemanticCfg)
    requires forall a, b | a in g.instructions && b in g.instructions && a < b :: a + g.instructions[a].length <= b
    ensures ReachedDisjoint(c, g)
  {
  }

  /** A target that was looked at and is not kept failed; it was in the window. */
  lemma FailedTarget(c: Config, w: Walk, s: u32, t: u32)
    requires AllBacked(c.image) && Walking(c, w, None) && t in w.failedTargets && s in w.instructions
    ensures !Decodable(c, t) && w.failedTargets[t] == FailureAt(c, t) && PcInWindow(c, t)
  {
    Steps.WalkingFacts(c, w, None);
    hide Walking, Decodable, PcInWindow, FailureAt, KeptOk, StaticTargets, Reached;
    assert FailedOk(c, w, t);
    assert KeptOk(c, w, c.entry) ==> Decodable(c, c.entry) by { KeptIsDecodable(c, w, c.entry); }
  }

  lemma KeptIsDecodable(c: Config, w: Walk, pc: u32)
    requires AllBacked(c.image) && pc in w.instructions
    ensures KeptOk(c, w, pc) ==> Decodable(c, pc)
  {
    hide Decodable;
  }

  lemma KeptDecodable(c: Config, w: Walk, pc: u32)
    requires AllBacked(c.image) && OutcomesOk(c, w)
    ensures pc in w.instructions ==> Decodable(c, pc)
  {
    hide Decodable;
    if pc in w.instructions {
      assert KeptOk(c, w, pc);
    }
  }

  lemma HandoffMeant(c: Config, w: Walk, h: Handoff)
    requires AllBacked(c.image) && Walking(c, w, None) && h in w.handoffs
    ensures WalkHandoff(c, h)
  {
    Steps.WalkingFacts(c, w, None);
    hide Walking, OutcomesOk, EdgesAccounted, Decodable, PcInWindow, FailureAt, StaticTargets, Reached, DecodeAt,
         FlowHandoff, Accepted, FlowSound, Targets;
    assert HandoffJustified(c, w, h);
    if h.pc in w.instructions {
      KeptFacts(c, w, h.pc);
      if t :| t in Targets(w.successors, h.pc) && EdgeFails(c, w, t, h.kind) {
        if t in w.failedTargets {
          FailedTarget(c, w, h.pc, t);
        }
        assert t in StaticTargets(c, h.pc) && EdgeHandoff(c, t, h.kind);
      }
    } else {
      assert Targets(w.successors, h.pc) == {} by { NoEdges(c, w, h.pc); }
    }
    if h.pc in w.failedTargets {
      FailedMeans(c, w, h.pc);
    }
  }

  lemma NoEdges(c: Config, w: Walk, pc: u32)
    requires AllBacked(c.image) && EdgesRecorded(c, w, None) && pc !in w.instructions
    ensures Targets(w.successors, pc) == {}
  {
    hide StaticTargets;
  }

  lemma FailedMeans(c: Config, w: Walk, pc: u32)
    requires AllBacked(c.image) && Walking(c, w, None) && pc in w.failedTargets
    ensures !Decodable(c, pc) && w.failedTargets[pc] == FailureAt(c, pc) && Sought(c, pc)
  {
    Steps.WalkingFacts(c, w, None);
    hide Walking, Decodable, FailureAt, KeptOk, Sought;
    assert FailedOk(c, w, pc);
  }

  lemma HandoffNoted(c: Config, w: Walk, h: Handoff)
    requires AllBacked(c.image) && Walking(c, w, None) && w.pending == [] && WalkHandoff(c, h)
    ensures h in w.handoffs
  {
    Steps.WalkingFacts(c, w, None);
    Steps.FinishedExactly(c, w);
    hide Walking, OutcomesOk, EdgesAccounted, Decodable, PcInWindow, FailureAt, StaticTargets, Reached, DecodeAt,
         FlowHandoff, Accepted, FlowSound, Targets, Reaches;
    if Reached(c, h.pc) {
      KeptFacts(c, w, h.pc);
      if t :| t in StaticTargets(c, h.pc) && EdgeHandoff(c, t, h.kind) {
        EdgeNotedAt(c, w, h, t);
      }
    }
    if h.pc == c.entry && !Decodable(c, h.pc) && h.kind == FailureAt(c, h.pc) {
      EntryFailed(c, w);
    }
  }

  lemma EdgeNotedAt(c: Config, w: Walk, h: Handoff, t: u32)
    requires AllBacked(c.image) && Walking(c, w, None) && w.pending == [] && h.pc in w.instructions
    requires t in Targets(w.successors, h.pc) && EdgeHandoff(c, t, h.kind)
    ensures h in w.handoffs
  {
    Steps.WalkingFacts(c, w, None);
    hide Walking, OutcomesOk, Decodable, PcInWindow, FailureAt, StaticTargets, Reached, DecodeAt, Targets;
    assert EdgeAccounted(c, w, h.pc, t);
    if t in w.instructions {
      KeptFacts(c, w, t);
    }
    if t in w.failedTargets {
      FailedMeans(c, w, t);
    }
  }

  lemma EntryFailed(c: Config, w: Walk)
    requires AllBacked(c.image) && Walking(c, w, None) && w.pending == [] && !Decodable(c, c.entry)
    ensures Handoff(c.entry, FailureAt(c, c.entry)) in w.handoffs
  {
    Steps.WalkingFacts(c, w, None);
    hide Walking, Decodable, FailureAt, KeptOk, EdgesAccounted, FailedOk, HandoffJustified;
    KeptDecodable(c, w, c.entry);
    assert c.entry in w.failedTargets;
    FailedMeans(c, w, c.entry);
  }

  /** A finished walk has found nothing wrong with what it reached. */
  lemma FinishedSound(c: Config, w: Walk)
    requires AllBacked(c.image) && Walking(c, w, None) && w.pending == []
    ensures ReachedSound(c)
  {
    Steps.FinishedExactly(c, w);
    hide Walking, Reached, Accepted, FlowSound, Reaches;
    forall pc | Reached(c, pc)
      ensures Accepted(c, pc) && FlowSound(c, pc)
    {
      KeptFacts(c, w, pc);
    }
  }

  lemma KeptSound(c: Config, g: SemanticCfg)
    requires AllBacked(c.image) && KeepsReached(c, g)
    ensures ReachedSound(c)
  {
    hide Reached, Accepted, FlowSound, DecodeAt, StaticTargets, Targets;
    forall pc | Reached(c, pc)
      ensures Accepted(c, pc) && FlowSound(c, pc)
    {
      assert KeptAsDecoded(c, g, pc);
    }
  }

  /** In sound code the edges of a reached instruction lead where control can go. */
  lemma ReachedGoes(c: Config, s: u32)
    requires AllBacked(c.image) && ReachedSound(c) && Reached(c, s)
    ensures Decodable(c, s) && DecodeAt(c, s).AtInstruction?
    ensures forall t: u32 :: t in StaticTargets(c, s) <==> ControlGoes(c, s, t)
  {
    ReachedIsDecodable(c, s);
    DecodableIs(c, s);
    hide Reached, Accepted, FlowSound, DecodeAt, StaticTargets, ControlGoes, Decodable;
    forall t: u32
      ensures t in StaticTargets(c, s) <==> ControlGoes(c, s, t)
    {
      GoesExactly(c, s, t);
    }
  }

  lemma HandoffAsWalked(c: Config, h: Handoff)
    requires AllBacked(c.image) && ReachedSound(c)
    ensures HandoffOf(c, h) <==> WalkHandoff(c, h)
  {
    ReachedIsControlled(c, h.pc);
    hide Reached, Controlled, ReachedSound, DecodeAt, StaticTargets, ControlGoes, Decodable, FailureAt, EdgeHandoff,
      FlowHandoff, CanHandOver;
    if Reached(c, h.pc) {
      ReachedGoes(c, h.pc);
      HandoffExactly(c.calls, DecodeAt(c, h.pc).instruction, h.kind);
    }
  }

  lemma DominatesAsTrails(c: Config, d: u32, n: u32)
    requires AllBacked(c.image) && ReachedSound(c)
    ensures Dominates(c, d, n) <==> TrailDominates(c, d, n)
  {
    ReachedIsControlled(c, d);
    ReachedIsControlled(c, n);
    TrailsNonEmpty(c);
    hide Reached, Controlled, ReachedSound, IsTrail, IsControlPath;
    forall p
      ensures IsTrail(c, p) <==> IsControlPath(c, p)
    {
      if IsTrail(c, p) {
        TrailIsControl(c, p);
      }
      if IsControlPath(c, p) {
        ControlIsTrail(c, p);
      }
    }
  }

  lemma KeptFollowsControl(c: Config, g: SemanticCfg)
    requires AllBacked(c.image) && KeepsReached(c, g)
    ensures FollowsControl(c, g)
  {
    KeptSound(c, g);
    hide Reached, Controlled, ReachedSound, StaticTargets, Targets, ControlGoes, Decodable, Accepted, FlowSound;
    forall pc
      ensures pc in g.instructions <==> Controlled(c, pc)
    {
      ReachedIsControlled(c, pc);
    }
    forall s | s in g.instructions
      ensures EdgesAsControl(c, g, s)
    {
      assert KeptAsDecoded(c, g, s);
      ReachedGoes(c, s);
    }
  }

  lemma HandoffsAre(c: Config, handoffs: set<Handoff>)
    requires AllBacked(c.image) && forall h :: h in handoffs <==> HandoffOf(c, h)
    ensures HandoffsExact(c, handoffs)
  {
    hide HandoffOf;
  }

  lemma FinishedHandoffs(c: Config, w: Walk)
    requires AllBacked(c.image) && Walking(c, w, None) && w.pending == []
    ensures HandoffsExact(c, w.handoffs)
  {
    hide *;
    FinishedSound(c, w);
    forall h
      ensures h in w.handoffs <==> HandoffOf(c, h)
    {
      HandoffAsWalked(c, h);
      if h in w.handoffs {
        HandoffMeant(c, w, h);
      }
      if WalkHandoff(c, h) {
        HandoffNoted(c, w, h);
      }
    }
    HandoffsAre(c, w.handoffs);
  }

  lemma FinishedExternal(c: Config, g: SemanticCfg)
    requires AllBacked(c.image) && KeepsReached(c, g)
    requires g.externalEdges == Leaving(g.reachable, g.reachable, g.successors)
    ensures ExternalExact(c, g.externalEdges)
  {
    KeptFollowsControl(c, g);
    hide Reached, Controlled, KeptAsDecoded, ControlGoes, Targets;
    forall s: u32, t: u32
      ensures (s, t) in g.externalEdges <==> Controlled(c, s) && ControlGoes(c, s, t) && !Controlled(c, t)
    {
      if s in g.instructions {
        assert EdgesAsControl(c, g, s);
      }
    }
  }

  // ---------------------------------------------------------------- work

  lemma AttemptedIsSought(c: Config, w: Walk)
    requires AllBacked(c.image) && Walking(c, w, None) && w.pending == []
    ensures forall pc :: pc in w.attempted <==> Sought(c, pc)
  {
    hide Walking, Sought, KeptOk, FailedOk, Reached, FailureAt, Decodable;
    forall pc
      ensures pc in w.attempted <==> Sought(c, pc)
    {
      AttemptedOutcome(c, w, pc);
      if pc in w.instructions {
        KeptFacts(c, w, pc);
        ReachedSought(c, pc);
      } else if pc in w.failedTargets {
        FailedMeans(c, w, pc);
      }
      if Sought(c, pc) {
        SoughtAttempted(c, w, pc);
      }
    }
  }

  lemma AttemptedOutcome(c: Config, w: Walk, pc: u32)
    requires AllBacked(c.image) && Walking(c, w, None)
    ensures pc in w.attempted <==> pc in w.instructions || pc in w.failedTargets
  {
    Steps.WalkingFacts(c, w, None);
    hide Walking, KeptOk, FailedOk;
  }

  lemma SoughtAttempted(c: Config, w: Walk, pc: u32)
    requires AllBacked(c.image) && Walking(c, w, None) && w.pending == [] && Sought(c, pc)
    ensures pc in w.attempted
  {
    Steps.WalkingFacts(c, w, None);
    Steps.FinishedExactly(c, w);
    hide Walking, OutcomesOk, Reached, StaticTargets, PcInWindow, Targets, EdgesRecorded, HandoffsOk, BlocksOk, Reaches;
    if pc != c.entry {
      var s :| Reached(c, s) && pc in StaticTargets(c, s);
      KeptFacts(c, w, s);
      assert EdgeAccounted(c, w, s, pc);
      AttemptedOutcome(c, w, pc);
    }
  }

  // ---------------------------------------------------------------- runs

  lemma {:induction false} ExecutionReached(c: Config, run: seq<Runs.Point>, k: nat)
    requires AllBacked(c.image) && ReachedSound(c) && IsExecution(c, run) && k < |run|
    ensures Reached(c, run[k].pc)
  {
    hide Decodable, StaticTargets, PcInWindow, Reached, DecodeAt, ControlGoes, ReachedSound;
    if k == 0 {
      Steps.EntryReached(c);
    } else {
      ExecutionReached(c, run, k - 1);
      assert MachineStep(c, run[k - 1], run[k]);
      ReachedGoes(c, run[k - 1].pc);
      Steps.TargetReached(c, run[k - 1].pc, run[k].pc);
    }
  }

  /** The dataflow problem of a decoded graph: complete transfers, joined by value. */
  function ProblemOf(c: Config, g: SemanticCfg): Solver.Problem
    requires AllBacked(c.image)
  {
    Solver.Problem(g.entry, g.instructions, g.successors, g.predecessors, g.reachable, ImageWords(c.image),
                   ExactPolicy(JoinValue, Complete))
  }

  lemma StepIsRecorded(c: Config, g: SemanticCfg, from: Runs.Point, to: Runs.Point)
    requires AllBacked(c.image) && KeepsReached(c, g) && MachineStep(c, from, to)
    requires Reached(c, from.pc) && Reached(c, to.pc)
    ensures Runs.StepsTo(ProblemOf(c, g), from, to)
  {
    KeptSound(c, g);
    hide Decodable, StaticTargets, PcInWindow, Reached, DecodeAt, ImageWords, Machine.Executes, Targets, Accepted,
        FlowSound, ControlGoes, ReachedSound;
    assert KeptAsDecoded(c, g, from.pc);
    ReachedGoes(c, from.pc);
  }

  lemma ExecutionIsRun(c: Config, g: SemanticCfg, run: seq<Runs.Point>)
    requires AllBacked(c.image) && KeepsReached(c, g) && g.entry == c.entry && IsExecution(c, run)
    ensures Runs.IsRun(ProblemOf(c, g), run)
  {
    KeptSound(c, g);
    hide Decodable, MachineStep, Reached, ImageWords, KeepsReached, Runs.StepsTo, ReachedSound;
    forall k | 0 < k < |run|
      ensures Runs.StepsTo(ProblemOf(c, g), run[k - 1], run[k])
    {
      ExecutionReached(c, run, k - 1);
      ExecutionReached(c, run, k);
      StepIsRecorded(c, g, run[k - 1], run[k]);
    }
  }

  lemma StatesSound(c: Config, g: SemanticCfg, before: States, after: States)
    requires AllBacked(c.image) && KeepsReached(c, g) && g.entry == c.entry
    requires c.entry in g.instructions ==>
               && Solver.WellPosed(ProblemOf(c, g)) && Solver.IsSolution(ProblemOf(c, g), before, after)
    ensures SoundStates(c, before)
  {
    KeptSound(c, g);
    hide IsExecution, KeepsReached, Solver.WellPosed, Solver.IsSolution, Reached, ProblemOf, ReachedSound;
    forall run, k | IsExecution(c, run) && 0 <= k < |run|
      ensures StateHolds(before, run, k)
    {
      ExecutionReached(c, run, 0);
      EntryKept(c, g, run);
      ExecutionIsRun(c, g, run);
      Runs.RunSound(ProblemOf(c, g), before, after, run, k);
    }
  }

  lemma EntryKept(c: Config, g: SemanticCfg, run: seq<Runs.Point>)
    requires AllBacked(c.image) && KeepsReached(c, g) && IsExecution(c, run) && Reached(c, run[0].pc)
    ensures c.entry in g.instructions
  {
    hide Reached, Decodable, MachineStep;
  }

  lemma GraphIsPosed(c: Config, g: SemanticCfg)
    requires AllBacked(c.image) && KeepsReached(c, g) && g.entry == c.entry && c.entry in g.instructions
    requires forall n :: n in g.reachable <==> Reaches(g.successors, g.instructions.Keys, c.entry, n)
    requires ReverseEdges(g.reachable, g.successors, g.predecessors)
    ensures Solver.WellPosed(ProblemOf(c, g))
  {
    hide Reached, Reaches, ReverseEdges, ImageWords, Accepted, FlowSound, DecodeAt, StaticTargets, Targets;
  }

  // ---------------------------------------------------------------- the operation

  ghost predicate HandoffsExact(c: Config, handoffs: set<Handoff>)
    requires AllBacked(c.image)
  {
    forall h :: h in handoffs <==> HandoffOf(c, h)
  }

  ghost predicate DominanceExact(c: Config, tree: DominatorTree)
    requires AllBacked(c.image)
  {
    forall a, n :: tree.Answers(a, n) <==> Dominates(c, a, n)
  }

  /** The external edges lead where control can leave the code that it can come to. */
  ghost predicate ExternalExact(c: Config, edges: set<(u32, u32)>)
    requires AllBacked(c.image)
  {
    forall s: u32, t: u32 :: (s, t) in edges <==> Controlled(c, s) && ControlGoes(c, s, t) && !Controlled(c, t)
  }

  /** Everything a caller can rely on about a decoded graph, said about the image. */
  ghost predicate DecodedExactly(c: Config, d: DecodedCfg)
    requires AllBacked(c.image)
  {
    && d.graph.entry == c.entry && d.graph.isa == c.isa
    && KeepsReached(c, d.graph)
    && FollowsControl(c, d.graph)
    && ReachedDisjoint(c, d.graph)
    && HandoffsExact(c, d.handoffs)
    && DominanceExact(c, d.graph.dominators)
    && ExternalExact(c, d.graph.externalEdges)
    && SoundStates(c, d.exactStates)
    && (exists history :: WorkFits(c, history))
    && BlocksFit(c)
  }

  lemma DominanceOf(c: Config, w: Walk, g: SemanticCfg)
    requires AllBacked(c.image) && Walking(c, w, None) && w.pending == [] && KeepsReached(c, g)
    requires g.instructions == w.instructions
    requires forall a, n :: g.dominators.Answers(a, n) <==>
               a in g.reachable && n in g.reachable && MustPass(w.successors, w.instructions.Keys, c.entry, a, n)
    ensures DominanceExact(c, g.dominators)
  {
    hide *;
    SameReachable(c, g);
    KeptSound(c, g);
    forall a, n
      ensures g.dominators.Answers(a, n) <==> Dominates(c, a, n)
    {
      TrailsArePaths(c, w, a, n);
      DominatesAsTrails(c, a, n);
    }
    AllAnswers(c, g.dominators);
  }

  lemma AllAnswers(c: Config, tree: DominatorTree)
    requires AllBacked(c.image) && forall a, n :: tree.Answers(a, n) <==> Dominates(c, a, n)
    ensures DominanceExact(c, tree)
  {
    hide Dominates, DominatorTree.Answers;
  }

  lemma DecodedAll(c: Config, w: Walk, d: DecodedCfg, history: seq<u32>)
    requires AllBacked(c.image) && Walking(c, w, None) && w.pending == []
    requires d.graph.entry == c.entry && d.graph.isa == c.isa
    requires d.graph.instructions == w.instructions && d.handoffs == w.handoffs
    requires KeepsReached(c, d.graph) && DominanceExact(c, d.graph.dominators)
    requires ExternalExact(c, d.graph.externalEdges) && SoundStates(c, d.exactStates) && WorkFits(c, history)
    requires BlocksFit(c)
    ensures DecodedExactly(c, d)
  {
    FinishedDisjoint(c, w, d.graph);
    FinishedHandoffs(c, w);
    KeptFollowsControl(c, d.graph);
    hide Walking, KeepsReached, FollowsControl, HandoffOf, SoundStates, WorkFits, DominanceExact, ExternalExact,
      BlocksFit;
  }

  /** A finished walk has started a block wherever the image needs one. */
  lemma NeededAreStarted(c: Config, w: Walk, starts: set<u32>)
    requires AllBacked(c.image) && Walking(c, w, None) && w.pending == [] && NeededBlocks(c, starts)
    ensures starts <= w.blockStarts
  {
    Steps.WalkingFacts(c, w, None);
    Steps.FinishedExactly(c, w);
    hide Walking, OutcomesOk, Decodable, Reached, PcInWindow, StaticTargets, Targets, DecodeAt, StartsBlocks, Reaches,
      EdgesRecorded, HandoffsOk, EdgesAccounted;
    forall b | b in starts
      ensures b in w.blockStarts
    {
      if b != c.entry {
        var s :| BranchesTo(c, s, b);
        KeptFacts(c, w, s);
        InWindow(c, b);
        assert IsBlockEdge(w, s, b);
        if b in w.failedTargets {
          FailedMeans(c, w, b);
        }
      }
    }
  }

  lemma BlocksDone(b: CfgBuilder)
    requires AllBacked(b.c.image) && Walking(b.c, b.Now(), None) && b.pending == [] && b.WithinLimits()
    ensures BlocksFit(b.c)
  {
    hide Walking, NeededBlocks;
    forall starts | NeededBlocks(b.c, starts)
      ensures |starts| <= b.c.limits.maxBlocks
    {
      NeededAreStarted(b.c, b.Now(), starts);
      Subset(starts, b.blockStarts);
    }
  }

  // ---------------------------------------------------------------- which codes are accepted

  /**
   * An address that is sought inside a reached instruction but holds nothing to keep. A walk that accepts the code has
   * attempted the address first: a later attempt would have entered the instruction.
   */
  ghost predicate EntersNothing(c: Config, a: u32, b: u32)
    requires AllBacked(c.image)
  {
    !Reached(c, b) && EntersInstruction(c, a, b)
  }

  /** What a walk may refuse is what every walk refuses, and the codes whose fate depends on the order of attempts. */
  lemma MalformedExactly(c: Config)
    requires AllBacked(c.image)
    ensures Malformed(c) <==> AlwaysRefused(c) || exists a, b :: EntersNothing(c, a, b)
  {
    hide BadInstruction, BadFlow, EntersInstruction, IsAligned, Reached;
    if a, b :| EntersInstruction(c, a, b) {
      assert ReachedOverlap(c, a, b) || EntersNothing(c, a, b);
    }
    if a, b :| ReachedOverlap(c, a, b) {
      assert EntersInstruction(c, a, b);
    }
    if a, b :| EntersNothing(c, a, b) {
      assert EntersInstruction(c, a, b);
    }
  }

  lemma FinishedInstructions(c: Config, w: Walk, pc: u32)
    requires AllBacked(c.image) && Walking(c, w, None) && w.pending == []
    ensures !BadInstruction(c, pc)
  {
    hide Walking, Sought, Accepted, DecodeAt, Reached, FailureAt, Decodable;
    if Sought(c, pc) {
      AttemptedIsSought(c, w);
      AttemptedOutcome(c, w, pc);
      if pc in w.instructions {
        KeptFacts(c, w, pc);
      } else {
        Steps.WalkingFacts(c, w, None);
        assert FailedOk(c, w, pc);
      }
    }
  }

  lemma FinishedFlow(c: Config, w: Walk, pc: u32)
    requires AllBacked(c.image) && Walking(c, w, None) && w.pending == []
    ensures !BadFlow(c, pc)
  {
    Steps.FinishedExactly(c, w);
    hide Walking, FlowSound, Reached, Reaches;
    if pc in w.instructions {
      KeptFacts(c, w, pc);
    }
  }

  lemma FinishedOverlap(c: Config, w: Walk, a: u32, b: u32)
    requires AllBacked(c.image) && Walking(c, w, None) && w.pending == []
    ensures !ReachedOverlap(c, a, b)
  {
    Steps.FinishedExactly(c, w);
    Steps.WalkingFacts(c, w, None);
    hide Walking, Sought, DecodeAt, Reached, Reaches, Accepted, FlowSound, Decodable, OutcomesOk;
    if Reached(c, a) && Reached(c, b) && a < b {
      KeptFacts(c, w, a);
      KeptFacts(c, w, b);
      DisjointPair(w.extents, a, b);
    }
  }

  /** A walk that ends well has met none of the faults that every walk refuses. */
  lemma FinishedNotRefused(c: Config, w: Walk)
    requires AllBacked(c.image) && Walking(c, w, None) && w.pending == [] && IsAligned(c.entry, c.isa)
    ensures !AlwaysRefused(c)
  {
    hide Walking, BadInstruction, BadFlow, ReachedOverlap, IsAligned;
    forall pc
      ensures !BadInstruction(c, pc) && !BadFlow(c, pc)
    {
      FinishedInstructions(c, w, pc);
      FinishedFlow(c, w, pc);
    }
    forall a, b
      ensures !ReachedOverlap(c, a, b)
    {
      FinishedOverlap(c, w, a, b);
    }
  }

  /** The instructions and bytes that are sought fit the limits, however many of them are counted. */
  ghost predicate SoughtFits(c: Config)
    requires AllBacked(c.image)
  {
    forall h | AllSought(c, h) :: HistoryFits(c, h)
  }

  ghost predicate HistoryFits(c: Config, h: seq<u32>)
    requires AllBacked(c.image)
  {
    |h| <= c.limits.maxInstructions && Saturated(TotalCost(c, h)) <= c.limits.maxChargedBytes
  }

  /** The block starts that a walk may count fit the limit. */
  ghost predicate StartsFit(c: Config)
    requires AllBacked(c.image)
  {
    forall starts | AllBlocks(c, starts) :: |starts| <= c.limits.maxBlocks
  }

  lemma {:induction false} CostOfPart(c: Config, part: seq<u32>, whole: seq<u32>)
    requires AllBacked(c.image)
    requires forall i, j | 0 <= i < j < |part| :: part[i] != part[j]
    requires forall x | x in part :: x in whole
    ensures |part| <= |whole| && TotalCost(c, part) <= TotalCost(c, whole)
    decreases |part|
  {
    if part != [] {
      var n := |part| - 1;
      var x := part[n];
      assert x in part;
      var k :| 0 <= k < |whole| && whole[k] == x;
      var rest := whole[..k] + whole[k + 1..];
      forall y | y in part[..n]
        ensures y in rest
      {
        StillThere(part, whole, k, y);
      }
      CostOfPart(c, part[..n], rest);
      CostWithout(c, whole, k);
    }
  }

  lemma StillThere(part: seq<u32>, whole: seq<u32>, k: nat, y: u32)
    requires part != [] && k < |whole| && whole[k] == part[|part| - 1] && y in part[..|part| - 1]
    requires forall i, j | 0 <= i < j < |part| :: part[i] != part[j]
    requires forall x | x in part :: x in whole
    ensures y in whole[..k] + whole[k + 1..]
  {
    var i :| 0 <= i < |part| - 1 && part[i] == y;
    assert part[i] in part;
    var j :| 0 <= j < |whole| && whole[j] == y;
    var rest := whole[..k] + whole[k + 1..];
    assert j < k ==> rest[j] == y;
    assert j > k ==> rest[j - 1] == y;
  }

  lemma {:induction false} CostWithout(c: Config, whole: seq<u32>, k: nat)
    requires AllBacked(c.image) && k < |whole|
    ensures TotalCost(c, whole) == TotalCost(c, whole[..k] + whole[k + 1..]) + Cost(c, whole[k])
    decreases |whole|
  {
    hide Cost;
    var n := |whole| - 1;
    var rest := whole[..k] + whole[k + 1..];
    if k == n {
      assert rest == whole[..n];
    } else {
      var shorter := whole[..n];
      CostWithout(c, shorter, k);
      assert rest[..|rest| - 1] == shorter[..k] + shorter[k + 1..];
      assert rest[|rest| - 1] == whole[n] && shorter[k] == whole[k];
    }
  }

  /** The one history of a finished walk counts at least as much as any other. */
  lemma WorkFitsAll(c: Config, history: seq<u32>)
    requires AllBacked(c.image) && WorkFits(c, history)
    ensures SoughtFits(c)
  {
    hide Sought, TotalCost, NeverEnters;
    forall h | AllSought(c, h)
      ensures HistoryFits(c, h)
    {
      forall x | x in h
        ensures x in history
      {
        var i :| 0 <= i < |h| && h[i] == x;
        assert Sought(c, h[i]);
      }
      CostOfPart(c, h, history);
    }
  }

  /** Within the limits, a refusal is the fault of the code. */
  lemma RefusedWithinLimits(c: Config, e: SemanticCfgError)
    requires AllBacked(c.image) && Justified(c, e) && SoughtFits(c) && StartsFit(c)
    ensures Malformed(c)
  {
    hide Malformed, LimitPassed, SoughtFits, StartsFit;
    if e.ResourceLimit? {
      NoLimitPassed(c, e);
    }
  }

  lemma NoLimitPassed(c: Config, e: SemanticCfgError)
    requires AllBacked(c.image) && e.ResourceLimit? && SoughtFits(c) && StartsFit(c)
    ensures !LimitPassed(c, e)
  {
    hide AllSought, AllBlocks, TotalCost, Saturated;
    assert forall h | AllSought(c, h) :: HistoryFits(c, h);
  }

  /** The targets of reached branches and calls that stay in the window hold instructions. */
  ghost predicate BranchesLand(c: Config)
    requires AllBacked(c.image)
  {
    forall s, t | BranchesTo(c, s, t) && PcInWindow(c, t) :: Decodable(c, t)
  }

  lemma LandedStartsFit(c: Config)
    requires AllBacked(c.image) && BranchesLand(c) && BlocksFit(c)
    ensures StartsFit(c)
  {
    hide BranchesTo, PcInWindow, Decodable;
    forall starts | AllBlocks(c, starts)
      ensures |starts| <= c.limits.maxBlocks
    {
      assert NeededBlocks(c, starts);
    }
  }

  /** What the outcome of a decode says about the code and the limits, and the other way round. */
  ghost predicate OutcomeExact(c: Config, accepted: bool)
    requires AllBacked(c.image)
  {
    && (accepted ==> !AlwaysRefused(c) && SoughtFits(c) && BlocksFit(c))
    && (!Malformed(c) && SoughtFits(c) && StartsFit(c) ==> accepted)
  }

  /**
   * Exactly when a code is accepted, if its branches land on instructions and no address that holds nothing is sought
   * inside a reached instruction: it has none of the faults, and its work and blocks fit the limits.
   */
  lemma AcceptedExactly(c: Config, accepted: bool)
    requires AllBacked(c.image) && OutcomeExact(c, accepted)
    requires BranchesLand(c) && !exists a, b :: EntersNothing(c, a, b)
    ensures accepted <==> !AlwaysRefused(c) && SoughtFits(c) && BlocksFit(c)
  {
    MalformedExactly(c);
    if BlocksFit(c) {
      LandedStartsFit(c);
    }
    hide Malformed, AlwaysRefused, SoughtFits, BlocksFit, StartsFit, BranchesLand, EntersNothing;
  }

  lemma OutcomeFrom(c: Config, accepted: bool, e: SemanticCfgError)
    requires AllBacked(c.image)
    requires accepted ==> !AlwaysRefused(c) && SoughtFits(c) && BlocksFit(c)
    requires !accepted ==> Justified(c, e)
    ensures OutcomeExact(c, accepted)
  {
    if !accepted && SoughtFits(c) && StartsFit(c) {
      RefusedWithinLimits(c, e);
    }
    hide Malformed, AlwaysRefused, SoughtFits, BlocksFit, StartsFit, Justified;
  }

  lemma SameReachable(c: Config, g: SemanticCfg)
    requires AllBacked(c.image) && KeepsReached(c, g)
    ensures g.reachable == g.instructions.Keys
  {
    hide Reached, KeptAsDecoded;
  }

  lemma WorkDone(b: CfgBuilder, history: seq<u32>)
    requires AllBacked(b.c.image) && Walking(b.c, b.Now(), None) && b.pending == []
    requires b.WithinLimits() && b.Counted(history) && NeverEnters(b.c, history)
    ensures WorkFits(b.c, history)
  {
    hide Walking, Sought, TotalCost, NeverEnters;
    AttemptedIsSought(b.c, b.Now());
    NoRepeat(history, b.attempted);
  }

  /** The history of a finished walk is the whole order, and it fits. */
  lemma OrderDone(b: CfgBuilder, history: seq<u32>)
    requires AllBacked(b.c.image) && b.pending == [] && Ordered(b.c, b.Now(), history)
    requires b.WithinLimits() && b.Counted(history) && NeverEnters(b.c, history) && !AlwaysRefused(b.c)
    ensures Admitted(b.c)
  {
    hide AlwaysRefused, TotalCost, NeverEnters, InTurn, Listed, StartsAfter, Admitted;
    assert history + [] == history;
    WholeFits(b.c, history);
  }

  lemma RefusesMeans(c: Config)
    requires AllBacked(c.image)
    ensures forall e :: Refuses(c, e) ==> Justified(c, e) && !Admitted(c)
  {
    hide Justified, Admitted;
  }

  lemma RefusedAtOnce(c: Config, e: SemanticCfgError)
    requires AllBacked(c.image)
    requires || (!IsAligned(c.entry, c.isa) && e == InvalidFlow(c.entry))
             || (c.limits.maxBlocks < 1 && e == ResourceLimit("blocks", 1, c.limits.maxBlocks))
    ensures Refuses(c, e)
  {
    hide BadInstruction, EntersInstruction, BadFlow, IsAligned, Admitted, Malformed;
    if e.ResourceLimit? {
      assert AllBlocks(c, {c.entry}) && |{c.entry}| == 1;
      MisfitNotAdmitted(c, []);
    } else {
      RefusedByFault(c, e);
    }
  }

  /** The walk alone; its result is described by a finished walk state. */
  method WalkFromEntry(c: Config)
    returns (error: Option<SemanticCfgError>, instructions: map<u32, Instruction>, successors: Adjacency,
             handoffs: set<Handoff>, ghost w: Walk, ghost history: seq<u32>)
    requires ValidImage(c.image) && AllBacked(c.image)
    ensures error.None? ==> Walking(c, w, None) && w.pending == [] && WorkFits(c, history)
    ensures error.None? ==> IsAligned(c.entry, c.isa) && BlocksFit(c) && Admitted(c)
    ensures error.None? ==> instructions == w.instructions && successors == w.successors && handoffs == w.handoffs
    ensures error.Some? ==> Justified(c, error.value) && !Admitted(c)
  {
    hide *;
    RefusesMeans(c);
    instructions, successors, handoffs, history := map[], map[], {}, [];
    w := Steps.Opening(c.entry);
    if !IsAligned(c.entry, c.isa) {
      error := Some(InvalidFlow(c.entry));
      RefusedAtOnce(c, error.value);
      return;
    }
    if c.limits.maxBlocks < 1 {
      error := Some(ResourceLimit("blocks", 1, c.limits.maxBlocks));
      RefusedAtOnce(c, error.value);
      return;
    }
    var builder := new CfgBuilder(c);
    Steps.OpeningWalks(c);
    OpeningOrdered(c);
    error, history := builder.Run();
    if error.None? {
      builder.NowIs();
      w := builder.Now();
      WorkDone(builder, history);
      BlocksDone(builder);
      FinishedNotRefused(c, w);
      OrderDone(builder, history);
      instructions, successors, handoffs := builder.instructions, builder.successors, builder.handoffs;
    }
  }

  /**
   * Decodes from the entry. A refusal is a limit passed or the fault of the reached code; a result is
   * exactly what the image says.
   */
  method DecodeGraph(c: Config) returns (r: Result<DecodedCfg, SemanticCfgError>)
    requires ValidImage(c.image)
    ensures AllBacked(c.image)
    ensures r.Success? ==> DecodedExactly(c, r.value)
    ensures r.Failure? ==> Justified(c, r.error)
    ensures r.Success? <==> Admitted(c)
    ensures OutcomeExact(c, r.Success?)
  {
    hide *;
    ValidIsBacked(c.image);
    var error, instructions, successors, handoffs, w, history := WalkFromEntry(c);
    if error.Some? {
      OutcomeFrom(c, false, error.value);
      return Failure(error.value);
    }
    var graph := FromGraph(c.entry, c.isa, instructions, successors);
    FinishedKeeps(c, w, graph);
    FinishedExternal(c, graph);
    DominanceOf(c, w, graph);
    if c.entry in graph.instructions {
      GraphIsPosed(c, graph);
    }
    ProblemFields(c, graph);
    var before, after := Solver.SolveDataflow(ProblemOf(c, graph));
    StatesSound(c, graph, before, after);
    r := Success(DecodedCfg(graph, handoffs, before));
    DecodedAll(c, w, r.value, history);
    FinishedNotRefused(c, w);
    WorkFitsAll(c, history);
    OutcomeFrom(c, true, InvalidFlow(c.entry));
  }

  lemma ProblemFields(c: Config, g: SemanticCfg)
    requires AllBacked(c.image)
    ensures var p := ProblemOf(c, g);
            p.entry == g.entry && p.instructions == g.instructions && p.reachable == g.reachable
  {
  }
}
