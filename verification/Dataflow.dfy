/**
 * The must-value worklist solver. It ends, it ends in a solution of the dataflow equations, and no claim that the
 * equations bear out knows anything it does not know, so its result does not depend on worklist order.
 */
module Dataflow {
  import opened Words
  import opened ControlGraph
  import opened Arm32
  import opened PostOrder
  import opened SemanticGraph
  import opened MustValues
  import opened DataflowJoin
  import opened DataflowMeasure
  import opened KnownValues

  datatype Problem = Problem(
    entry: u32,
    instructions: map<u32, Instruction>,
    successors: Adjacency,
    predecessors: Adjacency,
    reachable: set<u32>,
    words: LiteralWords,
    policy: ExactPolicy)

  ghost predicate WellPosed(p: Problem) {
    && p.entry in p.reachable && p.reachable <= p.instructions.Keys
    && EdgesFollowed(p.successors, p.instructions.Keys, p.reachable, p.reachable)
    && AllReached(p.successors, p.reachable, p.entry)
    && ReverseEdges(p.reachable, p.successors, p.predecessors)
  }

  function TransferAt(p: Problem, pc: u32, s: RegisterState): RegisterState
    requires pc in p.instructions
  {
    Transfer(p.words, pc, p.instructions[pc], s, p.policy)
  }

  /** The predecessors of `n` that have published an output. */
  ghost function Sources(p: Problem, n: u32, after: States): set<u32> {
    Targets(p.predecessors, n) * after.Keys
  }

  /** What the equations say must hold before `n`. */
  ghost function JoinedAt(p: Problem, n: u32, after: States): RegisterState
    requires n != p.entry ==> Sources(p, n, after) != {}
  {
    if n == p.entry then map[] else JoinSet(Sources(p, n, after), after, p.policy)
  }

  ghost predicate SolvedAt(p: Problem, before: States, after: States, n: u32)
    requires n in p.instructions
  {
    && n in before && n in after
    && after[n] == TransferAt(p, n, before[n])
    && (n != p.entry ==> Sources(p, n, after) != {})
    && before[n] == JoinedAt(p, n, after)
  }

  /** The dataflow equations, at every reachable instruction and nowhere else. */
  ghost predicate IsSolution(p: Problem, before: States, after: States)
    requires p.reachable <= p.instructions.Keys
  {
    && before.Keys == p.reachable && after.Keys == p.reachable
    && forall n | n in p.reachable :: SolvedAt(p, before, after, n)
  }

  ghost predicate BorneOutAt(p: Problem, before: States, after: States, n: u32)
    requires n in p.instructions
  {
    && n in before && n in after
    && Forgets(TransferAt(p, n, before[n]), after[n])
    && (n != p.entry ==> Sources(p, n, after) != {})
    && Forgets(JoinedAt(p, n, after), before[n])
  }

  /** A claim about what is known everywhere that follows from itself: everything it says, the equations say as well. */
  ghost predicate IsBorneOut(p: Problem, before: States, after: States)
    requires p.reachable <= p.instructions.Keys
  {
    && before.Keys == p.reachable && after.Keys == p.reachable
    && forall n | n in p.reachable :: BorneOutAt(p, before, after, n)
  }

  /** After every instruction, exactly what can be known is known. */
  ghost predicate KnowsThroughout(p: Problem, before: States, after: States)
    requires p.reachable <= p.instructions.Keys
  {
    forall n, r: Register | n in p.reachable && n in before && n in after ::
      KnowsAfter(p.words, n, p.instructions[n], before[n], p.policy, after[n], r)
  }

  lemma SolutionKnows(p: Problem, before: States, after: States)
    requires p.reachable <= p.instructions.Keys && IsSolution(p, before, after)
    ensures KnowsThroughout(p, before, after)
  {
    hide Transfer, KnowsAfter, JoinedAt, Sources;
    forall n, r: Register | n in p.reachable
      ensures n in before && n in after && KnowsAfter(p.words, n, p.instructions[n], before[n], p.policy, after[n], r)
    {
      assert SolvedAt(p, before, after, n);
      TransferKnows(p.words, n, p.instructions[n], before[n], p.policy, r);
    }
  }

  lemma SolutionIsBorneOut(p: Problem, before: States, after: States)
    requires p.reachable <= p.instructions.Keys && IsSolution(p, before, after)
    ensures IsBorneOut(p, before, after)
  {
    hide TransferAt, JoinedAt, Forgets, Sources;
    forall n | n in p.reachable
      ensures BorneOutAt(p, before, after, n)
    {
      assert SolvedAt(p, before, after, n);
      ForgetsItself(before[n]);
      ForgetsItself(after[n]);
    }
  }

  // ---------------------------------------------------------------- invariant

  ghost predicate QueueOk(pending: seq<u32>, queued: set<u32>, before: States) {
    && NoRepeats(pending)
    && (forall n :: n in queued <==> n in pending)
    && (forall n | n in pending :: n in before)
  }

  ghost predicate Started(p: Problem, before: States, after: States) {
    && before.Keys <= p.reachable && after.Keys <= before.Keys
    && p.entry in before && before[p.entry] == map[]
    && (forall n | n in before :: Grounded(before[n], p.instructions.Keys))
    && (forall n | n in after :: Grounded(after[n], p.instructions.Keys))
  }

  /** A published output can only be replaced by one that forgets more. */
  ghost predicate OutputsForget(p: Problem, before: States, after: States)
    requires p.reachable <= p.instructions.Keys
  {
    forall n | n in after && n in before && n in p.reachable :: Forgets(after[n], TransferAt(p, n, before[n]))
  }

  ghost predicate OutputsCurrent(p: Problem, before: States, after: States, queued: set<u32>)
    requires p.reachable <= p.instructions.Keys
  {
    forall n | n in before && n in p.reachable && n !in queued :: n in after && after[n] == TransferAt(p, n, before[n])
  }

  /** An input can only be replaced by one that forgets more. */
  ghost predicate InputsForget(p: Problem, before: States, after: States) {
    forall n | n in before && n != p.entry ::
      Sources(p, n, after) != {} && Forgets(before[n], JoinSet(Sources(p, n, after), after, p.policy))
  }

  /** Except at the `stale` nodes, every input is the join of the outputs published so far. */
  ghost predicate InputsCurrent(p: Problem, before: States, after: States, stale: set<u32>) {
    forall n | n in p.reachable && n != p.entry && n !in stale && Sources(p, n, after) != {} ::
      n in before && before[n] == JoinSet(Sources(p, n, after), after, p.policy)
  }

  /** No claim that is borne out knows anything that has already been given up. */
  ghost predicate NothingLost(p: Problem, before: States, after: States)
    requires p.reachable <= p.instructions.Keys
  {
    forall b, a | IsBorneOut(p, b, a) :: Precedes(p, before, after, b, a)
  }

  ghost predicate Precedes(p: Problem, before: States, after: States, b: States, a: States) {
    && (forall n | n in before :: n in b && Forgets(before[n], b[n]))
    && (forall n | n in after :: n in a && Forgets(after[n], a[n]))
  }

  ghost predicate Solving(p: Problem, before: States, after: States, queued: set<u32>, stale: set<u32>) {
    && WellPosed(p)
    && Started(p, before, after)
    && OutputsForget(p, before, after)
    && OutputsCurrent(p, before, after, queued)
    && InputsForget(p, before, after)
    && InputsCurrent(p, before, after, stale)
    && NothingLost(p, before, after)
  }

  lemma Initially(p: Problem)
    requires WellPosed(p)
    ensures Solving(p, map[p.entry := map[]], map[], {p.entry}, {})
  {
    var before: States := map[p.entry := map[]];
    forall b, a | IsBorneOut(p, b, a)
      ensures Precedes(p, before, map[], b, a)
    {
      assert BorneOutAt(p, b, a, p.entry);
    }
  }

  // ---------------------------------------------------------------- publishing an output

  ghost function FreshTargets(p: Problem, pc: u32): set<u32> {
    Targets(p.successors, pc) * p.reachable
  }

  lemma PublishInputsForget(p: Problem, before: States, after: States, pc: u32, output: RegisterState)
    requires InputsForget(p, before, after) && pc in before
    requires pc in after ==> Forgets(after[pc], output)
    ensures InputsForget(p, before, after[pc := output])
  {
    var u := after[pc := output];
    forall n | n in before && n != p.entry
      ensures Sources(p, n, u) != {} && Forgets(before[n], JoinSet(Sources(p, n, u), u, p.policy))
    {
      assert Sources(p, n, after) <= Sources(p, n, u);
      forall q | q in Sources(p, n, after)
        ensures Forgets(after[q], u[q])
      {
      }
      JoinMonotone(Sources(p, n, after), Sources(p, n, u), after, u, p.policy);
      ForgetsTransitive(before[n], JoinSet(Sources(p, n, after), after, p.policy),
                        JoinSet(Sources(p, n, u), u, p.policy));
    }
  }

  /** A node that does not have `pc` as a predecessor joins the same outputs as before. */
  lemma JoinUntouched(p: Problem, after: States, pc: u32, output: RegisterState, n: u32)
    requires pc !in Targets(p.predecessors, n) && Sources(p, n, after) != {}
    ensures Sources(p, n, after[pc := output]) == Sources(p, n, after)
    ensures JoinSet(Sources(p, n, after), after[pc := output], p.policy) ==
            JoinSet(Sources(p, n, after), after, p.policy)
  {
    var u := after[pc := output];
    var sources := Sources(p, n, after);
    assert forall q | q in sources :: q in after && u[q] == after[q];
    JoinSame(sources, after, u, p.policy);
  }

  lemma JoinSame(sources: set<u32>, s: States, t: States, policy: ExactPolicy)
    requires sources != {} && sources <= s.Keys && sources <= t.Keys && forall q | q in sources :: s[q] == t[q]
    ensures JoinSet(sources, s, policy) == JoinSet(sources, t, policy)
  {
    JoinMonotone(sources, sources, s, t, policy);
    JoinMonotone(sources, sources, t, s, policy);
    ForgetsAntisymmetric(JoinSet(sources, s, policy), JoinSet(sources, t, policy));
  }

  lemma PublishInputsCurrent(p: Problem, before: States, after: States, pc: u32, output: RegisterState)
    requires WellPosed(p) && InputsCurrent(p, before, after, {}) && pc in p.reachable
    ensures InputsCurrent(p, before, after[pc := output], FreshTargets(p, pc))
  {
    hide WellPosed, FreshTargets, Sources, JoinSet, Targets;
    var u := after[pc := output];
    forall n | n in p.reachable && n != p.entry && n !in FreshTargets(p, pc) && Sources(p, n, u) != {}
      ensures n in before && before[n] == JoinSet(Sources(p, n, u), u, p.policy)
    {
      NotFresh(p, pc, n);
      UntouchedSources(p, after, pc, output, n);
      JoinUntouched(p, after, pc, output, n);
    }
  }

  lemma NotFresh(p: Problem, pc: u32, n: u32)
    requires WellPosed(p) && pc in p.reachable && n in p.reachable && n !in FreshTargets(p, pc)
    ensures pc !in Targets(p.predecessors, n)
  {
    hide AllReached, EdgesFollowed;
  }

  lemma UntouchedSources(p: Problem, after: States, pc: u32, output: RegisterState, n: u32)
    requires pc !in Targets(p.predecessors, n)
    ensures Sources(p, n, after[pc := output]) == Sources(p, n, after)
  {
    hide Targets;
  }

  lemma OutputPrecedes(p: Problem, before: States, after: States, n: u32, b: States, a: States)
    requires p.reachable <= p.instructions.Keys && n in p.reachable && n in before
    requires Precedes(p, before, after, b, a) && IsBorneOut(p, b, a)
    ensures n in a && Forgets(TransferAt(p, n, before[n]), a[n])
  {
    assert BorneOutAt(p, b, a, n);
    TransferMonotone(p.words, n, p.instructions[n], before[n], b[n], p.policy);
    hide Transfer, Forgets, JoinedAt;
    ForgetsTransitive(TransferAt(p, n, before[n]), TransferAt(p, n, b[n]), a[n]);
  }

  lemma PublishLosesNothing(p: Problem, before: States, after: States, pc: u32)
    requires p.reachable <= p.instructions.Keys && NothingLost(p, before, after)
    requires pc in before && pc in p.reachable
    ensures NothingLost(p, before, after[pc := TransferAt(p, pc, before[pc])])
  {
    var u := after[pc := TransferAt(p, pc, before[pc])];
    hide TransferAt, Forgets;
    forall b, a | IsBorneOut(p, b, a)
      ensures Precedes(p, before, u, b, a)
    {
      assert Precedes(p, before, after, b, a);
      OutputPrecedes(p, before, after, pc, b, a);
    }
  }

  lemma PublishOutputs(p: Problem, before: States, after: States, queued: set<u32>, pc: u32)
    requires p.reachable <= p.instructions.Keys && pc in p.reachable && pc in before
    requires Started(p, before, after) && OutputsForget(p, before, after) && OutputsCurrent(p, before, after, queued)
    ensures var output := TransferAt(p, pc, before[pc]); var u := after[pc := output];
            && Started(p, before, u) && OutputsForget(p, before, u) && OutputsCurrent(p, before, u, queued - {pc})
            && (pc in after ==> Forgets(after[pc], output)) && Grounded(output, p.instructions.Keys)
  {
    TransferGrounded(p.words, pc, p.instructions[pc], before[pc], p.policy, p.instructions.Keys);
  }

  lemma QueuedIsReachable(p: Problem, before: States, after: States, pc: u32)
    requires WellPosed(p) && Started(p, before, after) && pc in before
    ensures pc in p.reachable && p.reachable <= p.instructions.Keys
  {
  }

  lemma Publish(p: Problem, before: States, after: States, queued: set<u32>, pc: u32)
    requires Solving(p, before, after, queued, {}) && pc in before
    ensures pc in p.reachable && pc in p.instructions
    ensures var output := TransferAt(p, pc, before[pc]);
            && Solving(p, before, after[pc := output], queued - {pc}, FreshTargets(p, pc))
            && (pc in after ==> Forgets(after[pc], output)) && Grounded(output, p.instructions.Keys)
  {
    hide WellPosed, Started, InputsForget, InputsCurrent, OutputsForget, OutputsCurrent, NothingLost, TransferAt;
    hide Forgets, Grounded;
    QueuedIsReachable(p, before, after, pc);
    var output := TransferAt(p, pc, before[pc]);
    PublishOutputs(p, before, after, queued, pc);
    PublishInputsForget(p, before, after, pc, output);
    PublishInputsCurrent(p, before, after, pc, output);
    PublishLosesNothing(p, before, after, pc);
  }

  // ---------------------------------------------------------------- refreshing an input

  lemma RefreshInputs(p: Problem, before: States, after: States, queued: set<u32>, stale: set<u32>,
                      n: u32, joined: RegisterState)
    requires Solving(p, before, after, queued, stale) && n in p.reachable && Sources(p, n, after) != {}
    requires joined == JoinedAt(p, n, after)
    ensures n in before ==> Forgets(before[n], joined)
    ensures InputsForget(p, before[n := joined], after)
    ensures InputsCurrent(p, before[n := joined], after, stale - {n})
    ensures Started(p, before[n := joined], after)
  {
    hide *;
    SolvingInputs(p, before, after, queued, stale);
    RefreshStarted(p, before, after, n, joined);
    RefreshForgets(p, before, after, n, joined);
    RefreshCurrent(p, before, after, stale, n, joined);
  }

  lemma RefreshStarted(p: Problem, before: States, after: States, n: u32, joined: RegisterState)
    requires Started(p, before, after) && n in p.reachable && Sources(p, n, after) != {}
    requires joined == JoinedAt(p, n, after)
    ensures Started(p, before[n := joined], after)
  {
    hide JoinSet, Grounded;
    SourcesKnown(p, n, after);
    if n != p.entry {
      JoinGrounded(Sources(p, n, after), after, p.policy, p.instructions.Keys);
    }
    hide Sources;
  }

  lemma SourcesKnown(p: Problem, n: u32, after: States)
    ensures Sources(p, n, after) <= after.Keys
  {
  }

  lemma RefreshForgets(p: Problem, before: States, after: States, n: u32, joined: RegisterState)
    requires Started(p, before, after) && InputsForget(p, before, after) && Sources(p, n, after) != {}
    requires joined == JoinedAt(p, n, after)
    ensures n in before ==> Forgets(before[n], joined)
    ensures InputsForget(p, before[n := joined], after)
  {
    hide JoinSet, Grounded, Sources, Forgets;
    ForgetsItself(joined);
  }

  lemma RefreshCurrent(p: Problem, before: States, after: States, stale: set<u32>, n: u32, joined: RegisterState)
    requires InputsCurrent(p, before, after, stale) && Sources(p, n, after) != {}
    requires joined == JoinedAt(p, n, after)
    ensures InputsCurrent(p, before[n := joined], after, stale - {n})
  {
    hide JoinSet, Sources;
  }

  lemma ForgetsItself(s: RegisterState)
    ensures Forgets(s, s)
  {
  }

  lemma SolvingInputs(p: Problem, before: States, after: States, queued: set<u32>, stale: set<u32>)
    requires Solving(p, before, after, queued, stale)
    ensures WellPosed(p) && Started(p, before, after) && InputsForget(p, before, after)
    ensures InputsCurrent(p, before, after, stale)
  {
    hide InputsForget, InputsCurrent, WellPosed, Started, NothingLost, OutputsForget, OutputsCurrent;
  }

  lemma RefreshOutputs(p: Problem, before: States, after: States, queued: set<u32>, n: u32, joined: RegisterState)
    requires p.reachable <= p.instructions.Keys && n in p.reachable && after.Keys <= before.Keys
    requires n in before ==> Forgets(before[n], joined)
    requires OutputsForget(p, before, after) && OutputsCurrent(p, before, after, queued)
    ensures OutputsForget(p, before[n := joined], after)
    ensures OutputsCurrent(p, before[n := joined], after, queued + {n})
    ensures n in before && before[n] == joined ==> OutputsCurrent(p, before[n := joined], after, queued)
  {
    if n in before {
      TransferMonotone(p.words, n, p.instructions[n], before[n], joined, p.policy);
      if n in after {
        ForgetsTransitive(after[n], TransferAt(p, n, before[n]), TransferAt(p, n, joined));
      }
    }
  }

  lemma JoinedPrecedes(p: Problem, before: States, after: States, n: u32, b: States, a: States)
    requires p.reachable <= p.instructions.Keys && n in p.reachable && Sources(p, n, after) != {}
    requires Precedes(p, before, after, b, a) && IsBorneOut(p, b, a)
    ensures n in b && Forgets(JoinedAt(p, n, after), b[n])
  {
    hide Transfer, Forgets, JoinSet;
    assert BorneOutAt(p, b, a, n);
    if n != p.entry {
      assert Sources(p, n, after) <= Sources(p, n, a);
      JoinMonotone(Sources(p, n, after), Sources(p, n, a), after, a, p.policy);
      ForgetsTransitive(JoinedAt(p, n, after), JoinedAt(p, n, a), b[n]);
    }
  }

  lemma RefreshLosesNothing(p: Problem, before: States, after: States, n: u32, joined: RegisterState)
    requires p.reachable <= p.instructions.Keys && NothingLost(p, before, after) && n in p.reachable
    requires Sources(p, n, after) != {} && joined == JoinedAt(p, n, after)
    ensures NothingLost(p, before[n := joined], after)
  {
    hide IsBorneOut, JoinedAt, Forgets, Sources;
    var u := before[n := joined];
    forall b, a | IsBorneOut(p, b, a)
      ensures Precedes(p, u, after, b, a)
    {
      assert Precedes(p, before, after, b, a);
      JoinedPrecedes(p, before, after, n, b, a);
    }
  }

  lemma Refresh(p: Problem, before: States, after: States, queued: set<u32>, stale: set<u32>,
                n: u32, joined: RegisterState)
    requires Solving(p, before, after, queued, stale) && n in p.reachable && Sources(p, n, after) != {}
    requires joined == JoinedAt(p, n, after)
    ensures Solving(p, before[n := joined], after, queued + {n}, stale - {n})
    ensures n in before && before[n] == joined ==> Solving(p, before, after, queued, stale - {n})
  {
    hide *;
    SolvingParts(p, before, after, queued, stale);
    RefreshInputs(p, before, after, queued, stale, n, joined);
    RefreshOutputs(p, before, after, queued, n, joined);
    RefreshLosesNothing(p, before, after, n, joined);
    SolvingFrom(p, before[n := joined], after, queued + {n}, stale - {n});
    if n in before && before[n] == joined {
      assert before[n := joined] == before;
      SolvingFrom(p, before, after, queued, stale - {n});
    }
  }

  lemma SolvingParts(p: Problem, before: States, after: States, queued: set<u32>, stale: set<u32>)
    requires Solving(p, before, after, queued, stale)
    ensures WellPosed(p) && p.reachable <= p.instructions.Keys && Started(p, before, after)
    ensures after.Keys <= before.Keys
    ensures OutputsForget(p, before, after) && OutputsCurrent(p, before, after, queued)
    ensures NothingLost(p, before, after)
  {
    hide NothingLost, OutputsForget, OutputsCurrent, InputsForget, InputsCurrent, EdgesFollowed, AllReached,
      ReverseEdges, Grounded;
  }

  lemma SolvingFrom(p: Problem, before: States, after: States, queued: set<u32>, stale: set<u32>)
    requires WellPosed(p) && p.reachable <= p.instructions.Keys && Started(p, before, after)
    requires OutputsForget(p, before, after) && OutputsCurrent(p, before, after, queued)
    requires InputsForget(p, before, after) && InputsCurrent(p, before, after, stale) && NothingLost(p, before, after)
    ensures Solving(p, before, after, queued, stale)
  {
    hide WellPosed, Started, NothingLost, OutputsForget, OutputsCurrent, InputsForget, InputsCurrent;
  }

  // ---------------------------------------------------------------- the end

  lemma HasSource(p: Problem, n: u32)
    requires WellPosed(p) && n in p.reachable && n != p.entry
    ensures exists q :: q in p.reachable && q in Targets(p.predecessors, n)
  {
    var path :| Joins(p.successors, p.reachable, p.entry, n, path);
    assert path[|path| - 1] in Targets(p.successors, path[|path| - 2]);
    assert path[|path| - 2] in Targets(p.predecessors, n);
  }

  lemma {:induction false} PathSolved(p: Problem, before: States, after: States, n: u32, path: seq<u32>)
    requires Solving(p, before, after, {}, {}) && Joins(p.successors, p.reachable, p.entry, n, path)
    ensures n in before && n in after
    decreases |path|
  {
    hide Solving, Targets;
    if |path| == 1 {
      EntrySolved(p, before, after);
    } else {
      var q := path[|path| - 2];
      assert n in Targets(p.successors, q);
      PathSolved(p, before, after, q, path[..|path| - 1]);
      SuccessorSolved(p, before, after, q, n);
    }
  }

  lemma EntrySolved(p: Problem, before: States, after: States)
    requires Solving(p, before, after, {}, {})
    ensures p.entry in before && p.entry in after
  {
    hide NothingLost, InputsForget, OutputsForget, InputsCurrent, Grounded, TransferAt;
  }

  lemma SuccessorSolved(p: Problem, before: States, after: States, q: u32, n: u32)
    requires Solving(p, before, after, {}, {}) && q in p.reachable && n in p.reachable && n in Targets(p.successors, q)
    requires q in after
    ensures n in before && n in after
  {
    EntrySolved(p, before, after);
    hide NothingLost, InputsForget, OutputsForget, Grounded, TransferAt, JoinSet, AllReached, EdgesFollowed;
    assert q in Targets(p.predecessors, n);
    assert q in Sources(p, n, after);
  }

  /** With nothing queued, the inputs and outputs are a solution. */
  lemma Finished(p: Problem, before: States, after: States)
    requires Solving(p, before, after, {}, {})
    ensures p.reachable <= p.instructions.Keys && IsSolution(p, before, after)
    ensures forall b, a | IsBorneOut(p, b, a) :: Precedes(p, before, after, b, a)
  {
    hide SolvedAt, Precedes, OutputsForget, InputsForget, OutputsCurrent, InputsCurrent, EdgesFollowed, AllReached,
      ReverseEdges, Grounded;
    forall n | n in p.reachable
      ensures SolvedAt(p, before, after, n) && n in before && n in after
    {
      FinishedAt(p, before, after, n);
    }
    FinishedKeys(p, before, after);
  }

  lemma FinishedKeys(p: Problem, before: States, after: States)
    requires Solving(p, before, after, {}, {}) && forall n | n in p.reachable :: n in before && n in after
    ensures before.Keys == p.reachable && after.Keys == p.reachable
  {
    hide OutputsForget, InputsForget, OutputsCurrent, InputsCurrent, NothingLost, Grounded, WellPosed;
  }

  lemma FinishedAt(p: Problem, before: States, after: States, n: u32)
    requires Solving(p, before, after, {}, {}) && n in p.reachable
    ensures n in p.instructions && SolvedAt(p, before, after, n) && n in before && n in after
  {
    hide NothingLost, InputsForget, OutputsForget;
    var path :| Joins(p.successors, p.reachable, p.entry, n, path);
    PathSolved(p, before, after, n, path);
    if n != p.entry {
      HasSource(p, n);
      var q :| q in p.reachable && q in Targets(p.predecessors, n);
      var toQ :| Joins(p.successors, p.reachable, p.entry, q, toQ);
      PathSolved(p, before, after, q, toQ);
      assert q in Sources(p, n, after);
    }
  }

  // ---------------------------------------------------------------- the solver

  /** Folds the outputs of the predecessors that have one, in ascending order. */
  method JoinPredecessorStates(predecessors: set<u32>, outputs: States, policy: ExactPolicy)
    returns (joined: Option<RegisterState>)
    ensures joined.None? <==> predecessors * outputs.Keys == {}
    ensures joined.Some? ==> joined.value == JoinSet(predecessors * outputs.Keys, outputs, policy)
  {
    hide *;
    joined := None;
    var list := Ascending(predecessors);
    WholeSet(list, predecessors);
    ghost var seen: set<u32> := {};
    for k := 0 to |list|
      invariant seen == set j | 0 <= j < k :: list[j]
      invariant joined.None? <==> seen * outputs.Keys == {}
      invariant joined.Some? ==> joined.value == JoinSet(seen * outputs.Keys, outputs, policy)
    {
      PrefixSet(list, k);
      NotSeen(list, k);
      SeenMore(seen, list[k], outputs, policy);
      if list[k] in outputs {
        joined := Some(if joined.None? then outputs[list[k]] else JoinStates(joined.value, outputs[list[k]], policy));
      }
      seen := seen + {list[k]};
    }
  }

  lemma NotSeen(list: seq<u32>, k: nat)
    requires k < |list| && StrictlyAscending(list)
    ensures list[k] !in set j | 0 <= j < k :: list[j]
  {
  }

  lemma SeenMore(seen: set<u32>, q: u32, outputs: States, policy: ExactPolicy)
    requires q !in seen
    ensures q !in outputs ==> (seen + {q}) * outputs.Keys == seen * outputs.Keys
    ensures q in outputs ==> (seen + {q}) * outputs.Keys != {}
    ensures q in outputs && seen * outputs.Keys == {} ==>
              JoinSet((seen + {q}) * outputs.Keys, outputs, policy) == outputs[q]
    ensures q in outputs && seen * outputs.Keys != {} ==>
              JoinSet((seen + {q}) * outputs.Keys, outputs, policy) ==
              JoinStates(JoinSet(seen * outputs.Keys, outputs, policy), outputs[q], policy)
  {
    if q in outputs {
      assert (seen + {q}) * outputs.Keys == seen * outputs.Keys + {q};
      if seen * outputs.Keys == {} {
        assert (seen + {q}) * outputs.Keys == {q};
        JoinSingle(q, outputs, policy);
      } else {
        JoinMore(seen * outputs.Keys, q, outputs, policy);
      }
    } else {
      assert (seen + {q}) * outputs.Keys == seen * outputs.Keys;
    }
  }

  lemma FreshTarget(p: Problem, pc: u32, successor: u32)
    requires WellPosed(p) && pc in p.reachable && successor in Targets(p.successors, pc)
    ensures successor in p.instructions <==> successor in p.reachable
    ensures successor in p.reachable ==> pc in Targets(p.predecessors, successor)
  {
  }

  lemma QueueMore(pending: seq<u32>, queued: set<u32>, before: States, n: u32, joined: RegisterState)
    requires QueueOk(pending, queued, before) && n !in queued
    ensures QueueOk(pending + [n], queued + {n}, before[n := joined])
  {
  }

  lemma QueueSame(pending: seq<u32>, queued: set<u32>, before: States, n: u32, joined: RegisterState)
    requires QueueOk(pending, queued, before)
    ensures QueueOk(pending, queued, before[n := joined])
  {
  }

  lemma QueuePop(pending: seq<u32>, queued: set<u32>, before: States)
    requires QueueOk(pending, queued, before) && pending != []
    ensures QueueOk(pending[1..], queued - {pending[0]}, before)
    ensures pending[0] in before && pending[0] in queued
  {
    assert pending[0] in pending;
    forall n
      ensures n in queued - {pending[0]} <==> n in pending[1..]
    {
    }
  }

  /** The inner loop: rejoin every decoded successor of `pc` and queue the ones that changed. */
  method RefreshSuccessors(p: Problem, pc: u32, inputs: States, after: States, queue: seq<u32>, marks: set<u32>)
    returns (before: States, pending: seq<u32>, queued: set<u32>)
    requires pc in p.reachable && pc in after
    requires Solving(p, inputs, after, marks, FreshTargets(p, pc)) && QueueOk(queue, marks, inputs)
    ensures Solving(p, before, after, queued, {}) && QueueOk(pending, queued, before)
  {
    hide *;
    before, pending, queued := inputs, queue, marks;
    var successors := Ascending(Targets(p.successors, pc));
    StaleAtFirst(p, pc);
    ghost var stale := FreshTargets(p, pc);
    SolvingIsPosed(p, before, after, queued, stale);
    for k := 0 to |successors|
      invariant Solving(p, before, after, queued, stale) && QueueOk(pending, queued, before)
      invariant stale <= (set j | k <= j < |successors| :: successors[j]) * p.reachable
    {
      var successor := successors[k];
      FreshTarget(p, pc, successor);
      StaleNext(p, successors, stale, k);
      if successor in p.instructions {
        var joined := JoinPredecessorStates(Targets(p.predecessors, successor), after, p.policy);
        SourceKnown(p, pc, successor, after);
        if joined.Some? {
          var state := if successor == p.entry then map[] else joined.value;
          Refresh(p, before, after, queued, stale, successor, state);
          if successor !in before || before[successor] != state {
            QueueSame(pending, queued, before, successor, state);
            before := before[successor := state];
            if successor !in queued {
              QueueMore(pending, queued, before, successor, state);
              assert before[successor := state] == before;
              pending := pending + [successor];
              queued := queued + {successor};
            } else {
              assert queued + {successor} == queued;
            }
          }
        }
      } else {
        StaleUnreached(p, stale, successor);
      }
      stale := stale - {successor};
    }
    assert stale == {};
  }

  lemma StaleAtFirst(p: Problem, pc: u32)
    ensures var list := Ascending(Targets(p.successors, pc));
            && FreshTargets(p, pc) <= (set j | 0 <= j < |list| :: list[j]) * p.reachable
            && forall j | 0 <= j < |list| :: list[j] in Targets(p.successors, pc)
  {
    WholeSet(Ascending(Targets(p.successors, pc)), Targets(p.successors, pc));
  }

  lemma StaleNext(p: Problem, list: seq<u32>, stale: set<u32>, k: nat)
    requires k < |list| && stale <= (set j | k <= j < |list| :: list[j]) * p.reachable
    ensures stale - {list[k]} <= (set j | k + 1 <= j < |list| :: list[j]) * p.reachable
  {
  }

  lemma StaleUnreached(p: Problem, stale: set<u32>, n: u32)
    requires stale <= p.reachable && n !in p.reachable
    ensures stale - {n} == stale
  {
  }

  lemma SolvingIsPosed(p: Problem, before: States, after: States, queued: set<u32>, stale: set<u32>)
    requires Solving(p, before, after, queued, stale)
    ensures WellPosed(p) && p.reachable <= p.instructions.Keys
  {
  }

  lemma SourceKnown(p: Problem, pc: u32, n: u32, after: States)
    requires pc in after && pc in Targets(p.predecessors, n)
    ensures Sources(p, n, after) == Targets(p.predecessors, n) * after.Keys && Sources(p, n, after) != {}
    ensures JoinedAt(p, n, after) == if n == p.entry then map[] else JoinSet(Sources(p, n, after), after, p.policy)
  {
    assert pc in Sources(p, n, after);
  }

  /** Solves the dataflow equations; empty when the entry itself was not decoded. */
  method SolveDataflow(p: Problem) returns (before: States, after: States)
    requires p.entry in p.instructions ==> WellPosed(p)
    ensures p.entry !in p.instructions ==> before == map[] && after == map[]
    ensures p.entry in p.instructions ==>
              && p.reachable <= p.instructions.Keys && IsSolution(p, before, after)
              && KnowsThroughout(p, before, after)
              && forall b, a | IsBorneOut(p, b, a) :: Precedes(p, before, after, b, a)
  {
    hide *;
    if p.entry !in p.instructions {
      return map[], map[];
    }
    Initially(p);
    before, after := map[p.entry := map[]], map[];
    var pending, queued := [p.entry], {p.entry};
    QueueFirst(p);
    while pending != []
      invariant Solving(p, before, after, queued, {}) && QueueOk(pending, queued, before)
      decreases Total(after, p.instructions.Keys, Ascending(p.reachable)), |pending|
    {
      var pc := pending[0];
      QueuePop(pending, queued, before);
      Publish(p, before, after, queued, pc);
      assert queued - {pc} + {pc} == queued;
      pending, queued := pending[1..], queued - {pc};
      var output := TransferAt(p, pc, before[pc]);
      if pc in after && after[pc] == output {
        assert after[pc := output] == after;
        Unchanged(p, before, after, queued, pc);
      } else {
        PublishDrops(after, p.instructions.Keys, Ascending(p.reachable), pc, output);
        after := after[pc := output];
        before, pending, queued := RefreshSuccessors(p, pc, before, after, pending, queued);
      }
    }
    QueueEmpty(queued, before);
    Finished(p, before, after);
    SolutionKnows(p, before, after);
  }

  lemma QueueFirst(p: Problem)
    ensures QueueOk([p.entry], {p.entry}, map[p.entry := map[]])
  {
  }

  lemma QueueEmpty(queued: set<u32>, before: States)
    requires QueueOk([], queued, before)
    ensures queued == {}
  {
    forall n
      ensures n !in queued
    {
      assert n in queued <==> n in [];
    }
  }

  /** Republishing the same output changes nothing, so no input became stale. */
  lemma Unchanged(p: Problem, before: States, after: States, queued: set<u32>, pc: u32)
    requires Solving(p, before, after, queued + {pc}, {}) && pc in before && pc in after && pc in p.instructions
    requires pc !in queued && after[pc] == TransferAt(p, pc, before[pc])
    ensures Solving(p, before, after, queued, {})
  {
    hide WellPosed, Started, InputsForget, InputsCurrent, OutputsForget, NothingLost, TransferAt;
  }
}
