/**
 * What the solver knows, told by the paths of the graph alone: a fact is kept exactly where all paths agree on it and
 * on everything it was computed from, and its lineage exactly where they agree on that as well.
 */
module FactPaths {
  import opened Words
  import opened ControlGraph
  import opened Arm32
  import opened SemanticGraph
  import opened MustValues
  import opened DataflowMeasure
  import opened DataflowJoin
  import opened Dataflow
  import opened Provenance
  import opened DefinitionPaths

  /** What one path alone makes known before its last instruction. */
  ghost function StateAlong(p: Problem, path: seq<u32>): RegisterState
    requires path != [] && forall k | 0 <= k < |path| :: path[k] in p.instructions
  {
    if |path| == 1 then map[] else TransferAt(p, path[|path| - 2], StateAlong(p, path[..|path| - 1]))
  }

  lemma StateAlongStep(p: Problem, path: seq<u32>, n: u32)
    requires WellPosed(p) && IsTrack(p, path, n) && |path| > 1
    ensures path[|path| - 2] in p.instructions
    ensures StateAlong(p, path) == TransferAt(p, path[|path| - 2], StateAlong(p, path[..|path| - 1]))
  {
    TrackEnds(p, path, n);
    hide Transfer, WellPosed, Joins;
  }

  lemma TrackEnd(p: Problem, path: seq<u32>, n: u32)
    requires IsTrack(p, path, n)
    ensures path[|path| - 1] == n && n in p.instructions
  {
  }

  lemma StateAlongMore(p: Problem, path: seq<u32>, q: u32, n: u32)
    requires WellPosed(p) && IsTrack(p, path, q) && n in p.reachable && n in Targets(p.successors, q)
    ensures IsTrack(p, path + [n], n) && q in p.instructions
    ensures StateAlong(p, path + [n]) == TransferAt(p, q, StateAlong(p, path))
  {
    var more := path + [n];
    TrackMore(p, path, q, n);
    StateAlongStep(p, more, n);
    hide WellPosed, IsTrack, StateAlong, OriginsAlong, Transfer, Targets;
    assert more[..|more| - 1] == path && more[|more| - 2] == path[|path| - 1];
    TrackEnd(p, path, q);
  }

  // ---------------------------------------------------------------- lineage along a path

  /** The lineage that an origin stands for. */
  ghost function LineageOf(o: Origin): Option<Lineage> {
    if o.Known? && o.root.Some? then Some(Lineage(o.last, o.root.value)) else None
  }

  ghost predicate Lineages(state: RegisterState, o: Origins) {
    forall r | r in state :: o(r).Known? && state[r].lineage == LineageOf(o(r))
  }

  lemma EvaluateLineage(pc: u32, e: ValueExpr, state: RegisterState, policy: ExactPolicy, o: Origins)
    requires Lineages(state, o) && EvaluateValueExpr(pc, e, state, policy).Some?
    ensures EvaluateValueExpr(pc, e, state, policy).value.lineage == LineageOf(ExprOrigin(pc, e, o))
  {
  }

  lemma TransferLineage(words: LiteralWords, pc: u32, i: Instruction, state: RegisterState, policy: ExactPolicy,
                        o: Origins, u: Origins)
    requires Lineages(state, o) && forall r: Register :: u(r) == OriginAfter(pc, i, o, r)
    ensures Lineages(Transfer(words, pc, i, state, policy), u)
  {
    if !IsCallBoundary(i) && !i.conditional && i.effect.RegisterWrite?
       && EvaluateValueExpr(pc, i.effect.value, state, policy).Some? {
      EvaluateLineage(pc, i.effect.value, state, policy, o);
    }
    hide EvaluateValueExpr, ShiftValue;
  }

  /** On one path alone every value has the lineage of where it came from. */
  lemma {:induction false} AlongLineages(p: Problem, path: seq<u32>, n: u32)
    requires WellPosed(p) && IsTrack(p, path, n)
    ensures Lineages(StateAlong(p, path), OriginsAlong(p, path))
    decreases |path|
  {
    if |path| > 1 {
      var rest, q := path[..|path| - 1], path[|path| - 2];
      OriginsStep(p, path, n);
      StateAlongStep(p, path, n);
      AlongLineages(p, rest, q);
      hide WellPosed, IsTrack, OriginsAlong, StateAlong, OriginAfter, Transfer, Lineages;
      TransferLineage(p.words, q, p.instructions[q], StateAlong(p, rest), p.policy, OriginsAlong(p, rest),
                      OriginsAlong(p, path));
    }
  }

  // ---------------------------------------------------------------- agreement of the paths

  /** The registers that the value of `r` after an instruction is computed from. */
  function Needs(i: Instruction, r: Register): set<Register> {
    if Computes(i, r) then
      match i.effect
      case RegisterWrite(_, Copy(source)) => {source}
      case RegisterWrite(_, ReplaceHighHalf(source, _)) => {source}
      case RegisterWrite(_, Add(left, right)) => if right.Shifted? then {left, right.register} else {left}
      case RegisterWrite(_, Sub(left, right)) => if right.Shifted? then {left, right.register} else {left}
      case ShiftInto(_, source, _) => {source}
      case _ => {}
    else {r}
  }

  ghost predicate ValuesAgree(p: Problem, n: u32, r: Register) {
    forall t, u | IsTrack(p, t, n) && IsTrack(p, u, n) ::
      && r in StateAlong(p, t) && r in StateAlong(p, u)
      && StateAlong(p, t)[r].value == StateAlong(p, u)[r].value
  }

  ghost predicate LineagesAgree(p: Problem, n: u32, r: Register) {
    forall t, u | IsTrack(p, t, n) && IsTrack(p, u, n) ::
      && LineageOf(OriginsAlong(p, t)(r)).Some?
      && LineageOf(OriginsAlong(p, t)(r)) == LineageOf(OriginsAlong(p, u)(r))
  }

  /** All paths agree on the lineage of `r`, and on those of what it is computed from along this path. */
  ghost predicate TellsLineage(p: Problem, path: seq<u32>, n: u32, r: Register)
    requires IsTrack(p, path, n)
    decreases |path|
  {
    && LineagesAgree(p, n, r)
    && (|path| > 1 ==>
          var rest, q := path[..|path| - 1], path[|path| - 2];
          IsTrack(p, rest, q) && forall s | s in Needs(p.instructions[q], r) :: TellsLineage(p, rest, q, s))
  }

  ghost predicate AllTellLineage(p: Problem, n: u32, r: Register) {
    forall t | IsTrack(p, t, n) :: TellsLineage(p, t, n, r)
  }

  /** Edges from two instructions meet at `n`. */
  ghost predicate Meets(p: Problem, n: u32) {
    exists q, s :: q in p.reachable && s in p.reachable && q != s
                   && n in Targets(p.successors, q) && n in Targets(p.successors, s)
  }

  /**
   * All paths agree on the value of `r`, and on those of what it is computed from along this path; where paths meet,
   * the stricter policy also demands that they agree on the lineage.
   */
  ghost predicate Tells(p: Problem, path: seq<u32>, n: u32, r: Register)
    requires IsTrack(p, path, n)
    decreases |path|
  {
    && ValuesAgree(p, n, r)
    && (p.policy.join.JoinValueDefinitionRoot? && Meets(p, n) ==> AllTellLineage(p, n, r))
    && (|path| > 1 ==>
          var rest, q := path[..|path| - 1], path[|path| - 2];
          IsTrack(p, rest, q) && forall s | s in Needs(p.instructions[q], r) :: Tells(p, rest, q, s))
  }

  ghost predicate AllTell(p: Problem, n: u32, r: Register) {
    forall t | IsTrack(p, t, n) :: Tells(p, t, n, r)
  }

  // ---------------------------------------------------------------- what is kept is agreed on

  lemma SourceForgets(sources: set<u32>, outputs: States, policy: ExactPolicy, q: u32)
    requires q in sources && q in outputs
    ensures Forgets(outputs[q], JoinSet(sources, outputs, policy))
  {
    hide JoinSet;
    ForgetsItself(outputs[q]);
    JoinSingle(q, outputs, policy);
    JoinMonotone({q}, sources, outputs, outputs, policy);
  }

  lemma EdgeForgets(p: Problem, before: States, after: States, q: u32, n: u32)
    requires WellPosed(p) && IsSolution(p, before, after) && q in p.reachable && n in p.reachable
    requires n in Targets(p.successors, q)
    ensures n in before && q in before && q in after && q in p.instructions
    ensures after[q] == TransferAt(p, q, before[q])
    ensures Forgets(after[q], before[n])
  {
    assert SolvedAt(p, before, after, n) && SolvedAt(p, before, after, q);
    EdgeIsSource(p, after, q, n);
    hide WellPosed, IsSolution, Transfer, JoinSet, Sources;
    if n != p.entry {
      SourceForgets(Sources(p, n, after), after, p.policy, q);
    }
  }

  lemma NothingAtEntry(p: Problem, before: States, after: States)
    requires WellPosed(p) && IsSolution(p, before, after)
    ensures p.entry in before && before[p.entry] == map[]
  {
    assert SolvedAt(p, before, after, p.entry);
    hide Transfer;
  }

  /** A solution knows nothing that some path alone does not make known. */
  lemma {:induction false} PathForgets(p: Problem, before: States, after: States, path: seq<u32>, n: u32)
    requires WellPosed(p) && IsSolution(p, before, after) && IsTrack(p, path, n)
    ensures n in before && Forgets(StateAlong(p, path), before[n])
    decreases |path|
  {
    TrackEnds(p, path, n);
    hide WellPosed, IsSolution, IsTrack, StateAlong, Transfer, Forgets;
    if |path| == 1 {
      NothingAtEntry(p, before, after);
      ForgetsNothing(StateAlong(p, path));
    } else {
      var rest, q := path[..|path| - 1], path[|path| - 2];
      PathForgets(p, before, after, rest, q);
      StateAlongStep(p, path, n);
      EdgeForgets(p, before, after, q, n);
      TransferMonotone(p.words, q, p.instructions[q], StateAlong(p, rest), before[q], p.policy);
      ForgetsTransitive(StateAlong(p, path), after[q], before[n]);
    }
  }

  lemma ForgetsNothing(s: RegisterState)
    ensures Forgets(s, map[])
  {
  }

  lemma NeedsKnown(words: LiteralWords, pc: u32, i: Instruction, state: RegisterState, policy: ExactPolicy, r: Register)
    requires r in Transfer(words, pc, i, state, policy)
    ensures forall s | s in Needs(i, r) ::
              s in state && (Transfer(words, pc, i, state, policy)[r].lineage.Some? ==> state[s].lineage.Some?)
  {
    hide ShiftValue;
  }

  lemma ComesFrom(p: Problem, before: States, after: States, path: seq<u32>, n: u32, r: Register)
    requires WellPosed(p) && IsSolution(p, before, after) && IsTrack(p, path, n) && |path| > 1
    requires n in before && r in before[n]
    ensures var q := path[|path| - 2];
            && q in p.instructions && q in before && IsTrack(p, path[..|path| - 1], q)
            && (forall s | s in Needs(p.instructions[q], r) ::
                  s in before[q] && (before[n][r].lineage.Some? ==> before[q][s].lineage.Some?))
  {
    TrackEnds(p, path, n);
    var q := path[|path| - 2];
    EdgeForgets(p, before, after, q, n);
    hide WellPosed, IsSolution, IsTrack, Transfer, Needs;
    NeedsKnown(p.words, q, p.instructions[q], before[q], p.policy, r);
  }

  lemma KeptAlong(p: Problem, before: States, after: States, path: seq<u32>, n: u32, r: Register)
    requires WellPosed(p) && IsSolution(p, before, after) && IsTrack(p, path, n) && n in before && r in before[n]
    ensures r in StateAlong(p, path) && StateAlong(p, path)[r].value == before[n][r].value
    ensures before[n][r].lineage.Some? ==>
              before[n][r].lineage == StateAlong(p, path)[r].lineage == LineageOf(OriginsAlong(p, path)(r))
  {
    PathForgets(p, before, after, path, n);
    AlongLineages(p, path, n);
    hide WellPosed, IsSolution, IsTrack, OriginsAlong, StateAlong, LineageOf;
  }

  lemma KeptAgrees(p: Problem, before: States, after: States, n: u32, r: Register)
    requires WellPosed(p) && IsSolution(p, before, after) && n in before && r in before[n]
    ensures ValuesAgree(p, n, r)
    ensures before[n][r].lineage.Some? ==> LineagesAgree(p, n, r)
  {
    hide WellPosed, IsSolution, IsTrack, OriginsAlong, StateAlong, LineageOf;
    forall t | IsTrack(p, t, n)
      ensures r in StateAlong(p, t) && StateAlong(p, t)[r].value == before[n][r].value
      ensures before[n][r].lineage.Some? ==> LineageOf(OriginsAlong(p, t)(r)) == before[n][r].lineage
    {
      KeptAlong(p, before, after, t, n, r);
    }
  }

  lemma {:induction false} KeptTellsLineage(p: Problem, before: States, after: States, path: seq<u32>, n: u32,
                                            r: Register)
    requires WellPosed(p) && IsSolution(p, before, after) && IsTrack(p, path, n)
    requires n in before && r in before[n] && before[n][r].lineage.Some?
    ensures TellsLineage(p, path, n, r)
    decreases |path|
  {
    KeptAgrees(p, before, after, n, r);
    hide WellPosed, IsSolution, IsTrack, LineagesAgree, ValuesAgree, Needs;
    if |path| > 1 {
      var rest, q := path[..|path| - 1], path[|path| - 2];
      ComesFrom(p, before, after, path, n, r);
      forall s | s in Needs(p.instructions[q], r)
        ensures TellsLineage(p, rest, q, s)
      {
        KeptTellsLineage(p, before, after, rest, q, s);
      }
    }
  }

  /** The stricter policy keeps a fact where paths meet only with its lineage. */
  lemma MeetingKeepsLineage(p: Problem, before: States, after: States, n: u32, r: Register)
    requires WellPosed(p) && IsSolution(p, before, after) && n in before && r in before[n]
    requires p.policy.join.JoinValueDefinitionRoot? && Meets(p, n)
    ensures before[n][r].lineage.Some?
  {
    assert SolvedAt(p, before, after, n);
    var q, s :| q in p.reachable && s in p.reachable && q != s
                && n in Targets(p.successors, q) && n in Targets(p.successors, s);
    EdgeIsSource(p, after, q, n);
    EdgeIsSource(p, after, s, n);
    hide WellPosed, IsSolution, Transfer, Sources, DefinitionsOf;
    AgreedLineage(Sources(p, n, after), after, p.policy, q, s, r);
  }

  lemma AgreedLineage(sources: set<u32>, outputs: States, policy: ExactPolicy, q: u32, s: u32, r: Register)
    requires q in sources && s in sources && q != s && policy.join.JoinValueDefinitionRoot?
    requires r in JoinSet(sources, outputs, policy)
    ensures JoinSet(sources, outputs, policy)[r].lineage.Some?
  {
    AgreedMembers(sources, outputs, r, policy);
    var least := Least(sources);
    assert PairAgrees(outputs, least, q, r, policy) && PairAgrees(outputs, least, s, r, policy);
    assert SameLineage(sources, outputs, r) by {
      forall a, b | a in sources && b in sources
        ensures outputs[a][r].lineage == outputs[b][r].lineage
      {
        assert PairAgrees(outputs, a, b, r, policy);
      }
    }
  }

  lemma KeptAllTellLineage(p: Problem, before: States, after: States, n: u32, r: Register)
    requires WellPosed(p) && IsSolution(p, before, after) && n in before && r in before[n]
    requires before[n][r].lineage.Some?
    ensures AllTellLineage(p, n, r)
  {
    hide WellPosed, IsSolution, IsTrack, TellsLineage;
    forall t | IsTrack(p, t, n)
      ensures TellsLineage(p, t, n, r)
    {
      KeptTellsLineage(p, before, after, t, n, r);
    }
  }

  lemma {:induction false} KeptTells(p: Problem, before: States, after: States, path: seq<u32>, n: u32, r: Register)
    requires WellPosed(p) && IsSolution(p, before, after) && IsTrack(p, path, n) && n in before && r in before[n]
    ensures Tells(p, path, n, r)
    decreases |path|
  {
    KeptAgrees(p, before, after, n, r);
    hide WellPosed, IsSolution, IsTrack, LineagesAgree, ValuesAgree, Needs, Meets, AllTellLineage;
    if p.policy.join.JoinValueDefinitionRoot? && Meets(p, n) {
      MeetingKeepsLineage(p, before, after, n, r);
      KeptAllTellLineage(p, before, after, n, r);
    }
    if |path| > 1 {
      var rest, q := path[..|path| - 1], path[|path| - 2];
      ComesFrom(p, before, after, path, n, r);
      forall s | s in Needs(p.instructions[q], r)
        ensures Tells(p, rest, q, s)
      {
        KeptTells(p, before, after, rest, q, s);
      }
    }
  }

  // ---------------------------------------------------------------- what is agreed on is kept

  ghost function SomeTrackTo(p: Problem, n: u32): (path: seq<u32>)
    requires WellPosed(p) && n in p.reachable
    ensures IsTrack(p, path, n)
  {
    var path :| Joins(p.successors, p.reachable, p.entry, n, path);
    path
  }

  lemma TellsValue(p: Problem, path: seq<u32>, n: u32, r: Register)
    requires IsTrack(p, path, n) && Tells(p, path, n, r)
    ensures ValuesAgree(p, n, r)
  {
  }

  lemma TellsAlong(p: Problem, n: u32, r: Register)
    requires WellPosed(p) && n in p.reachable && AllTell(p, n, r)
    ensures r in StateAlong(p, SomeTrackTo(p, n))
  {
    var t := SomeTrackTo(p, n);
    hide WellPosed, IsTrack, StateAlong;
    TellsValue(p, t, n, r);
    hide Tells;
  }

  /** What the paths to `n` agree on, with all definitions there are. */
  ghost function Claimed(p: Problem, n: u32): RegisterState
    requires WellPosed(p) && n in p.reachable
  {
    var s := StateAlong(p, SomeTrackTo(p, n));
    map r: Register | 0 <= r < 256 && AllTell(p, n, r) ::
      (TellsAlong(p, n, r);
       ExactValue(s[r].value, p.instructions.Keys, if AllTellLineage(p, n, r) then s[r].lineage else None))
  }

  lemma AgreedAlong(p: Problem, path: seq<u32>, n: u32, r: Register)
    requires WellPosed(p) && n in p.reachable && IsTrack(p, path, n) && ValuesAgree(p, n, r)
    ensures var s, u := StateAlong(p, path), StateAlong(p, SomeTrackTo(p, n));
            && r in s && r in u && s[r].value == u[r].value
            && (LineagesAgree(p, n, r) ==> s[r].lineage == u[r].lineage && u[r].lineage.Some?)
  {
    var t := SomeTrackTo(p, n);
    AlongLineages(p, t, n);
    AlongLineages(p, path, n);
    hide WellPosed, IsTrack, StateAlong, OriginsAlong, LineageOf;
  }

  lemma TellingAgrees(p: Problem, n: u32, r: Register)
    requires WellPosed(p) && n in p.reachable
    ensures AllTell(p, n, r) ==> ValuesAgree(p, n, r)
    ensures AllTellLineage(p, n, r) ==> LineagesAgree(p, n, r)
  {
    var t := SomeTrackTo(p, n);
    hide WellPosed, IsTrack, ValuesAgree, LineagesAgree;
    assert AllTell(p, n, r) ==> Tells(p, t, n, r);
    assert AllTellLineage(p, n, r) ==> TellsLineage(p, t, n, r);
  }

  /** What is claimed of a register is what each path makes known of it. */
  lemma ClaimedAt(p: Problem, path: seq<u32>, n: u32, r: Register)
    requires WellPosed(p) && n in p.reachable && IsTrack(p, path, n)
    ensures r in Claimed(p, n) <==> AllTell(p, n, r)
    ensures r in Claimed(p, n) ==>
              && r in StateAlong(p, path) && Claimed(p, n)[r].value == StateAlong(p, path)[r].value
              && Claimed(p, n)[r].definitions == p.instructions.Keys
              && (Claimed(p, n)[r].lineage.Some? <==> AllTellLineage(p, n, r))
              && (AllTellLineage(p, n, r) ==> Claimed(p, n)[r].lineage == StateAlong(p, path)[r].lineage)
  {
    hide WellPosed, IsTrack, StateAlong, ValuesAgree, LineagesAgree, AllTell, AllTellLineage;
    TellingAgrees(p, n, r);
    if AllTell(p, n, r) {
      AgreedAlong(p, path, n, r);
    }
  }

  lemma TellsBack(p: Problem, path: seq<u32>, q: u32, n: u32, r: Register)
    requires WellPosed(p) && IsTrack(p, path, q) && n in p.reachable && n in Targets(p.successors, q)
    ensures q in p.instructions
    ensures AllTell(p, n, r) ==> forall s | s in Needs(p.instructions[q], r) :: Tells(p, path, q, s)
    ensures AllTellLineage(p, n, r) ==> forall s | s in Needs(p.instructions[q], r) :: TellsLineage(p, path, q, s)
  {
    StateAlongMore(p, path, q, n);
    var more := path + [n];
    assert more[..|more| - 1] == path && more[|more| - 2] == q;
    hide WellPosed, IsTrack, ValuesAgree, LineagesAgree, Needs, Targets, Meets, StateAlong;
    assert AllTell(p, n, r) ==> Tells(p, more, n, r);
    assert AllTellLineage(p, n, r) ==> TellsLineage(p, more, n, r);
  }

  /** If all paths tell of a register, they tell of what it is computed from. */
  lemma AllTellBack(p: Problem, q: u32, n: u32, r: Register)
    requires WellPosed(p) && q in p.reachable && q in p.instructions
    requires n in p.reachable && n in Targets(p.successors, q)
    ensures AllTell(p, n, r) ==> forall s | s in Needs(p.instructions[q], r) :: AllTell(p, q, s)
    ensures AllTellLineage(p, n, r) ==> forall s | s in Needs(p.instructions[q], r) :: AllTellLineage(p, q, s)
  {
    hide WellPosed, IsTrack, Tells, TellsLineage, Needs, Targets;
    forall path | IsTrack(p, path, q)
      ensures AllTell(p, n, r) ==> forall s | s in Needs(p.instructions[q], r) :: Tells(p, path, q, s)
      ensures AllTellLineage(p, n, r) ==> forall s | s in Needs(p.instructions[q], r) :: TellsLineage(p, path, q, s)
    {
      TellsBack(p, path, q, n, r);
    }
  }

  lemma NewValueNeeds(words: LiteralWords, pc: u32, i: Instruction, x: RegisterState, y: RegisterState,
                      policy: ExactPolicy, r: Register)
    requires Computes(i, r) && NewValue(words, pc, i, x, policy).Some?
    requires forall s | s in Needs(i, r) && s in x :: s in y && y[s].value == x[s].value
    ensures var v, w := NewValue(words, pc, i, x, policy), NewValue(words, pc, i, y, policy);
            && w.Some? && w.value.value == v.value.value
            && ((forall s | s in Needs(i, r) && s in x :: y[s].lineage == x[s].lineage) ==>
                  w.value.lineage == v.value.lineage)
  {
    hide ShiftValue;
  }

  /** What an instruction makes of a register depends only on what the register is computed from. */
  lemma TransferNeeds(words: LiteralWords, pc: u32, i: Instruction, x: RegisterState, y: RegisterState,
                      policy: ExactPolicy, r: Register)
    requires r in Transfer(words, pc, i, x, policy)
    requires forall s | s in Needs(i, r) && s in x :: s in y && y[s].value == x[s].value
    ensures r in Transfer(words, pc, i, y, policy)
    ensures Transfer(words, pc, i, y, policy)[r].value == Transfer(words, pc, i, x, policy)[r].value
    ensures (forall s | s in Needs(i, r) && s in x :: y[s].lineage == x[s].lineage) ==>
              Transfer(words, pc, i, y, policy)[r].lineage == Transfer(words, pc, i, x, policy)[r].lineage
  {
    TransferSplit(words, pc, i, x, policy, r);
    TransferSplit(words, pc, i, y, policy, r);
    hide Transfer, NewValue;
    if Computes(i, r) {
      NewValueNeeds(words, pc, i, x, y, policy, r);
    }
  }

  ghost function ClaimedAfter(p: Problem, q: u32): RegisterState
    requires WellPosed(p) && q in p.reachable
  {
    assert q in p.instructions;
    TransferAt(p, q, Claimed(p, q))
  }

  /** What is claimed after an edge follows from what is claimed before its instruction. */
  lemma EdgeCarries(p: Problem, q: u32, n: u32, r: Register)
    requires WellPosed(p) && q in p.reachable && n in p.reachable && n in Targets(p.successors, q)
    requires r in Claimed(p, n)
    ensures r in ClaimedAfter(p, q) && ClaimedAfter(p, q)[r].value == Claimed(p, n)[r].value
    ensures AllTellLineage(p, n, r) ==> ClaimedAfter(p, q)[r].lineage == Claimed(p, n)[r].lineage
  {
    var path := SomeTrackTo(p, q);
    StateAlongMore(p, path, q, n);
    hide WellPosed, IsTrack, StateAlong, AllTell, AllTellLineage, Claimed, Transfer, Needs, Targets;
    ClaimedAt(p, path + [n], n, r);
    AllTellBack(p, q, n, r);
    forall s | s in Needs(p.instructions[q], r)
      ensures s in Claimed(p, q) && s in StateAlong(p, path)
      ensures Claimed(p, q)[s].value == StateAlong(p, path)[s].value
      ensures AllTellLineage(p, n, r) ==> Claimed(p, q)[s].lineage == StateAlong(p, path)[s].lineage
    {
      ClaimedAt(p, path, q, s);
    }
    TransferNeeds(p.words, q, p.instructions[q], StateAlong(p, path), Claimed(p, q), p.policy, r);
  }

  lemma ClaimJoinsAt(sources: set<u32>, outputs: States, policy: ExactPolicy, claim: ExactValue, r: Register)
    requires sources != {} && sources <= outputs.Keys
    requires forall q | q in sources :: Grounded(outputs[q], claim.definitions)
    requires forall q | q in sources :: r in outputs[q] && outputs[q][r].value == claim.value
    requires claim.lineage.Some? ==> forall q | q in sources :: outputs[q][r].lineage == claim.lineage
    requires policy.join.JoinValueDefinitionRoot? && claim.lineage.None? ==>
               forall q, s | q in sources && s in sources :: q == s
    ensures r in JoinSet(sources, outputs, policy)
    ensures ForgetsValue(JoinSet(sources, outputs, policy)[r], claim)
  {
    forall q, s | q in sources && s in sources
      ensures PairAgrees(outputs, q, s, r, policy)
    {
    }
    var least := Least(sources);
    assert outputs[least][r].lineage == outputs[least][r].lineage;
    forall d | d in DefinitionsOf(sources, outputs, r)
      ensures d in claim.definitions
    {
    }
  }

  /** Where only one path arrives, the stricter policy has nothing to compare. */
  lemma OneSource(p: Problem, n: u32, r: Register, after: States)
    requires WellPosed(p) && n in p.reachable && after.Keys == p.reachable && AllTell(p, n, r)
    requires p.policy.join.JoinValueDefinitionRoot? && !AllTellLineage(p, n, r)
    ensures forall q, s | q in Sources(p, n, after) && s in Sources(p, n, after) :: q == s
  {
    var t := SomeTrackTo(p, n);
    hide WellPosed, IsTrack, AllTellLineage, ValuesAgree, Sources;
    assert Tells(p, t, n, r) && !Meets(p, n);
    hide Tells, AllTell;
    forall q, s | q in Sources(p, n, after) && s in Sources(p, n, after)
      ensures q == s
    {
      EdgeIsSource(p, after, q, n);
      EdgeIsSource(p, after, s, n);
    }
  }

  ghost function ClaimsBefore(p: Problem): States
    requires WellPosed(p)
  {
    map n | n in p.reachable :: Claimed(p, n)
  }

  ghost function ClaimsAfter(p: Problem): States
    requires WellPosed(p)
  {
    map n | n in p.reachable :: ClaimedAfter(p, n)
  }

  lemma ClaimsGrounded(p: Problem, q: u32)
    requires WellPosed(p) && q in p.reachable
    ensures Grounded(ClaimedAfter(p, q), p.instructions.Keys)
  {
    hide StateAlong, AllTell, AllTellLineage;
    TransferGrounded(p.words, q, p.instructions[q], Claimed(p, q), p.policy, p.instructions.Keys);
  }

  lemma ClaimsAt(p: Problem)
    requires WellPosed(p)
    ensures p.reachable <= p.instructions.Keys
    ensures ClaimsBefore(p).Keys == p.reachable && ClaimsAfter(p).Keys == p.reachable
    ensures forall n | n in p.reachable ::
              ClaimsBefore(p)[n] == Claimed(p, n) && ClaimsAfter(p)[n] == TransferAt(p, n, Claimed(p, n))
  {
    hide Claimed, TransferAt;
  }

  lemma SourceClaims(p: Problem, n: u32, r: Register, q: u32)
    requires WellPosed(p) && n in p.reachable && r in Claimed(p, n) && q in Sources(p, n, ClaimsAfter(p))
    ensures q in ClaimsAfter(p) && r in ClaimsAfter(p)[q]
    ensures Grounded(ClaimsAfter(p)[q], p.instructions.Keys)
    ensures ClaimsAfter(p)[q][r].value == Claimed(p, n)[r].value
    ensures AllTellLineage(p, n, r) ==> ClaimsAfter(p)[q][r].lineage == Claimed(p, n)[r].lineage
  {
    hide WellPosed, AllTellLineage, Claimed, Sources, Targets, Grounded, Transfer, ClaimsAfter;
    ClaimsAt(p);
    EdgeIsSource(p, ClaimsAfter(p), q, n);
    EdgeCarries(p, q, n, r);
    ClaimsGrounded(p, q);
  }

  lemma SourcesHaveClaims(p: Problem, n: u32)
    requires WellPosed(p)
    ensures Sources(p, n, ClaimsAfter(p)) <= ClaimsAfter(p).Keys
  {
    hide WellPosed, ClaimsAfter;
  }

  /** What is claimed before an instruction is what the join of the claims after its predecessors says. */
  lemma ClaimJoins(p: Problem, n: u32, r: Register)
    requires WellPosed(p) && n in p.reachable && r in Claimed(p, n) && Sources(p, n, ClaimsAfter(p)) != {}
    ensures r in JoinSet(Sources(p, n, ClaimsAfter(p)), ClaimsAfter(p), p.policy)
    ensures ForgetsValue(JoinSet(Sources(p, n, ClaimsAfter(p)), ClaimsAfter(p), p.policy)[r], Claimed(p, n)[r])
  {
    hide *;
    var a := ClaimsAfter(p);
    var sources := Sources(p, n, a);
    ClaimsAt(p);
    SourcesHaveClaims(p, n);
    ClaimedAt(p, SomeTrackTo(p, n), n, r);
    forall q | q in sources
      ensures q in a && Grounded(a[q], p.instructions.Keys) && r in a[q]
      ensures a[q][r].value == Claimed(p, n)[r].value
      ensures AllTellLineage(p, n, r) ==> a[q][r].lineage == Claimed(p, n)[r].lineage
    {
      SourceClaims(p, n, r, q);
    }
    if p.policy.join.JoinValueDefinitionRoot? && !AllTellLineage(p, n, r) {
      OneSource(p, n, r, a);
    }
    ClaimJoinsAt(sources, a, p.policy, Claimed(p, n)[r], r);
  }

  lemma NothingClaimedAtEntry(p: Problem, r: Register)
    requires WellPosed(p) && p.entry in p.reachable
    ensures r !in Claimed(p, p.entry)
  {
    assert IsTrack(p, [p.entry], p.entry) && StateAlong(p, [p.entry]) == map[];
    hide WellPosed, IsTrack, AllTell, AllTellLineage, Claimed, StateAlong;
    ClaimedAt(p, [p.entry], p.entry, r);
  }

  lemma ClaimsHaveSource(p: Problem, n: u32, after: States)
    requires WellPosed(p) && n in p.reachable && n != p.entry && after.Keys == p.reachable
    ensures Sources(p, n, after) != {}
  {
    HasSource(p, n);
    hide WellPosed;
    var q :| q in p.reachable && q in Targets(p.predecessors, n);
    assert q in Sources(p, n, after);
  }

  lemma ClaimForgets(p: Problem, n: u32)
    requires WellPosed(p) && n in p.reachable
    ensures n != p.entry ==> Sources(p, n, ClaimsAfter(p)) != {}
    ensures Forgets(JoinedAt(p, n, ClaimsAfter(p)), Claimed(p, n))
  {
    var a := ClaimsAfter(p);
    assert a.Keys == p.reachable;
    hide WellPosed, Claimed, ClaimsAfter, Sources, JoinSet, ForgetsValue;
    if n == p.entry {
      forall r: Register
        ensures r !in Claimed(p, n)
      {
        NothingClaimedAtEntry(p, r);
      }
    } else {
      ClaimsHaveSource(p, n, a);
      forall r | r in Claimed(p, n)
        ensures r in JoinedAt(p, n, a) && ForgetsValue(JoinedAt(p, n, a)[r], Claimed(p, n)[r])
      {
        ClaimJoins(p, n, r);
      }
    }
  }

  /** What the paths agree on follows from itself. */
  lemma ClaimsAreBorneOut(p: Problem)
    requires WellPosed(p)
    ensures p.reachable <= p.instructions.Keys && IsBorneOut(p, ClaimsBefore(p), ClaimsAfter(p))
  {
    var b, a := ClaimsBefore(p), ClaimsAfter(p);
    ClaimsAt(p);
    hide WellPosed, Claimed, ClaimsBefore, ClaimsAfter, Sources, JoinedAt, TransferAt, Forgets;
    forall n | n in p.reachable
      ensures BorneOutAt(p, b, a, n)
    {
      ClaimForgets(p, n);
      ForgetsItself(a[n]);
    }
  }

  // ---------------------------------------------------------------- the theorems

  lemma NothingBorneOutIsLost(p: Problem, before: States, after: States, b: States, a: States, n: u32, r: Register)
    requires p.reachable <= p.instructions.Keys && IsMostPrecise(p, before, after) && IsBorneOut(p, b, a)
    requires n in p.reachable && n in b && r in b[n]
    ensures n in before && r in before[n] && (b[n][r].lineage.Some? ==> before[n][r].lineage.Some?)
  {
    hide SolvedAt, IsBorneOut;
    assert Precedes(p, before, after, b, a);
  }

  lemma ClaimIsKnown(p: Problem, before: States, after: States, n: u32, r: Register)
    requires WellPosed(p) && IsMostPrecise(p, before, after) && n in p.reachable && r in Claimed(p, n)
    ensures n in before && r in before[n]
    ensures Claimed(p, n)[r].lineage.Some? ==> before[n][r].lineage.Some?
  {
    hide *;
    ClaimsAt(p);
    ClaimsAreBorneOut(p);
    NothingBorneOutIsLost(p, before, after, ClaimsBefore(p), ClaimsAfter(p), n, r);
  }

  /**
   * The solver knows a register's value exactly where all paths agree on it and on everything it was computed from, and
   * the value is the one that each path alone makes known.
   */
  lemma FactsExact(p: Problem, before: States, after: States, n: u32, r: Register)
    requires WellPosed(p) && IsMostPrecise(p, before, after) && n in p.reachable
    ensures n in before && (r in before[n] <==> AllTell(p, n, r))
    ensures r in before[n] ==> forall path | IsTrack(p, path, n) ::
              r in StateAlong(p, path) && before[n][r].value == StateAlong(p, path)[r].value
  {
    var t := SomeTrackTo(p, n);
    PathForgets(p, before, after, t, n);
    hide WellPosed, IsTrack, Claimed, StateAlong, Tells;
    ClaimedAt(p, t, n, r);
    if AllTell(p, n, r) {
      ClaimIsKnown(p, before, after, n, r);
    }
    hide IsMostPrecise, IsSolution;
    forall path | IsTrack(p, path, n) && r in before[n]
      ensures Tells(p, path, n, r)
      ensures r in StateAlong(p, path) && before[n][r].value == StateAlong(p, path)[r].value
    {
      KeptTells(p, before, after, path, n, r);
      KeptAlong(p, before, after, path, n, r);
    }
  }

  /**
   * A known value keeps its lineage exactly where all paths agree on where it came from, and on where everything came
   * from that it passed through; the lineage then names the last definition and the root of every path.
   */
  lemma LineageExact(p: Problem, before: States, after: States, n: u32, r: Register)
    requires WellPosed(p) && IsMostPrecise(p, before, after) && n in before && r in before[n]
    ensures before[n][r].lineage.Some? <==> AllTellLineage(p, n, r)
    ensures before[n][r].lineage.Some? ==> forall path | IsTrack(p, path, n) ::
              before[n][r].lineage == LineageOf(OriginsAlong(p, path)(r))
  {
    assert n in p.reachable;
    hide WellPosed, IsTrack, Claimed, StateAlong, OriginsAlong, AllTell, AllTellLineage;
    FactsExact(p, before, after, n, r);
    ClaimedAt(p, SomeTrackTo(p, n), n, r);
    if AllTellLineage(p, n, r) {
      ClaimIsKnown(p, before, after, n, r);
    }
    hide IsMostPrecise, IsSolution;
    if before[n][r].lineage.Some? {
      KeptAllTellLineage(p, before, after, n, r);
      forall path | IsTrack(p, path, n)
        ensures before[n][r].lineage == LineageOf(OriginsAlong(p, path)(r))
      {
        KeptAlong(p, before, after, path, n, r);
      }
    }
  }
}
