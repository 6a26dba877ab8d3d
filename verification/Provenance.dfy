/**
 * Where values come from along a run, and what the solver's definition sets and lineages say about it:
 * definition sets contain every contributing instruction, lineages name the last and the first one.
 */
module Provenance {
  import opened Words
  import opened ControlGraph
  import opened Arm32
  import opened MustValues
  import opened SemanticGraph
  import opened DataflowJoin
  import opened Dataflow
  import opened Architecture
  import opened MustValueSoundness

  /**
   * The instructions a register's value was computed from on a run, the one that wrote it last, and, if
   * it was passed along by single-source instructions only, the one it started from.
   */
  datatype Origin = Unknown | Known(contributors: set<u32>, last: u32, root: Option<u32>)

  type Origins = Register -> Origin

  ghost function Contributors(o: Origin): set<u32> {
    if o.Known? then o.contributors else {}
  }

  ghost function RootOf(o: Origin): Option<u32> {
    if o.Known? then o.root else None
  }

  ghost function Passed(o: Origin, pc: u32): Origin {
    Known(Contributors(o) + {pc}, pc, RootOf(o))
  }

  ghost function OperandContributors(operand: Operand, o: Origins): set<u32> {
    if operand.Shifted? then Contributors(o(operand.register)) else {}
  }

  ghost function ArithmeticOrigin(pc: u32, left: Register, right: Operand, o: Origins): Origin {
    Known(Contributors(o(left)) + OperandContributors(right, o) + {pc}, pc,
          if right.Shifted? then None else RootOf(o(left)))
  }

  ghost function ExprOrigin(pc: u32, e: ValueExpr, o: Origins): Origin {
    match e
    case Constant(_) => Known({pc}, pc, Some(pc))
    case PcRelative(_, _) => Known({pc}, pc, Some(pc))
    case Copy(source) => Passed(o(source), pc)
    case ReplaceHighHalf(source, _) => Passed(o(source), pc)
    case Add(left, right) => ArithmeticOrigin(pc, left, right, o)
    case Sub(left, right) => ArithmeticOrigin(pc, left, right, o)
  }

  ghost function Kept(lost: set<Register>, r: Register, o: Origins): Origin {
    if r in lost then Unknown else o(r)
  }

  /** The origin of register `r` after one instruction. */
  ghost function OriginAfter(pc: u32, i: Instruction, o: Origins, r: Register): Origin {
    if IsCallBoundary(i) then Kept(CALL_VOLATILE, r, o)
    else if i.conditional then Kept(i.writes, r, o)
    else
      match i.effect
      case RegisterWrite(dst, value) => if r == dst then ExprOrigin(pc, value, o) else o(r)
      case ShiftInto(dst, source, _) => if r == dst then Passed(o(source), pc) else o(r)
      case LiteralWordLoad(dst, _) => if r == dst then Known({pc}, pc, Some(pc)) else o(r)
      case Memory => Kept(i.writes, r, o)
      case Unsupported => Kept(i.writes, r, o)
      case Compare => o(r)
      case NoEffect => o(r)
  }

  /** The origins at point `k` of a run, which starts with nothing known. */
  ghost function OriginsAt(p: Problem, run: seq<Point>, k: nat): Origins
    requires k < |run| && forall j | 0 <= j < |run| :: run[j].pc in p.instructions
  {
    if k == 0 then r => Unknown
    else
      var o := OriginsAt(p, run, k - 1);
      var point := run[k - 1];
      (r: Register) => OriginAfter(point.pc, p.instructions[point.pc], o, r)
  }

  ghost predicate TracesValue(v: ExactValue, o: Origin) {
    && o.Known?
    && o.contributors <= v.definitions
    && (v.lineage.Some? ==> v.lineage.value.definition == o.last && o.root == Some(v.lineage.value.root))
  }

  ghost predicate Traces(state: RegisterState, o: Origins) {
    forall r | r in state :: TracesValue(state[r], o(r))
  }

  lemma EvaluateTraces(pc: u32, e: ValueExpr, state: RegisterState, policy: ExactPolicy, o: Origins)
    requires Traces(state, o) && EvaluateValueExpr(pc, e, state, policy).Some?
    ensures TracesValue(EvaluateValueExpr(pc, e, state, policy).value, ExprOrigin(pc, e, o))
  {
  }

  lemma TransferTraces(words: LiteralWords, pc: u32, i: Instruction, state: RegisterState, policy: ExactPolicy,
                       o: Origins, u: Origins)
    requires Traces(state, o) && forall r: Register :: u(r) == OriginAfter(pc, i, o, r)
    ensures Traces(Transfer(words, pc, i, state, policy), u)
  {
    if !IsCallBoundary(i) && !i.conditional && i.effect.RegisterWrite?
       && EvaluateValueExpr(pc, i.effect.value, state, policy).Some? {
      EvaluateTraces(pc, i.effect.value, state, policy, o);
    }
    hide EvaluateValueExpr, ExprOrigin, ShiftValue;
  }

  lemma JoinTraces(sources: set<u32>, outputs: States, policy: ExactPolicy, q: u32, o: Origins)
    requires q in sources && q in outputs && Traces(outputs[q], o)
    ensures Traces(JoinSet(sources, outputs, policy), o)
  {
    var j := JoinSet(sources, outputs, policy);
    forall r | r in j
      ensures TracesValue(j[r], o(r))
    {
      AgreedMembers(sources, outputs, r, policy);
      assert j[r] == Merged(sources, outputs, r);
      assert forall d | d in outputs[q][r].definitions :: d in DefinitionsOf(sources, outputs, r);
    }
  }

  lemma RunInstructions(p: Problem, run: seq<Point>)
    requires WellPosed(p) && IsRun(p, run)
    ensures forall j | 0 <= j < |run| :: run[j].pc in p.instructions
  {
    forall j | 0 <= j < |run|
      ensures run[j].pc in p.instructions
    {
      RunStaysReachable(p, run, j);
    }
  }

  lemma StepTraces(p: Problem, before: States, after: States, from: u32, to: u32, o: Origins, u: Origins)
    requires WellPosed(p) && IsSolution(p, before, after) && from in p.reachable && to in p.reachable
    requires to in Targets(p.successors, from) && from in before && Traces(before[from], o)
    requires forall r: Register :: u(r) == OriginAfter(from, p.instructions[from], o, r)
    ensures to in before && Traces(before[to], u)
  {
    assert SolvedAt(p, before, after, from) && SolvedAt(p, before, after, to);
    TransferTraces(p.words, from, p.instructions[from], before[from], p.policy, o, u);
    if to != p.entry {
      assert from in Sources(p, to, after);
      JoinTraces(Sources(p, to, after), after, p.policy, from, u);
    }
  }

  lemma EntryTraces(p: Problem, before: States, after: States, o: Origins)
    requires WellPosed(p) && IsSolution(p, before, after)
    ensures p.entry in before && Traces(before[p.entry], o)
  {
    assert SolvedAt(p, before, after, p.entry);
  }

  /** At every point of every run, definition sets and lineages tell where the exact values came from. */
  lemma {:induction false} RunTraces(p: Problem, before: States, after: States, run: seq<Point>, k: nat)
    requires WellPosed(p) && IsSolution(p, before, after) && IsRun(p, run) && k < |run|
    ensures forall j | 0 <= j < |run| :: run[j].pc in p.instructions
    ensures run[k].pc in before && Traces(before[run[k].pc], OriginsAt(p, run, k))
  {
    hide *;
    RunInstructions(p, run);
    RunSteps(p, run, k);
    if k == 0 {
      EntryTraces(p, before, after, OriginsAt(p, run, 0));
    } else {
      RunTraces(p, before, after, run, k - 1);
      RunStaysReachable(p, run, k - 1);
      RunStaysReachable(p, run, k);
      StepEdge(p, run[k - 1], run[k]);
      OriginsStepAt(p, run, k);
      StepTraces(p, before, after, run[k - 1].pc, run[k].pc, OriginsAt(p, run, k - 1), OriginsAt(p, run, k));
    }
  }

  lemma StepEdge(p: Problem, from: Point, to: Point)
    requires StepsTo(p, from, to)
    ensures to.pc in Targets(p.successors, from.pc)
  {
    hide Executes;
  }

  lemma OriginsStepAt(p: Problem, run: seq<Point>, k: nat)
    requires 0 < k < |run| && forall j | 0 <= j < |run| :: run[j].pc in p.instructions
    ensures forall r: Register :: OriginsAt(p, run, k)(r)
              == OriginAfter(run[k - 1].pc, p.instructions[run[k - 1].pc], OriginsAt(p, run, k - 1), r)
  {
    hide OriginAfter;
  }
}
