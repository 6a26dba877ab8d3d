/**
 * Concrete machine runs over the decoded graph. Every exact value a solution holds at a program point
 * is the value the register has there on every run.
 */
module MustValueSoundness {
  import opened Words
  import opened ControlGraph
  import opened Arm32
  import opened MustValues
  import opened ShiftBits
  import opened Architecture
  import opened SemanticGraph
  import opened DataflowJoin
  import opened Dataflow

  lemma HighHalf(high: u16, low: int, result: u32)
    requires 0 <= low < 0x1_0000 && result / 0x1_0000 == high && result % 0x1_0000 == low
    ensures result == high * 0x1_0000 + low
  {
  }

  lemma OperandSound(operand: Operand, state: RegisterState, regs: Registers, result: u32)
    requires Holds(state, regs) && OperandValue(operand, state).Some? && OperandResult(operand, regs, result)
    ensures result == OperandValue(operand, state).value.0
  {
    if operand.Shifted? {
      ShiftExact(regs(operand.register), operand.shift, result);
    }
  }

  lemma ArithmeticSound(pc: u32, left: Register, right: Operand, subtract: bool, state: RegisterState,
                        policy: ExactPolicy, regs: Registers, operand: u32, result: u32)
    requires Holds(state, regs) && Arithmetic(pc, left, right, subtract, state, policy).Some?
    requires OperandResult(right, regs, operand)
    requires result == (if subtract then regs(left) - operand else regs(left) + operand) % LIMIT32
    ensures result == Arithmetic(pc, left, right, subtract, state, policy).value.value
  {
    OperandSound(right, state, regs, operand);
    hide OperandResult, OperandValue;
  }

  /** An evaluated expression has the value the architecture gives it. */
  lemma EvaluateSound(pc: u32, e: ValueExpr, state: RegisterState, policy: ExactPolicy, regs: Registers, result: u32)
    requires Holds(state, regs) && EvaluateValueExpr(pc, e, state, policy).Some? && ExprResult(pc, e, regs, result)
    ensures result == EvaluateValueExpr(pc, e, state, policy).value.value
  {
    hide OperandResult, OperandValue, Arithmetic, VisiblePc, WrappingOffset;
    match e
    case Constant(_) =>
    case Copy(_) =>
    case ReplaceHighHalf(source, high) => HighHalf(high, regs(source) % 0x1_0000, result);
    case Add(left, right) =>
      var operand: u32 :| OperandResult(right, regs, operand) && result == (regs(left) + operand) % LIMIT32;
      ArithmeticSound(pc, left, right, false, state, policy, regs, operand, result);
    case Sub(left, right) =>
      var operand: u32 :| OperandResult(right, regs, operand) && result == (regs(left) - operand) % LIMIT32;
      ArithmeticSound(pc, left, right, true, state, policy, regs, operand, result);
    case PcRelative(addend, alignToFour) => OffsetWraps(VisiblePc(pc, alignToFour), addend);
  }

  lemma LiteralSound(words: LiteralWords, pc: u32, address: AddressExpr)
    requires ResolveLiteralWord(words, pc, address).Some?
    ensures exists at: u32 :: ReadsLiteral(pc, address, at) && at in words
                              && words[at] == ResolveLiteralWord(words, pc, address).value
  {
    var at := WrappingOffset(VisiblePc(pc, address.base.alignToFour), address.offset.offset);
    OffsetWraps(VisiblePc(pc, address.base.alignToFour), address.offset.offset);
    assert ReadsLiteral(pc, address, at);
  }

  /** What holds before an instruction gives, by the transfer, what holds after it. */
  lemma TransferSound(words: LiteralWords, pc: u32, i: Instruction, state: RegisterState, policy: ExactPolicy,
                      before: Registers, after: Registers)
    requires Holds(state, before) && Executes(words, pc, i, before, after)
    ensures Holds(Transfer(words, pc, i, state, policy), after)
  {
    if !IsCallBoundary(i) && !i.conditional {
      match i.effect
      case RegisterWrite(dst, value) =>
        if EvaluateValueExpr(pc, value, state, policy).Some? {
          EvaluateSound(pc, value, state, policy, before, after(dst));
        }
      case ShiftInto(dst, source, shift) =>
        if ShiftedValue(pc, source, shift, state, policy).Some? {
          ShiftExact(before(source), shift, after(dst));
        }
      case LiteralWordLoad(dst, address) =>
        if ResolveLiteralWord(words, pc, address).Some? {
          LiteralSound(words, pc, address);
        }
      case _ =>
    }
  }

  /** What one predecessor establishes survives the join only as far as every predecessor agrees. */
  lemma JoinSound(sources: set<u32>, outputs: States, policy: ExactPolicy, q: u32, regs: Registers)
    requires q in sources && q in outputs && Holds(outputs[q], regs)
    ensures Holds(JoinSet(sources, outputs, policy), regs)
  {
    var j := JoinSet(sources, outputs, policy);
    forall r | r in j
      ensures regs(r) == j[r].value
    {
      AgreedMembers(sources, outputs, r, policy);
      assert j[r] == Merged(sources, outputs, r);
      assert PairAgrees(outputs, Least(sources), q, r, policy);
    }
  }

  /** A point of a run: the instruction about to execute and the registers at that moment. */
  datatype Point = Point(pc: u32, regs: Registers)

  /** One step of a run: the instruction executes and control follows one of its recorded edges. */
  ghost predicate StepsTo(p: Problem, from: Point, to: Point) {
    && from.pc in p.instructions && to.pc in p.instructions
    && to.pc in Targets(p.successors, from.pc)
    && Executes(p.words, from.pc, p.instructions[from.pc], from.regs, to.regs)
  }

  /** A run starts at the entry, with any registers. */
  ghost predicate IsRun(p: Problem, run: seq<Point>) {
    && run != [] && run[0].pc == p.entry
    && forall k | 0 < k < |run| :: StepsTo(p, run[k - 1], run[k])
  }

  lemma {:induction false} RunStaysReachable(p: Problem, run: seq<Point>, k: nat)
    requires WellPosed(p) && IsRun(p, run) && k < |run|
    ensures run[k].pc in p.reachable
  {
    if k > 0 {
      RunStaysReachable(p, run, k - 1);
      assert StepsTo(p, run[k - 1], run[k]);
    }
  }

  lemma StepSound(p: Problem, before: States, after: States, from: Point, to: Point)
    requires WellPosed(p) && IsSolution(p, before, after)
    requires from.pc in p.reachable && to.pc in p.reachable && StepsTo(p, from, to)
    requires from.pc in before && Holds(before[from.pc], from.regs)
    ensures from.pc in after && Holds(after[from.pc], to.regs)
    ensures to.pc in before && Holds(before[to.pc], to.regs)
  {
    assert SolvedAt(p, before, after, from.pc) && SolvedAt(p, before, after, to.pc);
    TransferSound(p.words, from.pc, p.instructions[from.pc], before[from.pc], p.policy, from.regs, to.regs);
    if to.pc != p.entry {
      assert from.pc in Sources(p, to.pc, after);
      JoinSound(Sources(p, to.pc, after), after, p.policy, from.pc, to.regs);
    }
  }

  lemma RunSteps(p: Problem, run: seq<Point>, k: nat)
    requires IsRun(p, run) && k < |run|
    ensures k == 0 ==> run[k].pc == p.entry
    ensures k > 0 ==> StepsTo(p, run[k - 1], run[k])
  {
  }

  lemma EntryHolds(p: Problem, before: States, after: States, regs: Registers)
    requires WellPosed(p) && IsSolution(p, before, after)
    ensures p.entry in before && Holds(before[p.entry], regs)
  {
    assert SolvedAt(p, before, after, p.entry);
  }

  /** Must-value soundness: at every point of every run, what a solution says before it holds. */
  lemma {:induction false} RunSound(p: Problem, before: States, after: States, run: seq<Point>, k: nat)
    requires WellPosed(p) && IsSolution(p, before, after) && IsRun(p, run) && k < |run|
    ensures run[k].pc in before && Holds(before[run[k].pc], run[k].regs)
    ensures k > 0 ==> run[k - 1].pc in after && Holds(after[run[k - 1].pc], run[k].regs)
  {
    hide *;
    RunSteps(p, run, k);
    if k == 0 {
      EntryHolds(p, before, after, run[0].regs);
    } else {
      RunSound(p, before, after, run, k - 1);
      RunStaysReachable(p, run, k - 1);
      RunStaysReachable(p, run, k);
      StepSound(p, before, after, run[k - 1], run[k]);
    }
  }
}
