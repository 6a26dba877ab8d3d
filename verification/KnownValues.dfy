/** Exactly when a register's value is known after an instruction, and what it then is. */
module KnownValues {
  import opened Words
  import opened Arm32
  import opened MustValues
  import opened ShiftBits
  import opened Architecture

  /** Registers that hold what is known. */
  ghost function RegistersOf(state: RegisterState): Registers {
    (r: Register) => if r in state then state[r].value else 0
  }

  /** The carry that RRX shifts in is not known. */
  predicate ShiftKnown(shift: Shift) {
    !shift.Rrx?
  }

  predicate OperandKnown(operand: Operand, state: RegisterState) {
    operand.Shifted? ==> operand.register in state && ShiftKnown(operand.shift)
  }

  /** The unbounded result of the arithmetic is a word. */
  ghost predicate ResultFits(left: Register, right: Operand, sign: int, state: RegisterState) {
    exists operand: u32 ::
      OperandResult(right, RegistersOf(state), operand)
      && 0 <= RegistersOf(state)(left) + sign * operand < LIMIT32
  }

  /** The sum or difference is known: what it reads is, the policy admits its form, and it does not leave the range. */
  ghost predicate ArithmeticKnown(left: Register, right: Operand, sign: int, state: RegisterState,
                                  policy: ExactPolicy)
  {
    && left in state && OperandKnown(right, state)
    && (right.Immediate? || policy.transfer.Complete?)
    && ResultFits(left, right, sign, state)
  }

  ghost predicate ExprKnown(e: ValueExpr, state: RegisterState, policy: ExactPolicy) {
    match e
    case Constant(_) => true
    case PcRelative(_, _) => true
    case Copy(source) => source in state
    case ReplaceHighHalf(source, _) => source in state
    case Add(left, right) => ArithmeticKnown(left, right, 1, state, policy)
    case Sub(left, right) => ArithmeticKnown(left, right, -1, state, policy)
  }

  /** The instruction gives the register a new value that is known. */
  ghost predicate SetKnown(words: LiteralWords, pc: u32, i: Instruction, state: RegisterState, policy: ExactPolicy,
                           r: Register)
  {
    match i.effect
    case RegisterWrite(dst, value) => r == dst && ExprKnown(value, state, policy)
    case ShiftInto(dst, source, shift) =>
      r == dst && source in state && ShiftKnown(shift) && (policy.transfer.Complete? || shift.Lsr?)
    case LiteralWordLoad(dst, address) => r == dst && exists at: u32 :: ReadsLiteral(pc, address, at) && at in words
    case _ => false
  }

  /** The value is one that the instruction, executed with these registers, gives its destination. */
  ghost predicate IsResult(words: LiteralWords, pc: u32, i: Instruction, regs: Registers, v: u32) {
    match i.effect
    case RegisterWrite(_, value) => ExprResult(pc, value, regs, v)
    case ShiftInto(_, source, shift) => ShiftResult(regs(source), shift, v)
    case LiteralWordLoad(_, address) => exists at: u32 :: ReadsLiteral(pc, address, at) && at in words && words[at] == v
    case _ => false
  }

  /** The registers whose value before the instruction says nothing about the one after it. */
  function Changed(i: Instruction): set<Register> {
    if IsCallBoundary(i) then CALL_VOLATILE
    else if i.conditional then i.writes
    else
      match i.effect
      case RegisterWrite(dst, _) => {dst}
      case ShiftInto(dst, _, _) => {dst}
      case LiteralWordLoad(dst, _) => {dst}
      case Memory => i.writes
      case Unsupported => i.writes
      case Compare => {}
      case NoEffect => {}
  }

  /** What is known after the instruction: what it certainly sets to a known value, and what it leaves alone. */
  ghost predicate KnowsAfter(words: LiteralWords, pc: u32, i: Instruction, before: RegisterState, policy: ExactPolicy,
                             after: RegisterState, r: Register)
  {
    if r !in Changed(i) then
      (r in after <==> r in before) && (r in after ==> after[r].value == before[r].value)
    else
      && (r in after <==> !IsCallBoundary(i) && !i.conditional && SetKnown(words, pc, i, before, policy, r))
      && (r in after ==> IsResult(words, pc, i, RegistersOf(before), after[r].value))
  }

  // ---------------------------------------------------------------- the transfer

  lemma OperandComputes(operand: Operand, state: RegisterState)
    ensures OperandValue(operand, state).Some? <==> OperandKnown(operand, state)
    ensures OperandValue(operand, state).Some? ==>
              forall v: u32 ::
                OperandResult(operand, RegistersOf(state), v) <==> v == OperandValue(operand, state).value.0
  {
    hide ShiftResult;
    if operand.Shifted? && operand.register in state {
      assert ShiftValue(state[operand.register].value, operand.shift).None? <==> operand.shift.Rrx?;
    }
    if OperandValue(operand, state).Some? {
      forall v: u32
        ensures OperandResult(operand, RegistersOf(state), v) <==> v == OperandValue(operand, state).value.0
      {
        if operand.Shifted? {
          ShiftExact(state[operand.register].value, operand.shift, v);
        }
      }
    }
  }

  lemma ArithmeticComputes(pc: u32, left: Register, right: Operand, subtract: bool, state: RegisterState,
                           policy: ExactPolicy)
    ensures var v := Arithmetic(pc, left, right, subtract, state, policy);
            var sign := if subtract then -1 else 1;
            && (v.Some? <==> ArithmeticKnown(left, right, sign, state, policy))
            && (v.Some? ==> exists operand: u32 :: OperandResult(right, RegistersOf(state), operand)
                                                   && v.value.value == RegistersOf(state)(left) + sign * operand)
  {
    OperandComputes(right, state);
    var regs := RegistersOf(state);
    hide OperandResult, OperandValue, OperandKnown;
    if left in state && OperandValue(right, state).Some? {
      var operand: u32 := OperandValue(right, state).value.0;
      assert OperandResult(right, regs, operand) && regs(left) == state[left].value;
      assert forall v: u32 :: OperandResult(right, regs, v) ==> v == operand;
      assert subtract ==> regs(left) - operand == regs(left) + -1 * operand;
    }
  }

  lemma WordModulo(x: int)
    requires 0 <= x < LIMIT32
    ensures x % LIMIT32 == x
  {
  }

  lemma HalvesMake(high: u16, low: int)
    requires 0 <= low < 0x1_0000
    ensures (high * 0x1_0000 + low) / 0x1_0000 == high && (high * 0x1_0000 + low) % 0x1_0000 == low
  {
  }

  lemma ExprComputes(pc: u32, e: ValueExpr, state: RegisterState, policy: ExactPolicy)
    ensures var v := EvaluateValueExpr(pc, e, state, policy);
            && (v.Some? <==> ExprKnown(e, state, policy))
            && (v.Some? ==> ExprResult(pc, e, RegistersOf(state), v.value.value))
  {
    match e
    case Constant(_) =>
    case Copy(_) =>
    case ReplaceHighHalf(source, high) =>
      if source in state {
        HalvesMake(high, state[source].value % 0x1_0000);
      }
    case Add(left, right) =>
      ArithmeticComputes(pc, left, right, false, state, policy);
      hide Arithmetic, ArithmeticKnown, OperandResult;
      SumIsResult(pc, left, right, state, policy);
    case Sub(left, right) =>
      ArithmeticComputes(pc, left, right, true, state, policy);
      hide Arithmetic, ArithmeticKnown, OperandResult;
      DifferenceIsResult(pc, left, right, state, policy);
    case PcRelative(addend, alignToFour) =>
      OffsetWraps(VisiblePc(pc, alignToFour), addend);
      hide VisiblePc, WrappingOffset;
  }

  lemma SumIsResult(pc: u32, left: Register, right: Operand, state: RegisterState, policy: ExactPolicy)
    ensures var v := Arithmetic(pc, left, right, false, state, policy);
            v.Some? ==> ExprResult(pc, Add(left, right), RegistersOf(state), v.value.value)
  {
    var v := Arithmetic(pc, left, right, false, state, policy);
    ArithmeticComputes(pc, left, right, false, state, policy);
    hide Arithmetic, ArithmeticKnown, OperandResult;
    if v.Some? {
      var operand: u32 :| OperandResult(right, RegistersOf(state), operand)
                          && v.value.value == RegistersOf(state)(left) + 1 * operand;
      WordModulo(RegistersOf(state)(left) + operand);
    }
  }

  lemma DifferenceIsResult(pc: u32, left: Register, right: Operand, state: RegisterState, policy: ExactPolicy)
    ensures var v := Arithmetic(pc, left, right, true, state, policy);
            v.Some? ==> ExprResult(pc, Sub(left, right), RegistersOf(state), v.value.value)
  {
    var v := Arithmetic(pc, left, right, true, state, policy);
    ArithmeticComputes(pc, left, right, true, state, policy);
    hide Arithmetic, ArithmeticKnown, OperandResult;
    if v.Some? {
      var operand: u32 :| OperandResult(right, RegistersOf(state), operand)
                          && v.value.value == RegistersOf(state)(left) + -1 * operand;
      WordModulo(RegistersOf(state)(left) - operand);
    }
  }

  lemma ShiftComputed(pc: u32, source: Register, shift: Shift, state: RegisterState, policy: ExactPolicy)
    ensures var v := ShiftedValue(pc, source, shift, state, policy);
            && (v.Some? <==> source in state && ShiftKnown(shift) && (policy.transfer.Complete? || shift.Lsr?))
            && (v.Some? ==> ShiftResult(RegistersOf(state)(source), shift, v.value.value))
  {
    if source in state && !shift.Rrx? {
      ShiftExact(state[source].value, shift, ShiftValue(state[source].value, shift).value);
    }
    hide ShiftResult;
  }

  lemma LiteralComputes(words: LiteralWords, pc: u32, address: AddressExpr)
    ensures var v := ResolveLiteralWord(words, pc, address);
            && (v.Some? <==> exists at: u32 :: ReadsLiteral(pc, address, at) && at in words)
            && (v.Some? ==> exists at: u32 :: ReadsLiteral(pc, address, at) && at in words && words[at] == v.value)
  {
    if address.base.ArchitecturalPc? && address.offset.OffsetImmediate? {
      var at := WrappingOffset(VisiblePc(pc, address.base.alignToFour), address.offset.offset);
      OffsetWraps(VisiblePc(pc, address.base.alignToFour), address.offset.offset);
      hide VisiblePc, WrappingOffset;
      assert ReadsLiteral(pc, address, at);
    }
  }

  /** The transfer knows exactly what can be known, and gets it right. */
  lemma TransferKnows(words: LiteralWords, pc: u32, i: Instruction, state: RegisterState, policy: ExactPolicy,
                      r: Register)
    ensures KnowsAfter(words, pc, i, state, policy, Transfer(words, pc, i, state, policy), r)
  {
    if !IsCallBoundary(i) && !i.conditional {
      match i.effect
      case RegisterWrite(_, value) => ExprComputes(pc, value, state, policy);
      case ShiftInto(_, source, shift) => ShiftComputed(pc, source, shift, state, policy);
      case LiteralWordLoad(_, address) => LiteralComputes(words, pc, address);
      case _ =>
    }
    hide EvaluateValueExpr, ShiftedValue, ResolveLiteralWord, ExprKnown, ExprResult, ShiftResult, ReadsLiteral;
  }
}
