/** What the architecture says that an instruction does to the registers, whatever is known about them. */
module Architecture {
  import opened Words
  import opened Arm32
  import opened MustValues
  import opened ShiftBits

  /** The contents of every register. */
  type Registers = Register -> u32

  ghost predicate ChangesOnly(regs: set<Register>, before: Registers, after: Registers) {
    forall r: Register | r !in regs :: after(r) == before(r)
  }

  ghost predicate OperandResult(operand: Operand, regs: Registers, result: u32) {
    match operand
    case Immediate(value) => result == value
    case Shifted(register, shift) => ShiftResult(regs(register), shift, result)
  }

  /** The architectural value of an expression: 32-bit arithmetic wraps around. */
  ghost predicate ExprResult(pc: u32, e: ValueExpr, regs: Registers, result: u32) {
    match e
    case Constant(value) => result == value
    case Copy(source) => result == regs(source)
    case ReplaceHighHalf(source, high) => result / 0x1_0000 == high && result % 0x1_0000 == regs(source) % 0x1_0000
    case Add(left, right) =>
      exists operand: u32 :: OperandResult(right, regs, operand) && result == (regs(left) + operand) % LIMIT32
    case Sub(left, right) =>
      exists operand: u32 :: OperandResult(right, regs, operand) && result == (regs(left) - operand) % LIMIT32
    case PcRelative(addend, alignToFour) => result == (VisiblePc(pc, alignToFour) + addend) % LIMIT32
  }

  /** The address a PC-relative literal load reads, if the load has that form. */
  ghost predicate ReadsLiteral(pc: u32, address: AddressExpr, at: u32) {
    && address.base.ArchitecturalPc? && address.offset.OffsetImmediate?
    && at == (VisiblePc(pc, address.base.alignToFour) + address.offset.offset) % LIMIT32
  }

  /**
   * One instruction's effect on the registers. A callee may change exactly the volatile registers, a
   * predicated instruction may or may not execute, and byte-backed literals keep their image contents.
   */
  ghost predicate Executes(words: LiteralWords, pc: u32, i: Instruction, before: Registers, after: Registers) {
    if IsCallBoundary(i) then ChangesOnly(CALL_VOLATILE, before, after)
    else if i.conditional then ChangesOnly(i.writes, before, after)
    else
      match i.effect
      case RegisterWrite(dst, value) => ChangesOnly({dst}, before, after) && ExprResult(pc, value, before, after(dst))
      case ShiftInto(dst, source, shift) =>
        ChangesOnly({dst}, before, after) && ShiftResult(before(source), shift, after(dst))
      case LiteralWordLoad(dst, address) =>
        && ChangesOnly({dst}, before, after)
        && forall at: u32 | ReadsLiteral(pc, address, at) && at in words :: after(dst) == words[at]
      case Memory => ChangesOnly(i.writes, before, after)
      case Unsupported => ChangesOnly(i.writes, before, after)
      case Compare => ChangesOnly({}, before, after)
      case NoEffect => ChangesOnly({}, before, after)
  }

  /** Every exact value is the register's value. */
  ghost predicate Holds(state: RegisterState, regs: Registers) {
    forall r | r in state :: regs(r) == state[r].value
  }

  /** In Thumb literals the PC is the last word address that is at most four ahead; otherwise it is eight ahead. */
  lemma VisibleExactly(pc: u32, v: u32)
    requires pc + 8 < LIMIT32
    ensures v == VisiblePc(pc, false) <==> v - pc == 8
    ensures v == VisiblePc(pc, true) <==> v % 4 == 0 && v <= pc + 4 < v + 4
  {
  }

  /** Near the end of memory the PC wraps around. */
  lemma VisibleWraps(pc: u32)
    requires pc + 8 >= LIMIT32
    ensures VisiblePc(pc, false) == pc + 8 - LIMIT32
    ensures VisiblePc(pc, true)
         == if pc + 4 < LIMIT32 then pc + 4 - (pc + 4) % 4 else pc + 4 - LIMIT32 - (pc + 4 - LIMIT32) % 4
  {
  }

  lemma OffsetWraps(address: u32, offset: int)
    ensures WrappingOffset(address, offset) == (address + offset) % LIMIT32
  {
    assert offset == offset / LIMIT32 * LIMIT32 + offset % LIMIT32;
    WrapMultiple(address + offset % LIMIT32, offset / LIMIT32);
  }

  lemma WrapMultiple(x: int, q: int)
    ensures (x + q * LIMIT32) % LIMIT32 == x % LIMIT32
  {
  }
}
