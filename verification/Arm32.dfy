/** The decoded-instruction model: exactly the parts of an instruction the control-flow engine reads. */
module Arm32 {
  import opened Words

  datatype Isa = Arm | Thumb

  type Register = byte

  const LR: Register := 14

  datatype Shift = Lsl(amount: byte) | Lsr(amount: byte) | Asr(amount: byte) | Ror(amount: byte) | Rrx

  datatype Operand = Immediate(value: u32) | Shifted(register: Register, shift: Shift)

  datatype AddressBase = BaseRegister(register: Register) | ArchitecturalPc(alignToFour: bool)

  datatype AddressOffset = OffsetImmediate(offset: int) | OffsetRegister

  datatype AddressExpr = AddressExpr(base: AddressBase, offset: AddressOffset)

  datatype ValueExpr =
    | Constant(value: u32)
    | Copy(source: Register)
    | ReplaceHighHalf(source: Register, high: u16)
    | Add(left: Register, right: Operand)
    | Sub(left: Register, right: Operand)
    | PcRelative(addend: int, alignToFour: bool)

  datatype ValueEffect =
    | NoEffect
    | RegisterWrite(dst: Register, value: ValueExpr)
    | ShiftInto(dst: Register, source: Register, shift: Shift)
    | LiteralWordLoad(dst: Register, address: AddressExpr)
    | Memory
    | Compare
    | Unsupported

  datatype ControlFlow =
    | Linear
    | DirectBranch(target: u32, fallthrough: Option<u32>)
    | DirectCall(target: u32)
    | ExceptionCall
    | Return
    | Barrier

  datatype Instruction = Instruction(
    isa: Isa, pc: u32, length: byte, conditional: bool, linksLr: bool,
    writes: set<Register>, effect: ValueEffect, flow: ControlFlow)

  /** The registers a call leaves unknown: R0-R3, R12 and LR. */
  const CALL_VOLATILE: set<Register> := {0, 1, 2, 3, 12, LR}

  /** Direct calls, exception calls and linking barriers return through the call boundary. */
  predicate IsCallBoundary(i: Instruction) {
    i.flow.DirectCall? || i.flow.ExceptionCall? || (i.flow.Barrier? && i.linksLr)
  }

  predicate IsAligned(pc: u32, isa: Isa) {
    match isa
    case Arm => pc % 4 == 0
    case Thumb => pc % 2 == 0
  }

  predicate ValidLength(isa: Isa, length: byte) {
    match isa
    case Arm => length == 4
    case Thumb => length == 2 || length == 4
  }

  /** The PC value an instruction sees: aligned down to four for Thumb literals, else eight ahead. */
  function VisiblePc(pc: u32, alignToFour: bool): u32 {
    if alignToFour then
      var ahead := (pc + 4) % LIMIT32;
      ahead - ahead % 4
    else
      (pc + 8) % LIMIT32
  }

  function WrappingOffset(address: u32, offset: int): u32 {
    (address + offset % LIMIT32) % LIMIT32
  }
}
