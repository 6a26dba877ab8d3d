/** Exact register values: what a program point must hold, how an instruction changes it, how paths join. */
module MustValues {
  import opened Words
  import opened Arm32

  /** The instruction that last defined a value and the one the value was first defined by. */
  datatype Lineage = Lineage(definition: u32, root: u32)

  datatype ExactValue = ExactValue(value: u32, definitions: set<u32>, lineage: Option<Lineage>)

  type RegisterState = map<Register, ExactValue>

  datatype ExactJoin = JoinValue | JoinValueDefinitionRoot

  datatype ExactTransfer = Complete | ImmediateAndLsr

  datatype ExactPolicy = ExactPolicy(join: ExactJoin, transfer: ExactTransfer)

  /** The little-endian words of byte-backed memory, keyed by every address that has one. */
  type LiteralWords = map<u32, u32>

  // Shifts move one bit at a time; the amount says how often.

  function LeftOne(value: u32): u32 {
    value * 2 % LIMIT32
  }

  /** Halves the value and sets bit 31 to `top`. */
  function RightOne(value: u32, top: u32): u32
    requires top < 2
  {
    value / 2 + top * 0x8000_0000
  }

  function ShiftLeft(value: u32, amount: nat): u32
    decreases amount
  {
    if amount == 0 then value else ShiftLeft(LeftOne(value), amount - 1)
  }

  function ShiftRight(value: u32, amount: nat): u32
    decreases amount
  {
    if amount == 0 then value else ShiftRight(RightOne(value, 0), amount - 1)
  }

  function ShiftRightSigned(value: u32, amount: nat): u32
    decreases amount
  {
    if amount == 0 then value else ShiftRightSigned(RightOne(value, value / 0x8000_0000), amount - 1)
  }

  function RotateRight(value: u32, amount: nat): u32
    decreases amount
  {
    if amount == 0 then value else RotateRight(RightOne(value, value % 2), amount - 1)
  }

  function ShiftValue(value: u32, shift: Shift): Option<u32> {
    match shift
    case Lsl(amount) => Some(if amount >= 32 then 0 else ShiftLeft(value, amount))
    case Lsr(amount) => Some(if amount >= 32 then 0 else ShiftRight(value, amount))
    case Asr(amount) =>
      Some(if amount >= 32 then (if value < 0x8000_0000 then 0 else LIMIT32 - 1)
           else ShiftRightSigned(value, amount))
    case Ror(amount) => Some(RotateRight(value, amount % 32))
    case Rrx => None
  }

  function ExactDefinition(value: u32, pc: u32): ExactValue {
    ExactValue(value, {pc}, Some(Lineage(pc, pc)))
  }

  function Redefine(lineage: Option<Lineage>, pc: u32): Option<Lineage> {
    if lineage.Some? then Some(Lineage(pc, lineage.value.root)) else None
  }

  function DerivedValue(value: ExactValue, derived: u32, pc: u32): ExactValue {
    ExactValue(derived, value.definitions + {pc}, Redefine(value.lineage, pc))
  }

  /** An operand's value and the definitions it adds. */
  function OperandValue(operand: Operand, state: RegisterState): Option<(u32, set<u32>)> {
    match operand
    case Immediate(value) => Some((value, {}))
    case Shifted(register, shift) =>
      if register !in state then None
      else
        var shifted := ShiftValue(state[register].value, shift);
        if shifted.None? then None else Some((shifted.value, state[register].definitions))
  }

  /** The value of an addition or subtraction that must not leave the 32-bit range. */
  function Arithmetic(pc: u32, left: Register, right: Operand, subtract: bool, state: RegisterState,
                      policy: ExactPolicy): Option<ExactValue>
  {
    if policy.transfer.ImmediateAndLsr? && right.Shifted? then None
    else if left !in state then None
    else
      var operand := OperandValue(right, state);
      if operand.None? then None
      else
        var base := state[left];
        var result := if subtract then base.value - operand.value.0 else base.value + operand.value.0;
        if !(0 <= result < LIMIT32) then None
        else
          var lineage := if right.Shifted? then None else Redefine(base.lineage, pc);
          Some(ExactValue(result, base.definitions + operand.value.1 + {pc}, lineage))
  }

  function EvaluateValueExpr(pc: u32, expression: ValueExpr, state: RegisterState, policy: ExactPolicy)
    : Option<ExactValue>
  {
    match expression
    case Constant(value) => Some(ExactDefinition(value, pc))
    case Copy(source) =>
      if source in state then Some(DerivedValue(state[source], state[source].value, pc)) else None
    case ReplaceHighHalf(source, high) =>
      if source in state then
        Some(DerivedValue(state[source], high * 0x1_0000 + state[source].value % 0x1_0000, pc))
      else None
    case Add(left, right) => Arithmetic(pc, left, right, false, state, policy)
    case Sub(left, right) => Arithmetic(pc, left, right, true, state, policy)
    case PcRelative(addend, alignToFour) =>
      Some(ExactDefinition(WrappingOffset(VisiblePc(pc, alignToFour), addend), pc))
  }

  function ResolveLiteralWord(words: LiteralWords, pc: u32, address: AddressExpr): Option<u32> {
    match address
    case AddressExpr(ArchitecturalPc(alignToFour), OffsetImmediate(offset)) =>
      var literal := WrappingOffset(VisiblePc(pc, alignToFour), offset);
      if literal in words then Some(words[literal]) else None
    case _ => None
  }

  /** Binds `dst` to a known value or forgets it. */
  function Assign(state: RegisterState, dst: Register, value: Option<ExactValue>): RegisterState {
    if value.Some? then state[dst := value.value] else state - {dst}
  }

  /** The effect of one instruction on the exact register values. */
  function Transfer(words: LiteralWords, pc: u32, i: Instruction, state: RegisterState, policy: ExactPolicy)
    : RegisterState
  {
    if IsCallBoundary(i) then state - CALL_VOLATILE
    else if i.conditional then state - i.writes
    else
      match i.effect
      case RegisterWrite(dst, value) => Assign(state, dst, EvaluateValueExpr(pc, value, state, policy))
      case ShiftInto(dst, source, shift) => Assign(state, dst, ShiftedValue(pc, source, shift, state, policy))
      case LiteralWordLoad(dst, address) =>
        var word := ResolveLiteralWord(words, pc, address);
        Assign(state, dst, if word.Some? then Some(ExactDefinition(word.value, pc)) else None)
      case Memory => state - i.writes
      case Unsupported => state - i.writes
      case Compare => state
      case NoEffect => state
  }

  function ShiftedValue(pc: u32, source: Register, shift: Shift, state: RegisterState, policy: ExactPolicy)
    : Option<ExactValue>
  {
    if (policy.transfer.Complete? || shift.Lsr?) && source in state then
      var shifted := ShiftValue(state[source].value, shift);
      if shifted.Some? then Some(DerivedValue(state[source], shifted.value, pc)) else None
    else None
  }

  function JoinValues(left: ExactValue, right: ExactValue): ExactValue {
    ExactValue(left.value, left.definitions + right.definitions,
               if left.lineage == right.lineage then left.lineage else None)
  }

  predicate Joinable(left: ExactValue, right: ExactValue, policy: ExactPolicy) {
    && left.value == right.value
    && (policy.join.JoinValueDefinitionRoot? ==> left.lineage.Some? && left.lineage == right.lineage)
  }

  /** What two paths agree on. */
  function JoinStates(left: RegisterState, right: RegisterState, policy: ExactPolicy): RegisterState {
    map r | r in left && r in right && Joinable(left[r], right[r], policy) :: JoinValues(left[r], right[r])
  }

  // ---------------------------------------------------------------- forgetting

  ghost predicate ForgetsValue(s: ExactValue, t: ExactValue) {
    && s.value == t.value
    && s.definitions <= t.definitions
    && (t.lineage.None? || t.lineage == s.lineage)
  }

  /** `t` follows from `s` by dropping facts, enlarging definition sets and losing lineage. */
  ghost predicate Forgets(s: RegisterState, t: RegisterState) {
    forall r | r in t :: r in s && ForgetsValue(s[r], t[r])
  }

  lemma ForgetsTransitive(s: RegisterState, t: RegisterState, u: RegisterState)
    requires Forgets(s, t) && Forgets(t, u)
    ensures Forgets(s, u)
  {
  }

  lemma ForgetsAntisymmetric(s: RegisterState, t: RegisterState)
    requires Forgets(s, t) && Forgets(t, s)
    ensures s == t
  {
    forall r | r in s
      ensures r in t && s[r] == t[r]
    {
    }
  }

  lemma OperandMonotone(operand: Operand, s: RegisterState, t: RegisterState)
    requires Forgets(s, t) && OperandValue(operand, t).Some?
    ensures OperandValue(operand, s).Some?
    ensures OperandValue(operand, s).value.0 == OperandValue(operand, t).value.0
    ensures OperandValue(operand, s).value.1 <= OperandValue(operand, t).value.1
  {
  }

  lemma ArithmeticMonotone(pc: u32, left: Register, right: Operand, subtract: bool,
                           s: RegisterState, t: RegisterState, policy: ExactPolicy)
    requires Forgets(s, t) && Arithmetic(pc, left, right, subtract, t, policy).Some?
    ensures Arithmetic(pc, left, right, subtract, s, policy).Some?
    ensures ForgetsValue(Arithmetic(pc, left, right, subtract, s, policy).value,
                         Arithmetic(pc, left, right, subtract, t, policy).value)
  {
    OperandMonotone(right, s, t);
  }

  lemma EvaluateMonotone(pc: u32, e: ValueExpr, s: RegisterState, t: RegisterState, policy: ExactPolicy)
    requires Forgets(s, t) && EvaluateValueExpr(pc, e, t, policy).Some?
    ensures EvaluateValueExpr(pc, e, s, policy).Some?
    ensures ForgetsValue(EvaluateValueExpr(pc, e, s, policy).value, EvaluateValueExpr(pc, e, t, policy).value)
  {
    match e
    case Add(left, right) => ArithmeticMonotone(pc, left, right, false, s, t, policy);
    case Sub(left, right) => ArithmeticMonotone(pc, left, right, true, s, t, policy);
    case _ =>
  }

  lemma AssignMonotone(s: RegisterState, t: RegisterState, dst: Register,
                       v: Option<ExactValue>, w: Option<ExactValue>)
    requires Forgets(s, t) && (w.Some? ==> v.Some? && ForgetsValue(v.value, w.value))
    ensures Forgets(Assign(s, dst, v), Assign(t, dst, w))
  {
  }

  /** Knowing less before an instruction never means knowing more after it. */
  lemma TransferMonotone(words: LiteralWords, pc: u32, i: Instruction, s: RegisterState, t: RegisterState,
                         policy: ExactPolicy)
    requires Forgets(s, t)
    ensures Forgets(Transfer(words, pc, i, s, policy), Transfer(words, pc, i, t, policy))
  {
    if !IsCallBoundary(i) && !i.conditional {
      match i.effect
      case RegisterWrite(dst, value) =>
        var v, w := EvaluateValueExpr(pc, value, s, policy), EvaluateValueExpr(pc, value, t, policy);
        if w.Some? {
          EvaluateMonotone(pc, value, s, t, policy);
        }
        AssignMonotone(s, t, dst, v, w);
      case ShiftInto(dst, source, shift) =>
        AssignMonotone(s, t, dst, ShiftedValue(pc, source, shift, s, policy),
                       ShiftedValue(pc, source, shift, t, policy));
      case LiteralWordLoad(dst, address) =>
        var word := ResolveLiteralWord(words, pc, address);
        var v := if word.Some? then Some(ExactDefinition(word.value, pc)) else None;
        AssignMonotone(s, t, dst, v, v);
      case _ =>
    }
  }
}
