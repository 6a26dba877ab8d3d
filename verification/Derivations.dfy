/** What a newly computed value is derived from, told by the registers its instruction reads. */
module Derivations {
  import opened Words
  import opened Arm32
  import opened MustValues
  import opened Architecture
  import opened KnownValues

  function OperandReads(operand: Operand): seq<Register> {
    if operand.Shifted? then [operand.register] else []
  }

  function ExprReads(e: ValueExpr): seq<Register> {
    match e
    case Constant(_) => []
    case PcRelative(_, _) => []
    case Copy(source) => [source]
    case ReplaceHighHalf(source, _) => [source]
    case Add(left, right) => [left] + OperandReads(right)
    case Sub(left, right) => [left] + OperandReads(right)
  }

  /** The registers an instruction reads to compute its destination, each as often as it reads it. */
  function Reads(i: Instruction): seq<Register> {
    match i.effect
    case RegisterWrite(_, value) => ExprReads(value)
    case ShiftInto(_, source, _) => [source]
    case _ => []
  }

  /** The definitions of everything that was read. */
  ghost function DefinitionsRead(sources: seq<Register>, state: RegisterState): set<u32> {
    set r, d | r in sources && r in state && d in state[r].definitions :: d
  }

  /**
   * The value is defined by this instruction and by what defined the registers read. Its lineage begins here if nothing
   * was read, goes on if one register was read that has one, and is lost if two were.
   */
  ghost predicate IsDerived(pc: u32, sources: seq<Register>, before: RegisterState, v: ExactValue) {
    && (forall r | r in sources :: r in before)
    && v.definitions == DefinitionsRead(sources, before) + {pc}
    && v.lineage ==
         (if sources == [] then Some(Lineage(pc, pc))
          else if |sources| == 1 && before[sources[0]].lineage.Some? then
            Some(Lineage(pc, before[sources[0]].lineage.value.root))
          else None)
  }

  lemma OneRead(r: Register, state: RegisterState)
    requires r in state
    ensures DefinitionsRead([r], state) == state[r].definitions && DefinitionsRead([], state) == {}
  {
    assert r in [r];
  }

  lemma TwoRead(r: Register, s: Register, state: RegisterState)
    requires r in state && s in state
    ensures DefinitionsRead([r] + [s], state) == state[r].definitions + state[s].definitions
  {
    var sources := [r] + [s];
    assert sources[0] == r && sources[1] == s && r in sources && s in sources;
  }

  lemma ArithmeticDerives(pc: u32, left: Register, right: Operand, subtract: bool, state: RegisterState,
                          policy: ExactPolicy)
    requires Arithmetic(pc, left, right, subtract, state, policy).Some?
    ensures IsDerived(pc, [left] + OperandReads(right), state,
                      Arithmetic(pc, left, right, subtract, state, policy).value)
  {
    OneRead(left, state);
    if right.Shifted? {
      TwoRead(left, right.register, state);
    } else {
      assert [left] + OperandReads(right) == [left];
    }
    hide DefinitionsRead, ShiftValue;
  }

  lemma ExprDerives(pc: u32, e: ValueExpr, state: RegisterState, policy: ExactPolicy)
    requires EvaluateValueExpr(pc, e, state, policy).Some?
    ensures IsDerived(pc, ExprReads(e), state, EvaluateValueExpr(pc, e, state, policy).value)
  {
    match e
    case Constant(_) =>
    case PcRelative(_, _) =>
    case Copy(source) => OneRead(source, state);
    case ReplaceHighHalf(source, _) => OneRead(source, state);
    case Add(left, right) => ArithmeticDerives(pc, left, right, false, state, policy);
    case Sub(left, right) => ArithmeticDerives(pc, left, right, true, state, policy);
  }

  /** A register that is set is derived from what the instruction reads; one that is left alone keeps all it had. */
  lemma TransferDerives(words: LiteralWords, pc: u32, i: Instruction, state: RegisterState, policy: ExactPolicy,
                        r: Register)
    requires r in Transfer(words, pc, i, state, policy)
    ensures var after := Transfer(words, pc, i, state, policy);
            if r in Changed(i) then IsDerived(pc, Reads(i), state, after[r]) else r in state && after[r] == state[r]
  {
    if !IsCallBoundary(i) && !i.conditional {
      match i.effect
      case RegisterWrite(dst, value) =>
        if r == dst {
          ExprDerives(pc, value, state, policy);
        }
      case ShiftInto(dst, source, _) =>
        if r == dst {
          OneRead(source, state);
        }
      case _ =>
    }
    hide EvaluateValueExpr, ShiftValue, DefinitionsRead, ResolveLiteralWord;
  }
}
