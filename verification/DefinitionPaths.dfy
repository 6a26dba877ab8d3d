/**
 * Which definitions the solver lists: exactly those that some path of the graph takes. Every path is covered because
 * definition sets contain what a path takes, and nothing else is listed because the solution is the most precise one.
 */
module DefinitionPaths {
  import opened Words
  import opened ControlGraph
  import opened Arm32
  import opened SemanticGraph
  import opened MustValues
  import opened DataflowJoin
  import opened Dataflow
  import opened Architecture
  import opened MustValueSoundness
  import opened Provenance

  // ---------------------------------------------------------------- origins along a path

  /** A path of the reachable graph from the entry to `n`. */
  ghost predicate IsTrack(p: Problem, path: seq<u32>, n: u32)
    ensures IsTrack(p, path, n) ==> path != [] && forall k | 0 <= k < |path| :: path[k] in p.instructions
  {
    && Joins(p.successors, p.reachable, p.entry, n, path)
    && (forall k | 0 <= k < |path| :: path[k] in p.instructions)
  }

  /** Where the registers come from before the last instruction of a path. */
  ghost function OriginsAlong(p: Problem, path: seq<u32>): Origins
    requires path != [] && forall k | 0 <= k < |path| :: path[k] in p.instructions
  {
    if |path| == 1 then r => Unknown
    else
      var o, q := OriginsAlong(p, path[..|path| - 1]), path[|path| - 2];
      (r: Register) => OriginAfter(q, p.instructions[q], o, r)
  }

  lemma TrackEnds(p: Problem, path: seq<u32>, n: u32)
    requires WellPosed(p) && IsTrack(p, path, n)
    ensures path != [] && n in p.reachable && n in p.instructions
    ensures |path| == 1 ==> n == p.entry
    ensures |path| > 1 ==>
              && IsTrack(p, path[..|path| - 1], path[|path| - 2]) && n in Targets(p.successors, path[|path| - 2])
              && path[|path| - 2] in p.reachable && path[|path| - 2] in p.instructions
    ensures |path| > 1 ==> path == path[..|path| - 1] + [n]
  {
  }

  lemma TrackMore(p: Problem, path: seq<u32>, q: u32, n: u32)
    requires WellPosed(p) && IsTrack(p, path, q) && n in p.reachable && n in Targets(p.successors, q)
    ensures IsTrack(p, path + [n], n)
    ensures forall r: Register ::
              OriginsAlong(p, path + [n])(r) == OriginAfter(q, p.instructions[q], OriginsAlong(p, path), r)
  {
    assert (path + [n])[..|path + [n]| - 1] == path && (path + [n])[|path + [n]| - 2] == q;
    hide OriginAfter, Targets;
  }

  lemma OriginsStep(p: Problem, path: seq<u32>, n: u32)
    requires WellPosed(p) && IsTrack(p, path, n) && |path| > 1
    ensures var rest, q := path[..|path| - 1], path[|path| - 2];
            && IsTrack(p, rest, q)
            && forall r: Register ::
                 OriginsAlong(p, path)(r) == OriginAfter(q, p.instructions[q], OriginsAlong(p, rest), r)
  {
    TrackEnds(p, path, n);
    hide OriginAfter, WellPosed, Joins;
  }

  /** A solution's definition sets contain what every path takes. */
  lemma {:induction false} PathTraces(p: Problem, before: States, after: States, path: seq<u32>, n: u32)
    requires WellPosed(p) && IsSolution(p, before, after) && IsTrack(p, path, n)
    ensures n in before && Traces(before[n], OriginsAlong(p, path))
    decreases |path|
  {
    TrackEnds(p, path, n);
    hide WellPosed, IsSolution, IsTrack, OriginsAlong, Traces;
    if |path| == 1 {
      EntryTraces(p, before, after, OriginsAlong(p, path));
    } else {
      var rest, q := path[..|path| - 1], path[|path| - 2];
      PathTraces(p, before, after, rest, q);
      OriginsStep(p, path, n);
      StepTraces(p, before, after, q, n, OriginsAlong(p, rest), OriginsAlong(p, path));
    }
  }

  // ---------------------------------------------------------------- what some path takes

  /** Some path to `n` takes the definition `d` for the value register `r` has before `n`. */
  ghost predicate TakenBefore(p: Problem, n: u32, r: Register, d: u32) {
    exists path :: IsTrack(p, path, n) && d in Contributors(OriginsAlong(p, path)(r))
  }

  ghost predicate TakenAfter(p: Problem, n: u32, r: Register, d: u32) {
    exists path :: IsTrack(p, path, n) && n in p.instructions
                   && d in Contributors(OriginAfter(n, p.instructions[n], OriginsAlong(p, path), r))
  }

  ghost predicate ExprTakes(pc: u32, e: ValueExpr, keep: (Register, u32) -> bool, d: u32) {
    || d == pc
    || match e
       case Constant(_) => false
       case PcRelative(_, _) => false
       case Copy(source) => keep(source, d)
       case ReplaceHighHalf(source, _) => keep(source, d)
       case Add(left, right) => keep(left, d) || (right.Shifted? && keep(right.register, d))
       case Sub(left, right) => keep(left, d) || (right.Shifted? && keep(right.register, d))
  }

  /** The definitions taken after an instruction, given the ones that can be taken before it. */
  ghost predicate StepTakes(pc: u32, i: Instruction, keep: (Register, u32) -> bool, r: Register, d: u32) {
    if IsCallBoundary(i) then r !in CALL_VOLATILE && keep(r, d)
    else if i.conditional then r !in i.writes && keep(r, d)
    else
      match i.effect
      case RegisterWrite(dst, value) => if r == dst then ExprTakes(pc, value, keep, d) else keep(r, d)
      case ShiftInto(dst, source, _) => if r == dst then d == pc || keep(source, d) else keep(r, d)
      case LiteralWordLoad(dst, _) => if r == dst then d == pc else keep(r, d)
      case Memory => r !in i.writes && keep(r, d)
      case Unsupported => r !in i.writes && keep(r, d)
      case Compare => keep(r, d)
      case NoEffect => keep(r, d)
  }

  lemma OneStepTakes(pc: u32, i: Instruction, o: Origins, r: Register, d: u32)
    ensures d in Contributors(OriginAfter(pc, i, o, r))
            <==> StepTakes(pc, i, (s: Register, c: u32) => c in Contributors(o(s)), r, d)
  {
  }

  lemma StepTakesMore(pc: u32, i: Instruction, few: (Register, u32) -> bool, many: (Register, u32) -> bool,
                      r: Register, d: u32)
    requires forall s: Register, c: u32 :: few(s, c) ==> many(s, c)
    ensures StepTakes(pc, i, few, r, d) ==> StepTakes(pc, i, many, r, d)
  {
  }

  /** The one register, if any, that brings the definition `d` along. */
  lemma StepTakesFrom(pc: u32, i: Instruction, keep: (Register, u32) -> bool, r: Register, d: u32) returns (s: Register)
    requires StepTakes(pc, i, keep, r, d)
    ensures forall other: (Register, u32) -> bool :: (keep(s, d) ==> other(s, d)) ==> StepTakes(pc, i, other, r, d)
  {
    s := r;
    if !IsCallBoundary(i) && !i.conditional {
      match i.effect
      case RegisterWrite(dst, value) =>
        if r == dst {
          match value
          case Copy(source) => s := source;
          case ReplaceHighHalf(source, _) => s := source;
          case Add(left, right) => s := if right.Shifted? && keep(right.register, d) then right.register else left;
          case Sub(left, right) => s := if right.Shifted? && keep(right.register, d) then right.register else left;
          case _ =>
        }
      case ShiftInto(dst, source, _) =>
        if r == dst {
          s := source;
        }
      case _ =>
    }
  }

  ghost function KeepBefore(p: Problem, n: u32): (Register, u32) -> bool {
    (r: Register, d: u32) => TakenBefore(p, n, r, d)
  }

  ghost function KeepAfter(p: Problem, n: u32): (Register, u32) -> bool {
    (r: Register, d: u32) => TakenAfter(p, n, r, d)
  }

  lemma SomeTrack(p: Problem, n: u32) returns (path: seq<u32>)
    requires WellPosed(p) && n in p.reachable
    ensures IsTrack(p, path, n)
  {
    path :| Joins(p.successors, p.reachable, p.entry, n, path);
  }

  /** What some path takes after an instruction is what the instruction takes from what some path takes before it. */
  lemma TakenAfterStep(p: Problem, n: u32, r: Register, d: u32)
    requires WellPosed(p) && n in p.reachable && n in p.instructions
    ensures TakenAfter(p, n, r, d) <==> StepTakes(n, p.instructions[n], KeepBefore(p, n), r, d)
  {
    hide WellPosed, IsTrack, StepTakes, OriginAfter, OriginsAlong;
    var i := p.instructions[n];
    if TakenAfter(p, n, r, d) {
      var path :| IsTrack(p, path, n) && d in Contributors(OriginAfter(n, i, OriginsAlong(p, path), r));
      var o := OriginsAlong(p, path);
      OneStepTakes(n, i, o, r, d);
      StepTakesMore(n, i, (s: Register, c: u32) => c in Contributors(o(s)), KeepBefore(p, n), r, d);
    }
    if StepTakes(n, i, KeepBefore(p, n), r, d) {
      var s := StepTakesFrom(n, i, KeepBefore(p, n), r, d);
      var path := SomeTrack(p, n);
      if KeepBefore(p, n)(s, d) {
        path :| IsTrack(p, path, n) && d in Contributors(OriginsAlong(p, path)(s));
      }
      var o := OriginsAlong(p, path);
      var along := (x: Register, c: u32) => c in Contributors(o(x));
      assert KeepBefore(p, n)(s, d) ==> along(s, d);
      OneStepTakes(n, i, o, r, d);
    }
  }

  lemma TakenAlongEdge(p: Problem, q: u32, n: u32, r: Register, d: u32)
    requires WellPosed(p) && n in p.reachable && n in Targets(p.successors, q) && TakenAfter(p, q, r, d)
    ensures TakenBefore(p, n, r, d)
  {
    hide OriginAfter, OriginsAlong, WellPosed, IsTrack;
    var path :| IsTrack(p, path, q) && q in p.instructions
                && d in Contributors(OriginAfter(q, p.instructions[q], OriginsAlong(p, path), r));
    TrackMore(p, path, q, n);
    assert d in Contributors(OriginsAlong(p, path + [n])(r));
  }

  /** The predecessor a taken definition comes from. */
  lemma TakenFromEdge(p: Problem, before: States, after: States, n: u32, r: Register, d: u32) returns (q: u32)
    requires WellPosed(p) && IsSolution(p, before, after) && n != p.entry && TakenBefore(p, n, r, d)
    ensures q in p.reachable && n in Targets(p.successors, q) && TakenAfter(p, q, r, d)
    ensures q in after && (r in after[q] ==> d in after[q][r].definitions)
  {
    var path :| IsTrack(p, path, n) && d in Contributors(OriginsAlong(p, path)(r));
    TrackEnds(p, path, n);
    OriginsStep(p, path, n);
    var rest := path[..|path| - 1];
    q := path[|path| - 2];
    PathTraces(p, before, after, rest, q);
    hide OriginAfter, OriginsAlong, WellPosed, IsTrack;
    var o := OriginsAlong(p, rest);
    OutputTraces(p, before, after, q, o, (x: Register) => OriginAfter(q, p.instructions[q], o, x));
  }

  lemma OutputTraces(p: Problem, before: States, after: States, q: u32, o: Origins, u: Origins)
    requires WellPosed(p) && IsSolution(p, before, after) && q in p.reachable && q in before && Traces(before[q], o)
    requires forall r: Register :: u(r) == OriginAfter(q, p.instructions[q], o, r)
    ensures q in after && Traces(after[q], u)
  {
    assert SolvedAt(p, before, after, q);
    hide Traces, OriginAfter, Transfer, JoinedAt;
    TransferTraces(p.words, q, p.instructions[q], before[q], p.policy, o, u);
  }

  // ---------------------------------------------------------------- the solution that lists only what is taken

  /** The same facts, with only the definitions to be kept. */
  ghost function Trim(s: RegisterState, keep: (Register, u32) -> bool): RegisterState {
    map r | r in s :: s[r].(definitions := set d | d in s[r].definitions && keep(r, d))
  }

  lemma TrimAt(s: RegisterState, keep: (Register, u32) -> bool, r: Register)
    ensures r in Trim(s, keep) <==> r in s
    ensures r in s ==> Trim(s, keep)[r].value == s[r].value && Trim(s, keep)[r].lineage == s[r].lineage
    ensures r in s ==> forall d :: d in Trim(s, keep)[r].definitions <==> d in s[r].definitions && keep(r, d)
  {
  }

  /** What is kept is listed. */
  ghost predicate KeepsListed(s: RegisterState, keep: (Register, u32) -> bool) {
    forall r: Register, d: u32 | keep(r, d) && r in s :: d in s[r].definitions
  }

  lemma SameStates(s: RegisterState, t: RegisterState)
    requires forall r: Register :: r in s <==> r in t
    requires forall r | r in s :: s[r] == t[r]
    ensures s == t
  {
  }

  /** The instruction computes a new value for the register. */
  predicate Computes(i: Instruction, r: Register) {
    && !IsCallBoundary(i) && !i.conditional
    && match i.effect
       case RegisterWrite(dst, _) => r == dst
       case ShiftInto(dst, _, _) => r == dst
       case LiteralWordLoad(dst, _) => r == dst
       case _ => false
  }

  predicate Loses(i: Instruction, r: Register) {
    if IsCallBoundary(i) then r in CALL_VOLATILE
    else (i.conditional || i.effect.Memory? || i.effect.Unsupported?) && r in i.writes
  }

  function NewValue(words: LiteralWords, pc: u32, i: Instruction, s: RegisterState, policy: ExactPolicy)
    : Option<ExactValue>
  {
    match i.effect
    case RegisterWrite(_, value) => EvaluateValueExpr(pc, value, s, policy)
    case ShiftInto(_, source, shift) => ShiftedValue(pc, source, shift, s, policy)
    case LiteralWordLoad(_, address) =>
      var word := ResolveLiteralWord(words, pc, address);
      if word.Some? then Some(ExactDefinition(word.value, pc)) else None
    case _ => None
  }

  ghost predicate NewTakes(pc: u32, i: Instruction, keep: (Register, u32) -> bool, d: u32) {
    match i.effect
    case RegisterWrite(_, value) => ExprTakes(pc, value, keep, d)
    case ShiftInto(_, source, _) => d == pc || keep(source, d)
    case _ => d == pc
  }

  lemma TransferSplit(words: LiteralWords, pc: u32, i: Instruction, s: RegisterState, policy: ExactPolicy, r: Register)
    ensures var t, v := Transfer(words, pc, i, s, policy), NewValue(words, pc, i, s, policy);
            if Computes(i, r) then (r in t <==> v.Some?) && (r in t ==> t[r] == v.value)
            else (r in t <==> r in s && !Loses(i, r)) && (r in t ==> t[r] == s[r])
  {
    hide EvaluateValueExpr, ShiftedValue, ResolveLiteralWord;
  }

  lemma StepTakesSplit(pc: u32, i: Instruction, keep: (Register, u32) -> bool, r: Register, d: u32)
    ensures StepTakes(pc, i, keep, r, d)
            <==> if Computes(i, r) then NewTakes(pc, i, keep, d) else !Loses(i, r) && keep(r, d)
  {
    hide ExprTakes;
  }

  /** Trimming goes through an instruction. */
  lemma TransferTrim(words: LiteralWords, pc: u32, i: Instruction, s: RegisterState, policy: ExactPolicy,
                     keep: (Register, u32) -> bool, keepAfter: (Register, u32) -> bool)
    requires KeepsListed(s, keep)
    requires forall r: Register, d: u32 :: keepAfter(r, d) <==> StepTakes(pc, i, keep, r, d)
    ensures Transfer(words, pc, i, Trim(s, keep), policy) == Trim(Transfer(words, pc, i, s, policy), keepAfter)
  {
    var t := Trim(s, keep);
    var left, right := Transfer(words, pc, i, t, policy), Trim(Transfer(words, pc, i, s, policy), keepAfter);
    forall r: Register
      ensures r in left <==> r in right
      ensures r in left ==> left[r] == right[r]
    {
      TransferTrimAt(words, pc, i, s, policy, keep, keepAfter, r);
    }
    hide Transfer, Trim;
    SameStates(left, right);
  }

  lemma TransferTrimAt(words: LiteralWords, pc: u32, i: Instruction, s: RegisterState, policy: ExactPolicy,
                       keep: (Register, u32) -> bool, keepAfter: (Register, u32) -> bool, r: Register)
    requires KeepsListed(s, keep)
    requires forall r: Register, d: u32 :: keepAfter(r, d) <==> StepTakes(pc, i, keep, r, d)
    ensures var t, u := Trim(s, keep), Transfer(words, pc, i, s, policy);
            && (r in Transfer(words, pc, i, t, policy) <==> r in Trim(u, keepAfter))
            && (r in Trim(u, keepAfter) ==> Transfer(words, pc, i, t, policy)[r] == Trim(u, keepAfter)[r])
  {
    TransferSplit(words, pc, i, s, policy, r);
    TransferSplit(words, pc, i, Trim(s, keep), policy, r);
    TrimAt(s, keep, r);
    TrimAt(Transfer(words, pc, i, s, policy), keepAfter, r);
    forall d: u32
      ensures keepAfter(r, d) <==> if Computes(i, r) then NewTakes(pc, i, keep, d) else !Loses(i, r) && keep(r, d)
    {
      StepTakesSplit(pc, i, keep, r, d);
    }
    if Computes(i, r) {
      NewValueTrim(words, pc, i, s, policy, keep);
    }
    hide Transfer, Trim, NewValue, NewTakes, StepTakes, Computes, Loses;
  }

  lemma NewValueTrim(words: LiteralWords, pc: u32, i: Instruction, s: RegisterState, policy: ExactPolicy,
                     keep: (Register, u32) -> bool)
    requires KeepsListed(s, keep)
    ensures var v, w := NewValue(words, pc, i, s, policy), NewValue(words, pc, i, Trim(s, keep), policy);
            && (v.Some? <==> w.Some?)
            && (v.Some? ==> v.value.value == w.value.value && v.value.lineage == w.value.lineage)
            && (v.Some? ==> forall d ::
                  d in w.value.definitions <==> d in v.value.definitions && NewTakes(pc, i, keep, d))
  {
    if i.effect.RegisterWrite? {
      EvaluateTrim(pc, i.effect.value, s, policy, keep);
    } else if i.effect.ShiftInto? {
      TrimAt(s, keep, i.effect.source);
    }
    hide EvaluateValueExpr, ExprTakes, ShiftValue, Trim;
  }

  lemma ArithmeticTrim(pc: u32, left: Register, right: Operand, subtract: bool, s: RegisterState, policy: ExactPolicy,
                       keep: (Register, u32) -> bool)
    requires KeepsListed(s, keep)
    ensures var v := Arithmetic(pc, left, right, subtract, s, policy);
            var w := Arithmetic(pc, left, right, subtract, Trim(s, keep), policy);
            && (v.Some? <==> w.Some?)
            && (v.Some? ==> v.value.value == w.value.value && v.value.lineage == w.value.lineage)
            && (v.Some? ==> forall d :: d in w.value.definitions <==>
                  && d in v.value.definitions
                  && (d == pc || keep(left, d) || (right.Shifted? && keep(right.register, d))))
  {
    TrimAt(s, keep, left);
    if right.Shifted? {
      TrimAt(s, keep, right.register);
    }
    hide ShiftValue, Trim;
  }

  lemma EvaluateTrim(pc: u32, e: ValueExpr, s: RegisterState, policy: ExactPolicy, keep: (Register, u32) -> bool)
    requires KeepsListed(s, keep)
    ensures var v, w := EvaluateValueExpr(pc, e, s, policy), EvaluateValueExpr(pc, e, Trim(s, keep), policy);
            && (v.Some? <==> w.Some?)
            && (v.Some? ==> v.value.value == w.value.value && v.value.lineage == w.value.lineage)
            && (v.Some? ==> forall d ::
                  d in w.value.definitions <==> d in v.value.definitions && ExprTakes(pc, e, keep, d))
  {
    match e
    case Copy(source) => TrimAt(s, keep, source);
    case ReplaceHighHalf(source, _) => TrimAt(s, keep, source);
    case Add(left, right) =>
      ArithmeticTrim(pc, left, right, false, s, policy, keep);
      hide Arithmetic;
    case Sub(left, right) =>
      ArithmeticTrim(pc, left, right, true, s, policy, keep);
      hide Arithmetic;
    case _ =>
  }

  ghost function TrimmedBefore(p: Problem, before: States): States {
    map n | n in before :: Trim(before[n], KeepBefore(p, n))
  }

  ghost function TrimmedAfter(p: Problem, after: States): States {
    map n | n in after :: Trim(after[n], KeepAfter(p, n))
  }

  /** The same values and lineages, at the same places. */
  ghost predicate SameFacts(a: States, b: States) {
    && a.Keys == b.Keys
    && (forall q, r: Register | q in a && q in b :: r in a[q] <==> r in b[q])
    && (forall q, r: Register | q in a && q in b && r in a[q] && r in b[q] ::
          a[q][r].value == b[q][r].value && a[q][r].lineage == b[q][r].lineage)
  }

  lemma TrimmedSameFacts(p: Problem, after: States)
    ensures SameFacts(after, TrimmedAfter(p, after))
  {
    var b := TrimmedAfter(p, after);
    assert b.Keys == after.Keys;
    hide Trim, KeepAfter;
    forall q, r: Register | q in after && q in b
      ensures r in after[q] <==> r in b[q]
      ensures r in after[q] ==> after[q][r].value == b[q][r].value && after[q][r].lineage == b[q][r].lineage
    {
      TrimAt(after[q], KeepAfter(p, q), r);
    }
  }

  lemma SameAgreed(sources: set<u32>, a: States, b: States, r: Register, policy: ExactPolicy)
    requires SameFacts(a, b) && Agreed(sources, a, r, policy)
    ensures Agreed(sources, b, r, policy)
  {
    forall q, s | q in sources && s in sources
      ensures PairAgrees(b, q, s, r, policy)
    {
      assert PairAgrees(a, q, s, r, policy);
    }
  }

  lemma SameMerged(sources: set<u32>, a: States, b: States, r: Register)
    requires SameFacts(a, b) && sources != {} && sources <= a.Keys && sources <= b.Keys
    requires (forall q | q in sources :: r in a[q]) && (forall q | q in sources :: r in b[q])
    ensures Merged(sources, a, r).value == Merged(sources, b, r).value
    ensures Merged(sources, a, r).lineage == Merged(sources, b, r).lineage
    ensures Merged(sources, a, r).definitions == DefinitionsOf(sources, a, r)
    ensures Merged(sources, b, r).definitions == DefinitionsOf(sources, b, r)
  {
    hide DefinitionsOf;
    assert SameLineage(sources, a, r) <==> SameLineage(sources, b, r);
  }

  /** Joining trimmed outputs trims the join, when the definitions kept are those kept somewhere before. */
  lemma JoinTrim(sources: set<u32>, a: States, b: States, policy: ExactPolicy, keep: (Register, u32) -> bool)
    requires SameFacts(a, b) && SameFacts(b, a) && sources != {}
    requires forall r: Register, d: u32 | Agreed(sources, a, r, policy) ::
               d in DefinitionsOf(sources, b, r) <==> d in DefinitionsOf(sources, a, r) && keep(r, d)
    ensures JoinSet(sources, b, policy) == Trim(JoinSet(sources, a, policy), keep)
  {
    var left, right := JoinSet(sources, b, policy), Trim(JoinSet(sources, a, policy), keep);
    forall r: Register
      ensures r in left <==> r in right
      ensures r in left ==> left[r] == right[r]
    {
      JoinTrimAt(sources, a, b, policy, keep, r);
    }
    hide JoinSet, Trim, Agreed, DefinitionsOf, SameFacts;
    SameStates(left, right);
  }

  lemma JoinTrimAt(sources: set<u32>, a: States, b: States, policy: ExactPolicy, keep: (Register, u32) -> bool,
                   r: Register)
    requires SameFacts(a, b) && SameFacts(b, a) && sources != {}
    requires Agreed(sources, a, r, policy) ==> forall d: u32 ::
               d in DefinitionsOf(sources, b, r) <==> d in DefinitionsOf(sources, a, r) && keep(r, d)
    ensures var left, right := JoinSet(sources, b, policy), Trim(JoinSet(sources, a, policy), keep);
            && (r in left <==> r in right)
            && (r in left ==> left[r] == right[r])
  {
    var join := JoinSet(sources, a, policy);
    TrimAt(join, keep, r);
    hide SameFacts, DefinitionsOf, Trim, Agreed, SameLineage, Merged;
    if Agreed(sources, a, r, policy) {
      SameAgreed(sources, a, b, r, policy);
      AgreedMembers(sources, a, r, policy);
      AgreedMembers(sources, b, r, policy);
      SameMerged(sources, a, b, r);
    } else if Agreed(sources, b, r, policy) {
      SameAgreed(sources, b, a, r, policy);
    }
  }

  lemma TrimmedDefinitions(p: Problem, sources: set<u32>, after: States, r: Register, d: u32)
    requires sources <= after.Keys && forall q | q in sources :: r in after[q]
    ensures d in DefinitionsOf(sources, TrimmedAfter(p, after), r)
            <==> exists q :: q in sources && d in after[q][r].definitions && TakenAfter(p, q, r, d)
  {
    hide TakenAfter, Trim;
    var b: States := TrimmedAfter(p, after);
    forall q: u32 | q in sources
      ensures q in b && r in b[q]
      ensures d in b[q][r].definitions <==> d in after[q][r].definitions && TakenAfter(p, q, r, d)
    {
      TrimAt(after[q], KeepAfter(p, q), r);
    }
  }

  lemma EdgeIsSource(p: Problem, after: States, q: u32, n: u32)
    requires WellPosed(p) && n in p.reachable && after.Keys == p.reachable
    ensures q in Sources(p, n, after) <==> q in p.reachable && n in Targets(p.successors, q)
  {
  }

  lemma JoinedDefinitions(p: Problem, before: States, after: States, n: u32, r: Register, d: u32)
    requires WellPosed(p) && IsSolution(p, before, after) && n in p.reachable && n != p.entry
    requires Agreed(Sources(p, n, after), after, r, p.policy)
    ensures d in DefinitionsOf(Sources(p, n, after), TrimmedAfter(p, after), r)
            <==> d in DefinitionsOf(Sources(p, n, after), after, r) && TakenBefore(p, n, r, d)
  {
    var sources := Sources(p, n, after);
    AgreedMembers(sources, after, r, p.policy);
    TrimmedDefinitions(p, sources, after, r, d);
    assert after.Keys == p.reachable;
    hide WellPosed, IsSolution, Agreed, TakenAfter, TakenBefore, TrimmedAfter, Sources;
    if q :| q in sources && d in after[q][r].definitions && TakenAfter(p, q, r, d) {
      EdgeIsSource(p, after, q, n);
      TakenAlongEdge(p, q, n, r, d);
      assert d in DefinitionsOf(sources, after, r);
    }
    if TakenBefore(p, n, r, d) {
      var q := TakenFromEdge(p, before, after, n, r, d);
      EdgeIsSource(p, after, q, n);
    }
  }

  lemma TakenIsListed(p: Problem, before: States, after: States, n: u32)
    requires WellPosed(p) && IsSolution(p, before, after) && n in p.reachable
    ensures n in before && KeepsListed(before[n], KeepBefore(p, n))
  {
    var some := SomeTrack(p, n);
    PathTraces(p, before, after, some, n);
    hide WellPosed, IsSolution, IsTrack, OriginsAlong;
    forall r: Register, d: u32 | TakenBefore(p, n, r, d) && r in before[n]
      ensures d in before[n][r].definitions
    {
      var path :| IsTrack(p, path, n) && d in Contributors(OriginsAlong(p, path)(r));
      PathTraces(p, before, after, path, n);
    }
  }

  lemma TrimmedOutput(p: Problem, before: States, after: States, n: u32)
    requires WellPosed(p) && IsSolution(p, before, after) && n in p.reachable
    ensures n in p.instructions && n in before && n in after
    ensures Trim(after[n], KeepAfter(p, n)) == TransferAt(p, n, Trim(before[n], KeepBefore(p, n)))
  {
    assert SolvedAt(p, before, after, n);
    TakenIsListed(p, before, after, n);
    forall r: Register, d: u32
      ensures KeepAfter(p, n)(r, d) <==> StepTakes(n, p.instructions[n], KeepBefore(p, n), r, d)
    {
      TakenAfterStep(p, n, r, d);
    }
    hide WellPosed, IsSolution, StepTakes, KeepsListed, Transfer, Trim, JoinedAt, KeepBefore, KeepAfter;
    TransferTrim(p.words, n, p.instructions[n], before[n], p.policy, KeepBefore(p, n), KeepAfter(p, n));
  }

  lemma TrimmedInput(p: Problem, before: States, after: States, n: u32)
    requires WellPosed(p) && IsSolution(p, before, after) && n in p.reachable
    ensures n in before && (n != p.entry ==> Sources(p, n, TrimmedAfter(p, after)) != {})
    ensures Trim(before[n], KeepBefore(p, n)) == JoinedAt(p, n, TrimmedAfter(p, after))
  {
    assert SolvedAt(p, before, after, n);
    hide WellPosed, IsSolution, Transfer, Trim, JoinSet, KeepBefore, Sources, TrimmedAfter;
    if n == p.entry {
      NothingTrimmed(KeepBefore(p, n));
    } else {
      TrimmedJoin(p, before, after, n);
    }
  }

  lemma TrimmedIs(p: Problem, before: States, after: States)
    ensures TrimmedBefore(p, before).Keys == before.Keys && TrimmedAfter(p, after).Keys == after.Keys
    ensures forall n | n in before :: TrimmedBefore(p, before)[n] == Trim(before[n], KeepBefore(p, n))
    ensures forall n | n in after :: TrimmedAfter(p, after)[n] == Trim(after[n], KeepAfter(p, n))
  {
    hide Trim, KeepBefore, KeepAfter;
  }

  lemma TrimmedSolvesAt(p: Problem, before: States, after: States, n: u32)
    requires WellPosed(p) && IsSolution(p, before, after) && n in p.reachable
    ensures n in p.instructions && SolvedAt(p, TrimmedBefore(p, before), TrimmedAfter(p, after), n)
  {
    TrimmedIs(p, before, after);
    TrimmedOutput(p, before, after, n);
    TrimmedInput(p, before, after, n);
    hide WellPosed, IsSolution, Trim, TrimmedBefore, TrimmedAfter, JoinedAt, TransferAt, Sources, KeepBefore, KeepAfter;
  }

  lemma NothingTrimmed(keep: (Register, u32) -> bool)
    ensures Trim(map[], keep) == map[]
  {
  }

  lemma TrimmedJoin(p: Problem, before: States, after: States, n: u32)
    requires WellPosed(p) && IsSolution(p, before, after) && n in p.reachable && n != p.entry
    ensures Sources(p, n, after) != {} && Sources(p, n, TrimmedAfter(p, after)) == Sources(p, n, after)
    ensures JoinSet(Sources(p, n, after), TrimmedAfter(p, after), p.policy)
            == Trim(JoinSet(Sources(p, n, after), after, p.policy), KeepBefore(p, n))
  {
    assert SolvedAt(p, before, after, n);
    var sources, a := Sources(p, n, after), TrimmedAfter(p, after);
    TrimmedSameFacts(p, after);
    SameFactsBack(after, a);
    assert a.Keys == after.Keys;
    hide WellPosed, IsSolution, Agreed, SameFacts, TrimmedAfter, DefinitionsOf, TakenBefore, Transfer, JoinSet, Trim;
    forall r: Register, d: u32 | Agreed(sources, after, r, p.policy)
      ensures d in DefinitionsOf(sources, a, r) <==> d in DefinitionsOf(sources, after, r) && KeepBefore(p, n)(r, d)
    {
      JoinedDefinitions(p, before, after, n, r, d);
    }
    JoinTrim(sources, after, a, p.policy, KeepBefore(p, n));
  }

  lemma SameFactsBack(a: States, b: States)
    requires SameFacts(a, b)
    ensures SameFacts(b, a)
  {
  }

  lemma TrimmedSolves(p: Problem, before: States, after: States)
    requires WellPosed(p) && IsSolution(p, before, after)
    ensures p.reachable <= p.instructions.Keys && IsSolution(p, TrimmedBefore(p, before), TrimmedAfter(p, after))
  {
    TrimmedIs(p, before, after);
    hide SolvedAt, TrimmedBefore, TrimmedAfter, EdgesFollowed, AllReached, ReverseEdges;
    forall n | n in p.reachable
      ensures SolvedAt(p, TrimmedBefore(p, before), TrimmedAfter(p, after), n)
    {
      TrimmedSolvesAt(p, before, after, n);
    }
  }

  // ---------------------------------------------------------------- the theorem

  /** A solution that knows at least as much as every claim that is borne out. */
  ghost predicate IsMostPrecise(p: Problem, before: States, after: States)
    requires p.reachable <= p.instructions.Keys
  {
    IsSolution(p, before, after) && forall b, a | IsBorneOut(p, b, a) :: Precedes(p, before, after, b, a)
  }

  lemma PrecedesAt(p: Problem, before: States, after: States, b: States, a: States, n: u32, r: Register)
    requires Precedes(p, before, after, b, a) && n in before && n in b && r in b[n]
    ensures r in before[n] && before[n][r].definitions <= b[n][r].definitions
  {
  }

  /**
   * The definitions listed for a value are exactly those that some path of the graph takes: the solver neither misses
   * one nor lists one that no path could have taken.
   */
  lemma DefinitionsExact(p: Problem, before: States, after: States, n: u32, r: Register, d: u32)
    requires WellPosed(p) && IsMostPrecise(p, before, after) && n in before && r in before[n]
    ensures d in before[n][r].definitions <==> TakenBefore(p, n, r, d)
  {
    var b, a := TrimmedBefore(p, before), TrimmedAfter(p, after);
    TrimmedSolves(p, before, after);
    SolutionIsBorneOut(p, b, a);
    assert n in p.reachable;
    TakenIsListed(p, before, after, n);
    hide WellPosed, IsSolution, IsBorneOut, TakenBefore, Precedes, Trim;
    TrimAt(before[n], KeepBefore(p, n), r);
    PrecedesAt(p, before, after, b, a, n, r);
  }

  // ---------------------------------------------------------------- strict containment

  function Plain(pc: u32, conditional: bool, effect: ValueEffect, flow: ControlFlow): Instruction {
    Instruction(Arm, pc, 4, conditional, false, {}, effect, flow)
  }

  function SetOne(pc: u32): Instruction {
    Plain(pc, false, RegisterWrite(0, Constant(1)), Linear)
  }

  /** A conditional branch, and two arms that set R0 to one: at 4, which then branches over the other, and at 12. */
  const DIAMOND: Problem := Problem(
    0,
    map[0 := Plain(0, true, NoEffect, DirectBranch(12, Some(4))), 4 := SetOne(4),
        8 := Plain(8, false, NoEffect, DirectBranch(16, None)), 12 := SetOne(12),
        16 := Plain(16, false, NoEffect, Return)],
    map[0 := {4, 12}, 4 := {8}, 8 := {16}, 12 := {16}],
    map[0 := {}, 4 := {0}, 8 := {4}, 12 := {0}, 16 := {8, 12}],
    {0, 4, 8, 12, 16},
    map[],
    ExactPolicy(JoinValue, Complete))

  lemma DiamondReached()
    ensures AllReached(DIAMOND.successors, DIAMOND.reachable, 0)
  {
    assert Joins(DIAMOND.successors, DIAMOND.reachable, 0, 0, [0]);
    assert Joins(DIAMOND.successors, DIAMOND.reachable, 0, 4, [0, 4]);
    assert Joins(DIAMOND.successors, DIAMOND.reachable, 0, 8, [0, 4, 8]);
    assert Joins(DIAMOND.successors, DIAMOND.reachable, 0, 12, [0, 12]);
    assert Joins(DIAMOND.successors, DIAMOND.reachable, 0, 16, [0, 12, 16]);
  }

  lemma DiamondEdges()
    ensures EdgesFollowed(DIAMOND.successors, DIAMOND.instructions.Keys, DIAMOND.reachable, DIAMOND.reachable)
    ensures ReverseEdges(DIAMOND.reachable, DIAMOND.successors, DIAMOND.predecessors)
  {
  }

  /** The solver accepts the problem. */
  lemma DiamondPosed()
    ensures WellPosed(DIAMOND)
  {
    DiamondReached();
    DiamondEdges();
    hide AllReached, EdgesFollowed, ReverseEdges;
  }

  ghost function Zeros(): Registers {
    (r: Register) => 0
  }

  ghost function OneInR0(): Registers {
    (r: Register) => if r == 0 then 1 else 0
  }

  ghost function FallsThrough(): seq<Point> {
    [Point(0, Zeros()), Point(4, Zeros()), Point(8, OneInR0()), Point(16, OneInR0())]
  }

  ghost function Branches(): seq<Point> {
    [Point(0, Zeros()), Point(12, Zeros()), Point(16, OneInR0())]
  }

  lemma FallsThroughRuns()
    ensures IsRun(DIAMOND, FallsThrough())
    ensures Contributors(OriginsAt(DIAMOND, FallsThrough(), 3)(0)) == {4}
  {
    var run := FallsThrough();
    assert StepsTo(DIAMOND, run[0], run[1]);
    assert StepsTo(DIAMOND, run[1], run[2]);
    assert StepsTo(DIAMOND, run[2], run[3]);
  }

  lemma BranchesRuns()
    ensures IsRun(DIAMOND, Branches())
    ensures Contributors(OriginsAt(DIAMOND, Branches(), 2)(0)) == {12}
  {
    var run := Branches();
    assert StepsTo(DIAMOND, run[0], run[1]);
    assert StepsTo(DIAMOND, run[1], run[2]);
  }

  /** Two runs reach the join with the same value in R0, each through its own definition. */
  lemma ArmRuns()
    ensures IsRun(DIAMOND, FallsThrough()) && FallsThrough()[3] == Point(16, OneInR0())
    ensures IsRun(DIAMOND, Branches()) && Branches()[2] == Point(16, OneInR0())
    ensures Contributors(OriginsAt(DIAMOND, FallsThrough(), 3)(0)) == {4}
    ensures Contributors(OriginsAt(DIAMOND, Branches(), 2)(0)) == {12}
  {
    FallsThroughRuns();
    BranchesRuns();
    hide DIAMOND, IsRun, OriginsAt;
  }

  /** One arm sets R0 at 4 and goes on through 8, the other sets it at 12; they meet at 16. */
  ghost predicate TwoArms(p: Problem) {
    && p.entry == 0 && p.policy.join.JoinValue?
    && p.reachable == {0, 4, 8, 12, 16} && p.reachable <= p.instructions.Keys
    && Targets(p.predecessors, 8) == {4} && Targets(p.predecessors, 16) == {8, 12}
    && SetsOne(p.instructions[4]) && SetsOne(p.instructions[12]) && KeepsAll(p.instructions[8])
  }

  predicate SetsOne(i: Instruction) {
    i.effect == RegisterWrite(0, Constant(1)) && !i.conditional && !IsCallBoundary(i)
  }

  predicate KeepsAll(i: Instruction) {
    i.effect.NoEffect? && !i.conditional && !IsCallBoundary(i)
  }

  lemma DiamondHasTwoArms()
    ensures TwoArms(DIAMOND)
  {
  }

  lemma SolvedWhere(p: Problem, before: States, after: States, n: u32)
    requires p.reachable <= p.instructions.Keys && IsSolution(p, before, after) && n in p.reachable
    ensures SolvedAt(p, before, after, n) && after.Keys == p.reachable
  {
  }

  lemma WritesConstant(words: LiteralWords, pc: u32, i: Instruction, s: RegisterState, policy: ExactPolicy)
    requires SetsOne(i)
    ensures 0 in Transfer(words, pc, i, s, policy) && Transfer(words, pc, i, s, policy)[0] == ExactDefinition(1, pc)
  {
  }

  lemma KeepsState(words: LiteralWords, pc: u32, i: Instruction, s: RegisterState, policy: ExactPolicy)
    requires KeepsAll(i)
    ensures Transfer(words, pc, i, s, policy) == s
  {
  }

  /** The state after `n` holds what an instruction at `arm` set R0 to. */
  ghost predicate SetAt(after: States, n: u32, arm: u32) {
    n in after && 0 in after[n] && after[n][0] == ExactDefinition(1, arm)
  }

  lemma ArmOutput(p: Problem, before: States, after: States, arm: u32)
    requires TwoArms(p) && IsSolution(p, before, after) && (arm == 4 || arm == 12)
    ensures SetAt(after, arm, arm)
  {
    hide IsSolution, JoinedAt, Transfer, SetsOne, KeepsAll;
    SolvedWhere(p, before, after, arm);
    WritesConstant(p.words, arm, p.instructions[arm], before[arm], p.policy);
  }

  /** The branch after the first arm passes its value on. */
  lemma BranchOutput(p: Problem, before: States, after: States)
    requires TwoArms(p) && IsSolution(p, before, after)
    ensures SetAt(after, 8, 4)
  {
    ArmOutput(p, before, after, 4);
    OnlySource(p, before, after);
    hide IsSolution, JoinedAt, Transfer, SetsOne, KeepsAll;
    SolvedWhere(p, before, after, 8);
    KeepsState(p.words, 8, p.instructions[8], before[8], p.policy);
  }

  lemma OnlySource(p: Problem, before: States, after: States)
    requires TwoArms(p) && IsSolution(p, before, after)
    ensures 8 in before && 4 in after && before[8] == after[4]
  {
    SolvedWhere(p, before, after, 8);
    hide JoinSet, IsSolution, TransferAt, SetsOne, KeepsAll;
    assert Sources(p, 8, after) == {4};
    JoinSingle(4, after, p.policy);
  }

  lemma ArmsJoin(after: States, policy: ExactPolicy)
    requires policy.join.JoinValue? && SetAt(after, 8, 4) && SetAt(after, 12, 12)
    ensures var j := JoinSet({8, 12}, after, policy); 0 in j && j[0].definitions == {4, 12}
  {
    var zero: Register := 0;
    forall p: u32, q: u32 | p in {8, 12} && q in {8, 12}
      ensures PairAgrees(after, p, q, zero, policy)
    {
    }
    assert Agreed({8, 12}, after, zero, policy);
    ArmDefinitions(after);
    hide DefinitionsOf, PairAgrees, Agreed;
  }

  lemma ArmDefinitions(after: States)
    requires SetAt(after, 8, 4) && SetAt(after, 12, 12)
    ensures DefinitionsOf({8, 12}, after, 0) == {4, 12}
  {
    assert 4 in after[8][0].definitions && 12 in after[12][0].definitions;
    assert 4 in DefinitionsOf({8, 12}, after, 0) && 12 in DefinitionsOf({8, 12}, after, 0);
    assert forall d | d in DefinitionsOf({8, 12}, after, 0) :: d == 4 || d == 12;
  }

  lemma MeetIsJoin(p: Problem, before: States, after: States)
    requires TwoArms(p) && IsSolution(p, before, after)
    ensures 16 in before && before[16] == JoinSet({8, 12}, after, p.policy)
  {
    SolvedWhere(p, before, after, 16);
    hide JoinSet, IsSolution, TransferAt, SetsOne, KeepsAll;
    assert Sources(p, 16, after) == {8, 12};
  }

  lemma ArmsMeet(p: Problem, before: States, after: States)
    requires TwoArms(p) && IsSolution(p, before, after)
    ensures 16 in before && 0 in before[16] && before[16][0].definitions == {4, 12}
  {
    assert p.policy.join.JoinValue?;
    hide *;
    BranchOutput(p, before, after);
    ArmOutput(p, before, after, 12);
    ArmsJoin(after, p.policy);
    MeetIsJoin(p, before, after);
  }

  /** At the join the solution lists both definitions, so it strictly contains what either run took. */
  lemma DiamondListsBoth(before: States, after: States)
    requires IsSolution(DIAMOND, before, after)
    ensures 16 in before && 0 in before[16] && before[16][0].definitions == {4, 12}
  {
    DiamondHasTwoArms();
    hide DIAMOND, TwoArms, IsSolution;
    ArmsMeet(DIAMOND, before, after);
  }
}
