/**
 * Where control can be after an instruction, told by what can happen to it when its turn comes, and not by the edges
 * that the walk gives it.
 */
module MachineControl {
  import opened Words
  import opened Arm32
  import opened RuntimeImage
  import opened RuntimeQueries
  import opened CfgWalk

  /** What becomes of an instruction whose turn has come. */
  datatype Event = GoesOn | Branches(target: u32) | Calls | Traps | Returns | Jumps

  /** A linear instruction goes on, and so does one whose condition fails: a branch that is not taken, for one. */
  predicate CanHappen(i: Instruction, e: Event) {
    match e
    case GoesOn =>
      || i.flow.Linear?
      || (i.flow.DirectBranch? && i.flow.fallthrough.Some?)
      || (i.conditional && (i.flow.Return? || i.flow.ExceptionCall? || i.flow.Barrier?))
    case Branches(target) => i.flow.DirectBranch? && i.flow.target == target
    case Calls => i.flow.DirectCall?
    case Traps => i.flow.ExceptionCall?
    case Returns => i.flow.Return?
    case Jumps => i.flow.Barrier?
  }

  /** Control enters other code that returns to the instruction behind this one. */
  predicate EntersCallee(i: Instruction, e: Event) {
    e.Calls? || e.Traps? || (e.Jumps? && i.linksLr)
  }

  /** The walk takes a direct call to return; of other callees it does so only under the policy that says so. */
  predicate ComesBack(calls: CallPolicy, i: Instruction, e: Event) {
    EntersCallee(i, e) && (e.Calls? || calls.Fallthrough?)
  }

  /** After the event, control of this code is next at `to`; the instruction ends at `end`. */
  predicate LeadsTo(calls: CallPolicy, i: Instruction, e: Event, end: int, to: u32) {
    match e
    case GoesOn => to == end
    case Branches(target) => to == target
    case _ => ComesBack(calls, i, e) && to == end
  }

  /** Under what name an event is handed off to whoever follows control further. */
  function HandsOver(calls: CallPolicy, e: Event): Option<BoundaryKind> {
    match e
    case GoesOn => None
    case Branches(_) => None
    case Calls => if calls.FallthroughAndHandoff? then Some(CallBoundary) else None
    case Traps => Some(ExceptionCallBoundary)
    case Returns => Some(ReturnBoundary)
    case Jumps => Some(Indirect)
  }

  ghost predicate CanLead(calls: CallPolicy, i: Instruction, end: int, to: u32) {
    exists e :: CanHappen(i, e) && LeadsTo(calls, i, e, end, to)
  }

  ghost predicate CanHandOver(calls: CallPolicy, i: Instruction, kind: BoundaryKind) {
    exists e :: CanHappen(i, e) && HandsOver(calls, e) == Some(kind)
  }

  // ---------------------------------------------------------------- the walk's tables say the same

  /** The edges of an instruction are where control can be after it, provided a branch falls through to its own end. */
  lemma EdgesExactly(calls: CallPolicy, i: Instruction, end: u32, to: u32)
    requires i.flow.DirectBranch? && i.flow.fallthrough.Some? ==> i.flow.fallthrough.value == end
    ensures to in FlowTargets(calls, i, end) <==> CanLead(calls, i, end, to)
  {
    if to in FlowTargets(calls, i, end) {
      var e := EventTo(calls, i, end, to);
    }
  }

  lemma EventTo(calls: CallPolicy, i: Instruction, end: u32, to: u32) returns (e: Event)
    requires i.flow.DirectBranch? && i.flow.fallthrough.Some? ==> i.flow.fallthrough.value == end
    requires to in FlowTargets(calls, i, end)
    ensures CanHappen(i, e) && LeadsTo(calls, i, e, end, to)
  {
    match i.flow
    case Linear => e := GoesOn;
    case DirectBranch(target, _) => e := if to == target then Branches(target) else GoesOn;
    case DirectCall(_) => e := Calls;
    case ExceptionCall => e := if i.conditional then GoesOn else Traps;
    case Return => e := GoesOn;
    case Barrier => e := if i.conditional then GoesOn else Jumps;
  }

  /** The handoff of an instruction is that of the event that leaves the code. */
  lemma HandoffExactly(calls: CallPolicy, i: Instruction, kind: BoundaryKind)
    ensures FlowHandoff(calls, i) == Some(kind) <==> CanHandOver(calls, i, kind)
  {
    if FlowHandoff(calls, i) == Some(kind) {
      var e := OwnEvent(i);
      assert CanHappen(i, e) && HandsOver(calls, e) == Some(kind);
    }
  }

  /** What happens to the instruction when it is executed. */
  function OwnEvent(i: Instruction): (e: Event)
    ensures CanHappen(i, e)
  {
    match i.flow
    case Linear => GoesOn
    case DirectBranch(target, _) => Branches(target)
    case DirectCall(_) => Calls
    case ExceptionCall => Traps
    case Return => Returns
    case Barrier => Jumps
  }

  /** Nothing gets away: whatever can happen is followed along an edge or handed off. */
  lemma NothingEscapes(calls: CallPolicy, i: Instruction, end: u32, e: Event)
    requires CanHappen(i, e)
    requires i.flow.DirectBranch? && i.flow.fallthrough.Some? ==> i.flow.fallthrough.value == end
    ensures (exists to :: to in FlowTargets(calls, i, end) && LeadsTo(calls, i, e, end, to))
            || (HandsOver(calls, e).Some? && FlowHandoff(calls, i) == HandsOver(calls, e))
  {
    if e.GoesOn? || e.Calls? {
      assert LeadsTo(calls, i, e, end, end);
      EdgesExactly(calls, i, end, end);
    } else if e.Branches? {
      assert LeadsTo(calls, i, e, end, e.target);
      EdgesExactly(calls, i, end, e.target);
    } else {
      HandoffExactly(calls, i, HandsOver(calls, e).value);
    }
  }

  /** A branch leads to its target first, and then to the instruction behind it. */
  lemma TargetFirst(calls: CallPolicy, i: Instruction, end: u32)
    requires i.flow.DirectBranch? && i.flow.fallthrough.Some? ==> i.flow.fallthrough.value == end
    ensures forall target :: CanHappen(i, Branches(target)) ==>
              FlowOrder(calls, i, end) == [target] + if CanHappen(i, GoesOn) then [end] else []
    ensures !i.flow.DirectBranch? ==> forall t :: t in FlowOrder(calls, i, end) ==> t == end
    ensures |FlowOrder(calls, i, end)| <= 2
  {
  }

  /** An instruction ends a basic block if something else can happen than that control goes on. */
  lemma BlocksExactly(i: Instruction)
    ensures StartsBlocks(i) <==> exists e :: CanHappen(i, e) && !e.GoesOn?
  {
    assert CanHappen(i, OwnEvent(i));
  }

  /** The registers are given up where a callee runs before control comes back. */
  lemma BoundariesExactly(i: Instruction)
    ensures IsCallBoundary(i) <==> exists e :: CanHappen(i, e) && EntersCallee(i, e)
  {
    assert CanHappen(i, OwnEvent(i));
  }

  /** The procedure call standard lets a callee change the argument registers, R12 and LR. */
  lemma VolatileExactly(r: Register)
    ensures r in CALL_VOLATILE <==> r <= 3 || r == 12 || r == 14
  {
  }

  // ---------------------------------------------------------------- control over the whole code

  /** Control can be at `to` right after the instruction at `from`. */
  ghost predicate ControlGoes(c: Config, from: u32, to: u32)
    requires AllBacked(c.image)
  {
    Decodable(c, from)
    && CanLead(c.calls, DecodeAt(c, from).instruction, from + DecodeAt(c, from).instruction.length, to)
  }

  /** A way control can take from the entry, through instructions in the window. */
  ghost predicate IsControlPath(c: Config, p: seq<u32>)
    requires AllBacked(c.image)
    ensures IsControlPath(c, p) ==> p != []
  {
    && p != [] && p[0] == c.entry
    && (forall k | 0 <= k < |p| :: Decodable(c, p[k]))
    && (forall k | 0 < k < |p| :: ControlGoes(c, p[k - 1], p[k]) && PcInWindow(c, p[k]))
  }

  /** Control can come to the address. */
  ghost predicate Controlled(c: Config, pc: u32)
    requires AllBacked(c.image)
  {
    exists p :: IsControlPath(c, p) && p[|p| - 1] == pc
  }

  /** What the walk finds nothing wrong with. */
  ghost predicate ReachedSound(c: Config)
    requires AllBacked(c.image)
  {
    forall pc | Reached(c, pc) :: Accepted(c, pc) && FlowSound(c, pc)
  }

  lemma GoesExactly(c: Config, s: u32, t: u32)
    requires AllBacked(c.image) && Accepted(c, s) && FlowSound(c, s)
    ensures Decodable(c, s) ==> (t in StaticTargets(c, s) <==> ControlGoes(c, s, t))
  {
    hide DecodeAt, ValidLength;
    if Decodable(c, s) {
      var i := DecodeAt(c, s).instruction;
      EdgesExactly(c.calls, i, s + i.length, t);
      hide FlowTargets, CanLead;
    }
  }

  lemma TrailPrefix(c: Config, p: seq<u32>, k: nat)
    requires AllBacked(c.image) && IsTrail(c, p) && k < |p|
    ensures IsTrail(c, p[..k + 1]) && Reached(c, p[k]) && Decodable(c, p[k])
  {
    hide Decodable, StaticTargets, PcInWindow;
    var q := p[..k + 1];
    assert IsTrail(c, q) && q[|q| - 1] == p[k];
  }

  lemma TrailIsControl(c: Config, p: seq<u32>)
    requires AllBacked(c.image) && ReachedSound(c) && IsTrail(c, p)
    ensures IsControlPath(c, p)
  {
    hide Decodable, StaticTargets, PcInWindow, Reached, Accepted, FlowSound, ControlGoes;
    forall k | 0 < k < |p|
      ensures ControlGoes(c, p[k - 1], p[k])
    {
      TrailPrefix(c, p, k - 1);
      GoesExactly(c, p[k - 1], p[k]);
    }
  }

  lemma {:induction false} ControlIsTrail(c: Config, p: seq<u32>)
    requires AllBacked(c.image) && ReachedSound(c) && IsControlPath(c, p)
    ensures IsTrail(c, p)
    decreases |p|
  {
    hide Decodable, StaticTargets, PcInWindow, Reached, Accepted, FlowSound, ControlGoes;
    if |p| > 1 {
      var n := |p| - 1;
      ControlIsTrail(c, p[..n]);
      TrailPrefix(c, p[..n], n - 1);
      GoesExactly(c, p[n - 1], p[n]);
    }
  }

  /** In code without faults, what the walk reaches is where control can come. */
  lemma ReachedIsControlled(c: Config, pc: u32)
    requires AllBacked(c.image) && ReachedSound(c)
    ensures Reached(c, pc) <==> Controlled(c, pc)
  {
    hide IsControlPath, Decodable, StaticTargets, PcInWindow;
    if Reached(c, pc) {
      var p :| IsTrail(c, p) && p[|p| - 1] == pc;
      TrailIsControl(c, p);
    }
    if Controlled(c, pc) {
      var p :| IsControlPath(c, p) && p[|p| - 1] == pc;
      ControlIsTrail(c, p);
    }
  }

  // ---------------------------------------------------------------- the window, the bytes and what is missing

  /** The window holds the first addresses from the entry on, as many as it is wide. */
  lemma WindowExactly(c: Config, pc: u32)
    ensures PcInWindow(c, pc)
            <==> c.maxAddressSpan.None? || exists k: nat :: k < c.maxAddressSpan.value && IsAfter(c.entry, k, pc)
  {
    if c.maxAddressSpan.Some? && PcInWindow(c, pc) {
      assert IsAfter(c.entry, pc - c.entry, pc);
    }
  }

  predicate IsAfter(entry: u32, k: nat, pc: u32) {
    pc == entry + k
  }

  /** An instruction is in the window exactly when every address of it is. */
  lemma ExtentExactly(c: Config, pc: u32, end: u32)
    requires pc < end
    ensures ExtentInWindow(c, pc, end) <==> forall a: u32 | pc <= a < end :: PcInWindow(c, a)
  {
    var last: u32 := end - 1;
    if forall a: u32 | pc <= a < end :: PcInWindow(c, a) {
      assert PcInWindow(c, pc) && PcInWindow(c, last);
    }
  }

  /** A halfword is the first of two when its top five bits are 11101, 11110 or 11111. */
  lemma WideExactly(low: byte, high: byte)
    ensures IsWide([low, high]) <==> high / 8 == 29 || high / 8 == 30 || high / 8 == 31
  {
  }

  /** The bytes that are charged for an address are those the decoder is given: two only for a narrow Thumb halfword. */
  lemma FetchExactly(c: Config, pc: u32)
    requires AllBacked(c.image)
    ensures DecodeAt(c, pc) == Decode(c, pc, Fetch(c.image, pc, Cost(c, pc)))
    ensures Cost(c, pc) == 2 <==>
              c.isa.Thumb?
              && (Fetch(c.image, pc, 2).None?
                  || (|Fetch(c.image, pc, 2).value| == 2 && Fetch(c.image, pc, 2).value[1] < 0xE8))
    ensures Cost(c, pc) == 2 || Cost(c, pc) == 4
  {
  }

  /** A saturated sum passes a limit exactly when the sum does; only the greatest limit of all is never passed. */
  lemma SaturatedExactly(n: nat, limit: u64)
    ensures Saturated(n) > limit <==> n > limit && limit < LIMIT64 - 1
    ensures Saturated(n) <= n
  {
  }

  /** Why an address holds nothing: no bytes are there, or the decoder knows nothing of them, or it ends outside. */
  lemma FailureExactly(c: Config, pc: u32)
    requires AllBacked(c.image) && !Decodable(c, pc)
    ensures FailureAt(c, pc) == DecodeFailure
            <==> Fetch(c.image, pc, Cost(c, pc)).Some?
                 && c.decoder(pc, Fetch(c.image, pc, Cost(c, pc)).value).Undecodable?
    ensures FailureAt(c, pc) == DecodeFailure || FailureAt(c, pc) == Unmapped
  {
  }
}
