/**
 * The order in which the walk attempts addresses, told by the image alone: each address is listed when an instruction
 * that leads to it has been followed, and attempted in its turn. What a walk counts is a function of that order.
 */
module QueueOrder {
  import opened Words
  import opened ControlGraph
  import opened Arm32
  import opened RuntimeImage
  import opened CfgWalk
  import opened CfgWalkSteps
  import opened PostOrder

  /** The addresses an instruction leads to, in the order its edges are followed. */
  ghost function Leads(c: Config, pc: u32): seq<u32>
    requires AllBacked(c.image)
  {
    if Decodable(c, pc) && pc + DecodeAt(c, pc).instruction.length < LIMIT32 then
      FlowOrder(c.calls, DecodeAt(c, pc).instruction, pc + DecodeAt(c, pc).instruction.length)
    else []
  }

  lemma LeadsAre(c: Config, pc: u32, t: u32)
    requires AllBacked(c.image)
    ensures t in Leads(c, pc) <==> t in StaticTargets(c, pc)
  {
    hide DecodeAt;
    if Decodable(c, pc) && pc + DecodeAt(c, pc).instruction.length < LIMIT32 {
      var i := DecodeAt(c, pc).instruction;
      FlowOrderIs(c.calls, i, pc + i.length, t);
      hide FlowOrder, FlowTargets;
    }
  }

  lemma FlowOrderIs(calls: CallPolicy, i: Instruction, next: u32, t: u32)
    ensures t in FlowOrder(calls, i, next) <==> t in FlowTargets(calls, i, next)
  {
  }

  /** The list with the targets in the window that are not on it yet, in order. */
  ghost function Enlist(c: Config, list: seq<u32>, targets: seq<u32>): seq<u32>
    decreases |targets|
  {
    if targets == [] then list
    else
      var t := targets[|targets| - 1];
      var most := Enlist(c, list, targets[..|targets| - 1]);
      if PcInWindow(c, t) && t !in most then most + [t] else most
  }

  /** The addresses listed once those of the history have been attempted: it begins with the entry. */
  ghost function Listed(c: Config, history: seq<u32>): seq<u32>
    requires AllBacked(c.image)
    decreases |history|
  {
    if history == [] then [c.entry]
    else Enlist(c, Listed(c, history[..|history| - 1]), Leads(c, history[|history| - 1]))
  }

  /** Every attempt was the next one on the list. */
  ghost predicate InTurn(c: Config, history: seq<u32>)
    requires AllBacked(c.image)
    decreases |history|
  {
    history == []
    || var n := |history| - 1;
       InTurn(c, history[..n]) && n < |Listed(c, history[..n])| && history[n] == Listed(c, history[..n])[n]
  }

  /** The in-window targets of a branch or call that have not failed when it is followed. */
  ghost function StartedBy(c: Config, pc: u32, attempted: seq<u32>): set<u32>
    requires AllBacked(c.image)
  {
    if Decodable(c, pc) && StartsBlocks(DecodeAt(c, pc).instruction) then
      set t | t in StaticTargets(c, pc) && PcInWindow(c, t) && (t in attempted ==> Decodable(c, t))
    else {}
  }

  /** The block starts counted by then, including those at targets that fail later. */
  ghost function StartsAfter(c: Config, history: seq<u32>): set<u32>
    requires AllBacked(c.image)
    decreases |history|
  {
    if history == [] then {c.entry}
    else StartsAfter(c, history[..|history| - 1]) + StartedBy(c, history[|history| - 1], history)
  }

  /** No attempt falls inside a reached instruction that was attempted before. */
  ghost predicate NeverEnters(c: Config, history: seq<u32>)
    requires AllBacked(c.image)
  {
    forall i, j | 0 <= i < j < |history| :: !EntersInstruction(c, history[i], history[j])
  }

  /** What these attempts count fits the limits, and none falls inside an instruction attempted before it. */
  ghost predicate Fits(c: Config, history: seq<u32>)
    requires AllBacked(c.image)
  {
    && |history| <= c.limits.maxInstructions
    && Saturated(TotalCost(c, history)) <= c.limits.maxChargedBytes
    && |StartsAfter(c, history)| <= c.limits.maxBlocks
    && NeverEnters(c, history)
  }

  /** The code is free of faults, and everything the walk attempts in its turn fits. */
  ghost predicate Admitted(c: Config)
    requires AllBacked(c.image)
  {
    !AlwaysRefused(c) && forall h | InTurn(c, h) :: Fits(c, h)
  }

  // ---------------------------------------------------------------- one order

  lemma {:induction false} InTurnBefore(c: Config, history: seq<u32>, n: nat)
    requires AllBacked(c.image) && InTurn(c, history) && n <= |history|
    ensures InTurn(c, history[..n])
    decreases |history|
  {
    hide Listed;
    if n == |history| {
      assert history[..n] == history;
    } else {
      InTurnBefore(c, history[..|history| - 1], n);
      assert history[..|history| - 1][..n] == history[..n];
    }
  }

  /** There is only one order: of two histories in turn, the shorter begins the longer. */
  lemma {:induction false} OneOrder(c: Config, h: seq<u32>, longer: seq<u32>)
    requires AllBacked(c.image) && InTurn(c, h) && InTurn(c, longer) && |h| <= |longer|
    ensures h <= longer
    decreases |h|
  {
    hide Listed;
    if h != [] {
      var n := |h| - 1;
      OneOrder(c, h[..n], longer);
      InTurnBefore(c, longer, n + 1);
      assert longer[..n + 1][..n] == h[..n];
    }
  }

  lemma {:induction false} CostGrows(c: Config, history: seq<u32>, n: nat)
    requires AllBacked(c.image) && n <= |history|
    ensures TotalCost(c, history[..n]) <= TotalCost(c, history)
    decreases |history|
  {
    hide Cost;
    if n == |history| {
      assert history[..n] == history;
    } else {
      CostGrows(c, history[..|history| - 1], n);
      assert history[..|history| - 1][..n] == history[..n];
    }
  }

  lemma {:induction false} StartsGrow(c: Config, history: seq<u32>, n: nat)
    requires AllBacked(c.image) && n <= |history|
    ensures StartsAfter(c, history[..n]) <= StartsAfter(c, history)
    decreases |history|
  {
    hide StartedBy;
    if n == |history| {
      assert history[..n] == history;
    } else {
      StartsGrow(c, history[..|history| - 1], n);
      assert history[..|history| - 1][..n] == history[..n];
    }
  }

  lemma {:induction false} Subset(a: set<u32>, b: set<u32>)
    requires a <= b
    ensures |a| <= |b|
    decreases |a|
  {
    if a != {} {
      var x :| x in a;
      Subset(a - {x}, b - {x});
    }
  }

  /** What fits at the end fitted all along. */
  lemma FitsBefore(c: Config, history: seq<u32>, n: nat)
    requires AllBacked(c.image) && Fits(c, history) && n <= |history|
    ensures Fits(c, history[..n])
  {
    CostGrows(c, history, n);
    StartsGrow(c, history, n);
    Subset(StartsAfter(c, history[..n]), StartsAfter(c, history));
    hide TotalCost, StartsAfter, EntersInstruction;
  }

  lemma NextListed(c: Config, history: seq<u32>, n: nat)
    requires AllBacked(c.image) && InTurn(c, history) && n < |history|
    ensures n < |Listed(c, history[..n])|
  {
    hide Listed;
    InTurnBefore(c, history, n + 1);
    assert history[..n + 1][..n] == history[..n];
  }

  /** An order with nothing left on the list is the longest one. */
  lemma WholeOrder(c: Config, whole: seq<u32>, h: seq<u32>)
    requires AllBacked(c.image) && InTurn(c, whole) && Listed(c, whole) == whole && InTurn(c, h)
    ensures h <= whole
  {
    hide Listed, InTurn;
    if |h| > |whole| {
      OneOrder(c, whole, h);
      assert h[..|whole|] == whole;
      NextListed(c, h, |whole|);
    } else {
      OneOrder(c, h, whole);
    }
  }

  /** If the whole order fits, every history in turn does. */
  lemma WholeFits(c: Config, whole: seq<u32>)
    requires AllBacked(c.image) && InTurn(c, whole) && Listed(c, whole) == whole && Fits(c, whole)
    requires !AlwaysRefused(c)
    ensures Admitted(c)
  {
    hide Listed, InTurn, Fits, AlwaysRefused;
    forall h | InTurn(c, h)
      ensures Fits(c, h)
    {
      WholeOrder(c, whole, h);
      FitsBefore(c, whole, |h|);
      assert whole[..|h|] == h;
    }
  }

  lemma OnceMore(list: seq<u32>, t: u32)
    requires NoRepeats(list) && t !in list
    ensures NoRepeats(list + [t])
  {
    assert forall i | 0 <= i < |list| :: list[i] in list;
  }

  lemma {:induction false} EnlistOnce(c: Config, list: seq<u32>, targets: seq<u32>)
    requires NoRepeats(list)
    ensures NoRepeats(Enlist(c, list, targets))
    decreases |targets|
  {
    hide PcInWindow, NoRepeats;
    if targets != [] {
      var n := |targets| - 1;
      var most := Enlist(c, list, targets[..n]);
      EnlistOnce(c, list, targets[..n]);
      if targets[n] !in most {
        OnceMore(most, targets[n]);
      }
    }
  }

  /** No address is listed twice. */
  lemma {:induction false} ListedOnce(c: Config, history: seq<u32>)
    requires AllBacked(c.image)
    ensures NoRepeats(Listed(c, history))
    decreases |history|
  {
    if history != [] {
      var n := |history| - 1;
      ListedOnce(c, history[..n]);
      hide Enlist, Leads, NoRepeats;
      EnlistOnce(c, Listed(c, history[..n]), Leads(c, history[n]));
    }
  }

  // ---------------------------------------------------------------- walks that keep the order

  /** Each address on the queue is noted as queued, and the other way round. */
  ghost predicate QueueNoted(w: Walk) {
    forall q :: q in w.queued <==> q in w.pending
  }

  /** The queue holds what is listed and not attempted yet, and the block starts are those counted by then. */
  ghost predicate Ordered(c: Config, w: Walk, history: seq<u32>)
    requires AllBacked(c.image)
  {
    && InTurn(c, history) && Listed(c, history) == history + w.pending
    && w.blockStarts == StartsAfter(c, history) && QueueNoted(w)
  }

  lemma OpeningOrdered(c: Config)
    requires AllBacked(c.image)
    ensures Ordered(c, Opening(c.entry), [])
  {
  }

  lemma HeadInTurn(c: Config, w: Walk, history: seq<u32>)
    requires AllBacked(c.image) && Ordered(c, w, history) && w.pending != []
    ensures InTurn(c, history + [w.pending[0]])
  {
    var longer := history + [w.pending[0]];
    assert longer[..|longer| - 1] == history;
    hide Listed, StartsAfter;
  }

  ghost predicate HasTried(history: seq<u32>, w: Walk) {
    forall pc :: pc in history <==> pc in w.attempted
  }

  lemma QueueOnce(c: Config, w: Walk, history: seq<u32>)
    requires AllBacked(c.image) && Ordered(c, w, history) && w.pending != [] && HasTried(history, w)
    ensures w.pending[0] !in w.attempted && w.pending[0] !in w.pending[1..]
  {
    ListedOnce(c, history);
    hide InTurn, Listed, StartsAfter;
    var all, n := history + w.pending, |history|;
    assert forall i | 0 <= i < n :: all[i] == history[i] && all[i] != all[n];
    assert forall i | 0 <= i < |w.pending| - 1 :: w.pending[1..][i] == all[n + 1 + i] && all[n + 1 + i] != all[n];
  }

  /** No address comes up twice, so a skip cannot disturb the order. */
  lemma SkipOrdered(c: Config, w: Walk, history: seq<u32>)
    requires AllBacked(c.image) && Ordered(c, w, history) && w.pending != [] && HasTried(history, w)
    ensures w.pending[0] in w.attempted ==> Ordered(c, Popped(w), history)
  {
    hide *;
    QueueOnce(c, w, history);
  }

  lemma OrderedFacts(c: Config, w: Walk, history: seq<u32>)
    requires AllBacked(c.image) && Ordered(c, w, history)
    ensures Listed(c, history) == history + w.pending && w.blockStarts == StartsAfter(c, history) && QueueNoted(w)
  {
    hide InTurn, Listed, StartsAfter, QueueNoted;
  }

  lemma OrderedFrom(c: Config, w: Walk, history: seq<u32>)
    requires AllBacked(c.image) && InTurn(c, history) && Listed(c, history) == history + w.pending
    requires w.blockStarts == StartsAfter(c, history) && QueueNoted(w)
    ensures Ordered(c, w, history)
  {
    hide InTurn, Listed, StartsAfter, QueueNoted;
  }

  lemma ListedNext(c: Config, history: seq<u32>, pc: u32)
    requires AllBacked(c.image)
    ensures Listed(c, history + [pc]) == Enlist(c, Listed(c, history), Leads(c, pc))
    ensures StartsAfter(c, history + [pc]) == StartsAfter(c, history) + StartedBy(c, pc, history + [pc])
  {
    var longer := history + [pc];
    assert longer[..|longer| - 1] == history && longer[|longer| - 1] == pc;
    hide Enlist, Leads, StartedBy;
  }

  lemma LeadsNowhere(c: Config, pc: u32, list: seq<u32>, attempted: seq<u32>)
    requires AllBacked(c.image) && !Decodable(c, pc)
    ensures Enlist(c, list, Leads(c, pc)) == list && StartedBy(c, pc, attempted) == {}
  {
    hide Decodable;
  }

  lemma PoppedNoted(w: Walk, v: Walk)
    requires QueueNoted(w) && w.pending != [] && w.pending[0] !in w.pending[1..]
    requires v.pending == w.pending[1..] && v.queued == w.queued - {w.pending[0]}
    ensures QueueNoted(v)
  {
    assert w.pending == [w.pending[0]] + w.pending[1..];
  }

  lemma TakenOff(history: seq<u32>, pending: seq<u32>)
    requires pending != []
    ensures history + [pending[0]] + pending[1..] == history + pending
  {
  }

  lemma FailedWork(w: Walk, kind: BoundaryKind)
    requires w.pending != []
    ensures var v := Failed(w, kind);
            v.pending == w.pending[1..] && v.queued == w.queued - {w.pending[0]} && v.blockStarts == w.blockStarts
  {
    hide FailureHandoffs;
  }

  /** The head of the queue leads nowhere. */
  lemma FailOrdered(c: Config, w: Walk, kind: BoundaryKind, history: seq<u32>)
    requires AllBacked(c.image) && Ordered(c, w, history) && w.pending != [] && HasTried(history, w)
    requires !Decodable(c, w.pending[0])
    ensures Ordered(c, Failed(w, kind), history + [w.pending[0]])
  {
    hide *;
    var longer := history + [w.pending[0]];
    OrderedFacts(c, w, history);
    HeadInTurn(c, w, history);
    QueueOnce(c, w, history);
    ListedNext(c, history, w.pending[0]);
    LeadsNowhere(c, w.pending[0], Listed(c, history), longer);
    TakenOff(history, w.pending);
    FailedWork(w, kind);
    PoppedNoted(w, Failed(w, kind));
    OrderedFrom(c, Failed(w, kind), longer);
  }

  // ---------------------------------------------------------------- following an instruction

  /** The walk after some edges of `s` have been scheduled, one after the other. */
  ghost function FollowedEdges(c: Config, w: Walk, s: u32, targets: seq<u32>, startsBlock: bool): Walk
    decreases |targets|
  {
    if targets == [] then w
    else
      var n := |targets| - 1;
      Scheduled(c, FollowedEdges(c, w, s, targets[..n], startsBlock), s, targets[n], startsBlock)
  }

  ghost function Noted(c: Config, w: Walk, s: u32, i: Instruction): Walk {
    if FlowHandoff(c.calls, i).Some? then WithHandoff(w, Handoff(s, FlowHandoff(c.calls, i).value)) else w
  }

  /** The walk after the instruction at `s`, which ends at `next`, has been followed. */
  ghost function FollowedWhole(c: Config, w: Walk, s: u32, i: Instruction, next: u32): Walk {
    FollowedEdges(c, Noted(c, w, s, i), s, FlowOrder(c.calls, i, next), StartsBlocks(i))
  }

  /** The targets that start blocks when they are scheduled. */
  ghost function Starting(c: Config, w: Walk, targets: seq<u32>, startsBlock: bool): set<u32> {
    set t | t in targets && startsBlock && PcInWindow(c, t) && t !in w.failedTargets
  }

  lemma StartingMore(c: Config, w: Walk, targets: seq<u32>, startsBlock: bool)
    requires targets != []
    ensures var t := targets[|targets| - 1];
            Starting(c, w, targets, startsBlock)
            == Starting(c, w, targets[..|targets| - 1], startsBlock)
               + if startsBlock && PcInWindow(c, t) && t !in w.failedTargets then {t} else {}
  {
    hide PcInWindow;
    assert targets == targets[..|targets| - 1] + [targets[|targets| - 1]];
  }

  /** Scheduling one edge lists its target. */
  lemma ScheduleLists(c: Config, w: Walk, s: u32, t: u32, startsBlock: bool, history: seq<u32>)
    requires HasTried(history, w) && QueueNoted(w) && w.failedTargets.Keys <= w.attempted
    ensures var v := Scheduled(c, w, s, t, startsBlock);
            && v.attempted == w.attempted && v.failedTargets == w.failedTargets && QueueNoted(v)
            && history + v.pending
               == (if PcInWindow(c, t) && t !in history + w.pending then history + w.pending + [t]
                   else history + w.pending)
            && v.blockStarts
               == w.blockStarts + if startsBlock && PcInWindow(c, t) && t !in w.failedTargets then {t} else {}
  {
    hide PcInWindow, AddEdge;
  }

  lemma {:induction false} FollowLists(c: Config, w: Walk, s: u32, targets: seq<u32>, startsBlock: bool,
                                       history: seq<u32>)
    requires HasTried(history, w) && QueueNoted(w) && w.failedTargets.Keys <= w.attempted
    ensures var v := FollowedEdges(c, w, s, targets, startsBlock);
            && v.attempted == w.attempted && v.failedTargets == w.failedTargets && QueueNoted(v)
            && history + v.pending == Enlist(c, history + w.pending, targets)
            && v.blockStarts == w.blockStarts + Starting(c, w, targets, startsBlock)
    decreases |targets|
  {
    hide Scheduled, QueueNoted, PcInWindow;
    if targets != [] {
      var n := |targets| - 1;
      FollowLists(c, w, s, targets[..n], startsBlock, history);
      var most := FollowedEdges(c, w, s, targets[..n], startsBlock);
      ScheduleLists(c, most, s, targets[n], startsBlock, history);
      StartingMore(c, w, targets, startsBlock);
      hide Starting;
    }
  }

  /** Failed targets are the attempted ones that hold nothing to keep. */
  lemma FailedAre(c: Config, w: Walk, t: u32)
    requires AllBacked(c.image) && OutcomesOk(c, w)
    ensures t in w.failedTargets <==> t in w.attempted && !Decodable(c, t)
  {
    hide Decodable, FailureAt, Accepted, Sought;
    assert t in w.failedTargets ==> FailedOk(c, w, t);
    assert t in w.instructions ==> KeptOk(c, w, t);
  }

  lemma StartingIsStarted(c: Config, w: Walk, i: Instruction, end: u32, history: seq<u32>)
    requires AllBacked(c.image) && OutcomesOk(c, w) && Keeps(c, w, i, end) && HasTried(history, w)
    ensures var pc, longer := w.pending[0], history + [w.pending[0]];
            Starting(c, Kept(w, i, end), Leads(c, pc), StartsBlocks(i)) == StartedBy(c, pc, longer)
  {
    var pc, longer := w.pending[0], history + [w.pending[0]];
    assert DecodeAt(c, pc).AtInstruction? && i == DecodeAt(c, pc).instruction;
    hide OutcomesOk, DecodeAt, Leads, StaticTargets, PcInWindow, Decodable, StartsBlocks, Accepted;
    forall t: u32
      ensures t in Starting(c, Kept(w, i, end), Leads(c, pc), StartsBlocks(i)) <==> t in StartedBy(c, pc, longer)
    {
      LeadsAre(c, pc, t);
      FailedAre(c, w, t);
    }
  }

  lemma LeadsInOrder(c: Config, w: Walk, i: Instruction, end: u32)
    requires AllBacked(c.image) && Keeps(c, w, i, end)
    ensures Leads(c, w.pending[0]) == FlowOrder(c.calls, i, end)
  {
    hide DecodeAt, FlowOrder, FlowTargets;
  }

  lemma NotedWork(c: Config, w: Walk, s: u32, i: Instruction)
    ensures var v := Noted(c, w, s, i);
            && v.pending == w.pending && v.queued == w.queued && v.blockStarts == w.blockStarts
            && v.attempted == w.attempted && v.failedTargets == w.failedTargets
  {
  }

  lemma KeptWork(w: Walk, i: Instruction, end: u32)
    requires w.pending != []
    ensures var v := Kept(w, i, end);
            && v.pending == w.pending[1..] && v.queued == w.queued - {w.pending[0]} && v.blockStarts == w.blockStarts
            && v.attempted == w.attempted + {w.pending[0]} && v.failedTargets == w.failedTargets
  {
  }

  lemma TriedMore(history: seq<u32>, w: Walk, v: Walk, pc: u32)
    requires HasTried(history, w) && v.attempted == w.attempted + {pc}
    ensures HasTried(history + [pc], v)
  {
  }

  /** The head of the queue is kept, and what it leads to has been listed. */
  lemma KeepOrdered(c: Config, w: Walk, i: Instruction, end: u32, history: seq<u32>)
    requires AllBacked(c.image) && Ordered(c, w, history) && HasTried(history, w)
    requires OutcomesOk(c, w) && Keeps(c, w, i, end) && w.pending != []
    ensures Ordered(c, FollowedWhole(c, Kept(w, i, end), w.pending[0], i, end), history + [w.pending[0]])
  {
    hide *;
    var pc, longer, mid := w.pending[0], history + [w.pending[0]], Kept(w, i, end);
    OrderedFacts(c, w, history);
    HeadInTurn(c, w, history);
    QueueOnce(c, w, history);
    ListedNext(c, history, pc);
    TakenOff(history, w.pending);
    KeptWork(w, i, end);
    PoppedNoted(w, mid);
    TriedMore(history, w, mid, pc);
    FailedTried(c, w);
    LeadsInOrder(c, w, i, end);
    StartingIsStarted(c, w, i, end, history);
    FollowOrdered(c, mid, pc, i, end, longer);
    OrderedFrom(c, FollowedWhole(c, mid, pc, i, end), longer);
  }

  lemma FollowOrdered(c: Config, w: Walk, s: u32, i: Instruction, end: u32, history: seq<u32>)
    requires HasTried(history, w) && QueueNoted(w) && w.failedTargets.Keys <= w.attempted
    ensures var v, targets := FollowedWhole(c, w, s, i, end), FlowOrder(c.calls, i, end);
            && QueueNoted(v) && history + v.pending == Enlist(c, history + w.pending, targets)
            && v.blockStarts == w.blockStarts + Starting(c, w, targets, StartsBlocks(i))
  {
    NotedWork(c, w, s, i);
    hide Noted, FollowedEdges, Enlist, FlowOrder, StartsBlocks;
    FollowLists(c, Noted(c, w, s, i), s, FlowOrder(c.calls, i, end), StartsBlocks(i), history);
  }

  lemma FailedTried(c: Config, w: Walk)
    requires AllBacked(c.image) && OutcomesOk(c, w)
    ensures w.failedTargets.Keys <= w.attempted
  {
    hide KeptOk, FailedOk;
  }

  lemma FollowedNone(c: Config, w: Walk, s: u32, startsBlock: bool)
    ensures FollowedEdges(c, w, s, [], startsBlock) == w
  {
  }

  lemma FollowedOne(c: Config, w: Walk, s: u32, t: u32, startsBlock: bool)
    ensures FollowedEdges(c, w, s, [t], startsBlock) == Scheduled(c, w, s, t, startsBlock)
  {
    assert [t][..0] == [];
    hide Scheduled;
  }

  lemma FollowedTwo(c: Config, w: Walk, s: u32, t: u32, u: u32, startsBlock: bool)
    ensures FollowedEdges(c, w, s, [t, u], startsBlock)
         == Scheduled(c, Scheduled(c, w, s, t, startsBlock), s, u, startsBlock)
  {
    FollowedOne(c, w, s, t, startsBlock);
    assert [t, u][..1] == [t];
    hide Scheduled;
  }

  // ---------------------------------------------------------------- refusals

  /** The instruction at `s` is being followed; these are the attempts so far, and the block starts are among theirs. */
  ghost predicate Counting(c: Config, w: Walk, s: u32, history: seq<u32>)
    requires AllBacked(c.image)
  {
    && history != [] && history[|history| - 1] == s && InTurn(c, history) && HasTried(history, w)
    && w.blockStarts <= StartsAfter(c, history)
  }

  lemma CountingNoted(c: Config, w: Walk, s: u32, i: Instruction, history: seq<u32>)
    requires AllBacked(c.image) && Counting(c, w, s, history)
    ensures Counting(c, Noted(c, w, s, i), s, history)
  {
    NotedWork(c, w, s, i);
    hide Noted, InTurn, StartsAfter;
  }

  lemma TargetCounts(c: Config, w: Walk, s: u32, t: u32, history: seq<u32>)
    requires AllBacked(c.image) && Counting(c, w, s, history) && OutcomesOk(c, w) && s in w.instructions
    requires t in StaticTargets(c, s) && StartsBlocks(w.instructions[s]) && PcInWindow(c, t) && t !in w.failedTargets
    ensures t in StartsAfter(c, history)
  {
    FailedAre(c, w, t);
    assert KeptOk(c, w, s);
    assert Decodable(c, s) && StartsBlocks(DecodeAt(c, s).instruction);
    hide Decodable, DecodeAt, InTurn, OutcomesOk, StaticTargets, PcInWindow, StartsBlocks;
    assert t in StartedBy(c, s, history);
  }

  lemma CountingFrom(c: Config, w: Walk, s: u32, history: seq<u32>)
    requires AllBacked(c.image) && history != [] && history[|history| - 1] == s
    requires InTurn(c, history) && HasTried(history, w) && w.blockStarts <= StartsAfter(c, history)
    ensures Counting(c, w, s, history)
  {
    hide InTurn, HasTried, StartsAfter;
  }

  lemma CountingFacts(c: Config, w: Walk, s: u32, history: seq<u32>)
    requires AllBacked(c.image) && Counting(c, w, s, history)
    ensures history != [] && history[|history| - 1] == s && InTurn(c, history) && HasTried(history, w)
    ensures w.blockStarts <= StartsAfter(c, history)
  {
    hide InTurn, HasTried, StartsAfter;
  }

  lemma SameTried(history: seq<u32>, w: Walk, v: Walk)
    requires HasTried(history, w) && v.attempted == w.attempted
    ensures HasTried(history, v)
  {
  }

  lemma ScheduledBlocks(c: Config, w: Walk, s: u32, t: u32, startsBlock: bool)
    ensures var v := Scheduled(c, w, s, t, startsBlock);
            && v.attempted == w.attempted
            && v.blockStarts == w.blockStarts
                                + if startsBlock && PcInWindow(c, t) && t !in w.failedTargets then {t} else {}
  {
    hide PcInWindow, AddEdge;
  }

  /** Scheduling an edge counts no block that the order does not count. */
  lemma ScheduleCounts(c: Config, w: Walk, s: u32, t: u32, startsBlock: bool, history: seq<u32>)
    requires AllBacked(c.image) && Counting(c, w, s, history) && OutcomesOk(c, w) && s in w.instructions
    requires t in StaticTargets(c, s) && startsBlock == StartsBlocks(w.instructions[s])
    ensures Counting(c, Scheduled(c, w, s, t, startsBlock), s, history)
  {
    hide *;
    if startsBlock && PcInWindow(c, t) && t !in w.failedTargets {
      TargetCounts(c, w, s, t, history);
    }
    ScheduledBlocks(c, w, s, t, startsBlock);
    CountingFacts(c, w, s, history);
    SameTried(history, w, Scheduled(c, w, s, t, startsBlock));
    CountingFrom(c, Scheduled(c, w, s, t, startsBlock), s, history);
  }

  lemma FaultNotAdmitted(c: Config)
    requires AllBacked(c.image) && AlwaysRefused(c)
    ensures !Admitted(c)
  {
    hide AlwaysRefused, InTurn, Fits;
  }

  lemma MisfitNotAdmitted(c: Config, history: seq<u32>)
    requires AllBacked(c.image) && InTurn(c, history) && !Fits(c, history)
    ensures !Admitted(c)
  {
    hide AlwaysRefused, InTurn, Fits;
  }

  /** The order counts more blocks than the limit allows. */
  lemma BlocksNotAdmitted(c: Config, starts: set<u32>, t: u32, history: seq<u32>)
    requires AllBacked(c.image) && InTurn(c, history) && starts <= StartsAfter(c, history)
    requires t in StartsAfter(c, history) && t !in starts && |starts| + 1 > c.limits.maxBlocks
    ensures !Admitted(c)
  {
    Subset(starts + {t}, StartsAfter(c, history));
    hide InTurn, StartsAfter;
    assert |starts + {t}| == |starts| + 1;
    MisfitNotAdmitted(c, history);
  }
}
