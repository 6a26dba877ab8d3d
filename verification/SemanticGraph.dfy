/**
 * The decoded graph with its reachable part, predecessor sets and dominator tree. A dominance query
 * compares two intervals; its answer is the path property.
 */
module SemanticGraph {
  import opened Words
  import opened Arm32
  import opened ControlGraph
  import opened PostOrder
  import opened DominatorChains
  import opened DominatorFixpoint
  import opened IntervalNumbering

  datatype DominatorTree = DominatorTree(immediate: map<u32, u32>, intervals: map<u32, (nat, nat)>) {
    predicate Answers(d: u32, node: u32) {
      && d in immediate && node in immediate
      && d in intervals && node in intervals
      && Contains(intervals[d], intervals[node])
    }
  }

  datatype SemanticCfg = SemanticCfg(
    entry: u32,
    isa: Isa,
    instructions: map<u32, Instruction>,
    dominators: DominatorTree,
    successors: Adjacency,
    predecessors: Adjacency,
    externalEdges: set<(u32, u32)>,
    reachable: set<u32>)

  function Positions(order: seq<u32>): (positions: map<u32, nat>)
    requires NoRepeats(order)
    ensures forall i | 0 <= i < |order| :: order[i] in positions && positions[order[i]] == i
    ensures forall n | n in positions :: positions[n] < |order| && order[positions[n]] == n
  {
    map i | 0 <= i < |order| :: order[i] := i
  }

  /** `preds` is the reverse of `succ` on `nodes`. */
  ghost predicate ReverseEdges(nodes: set<u32>, succ: Adjacency, preds: Adjacency) {
    && preds.Keys == nodes
    && (forall v | v in nodes :: preds[v] == Incoming(nodes, succ, v))
  }

  lemma HasForward(g: Flow, n: u32, i: nat)
    requires g.positions.Keys == g.nodes && ReverseEdges(g.nodes, g.succ, g.preds)
    requires 0 < i < |g.order| && g.order[i] == n && n in g.nodes && g.positions[n] == i
    requires forall j | 0 <= j < |g.order| :: g.order[j] in g.nodes && g.positions[g.order[j]] == j
    requires HasParent(g.succ, g.order, 0, i, n)
    ensures exists f :: IsForward(g, f, n)
  {
    var j :| 0 <= j < i && n in Targets(g.succ, g.order[j]);
    assert IsForward(g, g.order[j], n);
  }

  lemma ReverseLinks(g: Flow)
    requires ReverseEdges(g.nodes, g.succ, g.preds)
    ensures Linked(g)
  {
  }

  lemma OrderRanks(g: Flow)
    requires g.order != [] && g.order[0] == g.entry && NoRepeats(g.order)
    requires forall n :: n in g.order <==> n in g.nodes
    requires g.positions == Positions(g.order)
    ensures Ranked(g) && g.entry in g.nodes
  {
    assert forall i | 0 <= i < |g.order| :: g.order[i] in g.order;
    assert g.positions.Keys == g.nodes;
  }

  lemma OrderedFlow(g: Flow)
    requires g.order != [] && g.order[0] == g.entry && NoRepeats(g.order) && ForwardParents(g.succ, g.order)
    requires forall n :: n in g.order <==> n in g.nodes
    requires g.positions == Positions(g.order) && ReverseEdges(g.nodes, g.succ, g.preds)
    ensures WellFormed(g) && g.entry in g.nodes
  {
    OrderRanks(g);
    ReverseLinks(g);
    hide Linked, ReverseEdges, NoRepeats;
    forall n | n in g.nodes && n != g.entry
      ensures exists f :: IsForward(g, f, n)
    {
      var i := g.positions[n];
      assert HasParent(g.succ, g.order, 0, i, g.order[i]);
      HasForward(g, n, i);
    }
  }

  ghost function AncestryOf(g: Flow, t: Tree): Ancestry
    requires Rooted(g, t)
  {
    Ancestry(g.entry, t, map n | n in t :: Chain(g, t, n))
  }

  lemma ChainFacts(g: Flow, t: Tree, m: u32, a: u32)
    requires Ranked(g) && Rooted(g, t) && m in t && a in Chain(g, t, m)
    ensures a in t && (a == m || m !in Chain(g, t, a)) && Chain(g, t, a) <= Chain(g, t, m)
  {
    ChainNested(g, t, m, a);
  }

  lemma ChainUnfolds(g: Flow, t: Tree, m: u32)
    requires Rooted(g, t) && m in t && m != g.entry
    ensures t[m] in t && t[m] != m && Chain(g, t, m) == {m} + Chain(g, t, t[m])
  {
  }

  lemma AncestryFields(g: Flow, t: Tree)
    requires Rooted(g, t)
    ensures var w := AncestryOf(g, t);
            && w.parent == t && w.entry == g.entry && w.up.Keys == t.Keys
            && g.entry in t && t[g.entry] == g.entry
            && forall m | m in t :: w.up[m] == Chain(g, t, m)
  {
    hide Chain, Rooted;
    RootedAtEntry(g, t);
  }

  lemma RootedAtEntry(g: Flow, t: Tree)
    requires Rooted(g, t)
    ensures g.entry in t && t[g.entry] == g.entry
  {
  }

  lemma AncestryNested(g: Flow, t: Tree, m: u32, a: u32)
    requires Ranked(g) && Rooted(g, t) && m in t && a in Chain(g, t, m)
    ensures m in AncestryOf(g, t).up && Nested(AncestryOf(g, t), m, a)
  {
    hide *;
    AncestryFields(g, t);
    ChainFacts(g, t, m, a);
    NestedFacts(AncestryOf(g, t), m, a);
  }

  lemma NestedFacts(t: Ancestry, m: u32, a: u32)
    requires m in t.up && a in t.up && (a == m || m !in t.up[a]) && t.up[a] <= t.up[m]
    ensures Nested(t, m, a)
  {
  }

  lemma AncestryHangs(g: Flow, t: Tree, m: u32)
    requires Rooted(g, t) && m in t && m != g.entry
    ensures m in AncestryOf(g, t).parent && HangsFromParent(AncestryOf(g, t), m)
  {
    AncestryFields(g, t);
    ChainUnfolds(g, t, m);
    hide Chain, Rooted;
  }

  lemma EntryChain(g: Flow, t: Tree)
    requires Rooted(g, t)
    ensures Chain(g, t, g.entry) == {g.entry}
  {
  }

  lemma AncestryWellFounded(g: Flow, t: Tree)
    requires Ranked(g) && Rooted(g, t)
    ensures WellFounded(AncestryOf(g, t)) && AncestryOf(g, t).up.Keys == t.Keys
    ensures g.entry in t && AncestryOf(g, t).up[g.entry] == {g.entry}
  {
    hide Chain, Rooted, Ranked, Nested, HangsFromParent, AncestryOf;
    AncestryFields(g, t);
    EntryChain(g, t);
    var w := AncestryOf(g, t);
    forall m, a | m in w.up && a in w.up[m]
      ensures Nested(w, m, a)
    {
      AncestryNested(g, t, m, a);
    }
    forall m | m in w.parent && m != w.entry
      ensures HangsFromParent(w, m)
    {
      AncestryHangs(g, t, m);
    }
  }

  /** Dominators by reverse postorder and intersection, answered by interval containment. */
  method ComputeDominators(entry: u32, reachable: set<u32>, succ: Adjacency, preds: Adjacency)
    returns (tree: DominatorTree)
    requires entry in reachable ==> AllReached(succ, reachable, entry)
    requires entry !in reachable ==> reachable == {}
    requires ReverseEdges(reachable, succ, preds)
    ensures forall d, n :: tree.Answers(d, n) <==>
                             d in reachable && n in reachable && MustPass(succ, reachable, entry, d, n)
  {
    hide *;
    if entry !in reachable {
      tree := DominatorTree(map[], map[]);
      EmptyTree(tree);
      return;
    }
    var order := ReversePostorder(entry, reachable, succ);
    var g := Flow(entry, reachable, succ, preds, order, Positions(order));
    OrderedFlow(g);
    RankedOf(g);
    var immediate := ImmediateDominators(g);
    AncestryWellFounded(g, immediate);
    AncestryFields(g, immediate);
    var intervals := NumberTree(entry, immediate, g, AncestryOf(g, immediate));
    tree := DominatorTree(immediate, intervals);
    AnswersExactly(g, tree);
  }

  lemma EmptyTree(tree: DominatorTree)
    requires tree == DominatorTree(map[], map[])
    ensures forall d, n :: !tree.Answers(d, n)
  {
  }

  lemma RankedOf(g: Flow)
    requires WellFormed(g)
    ensures Ranked(g)
  {
  }

  lemma AnswersExactly(g: Flow, tree: DominatorTree)
    requires Rooted(g, tree.immediate) && tree.immediate.Keys == g.nodes
    requires forall n, d | n in g.nodes :: d in Chain(g, tree.immediate, n) <==> Dominates(g, d, n)
    requires tree.intervals.Keys >= tree.immediate.Keys
    requires forall d, n | d in tree.immediate && n in tree.immediate ::
               Contains(tree.intervals[d], tree.intervals[n]) <==> d in AncestryOf(g, tree.immediate).up[n]
    ensures forall d, n :: tree.Answers(d, n) <==>
                             d in g.nodes && n in g.nodes && MustPass(g.succ, g.nodes, g.entry, d, n)
  {
    hide Rooted, MustPass, Contains;
    forall d, n | d in g.nodes && n in g.nodes
      ensures tree.Answers(d, n) <==> MustPass(g.succ, g.nodes, g.entry, d, n)
    {
      assert AncestryOf(g, tree.immediate).up[n] == Chain(g, tree.immediate, n);
      assert Dominates(g, d, n) == MustPass(g.succ, g.nodes, g.entry, d, n);
    }
  }

  ghost function Incoming(sources: set<u32>, succ: Adjacency, v: u32): set<u32> {
    set u | u in sources && v in Targets(succ, u)
  }

  /** The edges from `sources` whose target is not reachable, that is, not decoded. */
  ghost function Leaving(sources: set<u32>, reachable: set<u32>, succ: Adjacency): set<(u32, u32)> {
    set u, v | u in sources && v in Targets(succ, u) && v !in reachable :: (u, v)
  }

  ghost function LeavingFrom(source: u32, reachable: set<u32>, targets: set<u32>): set<(u32, u32)> {
    set v | v in targets && v !in reachable :: (source, v)
  }

  lemma LeavingOne(source: u32, reachable: set<u32>, targets: set<u32>, target: u32)
    ensures LeavingFrom(source, reachable, targets + {target}) ==
            LeavingFrom(source, reachable, targets) + if target in reachable then {} else {(source, target)}
  {
  }

  lemma LeavingGrows(sources: set<u32>, reachable: set<u32>, succ: Adjacency, source: u32)
    ensures Leaving(sources + {source}, reachable, succ) ==
            Leaving(sources, reachable, succ) + LeavingFrom(source, reachable, Targets(succ, source))
  {
  }

  ghost predicate AddedTo(reachable: set<u32>, before: Adjacency, after: Adjacency, source: u32, targets: set<u32>) {
    && before.Keys == reachable && after.Keys == reachable
    && forall v | v in reachable :: after[v] == before[v] + if v in targets then {source} else {}
  }

  lemma NoneAdded(reachable: set<u32>, before: Adjacency, source: u32)
    requires before.Keys == reachable
    ensures AddedTo(reachable, before, before, source, {}) && LeavingFrom(source, reachable, {}) == {}
  {
  }

  lemma AddOne(reachable: set<u32>, before: Adjacency, after: Adjacency, source: u32, targets: set<u32>, target: u32)
    requires AddedTo(reachable, before, after, source, targets)
    ensures target in reachable ==>
              AddedTo(reachable, before, after[target := after[target] + {source}], source, targets + {target})
    ensures target !in reachable ==> AddedTo(reachable, before, after, source, targets + {target})
  {
  }

  lemma PrefixSet(list: seq<u32>, j: nat)
    requires j < |list|
    ensures (set k | 0 <= k < j + 1 :: list[k]) == (set k | 0 <= k < j :: list[k]) + {list[j]}
  {
  }

  lemma WholeSet(list: seq<u32>, s: set<u32>)
    requires forall x :: x in list <==> x in s
    ensures (set k | 0 <= k < |list| :: list[k]) == s
  {
    forall x | x in s
      ensures x in set k | 0 <= k < |list| :: list[k]
    {
      assert x in list;
    }
  }

  /** The inner loop: one source's edges go to its targets' incoming sets or to the external edges. */
  method CollectEdges(source: u32, reachable: set<u32>, succ: Adjacency,
                      before: Adjacency, externalBefore: set<(u32, u32)>)
    returns (predecessors: Adjacency, external: set<(u32, u32)>)
    requires before.Keys == reachable
    ensures AddedTo(reachable, before, predecessors, source, Targets(succ, source))
    ensures external == externalBefore + LeavingFrom(source, reachable, Targets(succ, source))
  {
    hide *;
    predecessors, external := before, externalBefore;
    var targets := Ascending(Targets(succ, source));
    WholeSet(targets, Targets(succ, source));
    NoneAdded(reachable, before, source);
    ghost var done: set<u32> := {};
    for j := 0 to |targets|
      invariant done == set k | 0 <= k < j :: targets[k]
      invariant predecessors.Keys == reachable
      invariant AddedTo(reachable, before, predecessors, source, done)
      invariant external == externalBefore + LeavingFrom(source, reachable, done)
    {
      var target := targets[j];
      PrefixSet(targets, j);
      AddOne(reachable, before, predecessors, source, done, target);
      LeavingOne(source, reachable, done, target);
      if target in predecessors {
        predecessors := predecessors[target := predecessors[target] + {source}];
      } else {
        external := external + {(source, target)};
      }
      done := done + {target};
    }
  }

  /** The incoming edges of each reachable node and the edges that leave the decoded graph. */
  method CollectPredecessors(reachable: set<u32>, succ: Adjacency)
    returns (predecessors: Adjacency, external: set<(u32, u32)>)
    ensures ReverseEdges(reachable, succ, predecessors)
    ensures external == Leaving(reachable, reachable, succ)
  {
    hide *;
    predecessors := map n | n in reachable :: {};
    external := {};
    var sources := Ascending(reachable);
    WholeSet(sources, reachable);
    ghost var done: set<u32> := {};
    NoneIncoming(reachable, succ, predecessors);
    for i := 0 to |sources|
      invariant done == set k | 0 <= k < i :: sources[k]
      invariant IncomingFrom(reachable, done, succ, predecessors) && predecessors.Keys == reachable
      invariant external == Leaving(done, reachable, succ)
    {
      ghost var before := predecessors;
      PrefixSet(sources, i);
      LeavingGrows(done, reachable, succ, sources[i]);
      predecessors, external := CollectEdges(sources[i], reachable, succ, predecessors, external);
      IncomingGrows(reachable, done, succ, sources[i], before, predecessors);
      done := done + {sources[i]};
    }
    AllIncoming(reachable, succ, predecessors);
  }

  ghost predicate IncomingFrom(reachable: set<u32>, sources: set<u32>, succ: Adjacency, preds: Adjacency) {
    preds.Keys == reachable && forall v | v in reachable :: preds[v] == Incoming(sources, succ, v)
  }

  lemma NoneIncoming(reachable: set<u32>, succ: Adjacency, preds: Adjacency)
    requires preds == map n | n in reachable :: {}
    ensures IncomingFrom(reachable, {}, succ, preds) && Leaving({}, reachable, succ) == {}
  {
  }

  lemma AllIncoming(reachable: set<u32>, succ: Adjacency, preds: Adjacency)
    requires IncomingFrom(reachable, reachable, succ, preds)
    ensures ReverseEdges(reachable, succ, preds)
  {
  }

  lemma IncomingGrows(reachable: set<u32>, done: set<u32>, succ: Adjacency, source: u32,
                      before: Adjacency, after: Adjacency)
    requires AddedTo(reachable, before, after, source, Targets(succ, source))
    requires IncomingFrom(reachable, done, succ, before)
    ensures after.Keys == reachable && IncomingFrom(reachable, done + {source}, succ, after)
  {
    forall v | v in reachable
      ensures after[v] == Incoming(done + {source}, succ, v)
    {
      assert Incoming(done + {source}, succ, v) ==
             Incoming(done, succ, v) + if v in Targets(succ, source) then {source} else {};
    }
  }

  lemma ReachablePathsSuffice(succ: Adjacency, nodes: set<u32>, reachable: set<u32>, entry: u32, d: u32, n: u32)
    requires reachable <= nodes && EdgesFollowed(succ, nodes, reachable, reachable)
    requires entry in reachable
    ensures MustPass(succ, reachable, entry, d, n) <==> MustPass(succ, nodes, entry, d, n)
  {
    forall p
      ensures Joins(succ, reachable, entry, n, p) <==> Joins(succ, nodes, entry, n, p)
    {
      if Joins(succ, nodes, entry, n, p) {
        ClosedHoldsPath(succ, nodes, reachable, entry, n, p);
      }
    }
  }

  /** Everything the control-flow queries rest on, built from the decoded instructions and edges. */
  method FromGraph(entry: u32, isa: Isa, instructions: map<u32, Instruction>, successors: Adjacency)
    returns (cfg: SemanticCfg)
    ensures cfg.entry == entry && cfg.isa == isa
    ensures cfg.instructions == instructions && cfg.successors == successors
    ensures forall n :: n in cfg.reachable <==> Reaches(successors, instructions.Keys, entry, n)
    ensures ReverseEdges(cfg.reachable, successors, cfg.predecessors)
    ensures cfg.externalEdges == Leaving(cfg.reachable, cfg.reachable, successors)
    ensures forall d, n :: cfg.dominators.Answers(d, n) <==>
              d in cfg.reachable && n in cfg.reachable && MustPass(successors, instructions.Keys, entry, d, n)
  {
    var reachable := ReachableInstructions(entry, instructions.Keys, successors);
    var predecessors, external := CollectPredecessors(reachable, successors);
    if entry !in reachable {
      NothingReached(entry, instructions.Keys, successors, reachable);
    }
    var dominators := ComputeDominators(entry, reachable, successors, predecessors);
    cfg := SemanticCfg(entry, isa, instructions, dominators, successors, predecessors, external, reachable);
    forall d, n | n in reachable
      ensures MustPass(successors, reachable, entry, d, n) <==> MustPass(successors, instructions.Keys, entry, d, n)
    {
      ReachablePathsSuffice(successors, instructions.Keys, reachable, entry, d, n);
    }
  }

  lemma NothingReached(entry: u32, instructions: set<u32>, succ: Adjacency, reachable: set<u32>)
    requires forall n :: n in reachable <==> Reaches(succ, instructions, entry, n)
    requires entry !in reachable
    ensures reachable == {}
  {
    if reachable != {} {
      var n :| n in reachable;
      var p :| Joins(succ, instructions, entry, n, p);
      assert Joins(succ, instructions, entry, entry, [entry]);
    }
  }
}
