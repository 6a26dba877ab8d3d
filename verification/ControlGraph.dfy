/** Paths in a control-flow graph, and the reachable part of a decoded graph. */
module ControlGraph {
  import opened Words

  /** Successor or predecessor sets; a missing key has no neighbours. */
  type Adjacency = map<u32, set<u32>>

  function Targets(adjacency: Adjacency, node: u32): set<u32> {
    if node in adjacency then adjacency[node] else {}
  }

  ghost predicate IsPath(succ: Adjacency, nodes: set<u32>, p: seq<u32>) {
    && |p| > 0
    && (forall i | 0 <= i < |p| :: p[i] in nodes)
    && (forall i | 0 < i < |p| :: p[i] in Targets(succ, p[i - 1]))
  }

  ghost predicate Joins(succ: Adjacency, nodes: set<u32>, source: u32, target: u32, p: seq<u32>) {
    IsPath(succ, nodes, p) && p[0] == source && p[|p| - 1] == target
  }

  ghost predicate Reaches(succ: Adjacency, nodes: set<u32>, source: u32, target: u32) {
    exists p :: Joins(succ, nodes, source, target, p)
  }

  /** Every member of `nodes` is reached from `entry` without leaving `nodes`. */
  ghost predicate AllReached(succ: Adjacency, nodes: set<u32>, entry: u32) {
    forall n | n in nodes :: Reaches(succ, nodes, entry, n)
  }

  /** Every edge that leaves a settled node stays inside `reached`. */
  ghost predicate EdgesFollowed(succ: Adjacency, universe: set<u32>, reached: set<u32>, settled: set<u32>) {
    forall n, m | n in settled && m in Targets(succ, n) && m in universe :: m in reached
  }

  /** Every path from `entry` to `node` visits `d`. */
  ghost predicate MustPass(succ: Adjacency, nodes: set<u32>, entry: u32, d: u32, node: u32) {
    forall p | Joins(succ, nodes, entry, node, p) :: d in p
  }

  lemma ExtendPath(succ: Adjacency, nodes: set<u32>, source: u32, middle: u32, target: u32, p: seq<u32>)
    requires Joins(succ, nodes, source, middle, p)
    requires target in nodes && target in Targets(succ, middle)
    ensures Joins(succ, nodes, source, target, p + [target])
  {
  }

  lemma AppendPaths(succ: Adjacency, nodes: set<u32>, a: u32, b: u32, c: u32, p: seq<u32>, q: seq<u32>)
    requires Joins(succ, nodes, a, b, p) && Joins(succ, nodes, b, c, q)
    ensures Joins(succ, nodes, a, c, p + q[1..])
  {
    var r := p + q[1..];
    forall i | 0 < i < |r|
      ensures r[i] in Targets(succ, r[i - 1])
    {
      if i >= |p| {
        assert r[i] == q[i - |p| + 1];
        assert r[i - 1] == q[i - |p|];
      }
    }
  }

  /** A set that holds the source and is closed under edges holds every path. */
  lemma {:induction false} ClosedHoldsPath(
      succ: Adjacency, nodes: set<u32>, closed: set<u32>, source: u32, target: u32, p: seq<u32>)
    requires Joins(succ, nodes, source, target, p)
    requires source in closed
    requires forall n, m | n in closed && m in Targets(succ, n) && m in nodes :: m in closed
    ensures forall x | x in p :: x in closed
    decreases |p|
  {
    if |p| > 1 {
      var q := p[..|p| - 1];
      ClosedHoldsPath(succ, nodes, closed, source, q[|q| - 1], q);
      assert q[|q| - 1] in closed;
      assert p == q + [target];
    }
  }

  /** Breadth-first closure of `entry` inside the decoded instructions. */
  method ReachableInstructions(entry: u32, instructions: set<u32>, succ: Adjacency)
    returns (reachable: set<u32>)
    ensures forall n :: n in reachable <==> Reaches(succ, instructions, entry, n)
    ensures reachable <= instructions
    ensures EdgesFollowed(succ, instructions, reachable, reachable)
    ensures AllReached(succ, reachable, entry)
  {
    if entry !in instructions {
      reachable := {};
      return;
    }
    hide *;
    reachable := {entry};
    var pending := [entry];
    FirstReached(entry, instructions, succ);
    ghost var settled: set<u32> := {};
    while pending != []
      invariant entry in reachable && reachable <= instructions
      invariant forall n | n in pending :: n in reachable
      invariant forall n | n in reachable :: n in settled || n in pending
      invariant AllReached(succ, reachable, entry)
      invariant EdgesFollowed(succ, instructions, reachable, settled)
      decreases |instructions - reachable|, |pending|
    {
      var pc := pending[0];
      ghost var before, queue := reachable, |pending|;
      pending := pending[1..];
      reachable, pending := EnqueueTargets(entry, instructions, succ, pc, reachable, pending);
      SettleMore(succ, instructions, before, reachable, settled, pc);
      settled := settled + {pc};
      if reachable != before {
        SmallerSet(instructions - reachable, instructions - before);
      }
    }
    AllSettled(succ, instructions, reachable, settled);
    ReachedExactly(entry, instructions, succ, reachable);
  }

  lemma FirstReached(entry: u32, instructions: set<u32>, succ: Adjacency)
    ensures AllReached(succ, {entry}, entry) && EdgesFollowed(succ, instructions, {entry}, {})
  {
    assert Joins(succ, {entry}, entry, entry, [entry]);
  }

  lemma SettleMore(succ: Adjacency, universe: set<u32>, before: set<u32>, reached: set<u32>, settled: set<u32>, pc: u32)
    requires EdgesFollowed(succ, universe, before, settled) && before <= reached
    requires forall m | m in Targets(succ, pc) && m in universe :: m in reached
    ensures EdgesFollowed(succ, universe, reached, settled + {pc})
  {
    hide Targets;
  }

  lemma AllSettled(succ: Adjacency, universe: set<u32>, reached: set<u32>, settled: set<u32>)
    requires EdgesFollowed(succ, universe, reached, settled) && reached <= settled
    ensures EdgesFollowed(succ, universe, reached, reached)
  {
    hide Targets;
  }

  /** The inner loop of the closure: queue every decoded target not reached before. */
  method EnqueueTargets(entry: u32, instructions: set<u32>, succ: Adjacency, pc: u32,
                        known: set<u32>, queue: seq<u32>)
    returns (reachable: set<u32>, pending: seq<u32>)
    requires known <= instructions && pc in known
    requires AllReached(succ, known, entry)
    ensures known <= reachable <= instructions
    ensures AllReached(succ, reachable, entry)
    ensures forall m | m in Targets(succ, pc) && m in instructions :: m in reachable
    ensures queue <= pending
    ensures forall n :: n in pending <==> n in queue || n in reachable - known
    ensures reachable == known ==> pending == queue
  {
    reachable, pending := known, queue;
    var successors := Ascending(Targets(succ, pc));
    for i := 0 to |successors|
      invariant known <= reachable <= instructions
      invariant AllReached(succ, reachable, entry)
      invariant queue <= pending
      invariant forall n :: n in pending <==> n in queue || n in reachable - known
      invariant forall k | 0 <= k < i :: successors[k] in instructions ==> successors[k] in reachable
      invariant reachable == known ==> pending == queue
    {
      var successor := successors[i];
      if successor in instructions && successor !in reachable {
        GrowReach(succ, reachable, entry, pc, successor);
        reachable := reachable + {successor};
        pending := pending + [successor];
      }
    }
  }

  lemma ReachedExactly(entry: u32, instructions: set<u32>, succ: Adjacency, reachable: set<u32>)
    requires entry in reachable && reachable <= instructions
    requires EdgesFollowed(succ, instructions, reachable, reachable)
    requires AllReached(succ, reachable, entry)
    ensures forall n :: n in reachable <==> Reaches(succ, instructions, entry, n)
  {
    forall n | Reaches(succ, instructions, entry, n)
      ensures n in reachable
    {
      var p :| Joins(succ, instructions, entry, n, p);
      ClosedHoldsPath(succ, instructions, reachable, entry, n, p);
      assert p[|p| - 1] in p;
    }
    forall n | n in reachable
      ensures Reaches(succ, instructions, entry, n)
    {
      var p :| Joins(succ, reachable, entry, n, p);
      assert Joins(succ, instructions, entry, n, p);
    }
  }

  lemma SmallerSet<T>(a: set<T>, b: set<T>)
    requires a < b
    ensures |a| < |b|
  {
    var extra := b - a;
    assert b == a + extra;
    assert |b| == |a| + |extra|;
  }

  /** Adding a target of a reached node keeps every node reached. */
  lemma GrowReach(succ: Adjacency, nodes: set<u32>, entry: u32, middle: u32, target: u32)
    requires AllReached(succ, nodes, entry)
    requires middle in nodes && target in Targets(succ, middle)
    ensures AllReached(succ, nodes + {target}, entry)
  {
    var more := nodes + {target};
    forall n | n in nodes
      ensures Reaches(succ, more, entry, n)
    {
      var p :| Joins(succ, nodes, entry, n, p);
      assert Joins(succ, more, entry, n, p);
    }
    var p :| Joins(succ, more, entry, middle, p);
    ExtendPath(succ, more, entry, middle, target, p);
  }
}
