/**
 * The iterative dominator computation: one update of the tree, one pass in reverse postorder, and the
 * loop until nothing changes. The loop ends, and at its end a chain is exactly a dominator set.
 */
module DominatorFixpoint {
  import opened Words
  import opened ControlGraph
  import opened DominatorChains

  // ---------------------------------------------------------------- invariants

  /** Exactly the first `known` nodes of the order have an immediate dominator. */
  ghost predicate ResolvedPrefix(g: Flow, t: Tree, known: nat) {
    forall n :: n in t <==> n in g.nodes && Height(g, n) < known
  }

  /** Recomputing a node can only move its parent up its own chain. */
  ghost predicate Upward(g: Flow, t: Tree)
    requires Rooted(g, t)
  {
    forall n | n in t && n != g.entry :: Common(g, t, n) <= Chain(g, t, t[n])
  }

  /**
   * What a node's chain shares with a forward predecessor: everything for nodes before index `i` of the
   * pass, and everything at or below index `i` for the others.
   */
  ghost predicate ForwardKept(g: Flow, t: Tree, i: nat)
    requires Rooted(g, t)
  {
    forall n, f, x | ForwardQuestion(g, t, i, n, f, x) :: x in Chain(g, t, f)
  }

  /** `f` is a forward predecessor of `n`, and the pass at index `i` vouches for `x` above `n`. */
  ghost predicate ForwardQuestion(g: Flow, t: Tree, i: nat, n: u32, f: u32, x: u32)
    requires Rooted(g, t)
  {
    && n in t && n != g.entry && IsForward(g, f, n) && f in t
    && t[n] in t && x in Chain(g, t, t[n]) && (Height(g, n) < i || Height(g, x) >= i)
  }

  /** A path from `a` to `n` that never goes above `a` in the order. */
  ghost predicate ClimbsTo(g: Flow, a: u32, n: u32) {
    exists p :: Climb(g, a, n, p)
  }

  ghost predicate Climb(g: Flow, a: u32, n: u32, p: seq<u32>) {
    Joins(g.succ, g.nodes, a, n, p) && forall i | 0 <= i < |p| :: Height(g, p[i]) >= Height(g, a)
  }

  ghost predicate Climbing(g: Flow, t: Tree) {
    forall n | n in t && n != g.entry :: ClimbsTo(g, t[n], n)
  }

  ghost predicate Dominates(g: Flow, d: u32, n: u32) {
    MustPass(g.succ, g.nodes, g.entry, d, n)
  }

  /** No true dominator has been lost from a chain. */
  ghost predicate Sound(g: Flow, t: Tree)
    requires Rooted(g, t)
  {
    forall n, y | n in t && Dominates(g, y, n) :: y in Chain(g, t, n)
  }

  ghost predicate PassInvariant(g: Flow, t: Tree, i: nat, known: nat) {
    && WellFormed(g) && Rooted(g, t) && 1 <= known
    && ResolvedPrefix(g, t, known)
    && Upward(g, t)
    && ForwardKept(g, t, i)
    && Climbing(g, t)
    && Sound(g, t)
  }

  // ---------------------------------------------------------------- paths

  lemma AppendClimbs(g: Flow, a: u32, b: u32, c: u32)
    requires ClimbsTo(g, a, b) && ClimbsTo(g, b, c) && Height(g, a) <= Height(g, b)
    ensures ClimbsTo(g, a, c)
  {
    var p :| Climb(g, a, b, p);
    var q :| Climb(g, b, c, q);
    AppendPaths(g.succ, g.nodes, a, b, c, p, q);
    var r := p + q[1..];
    forall i | 0 <= i < |r|
      ensures Height(g, r[i]) >= Height(g, a)
    {
      if i >= |p| {
        assert r[i] == q[i - |p| + 1];
      }
    }
    assert Climb(g, a, c, r);
  }

  lemma ClimbEdge(g: Flow, a: u32, b: u32, c: u32)
    requires ClimbsTo(g, a, b) && c in g.nodes && c in Targets(g.succ, b) && Height(g, a) <= Height(g, c)
    ensures ClimbsTo(g, a, c)
  {
    var p :| Climb(g, a, b, p);
    ExtendPath(g.succ, g.nodes, a, b, c, p);
    assert Climb(g, a, c, p + [c]);
  }

  lemma StayClimb(g: Flow, n: u32)
    requires n in g.nodes
    ensures ClimbsTo(g, n, n)
  {
    assert Climb(g, n, n, [n]);
  }

  lemma {:induction false} ChainClimbs(g: Flow, t: Tree, n: u32, x: u32)
    requires Ranked(g) && Rooted(g, t) && Climbing(g, t) && n in t && x in Chain(g, t, n)
    ensures ClimbsTo(g, x, n)
    decreases Height(g, n)
  {
    hide ClimbsTo;
    if x == n {
      StayClimb(g, n);
    } else {
      ChainClimbs(g, t, t[n], x);
      AppendClimbs(g, x, t[n], n);
    }
  }

  lemma DominatesPredecessor(g: Flow, y: u32, q: u32, n: u32)
    requires Linked(g) && n in g.nodes && q in Targets(g.preds, n) && y != n && Dominates(g, y, n)
    ensures Dominates(g, y, q)
  {
    forall p | Joins(g.succ, g.nodes, g.entry, q, p)
      ensures y in p
    {
      ExtendPath(g.succ, g.nodes, g.entry, q, n, p);
      assert y in p + [n];
    }
  }

  /** A node that `x` can be reached without, and that lies above `x`, does not dominate what `x` climbs to. */
  lemma AvoidThrough(g: Flow, y: u32, x: u32, n: u32)
    requires !Dominates(g, y, x) && ClimbsTo(g, x, n) && Height(g, y) < Height(g, x)
    ensures !Dominates(g, y, n)
  {
    var p :| Joins(g.succ, g.nodes, g.entry, x, p) && y !in p;
    var q :| Climb(g, x, n, q);
    AppendPaths(g.succ, g.nodes, g.entry, x, n, p, q);
    assert y !in q;
    assert y !in p + q[1..];
  }

  // ---------------------------------------------------------------- one update

  /** Facts about replacing the parent of `x`, the node at index `i`, by the meet of its predecessors. */
  ghost predicate Update(g: Flow, t: Tree, i: nat, known: nat, x: u32, z: u32) {
    && PassInvariant(g, t, i, known)
    && 1 <= i < |g.order| && i <= known
    && x == g.order[i]
    && z in t && Chain(g, t, z) == Common(g, t, x)
  }

  /** The geometry of an update: `z` becomes the parent of `x` and sat above `x` before. */
  ghost predicate Placed(g: Flow, t: Tree, x: u32, z: u32) {
    && Ranked(g) && Rooted(g, t) && Rooted(g, t[x := z])
    && x in g.nodes && x != g.entry && z in t && Height(g, z) < Height(g, x)
    && (x in t ==> z in Chain(g, t, t[x]))
  }

  lemma PlaceInOrder(g: Flow, i: nat)
    requires Ranked(g) && 1 <= i < |g.order|
    ensures g.order[i] in g.nodes && g.order[i] != g.entry && Height(g, g.order[i]) == i
  {
    assert g.positions[g.order[i]] == i && g.positions[g.order[0]] == 0;
  }

  lemma ForwardOf(g: Flow, n: u32) returns (f: u32)
    requires WellFormed(g) && n in g.nodes && n != g.entry
    ensures IsForward(g, f, n) && f in g.nodes && Height(g, f) < Height(g, n)
  {
    f :| IsForward(g, f, n);
  }

  lemma RootedAfter(g: Flow, t: Tree, x: u32, z: u32)
    requires Rooted(g, t) && x in g.positions && x != g.entry && z in t && Height(g, z) < Height(g, x)
    ensures Rooted(g, t[x := z])
  {
  }

  lemma UpdateForward(g: Flow, t: Tree, i: nat, known: nat, x: u32, z: u32) returns (f: u32)
    requires Update(g, t, i, known, x, z)
    ensures x in g.nodes && x != g.entry && Height(g, x) == i
    ensures IsForward(g, f, x) && f in t && z in Chain(g, t, f) && Height(g, z) < Height(g, x)
    ensures Placed(g, t, x, z)
  {
    hide ForwardKept, Climbing, Sound, Linked;
    PlaceInOrder(g, i);
    f := ForwardOf(g, x);
    assert z in Common(g, t, x);
    assert z in Chain(g, t, f);
    RootedAfter(g, t, x, z);
  }

  /** What an update at `x` does to a chain: below `x` nothing, above `x` it becomes the chain of `z`. */
  ghost predicate Moved(g: Flow, x: u32, above: set<u32>, before: set<u32>, after: set<u32>) {
    if x in before then
      forall w :: w in after <==> w in above || (w in before && Height(g, w) >= Height(g, x))
    else
      after == before
  }

  lemma MovedBelow(g: Flow, x: u32, above: set<u32>, before: set<u32>, after: set<u32>, n: u32)
    requires Moved(g, x, above, before, after) && n != x
    requires x in before ==> Height(g, n) >= Height(g, x)
    ensures Moved(g, x, above, {n} + before, {n} + after)
  {
  }

  lemma MovedAt(g: Flow, x: u32, above: set<u32>, before: set<u32>)
    requires forall m | m in before && m != x :: Height(g, m) < Height(g, x)
    requires x in before
    ensures Moved(g, x, above, before, {x} + above)
  {
  }

  lemma MovedNothing(g: Flow, x: u32, above: set<u32>, before: set<u32>)
    requires x !in before
    ensures Moved(g, x, above, before, before)
  {
  }

  lemma Unmoved(g: Flow, x: u32, above: set<u32>, before: set<u32>, after: set<u32>)
    requires Moved(g, x, above, before, after) && x !in before
    ensures after == before
  {
  }

  lemma {:induction false} ChainAfter(g: Flow, t: Tree, x: u32, z: u32, n: u32)
    requires Placed(g, t, x, z) && n in t
    ensures Moved(g, x, Chain(g, t, z), Chain(g, t, n), Chain(g, t[x := z], n))
    decreases Height(g, n)
  {
    hide Moved;
    if n == x {
      ChainAfter(g, t, x, z, z);
      Unmoved(g, x, Chain(g, t, z), Chain(g, t, z), Chain(g, t[x := z], z));
      MovedAt(g, x, Chain(g, t, z), Chain(g, t, x));
    } else if n == g.entry {
      MovedNothing(g, x, Chain(g, t, z), Chain(g, t, n));
    } else {
      ChainAfter(g, t, x, z, t[n]);
      MovedBelow(g, x, Chain(g, t, z), Chain(g, t, t[n]), Chain(g, t[x := z], t[n]), n);
    }
  }

  lemma ChainHeights(g: Flow, t: Tree, n: u32)
    requires Rooted(g, t) && n in t
    ensures forall m | m in Chain(g, t, n) :: Height(g, m) <= Height(g, n)
  {
  }

  lemma ChainShrinks(g: Flow, t: Tree, x: u32, z: u32, n: u32)
    requires Placed(g, t, x, z) && n in t
    ensures Chain(g, t[x := z], n) <= Chain(g, t, n)
  {
    ChainAfter(g, t, x, z, n);
    if x in Chain(g, t, n) {
      ChainNested(g, t, n, x);
      ChainNested(g, t, x, z);
    }
  }

  /** The updated node itself: its new chain is what its predecessors share. */
  lemma ChainStep(g: Flow, t: Tree, n: u32)
    requires Rooted(g, t) && n in t && n != g.entry
    ensures t[n] in t && Chain(g, t, n) == {n} + Chain(g, t, t[n])
  {
  }

  lemma PlacedFacts(g: Flow, t: Tree, x: u32, z: u32)
    requires Placed(g, t, x, z)
    ensures Rooted(g, t) && Rooted(g, t[x := z]) && x != g.entry && z in t && Height(g, z) < Height(g, x)
  {
    hide Rooted, Chain;
  }

  lemma UpdatedChain(g: Flow, t: Tree, x: u32, z: u32)
    requires Placed(g, t, x, z)
    ensures Chain(g, t[x := z], z) == Chain(g, t, z)
    ensures Chain(g, t[x := z], x) == {x} + Chain(g, t, z)
  {
    hide *;
    PlacedFacts(g, t, x, z);
    ChainHeights(g, t, z);
    ChainStep(g, t[x := z], x);
    ChainAfter(g, t, x, z, z);
    Unmoved(g, x, Chain(g, t, z), Chain(g, t, z), Chain(g, t[x := z], z));
  }

  lemma UpwardAfterOther(g: Flow, t: Tree, i: nat, known: nat, x: u32, z: u32, n: u32, y: u32)
    requires Update(g, t, i, known, x, z) && n in t && n != x && n != g.entry
    requires Rooted(g, t[x := z]) && y in Common(g, t[x := z], n)
    ensures y in Chain(g, t[x := z], t[n])
  {
    var _ := UpdateForward(g, t, i, known, x, z);
    var f :| IsForward(g, f, n);
    assert f in g.nodes;
    forall p | p in Targets(g.preds, n) && p in t
      ensures y in Chain(g, t, p)
    {
      ChainShrinks(g, t, x, z, p);
    }
    assert y in Chain(g, t, f);
    assert y in Common(g, t, n);
    ChainAfter(g, t, x, z, t[n]);
    ChainAfter(g, t, x, z, f);
    if x in Chain(g, t, t[n]) {
      assert ForwardQuestion(g, t, i, n, f, x);
    }
  }

  lemma UpwardAfter(g: Flow, t: Tree, i: nat, known: nat, x: u32, z: u32)
    requires Update(g, t, i, known, x, z)
    ensures Rooted(g, t[x := z]) && Upward(g, t[x := z])
  {
    var f := UpdateForward(g, t, i, known, x, z);
    var u := t[x := z];
    forall n, y | n in u && n != g.entry && y in Common(g, u, n)
      ensures y in Chain(g, u, u[n])
    {
      if n == x {
        UpdatedChain(g, t, x, z);
        forall p | p in Targets(g.preds, x) && p in t
          ensures y in Chain(g, t, p)
        {
          ChainShrinks(g, t, x, z, p);
        }
        assert y in Chain(g, t, f);
      } else {
        UpwardAfterOther(g, t, i, known, x, z, n, y);
      }
    }
  }

  /** `w` stayed in the chain of `n`'s parent, so it stayed in the chain of `n`'s forward predecessor. */
  lemma StaysForward(g: Flow, x: u32, n: u32, f: u32, w: u32, above: set<u32>, parent: set<u32>,
                     parentAfter: set<u32>, forward: set<u32>, forwardAfter: set<u32>)
    requires Moved(g, x, above, parent, parentAfter) && Moved(g, x, above, forward, forwardAfter)
    requires Height(g, f) < Height(g, n) && Height(g, n) != Height(g, x)
    requires forall m | m in above :: Height(g, m) < Height(g, x)
    requires forall m | m in forward :: Height(g, m) <= Height(g, f)
    requires forall m | m in parent :: Height(g, m) < Height(g, n)
    requires w in parentAfter
    requires Height(g, n) < Height(g, x) || Height(g, w) > Height(g, x)
    requires w in parent ==> w in forward
    ensures w in forwardAfter
  {
  }

  lemma ForwardAfterOther(g: Flow, t: Tree, i: nat, x: u32, z: u32, n: u32, f: u32, w: u32)
    requires Placed(g, t, x, z) && Height(g, x) == i && ForwardKept(g, t, i)
    requires n in t && n != x && n != g.entry && IsForward(g, f, n) && f in t && t[n] in t
    requires w in Chain(g, t[x := z], t[n])
    requires Height(g, n) != i && (Height(g, n) < i + 1 || Height(g, w) >= i + 1)
    ensures w in Chain(g, t[x := z], f)
  {
    ChainAfter(g, t, x, z, t[n]);
    ChainAfter(g, t, x, z, f);
    ChainHeights(g, t, z);
    ChainHeights(g, t, f);
    ChainHeights(g, t, t[n]);
    assert w in Chain(g, t, t[n]) ==> ForwardQuestion(g, t, i, n, f, w);
    StaysForward(g, x, n, f, w, Chain(g, t, z), Chain(g, t, t[n]), Chain(g, t[x := z], t[n]),
                 Chain(g, t, f), Chain(g, t[x := z], f));
  }

  lemma ForwardAfterUpdated(g: Flow, t: Tree, i: nat, known: nat, x: u32, z: u32, f: u32, w: u32)
    requires Update(g, t, i, known, x, z) && IsForward(g, f, x) && f in t
    requires Rooted(g, t[x := z]) && w in Chain(g, t[x := z], z)
    ensures w in Chain(g, t[x := z], f)
  {
    var _ := UpdateForward(g, t, i, known, x, z);
    hide Upward, ForwardKept, Climbing, Sound, Linked;
    UpdatedChain(g, t, x, z);
    ChainAfter(g, t, x, z, f);
    ChainHeights(g, t, f);
    assert x !in Chain(g, t, f);
  }

  lemma ForwardResolved(g: Flow, t: Tree, known: nat, n: u32, f: u32)
    requires Ranked(g) && ResolvedPrefix(g, t, known) && n in t && IsForward(g, f, n)
    ensures f in t
  {
  }

  lemma ForwardAfter(g: Flow, t: Tree, i: nat, known: nat, x: u32, z: u32)
    requires Update(g, t, i, known, x, z)
    ensures Rooted(g, t[x := z]) && ForwardKept(g, t[x := z], i + 1)
  {
    var _ := UpdateForward(g, t, i, known, x, z);
    var u := t[x := z];
    var next := i + 1;
    forall n, f, w | ForwardQuestion(g, u, next, n, f, w)
      ensures w in Chain(g, u, f)
    {
      if n == x {
        assert f in t;
        ForwardAfterUpdated(g, t, i, known, x, z, f, w);
      } else {
        ForwardResolved(g, t, known, n, f);
        DifferentHeights(g, n, x);
        ForwardAfterOther(g, t, i, x, z, n, f, w);
      }
    }
  }

  lemma ClimbingAfter(g: Flow, t: Tree, i: nat, known: nat, x: u32, z: u32)
    requires Update(g, t, i, known, x, z)
    ensures Climbing(g, t[x := z])
  {
    ParentClimbs(g, t, i, known, x, z);
    hide Update;
    ClimbingSet(g, t, x, z);
  }

  lemma ParentClimbs(g: Flow, t: Tree, i: nat, known: nat, x: u32, z: u32)
    requires Update(g, t, i, known, x, z)
    ensures Climbing(g, t) && ClimbsTo(g, z, x)
  {
    var f := UpdateForward(g, t, i, known, x, z);
    hide ForwardKept, Climbing, Sound, Linked, Chain;
    ChainClimbs(g, t, f, z);
    ClimbEdge(g, z, f, x);
  }

  lemma ClimbingSet(g: Flow, t: Tree, x: u32, z: u32)
    requires Climbing(g, t) && ClimbsTo(g, z, x)
    ensures Climbing(g, t[x := z])
  {
    hide ClimbsTo;
  }

  lemma SoundAtUpdated(g: Flow, t: Tree, i: nat, known: nat, x: u32, z: u32, y: u32)
    requires Update(g, t, i, known, x, z) && Dominates(g, y, x) && y != x
    ensures y in Common(g, t, x)
  {
    var f := UpdateForward(g, t, i, known, x, z);
    forall q | q in Targets(g.preds, x) && q in t
      ensures y in Chain(g, t, q)
    {
      DominatesPredecessor(g, y, q, x);
    }
    assert y in Chain(g, t, f);
  }

  lemma SoundAfter(g: Flow, t: Tree, i: nat, known: nat, x: u32, z: u32)
    requires Update(g, t, i, known, x, z)
    ensures Rooted(g, t[x := z]) && Sound(g, t[x := z])
  {
    var _ := UpdateForward(g, t, i, known, x, z);
    UpdatedChain(g, t, x, z);
    var u := t[x := z];
    forall n, y | n in u && Dominates(g, y, n)
      ensures y in Chain(g, u, n)
    {
      if n == x {
        if y != x {
          SoundAtUpdated(g, t, i, known, x, z, y);
        }
      } else {
        ChainAfter(g, t, x, z, n);
        if y !in Chain(g, u, n) {
          LostNotDominating(g, t, i, known, x, z, n, y);
        }
      }
    }
  }

  lemma LostNotDominating(g: Flow, t: Tree, i: nat, known: nat, x: u32, z: u32, n: u32, y: u32)
    requires Update(g, t, i, known, x, z) && n in t && Rooted(g, t[x := z])
    requires y in Chain(g, t, n) && y !in Chain(g, t[x := z], n)
    ensures !Dominates(g, y, n)
  {
    var _ := UpdateForward(g, t, i, known, x, z);
    ChainAfter(g, t, x, z, n);
    if Dominates(g, y, x) {
      SoundAtUpdated(g, t, i, known, x, z, y);
    }
    ChainClimbs(g, t, n, x);
    AvoidThrough(g, y, x, n);
  }

  ghost function Later(known: nat, i: nat): nat {
    if known < i then i else known
  }

  lemma ResolvedAfter(g: Flow, t: Tree, i: nat, known: nat, x: u32, z: u32)
    requires Ranked(g) && ResolvedPrefix(g, t, known)
    requires 1 <= i < |g.order| && i <= known && x == g.order[i]
    ensures ResolvedPrefix(g, t[x := z], Later(known, i + 1))
  {
    PlaceInOrder(g, i);
    forall n | n in g.nodes && Height(g, n) == i
      ensures n == x
    {
    }
  }

  /** One update keeps every invariant of the pass and moves the pass one node on. */
  lemma UpdateKeeps(g: Flow, t: Tree, i: nat, known: nat, x: u32, z: u32)
    requires Update(g, t, i, known, x, z)
    ensures PassInvariant(g, t[x := z], i + 1, Later(known, i + 1))
  {
    hide Upward, ForwardKept, Climbing, Sound, ResolvedPrefix, Ranked, Linked, Rooted;
    UpwardAfter(g, t, i, known, x, z);
    ForwardAfter(g, t, i, known, x, z);
    ClimbingAfter(g, t, i, known, x, z);
    SoundAfter(g, t, i, known, x, z);
    ResolvedAfter(g, t, i, known, x, z);
  }

  // ---------------------------------------------------------------- termination measure

  ghost function NodeWeight(g: Flow, t: Tree, n: u32): nat {
    if n in t then Height(g, t[n]) else |g.order|
  }

  /** How far down the order the parents of the first `k` nodes sit; unresolved nodes count most. */
  ghost function Weight(g: Flow, t: Tree, k: nat): nat
    requires k <= |g.order|
  {
    if k == 0 then 0 else Weight(g, t, k - 1) + NodeWeight(g, t, g.order[k - 1])
  }

  ghost function TotalWeight(g: Flow, t: Tree): nat {
    Weight(g, t, |g.order|)
  }

  lemma {:induction false} WeightDrops(g: Flow, t: Tree, x: u32, z: u32, i: nat, k: nat)
    requires Ranked(g) && k <= |g.order| && i < |g.order| && x == g.order[i]
    requires NodeWeight(g, t[x := z], x) < NodeWeight(g, t, x)
    ensures if i < k then Weight(g, t[x := z], k) < Weight(g, t, k) else Weight(g, t[x := z], k) == Weight(g, t, k)
  {
    if k > 0 {
      WeightDrops(g, t, x, z, i, k - 1);
      assert g.order[k - 1] == x <==> k - 1 == i;
    }
  }

  lemma UpdateWeighs(g: Flow, t: Tree, i: nat, known: nat, x: u32, z: u32)
    requires Update(g, t, i, known, x, z) && (x in t ==> t[x] != z)
    ensures TotalWeight(g, t[x := z]) < TotalWeight(g, t)
  {
    var _ := UpdateForward(g, t, i, known, x, z);
    UpdateRanked(g, t, i, known, x, z);
    hide Update, Placed;
    LowerParent(g, t, i, x, z);
    WeightDrops(g, t, x, z, i, |g.order|);
  }

  lemma UpdateRanked(g: Flow, t: Tree, i: nat, known: nat, x: u32, z: u32)
    requires Update(g, t, i, known, x, z)
    ensures Ranked(g) && i < |g.order| && x == g.order[i]
  {
    hide ForwardKept, Climbing, Sound, Linked, Chain;
  }

  lemma LowerParent(g: Flow, t: Tree, i: nat, x: u32, z: u32)
    requires Placed(g, t, x, z) && (x in t ==> t[x] != z) && Height(g, x) == i < |g.order|
    ensures NodeWeight(g, t[x := z], x) < NodeWeight(g, t, x)
  {
    hide Chain;
  }

  // ---------------------------------------------------------------- the computation

  /** What the resolved members of `list[..k]` have in common. */
  ghost function CommonOf(g: Flow, t: Tree, list: seq<u32>, k: nat): set<u32>
    requires Rooted(g, t) && k <= |list|
  {
    set y | y in t && forall j | 0 <= j < k && list[j] in t :: y in Chain(g, t, list[j])
  }

  lemma CommonOfNext(g: Flow, t: Tree, list: seq<u32>, k: nat)
    requires Rooted(g, t) && k < |list|
    ensures list[k] in t ==> CommonOf(g, t, list, k + 1) == CommonOf(g, t, list, k) * Chain(g, t, list[k])
    ensures list[k] !in t ==> CommonOf(g, t, list, k + 1) == CommonOf(g, t, list, k)
    ensures list[k] !in t && NoneResolved(t, list, k) ==> NoneResolved(t, list, k + 1)
  {
    hide Rooted, Chain;
    forall y: u32
      ensures y in CommonOf(g, t, list, k + 1)
              <==> y in CommonOf(g, t, list, k) && (list[k] in t ==> y in Chain(g, t, list[k]))
    {
      CommonOfAt(g, t, list, k, y);
    }
  }

  lemma CommonOfAt(g: Flow, t: Tree, list: seq<u32>, k: nat, y: u32)
    requires Rooted(g, t) && k < |list|
    ensures y in CommonOf(g, t, list, k + 1)
            <==> y in CommonOf(g, t, list, k) && (list[k] in t ==> y in Chain(g, t, list[k]))
  {
    hide Rooted, Chain;
  }

  ghost predicate NoneResolved(t: Tree, list: seq<u32>, k: nat)
    requires k <= |list|
  {
    forall j | 0 <= j < k :: list[j] !in t
  }

  lemma CommonOfNone(g: Flow, t: Tree, list: seq<u32>, k: nat)
    requires Rooted(g, t) && k < |list| && list[k] in t
    requires NoneResolved(t, list, k)
    ensures CommonOf(g, t, list, k + 1) == Chain(g, t, list[k])
  {
  }

  lemma CommonOfAll(g: Flow, t: Tree, n: u32)
    requires Rooted(g, t)
    ensures CommonOf(g, t, Ascending(Targets(g.preds, n)), |Ascending(Targets(g.preds, n))|) == Common(g, t, n)
  {
    var list := Ascending(Targets(g.preds, n));
    forall y | y in CommonOf(g, t, list, |list|)
      ensures y in Common(g, t, n)
    {
      forall p | p in Targets(g.preds, n) && p in t
        ensures y in Chain(g, t, p)
      {
        assert p in list;
        var j :| 0 <= j < |list| && list[j] == p;
      }
    }
  }

  lemma HasResolved(g: Flow, t: Tree, i: nat, known: nat)
    requires PassInvariant(g, t, i, known) && 1 <= i < |g.order| && i <= known
    ensures var list := Ascending(Targets(g.preds, g.order[i]));
            NoneResolved(t, list, 0) && !NoneResolved(t, list, |list|)
  {
    PlaceInOrder(g, i);
    var f := ForwardOf(g, g.order[i]);
    var list := Ascending(Targets(g.preds, g.order[i]));
    assert f in list && f in t;
    var j :| 0 <= j < |list| && list[j] == f;
  }

  /**
   * Folds the resolved predecessors of the node at index `i`. One always exists, because the order puts
   * some predecessor before the node.
   */
  method MeetPredecessors(g: Flow, immediate: Tree, i: nat, ghost known: nat) returns (next: u32)
    requires PassInvariant(g, immediate, i, known) && 1 <= i < |g.order| && i <= known
    ensures Update(g, immediate, i, known, g.order[i], next)
  {
    hide *;
    RootedPass(g, immediate, i, known);
    HasResolved(g, immediate, i, known);
    CommonOfAll(g, immediate, g.order[i]);
    var candidates := Ascending(Targets(g.preds, g.order[i]));
    var meet: Option<u32> := None;
    for k := 0 to |candidates|
      invariant meet.None? ==> NoneResolved(immediate, candidates, k)
      invariant meet.Some? ==> meet.value in immediate
                               && Chain(g, immediate, meet.value) == CommonOf(g, immediate, candidates, k)
    {
      var candidate := candidates[k];
      CommonOfNext(g, immediate, candidates, k);
      if candidate in immediate {
        if meet.None? {
          CommonOfNone(g, immediate, candidates, k);
          meet := Some(candidate);
        } else {
          var folded := IntersectDominators(g, immediate, meet.value, candidate);
          meet := Some(folded);
        }
      }
    }
    next := meet.value;
    MeetIsUpdate(g, immediate, i, known, next);
  }

  lemma MeetIsUpdate(g: Flow, t: Tree, i: nat, known: nat, z: u32)
    requires PassInvariant(g, t, i, known) && 1 <= i < |g.order| && i <= known
    requires Rooted(g, t) && z in t && Chain(g, t, z) == Common(g, t, g.order[i])
    ensures Update(g, t, i, known, g.order[i], z)
  {
    hide PassInvariant;
  }

  ghost predicate SettledTo(g: Flow, t: Tree, i: nat)
    requires i <= |g.order|
  {
    Rooted(g, t) && forall k | 1 <= k < i ::
      g.order[k] in t && t[g.order[k]] in t && Chain(g, t, t[g.order[k]]) == Common(g, t, g.order[k])
  }

  ghost predicate Settled(g: Flow, t: Tree) {
    SettledTo(g, t, |g.order|)
  }

  lemma SettledAll(g: Flow, t: Tree)
    requires SettledTo(g, t, |g.order|)
    ensures Settled(g, t)
  {
  }

  lemma SettledMore(g: Flow, t: Tree, i: nat, known: nat, z: u32)
    requires 1 <= i < |g.order| && Update(g, t, i, known, g.order[i], z) && SettledTo(g, t, i)
    requires g.order[i] in t && t[g.order[i]] == z
    ensures SettledTo(g, t, i + 1)
  {
    hide PassInvariant;
  }

  lemma NextPass(g: Flow, t: Tree, known: nat)
    requires PassInvariant(g, t, |g.order|, known) && |g.order| <= known
    ensures PassInvariant(g, t, 1, known)
    ensures t.Keys == g.nodes
  {
    forall n, f, x | ForwardQuestion(g, t, 1, n, f, x)
      ensures x in Chain(g, t, f)
    {
      assert ForwardQuestion(g, t, |g.order|, n, f, x);
    }
  }

  /** One pass over the order; the entry, alone at index zero, is skipped. */
  method Pass(g: Flow, start: Tree, ghost resolved: nat)
    returns (immediate: Tree, changed: bool, ghost known: nat)
    requires PassInvariant(g, start, 1, resolved) && resolved <= |g.order|
    ensures PassInvariant(g, immediate, 1, known) && known <= |g.order| && immediate.Keys == g.nodes
    ensures changed ==> TotalWeight(g, immediate) < TotalWeight(g, start)
    ensures !changed ==> immediate == start && Settled(g, immediate)
  {
    immediate, changed, known := start, false, resolved;
    hide *;
    PassStart(g, start, resolved);
    for i := 1 to |g.order|
      invariant PassInvariant(g, immediate, i, known) && i <= known <= |g.order|
      invariant Rooted(g, immediate)
      invariant changed ==> TotalWeight(g, immediate) < TotalWeight(g, start)
      invariant !changed ==> immediate == start && SettledTo(g, immediate, i)
    {
      var pc := g.order[i];
      var next := MeetPredecessors(g, immediate, i, known);
      UpdateKeeps(g, immediate, i, known, pc, next);
      RootedPass(g, immediate[pc := next], i + 1, Later(known, i + 1));
      LaterIs(known, i + 1);
      if pc !in immediate || immediate[pc] != next {
        UpdateWeighs(g, immediate, i, known, pc, next);
        immediate := immediate[pc := next];
        changed := true;
      } else {
        assert immediate[pc := next] == immediate;
        if !changed {
          SettledMore(g, immediate, i, known, next);
        }
      }
      known := Later(known, i + 1);
    }
    NextPass(g, immediate, known);
    if !changed {
      SettledAll(g, immediate);
    }
  }

  lemma LaterIs(known: nat, i: nat)
    ensures Later(known, i) == if known < i then i else known
  {
  }

  lemma RootedPass(g: Flow, t: Tree, i: nat, known: nat)
    requires PassInvariant(g, t, i, known)
    ensures Ranked(g) && Rooted(g, t)
  {
  }

  lemma PassStart(g: Flow, t: Tree, known: nat)
    requires PassInvariant(g, t, 1, known)
    ensures 1 <= |g.order| && 1 <= known && Rooted(g, t) && SettledTo(g, t, 1)
  {
  }

  lemma Initially(g: Flow)
    requires WellFormed(g) && g.entry in g.nodes
    ensures PassInvariant(g, map[g.entry := g.entry], 1, 1) && 1 <= |g.order|
  {
    var t := map[g.entry := g.entry];
    assert g.positions[g.order[0]] == 0;
    assert Joins(g.succ, g.nodes, g.entry, g.entry, [g.entry]);
  }

  lemma LastEdge(g: Flow, n: u32, p: seq<u32>)
    requires Joins(g.succ, g.nodes, g.entry, n, p) && |p| > 1
    ensures Joins(g.succ, g.nodes, g.entry, p[|p| - 2], p[..|p| - 1])
    ensures p[|p| - 2] in g.nodes && n in g.nodes && n in Targets(g.succ, p[|p| - 2])
  {
    assert p[|p| - 1] in Targets(g.succ, p[|p| - 2]);
  }

  lemma CommonAbove(g: Flow, t: Tree, n: u32, d: u32, q: u32)
    requires Rooted(g, t) && d in Common(g, t, n) && q in Targets(g.preds, n) && q in t
    ensures d in Chain(g, t, q)
  {
  }

  lemma SettledAbove(g: Flow, t: Tree, n: u32, d: u32, q: u32)
    requires WellFormed(g) && Rooted(g, t) && SettledTo(g, t, |g.order|) && t.Keys == g.nodes
    requires n in t && n != g.entry && d in Chain(g, t, n) && d != n
    requires q in g.nodes && n in Targets(g.succ, q)
    ensures q in t && d in Chain(g, t, q)
  {
    var k := g.positions[n];
    assert g.order[k] == n && k >= 1;
    assert Chain(g, t, t[n]) == Common(g, t, n);
    assert q in Targets(g.preds, n);
    assert d in Chain(g, t, t[n]);
    hide *;
    CommonAbove(g, t, n, d, q);
  }

  /** Settled chains are on every path. */
  lemma {:induction false} ChainOnPath(g: Flow, t: Tree, n: u32, d: u32, p: seq<u32>)
    requires WellFormed(g) && Rooted(g, t) && SettledTo(g, t, |g.order|) && t.Keys == g.nodes
    requires n in t && d in Chain(g, t, n) && Joins(g.succ, g.nodes, g.entry, n, p)
    ensures d in p
    decreases |p|
  {
    if d == n {
      assert p[|p| - 1] == n;
    } else {
      assert n != g.entry && p[0] == g.entry && p[|p| - 1] == n;
      hide *;
      LastEdge(g, n, p);
      SettledAbove(g, t, n, d, p[|p| - 2]);
      ChainOnPath(g, t, p[|p| - 2], d, p[..|p| - 1]);
    }
  }

  lemma ChainIsDominators(g: Flow, t: Tree, known: nat)
    requires PassInvariant(g, t, 1, known) && t.Keys == g.nodes && Settled(g, t)
    ensures Rooted(g, t) && forall n, d | n in g.nodes :: d in Chain(g, t, n) <==> Dominates(g, d, n)
  {
    forall n, d | n in g.nodes && d in Chain(g, t, n)
      ensures Dominates(g, d, n)
    {
      forall p | Joins(g.succ, g.nodes, g.entry, n, p)
        ensures d in p
      {
        ChainOnPath(g, t, n, d, p);
      }
    }
  }

  /** The fixed point terminates, resolves every node, and every chain is exactly a dominator set. */
  method ImmediateDominators(g: Flow) returns (immediate: Tree)
    requires WellFormed(g) && g.entry in g.nodes
    ensures Rooted(g, immediate) && immediate.Keys == g.nodes
    ensures forall n, d | n in g.nodes :: d in Chain(g, immediate, n) <==> Dominates(g, d, n)
  {
    hide *;
    immediate := map[g.entry := g.entry];
    ghost var known: nat := 1;
    Initially(g);
    var changed := true;
    while changed
      invariant PassInvariant(g, immediate, 1, known) && 1 <= |g.order| && known <= |g.order|
      invariant !changed ==> Rooted(g, immediate) && immediate.Keys == g.nodes
      invariant !changed ==> Settled(g, immediate)
      decreases TotalWeight(g, immediate), changed
    {
      immediate, changed, known := Pass(g, immediate, known);
      RootedPass(g, immediate, 1, known);
    }
    ChainIsDominators(g, immediate, known);
  }
}
