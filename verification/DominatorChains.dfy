/**
 * The immediate-dominator map seen as a tree: a node's chain is the node and its ancestors up to the
 * entry. Every step of the fixed point is described by what it does to the chains.
 */
module DominatorChains {
  import opened Words
  import opened ControlGraph

  type Tree = map<u32, u32>

  /** The graph a dominator computation runs on, with its node numbering. */
  datatype Flow = Flow(entry: u32, nodes: set<u32>, succ: Adjacency, preds: Adjacency,
                       order: seq<u32>, positions: map<u32, nat>)

  ghost predicate Ranked(g: Flow) {
    && g.positions.Keys == g.nodes
    && g.order != [] && g.order[0] == g.entry
    && (forall i | 0 <= i < |g.order| :: g.order[i] in g.nodes && g.positions[g.order[i]] == i)
    && (forall n | n in g.nodes :: g.positions[n] < |g.order| && g.order[g.positions[n]] == n)
  }

  ghost predicate Linked(g: Flow) {
    && (forall v, u | v in g.nodes && u in Targets(g.preds, v) :: u in g.nodes && v in Targets(g.succ, u))
    && (forall v, u | v in g.nodes && u in g.nodes && v in Targets(g.succ, u) :: u in Targets(g.preds, v))
  }

  /** An edge into `n` from a node that comes earlier in the order. */
  ghost predicate IsForward(g: Flow, f: u32, n: u32) {
    f in Targets(g.preds, n) && f in g.positions && n in g.positions && g.positions[f] < g.positions[n]
  }

  ghost predicate WellFormed(g: Flow) {
    && Ranked(g)
    && Linked(g)
    && (forall n | n in g.nodes && n != g.entry :: exists f :: IsForward(g, f, n))
  }

  ghost predicate Rooted(g: Flow, t: Tree) {
    && g.entry in t && t[g.entry] == g.entry
    && t.Keys <= g.positions.Keys
    && (forall n {:trigger t[n]} | n in t :: t[n] in t)
    && (forall n {:trigger t[n]} | n in t && n != g.entry :: g.positions[t[n]] < g.positions[n])
  }

  ghost function Chain(g: Flow, t: Tree, n: u32): (c: set<u32>)
    requires Rooted(g, t) && n in t
    ensures n in c && g.entry in c && c <= t.Keys
    ensures forall m | m in c && m != n :: m in g.positions && g.positions[m] < g.positions[n]
    decreases g.positions[n]
  {
    if n == g.entry then {n} else {n} + Chain(g, t, t[n])
  }

  /** Two members of a chain lie on one line: the one with the larger position is below the other. */
  lemma {:induction false} ChainNested(g: Flow, t: Tree, n: u32, m: u32)
    requires Ranked(g) && Rooted(g, t) && n in t && m in Chain(g, t, n)
    ensures Chain(g, t, m) <= Chain(g, t, n)
    ensures forall w | w in Chain(g, t, n) && g.positions[w] <= g.positions[m] :: w in Chain(g, t, m)
    decreases g.positions[n]
  {
    if n != m {
      ChainNested(g, t, t[n], m);
    }
  }

  /** The candidate dominators of `n`: what all its resolved predecessors have in common. */
  ghost function Common(g: Flow, t: Tree, n: u32): set<u32>
    requires Rooted(g, t)
  {
    set y | y in t && forall p | p in Targets(g.preds, n) && p in t :: y in Chain(g, t, p)
  }

  ghost function Shared(g: Flow, t: Tree, l: u32, r: u32): set<u32>
    requires Rooted(g, t) && l in t && r in t
  {
    Chain(g, t, l) * Chain(g, t, r)
  }

  ghost predicate Resolved(g: Flow, t: Tree, n: u32)
    ensures Resolved(g, t, n) ==> n in t && n in g.positions
  {
    n in t && n in g.positions
  }

  lemma DropOutsider(a: set<u32>, x: u32, b: set<u32>)
    requires x !in b
    ensures ({x} + a) * b == a * b && b * ({x} + a) == b * a
  {
  }

  /** The search stands at resolved nodes `l` and `r` that share what `left` and `right` share. */
  ghost predicate Climbing(g: Flow, t: Tree, l: u32, r: u32, left: u32, right: u32)
    requires Rooted(g, t)
    ensures Climbing(g, t, l, r, left, right) ==> Resolved(g, t, l) && Resolved(g, t, r)
  {
    && Resolved(g, t, l) && Resolved(g, t, r) && Resolved(g, t, left) && Resolved(g, t, right)
    && Shared(g, t, l, r) == Shared(g, t, left, right)
  }

  /** A node below `r` is not above `r`, so stepping from it to its parent loses nothing shared. */
  lemma StepUp(g: Flow, t: Tree, l: u32, r: u32)
    requires Ranked(g) && Rooted(g, t) && l in t && r in t && g.positions[l] > g.positions[r]
    ensures l in t && Resolved(g, t, t[l]) && Height(g, t[l]) < Height(g, l)
    ensures Shared(g, t, t[l], r) == Shared(g, t, l, r) && Shared(g, t, r, t[l]) == Shared(g, t, r, l)
  {
    DropOutsider(Chain(g, t, t[l]), l, Chain(g, t, r));
  }

  ghost function Height(g: Flow, n: u32): (h: nat)
    ensures n in g.positions ==> h == g.positions[n]
  {
    if n in g.positions then g.positions[n] else 0
  }

  lemma DifferentHeights(g: Flow, l: u32, r: u32)
    requires Ranked(g) && l in g.positions && r in g.positions && l != r
    ensures g.positions[l] != g.positions[r] && Height(g, l) != Height(g, r)
  {
  }

  lemma ClimbStep(g: Flow, t: Tree, l: u32, r: u32, left: u32, right: u32)
    requires Ranked(g) && Rooted(g, t) && Climbing(g, t, l, r, left, right)
    ensures g.positions[l] > g.positions[r] ==> Climbing(g, t, t[l], r, left, right) && Height(g, t[l]) < Height(g, l)
    ensures g.positions[r] > g.positions[l] ==> Climbing(g, t, l, t[r], left, right) && Height(g, t[r]) < Height(g, r)
  {
    if g.positions[l] > g.positions[r] {
      StepUp(g, t, l, r);
    } else if g.positions[r] > g.positions[l] {
      StepUp(g, t, r, l);
    }
  }

  lemma ClimbStart(g: Flow, t: Tree, left: u32, right: u32)
    requires Rooted(g, t) && left in t && right in t
    ensures Climbing(g, t, left, right, left, right)
  {
  }

  lemma ClimbEnd(g: Flow, t: Tree, meet: u32, left: u32, right: u32)
    requires Rooted(g, t) && left in t && right in t && Climbing(g, t, meet, meet, left, right)
    ensures meet in t && Chain(g, t, meet) == Chain(g, t, left) * Chain(g, t, right)
  {
  }

  /** Walks both nodes up until they meet: the meet's chain is the intersection of the chains. */
  method IntersectDominators(g: Flow, immediate: Tree, left: u32, right: u32) returns (meet: u32)
    requires Ranked(g) && Rooted(g, immediate) && left in immediate && right in immediate
    ensures meet in immediate
    ensures Chain(g, immediate, meet) == Chain(g, immediate, left) * Chain(g, immediate, right)
  {
    hide *;
    var l, r := left, right;
    ClimbStart(g, immediate, l, r);
    while l != r
      invariant Climbing(g, immediate, l, r, left, right)
      decreases Height(g, l) + Height(g, r)
    {
      DifferentHeights(g, l, r);
      ghost var startL, startR := l, r;
      while g.positions[l] > g.positions[r]
        invariant Climbing(g, immediate, l, r, left, right)
        invariant l == startL || Height(g, l) < Height(g, startL)
        decreases Height(g, l)
      {
        ClimbStep(g, immediate, l, r, left, right);
        l := immediate[l];
      }
      while g.positions[r] > g.positions[l]
        invariant Climbing(g, immediate, l, r, left, right)
        invariant r == startR || Height(g, r) < Height(g, startR)
        decreases Height(g, r)
      {
        ClimbStep(g, immediate, l, r, left, right);
        r := immediate[r];
      }
    }
    meet := l;
    ClimbEnd(g, immediate, meet, left, right);
  }
}
