/**
 * Depth-first interval numbering of the dominator tree: a node's interval contains exactly the
 * intervals of the nodes below it, so containment answers ancestry without walking the tree.
 */
module IntervalNumbering {
  import opened Words
  import opened ControlGraph
  import opened PostOrder
  import opened DominatorChains

  /** A tree as its parent map together with every node's chain up to the entry. */
  datatype Ancestry = Ancestry(entry: u32, parent: Tree, up: map<u32, set<u32>>)

  ghost predicate WellFounded(t: Ancestry) {
    && t.entry in t.parent && t.parent[t.entry] == t.entry && t.up.Keys == t.parent.Keys
    && (forall m | m in t.up :: m in t.up[m])
    && (forall m, a | m in t.up && a in t.up[m] :: Nested(t, m, a))
    && (forall m | m in t.parent && m != t.entry :: HangsFromParent(t, m))
  }

  /** An ancestor's chain is part of the chain, and ancestry has no cycles. */
  ghost predicate Nested(t: Ancestry, m: u32, a: u32)
    requires m in t.up
  {
    a in t.up && (a == m || m !in t.up[a]) && t.up[a] <= t.up[m]
  }

  ghost predicate HangsFromParent(t: Ancestry, m: u32)
    requires m in t.parent
  {
    && m in t.up && t.parent[m] in t.parent && t.parent[m] in t.up && t.parent[m] != m
    && t.up[m] == {m} + t.up[t.parent[m]]
  }

  /** The numbering in progress; `at` records the stack index of every node that has a frame. */
  datatype Walk = Walk(stack: seq<Frame>, starts: map<u32, nat>, intervals: map<u32, (nat, nat)>,
                       clock: nat, at: map<u32, nat>)

  ghost predicate Framed(t: Ancestry, w: Walk) {
    && w.starts.Keys <= t.up.Keys
    && (forall k | 0 <= k < |w.stack| :: w.stack[k].node in w.at && w.at[w.stack[k].node] == k)
    && (forall m | m in w.at :: m in t.up && w.at[m] < |w.stack| && w.stack[w.at[m]].node == m)
    && (forall m | m in w.at :: (w.stack[w.at[m]].exiting <==> m in w.starts) && m !in w.intervals)
    && (forall m | m in w.starts :: m in w.at || m in w.intervals)
    && (forall m | m in w.intervals :: m in w.starts && w.intervals[m].0 == w.starts[m])
  }

  /** Ancestors of a node with a frame are open beneath it. */
  ghost predicate AncestorsOpen(t: Ancestry, w: Walk) {
    forall m, a | m in w.at && m in t.up && a in t.up[m] && a != m :: a in w.at && a in w.starts && w.at[a] < w.at[m]
  }

  /** Only ancestors of a node with a frame are open beneath it. */
  ghost predicate OpenAreAncestors(t: Ancestry, w: Walk) {
    forall m, o | m in w.at && m in t.up && o in w.at && o in w.starts && w.at[o] < w.at[m] :: o in t.up[m]
  }

  ghost predicate AncestorsStarted(t: Ancestry, w: Walk) {
    forall m, a | m in w.starts && m in t.up && a in t.up[m] :: a in w.starts
  }

  /** A node not met yet has a parent not started yet, or the parent `but` that is being opened. */
  ghost predicate UnmetBelow(t: Ancestry, w: Walk, but: Option<u32>) {
    forall m | m in t.parent && m !in w.starts && m !in w.at ::
      m != t.entry && (t.parent[m] !in w.starts || but == Some(t.parent[m]))
  }

  ghost predicate Numbered(t: Ancestry, w: Walk) {
    && (forall m | m in w.starts :: w.starts[m] < w.clock)
    && (forall m | m in w.intervals :: w.intervals[m].0 < w.intervals[m].1 < w.clock)
    && (forall a, b | a in w.starts && b in w.starts && a != b :: InOrder(t, w, a, b))
  }

  ghost predicate InOrder(t: Ancestry, w: Walk, a: u32, b: u32) {
    && b in t.up && a in w.starts && b in w.starts
    && w.starts[a] != w.starts[b]
    && (a in t.up[b] ==> w.starts[a] < w.starts[b])
    && (a in t.up[b] && a in w.intervals ==> b in w.intervals && w.intervals[b].1 < w.intervals[a].1)
    && (a !in t.up[b] && w.starts[a] < w.starts[b] ==> a in w.intervals && w.intervals[a].1 < w.starts[b])
  }

  ghost predicate Walking(t: Ancestry, w: Walk, but: Option<u32>) {
    && WellFounded(t) && Framed(t, w) && AncestorsOpen(t, w) && OpenAreAncestors(t, w)
    && AncestorsStarted(t, w) && UnmetBelow(t, w, but) && Numbered(t, w)
  }

  lemma Started(t: Ancestry) returns (w: Walk)
    requires WellFounded(t) && t.up[t.entry] == {t.entry}
    ensures Walking(t, w, None)
    ensures w.stack == [Frame(t.entry, false)] && w.starts == map[] && w.intervals == map[] && w.clock == 0
  {
    w := Walk([Frame(t.entry, false)], map[], map[], 0, map[t.entry := 0]);
  }

  // ---------------------------------------------------------------- leaving a node

  /** The top frame is an exit marker: its node's interval closes. */
  ghost predicate Leaves(w: Walk, v: Walk, node: u32) {
    && w.stack != [] && w.stack[|w.stack| - 1] == Frame(node, true) && node in w.starts
    && v == Walk(w.stack[..|w.stack| - 1], w.starts, w.intervals[node := (w.starts[node], w.clock)],
                 w.clock + 1, w.at - {node})
  }

  lemma LeaveFrames(t: Ancestry, w: Walk, v: Walk, node: u32)
    requires Leaves(w, v, node) && Framed(t, w)
    ensures Framed(t, v)
  {
    assert w.at[node] == |w.stack| - 1;
  }

  lemma TopOnly(t: Ancestry, w: Walk, node: u32, m: u32)
    requires WellFounded(t) && Framed(t, w) && AncestorsOpen(t, w)
    requires w.stack != [] && w.stack[|w.stack| - 1].node == node
    requires m in w.at && m in t.up && node in t.up[m]
    ensures m == node
  {
    assert w.at[node] == |w.stack| - 1;
  }

  lemma LeaveOpen(t: Ancestry, w: Walk, v: Walk, node: u32)
    requires Leaves(w, v, node) && WellFounded(t) && Framed(t, w) && AncestorsOpen(t, w)
    ensures AncestorsOpen(t, v)
  {
    forall m, a | m in v.at && m in t.up && a in t.up[m] && a != m
      ensures a in v.at && a in v.starts && v.at[a] < v.at[m]
    {
      assert a in w.at && w.at[a] < w.at[m];
      if a == node {
        TopOnly(t, w, node, m);
      }
    }
  }

  lemma LeaveLineage(t: Ancestry, w: Walk, v: Walk, node: u32)
    requires Leaves(w, v, node)
    requires OpenAreAncestors(t, w) && AncestorsStarted(t, w) && UnmetBelow(t, w, None)
    ensures OpenAreAncestors(t, v) && AncestorsStarted(t, v) && UnmetBelow(t, v, None)
  {
  }

  lemma LeaveOrder(t: Ancestry, w: Walk, v: Walk, node: u32, a: u32, b: u32)
    requires Leaves(w, v, node) && WellFounded(t) && Framed(t, w) && AncestorsOpen(t, w) && Numbered(t, w)
    requires a in w.starts && b in w.starts && a != b
    ensures InOrder(t, v, a, b)
  {
    assert w.at[node] == |w.stack| - 1;
    assert InOrder(t, w, a, b);
    if a == node && node in t.up[b] && b in w.at {
      TopOnly(t, w, node, b);
    }
  }

  lemma LeaveKeeps(t: Ancestry, w: Walk, v: Walk, node: u32)
    requires Leaves(w, v, node) && Walking(t, w, None)
    ensures Walking(t, v, None)
  {
    hide Framed, AncestorsOpen, OpenAreAncestors, AncestorsStarted, UnmetBelow, WellFounded, InOrder;
    LeaveFrames(t, w, v, node);
    LeaveOpen(t, w, v, node);
    LeaveLineage(t, w, v, node);
    forall a, b | a in v.starts && b in v.starts && a != b
      ensures InOrder(t, v, a, b)
    {
      LeaveOrder(t, w, v, node, a, b);
    }
    LeaveNumbers(t, w, v, node);
  }

  lemma LeaveNumbers(t: Ancestry, w: Walk, v: Walk, node: u32)
    requires Leaves(w, v, node)
    requires forall m | m in w.starts :: w.starts[m] < w.clock
    requires forall m | m in w.intervals :: w.intervals[m].0 < w.intervals[m].1 < w.clock
    ensures forall m | m in v.starts :: v.starts[m] < v.clock
    ensures forall m | m in v.intervals :: v.intervals[m].0 < v.intervals[m].1 < v.clock
  {
  }

  // ---------------------------------------------------------------- entering a node

  /** The top node opens and takes the next start number; its children have no frames yet. */
  ghost predicate Enters(w: Walk, v: Walk, node: u32) {
    && w.stack != [] && w.stack[|w.stack| - 1] == Frame(node, false) && node !in w.starts
    && v == Walk(w.stack[|w.stack| - 1 := Frame(node, true)], w.starts[node := w.clock], w.intervals,
                 w.clock + 1, w.at)
  }

  lemma EnterFrames(t: Ancestry, w: Walk, v: Walk, node: u32)
    requires Enters(w, v, node) && Framed(t, w)
    ensures Framed(t, v)
  {
    assert w.at[node] == |w.stack| - 1;
  }

  lemma EnterLineage(t: Ancestry, w: Walk, v: Walk, node: u32)
    requires Enters(w, v, node) && Framed(t, w) && AncestorsOpen(t, w) && OpenAreAncestors(t, w)
    ensures AncestorsOpen(t, v) && OpenAreAncestors(t, v)
  {
    assert w.at[node] == |w.stack| - 1;
    hide Framed;
  }

  lemma EnterStarted(t: Ancestry, w: Walk, v: Walk, node: u32)
    requires Enters(w, v, node) && Framed(t, w) && AncestorsOpen(t, w)
    requires AncestorsStarted(t, w) && UnmetBelow(t, w, None)
    ensures AncestorsStarted(t, v) && UnmetBelow(t, v, Some(node))
  {
    assert node in w.at && node in t.up;
    hide Framed;
  }

  /** Every started node is an ancestor of the top node or has its interval closed. */
  lemma StartedBefore(t: Ancestry, w: Walk, node: u32, a: u32)
    requires w.stack != [] && w.stack[|w.stack| - 1].node == node && node !in w.starts
    requires Framed(t, w) && AncestorsOpen(t, w) && OpenAreAncestors(t, w) && AncestorsStarted(t, w)
    requires a in w.starts
    ensures node in t.up && a in t.up && node !in t.up[a]
    ensures if a in t.up[node] then a !in w.intervals else a in w.intervals
  {
    assert w.at[node] == |w.stack| - 1;
  }

  lemma EnterOrder(t: Ancestry, w: Walk, v: Walk, node: u32, a: u32, b: u32)
    requires Enters(w, v, node) && Framed(t, w)
    requires AncestorsOpen(t, w) && OpenAreAncestors(t, w) && AncestorsStarted(t, w) && Numbered(t, w)
    requires a in v.starts && b in v.starts && a != b
    ensures InOrder(t, v, a, b)
  {
    if b == node {
      StartedBefore(t, w, node, a);
    } else if a == node {
      StartedBefore(t, w, node, b);
    } else {
      assert InOrder(t, w, a, b);
    }
  }

  lemma EnterNumbers(w: Walk, v: Walk, node: u32)
    requires Enters(w, v, node)
    requires forall m | m in w.starts :: w.starts[m] < w.clock
    requires forall m | m in w.intervals :: w.intervals[m].0 < w.intervals[m].1 < w.clock
    ensures forall m | m in v.starts :: v.starts[m] < v.clock
    ensures forall m | m in v.intervals :: v.intervals[m].0 < v.intervals[m].1 < v.clock
  {
  }

  lemma EnterKeeps(t: Ancestry, w: Walk, v: Walk, node: u32)
    requires Enters(w, v, node) && Walking(t, w, None)
    ensures Walking(t, v, Some(node))
  {
    hide Framed, AncestorsOpen, OpenAreAncestors, AncestorsStarted, UnmetBelow, WellFounded, InOrder;
    EnterFrames(t, w, v, node);
    EnterLineage(t, w, v, node);
    EnterStarted(t, w, v, node);
    forall a, b | a in v.starts && b in v.starts && a != b
      ensures InOrder(t, v, a, b)
    {
      EnterOrder(t, w, v, node, a, b);
    }
    EnterNumbers(w, v, node);
  }

  /** Pushing one child of the open node `node`, the highest open node. */
  ghost predicate Pushes(t: Ancestry, w: Walk, v: Walk, node: u32, child: u32) {
    && node in w.at && node in w.starts && (forall o | o in w.at && o in w.starts :: w.at[o] <= w.at[node])
    && child in t.parent && child != t.entry && t.parent[child] == node && child !in w.at && child !in w.starts
    && v == w.(stack := w.stack + [Frame(child, false)], at := w.at[child := |w.stack|])
  }

  lemma PushFrames(t: Ancestry, w: Walk, v: Walk, node: u32, child: u32)
    requires Pushes(t, w, v, node, child) && child in t.up && Framed(t, w)
    ensures Framed(t, v)
  {
  }

  lemma PushOpen(t: Ancestry, w: Walk, v: Walk, node: u32, child: u32)
    requires Pushes(t, w, v, node, child) && Framed(t, w) && AncestorsOpen(t, w)
    requires child in t.up && t.up[child] == {child} + t.up[node]
    ensures AncestorsOpen(t, v)
  {
  }

  lemma PushAncestors(t: Ancestry, w: Walk, v: Walk, node: u32, child: u32)
    requires Pushes(t, w, v, node, child) && Framed(t, w) && OpenAreAncestors(t, w)
    requires child in t.up && t.up[child] == {child} + t.up[node] && node in t.up[node]
    ensures OpenAreAncestors(t, v)
  {
  }

  lemma PushLineage(t: Ancestry, w: Walk, v: Walk, node: u32, child: u32)
    requires Pushes(t, w, v, node, child)
    requires AncestorsStarted(t, w) && UnmetBelow(t, w, Some(node))
    ensures AncestorsStarted(t, v) && UnmetBelow(t, v, Some(node))
  {
  }

  lemma ChildChain(t: Ancestry, w: Walk, v: Walk, node: u32, child: u32)
    requires Pushes(t, w, v, node, child) && WellFounded(t)
    ensures child in t.up && node in t.up && t.up[child] == {child} + t.up[node] && node in t.up[node]
  {
  }

  lemma PushNumbers(t: Ancestry, w: Walk, v: Walk, node: u32, child: u32)
    requires Pushes(t, w, v, node, child) && Numbered(t, w)
    ensures Numbered(t, v)
  {
    forall a, b | a in v.starts && b in v.starts && a != b
      ensures InOrder(t, v, a, b)
    {
      assert InOrder(t, w, a, b);
    }
  }

  lemma PushKeeps(t: Ancestry, w: Walk, v: Walk, node: u32, child: u32)
    requires Pushes(t, w, v, node, child) && Walking(t, w, Some(node))
    ensures Walking(t, v, Some(node))
  {
    hide Framed, AncestorsOpen, OpenAreAncestors, AncestorsStarted, UnmetBelow, WellFounded, Numbered;
    ChildChain(t, w, v, node, child);
    PushFrames(t, w, v, node, child);
    PushOpen(t, w, v, node, child);
    PushAncestors(t, w, v, node, child);
    PushLineage(t, w, v, node, child);
    PushNumbers(t, w, v, node, child);
  }

  // ---------------------------------------------------------------- the numbering

  function Children(tree: Tree, p: u32): set<u32> {
    set n | n in tree && tree[n] == p && n != p
  }

  /** Children from index `i` of the list on have frames; the others have not been met. */
  ghost predicate PushState(t: Ancestry, w: Walk, node: u32, list: seq<u32>, i: nat) {
    && i <= |list|
    && Walking(t, w, Some(node))
    && node in w.at && node in w.starts && (forall o | o in w.at && o in w.starts :: w.at[o] <= w.at[node])
    && (forall k | 0 <= k < i :: list[k] !in w.at && list[k] !in w.starts)
    && (forall k | i <= k < |list| :: list[k] in w.at)
  }

  lemma PushFirst(t: Ancestry, w: Walk, v: Walk, node: u32)
    requires Enters(w, v, node) && Walking(t, w, None)
    ensures var list := Ascending(Children(t.parent, node)); PushState(t, v, node, list, |list|)
  {
    EnterKeeps(t, w, v, node);
    var list := Ascending(Children(t.parent, node));
    assert w.at[node] == |w.stack| - 1;
    forall k | 0 <= k < |list|
      ensures list[k] !in v.at && list[k] !in v.starts
    {
      ChildBelow(t, node, list[k]);
      ChildUnmet(t, w, node, list[k]);
    }
  }

  lemma ChildBelow(t: Ancestry, node: u32, child: u32)
    requires WellFounded(t) && child in Children(t.parent, node)
    ensures child in t.parent && child != t.entry && t.parent[child] == node && child != node
    ensures child in t.up && node in t.up[child]
  {
    assert t.parent[child] == node;
    assert t.parent[t.entry] == t.entry;
  }

  lemma ChildUnmet(t: Ancestry, w: Walk, node: u32, child: u32)
    requires child in t.up && node in t.up[child] && AncestorsOpen(t, w) && AncestorsStarted(t, w)
    requires node !in w.starts && child != node
    ensures child !in w.at && child !in w.starts
  {
  }

  lemma PushNext(t: Ancestry, w: Walk, v: Walk, node: u32, i: nat)
    requires var list := Ascending(Children(t.parent, node));
             i < |list| && PushState(t, w, node, list, i + 1)
             && v == w.(stack := w.stack + [Frame(list[i], false)], at := w.at[list[i] := |w.stack|])
    ensures PushState(t, v, node, Ascending(Children(t.parent, node)), i)
  {
    var list := Ascending(Children(t.parent, node));
    assert list[i] in Children(t.parent, node);
    ChildBelow(t, node, list[i]);
    assert Pushes(t, w, v, node, list[i]);
    PushKeeps(t, w, v, node, list[i]);
    hide Walking;
    PushedState(t, w, v, node, list, i);
  }

  lemma PushedState(t: Ancestry, w: Walk, v: Walk, node: u32, list: seq<u32>, i: nat)
    requires i < |list| && PushState(t, w, node, list, i + 1) && StrictlyAscending(list)
    requires Pushes(t, w, v, node, list[i]) && Walking(t, v, Some(node))
    ensures PushState(t, v, node, list, i)
  {
    hide Walking;
  }

  lemma PushLast(t: Ancestry, w: Walk, node: u32)
    requires PushState(t, w, node, Ascending(Children(t.parent, node)), 0)
    ensures Walking(t, w, None)
  {
    var list := Ascending(Children(t.parent, node));
    forall m | m in t.parent && m !in w.starts && m !in w.at
      ensures m != t.entry && t.parent[m] !in w.starts
    {
      assert m in Children(t.parent, node) ==> m in list;
    }
  }

  /** The push loop: children, largest first. */
  method PushChildren(children: set<u32>, stack: seq<Frame>, ghost t: Ancestry, ghost w: Walk, ghost node: u32)
    returns (pushed: seq<Frame>, ghost v: Walk)
    requires children == Children(t.parent, node) && stack == w.stack
    requires PushState(t, w, node, Ascending(children), |Ascending(children)|)
    ensures Walking(t, v, None) && pushed == v.stack
    ensures v == w.(stack := v.stack, at := v.at)
  {
    hide *;
    pushed, v := stack, w;
    var list := Ascending(children);
    var i := |list|;
    while i > 0
      invariant 0 <= i <= |list|
      invariant PushState(t, v, node, list, i) && pushed == v.stack
      invariant v == w.(stack := v.stack, at := v.at)
    {
      i := i - 1;
      ghost var u := v.(stack := v.stack + [Frame(list[i], false)], at := v.at[list[i] := |v.stack|]);
      PushNext(t, v, u, node, i);
      pushed, v := pushed + [Frame(list[i], false)], u;
    }
    PushLast(t, v, node);
  }

  lemma TopFrame(t: Ancestry, w: Walk)
    requires Walking(t, w, None) && w.stack != []
    ensures var top := w.stack[|w.stack| - 1];
            top.node in t.up && (top.exiting <==> top.node in w.starts) && w.starts.Keys <= t.up.Keys
  {
    hide WellFounded, AncestorsOpen, OpenAreAncestors, AncestorsStarted, UnmetBelow, Numbered;
    assert w.at[w.stack[|w.stack| - 1].node] == |w.stack| - 1;
  }

  lemma FewerUnstarted(t: Ancestry, starts: map<u32, nat>, node: u32, n: nat)
    requires node in t.up && node !in starts
    ensures |t.up.Keys - starts[node := n].Keys| < |t.up.Keys - starts.Keys|
  {
    var fewer := t.up.Keys - starts[node := n].Keys;
    assert fewer == t.up.Keys - starts.Keys - {node};
    SmallerSet(fewer, t.up.Keys - starts.Keys);
  }

  lemma NoFrames(t: Ancestry, w: Walk, m: u32)
    requires Walking(t, w, None) && w.stack == [] && m in t.parent
    ensures m in w.starts ==> m in w.intervals
    ensures m !in w.starts ==> m != t.entry && t.parent[m] in t.parent && t.parent[m] !in w.starts
  {
    hide AncestorsOpen, OpenAreAncestors, AncestorsStarted, Numbered;
  }

  lemma ParentAbove(g: Flow, t: Tree, m: u32)
    requires Rooted(g, t) && m in t && m != g.entry
    ensures t[m] in t && Height(g, t[m]) < Height(g, m)
  {
  }

  /** With an empty stack every node has been started and closed. */
  lemma {:induction false} AllClosed(g: Flow, t: Ancestry, w: Walk, m: u32)
    requires Rooted(g, t.parent) && t.entry == g.entry && Walking(t, w, None) && w.stack == [] && m in t.parent
    ensures m in w.intervals && m in w.starts
    decreases Height(g, m)
  {
    hide *;
    NoFrames(t, w, m);
    if m !in w.starts {
      ParentAbove(g, t.parent, m);
      AllClosed(g, t, w, t.parent[m]);
    }
  }

  predicate Contains(outer: (nat, nat), inner: (nat, nat)) {
    outer.0 <= inner.0 && inner.1 <= outer.1
  }

  lemma ContainmentIsAncestry(t: Ancestry, w: Walk, d: u32, n: u32)
    requires Walking(t, w, None) && d in w.intervals && n in w.intervals
    ensures n in t.up && (Contains(w.intervals[d], w.intervals[n]) <==> d in t.up[n])
  {
    if d != n {
      assert InOrder(t, w, d, n) && InOrder(t, w, n, d);
    }
  }

  /** Interval containment over the finished numbering is membership in the chain to the entry. */
  method NumberTree(entry: u32, immediate: Tree, ghost g: Flow, ghost t: Ancestry)
    returns (intervals: map<u32, (nat, nat)>)
    requires t.parent == immediate && t.entry == entry && WellFounded(t) && t.up[t.entry] == {t.entry}
    requires Rooted(g, immediate) && g.entry == entry
    ensures intervals.Keys >= immediate.Keys
    ensures forall d, n | d in immediate && n in immediate ::
              Contains(intervals[d], intervals[n]) <==> d in t.up[n]
  {
    hide *;
    ghost var w := Started(t);
    var starts: map<u32, nat> := map[];
    intervals := map[];
    var clock: nat := 0;
    var pending := [Frame(entry, false)];
    while pending != []
      invariant Walking(t, w, None)
      invariant w.stack == pending && w.starts == starts && w.intervals == intervals && w.clock == clock
      decreases |t.up.Keys - starts.Keys|, |pending|
    {
      TopFrame(t, w);
      var top := |pending| - 1;
      var node := pending[top].node;
      if pending[top].exiting {
        ghost var v := Walk(pending[..top], starts, intervals[node := (starts[node], clock)], clock + 1,
                            w.at - {node});
        LeaveStep(t, w, v, node);
        intervals := intervals[node := (starts[node], clock)];
        clock := clock + 1;
        pending := pending[..top];
        w := v;
      } else {
        ghost var v := Walk(pending[top := Frame(node, true)], starts[node := clock], intervals, clock + 1, w.at);
        EnterStep(t, w, v, node);
        FewerUnstarted(t, starts, node, clock);
        starts := starts[node := clock];
        clock := clock + 1;
        pending := pending[top := Frame(node, true)];
        pending, w := PushChildren(Children(immediate, node), pending, t, v, node);
      }
    }
    Conclude(g, t, w);
  }

  lemma LeaveStep(t: Ancestry, w: Walk, v: Walk, node: u32)
    requires Walking(t, w, None) && w.stack != [] && w.stack[|w.stack| - 1] == Frame(node, true)
    requires node in w.starts
    requires v == Walk(w.stack[..|w.stack| - 1], w.starts, w.intervals[node := (w.starts[node], w.clock)],
                       w.clock + 1, w.at - {node})
    ensures Walking(t, v, None)
  {
    hide Walking;
    LeaveKeeps(t, w, v, node);
  }

  lemma EnterStep(t: Ancestry, w: Walk, v: Walk, node: u32)
    requires Walking(t, w, None) && w.stack != [] && w.stack[|w.stack| - 1] == Frame(node, false)
    requires node !in w.starts
    requires v == Walk(w.stack[|w.stack| - 1 := Frame(node, true)], w.starts[node := w.clock], w.intervals,
                       w.clock + 1, w.at)
    ensures PushState(t, v, node, Ascending(Children(t.parent, node)), |Ascending(Children(t.parent, node))|)
  {
    hide Walking;
    PushFirst(t, w, v, node);
  }

  lemma Conclude(g: Flow, t: Ancestry, w: Walk)
    requires Rooted(g, t.parent) && t.entry == g.entry && Walking(t, w, None) && w.stack == []
    ensures w.intervals.Keys >= t.parent.Keys
    ensures forall d, n | d in t.parent && n in t.parent ::
              n in t.up && (Contains(w.intervals[d], w.intervals[n]) <==> d in t.up[n])
  {
    hide Walking, Contains, Rooted;
    forall m | m in t.parent
      ensures m in w.intervals
    {
      AllClosed(g, t, w, m);
    }
    forall d, n | d in t.parent && n in t.parent
      ensures n in t.up && (Contains(w.intervals[d], w.intervals[n]) <==> d in t.up[n])
    {
      ContainmentIsAncestry(t, w, d, n);
    }
  }
}
