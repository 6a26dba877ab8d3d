/** Iterative depth-first search: the reverse postorder that drives the dominator fixed point. */
module PostOrder {
  import opened Words
  import opened ControlGraph

  /** A stack entry: a node to enter, or a node whose subtree is complete. */
  datatype Frame = Frame(node: u32, exiting: bool)

  ghost predicate NoRepeats(q: seq<u32>) {
    forall i, j | 0 <= i < j < |q| :: q[i] != q[j]
  }

  /** Each node after the first is a successor of some earlier node. */
  ghost predicate ForwardParents(succ: Adjacency, order: seq<u32>) {
    forall i | 0 < i < |order| :: HasParent(succ, order, 0, i, order[i])
  }

  /** Some node in `q[lo..hi]` has an edge to `node`. */
  ghost predicate HasParent(succ: Adjacency, q: seq<u32>, lo: nat, hi: nat, node: u32)
    requires lo <= hi <= |q|
  {
    exists j :: lo <= j < hi && node in Targets(succ, q[j])
  }

  /**
   * Proof state of the search: the frame that pushed each frame, the parent of each visited node,
   * the frame of each open or waiting node, and the postorder index of each finished node.
   */
  datatype Trace = Trace(opener: seq<nat>, parent: map<u32, u32>, at: map<u32, nat>, finish: map<u32, nat>)

  ghost predicate StackOk(entry: u32, succ: Adjacency, reachable: set<u32>, stack: seq<Frame>, t: Trace) {
    && |t.opener| == |stack|
    && (forall k | 0 <= k < |stack| :: stack[k].node in reachable)
    && (forall k | 0 < k < |stack| :: OpenerOk(succ, stack, t, k))
    && (|stack| > 0 ==> stack[0].node == entry)
  }

  ghost predicate OpenerOk(succ: Adjacency, stack: seq<Frame>, t: Trace, k: nat)
    requires |t.opener| == |stack| && 0 < k < |stack|
  {
    && t.opener[k] < k
    && stack[t.opener[k]].exiting
    && stack[k].node in Targets(succ, stack[t.opener[k]].node)
    && (stack[k].exiting ==>
          stack[k].node in t.parent && t.parent[stack[k].node] == stack[t.opener[k]].node)
  }

  ghost predicate FramesOk(visited: set<u32>, stack: seq<Frame>, t: Trace) {
    && (forall m | m in t.at ::
          t.at[m] < |stack| && stack[t.at[m]].node == m && (stack[t.at[m]].exiting <==> m in visited))
    && (forall k | 0 <= k < |stack| && stack[k].exiting :: stack[k].node in t.at && t.at[stack[k].node] == k)
    && (forall n | n in visited :: n in t.finish || n in t.at)
    && (forall n | n in t.finish :: n in visited && n !in t.at)
  }

  ghost predicate FinishOk(postorder: seq<u32>, t: Trace) {
    && (forall i | 0 <= i < |postorder| :: postorder[i] in t.finish && t.finish[postorder[i]] == i)
    && (forall n | n in t.finish :: t.finish[n] < |postorder| && postorder[t.finish[n]] == n)
  }

  ghost predicate ParentOk(entry: u32, succ: Adjacency, visited: set<u32>, t: Trace) {
    forall n | n in visited && n != entry ::
      && n in t.parent && t.parent[n] in visited && n in Targets(succ, t.parent[n])
      && (n in t.finish && t.parent[n] in t.finish ==> t.finish[n] < t.finish[t.parent[n]])
  }

  ghost predicate EdgesOk(succ: Adjacency, reachable: set<u32>, visited: set<u32>, t: Trace) {
    forall n, m | n in visited && m in Targets(succ, n) && m in reachable :: m in visited || m in t.at
  }

  ghost predicate Searching(entry: u32, succ: Adjacency, reachable: set<u32>,
                            visited: set<u32>, postorder: seq<u32>, stack: seq<Frame>, t: Trace)
  {
    && visited <= reachable
    && (entry in visited || (stack == [Frame(entry, false)] && visited == {}))
    && StackOk(entry, succ, reachable, stack, t)
    && FramesOk(visited, stack, t)
    && FinishOk(postorder, t)
    && ParentOk(entry, succ, visited, t)
    && EdgesOk(succ, reachable, visited, t)
  }

  ghost function Finished(stack: seq<Frame>, postorder: seq<u32>, t: Trace): Trace
    requires stack != [] && |t.opener| == |stack|
  {
    var node := stack[|stack| - 1].node;
    t.(opener := t.opener[..|stack| - 1], at := t.at - {node}, finish := t.finish[node := |postorder|])
  }

  lemma FinishFrames(visited: set<u32>, postorder: seq<u32>, stack: seq<Frame>, t: Trace)
    requires stack != [] && stack[|stack| - 1].exiting && |t.opener| == |stack|
    requires FramesOk(visited, stack, t)
    ensures FramesOk(visited, stack[..|stack| - 1], Finished(stack, postorder, t))
    ensures stack[|stack| - 1].node in t.at && stack[|stack| - 1].node !in t.finish
  {
  }

  lemma FinishKeeps(entry: u32, succ: Adjacency, reachable: set<u32>,
                    visited: set<u32>, postorder: seq<u32>, stack: seq<Frame>, t: Trace) returns (u: Trace)
    requires stack != [] && stack[|stack| - 1].exiting
    requires Searching(entry, succ, reachable, visited, postorder, stack, t)
    ensures Searching(entry, succ, reachable, visited,
                      postorder + [stack[|stack| - 1].node], stack[..|stack| - 1], u)
  {
    hide FramesOk, ParentOk, EdgesOk;
    var top := |stack| - 1;
    var node := stack[top].node;
    u := Finished(stack, postorder, t);
    forall k | 0 < k < top
      ensures OpenerOk(succ, stack[..top], u, k)
    {
      assert OpenerOk(succ, stack, t, k);
    }
    FinishFrames(visited, postorder, stack, t);
    assert FinishOk(postorder + [node], u);
    FinishParents(entry, succ, visited, postorder, stack, t);
    FinishEdges(succ, reachable, visited, postorder, stack, t);
  }

  lemma FinishEdges(succ: Adjacency, reachable: set<u32>, visited: set<u32>,
                    postorder: seq<u32>, stack: seq<Frame>, t: Trace)
    requires stack != [] && stack[|stack| - 1].exiting && |t.opener| == |stack|
    requires FramesOk(visited, stack, t) && EdgesOk(succ, reachable, visited, t)
    ensures EdgesOk(succ, reachable, visited, Finished(stack, postorder, t))
  {
  }

  lemma FinishParents(entry: u32, succ: Adjacency, visited: set<u32>,
                      postorder: seq<u32>, stack: seq<Frame>, t: Trace)
    requires stack != [] && stack[|stack| - 1].exiting && |t.opener| == |stack|
    requires |stack| > 1 ==> OpenerOk(succ, stack, t, |stack| - 1)
    requires stack[0].node == entry
    requires FramesOk(visited, stack, t) && FinishOk(postorder, t) && ParentOk(entry, succ, visited, t)
    ensures ParentOk(entry, succ, visited, Finished(stack, postorder, t))
  {
  }

  lemma SameTrace(entry: u32, succ: Adjacency, visited: set<u32>, postorder: seq<u32>, t: Trace, u: Trace)
    requires u == t.(opener := u.opener) && FinishOk(postorder, t) && ParentOk(entry, succ, visited, t)
    ensures FinishOk(postorder, u) && ParentOk(entry, succ, visited, u)
  {
  }

  lemma DiscardKeeps(entry: u32, succ: Adjacency, reachable: set<u32>,
                     visited: set<u32>, postorder: seq<u32>, stack: seq<Frame>, t: Trace) returns (u: Trace)
    requires stack != [] && !stack[|stack| - 1].exiting && stack[|stack| - 1].node in visited
    requires Searching(entry, succ, reachable, visited, postorder, stack, t)
    ensures Searching(entry, succ, reachable, visited, postorder, stack[..|stack| - 1], u)
  {
    hide ParentOk, FinishOk;
    var top := |stack| - 1;
    u := t.(opener := t.opener[..top]);
    SameTrace(entry, succ, visited, postorder, t, u);
    forall k | 0 < k < top
      ensures OpenerOk(succ, stack[..top], u, k)
    {
      assert OpenerOk(succ, stack, t, k);
    }
  }

  ghost predicate EdgesOkBut(succ: Adjacency, reachable: set<u32>, visited: set<u32>, but: u32, t: Trace) {
    forall n, m | n in visited && n != but && m in Targets(succ, n) && m in reachable :: m in visited || m in t.at
  }

  /** The state between opening `node` and having pushed all its successors. */
  ghost predicate Pushing(entry: u32, succ: Adjacency, reachable: set<u32>, visited: set<u32>,
                          postorder: seq<u32>, stack: seq<Frame>, t: Trace, node: u32, at: nat)
  {
    && visited <= reachable && entry in visited && node in visited
    && at < |stack| && stack[at] == Frame(node, true)
    && StackOk(entry, succ, reachable, stack, t)
    && FramesOk(visited, stack, t)
    && FinishOk(postorder, t)
    && ParentOk(entry, succ, visited, t)
    && EdgesOkBut(succ, reachable, visited, node, t)
  }

  /** The top node is opened: it is on the stack, and its parent is the node that pushed it. */
  ghost function Opened(stack: seq<Frame>, t: Trace, node: u32): Trace
    requires stack != [] && |t.opener| == |stack|
    requires |stack| > 1 ==> t.opener[|stack| - 1] < |stack|
  {
    var top := |stack| - 1;
    t.(at := t.at[node := top],
       parent := if top > 0 then t.parent[node := stack[t.opener[top]].node] else t.parent)
  }

  ghost predicate TopIs(stack: seq<Frame>, t: Trace, node: u32)
    ensures TopIs(stack, t, node) ==>
              stack != [] && |t.opener| == |stack| && (|stack| > 1 ==> t.opener[|stack| - 1] < |stack|)
  {
    && stack != [] && stack[|stack| - 1] == Frame(node, false) && |t.opener| == |stack|
    && (|stack| > 1 ==> t.opener[|stack| - 1] < |stack| - 1)
  }

  lemma OpenStack(entry: u32, succ: Adjacency, reachable: set<u32>, visited: set<u32>, stack: seq<Frame>, t: Trace,
                  node: u32)
    requires StackOk(entry, succ, reachable, stack, t) && TopIs(stack, t, node)
    requires FramesOk(visited, stack, t) && node !in visited
    ensures StackOk(entry, succ, reachable, stack[|stack| - 1 := Frame(node, true)], Opened(stack, t, node))
  {
    hide Targets;
    var marked := stack[|stack| - 1 := Frame(node, true)];
    forall k | 0 < k < |marked|
      ensures OpenerOk(succ, marked, Opened(stack, t, node), k)
    {
      assert OpenerOk(succ, stack, t, k);
    }
  }

  lemma OpenFrames(visited: set<u32>, stack: seq<Frame>, t: Trace, node: u32)
    requires FramesOk(visited, stack, t) && TopIs(stack, t, node) && node !in visited
    ensures FramesOk(visited + {node}, stack[|stack| - 1 := Frame(node, true)], Opened(stack, t, node))
  {
  }

  lemma OpenParents(entry: u32, succ: Adjacency, reachable: set<u32>, visited: set<u32>, stack: seq<Frame>, t: Trace,
                    node: u32)
    requires StackOk(entry, succ, reachable, stack, t) && FramesOk(visited, stack, t)
    requires ParentOk(entry, succ, visited, t) && TopIs(stack, t, node) && node !in visited
    requires |stack| == 1 ==> node == entry
    ensures ParentOk(entry, succ, visited + {node}, Opened(stack, t, node))
  {
    hide Targets;
    var top := |stack| - 1;
    if top > 0 {
      assert OpenerOk(succ, stack, t, top);
      assert stack[t.opener[top]].node in visited;
    }
  }

  lemma OpenEdges(succ: Adjacency, reachable: set<u32>, visited: set<u32>, stack: seq<Frame>, t: Trace, node: u32)
    requires EdgesOk(succ, reachable, visited, t) && TopIs(stack, t, node)
    ensures EdgesOkBut(succ, reachable, visited + {node}, node, Opened(stack, t, node))
  {
    hide Targets;
  }

  lemma OpenTop(entry: u32, succ: Adjacency, reachable: set<u32>, visited: set<u32>,
                postorder: seq<u32>, stack: seq<Frame>, t: Trace, node: u32)
    requires stack != [] && stack[|stack| - 1] == Frame(node, false)
    requires Searching(entry, succ, reachable, visited, postorder, stack, t)
    ensures TopIs(stack, t, node) && node in reachable && (|stack| == 1 ==> node == entry)
    ensures entry in visited + {node}
  {
    hide FramesOk, ParentOk, EdgesOk, FinishOk, Targets;
    if |stack| > 1 {
      assert OpenerOk(succ, stack, t, |stack| - 1);
    }
  }

  /** The top frame is replaced by its exit marker; nothing is pushed yet. */
  lemma OpenKeeps(entry: u32, succ: Adjacency, reachable: set<u32>, visited: set<u32>,
                  postorder: seq<u32>, stack: seq<Frame>, t: Trace, node: u32) returns (u: Trace)
    requires stack != [] && stack[|stack| - 1] == Frame(node, false) && node !in visited
    requires Searching(entry, succ, reachable, visited, postorder, stack, t)
    ensures Pushing(entry, succ, reachable, visited + {node}, postorder,
                    stack[|stack| - 1 := Frame(node, true)], u, node, |stack| - 1)
  {
    hide *;
    OpenTop(entry, succ, reachable, visited, postorder, stack, t, node);
    SearchingParts(entry, succ, reachable, visited, postorder, stack, t);
    u := Opened(stack, t, node);
    OpenStack(entry, succ, reachable, visited, stack, t, node);
    OpenFrames(visited, stack, t, node);
    OpenParents(entry, succ, reachable, visited, stack, t, node);
    OpenEdges(succ, reachable, visited, stack, t, node);
    OpenFinish(postorder, stack, t, node);
    PushingFrom(entry, succ, reachable, visited + {node}, postorder, stack[|stack| - 1 := Frame(node, true)], u, node,
                |stack| - 1);
  }

  lemma OpenFinish(postorder: seq<u32>, stack: seq<Frame>, t: Trace, node: u32)
    requires FinishOk(postorder, t) && TopIs(stack, t, node)
    ensures FinishOk(postorder, Opened(stack, t, node))
  {
  }

  lemma SearchingParts(entry: u32, succ: Adjacency, reachable: set<u32>, visited: set<u32>, postorder: seq<u32>,
                       stack: seq<Frame>, t: Trace)
    requires Searching(entry, succ, reachable, visited, postorder, stack, t)
    ensures visited <= reachable && StackOk(entry, succ, reachable, stack, t) && FramesOk(visited, stack, t)
    ensures FinishOk(postorder, t) && ParentOk(entry, succ, visited, t) && EdgesOk(succ, reachable, visited, t)
  {
    hide StackOk, FramesOk, FinishOk, ParentOk, EdgesOk;
  }

  lemma PushingFrom(entry: u32, succ: Adjacency, reachable: set<u32>, visited: set<u32>, postorder: seq<u32>,
                    stack: seq<Frame>, t: Trace, node: u32, at: nat)
    requires visited <= reachable && entry in visited && node in visited
    requires at < |stack| && stack[at] == Frame(node, true)
    requires StackOk(entry, succ, reachable, stack, t) && FramesOk(visited, stack, t) && FinishOk(postorder, t)
    requires ParentOk(entry, succ, visited, t) && EdgesOkBut(succ, reachable, visited, node, t)
    ensures Pushing(entry, succ, reachable, visited, postorder, stack, t, node, at)
  {
    hide StackOk, FramesOk, FinishOk, ParentOk, EdgesOkBut;
  }


  /** Successors from index `i` on are visited or have a frame. */
  ghost predicate PushedFrom(reachable: set<u32>, visited: set<u32>, targets: seq<u32>, i: nat, t: Trace) {
    forall k | i <= k < |targets| && targets[k] in reachable :: targets[k] in visited || targets[k] in t.at
  }

  lemma PushedAll(entry: u32, succ: Adjacency, reachable: set<u32>, visited: set<u32>,
                  postorder: seq<u32>, stack: seq<Frame>, t: Trace, node: u32, at: nat)
    requires Pushing(entry, succ, reachable, visited, postorder, stack, t, node, at)
    requires PushedFrom(reachable, visited, Ascending(Targets(succ, node)), 0, t)
    ensures Searching(entry, succ, reachable, visited, postorder, stack, t)
  {
    var targets := Ascending(Targets(succ, node));
    forall m | m in Targets(succ, node) && m in reachable
      ensures m in visited || m in t.at
    {
      assert m in targets;
    }
  }

  /** The push loop: unvisited reachable successors, largest first, so the smallest is on top. */
  method PushSuccessors(entry: u32, succ: Adjacency, reachable: set<u32>, visited: set<u32>, node: u32,
                        ghost postorder: seq<u32>, stack: seq<Frame>, ghost t: Trace)
    returns (pushed: seq<Frame>, ghost u: Trace)
    requires stack != []
    requires Pushing(entry, succ, reachable, visited, postorder, stack, t, node, |stack| - 1)
    ensures Searching(entry, succ, reachable, visited, postorder, pushed, u)
  {
    pushed, u := stack, t;
    var targets := Ascending(Targets(succ, node));
    var i := |targets|;
    ghost var at := |stack| - 1;
    assert PushedFrom(reachable, visited, targets, i, u);
    assert forall k | 0 <= k < i :: targets[k] in Targets(succ, node);
    hide *;
    while i > 0
      invariant 0 <= i <= |targets|
      invariant Pushing(entry, succ, reachable, visited, postorder, pushed, u, node, at)
      invariant PushedFrom(reachable, visited, targets, i, u)
    {
      i := i - 1;
      var target := targets[i];
      ghost var before := u;
      if target in reachable && target !in visited {
        u := PushKeeps(entry, succ, reachable, visited, postorder, pushed, u, node, at, target);
        pushed := pushed + [Frame(target, false)];
      }
      PushedOne(reachable, visited, targets, i, before, u);
    }
    PushedAll(entry, succ, reachable, visited, postorder, pushed, u, node, at);
  }

  lemma PushedOne(reachable: set<u32>, visited: set<u32>, targets: seq<u32>, i: nat, t: Trace, u: Trace)
    requires i < |targets| && PushedFrom(reachable, visited, targets, i + 1, t)
    requires t.at.Keys <= u.at.Keys
    requires targets[i] in reachable ==> targets[i] in visited || targets[i] in u.at
    ensures PushedFrom(reachable, visited, targets, i, u)
  {
  }

  lemma PushKeeps(entry: u32, succ: Adjacency, reachable: set<u32>, visited: set<u32>,
                  postorder: seq<u32>, stack: seq<Frame>, t: Trace, node: u32, at: nat, target: u32)
    returns (u: Trace)
    requires Pushing(entry, succ, reachable, visited, postorder, stack, t, node, at)
    requires target in Targets(succ, node) && target in reachable && target !in visited
    ensures Pushing(entry, succ, reachable, visited, postorder, stack + [Frame(target, false)], u, node, at)
    ensures u.at.Keys == t.at.Keys + {target}
  {
    var pushed := stack + [Frame(target, false)];
    u := t.(opener := t.opener + [at], at := t.at[target := |stack|]);
    forall k | 0 < k < |pushed|
      ensures OpenerOk(succ, pushed, u, k)
    {
      if k < |stack| {
        assert OpenerOk(succ, stack, t, k);
      }
    }
  }

  lemma Unstarted(entry: u32, succ: Adjacency, reachable: set<u32>) returns (t: Trace)
    requires entry in reachable
    ensures Searching(entry, succ, reachable, {}, [], [Frame(entry, false)], t)
  {
    t := Trace([0], map[], map[], map[]);
  }

  lemma FewerUnvisited(entry: u32, succ: Adjacency, reachable: set<u32>,
                       visited: set<u32>, postorder: seq<u32>, stack: seq<Frame>, t: Trace)
    requires stack != [] && stack[|stack| - 1].node !in visited
    requires Searching(entry, succ, reachable, visited, postorder, stack, t)
    ensures |reachable - (visited + {stack[|stack| - 1].node})| < |reachable - visited|
  {
    SmallerSet(reachable - (visited + {stack[|stack| - 1].node}), reachable - visited);
  }

  lemma VisitedAll(entry: u32, succ: Adjacency, reachable: set<u32>,
                   visited: set<u32>, postorder: seq<u32>, t: Trace)
    requires AllReached(succ, reachable, entry)
    requires Searching(entry, succ, reachable, visited, postorder, [], t)
    ensures visited == reachable
    ensures forall n :: n in postorder <==> n in reachable
    ensures NoRepeats(postorder) && postorder != [] && postorder[|postorder| - 1] == entry
    ensures forall i | 0 <= i < |postorder| - 1 :: HasParent(succ, postorder, i + 1, |postorder|, postorder[i])
  {
    assert t.at == map[];
    forall n | n in reachable
      ensures n in visited
    {
      var p :| Joins(succ, reachable, entry, n, p);
      ClosedHoldsPath(succ, reachable, visited, entry, n, p);
      assert p[|p| - 1] in p;
    }
    assert postorder[t.finish[entry]] == entry;
    forall i | 0 <= i < |postorder| && postorder[i] != entry
      ensures HasParent(succ, postorder, i + 1, |postorder|, postorder[i])
    {
      var parent := t.parent[postorder[i]];
      assert postorder[t.finish[parent]] == parent;
    }
  }

  function Reversed(q: seq<u32>): (r: seq<u32>)
    ensures |r| == |q|
    ensures forall i | 0 <= i < |q| :: r[i] == q[|q| - 1 - i]
  {
    if q == [] then [] else [q[|q| - 1]] + Reversed(q[..|q| - 1])
  }

  lemma ReversedParents(succ: Adjacency, postorder: seq<u32>, i: nat)
    requires 0 < i < |postorder|
    requires HasParent(succ, postorder, |postorder| - i, |postorder|, postorder[|postorder| - 1 - i])
    ensures HasParent(succ, Reversed(postorder), 0, i, Reversed(postorder)[i])
  {
    var order := Reversed(postorder);
    var k := |postorder| - 1 - i;
    var j :| k < j < |postorder| && postorder[k] in Targets(succ, postorder[j]);
    assert order[|postorder| - 1 - j] == postorder[j];
  }

  lemma ReversedOrder(succ: Adjacency, postorder: seq<u32>)
    requires NoRepeats(postorder)
    requires forall i | 0 <= i < |postorder| - 1 :: HasParent(succ, postorder, i + 1, |postorder|, postorder[i])
    ensures NoRepeats(Reversed(postorder)) && ForwardParents(succ, Reversed(postorder))
    ensures forall n :: n in Reversed(postorder) <==> n in postorder
  {
    ReversedMembers(postorder);
    hide HasParent, NoRepeats, Reversed;
    var order := Reversed(postorder);
    forall i | 0 < i < |order|
      ensures HasParent(succ, order, 0, i, order[i])
    {
      var k := |postorder| - 1 - i;
      assert HasParent(succ, postorder, k + 1, |postorder|, postorder[k]);
      ReversedParents(succ, postorder, i);
    }
  }

  lemma ReversedMembers(postorder: seq<u32>)
    requires NoRepeats(postorder)
    ensures NoRepeats(Reversed(postorder))
    ensures forall n :: n in Reversed(postorder) <==> n in postorder
  {
    hide Reversed;
    var order := Reversed(postorder);
    forall n | n in postorder
      ensures n in order
    {
      var j :| 0 <= j < |postorder| && postorder[j] == n;
      assert order[|postorder| - 1 - j] == n;
    }
  }

  /** All reachable nodes, entry first, each other node after one of its predecessors. */
  method ReversePostorder(entry: u32, reachable: set<u32>, succ: Adjacency) returns (order: seq<u32>)
    requires entry in reachable && AllReached(succ, reachable, entry)
    ensures order != [] && order[0] == entry
    ensures NoRepeats(order) && ForwardParents(succ, order)
    ensures forall n :: n in order <==> n in reachable
  {
    hide *;
    var visited: set<u32> := {};
    var postorder: seq<u32> := [];
    var pending := [Frame(entry, false)];
    ghost var t := Unstarted(entry, succ, reachable);
    while pending != []
      invariant Searching(entry, succ, reachable, visited, postorder, pending, t)
      decreases |reachable - visited|, |pending|
    {
      var top := |pending| - 1;
      var frame := pending[top];
      if frame.exiting {
        t := FinishKeeps(entry, succ, reachable, visited, postorder, pending, t);
        pending, postorder := pending[..top], postorder + [frame.node];
      } else if frame.node in visited {
        t := DiscardKeeps(entry, succ, reachable, visited, postorder, pending, t);
        pending := pending[..top];
      } else {
        FewerUnvisited(entry, succ, reachable, visited, postorder, pending, t);
        t := OpenKeeps(entry, succ, reachable, visited, postorder, pending, t, frame.node);
        visited := visited + {frame.node};
        pending := pending[top := Frame(frame.node, true)];  // pop the entry frame, push its exit marker
        pending, t := PushSuccessors(entry, succ, reachable, visited, frame.node, postorder, pending, t);
      }
    }
    VisitedAll(entry, succ, reachable, visited, postorder, t);
    ReversedOrder(succ, postorder);
    order := Reversed(postorder);
  }
}
