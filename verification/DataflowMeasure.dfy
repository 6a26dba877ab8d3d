/** How much a set of states still knows; forgetting strictly lowers it, so forgetting ends. */
module DataflowMeasure {
  import opened Words
  import opened ControlGraph
  import opened Arm32
  import opened MustValues
  import opened DataflowJoin

  /** Every definition is one of the instructions. */
  ghost predicate Grounded(s: RegisterState, universe: set<u32>) {
    forall r | r in s :: s[r].definitions <= universe
  }

  ghost function ValueScore(v: ExactValue, universe: set<u32>): nat {
    1 + |universe - v.definitions| + (if v.lineage.Some? then 1 else 0)
  }

  ghost function RegisterScore(s: RegisterState, universe: set<u32>, r: int): nat {
    if 0 <= r < 256 && r in s then ValueScore(s[r], universe) else 0
  }

  ghost function Score(s: RegisterState, universe: set<u32>, k: nat): nat {
    if k == 0 then 0 else Score(s, universe, k - 1) + RegisterScore(s, universe, k - 1)
  }

  lemma FewerLeft(a: set<u32>, b: set<u32>, universe: set<u32>)
    requires a <= b <= universe
    ensures |universe - b| <= |universe - a|
    ensures a != b ==> |universe - b| < |universe - a|
  {
    if a != b {
      var x :| x in b && x !in a;
      assert x in universe - a && x !in universe - b;
      SmallerSet(universe - b, universe - a);
    }
  }

  lemma RegisterScoreDrops(s: RegisterState, t: RegisterState, universe: set<u32>, r: Register)
    requires Forgets(s, t) && Grounded(t, universe)
    ensures RegisterScore(t, universe, r) <= RegisterScore(s, universe, r)
    ensures (r in s && (r !in t || s[r] != t[r])) ==> RegisterScore(t, universe, r) < RegisterScore(s, universe, r)
  {
    if r in t {
      FewerLeft(s[r].definitions, t[r].definitions, universe);
    }
  }

  lemma {:induction false} ScoreDrops(s: RegisterState, t: RegisterState, universe: set<u32>, k: nat)
    requires Forgets(s, t) && Grounded(t, universe) && k <= 256
    ensures Score(t, universe, k) <= Score(s, universe, k)
    ensures (exists r: Register :: r < k && r in s && (r !in t || s[r] != t[r])) ==>
              Score(t, universe, k) < Score(s, universe, k)
  {
    if k > 0 {
      ScoreDrops(s, t, universe, k - 1);
      RegisterScoreDrops(s, t, universe, k - 1);
    }
  }

  lemma SameIfNothingDropped(s: RegisterState, t: RegisterState)
    requires Forgets(s, t)
    ensures (forall r: Register | r in s :: r in t && s[r] == t[r]) ==> s == t
  {
  }

  lemma StrictlyForgets(s: RegisterState, t: RegisterState, universe: set<u32>)
    requires Forgets(s, t) && s != t && Grounded(t, universe)
    ensures Score(t, universe, 256) < Score(s, universe, 256)
  {
    SameIfNothingDropped(s, t);
    ScoreDrops(s, t, universe, 256);
  }

  ghost function MaxScore(universe: set<u32>): nat {
    256 * (2 + |universe|) + 1
  }

  lemma NoMore(universe: set<u32>, taken: set<u32>)
    ensures |universe - taken| <= |universe|
  {
    FewerLeft({}, universe * taken, universe);
    assert universe - taken == universe - universe * taken;
    assert universe - {} == universe;
  }

  lemma RegisterScoreBounded(s: RegisterState, universe: set<u32>, r: int)
    ensures RegisterScore(s, universe, r) <= 2 + |universe|
  {
    if 0 <= r < 256 && r in s {
      NoMore(universe, s[r].definitions);
    }
  }

  lemma {:induction false} ScoreBounded(s: RegisterState, universe: set<u32>, k: nat)
    ensures Score(s, universe, k) <= k * (2 + |universe|)
  {
    if k > 0 {
      ScoreBounded(s, universe, k - 1);
      RegisterScoreBounded(s, universe, k - 1);
      assert k * (2 + |universe|) == (k - 1) * (2 + |universe|) + (2 + |universe|);
    }
  }

  ghost function StateScore(after: States, universe: set<u32>, n: u32): nat {
    if n in after then Score(after[n], universe, 256) else MaxScore(universe)
  }

  ghost function Total(after: States, universe: set<u32>, nodes: seq<u32>): nat {
    if nodes == [] then 0 else StateScore(after, universe, nodes[0]) + Total(after, universe, nodes[1..])
  }

  lemma {:induction false} TotalDrops(after: States, universe: set<u32>, nodes: seq<u32>, n: u32, s: RegisterState)
    requires StateScore(after[n := s], universe, n) < StateScore(after, universe, n)
    ensures Total(after[n := s], universe, nodes) <= Total(after, universe, nodes)
    ensures n in nodes ==> Total(after[n := s], universe, nodes) < Total(after, universe, nodes)
  {
    if nodes != [] {
      TotalDrops(after, universe, nodes[1..], n, s);
    }
  }

  /** Publishing a new output, or one that forgets more than the last, uses up some of the total. */
  lemma PublishDrops(after: States, universe: set<u32>, nodes: seq<u32>, n: u32, s: RegisterState)
    requires n in nodes && Grounded(s, universe)
    requires n in after ==> Forgets(after[n], s) && after[n] != s
    ensures Total(after[n := s], universe, nodes) < Total(after, universe, nodes)
  {
    if n in after {
      StrictlyForgets(after[n], s, universe);
    } else {
      ScoreBounded(s, universe, 256);
    }
    TotalDrops(after, universe, nodes, n, s);
  }

  lemma TransferGrounded(words: LiteralWords, pc: u32, i: Instruction, s: RegisterState, policy: ExactPolicy,
                         universe: set<u32>)
    requires Grounded(s, universe) && pc in universe
    ensures Grounded(Transfer(words, pc, i, s, policy), universe)
  {
  }

  lemma JoinGrounded(sources: set<u32>, outputs: States, policy: ExactPolicy, universe: set<u32>)
    requires sources != {} && sources <= outputs.Keys && forall p | p in sources :: Grounded(outputs[p], universe)
    ensures Grounded(JoinSet(sources, outputs, policy), universe)
  {
    var j := JoinSet(sources, outputs, policy);
    forall r | r in j
      ensures j[r].definitions <= universe
    {
      AgreedMembers(sources, outputs, r, policy);
      assert j[r] == Merged(sources, outputs, r);
    }
  }
}
