/** Joining the outputs of a set of predecessors, independently of the order they are folded in. */
module DataflowJoin {
  import opened Words
  import opened Arm32
  import opened MustValues

  /** Register states by program counter. */
  type States = map<u32, RegisterState>

  /** Two predecessors agree on a register closely enough for the policy. */
  ghost predicate PairAgrees(outputs: States, p: u32, q: u32, r: Register, policy: ExactPolicy) {
    && p in outputs && q in outputs && r in outputs[p] && r in outputs[q]
    && outputs[p][r].value == outputs[q][r].value
    && (p != q && policy.join.JoinValueDefinitionRoot? ==>
          outputs[p][r].lineage.Some? && outputs[p][r].lineage == outputs[q][r].lineage)
  }

  ghost predicate Agreed(sources: set<u32>, outputs: States, r: Register, policy: ExactPolicy) {
    forall p, q | p in sources && q in sources :: PairAgrees(outputs, p, q, r, policy)
  }

  ghost predicate SameLineage(sources: set<u32>, outputs: States, r: Register) {
    forall p, q | p in sources && q in sources && p in outputs && q in outputs && r in outputs[p] && r in outputs[q] ::
      outputs[p][r].lineage == outputs[q][r].lineage
  }

  ghost function DefinitionsOf(sources: set<u32>, outputs: States, r: Register): set<u32> {
    set p, d | p in sources && p in outputs && r in outputs[p] && d in outputs[p][r].definitions :: d
  }

  /** The value, all definitions, and the lineage if every source has the same one. */
  ghost function Merged(sources: set<u32>, outputs: States, r: Register): ExactValue
    requires sources != {} && sources <= outputs.Keys && forall p | p in sources :: r in outputs[p]
  {
    var p := Least(sources);
    ExactValue(outputs[p][r].value, DefinitionsOf(sources, outputs, r),
               if SameLineage(sources, outputs, r) then outputs[p][r].lineage else None)
  }

  lemma AgreedMembers(sources: set<u32>, outputs: States, r: Register, policy: ExactPolicy)
    requires Agreed(sources, outputs, r, policy)
    ensures sources <= outputs.Keys && forall p | p in sources :: r in outputs[p]
  {
    forall p | p in sources
      ensures p in outputs && r in outputs[p]
    {
      assert PairAgrees(outputs, p, p, r, policy);
    }
  }

  /** What all the sources agree on. */
  ghost function JoinSet(sources: set<u32>, outputs: States, policy: ExactPolicy): RegisterState
    requires sources != {}
  {
    map r: Register | 0 <= r < 256 && Agreed(sources, outputs, r, policy) ::
      (AgreedMembers(sources, outputs, r, policy); Merged(sources, outputs, r))
  }

  lemma JoinSingle(q: u32, outputs: States, policy: ExactPolicy)
    requires q in outputs
    ensures JoinSet({q}, outputs, policy) == outputs[q]
  {
    var j := JoinSet({q}, outputs, policy);
    forall r: Register
      ensures r in j <==> r in outputs[q]
      ensures r in j ==> j[r] == outputs[q][r]
    {
      if r in outputs[q] {
        assert PairAgrees(outputs, q, q, r, policy);
        assert Agreed({q}, outputs, r, policy);
        assert DefinitionsOf({q}, outputs, r) == outputs[q][r].definitions;
      } else if r in j {
        AgreedMembers({q}, outputs, r, policy);
      }
    }
  }

  lemma AgreedMore(sources: set<u32>, q: u32, outputs: States, r: Register, policy: ExactPolicy)
    requires sources != {} && q !in sources && q in outputs
    requires Agreed(sources, outputs, r, policy) && r in outputs[q]
    ensures sources <= outputs.Keys && forall p | p in sources :: r in outputs[p]
    ensures Agreed(sources + {q}, outputs, r, policy) <==>
            Joinable(Merged(sources, outputs, r), outputs[q][r], policy)
  {
    AgreedMembers(sources, outputs, r, policy);
    var p0 := Least(sources);
    var merged := Merged(sources, outputs, r);
    if Agreed(sources + {q}, outputs, r, policy) {
      assert PairAgrees(outputs, p0, q, r, policy);
      if policy.join.JoinValueDefinitionRoot? {
        forall a, b | a in sources && b in sources
          ensures outputs[a][r].lineage == outputs[b][r].lineage
        {
          assert PairAgrees(outputs, a, q, r, policy) && PairAgrees(outputs, b, q, r, policy);
        }
      }
    }
    if Joinable(merged, outputs[q][r], policy) {
      forall a, b | a in sources + {q} && b in sources + {q}
        ensures PairAgrees(outputs, a, b, r, policy)
      {
        if a in sources {
          assert PairAgrees(outputs, p0, a, r, policy);
        }
        if b in sources {
          assert PairAgrees(outputs, p0, b, r, policy);
        }
        if a in sources && b in sources {
          assert PairAgrees(outputs, a, b, r, policy);
        }
      }
    }
  }

  lemma MergedMore(sources: set<u32>, q: u32, outputs: States, r: Register)
    requires sources != {} && q !in sources && q in outputs && r in outputs[q]
    requires sources <= outputs.Keys && forall p | p in sources :: r in outputs[p]
    requires forall a, b | a in sources + {q} && b in sources + {q} :: outputs[a][r].value == outputs[b][r].value
    ensures Merged(sources + {q}, outputs, r) == JoinValues(Merged(sources, outputs, r), outputs[q][r])
  {
    var p0, p1 := Least(sources), Least(sources + {q});
    assert DefinitionsOf(sources + {q}, outputs, r) ==
           DefinitionsOf(sources, outputs, r) + outputs[q][r].definitions;
    if SameLineage(sources + {q}, outputs, r) {
      assert SameLineage(sources, outputs, r);
      assert outputs[p0][r].lineage == outputs[q][r].lineage == outputs[p1][r].lineage;
    } else if SameLineage(sources, outputs, r) && outputs[p0][r].lineage == outputs[q][r].lineage {
      forall a, b | a in sources + {q} && b in sources + {q}
        ensures outputs[a][r].lineage == outputs[b][r].lineage
      {
        assert a in sources ==> outputs[a][r].lineage == outputs[p0][r].lineage;
        assert b in sources ==> outputs[b][r].lineage == outputs[p0][r].lineage;
      }
      assert false;
    }
  }

  /** Folding one more predecessor is joining with it. */
  lemma JoinMore(sources: set<u32>, q: u32, outputs: States, policy: ExactPolicy)
    requires sources != {} && q !in sources && q in outputs
    ensures JoinSet(sources + {q}, outputs, policy) == JoinStates(JoinSet(sources, outputs, policy), outputs[q], policy)
  {
    hide JoinSet, Joinable, JoinValues;
    var j, k := JoinSet(sources, outputs, policy), JoinSet(sources + {q}, outputs, policy);
    var joined := JoinStates(j, outputs[q], policy);
    forall r: Register
      ensures r in k <==> r in joined
      ensures r in k ==> k[r] == joined[r]
    {
      JoinMoreAt(sources, q, outputs, policy, r);
    }
    assert k.Keys == joined.Keys;
  }

  lemma JoinMoreAt(sources: set<u32>, q: u32, outputs: States, policy: ExactPolicy, r: Register)
    requires sources != {} && q !in sources && q in outputs
    ensures var j, k := JoinSet(sources, outputs, policy), JoinSet(sources + {q}, outputs, policy);
            && (r in k <==> r in j && r in outputs[q] && Joinable(j[r], outputs[q][r], policy))
            && (r in k ==> k[r] == JoinValues(j[r], outputs[q][r]))
  {
    if Agreed(sources + {q}, outputs, r, policy) {
      assert Agreed(sources, outputs, r, policy) by {
        forall a, b | a in sources && b in sources
          ensures PairAgrees(outputs, a, b, r, policy)
        {
          assert a in sources + {q} && b in sources + {q};
        }
      }
      AgreedMembers(sources + {q}, outputs, r, policy);
      forall a, b | a in sources + {q} && b in sources + {q}
        ensures outputs[a][r].value == outputs[b][r].value
      {
        assert PairAgrees(outputs, a, b, r, policy);
      }
      MergedMore(sources, q, outputs, r);
    }
    if Agreed(sources, outputs, r, policy) && r in outputs[q] {
      AgreedMore(sources, q, outputs, r, policy);
    }
  }

  /** Outputs that forget more, and come from at least as many predecessors, join to something that forgets more. */
  lemma JoinMonotone(few: set<u32>, many: set<u32>, s: States, t: States, policy: ExactPolicy)
    requires few != {} && few <= many && few <= s.Keys && few <= t.Keys
    requires forall p | p in few :: Forgets(s[p], t[p])
    ensures Forgets(JoinSet(few, s, policy), JoinSet(many, t, policy))
  {
    var j, k := JoinSet(few, s, policy), JoinSet(many, t, policy);
    forall r | r in k
      ensures r in j && ForgetsValue(j[r], k[r])
    {
      JoinMonotoneAt(few, many, s, t, policy, r);
    }
  }

  lemma JoinMonotoneAt(few: set<u32>, many: set<u32>, s: States, t: States, policy: ExactPolicy, r: Register)
    requires few != {} && few <= many && few <= s.Keys && few <= t.Keys
    requires forall p | p in few :: Forgets(s[p], t[p])
    requires Agreed(many, t, r, policy)
    ensures many <= t.Keys && (forall p | p in many :: r in t[p]) && (forall p | p in few :: r in s[p])
    ensures Agreed(few, s, r, policy) && ForgetsValue(Merged(few, s, r), Merged(many, t, r))
  {
    AgreedMembers(many, t, r, policy);
    forall p | p in few
      ensures r in s[p] && ForgetsValue(s[p][r], t[p][r])
    {
    }
    forall p, q | p in few && q in few
      ensures PairAgrees(s, p, q, r, policy)
    {
      assert PairAgrees(t, p, q, r, policy);
    }
    var p0, p1 := Least(few), Least(many);
    assert PairAgrees(t, p0, p1, r, policy);
    forall d | d in DefinitionsOf(few, s, r)
      ensures d in DefinitionsOf(many, t, r)
    {
      var p :| p in few && d in s[p][r].definitions;
      assert p in many && d in t[p][r].definitions;
    }
    if SameLineage(many, t, r) && t[p1][r].lineage.Some? {
      assert t[p0][r].lineage == t[p1][r].lineage;
      forall p, q | p in few && q in few
        ensures s[p][r].lineage == s[q][r].lineage
      {
        assert t[p][r].lineage == t[p1][r].lineage && t[q][r].lineage == t[p1][r].lineage;
      }
    }
  }
}
