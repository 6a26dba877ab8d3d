/** What the counters of a report of globals count, as sets of proposals and addresses. */
module GlobalCounts {
  import opened Words
  import opened GlobalResolution

  /** The addresses where names are proposed but none wins. */
  ghost function Conflicts(proposals: seq<Proposal>): set<u64> {
    set a | a in Addresses(proposals) && IsConflict(proposals, a)
  }

  /** The only name recovered at the address is another one. */
  ghost predicate IsSetAside(proposals: seq<Proposal>, k: int)
    requires 0 <= k < |proposals|
  {
    var p := proposals[k];
    exists name :: RecoveredAt(proposals, p.address) == {name} && name != p.name
  }

  ghost function SetAside(proposals: seq<Proposal>): set<int> {
    set k | 0 <= k < |proposals| && IsSetAside(proposals, k)
  }

  ghost function OfTier(proposals: seq<Proposal>, tier: Tier): set<int> {
    set k | 0 <= k < |proposals| && proposals[k].tier == tier
  }

  ghost function GlobalsOfTier(globals: seq<Global>, tier: Tier): set<int> {
    set k | 0 <= k < |globals| && globals[k].tier == tier
  }

  ghost predicate CountsReport(proposals: seq<Proposal>, r: Report) {
    && r.recoveredCount == |GlobalsOfTier(r.globals, Recovered)|
    && r.conflictsDropped == |Conflicts(proposals)|
    && r.suppressedByRecovered == |SetAside(proposals)|
    && r.provisionalGenerated == |OfTier(proposals, Provisional)|
    && r.provisionalSuppressed == |OfTier(proposals, Provisional)| - |GlobalsOfTier(r.globals, Provisional)|
  }

  // ---------------------------------------------------------------- sums of ones

  ghost function Ones(proposals: seq<Proposal>, weight: Proposal -> nat): set<int> {
    set k | 0 <= k < |proposals| && weight(proposals[k]) == 1
  }

  lemma {:induction false} SumCounts(proposals: seq<Proposal>, weight: Proposal -> nat)
    requires forall p :: weight(p) <= 1
    ensures Sum(proposals, weight) == |Ones(proposals, weight)|
    decreases |proposals|
  {
    if proposals == [] {
      assert Ones(proposals, weight) == {};
    } else {
      var n := |proposals| - 1;
      SumCounts(proposals[..n], weight);
      var rest := Ones(proposals[..n], weight);
      forall k
        ensures k in Ones(proposals, weight) <==> k in rest + if weight(proposals[n]) == 1 then {n} else {}
      {
        assert 0 <= k < n ==> proposals[..n][k] == proposals[k];
      }
      assert Ones(proposals, weight) == rest + if weight(proposals[n]) == 1 then {n} else {};
    }
  }

  lemma TiersMore(globals: seq<Global>, tier: Tier)
    requires globals != []
    ensures var n := |globals| - 1;
            && n !in GlobalsOfTier(globals[..n], tier)
            && GlobalsOfTier(globals, tier)
               == GlobalsOfTier(globals[..n], tier) + if globals[n].tier == tier then {n} else {}
  {
    var n := |globals| - 1;
    var rest := GlobalsOfTier(globals[..n], tier);
    forall k
      ensures k in GlobalsOfTier(globals, tier) <==> k in rest + if globals[n].tier == tier then {n} else {}
    {
      assert 0 <= k < n ==> globals[..n][k] == globals[k];
    }
  }

  lemma {:induction false} TiersCount(globals: seq<Global>, tier: Tier)
    ensures TierCount(globals, tier) == |GlobalsOfTier(globals, tier)|
    decreases |globals|
  {
    if globals == [] {
      assert GlobalsOfTier(globals, tier) == {};
    } else {
      var n := |globals| - 1;
      TiersCount(globals[..n], tier);
      TiersMore(globals, tier);
      hide GlobalsOfTier;
    }
  }

  lemma ProvisionalCount(proposals: seq<Proposal>)
    ensures Sum(proposals, ProvisionalIn(Addresses(proposals))) == |OfTier(proposals, Provisional)|
  {
    var weight := ProvisionalIn(Addresses(proposals));
    SumCounts(proposals, weight);
    forall k | 0 <= k < |proposals|
      ensures weight(proposals[k]) == 1 <==> proposals[k].tier == Provisional
    {
      assert proposals[k] in proposals;
    }
    assert Ones(proposals, weight) == OfTier(proposals, Provisional);
  }

  // ---------------------------------------------------------------- counts over the addresses

  ghost function ConflictsIn(proposals: seq<Proposal>, order: seq<u64>): set<u64> {
    set a | a in order && IsConflict(proposals, a)
  }

  lemma ConflictsMore(proposals: seq<Proposal>, order: seq<u64>)
    requires StrictlyUp(order) && order != []
    ensures var n := |order| - 1;
            && order[n] !in ConflictsIn(proposals, order[..n])
            && ConflictsIn(proposals, order)
               == ConflictsIn(proposals, order[..n]) + if IsConflict(proposals, order[n]) then {order[n]} else {}
  {
    hide IsConflict;
    var n := |order| - 1;
    assert order == order[..n] + [order[n]];
    assert forall i | 0 <= i < n :: order[..n][i] != order[n];
    hide StrictlyUp;
  }

  lemma {:induction false} ConflictsCount(proposals: seq<Proposal>, order: seq<u64>)
    requires StrictlyUp(order)
    ensures ConflictCount(proposals, order) == |ConflictsIn(proposals, order)|
    decreases |order|
  {
    hide IsConflict;
    if order == [] {
      assert ConflictsIn(proposals, order) == {};
    } else {
      var n := |order| - 1;
      ConflictsCount(proposals, order[..n]);
      ConflictsMore(proposals, order);
    }
  }

  ghost function SetAsideIn(proposals: seq<Proposal>, order: seq<u64>): set<int> {
    set k | 0 <= k < |proposals| && proposals[k].address in order && IsSetAside(proposals, k)
  }

  ghost function SetAsideAt(proposals: seq<Proposal>, a: u64): set<int> {
    set k | 0 <= k < |proposals| && proposals[k].address == a && IsSetAside(proposals, k)
  }

  lemma SuppressedCount(proposals: seq<Proposal>, a: u64)
    ensures SuppressedAt(proposals, a) == |SetAsideAt(proposals, a)|
  {
    var names, recovered := NamesAt(proposals, a), RecoveredAt(proposals, a);
    var weight := UnderNames(a, names - recovered);
    SumCounts(proposals, weight);
    if |recovered| == 1 {
      OneRecovered(proposals, a);
    } else {
      NotOneRecovered(proposals, a);
    }
  }

  lemma NotOneRecovered(proposals: seq<Proposal>, a: u64)
    requires |RecoveredAt(proposals, a)| != 1
    ensures SetAsideAt(proposals, a) == {}
  {
    hide RecoveredAt;
    forall k | 0 <= k < |proposals| && proposals[k].address == a
      ensures !IsSetAside(proposals, k)
    {
      assert forall name :: RecoveredAt(proposals, a) == {name} ==> |RecoveredAt(proposals, a)| == 1;
    }
  }

  lemma OneRecovered(proposals: seq<Proposal>, a: u64)
    requires |RecoveredAt(proposals, a)| == 1
    ensures SuppressedAt(proposals, a) == |SetAsideAt(proposals, a)|
  {
    var names, recovered := NamesAt(proposals, a), RecoveredAt(proposals, a);
    var name :| name in recovered;
    OnlyMember(recovered, name);
    var weight := UnderNames(a, names - recovered);
    SumCounts(proposals, weight);
    forall k | 0 <= k < |proposals|
      ensures weight(proposals[k]) == 1 <==> proposals[k].address == a && proposals[k].name != name
    {
      assert proposals[k] in proposals;
      assert proposals[k].address == a ==> proposals[k].name in names;
    }
    forall k | 0 <= k < |proposals| && proposals[k].address == a
      ensures IsSetAside(proposals, k) <==> proposals[k].name != name
    {
      assert forall other :: RecoveredAt(proposals, a) == {other} ==> other in RecoveredAt(proposals, a);
    }
    assert Ones(proposals, weight) == SetAsideAt(proposals, a);
    if |names| <= 1 {
      assert name in names;
      OnlyMember(names, name);
      NothingAside(proposals, a, name);
    }
  }

  lemma OnlyMember(names: set<string>, name: string)
    requires name in names && |names| <= 1
    ensures names == {name}
  {
    assert |names - {name}| == 0;
  }

  lemma NothingAside(proposals: seq<Proposal>, a: u64, name: string)
    requires NamesAt(proposals, a) == {name} && RecoveredAt(proposals, a) == {name}
    ensures SetAsideAt(proposals, a) == {}
  {
    forall k | 0 <= k < |proposals| && proposals[k].address == a
      ensures !IsSetAside(proposals, k)
    {
      assert proposals[k] in proposals && proposals[k].name in NamesAt(proposals, a);
      assert forall other :: RecoveredAt(proposals, a) == {other} ==> other in {name};
    }
  }

  lemma {:induction false} SuppressedCounts(proposals: seq<Proposal>, order: seq<u64>)
    requires StrictlyUp(order)
    ensures SuppressedTotal(proposals, order) == |SetAsideIn(proposals, order)|
    decreases |order|
  {
    hide IsSetAside, SuppressedAt;
    if order == [] {
      assert SetAsideIn(proposals, order) == {};
    } else {
      var n := |order| - 1;
      SuppressedCounts(proposals, order[..n]);
      SuppressedCount(proposals, order[n]);
      assert order == order[..n] + [order[n]];
      assert forall i | 0 <= i < n :: order[..n][i] != order[n];
      var rest, last := SetAsideIn(proposals, order[..n]), SetAsideAt(proposals, order[n]);
      assert SetAsideIn(proposals, order) == rest + last && rest !! last;
    }
  }

  /** The counters of a report count what they are named for. */
  lemma ReportCounts(proposals: seq<Proposal>, includeProvisional: bool, r: Report)
    requires Reports(proposals, includeProvisional, r)
    ensures CountsReport(proposals, r)
  {
    var order :| ReportOk(proposals, includeProvisional, order, r);
    ConflictsCount(proposals, order);
    SuppressedCounts(proposals, order);
    ProvisionalCount(proposals);
    TiersCount(r.globals, Recovered);
    TiersCount(r.globals, Provisional);
    hide IsConflict, IsSetAside, ConflictCount, SuppressedTotal, Sum, GlobalsOf, TierCount;
    assert ConflictsIn(proposals, order) == Conflicts(proposals);
    forall k | 0 <= k < |proposals|
      ensures proposals[k].address in order
    {
      assert proposals[k] in proposals;
    }
    assert SetAsideIn(proposals, order) == SetAside(proposals);
  }
}
