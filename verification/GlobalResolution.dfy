/**
 * Resolving the names proposed for data addresses. Which names win, with which tier, and every counter
 * depend only on what was proposed, not on the order of functions or of hash maps.
 */
module GlobalResolution {
  import opened Words
  import opened Sorting

  datatype Tier = Recovered | Provisional

  /** One function's proposal of a name for an address. */
  datatype Proposal = Proposal(address: u64, name: string, tier: Tier, contributor: nat)

  datatype Global = Global(address: u64, name: string, tier: Tier)

  datatype Report = Report(globals: seq<Global>, recoveredCount: nat, conflictsDropped: nat,
                           provisionalGenerated: nat, suppressedByRecovered: nat, provisionalSuppressed: nat)

  // ---------------------------------------------------------------- what was proposed

  function NamesAt(proposals: seq<Proposal>, address: u64): set<string> {
    set p | p in proposals && p.address == address :: p.name
  }

  function RecoveredAt(proposals: seq<Proposal>, address: u64): set<string> {
    set p | p in proposals && p.address == address && p.tier.Recovered? :: p.name
  }

  function Addresses(proposals: seq<Proposal>): set<u64> {
    set p | p in proposals :: p.address
  }

  /** The total weight of the proposals. */
  ghost function Sum(proposals: seq<Proposal>, weight: Proposal -> nat): nat {
    if proposals == [] then 0
    else Sum(proposals[..|proposals| - 1], weight) + weight(proposals[|proposals| - 1])
  }

  /** Counts the proposals at an address under one of the names. */
  function UnderNames(address: u64, names: set<string>): Proposal -> nat {
    (p: Proposal) => if p.address == address && p.name in names then 1 else 0
  }

  /** Counts the provisional proposals at the addresses. */
  function ProvisionalIn(addresses: set<u64>): Proposal -> nat {
    (p: Proposal) => if p.tier.Provisional? && p.address in addresses then 1 else 0
  }

  lemma {:induction false} SumConcat(xs: seq<Proposal>, ys: seq<Proposal>, weight: Proposal -> nat)
    ensures Sum(xs + ys, weight) == Sum(xs, weight) + Sum(ys, weight)
    decreases |ys|
  {
    if ys == [] {
      assert xs + ys == xs;
    } else {
      SumConcat(xs, ys[..|ys| - 1], weight);
      assert (xs + ys)[..|xs + ys| - 1] == xs + ys[..|ys| - 1];
    }
  }

  lemma {:induction false} SumPermuted(xs: seq<Proposal>, ys: seq<Proposal>, weight: Proposal -> nat)
    requires multiset(xs) == multiset(ys)
    ensures Sum(xs, weight) == Sum(ys, weight)
    decreases |xs|
  {
    if xs == [] {
      assert |multiset(ys)| == 0;
    } else {
      var x, rest := xs[|xs| - 1], xs[..|xs| - 1];
      assert xs == rest + [x] && x in multiset(ys);
      var k :| 0 <= k < |ys| && ys[k] == x;
      var before, after := ys[..k], ys[k + 1..];
      assert ys == before + [x] + after;
      Removed(rest, before, x, after);
      SumPermuted(rest, before + after, weight);
      SumConcat(before, after, weight);
      SumConcat(before, [x], weight);
      SumConcat(before + [x], after, weight);
      SumSingle(x, weight);
    }
  }

  lemma SumSingle(x: Proposal, weight: Proposal -> nat)
    ensures Sum([x], weight) == weight(x)
  {
    assert [x][..0] == [];
  }

  lemma Removed(rest: seq<Proposal>, before: seq<Proposal>, x: Proposal, after: seq<Proposal>)
    requires multiset(rest + [x]) == multiset(before + [x] + after)
    ensures multiset(rest) == multiset(before + after)
  {
    assert multiset(rest + [x]) - multiset{x} == multiset(rest);
    assert multiset(before + [x] + after) - multiset{x} == multiset(before + after);
  }

  lemma {:induction false} SumSplit(xs: seq<Proposal>, f: Proposal -> nat, g: Proposal -> nat, h: Proposal -> nat)
    requires forall k | 0 <= k < |xs| :: h(xs[k]) == f(xs[k]) + g(xs[k])
    ensures Sum(xs, h) == Sum(xs, f) + Sum(xs, g)
    decreases |xs|
  {
    if xs != [] {
      SumSplit(xs[..|xs| - 1], f, g, h);
    }
  }

  lemma {:induction false} SumAtLeast(xs: seq<Proposal>, f: Proposal -> nat, k: nat)
    requires k < |xs|
    ensures Sum(xs, f) >= f(xs[k])
    decreases |xs|
  {
    if k < |xs| - 1 {
      SumAtLeast(xs[..|xs| - 1], f, k);
    }
  }

  // ---------------------------------------------------------------- who wins

  /** The only name proposed, or the only recovered one. */
  ghost predicate Wins(proposals: seq<Proposal>, address: u64, name: string) {
    RecoveredAt(proposals, address) == {name} || NamesAt(proposals, address) == {name}
  }

  ghost predicate Materializes(proposals: seq<Proposal>, includeProvisional: bool, g: Global) {
    && Wins(proposals, g.address, g.name)
    && g.tier == (if g.name in RecoveredAt(proposals, g.address) then Recovered else Provisional)
    && (g.tier.Recovered? || includeProvisional)
  }

  ghost predicate IsConflict(proposals: seq<Proposal>, address: u64) {
    address in Addresses(proposals) && forall name :: !Wins(proposals, address, name)
  }

  lemma SingletonCount<T>(s: set<T>)
    ensures |s| == 1 <==> exists x :: s == {x}
  {
    if |s| == 1 {
      var x :| x in s;
      assert |s - {x}| == 0;
      assert s == {x};
    }
  }

  // ---------------------------------------------------------------- grouping

  type Groups = map<u64, map<string, seq<Proposal>>>

  function Picked(proposals: seq<Proposal>, address: u64, name: string): seq<Proposal> {
    if proposals == [] then []
    else
      var last := proposals[|proposals| - 1];
      Picked(proposals[..|proposals| - 1], address, name)
      + if last.address == address && last.name == name then [last] else []
  }

  /** `entry(address).or_default().entry(name).or_default().push(..)`. */
  function Pushed(groups: Groups, p: Proposal): Groups {
    var names := if p.address in groups then groups[p.address] else map[];
    var list := if p.name in names then names[p.name] else [];
    groups[p.address := names[p.name := list + [p]]]
  }

  ghost predicate Grouped(proposals: seq<Proposal>, groups: Groups) {
    && groups.Keys == Addresses(proposals)
    && (forall a | a in groups :: GroupedAt(proposals, groups, a))
  }

  ghost predicate GroupedAt(proposals: seq<Proposal>, groups: Groups, a: u64)
    requires a in groups
  {
    && groups[a].Keys == NamesAt(proposals, a)
    && forall n | n in groups[a] :: groups[a][n] == Picked(proposals, a, n)
  }

  lemma {:induction false} PickedMembers(proposals: seq<Proposal>, a: u64, n: string)
    ensures forall p :: p in Picked(proposals, a, n) <==> p in proposals && p.address == a && p.name == n
    decreases |proposals|
  {
    if proposals != [] {
      var k := |proposals| - 1;
      PickedMembers(proposals[..k], a, n);
      assert proposals == proposals[..k] + [proposals[k]];
    }
  }

  lemma PickedNames(proposals: seq<Proposal>, a: u64, n: string)
    ensures Picked(proposals, a, n) != [] <==> n in NamesAt(proposals, a)
  {
    PickedMembers(proposals, a, n);
    if Picked(proposals, a, n) != [] {
      var p := Picked(proposals, a, n)[0];
      assert p in Picked(proposals, a, n);
    }
    if n in NamesAt(proposals, a) {
      var p :| p in proposals && p.address == a && p.name == n;
      assert p in Picked(proposals, a, n);
    }
  }

  lemma {:induction false} PickedTally(proposals: seq<Proposal>, a: u64, n: string)
    ensures Sum(proposals, UnderNames(a, {n})) == |Picked(proposals, a, n)|
    decreases |proposals|
  {
    if proposals != [] {
      PickedTally(proposals[..|proposals| - 1], a, n);
    }
  }

  lemma NamesMore(proposals: seq<Proposal>, p: Proposal, a: u64)
    ensures NamesAt(proposals + [p], a) == NamesAt(proposals, a) + if p.address == a then {p.name} else {}
    ensures Addresses(proposals + [p]) == Addresses(proposals) + {p.address}
  {
    var more := proposals + [p];
    assert forall q :: q in more <==> q in proposals || q == p;
  }

  lemma PickedMore(proposals: seq<Proposal>, p: Proposal, a: u64, n: string)
    ensures Picked(proposals + [p], a, n)
         == Picked(proposals, a, n) + if p.address == a && p.name == n then [p] else []
  {
    assert (proposals + [p])[..|proposals + [p]| - 1] == proposals;
  }

  lemma PushedAt(proposals: seq<Proposal>, groups: Groups, p: Proposal, a: u64)
    requires Grouped(proposals, groups) && a in Pushed(groups, p)
    ensures GroupedAt(proposals + [p], Pushed(groups, p), a)
  {
    hide Picked, NamesAt, Addresses;
    NamesMore(proposals, p, a);
    var pushed := Pushed(groups, p);
    NoNames(proposals, a);
    forall n | n in pushed[a]
      ensures pushed[a][n] == Picked(proposals + [p], a, n)
    {
      PickedMore(proposals, p, a, n);
      PickedNames(proposals, a, n);
    }
  }

  lemma NoNames(proposals: seq<Proposal>, a: u64)
    ensures a !in Addresses(proposals) ==> NamesAt(proposals, a) == {}
    ensures a in Addresses(proposals) ==> NamesAt(proposals, a) != {}
  {
    if a in Addresses(proposals) {
      var p :| p in proposals && p.address == a;
      assert p.name in NamesAt(proposals, a);
    }
  }

  /** The proposals by address and by name, each list in the order of proposal. */
  method GroupProposals(proposals: seq<Proposal>) returns (groups: Groups)
    ensures Grouped(proposals, groups)
  {
    hide GroupedAt, Addresses, Pushed;
    groups := map[];
    NothingGrouped();
    assert proposals[..0] == [];
    for k := 0 to |proposals|
      invariant Grouped(proposals[..k], groups)
    {
      var p := proposals[k];
      GroupedMore(proposals[..k], groups, p);
      assert proposals[..k + 1] == proposals[..k] + [p];
      groups := Pushed(groups, p);
    }
    assert proposals[..|proposals|] == proposals;
  }

  lemma NothingGrouped()
    ensures Grouped([], map[])
  {
  }

  lemma GroupedMore(proposals: seq<Proposal>, groups: Groups, p: Proposal)
    requires Grouped(proposals, groups)
    ensures Grouped(proposals + [p], Pushed(groups, p))
  {
    NamesMore(proposals, p, p.address);
    hide GroupedAt;
    forall a | a in Pushed(groups, p)
      ensures GroupedAt(proposals + [p], Pushed(groups, p), a)
    {
      PushedAt(proposals, groups, p, a);
    }
  }

  // ---------------------------------------------------------------- one address

  predicate AnyRecovered(list: seq<Proposal>) {
    exists k :: 0 <= k < |list| && list[k].tier.Recovered?
  }

  lemma AnyRecoveredIs(proposals: seq<Proposal>, a: u64, n: string)
    ensures AnyRecovered(Picked(proposals, a, n)) <==> n in RecoveredAt(proposals, a)
    ensures RecoveredAt(proposals, a) <= NamesAt(proposals, a)
  {
    PickedMembers(proposals, a, n);
    var list := Picked(proposals, a, n);
    if k :| 0 <= k < |list| && list[k].tier.Recovered? {
      assert list[k] in list;
    }
    if n in RecoveredAt(proposals, a) {
      var p :| p in proposals && p.address == a && p.tier.Recovered? && p.name == n;
      assert p in list;
    }
  }

  /** The provisional proposals that a single recovered name sets aside. */
  ghost function SuppressedAt(proposals: seq<Proposal>, a: u64): nat {
    if |NamesAt(proposals, a)| > 1 && |RecoveredAt(proposals, a)| == 1 then
      Sum(proposals, UnderNames(a, NamesAt(proposals, a) - RecoveredAt(proposals, a)))
    else 0
  }

  lemma TallyMore(proposals: seq<Proposal>, a: u64, names: set<string>, n: string)
    requires n !in names
    ensures Sum(proposals, UnderNames(a, names + {n}))
         == Sum(proposals, UnderNames(a, names)) + |Picked(proposals, a, n)|
  {
    PickedTally(proposals, a, n);
    SumSplit(proposals, UnderNames(a, names), UnderNames(a, {n}), UnderNames(a, names + {n}));
  }

  lemma {:induction false} TallyNothing(proposals: seq<Proposal>, a: u64)
    ensures Sum(proposals, UnderNames(a, {})) == 0
    decreases |proposals|
  {
    if proposals != [] {
      TallyNothing(proposals[..|proposals| - 1], a);
    }
  }

  lemma TallyPositive(proposals: seq<Proposal>, a: u64, names: set<string>)
    requires names <= NamesAt(proposals, a)
    ensures Sum(proposals, UnderNames(a, names)) > 0 <==> names != {}
  {
    if names == {} {
      TallyNothing(proposals, a);
    } else {
      var n :| n in names;
      var p :| p in proposals && p.address == a && p.name == n;
      var k :| 0 <= k < |proposals| && proposals[k] == p;
      SumAtLeast(proposals, UnderNames(a, names), k);
    }
  }

  /** What the loop over the names has counted; `seen` grows in any order. */
  ghost predicate Counted(proposals: seq<Proposal>, a: u64, seen: set<string>, recovered: Option<string>, names: nat,
                          contributors: nat)
  {
    && names == |RecoveredAt(proposals, a) * seen|
    && (recovered.Some? <==> names > 0)
    && (recovered.Some? ==> recovered.value in RecoveredAt(proposals, a) * seen)
    && contributors == Sum(proposals, UnderNames(a, seen - RecoveredAt(proposals, a)))
  }

  lemma CountedRecovered(proposals: seq<Proposal>, a: u64, seen: set<string>, recovered: Option<string>, names: nat,
                         contributors: nat, n: string)
    requires Counted(proposals, a, seen, recovered, names, contributors) && n !in seen
    requires n in RecoveredAt(proposals, a)
    ensures Counted(proposals, a, seen + {n}, if recovered.None? then Some(n) else recovered, names + 1, contributors)
  {
    hide *;
    CountedIs(proposals, a, seen, recovered, names, contributors);
    WithMember(RecoveredAt(proposals, a), seen, n);
    CountedFrom(proposals, a, seen + {n}, if recovered.None? then Some(n) else recovered, names + 1, contributors);
  }

  lemma CountedProvisional(proposals: seq<Proposal>, a: u64, seen: set<string>, recovered: Option<string>, names: nat,
                           contributors: nat, n: string)
    requires Counted(proposals, a, seen, recovered, names, contributors) && n !in seen
    requires n !in RecoveredAt(proposals, a)
    ensures Counted(proposals, a, seen + {n}, recovered, names, contributors + |Picked(proposals, a, n)|)
  {
    hide *;
    var r := RecoveredAt(proposals, a);
    CountedIs(proposals, a, seen, recovered, names, contributors);
    WithOutsider(r, seen, n);
    TallyMore(proposals, a, seen - r, n);
    CountedFrom(proposals, a, seen + {n}, recovered, names, contributors + |Picked(proposals, a, n)|);
  }

  lemma WithMember(r: set<string>, seen: set<string>, n: string)
    requires n in r && n !in seen
    ensures r * (seen + {n}) == r * seen + {n} && |r * (seen + {n})| == |r * seen| + 1 && seen + {n} - r == seen - r
  {
    assert r * (seen + {n}) == r * seen + {n};
  }

  lemma WithOutsider(r: set<string>, seen: set<string>, n: string)
    requires n !in r && n !in seen
    ensures r * (seen + {n}) == r * seen && seen + {n} - r == (seen - r) + {n} && n !in seen - r
  {
  }

  lemma CountedIs(proposals: seq<Proposal>, a: u64, seen: set<string>, recovered: Option<string>, names: nat,
                  contributors: nat)
    requires Counted(proposals, a, seen, recovered, names, contributors)
    ensures names == |RecoveredAt(proposals, a) * seen| && (recovered.Some? <==> names > 0)
    ensures recovered.Some? ==> recovered.value in RecoveredAt(proposals, a) * seen
    ensures contributors == Sum(proposals, UnderNames(a, seen - RecoveredAt(proposals, a)))
  {
    hide Sum, UnderNames, RecoveredAt;
  }

  lemma CountedFrom(proposals: seq<Proposal>, a: u64, seen: set<string>, recovered: Option<string>, names: nat,
                    contributors: nat)
    requires names == |RecoveredAt(proposals, a) * seen| && (recovered.Some? <==> names > 0)
    requires recovered.Some? ==> recovered.value in RecoveredAt(proposals, a) * seen
    requires contributors == Sum(proposals, UnderNames(a, seen - RecoveredAt(proposals, a)))
    ensures Counted(proposals, a, seen, recovered, names, contributors)
  {
    hide Sum, UnderNames, RecoveredAt;
  }

  lemma CountedNone(proposals: seq<Proposal>, a: u64)
    ensures Counted(proposals, a, {}, None, 0, 0)
  {
    TallyNothing(proposals, a);
    assert {} - RecoveredAt(proposals, a) == {} && RecoveredAt(proposals, a) * {} == {};
  }

  /** What has been decided about an address. */
  ghost predicate Decided(proposals: seq<Proposal>, a: u64, winner: Option<string>, suppressed: nat) {
    && (winner.Some? ==> Wins(proposals, a, winner.value))
    && (winner.None? ==> forall n :: !Wins(proposals, a, n))
    && suppressed == SuppressedAt(proposals, a)
  }

  lemma DecidedSingle(proposals: seq<Proposal>, a: u64, n: string)
    requires NamesAt(proposals, a) == {n}
    ensures Decided(proposals, a, Some(n), 0)
  {
  }

  lemma DecidedMany(proposals: seq<Proposal>, a: u64, recovered: Option<string>, names: nat, contributors: nat)
    requires Counted(proposals, a, NamesAt(proposals, a), recovered, names, contributors)
    requires |NamesAt(proposals, a)| > 1
    ensures names == 1 && contributors > 0 ==> Decided(proposals, a, recovered, contributors)
    ensures !(names == 1 && contributors > 0) ==> Decided(proposals, a, None, 0)
  {
    var all, r := NamesAt(proposals, a), RecoveredAt(proposals, a);
    assert r <= all by { AnyRecoveredIs(proposals, a, ""); }
    assert r * all == r;
    TallyPositive(proposals, a, all - r);
    SingletonCount(r);
    SingletonCount(all);
    hide NamesAt, RecoveredAt, Sum;
    if names == 1 {
      var x :| r == {x};
      assert all - r == {} ==> all == {x};
    }
  }

  /** Decides one address; the names are visited in any order. */
  method DecideAddress(names: map<string, seq<Proposal>>, ghost proposals: seq<Proposal>, ghost a: u64)
    returns (winner: Option<string>, suppressed: nat)
    requires names.Keys == NamesAt(proposals, a) && names.Keys != {}
    requires forall n | n in names :: names[n] == Picked(proposals, a, n)
    ensures Decided(proposals, a, winner, suppressed)
  {
    hide NamesAt, RecoveredAt, Picked, Sum, Decided, Counted, AnyRecovered;
    if |names.Keys| == 1 {
      var n :| n in names.Keys;
      SingletonCount(names.Keys);
      DecidedSingle(proposals, a, n);
      return Some(n), 0;
    }
    var left := names.Keys;
    var recovered: Option<string> := None;
    var recoveredNames: nat, contributors: nat := 0, 0;
    CountedNone(proposals, a);
    assert names.Keys - left == {};
    while left != {}
      invariant left <= names.Keys
      invariant Counted(proposals, a, names.Keys - left, recovered, recoveredNames, contributors)
      decreases |left|
    {
      var n :| n in left;
      AnyRecoveredIs(proposals, a, n);
      assert names.Keys - (left - {n}) == names.Keys - left + {n};
      if AnyRecovered(names[n]) {
        CountedRecovered(proposals, a, names.Keys - left, recovered, recoveredNames, contributors, n);
        recoveredNames := recoveredNames + 1;
        if recovered.None? {
          recovered := Some(n);
        }
      } else {
        CountedProvisional(proposals, a, names.Keys - left, recovered, recoveredNames, contributors, n);
        contributors := contributors + |names[n]|;
      }
      left := left - {n};
    }
    assert names.Keys - left == names.Keys;
    DecidedMany(proposals, a, recovered, recoveredNames, contributors);
    if recoveredNames == 1 && contributors > 0 {
      return recovered, contributors;
    }
    return None, 0;
  }

  // ---------------------------------------------------------------- the whole resolution

  predicate AtMost(a: u64, b: u64) {
    a <= b
  }

  ghost predicate StrictlyUp(order: seq<u64>) {
    forall i, j | 0 <= i < j < |order| :: order[i] < order[j]
  }

  /** The proposed addresses in ascending order. */
  ghost predicate IsAddressOrder(proposals: seq<Proposal>, order: seq<u64>) {
    StrictlyUp(order) && forall a :: a in order <==> a in Addresses(proposals)
  }

  ghost function ConflictCount(proposals: seq<Proposal>, order: seq<u64>): nat {
    if order == [] then 0
    else ConflictCount(proposals, order[..|order| - 1]) + if IsConflict(proposals, order[|order| - 1]) then 1 else 0
  }

  ghost function SuppressedTotal(proposals: seq<Proposal>, order: seq<u64>): nat {
    if order == [] then 0
    else SuppressedTotal(proposals, order[..|order| - 1]) + SuppressedAt(proposals, order[|order| - 1])
  }

  function TierCount(globals: seq<Global>, tier: Tier): nat {
    if globals == [] then 0
    else TierCount(globals[..|globals| - 1], tier) + if globals[|globals| - 1].tier == tier then 1 else 0
  }

  ghost predicate GlobalsUp(globals: seq<Global>) {
    forall i, j | 0 <= i < j < |globals| :: globals[i].address < globals[j].address
  }

  /** The globals of the addresses handled so far. */
  ghost predicate GlobalsOf(proposals: seq<Proposal>, includeProvisional: bool, order: seq<u64>, globals: seq<Global>) {
    && GlobalsUp(globals)
    && (forall g :: g in globals <==> g.address in order && Materializes(proposals, includeProvisional, g))
  }

  ghost predicate ReportOk(proposals: seq<Proposal>, includeProvisional: bool, order: seq<u64>, r: Report) {
    && IsAddressOrder(proposals, order)
    && GlobalsOf(proposals, includeProvisional, order, r.globals)
    && r.recoveredCount == TierCount(r.globals, Recovered)
    && r.conflictsDropped == ConflictCount(proposals, order)
    && r.suppressedByRecovered == SuppressedTotal(proposals, order)
    && r.provisionalGenerated == Sum(proposals, ProvisionalIn(Addresses(proposals)))
    && TierCount(r.globals, Provisional) <= r.provisionalGenerated
    && r.provisionalSuppressed == r.provisionalGenerated - TierCount(r.globals, Provisional)
  }

  /** The report of the proposals, over their addresses in ascending order. */
  ghost predicate Reports(proposals: seq<Proposal>, includeProvisional: bool, r: Report) {
    exists order :: ReportOk(proposals, includeProvisional, order, r)
  }

  lemma ReportsIn(proposals: seq<Proposal>, includeProvisional: bool, order: seq<u64>, r: Report)
    requires ReportOk(proposals, includeProvisional, order, r)
    ensures Reports(proposals, includeProvisional, r)
  {
    hide ReportOk;
  }

  method SortedAddresses(groups: Groups) returns (order: seq<u64>)
    ensures StrictlyUp(order) && forall a :: a in order <==> a in groups
  {
    var listed: seq<u64> := [];
    var left := groups.Keys;
    while left != {}
      invariant left <= groups.Keys && (forall i, j | 0 <= i < j < |listed| :: listed[i] != listed[j])
      invariant forall a :: a in listed <==> a in groups && a !in left
      decreases |left|
    {
      var a: u64 :| a in left;
      assert a !in listed;
      listed := listed + [a];
      left := left - {a};
    }
    order := Sort(AtMost, listed);
    SortedUp(listed);
  }

  lemma SortedUp(listed: seq<u64>)
    requires forall i, j | 0 <= i < j < |listed| :: listed[i] != listed[j]
    ensures var order := Sort(AtMost, listed); StrictlyUp(order) && forall a :: a in order <==> a in listed
  {
    var order := Sort(AtMost, listed);
    SortMembers(AtMost, listed);
    SortSorted(AtMost, listed);
    hide Sort;
    PairwisePermuted((a: u64, b: u64) => a != b, listed, order);
    forall i, j | 0 <= i < j < |order|
      ensures order[i] < order[j]
    {
      assert AtMost(order[i], order[j]);
    }
  }

  /** The winner at an address is a global, unless it is provisional and not wanted. */
  function Outcome(a: u64, winner: Option<string>, recovered: bool, includeProvisional: bool): seq<Global> {
    if winner.None? || (!recovered && !includeProvisional) then []
    else [Global(a, winner.value, if recovered then Recovered else Provisional)]
  }

  lemma OutcomeIs(proposals: seq<Proposal>, includeProvisional: bool, a: u64, winner: Option<string>, suppressed: nat,
                  recovered: bool)
    requires a in Addresses(proposals) && Decided(proposals, a, winner, suppressed)
    requires winner.Some? ==> recovered == (winner.value in RecoveredAt(proposals, a))
    ensures forall g: Global | g.address == a ::
              g in Outcome(a, winner, recovered, includeProvisional) <==> Materializes(proposals, includeProvisional, g)
    ensures IsConflict(proposals, a) <==> winner.None?
  {
    NoNames(proposals, a);
    AnyRecoveredIs(proposals, a, "");
    hide NamesAt, Addresses, SuppressedAt;
    if winner.Some? {
      forall n | Wins(proposals, a, n)
        ensures n == winner.value
      {
        OneWinner(proposals, a, n, winner.value);
      }
    }
  }

  lemma OneWinner(proposals: seq<Proposal>, a: u64, m: string, n: string)
    requires Wins(proposals, a, m) && Wins(proposals, a, n) && a in Addresses(proposals)
    ensures m == n
  {
    AnyRecoveredIs(proposals, a, m);
    hide NamesAt, RecoveredAt, Addresses;
    assert RecoveredAt(proposals, a) == {m} || NamesAt(proposals, a) == {m};
    assert RecoveredAt(proposals, a) == {n} || NamesAt(proposals, a) == {n};
    assert m in {m} && n in {n};
  }

  lemma GlobalsMore(proposals: seq<Proposal>, includeProvisional: bool, order: seq<u64>, globals: seq<Global>, a: u64,
                    more: seq<Global>)
    requires GlobalsOf(proposals, includeProvisional, order, globals)
    requires forall b | b in order :: b < a
    requires |more| <= 1 && forall g | g in more :: g.address == a
    requires forall g: Global | g.address == a :: g in more <==> Materializes(proposals, includeProvisional, g)
    ensures GlobalsOf(proposals, includeProvisional, order + [a], globals + more)
  {
    hide Materializes;
    forall g
      ensures g in globals + more <==> g.address in order + [a] && Materializes(proposals, includeProvisional, g)
    {
      assert g in globals + more <==> g in globals || g in more;
    }
    var all := globals + more;
    forall i, j | 0 <= i < j < |all|
      ensures all[i].address < all[j].address
    {
      assert all[i] in globals;
      if j < |globals| {
        assert all[j] in globals;
      } else {
        assert all[j] in more;
      }
    }
  }

  lemma ProvisionalMore(proposals: seq<Proposal>, done: set<u64>, a: u64, globals: seq<Global>, more: seq<Global>)
    requires a !in done && TierCount(globals, Provisional) <= Sum(proposals, ProvisionalIn(done))
    requires |more| <= 1 && (more != [] && more[0].tier.Provisional? ==> HasProvisional(proposals, a))
    ensures TierCount(globals + more, Provisional) <= Sum(proposals, ProvisionalIn(done + {a}))
  {
    SumSplit(proposals, ProvisionalIn(done), ProvisionalIn({a}), ProvisionalIn(done + {a}));
    if HasProvisional(proposals, a) {
      ProvisionalThere(proposals, a);
    }
    TiersMore(globals, more);
    hide Sum, ProvisionalIn, HasProvisional, TierCount;
  }

  lemma ProvisionalThere(proposals: seq<Proposal>, a: u64)
    requires HasProvisional(proposals, a)
    ensures Sum(proposals, ProvisionalIn({a})) >= 1
  {
    var k :| 0 <= k < |proposals| && proposals[k].address == a && proposals[k].tier.Provisional?;
    SumAtLeast(proposals, ProvisionalIn({a}), k);
  }

  ghost predicate HasProvisional(proposals: seq<Proposal>, a: u64) {
    exists k :: 0 <= k < |proposals| && proposals[k].address == a && proposals[k].tier.Provisional?
  }

  /** A winner that nobody recovered was proposed provisionally. */
  lemma ProvisionalWinner(proposals: seq<Proposal>, a: u64, n: string)
    requires n in NamesAt(proposals, a) && n !in RecoveredAt(proposals, a)
    ensures HasProvisional(proposals, a)
  {
    var p :| p in proposals && p.address == a && p.name == n;
    var k :| 0 <= k < |proposals| && proposals[k] == p;
    assert p.tier.Recovered? ==> n in RecoveredAt(proposals, a);
  }

  /** One global at most for each address, ascending, and the counters. */
  method ResolveGlobals(proposals: seq<Proposal>, includeProvisional: bool)
    returns (report: Report)
    ensures Reports(proposals, includeProvisional, report)
  {
    hide *;
    var groups := GroupProposals(proposals);
    var addresses := SortedAddresses(groups);
    GroupsCover(proposals, groups);
    var globals: seq<Global> := [];
    var conflicts: nat, suppressedTotal: nat, materialized: nat, recoveredCount: nat := 0, 0, 0, 0;
    ghost var done: set<u64> := {};
    ResolvedNone(proposals, includeProvisional);
    assert addresses[..0] == [];
    for k := 0 to |addresses|
      invariant Resolved(proposals, includeProvisional, addresses[..k], globals, conflicts, suppressedTotal)
      invariant materialized == TierCount(globals, Provisional) && recoveredCount == TierCount(globals, Recovered)
      invariant materialized <= Sum(proposals, ProvisionalIn(done))
      invariant forall a :: a in done <==> a in addresses[..k]
    {
      var a := addresses[k];
      NextAddress(proposals, groups, addresses, k);
      var winner, suppressed := DecideAddress(groups[a], proposals, a);
      var recovered := winner.Some? && winner.value in groups[a] && AnyRecovered(groups[a][winner.value]);
      WinnerTier(proposals, groups, a, winner, suppressed, recovered);
      OutcomeIs(proposals, includeProvisional, a, winner, suppressed, recovered);
      var more := Outcome(a, winner, recovered, includeProvisional);
      OutcomeShape(a, winner, recovered, includeProvisional);
      ResolvedMore(proposals, includeProvisional, addresses[..k], globals, conflicts, suppressedTotal, a, more, winner,
                   suppressed);
      ProvisionalMore(proposals, done, a, globals, more);
      TiersMore(globals, more);
      assert addresses[..k + 1] == addresses[..k] + [a];
      done := done + {a};
      suppressedTotal := suppressedTotal + suppressed;
      if winner.None? {
        conflicts := conflicts + 1;
      }
      globals := globals + more;
      if more != [] {
        if recovered {
          recoveredCount := recoveredCount + 1;
        } else {
          materialized := materialized + 1;
        }
      }
    }
    assert addresses[..|addresses|] == addresses;
    AllAddresses(proposals, groups, addresses, done);
    var generated := CountProvisional(proposals);
    report := Report(globals, recoveredCount, conflicts, generated, suppressedTotal, generated - materialized);
    ReportFrom(proposals, includeProvisional, addresses, report);
    ReportsIn(proposals, includeProvisional, addresses, report);
  }

  /** The provisional proposals, counted as they were generated. */
  method CountProvisional(proposals: seq<Proposal>) returns (n: nat)
    ensures n == Sum(proposals, ProvisionalIn(Addresses(proposals)))
  {
    n := 0;
    var every := Addresses(proposals);
    assert proposals[..0] == [];
    for k := 0 to |proposals|
      invariant n == Sum(proposals[..k], ProvisionalIn(every))
    {
      assert proposals[..k + 1][..k] == proposals[..k];
      assert proposals[k].address in every;
      if proposals[k].tier.Provisional? {
        n := n + 1;
      }
    }
    assert proposals[..|proposals|] == proposals;
  }

  /** The globals and counters after some addresses. */
  ghost predicate Resolved(proposals: seq<Proposal>, includeProvisional: bool, order: seq<u64>, globals: seq<Global>,
                           conflicts: nat, suppressed: nat)
  {
    && GlobalsOf(proposals, includeProvisional, order, globals)
    && conflicts == ConflictCount(proposals, order) && suppressed == SuppressedTotal(proposals, order)
  }

  lemma ResolvedNone(proposals: seq<Proposal>, includeProvisional: bool)
    ensures Resolved(proposals, includeProvisional, [], [], 0, 0)
    ensures TierCount([], Provisional) == 0 && TierCount([], Recovered) == 0
  {
  }

  lemma ResolvedMore(proposals: seq<Proposal>, includeProvisional: bool, order: seq<u64>, globals: seq<Global>,
                     conflicts: nat, suppressed: nat, a: u64, more: seq<Global>, winner: Option<string>, here: nat)
    requires Resolved(proposals, includeProvisional, order, globals, conflicts, suppressed)
    requires (forall b | b in order :: b < a) && |more| <= 1 && forall g | g in more :: g.address == a
    requires forall g: Global | g.address == a :: g in more <==> Materializes(proposals, includeProvisional, g)
    requires (IsConflict(proposals, a) <==> winner.None?) && here == SuppressedAt(proposals, a)
    ensures Resolved(proposals, includeProvisional, order + [a], globals + more,
                     if winner.None? then conflicts + 1 else conflicts, suppressed + here)
  {
    hide Materializes, IsConflict, SuppressedAt, GlobalsOf;
    GlobalsMore(proposals, includeProvisional, order, globals, a, more);
    assert (order + [a])[..|order + [a]| - 1] == order;
  }

  lemma GroupsCover(proposals: seq<Proposal>, groups: Groups)
    requires Grouped(proposals, groups)
    ensures groups.Keys == Addresses(proposals)
  {
  }

  lemma NextAddress(proposals: seq<Proposal>, groups: Groups, order: seq<u64>, k: nat)
    requires Grouped(proposals, groups) && StrictlyUp(order) && k < |order| && forall a :: a in order <==> a in groups
    ensures order[k] in groups && order[k] in Addresses(proposals)
    ensures groups[order[k]].Keys == NamesAt(proposals, order[k]) && groups[order[k]].Keys != {}
    ensures forall n | n in groups[order[k]] :: groups[order[k]][n] == Picked(proposals, order[k], n)
    ensures forall b | b in order[..k] :: b < order[k]
  {
    hide Picked, NamesAt, Addresses;
    assert order[k] in order;
    NoNames(proposals, order[k]);
    assert GroupedAt(proposals, groups, order[k]);
  }

  lemma WinnerTier(proposals: seq<Proposal>, groups: Groups, a: u64, winner: Option<string>, suppressed: nat,
                   recovered: bool)
    requires a in groups && groups[a].Keys == NamesAt(proposals, a) && Decided(proposals, a, winner, suppressed)
    requires forall n | n in groups[a] :: groups[a][n] == Picked(proposals, a, n)
    requires recovered == (winner.Some? && winner.value in groups[a] && AnyRecovered(groups[a][winner.value]))
    ensures winner.Some? ==> recovered == (winner.value in RecoveredAt(proposals, a))
    ensures winner.Some? && !recovered ==> HasProvisional(proposals, a)
    ensures suppressed == SuppressedAt(proposals, a)
  {
    hide NamesAt, RecoveredAt, Picked, AnyRecovered, SuppressedAt, HasProvisional;
    if winner.Some? {
      AnyRecoveredIs(proposals, a, winner.value);
      assert winner.value in {winner.value};
      if winner.value !in RecoveredAt(proposals, a) {
        ProvisionalWinner(proposals, a, winner.value);
      }
    }
  }

  lemma OutcomeShape(a: u64, winner: Option<string>, recovered: bool, includeProvisional: bool)
    ensures var more := Outcome(a, winner, recovered, includeProvisional);
            && |more| <= 1 && (forall g | g in more :: g.address == a)
            && (more != [] ==> winner.Some? && more[0].tier == if recovered then Recovered else Provisional)
  {
  }

  lemma TiersMore(globals: seq<Global>, more: seq<Global>)
    requires |more| <= 1
    ensures TierCount(globals + more, Provisional)
         == TierCount(globals, Provisional) + if more != [] && more[0].tier.Provisional? then 1 else 0
    ensures TierCount(globals + more, Recovered)
         == TierCount(globals, Recovered) + if more != [] && more[0].tier.Recovered? then 1 else 0
  {
    if more == [] {
      assert globals + more == globals;
    } else {
      assert (globals + more)[..|globals + more| - 1] == globals;
    }
  }

  lemma AllAddresses(proposals: seq<Proposal>, groups: Groups, order: seq<u64>, done: set<u64>)
    requires groups.Keys == Addresses(proposals) && StrictlyUp(order)
    requires (forall a :: a in order <==> a in groups) && forall a :: a in done <==> a in order
    ensures IsAddressOrder(proposals, order) && done == Addresses(proposals)
  {
    hide Addresses;
  }

  lemma ReportFrom(proposals: seq<Proposal>, includeProvisional: bool, order: seq<u64>, r: Report)
    requires IsAddressOrder(proposals, order)
    requires Resolved(proposals, includeProvisional, order, r.globals, r.conflictsDropped, r.suppressedByRecovered)
    requires r.recoveredCount == TierCount(r.globals, Recovered)
    requires r.provisionalGenerated == Sum(proposals, ProvisionalIn(Addresses(proposals)))
    requires TierCount(r.globals, Provisional) <= r.provisionalGenerated
    requires r.provisionalSuppressed == r.provisionalGenerated - TierCount(r.globals, Provisional)
    ensures ReportOk(proposals, includeProvisional, order, r)
  {
    hide IsAddressOrder, GlobalsOf, TierCount, ConflictCount, SuppressedTotal, Sum, Addresses;
  }

  // ---------------------------------------------------------------- what a report says

  /** A global is recovered exactly when one distinct recovered name was proposed, and it is that name. */
  lemma RecoveredExactly(proposals: seq<Proposal>, includeProvisional: bool, r: Report, a: u64, name: string)
    requires Reports(proposals, includeProvisional, r)
    ensures Global(a, name, Recovered) in r.globals <==> RecoveredAt(proposals, a) == {name}
    ensures Global(a, name, Provisional) in r.globals
            <==> includeProvisional && RecoveredAt(proposals, a) == {} && NamesAt(proposals, a) == {name}
  {
    var order :| ReportOk(proposals, includeProvisional, order, r);
    AnyRecoveredIs(proposals, a, name);
    NoNames(proposals, a);
    hide NamesAt, RecoveredAt, Addresses, Sum, TierCount, ConflictCount, SuppressedTotal;
    var names, recovered := NamesAt(proposals, a), RecoveredAt(proposals, a);
    assert name in {name};
    assert recovered <= names;
    if names == {name} && name !in recovered {
      assert recovered == {};
    }
    if names == {name} && name in recovered {
      assert recovered == {name};
    }
  }

  // ---------------------------------------------------------------- order does not matter

  lemma SameProposals(xs: seq<Proposal>, ys: seq<Proposal>, a: u64)
    requires multiset(xs) == multiset(ys)
    ensures NamesAt(xs, a) == NamesAt(ys, a) && RecoveredAt(xs, a) == RecoveredAt(ys, a)
    ensures Addresses(xs) == Addresses(ys) && SuppressedAt(xs, a) == SuppressedAt(ys, a)
  {
    assert forall p :: p in xs <==> p in multiset(xs);
    assert forall p :: p in ys <==> p in multiset(ys);
    assert NamesAt(xs, a) == NamesAt(ys, a) && RecoveredAt(xs, a) == RecoveredAt(ys, a);
    SumPermuted(xs, ys, UnderNames(a, NamesAt(xs, a) - RecoveredAt(xs, a)));
  }

  lemma {:induction false} OrderUnique(xs: seq<u64>, ys: seq<u64>)
    requires StrictlyUp(xs) && StrictlyUp(ys) && forall a :: a in xs <==> a in ys
    ensures xs == ys
    decreases |xs|
  {
    assert ys != [] ==> ys[0] in ys;
    if xs != [] {
      assert xs[0] in ys && ys != [] && ys[0] in xs;
      assert xs[0] == ys[0];
      forall a
        ensures a in xs[1..] <==> a in ys[1..]
      {
        UpTail(xs, a);
        UpTail(ys, a);
      }
      OrderUnique(xs[1..], ys[1..]);
      assert xs == [xs[0]] + xs[1..] && ys == [ys[0]] + ys[1..];
    }
  }

  lemma UpTail(xs: seq<u64>, a: u64)
    requires StrictlyUp(xs) && xs != []
    ensures a in xs[1..] <==> a in xs && a != xs[0]
  {
    assert xs == [xs[0]] + xs[1..];
  }

  lemma {:induction false} GlobalsUnique(xs: seq<Global>, ys: seq<Global>)
    requires GlobalsUp(xs) && GlobalsUp(ys) && forall g :: g in xs <==> g in ys
    ensures xs == ys
    decreases |xs|
  {
    assert ys != [] ==> ys[0] in ys;
    if xs != [] {
      assert xs[0] in ys && ys != [] && ys[0] in xs;
      assert xs[0] == ys[0];
      forall g
        ensures g in xs[1..] <==> g in ys[1..]
      {
        GlobalsTail(xs, g);
        GlobalsTail(ys, g);
      }
      GlobalsUnique(xs[1..], ys[1..]);
      assert xs == [xs[0]] + xs[1..] && ys == [ys[0]] + ys[1..];
    }
  }

  lemma GlobalsTail(xs: seq<Global>, g: Global)
    requires GlobalsUp(xs) && xs != []
    ensures g in xs[1..] <==> g in xs && g != xs[0]
  {
    assert xs == [xs[0]] + xs[1..];
  }

  lemma {:induction false} SameTotals(xs: seq<Proposal>, ys: seq<Proposal>, order: seq<u64>)
    requires multiset(xs) == multiset(ys)
    ensures ConflictCount(xs, order) == ConflictCount(ys, order)
    ensures SuppressedTotal(xs, order) == SuppressedTotal(ys, order)
    decreases |order|
  {
    hide SuppressedAt;
    if order != [] {
      SameTotals(xs, ys, order[..|order| - 1]);
      var a := order[|order| - 1];
      SameProposals(xs, ys, a);
      hide NamesAt, RecoveredAt, Addresses;
      assert forall n :: Wins(xs, a, n) <==> Wins(ys, a, n);
    }
  }

  /** Two runs over the same proposals, in any order, report the same. */
  lemma ReportUnique(xs: seq<Proposal>, ys: seq<Proposal>, includeProvisional: bool, r: Report, q: Report)
    requires multiset(xs) == multiset(ys)
    requires Reports(xs, includeProvisional, r) && Reports(ys, includeProvisional, q)
    ensures r == q
  {
    var order :| ReportOk(xs, includeProvisional, order, r);
    var other :| ReportOk(ys, includeProvisional, other, q);
    SameProposals(xs, ys, 0);
    SumPermuted(xs, ys, ProvisionalIn(Addresses(xs)));
    hide Sum, Addresses, TierCount, SuppressedAt, ConflictCount, SuppressedTotal, Materializes, GlobalsUp;
    OrderUnique(order, other);
    SameTotals(xs, ys, order);
    forall g: Global
      ensures g in r.globals <==> g in q.globals
    {
      SameMaterializes(xs, ys, includeProvisional, g);
    }
    GlobalsUnique(r.globals, q.globals);
  }

  lemma SameMaterializes(xs: seq<Proposal>, ys: seq<Proposal>, includeProvisional: bool, g: Global)
    requires multiset(xs) == multiset(ys)
    ensures Materializes(xs, includeProvisional, g) <==> Materializes(ys, includeProvisional, g)
  {
    SameProposals(xs, ys, g.address);
    hide NamesAt, RecoveredAt;
  }
}
