/** A lineage that is lost although all paths agree on it: a value is copied after paths that copied it have met. */
module LineageLoss {
  import opened Words
  import opened ControlGraph
  import opened Arm32
  import opened SemanticGraph
  import opened MustValues
  import opened DataflowJoin
  import opened Dataflow
  import opened Provenance
  import opened DefinitionPaths
  import opened FactPaths

  function CopyZero(pc: u32, to: Register): Instruction {
    Plain(pc, false, RegisterWrite(to, Copy(0)), Linear)
  }

  /** R0 is set at 0 and copied to itself at 8 or at 16; where the arms have met, at 20, it is copied to R1. */
  const LOSSY: Problem := Problem(
    0,
    map[0 := SetOne(0), 4 := Plain(4, true, NoEffect, DirectBranch(16, Some(8))), 8 := CopyZero(8, 0),
        12 := Plain(12, false, NoEffect, DirectBranch(20, None)), 16 := CopyZero(16, 0), 20 := CopyZero(20, 1),
        24 := Plain(24, false, NoEffect, Return)],
    map[0 := {4}, 4 := {8, 16}, 8 := {12}, 12 := {20}, 16 := {20}, 20 := {24}],
    map[0 := {}, 4 := {0}, 8 := {4}, 12 := {8}, 16 := {4}, 20 := {12, 16}, 24 := {20}],
    {0, 4, 8, 12, 16, 20, 24},
    map[],
    ExactPolicy(JoinValue, Complete))

  lemma LossyReached()
    ensures AllReached(LOSSY.successors, LOSSY.reachable, 0)
  {
    assert Joins(LOSSY.successors, LOSSY.reachable, 0, 0, [0]);
    assert Joins(LOSSY.successors, LOSSY.reachable, 0, 4, [0, 4]);
    assert Joins(LOSSY.successors, LOSSY.reachable, 0, 8, [0, 4, 8]);
    assert Joins(LOSSY.successors, LOSSY.reachable, 0, 12, [0, 4, 8, 12]);
    assert Joins(LOSSY.successors, LOSSY.reachable, 0, 16, [0, 4, 16]);
    assert Joins(LOSSY.successors, LOSSY.reachable, 0, 20, [0, 4, 16, 20]);
    assert Joins(LOSSY.successors, LOSSY.reachable, 0, 24, [0, 4, 16, 20, 24]);
  }

  lemma LossyFollowed()
    ensures EdgesFollowed(LOSSY.successors, LOSSY.instructions.Keys, LOSSY.reachable, LOSSY.reachable)
  {
  }

  lemma LossyReversed()
    ensures ReverseEdges(LOSSY.reachable, LOSSY.successors, LOSSY.predecessors)
  {
    forall v | v in LOSSY.reachable
      ensures LOSSY.predecessors[v] == Incoming(LOSSY.reachable, LOSSY.successors, v)
    {
      forall u: u32
        ensures u in LOSSY.predecessors[v] <==> u in Incoming(LOSSY.reachable, LOSSY.successors, v)
      {
      }
    }
  }

  lemma LossyPosed()
    ensures WellPosed(LOSSY)
  {
    LossyReached();
    LossyFollowed();
    LossyReversed();
    hide AllReached, EdgesFollowed, ReverseEdges;
  }

  lemma CameFrom(n: u32, q: u32)
    requires n in Targets(LOSSY.successors, q)
    ensures q in LOSSY.instructions && q in {0, 4, 8, 12, 16, 20}
    ensures n == 24 <==> q == 20
    ensures n == 20 <==> q == 12 || q == 16
    ensures n != 0
  {
  }

  /** Everything but the last copy keeps R0 at one, with the root it has. */
  lemma KeepsRoot(q: u32, o: Origins)
    requires q in LOSSY.instructions && q != 0
    ensures RootOf(OriginAfter(q, LOSSY.instructions[q], o, 0)) == RootOf(o(0))
  {
  }

  lemma {:induction false} RootIsZero(path: seq<u32>, n: u32)
    requires IsTrack(LOSSY, path, n) && n != 0
    ensures RootOf(OriginsAlong(LOSSY, path)(0)) == Some(0)
    decreases |path|
  {
    LossyPosed();
    TrackEnds(LOSSY, path, n);
    assert LOSSY.entry == 0;
    var rest, q := path[..|path| - 1], path[|path| - 2];
    OriginsStep(LOSSY, path, n);
    CameFrom(n, q);
    if q == 0 {
      SetsRoot(OriginsAlong(LOSSY, rest));
    } else {
      hide LOSSY, WellPosed, IsTrack, OriginsAlong, OriginAfter;
      RootIsZero(rest, q);
      KeepsRoot(q, OriginsAlong(LOSSY, rest));
    }
  }

  lemma SetsRoot(o: Origins)
    ensures RootOf(OriginAfter(0, LOSSY.instructions[0], o, 0)) == Some(0)
  {
  }

  lemma CopyOrigin(o: Origins)
    requires RootOf(o(0)) == Some(0)
    ensures LineageOf(OriginAfter(20, LOSSY.instructions[20], o, 1)) == Some(Lineage(20, 0))
  {
  }

  /** All paths agree on the lineage of R1 at the end. */
  lemma PathsAgree()
    ensures LineagesAgree(LOSSY, 24, 1)
  {
    LossyPosed();
    var one: Register := 1;
    forall t | IsTrack(LOSSY, t, 24)
      ensures LineageOf(OriginsAlong(LOSSY, t)(one)) == Some(Lineage(20, 0))
    {
      TrackEnds(LOSSY, t, 24);
      assert LOSSY.entry == 0;
      CameFrom(24, t[|t| - 2]);
      hide LOSSY, WellPosed, OriginsAlong, OriginAfter, LineageOf, IsTrack;
      OriginsStep(LOSSY, t, 24);
      RootIsZero(t[..|t| - 1], 20);
      CopyOrigin(OriginsAlong(LOSSY, t[..|t| - 1]));
    }
    hide LOSSY, WellPosed, OriginsAlong, OriginAfter, LineageOf, IsTrack;
  }

  // ---------------------------------------------------------------- the value is known

  lemma StepKnows(q: u32, s: RegisterState)
    requires q in LOSSY.instructions && (q == 0 || (0 in s && s[0].value == 1))
    ensures var t := TransferAt(LOSSY, q, s);
            && 0 in t && t[0].value == 1
            && (q == 20 ==> 1 in t && t[1].value == 1)
  {
  }

  lemma {:induction false} AlongKnows(path: seq<u32>, n: u32)
    requires IsTrack(LOSSY, path, n) && n != 0
    ensures var s := StateAlong(LOSSY, path); 0 in s && s[0].value == 1 && (n == 24 ==> 1 in s && s[1].value == 1)
    decreases |path|
  {
    LossyPosed();
    TrackEnds(LOSSY, path, n);
    assert LOSSY.entry == 0;
    var rest, q := path[..|path| - 1], path[|path| - 2];
    StateAlongStep(LOSSY, path, n);
    CameFrom(n, q);
    hide LOSSY, WellPosed, IsTrack, StateAlong, TransferAt;
    if q != 0 {
      AlongKnows(rest, q);
    }
    StepKnows(q, StateAlong(LOSSY, rest));
  }

  lemma Agrees(n: u32, r: Register)
    requires n != 0 && (r == 0 || (r == 1 && n == 24))
    ensures ValuesAgree(LOSSY, n, r)
  {
    hide LOSSY, IsTrack, StateAlong;
    forall t | IsTrack(LOSSY, t, n)
      ensures r in StateAlong(LOSSY, t) && StateAlong(LOSSY, t)[r].value == 1
    {
      AlongKnows(t, n);
    }
  }

  /** At every instruction R0 is computed from nothing or from itself, and at 20 R1 from R0. */
  lemma NeedsZero(q: u32)
    requires q in LOSSY.instructions
    ensures Needs(LOSSY.instructions[q], 0) == if q == 0 then {} else {0}
    ensures q == 20 ==> Needs(LOSSY.instructions[q], 1) == {0}
  {
  }

  lemma {:induction false} TellsOne(path: seq<u32>, n: u32, r: Register)
    requires IsTrack(LOSSY, path, n) && n != 0 && (r == 0 || (r == 1 && n == 24))
    ensures Tells(LOSSY, path, n, r)
    decreases |path|
  {
    LossyPosed();
    TrackEnds(LOSSY, path, n);
    assert LOSSY.entry == 0 && LOSSY.policy.join.JoinValue?;
    var rest, q := path[..|path| - 1], path[|path| - 2];
    CameFrom(n, q);
    Agrees(n, r);
    NeedsZero(q);
    hide LOSSY, WellPosed, IsTrack, ValuesAgree, Needs;
    if q != 0 {
      TellsOne(rest, q, 0);
    }
  }

  // ---------------------------------------------------------------- the lineage is not

  lemma AlongMore(path: seq<u32>, q: u32, n: u32)
    requires IsTrack(LOSSY, path, q) && n in LOSSY.reachable && n in Targets(LOSSY.successors, q)
    ensures IsTrack(LOSSY, path + [n], n) && q in LOSSY.instructions
    ensures forall r: Register ::
              OriginsAlong(LOSSY, path + [n])(r) == OriginAfter(q, LOSSY.instructions[q], OriginsAlong(LOSSY, path), r)
  {
    LossyPosed();
    TrackEnd(LOSSY, path, q);
    hide LOSSY, WellPosed, IsTrack, OriginsAlong, OriginAfter, Targets;
    TrackMore(LOSSY, path, q, n);
  }

  lemma Forked()
    ensures IsTrack(LOSSY, [0, 4], 4) && RootOf(OriginsAlong(LOSSY, [0, 4])(0)) == Some(0)
  {
    hide OriginsAlong, IsTrack;
    assert IsTrack(LOSSY, [0], 0) by { FirstTrack(); }
    AlongMore([0], 0, 4);
    assert [0] + [4] == [0, 4];
  }

  lemma LongArm()
    ensures IsTrack(LOSSY, [0, 4, 8, 12, 20], 20)
    ensures LineageOf(OriginsAlong(LOSSY, [0, 4, 8, 12, 20])(0)) == Some(Lineage(8, 0))
  {
    Forked();
    hide OriginsAlong, IsTrack;
    AlongMore([0, 4], 4, 8);
    assert [0, 4] + [8] == [0, 4, 8];
    AlongMore([0, 4, 8], 8, 12);
    assert [0, 4, 8] + [12] == [0, 4, 8, 12];
    AlongMore([0, 4, 8, 12], 12, 20);
    assert [0, 4, 8, 12] + [20] == [0, 4, 8, 12, 20];
  }

  lemma ShortArm()
    ensures IsTrack(LOSSY, [0, 4, 16, 20], 20)
    ensures LineageOf(OriginsAlong(LOSSY, [0, 4, 16, 20])(0)) == Some(Lineage(16, 0))
  {
    Forked();
    hide OriginsAlong, IsTrack;
    AlongMore([0, 4], 4, 16);
    assert [0, 4] + [16] == [0, 4, 16];
    AlongMore([0, 4, 16], 16, 20);
    assert [0, 4, 16] + [20] == [0, 4, 16, 20];
  }

  lemma Arms()
    ensures IsTrack(LOSSY, [0, 4, 8, 12, 20], 20) && IsTrack(LOSSY, [0, 4, 16, 20], 20)
    ensures LineageOf(OriginsAlong(LOSSY, [0, 4, 8, 12, 20])(0)) == Some(Lineage(8, 0))
    ensures LineageOf(OriginsAlong(LOSSY, [0, 4, 16, 20])(0)) == Some(Lineage(16, 0))
  {
    hide *;
    LongArm();
    ShortArm();
  }

  lemma FirstTrack()
    ensures IsTrack(LOSSY, [0], 0)
  {
  }

  lemma ArmsDisagree()
    ensures !LineagesAgree(LOSSY, 20, 0)
  {
    Arms();
    hide LOSSY, OriginsAlong, IsTrack, LineageOf;
    var zero: Register := 0;
    assert LineageOf(OriginsAlong(LOSSY, [0, 4, 8, 12, 20])(zero)) == Some(Lineage(8, 0));
    assert LineageOf(OriginsAlong(LOSSY, [0, 4, 16, 20])(zero)) == Some(Lineage(16, 0));
  }

  lemma NotTold()
    ensures !AllTellLineage(LOSSY, 24, 1)
  {
    Arms();
    ArmsDisagree();
    LossyPosed();
    var path := [0, 4, 16, 20];
    AlongMore(path, 20, 24);
    NeedsZero(20);
    assert (path + [24])[..4] == path;
    hide LOSSY, WellPosed, IsTrack, LineagesAgree, Needs, OriginsAlong, OriginAfter;
    assert TellsLineage(LOSSY, path + [24], 24, 1) ==> TellsLineage(LOSSY, path, 20, 0);
  }

  /** The solver knows R1 at the end, and all paths agree on where it came from; yet it has no lineage. */
  lemma AgreedButLost(before: States, after: States)
    requires IsMostPrecise(LOSSY, before, after)
    ensures LineagesAgree(LOSSY, 24, 1)
    ensures 24 in before && 1 in before[24] && before[24][1].lineage.None?
  {
    LossyPosed();
    PathsAgree();
    NotTold();
    assert 24 in LOSSY.reachable;
    hide LOSSY, WellPosed, IsTrack, IsMostPrecise, LineagesAgree, AllTellLineage, Tells, StateAlong, OriginsAlong;
    forall t | IsTrack(LOSSY, t, 24)
      ensures Tells(LOSSY, t, 24, 1)
    {
      TellsOne(t, 24, 1);
    }
    FactsExact(LOSSY, before, after, 24, 1);
    LineageExact(LOSSY, before, after, 24, 1);
  }
}
