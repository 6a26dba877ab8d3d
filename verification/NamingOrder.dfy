/**
 * Which name each path gets, told by the names given before it: its own if no earlier name is spelled alike, and
 * otherwise the next free suffix after the one that a path spelled alike got last.
 */
module NamingOrder {
  import opened Words
  import opened Text
  import opened TreeNaming

  ghost predicate IsTaken(names: seq<Path>, low: Path) {
    exists k :: 0 <= k < |names| && Lower(names[k]) == low
  }

  /** The last of the earlier paths that is spelled alike, letter case aside. */
  ghost predicate IsLastAlike(dirs: set<Path>, earlier: seq<Path>, low: Path, k: int)
    ensures IsLastAlike(dirs, earlier, low, k) ==> 0 <= k < |earlier|
  {
    && 0 <= k < |earlier| && Lower(Shaped(earlier[k], dirs)) == low
    && forall l | k < l < |earlier| :: Lower(Shaped(earlier[l], dirs)) != low
  }

  /** The suffix that the last path spelled alike got; zero if it got none, or if there is no such path. */
  ghost predicate IsLastSuffix(dirs: set<Path>, earlier: seq<Path>, names: seq<Path>, low: Path, n: nat)
    requires |earlier| == |names|
  {
    || (n == 0 && forall k :: !IsLastAlike(dirs, earlier, low, k))
    || exists k :: IsLastAlike(dirs, earlier, low, k) && GotSuffix(dirs, earlier[k], names[k], n)
  }

  predicate GotSuffix(dirs: set<Path>, path: Path, name: Path, n: nat) {
    name == if n == 0 then Shaped(path, dirs) else Candidate(Shaped(path, dirs), n)
  }

  /** The least suffix above `above` whose name is not taken. */
  ghost predicate IsNextFree(names: seq<Path>, shaped: Path, above: nat, n: nat) {
    && n > above && !IsTaken(names, Lower(Candidate(shaped, n)))
    && forall m: nat | above < m < n :: IsTaken(names, Lower(Candidate(shaped, m)))
  }

  ghost predicate IsRightName(dirs: set<Path>, earlier: seq<Path>, names: seq<Path>, path: Path, name: Path)
    requires |earlier| == |names|
  {
    var shaped := Shaped(path, dirs);
    if !IsTaken(names, Lower(shaped)) then name == shaped
    else exists above: nat, n: nat ::
           && IsLastSuffix(dirs, earlier, names, Lower(shaped), above)
           && IsNextFree(names, shaped, above, n) && name == Candidate(shaped, n)
  }

  // ---------------------------------------------------------------- what the table of used names holds

  lemma {:induction false} UsedAreTaken(paths: seq<Path>, dirs: set<Path>, low: Path)
    ensures low in UsedBy(paths, dirs) <==> IsTaken(NamesOf(paths, dirs), low)
    decreases |paths|
  {
    hide FinalName, UsedAfter, Lower;
    if paths != [] {
      var n := |paths| - 1;
      UsedAreTaken(paths[..n], dirs, low);
      NameIsFresh(paths[n], dirs, UsedBy(paths[..n], dirs));
      TakenMore(NamesOf(paths[..n], dirs), FinalName(paths[n], dirs, UsedBy(paths[..n], dirs)), low);
    }
  }

  lemma TakenMore(names: seq<Path>, name: Path, low: Path)
    ensures IsTaken(names + [name], low) <==> IsTaken(names, low) || Lower(name) == low
  {
    hide Lower;
    var more := names + [name];
    if IsTaken(names, low) {
      var k :| 0 <= k < |names| && Lower(names[k]) == low;
      assert more[k] == names[k];
    }
    assert more[|names|] == name;
  }

  /** What a table becomes, key by key. */
  lemma UsedNow(path: Path, dirs: set<Path>, used: map<Path, nat>, low: Path)
    ensures var shaped, name, after := Shaped(path, dirs), FinalName(path, dirs, used), UsedAfter(path, dirs, used);
            && (low == Lower(shaped) ==> low in after && GotSuffix(dirs, path, name, after[low]))
            && (low != Lower(shaped) && low in used ==> low in after && after[low] == used[low])
            && (low != Lower(shaped) && low !in used && low in after ==> after[low] == 0)
  {
    hide GuardLong, Candidate, Lower, Beyond, Shaped;
  }

  lemma AlikeMore(dirs: set<Path>, paths: seq<Path>, low: Path, k: int)
    requires paths != []
    ensures var n := |paths| - 1;
            IsLastAlike(dirs, paths, low, k) <==>
              if Lower(Shaped(paths[n], dirs)) == low then k == n else IsLastAlike(dirs, paths[..n], low, k)
  {
    hide Lower, Shaped;
    var n := |paths| - 1;
    assert forall l | 0 <= l < n :: paths[..n][l] == paths[l];
  }

  /** The table holds, for every name taken, the suffix that was given last to a path spelled so. */
  lemma {:induction false} UsedIsLastSuffix(paths: seq<Path>, dirs: set<Path>, low: Path)
    requires low in UsedBy(paths, dirs)
    ensures IsLastSuffix(dirs, paths, NamesOf(paths, dirs), low, UsedBy(paths, dirs)[low])
    decreases |paths|
  {
    hide FinalName, UsedAfter, Lower, Shaped, GotSuffix, IsLastAlike;
    var n := |paths| - 1;
    var rest, used := paths[..n], UsedBy(paths[..n], dirs);
    var names := NamesOf(rest, dirs);
    UsedNow(paths[n], dirs, used, low);
    forall k
      ensures IsLastAlike(dirs, paths, low, k) <==>
                if Lower(Shaped(paths[n], dirs)) == low then k == n else IsLastAlike(dirs, rest, low, k)
    {
      AlikeMore(dirs, paths, low, k);
    }
    if Lower(Shaped(paths[n], dirs)) == low {
      assert IsLastAlike(dirs, paths, low, n);
    } else if low in used {
      UsedIsLastSuffix(rest, dirs, low);
    } else {
      NoneAlike(rest, dirs, low);
    }
  }

  lemma {:induction false} NoneAlike(paths: seq<Path>, dirs: set<Path>, low: Path)
    requires low !in UsedBy(paths, dirs)
    ensures forall k :: !IsLastAlike(dirs, paths, low, k)
    decreases |paths|
  {
    hide FinalName, UsedAfter, Lower, Shaped, GotSuffix;
    if paths != [] {
      var n := |paths| - 1;
      UsedNow(paths[n], dirs, UsedBy(paths[..n], dirs), low);
      NoneAlike(paths[..n], dirs, low);
      forall k
        ensures !IsLastAlike(dirs, paths, low, k)
      {
        AlikeMore(dirs, paths, low, k);
      }
    }
  }

  // ---------------------------------------------------------------- the theorem

  lemma NameIsRight(dirs: set<Path>, earlier: seq<Path>, path: Path)
    ensures IsRightName(dirs, earlier, NamesOf(earlier, dirs), path, FinalName(path, dirs, UsedBy(earlier, dirs)))
  {
    var shaped, used, names := Shaped(path, dirs), UsedBy(earlier, dirs), NamesOf(earlier, dirs);
    var low := Lower(shaped);
    UsedAreTaken(earlier, dirs, low);
    hide Shaped, Lower, Candidate, IsTaken, IsLastSuffix, UsedBy, NamesOf;
    if low in used {
      UsedIsLastSuffix(earlier, dirs, low);
      var n := FreeSuffix(used.Keys, shaped, used[low]);
      forall m: nat | used[low] < m <= n
        ensures IsTaken(names, Lower(Candidate(shaped, m))) <==> m < n
      {
        UsedAreTaken(earlier, dirs, Lower(Candidate(shaped, m)));
      }
      assert IsNextFree(names, shaped, used[low], n);
    }
  }

  /** Every path gets the right name, given the paths and names before it. */
  lemma {:induction false} NamesInOrder(paths: seq<Path>, dirs: set<Path>, k: nat)
    requires k < |paths|
    ensures var names := NamesOf(paths, dirs); IsRightName(dirs, paths[..k], names[..k], paths[k], names[k])
    decreases |paths|
  {
    hide FinalName, IsRightName;
    var n := |paths| - 1;
    var names, rest := NamesOf(paths, dirs), NamesOf(paths[..n], dirs);
    assert names[..n] == rest;
    if k < n {
      NamesInOrder(paths[..n], dirs, k);
      assert paths[..n][..k] == paths[..k] && rest[..k] == names[..k];
    } else {
      NameIsRight(dirs, paths[..n], paths[n]);
    }
  }

  /** The first path spelled like an earlier name gets the least positive suffix that is free. */
  lemma FirstToCollide(paths: seq<Path>, dirs: set<Path>, k: nat)
    requires k < |paths| && IsTaken(NamesOf(paths, dirs)[..k], Lower(Shaped(paths[k], dirs)))
    requires forall l | 0 <= l < k && Lower(Shaped(paths[l], dirs)) == Lower(Shaped(paths[k], dirs)) ::
               NamesOf(paths, dirs)[l] == Shaped(paths[l], dirs)
    ensures exists n: nat ::
              && NamesOf(paths, dirs)[k] == Candidate(Shaped(paths[k], dirs), n)
              && IsNextFree(NamesOf(paths, dirs)[..k], Shaped(paths[k], dirs), 0, n)
  {
    NamesInOrder(paths, dirs, k);
    var names, shaped := NamesOf(paths, dirs), Shaped(paths[k], dirs);
    hide Shaped, Lower, Candidate, IsTaken, NamesOf, IsNextFree;
    var above: nat, n: nat :| IsLastSuffix(dirs, paths[..k], names[..k], Lower(shaped), above)
                              && IsNextFree(names[..k], shaped, above, n) && names[k] == Candidate(shaped, n);
    if l :| IsLastAlike(dirs, paths[..k], Lower(shaped), l) && GotSuffix(dirs, paths[..k][l], names[..k][l], above) {
      assert paths[..k][l] == paths[l] && names[..k][l] == names[l];
      PlainGotNone(dirs, paths[l], names[l], above);
    }
  }

  lemma PlainGotNone(dirs: set<Path>, path: Path, name: Path, n: nat)
    requires GotSuffix(dirs, path, name, n) && name == Shaped(path, dirs)
    ensures n == 0
  {
    assert |Candidate(Shaped(path, dirs), n)| > |Shaped(path, dirs)|;
  }
}
