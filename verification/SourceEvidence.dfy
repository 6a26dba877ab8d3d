/**
 * What a row of an attribution is evidence of, said about addresses: a reference to the path's text, its place inside
 * the function, or a reference to something shortly behind it.
 */
module SourceEvidence {
  import opened Words
  import opened Text
  import opened Sorting
  import opened SourceAttribution

  /** The function refers to an occurrence of the path. */
  ghost predicate Refers(f: Function, s: Source) {
    exists a :: a in s.occurrences && a in f.dataRefs
  }

  /** An occurrence of the path lies inside the function. */
  ghost predicate Contains(f: Function, s: Source) {
    f.decodeRanges.Some? && exists a, range :: LiesIn(s, f.decodeRanges.value, a, range)
  }

  ghost predicate LiesIn(s: Source, ranges: seq<(u64, u64)>, a: u64, range: (u64, u64)) {
    a in s.occurrences && range in ranges && range.0 <= a < range.1
  }

  /** The function refers to an address behind an occurrence, by no more than the window. */
  ghost predicate RefersBehind(f: Function, s: Source, window: u64) {
    exists a, r :: IsBehind(s, f, window, a, r)
  }

  ghost predicate IsBehind(s: Source, f: Function, window: u64, a: u64, r: u64) {
    a in s.occurrences && r in f.dataRefs && 0 < r - a <= window
  }

  ghost predicate IsNearby(f: Function, s: Source, window: u64) {
    Contains(f, s) || RefersBehind(f, s, window)
  }

  /** Exactly one of the sources is nearby, and it has the path. */
  ghost predicate OneNearby(sources: seq<Source>, f: Function, window: u64, path: Path) {
    exists k :: IsOnlyNearby(sources, f, window, k) && sources[k].path == path
  }

  ghost predicate IsOnlyNearby(sources: seq<Source>, f: Function, window: u64, k: int)
    ensures IsOnlyNearby(sources, f, window, k) ==> 0 <= k < |sources|
  {
    && 0 <= k < |sources| && IsNearby(f, sources[k], window)
    && forall l | 0 <= l < |sources| && l != k :: !IsNearby(f, sources[l], window)
  }

  /** The function refers to the path, and to no other. */
  ghost predicate RefersOnlyTo(sources: seq<Source>, f: Function, path: Path) {
    && (exists s :: s in sources && Refers(f, s) && s.path == path)
    && (forall s | s in sources && Refers(f, s) :: s.path == path)
  }

  ghost predicate RefersToNone(sources: seq<Source>, f: Function) {
    forall s | s in sources :: !Refers(f, s)
  }

  /** What stands behind a row under a path. */
  ghost predicate Evidence(sources: seq<Source>, functions: seq<Function>, window: u64, dbt: Option<DbtIndex>,
                           path: Path, row: Row)
  {
    && row.index < |functions|
    && var f := functions[row.index];
       match row.confidence
       case DbtExact => dbt.Some? && (f.owner, f.entry) in dbt.value && dbt.value[(f.owner, f.entry)] == path
       case Direct => RefersOnlyTo(sources, f, path)
       case Proximity => RefersToNone(sources, f) && OneNearby(sources, f, window, path)
  }

  // ---------------------------------------------------------------- one source

  lemma DirectExactly(s: Source, f: Function)
    ensures DirectMatch(s, f) <==> Refers(f, s)
  {
    if a :| a in s.occurrences && a in f.dataRefs {
      var k :| 0 <= k < |s.occurrences| && s.occurrences[k] == a;
    }
  }

  lemma RangeExactly(s: Source, f: Function)
    ensures RangeMatch(s, f) <==> Contains(f, s)
  {
    if RangeMatch(s, f) {
      var k, r :| 0 <= k < |s.occurrences| && 0 <= r < |f.decodeRanges.value|
                  && InRange(f.decodeRanges.value[r], s.occurrences[k]);
      assert LiesIn(s, f.decodeRanges.value, s.occurrences[k], f.decodeRanges.value[r]);
    }
    if Contains(f, s) {
      var a, range :| LiesIn(s, f.decodeRanges.value, a, range);
      var k :| 0 <= k < |s.occurrences| && s.occurrences[k] == a;
      var r :| 0 <= r < |f.decodeRanges.value| && f.decodeRanges.value[r] == range;
      assert InRange(f.decodeRanges.value[r], s.occurrences[k]);
    }
  }

  /** Where the sum saturates, every later address is within the window. */
  lemma NearExactly(window: u64, occurrence: u64, reference: u64)
    ensures Near(window, occurrence, reference) <==> 0 < reference - occurrence <= window
  {
  }

  lemma ClusterExactly(s: Source, f: Function, window: u64)
    ensures ClusterMatch(s, f, window) <==> RefersBehind(f, s, window)
  {
    if ClusterMatch(s, f, window) {
      var k, r :| 0 <= k < |s.occurrences| && 0 <= r < |f.dataRefs| && Near(window, s.occurrences[k], f.dataRefs[r]);
      NearExactly(window, s.occurrences[k], f.dataRefs[r]);
      assert IsBehind(s, f, window, s.occurrences[k], f.dataRefs[r]);
    }
    if a, b :| IsBehind(s, f, window, a, b) {
      var k :| 0 <= k < |s.occurrences| && s.occurrences[k] == a;
      var r :| 0 <= r < |f.dataRefs| && f.dataRefs[r] == b;
      NearExactly(window, a, b);
      assert Near(window, s.occurrences[k], f.dataRefs[r]);
    }
  }

  // ---------------------------------------------------------------- all sources

  lemma DirectPathsAre(sources: seq<Source>, f: Function, path: Path)
    ensures path in DirectPaths(sources, f) <==> exists s :: s in sources && Refers(f, s) && s.path == path
  {
    hide Refers, DirectMatch;
    forall s | s in sources
      ensures DirectMatch(s, f) <==> Refers(f, s)
    {
      DirectExactly(s, f);
    }
  }

  lemma OnlyExactly(sources: seq<Source>, f: Function, path: Path)
    ensures DirectPaths(sources, f) == {path} <==> RefersOnlyTo(sources, f, path)
  {
    hide Refers, DirectMatch, DirectPaths;
    DirectPathsAre(sources, f, path);
    if DirectPaths(sources, f) == {path} {
      forall s | s in sources && Refers(f, s)
        ensures s.path == path
      {
        DirectPathsAre(sources, f, s.path);
      }
    }
    if RefersOnlyTo(sources, f, path) {
      forall other
        ensures other in DirectPaths(sources, f) <==> other in {path}
      {
        DirectPathsAre(sources, f, other);
      }
    }
  }

  lemma NoneExactly(sources: seq<Source>, f: Function)
    ensures DirectPaths(sources, f) == {} <==> RefersToNone(sources, f)
  {
    hide Refers, DirectMatch, DirectPaths;
    forall s | s in sources && Refers(f, s)
      ensures DirectPaths(sources, f) != {}
    {
      DirectPathsAre(sources, f, s.path);
    }
    if DirectPaths(sources, f) != {} {
      var path :| path in DirectPaths(sources, f);
      DirectPathsAre(sources, f, path);
    }
  }

  lemma NearbyOne(s: Source, f: Function, window: u64)
    ensures RangeMatch(s, f) || ClusterMatch(s, f, window) <==> IsNearby(f, s, window)
  {
    RangeExactly(s, f);
    ClusterExactly(s, f, window);
    hide RangeMatch, ClusterMatch, Contains, RefersBehind;
  }

  lemma {:induction false} NoneNearby(sources: seq<Source>, f: Function, window: u64)
    ensures NearbyPaths(sources, f, window) == [] <==>
              forall k | 0 <= k < |sources| :: !IsNearby(f, sources[k], window)
    decreases |sources|
  {
    hide IsNearby, RangeMatch, ClusterMatch;
    if sources != [] {
      var n := |sources| - 1;
      NoneNearby(sources[..n], f, window);
      NearbyOne(sources[n], f, window);
      assert forall k | 0 <= k < n :: sources[..n][k] == sources[k];
    }
  }

  lemma {:induction false} OneNearbyExactly(sources: seq<Source>, f: Function, window: u64, path: Path)
    ensures NearbyPaths(sources, f, window) == [path] <==> OneNearby(sources, f, window, path)
    decreases |sources|
  {
    hide IsNearby, RangeMatch, ClusterMatch;
    if sources != [] {
      var n := |sources| - 1;
      OneNearbyExactly(sources[..n], f, window, path);
      NoneNearby(sources[..n], f, window);
      NearbyOne(sources[n], f, window);
      LastNearby(sources, f, window, path);
      hide NearbyPaths, OneNearby;
      NearbyLast(sources, f, window, path);
    }
  }

  lemma NearbyLast(sources: seq<Source>, f: Function, window: u64, path: Path)
    requires sources != []
    ensures var n := |sources| - 1;
            NearbyPaths(sources, f, window) == [path] <==>
              if RangeMatch(sources[n], f) || ClusterMatch(sources[n], f, window) then
                NearbyPaths(sources[..n], f, window) == [] && sources[n].path == path
              else NearbyPaths(sources[..n], f, window) == [path]
  {
    hide RangeMatch, ClusterMatch;
    var n := |sources| - 1;
    var before := NearbyPaths(sources[..n], f, window);
    assert |before + [sources[n].path]| == |before| + 1;
    assert before == [] ==> before + [sources[n].path] == [sources[n].path];
  }

  lemma LastNearby(sources: seq<Source>, f: Function, window: u64, path: Path)
    requires sources != []
    ensures var n := |sources| - 1;
            OneNearby(sources, f, window, path) <==>
              if IsNearby(f, sources[n], window) then
                (forall k | 0 <= k < n :: !IsNearby(f, sources[k], window)) && sources[n].path == path
              else OneNearby(sources[..n], f, window, path)
  {
    hide IsNearby;
    var n := |sources| - 1;
    var rest := sources[..n];
    if IsNearby(f, sources[n], window) {
      assert (forall k | 0 <= k < n :: !IsNearby(f, sources[k], window)) ==> IsOnlyNearby(sources, f, window, n);
    } else {
      if k :| IsOnlyNearby(sources, f, window, k) && sources[k].path == path {
        assert IsOnlyNearby(rest, f, window, k) && rest[k].path == path;
      }
      if k :| IsOnlyNearby(rest, f, window, k) && rest[k].path == path {
        assert IsOnlyNearby(sources, f, window, k) && sources[k].path == path;
      }
    }
  }

  // ---------------------------------------------------------------- the theorems

  lemma DeservedExactly(sources: seq<Source>, functions: seq<Function>, window: u64, dbt: Option<DbtIndex>, path: Path,
                        row: Row)
    ensures Deserved(sources, functions, window, dbt, Push(path, row))
            <==> Evidence(sources, functions, window, dbt, path, row)
  {
    hide DirectPaths, NearbyPaths, RefersOnlyTo, RefersToNone, OneNearby;
    if row.index < |functions| {
      var f := functions[row.index];
      OnlyExactly(sources, f, path);
      NoneExactly(sources, f);
      OneNearbyExactly(sources, f, window, path);
    }
  }

  /** By entry, then owner, then digest, then name. */
  ghost predicate KeysAscend(a: Function, b: Function) {
    || a.entry < b.entry
    || (a.entry == b.entry
        && (a.owner < b.owner
            || (a.owner == b.owner
                && (Precedes(a.digest, b.digest)
                    || (a.digest == b.digest && (a.name == b.name || Precedes(a.name, b.name)))))))
  }

  ghost predicate RowsAscend(functions: seq<Function>, a: Row, b: Row) {
    && a.index < |functions| && b.index < |functions|
    && KeysAscend(functions[a.index], functions[b.index])
  }

  /** The rows stand in the order of their functions' keys. */
  ghost predicate InKeyOrder(functions: seq<Function>, rows: seq<Row>) {
    forall i, j | 0 <= i < j < |rows| :: RowsAscend(functions, rows[i], rows[j])
  }

  lemma BeforeAscends(a: Function, b: Function)
    requires FunctionBefore(a, b)
    ensures KeysAscend(a, b)
  {
    PrecedesExactly(a.digest, b.digest);
    PrecedesExactly(a.name, b.name);
    hide TextBefore, Precedes;
  }

  /** Each row with evidence for the path, and no other, once. */
  ghost predicate OncePerEvidence(sources: seq<Source>, functions: seq<Function>, window: u64, dbt: Option<DbtIndex>,
                                  path: Path, rows: seq<Row>)
  {
    forall row :: Times(rows, row) == if Evidence(sources, functions, window, dbt, path, row) then 1 else 0
  }

  ghost function Times(rows: seq<Row>, row: Row): nat {
    multiset(rows)[row]
  }

  lemma FiledOnce(sources: seq<Source>, functions: seq<Function>, window: u64, dbt: Option<DbtIndex>, path: Path)
    ensures OncePerEvidence(sources, functions, window, dbt, path, Filed(sources, functions, window, dbt, path))
  {
    var rows := Filed(sources, functions, window, dbt, path);
    hide Filed, Evidence, Deserved, RowBefore;
    forall row: Row
      ensures Times(rows, row) == if Evidence(sources, functions, window, dbt, path, row) then 1 else 0
    {
      FiledExactly(sources, functions, window, dbt, path, row);
      DeservedExactly(sources, functions, window, dbt, path, row);
    }
  }

  /** Under a path stand exactly the rows with evidence for it, each once, in the order of their functions' keys. */
  lemma FiledByEvidence(sources: seq<Source>, functions: seq<Function>, window: u64, dbt: Option<DbtIndex>, path: Path)
    ensures var rows := Filed(sources, functions, window, dbt, path);
            OncePerEvidence(sources, functions, window, dbt, path, rows) && InKeyOrder(functions, rows)
  {
    var rows := Filed(sources, functions, window, dbt, path);
    FiledOnce(sources, functions, window, dbt, path);
    hide Filed, OncePerEvidence, RowsAscend;
    forall i, j | 0 <= i < j < |rows|
      ensures RowsAscend(functions, rows[i], rows[j])
    {
      FiledPair(sources, functions, window, dbt, path, i, j);
    }
  }

  lemma FiledPair(sources: seq<Source>, functions: seq<Function>, window: u64, dbt: Option<DbtIndex>, path: Path,
                  i: nat, j: nat)
    requires i < j < |Filed(sources, functions, window, dbt, path)|
    ensures var rows := Filed(sources, functions, window, dbt, path); RowsAscend(functions, rows[i], rows[j])
  {
    var rows := Filed(sources, functions, window, dbt, path);
    FiledOnce(sources, functions, window, dbt, path);
    FiledExactly(sources, functions, window, dbt, path, rows[i]);
    hide Filed, FunctionBefore, KeysAscend, OncePerEvidence;
    EvidenceIndex(sources, functions, window, dbt, path, rows, i);
    EvidenceIndex(sources, functions, window, dbt, path, rows, j);
    BeforeAscends(functions[rows[i].index], functions[rows[j].index]);
  }

  lemma EvidenceIndex(sources: seq<Source>, functions: seq<Function>, window: u64, dbt: Option<DbtIndex>, path: Path,
                      rows: seq<Row>, i: nat)
    requires i < |rows| && OncePerEvidence(sources, functions, window, dbt, path, rows)
    ensures rows[i].index < |functions|
  {
    assert rows[i] in multiset(rows) && Times(rows, rows[i]) > 0;
  }

  lemma ManyMembers(paths: set<Path>, list: seq<Path>)
    requires multiset(list) == multiset(paths)
    ensures |list| == |paths|
    ensures forall path :: path in list <==> path in paths
    ensures forall i, j | 0 <= i < j < |list| :: list[i] != list[j]
  {
    assert |multiset(list)| == |list| && |multiset(paths)| == |paths|;
    forall path
      ensures path in list <==> path in paths
    {
      assert path in list <==> path in multiset(list);
    }
    forall i, j | 0 <= i < j < |list|
      ensures list[i] != list[j]
    {
      if list[i] == list[j] {
        CountsTwice(list, i, j);
      }
    }
  }

  /** A reported record names exactly the paths that the function refers to, at least two, in ascending order. */
  lemma AmbiguityByEvidence(sources: seq<Source>, f: Function, a: Ambiguity)
    requires IsAmbiguity(sources, f, a)
    ensures |a.paths| > 1 && forall i, j | 0 <= i < j < |a.paths| :: Precedes(a.paths[i], a.paths[j])
    ensures forall path :: path in a.paths <==> exists s :: s in sources && Refers(f, s) && s.path == path
  {
    var paths := DirectPaths(sources, f);
    ListingIs(paths);
    ManyMembers(paths, a.paths);
    hide DirectPaths, Refers, Listing, Precedes, TextBefore;
    forall i, j | 0 <= i < j < |a.paths|
      ensures Precedes(a.paths[i], a.paths[j])
    {
      PrecedesExactly(a.paths[i], a.paths[j]);
    }
    forall path
      ensures path in a.paths <==> exists s :: s in sources && Refers(f, s) && s.path == path
    {
      DirectPathsAre(sources, f, path);
    }
  }
}
