/**
 * File names for recovered source paths. The chosen names are pairwise distinct even without regard to
 * case, the search for a free suffix ends, and a loader that repeats the run finds the same names.
 */
module TreeNaming {
  import opened Words
  import opened Sorting
  import opened Text

  /** A path as bytes; letters fold by ASCII rules. */
  type Path = seq<byte>

  const SLASH: byte := 47
  const DOT: byte := 46
  const TILDE: byte := 126

  /** `.node`, added to a path that is also a directory. */
  const NODE_SUFFIX: Path := [46, 110, 111, 100, 101]

  function LowerByte(b: byte): byte {
    if 65 <= b <= 90 then b + 32 else b
  }

  function Lower(p: Path): (q: Path)
    ensures |q| == |p| && forall k | 0 <= k < |p| :: q[k] == LowerByte(p[k])
  {
    seq<byte>(|p|, k requires 0 <= k < |p| => LowerByte(p[k]))
  }

  lemma LowerConcat(p: Path, q: Path)
    ensures Lower(p + q) == Lower(p) + Lower(q)
  {
  }

  lemma LowerNumeral(p: Path)
    requires IsNumeral(p)
    ensures Lower(p) == p
  {
  }

  // ---------------------------------------------------------------- long segments

  function Segments(p: Path): (segments: seq<Path>)
    ensures segments != []
  {
    if p == [] then [[]]
    else
      var rest := Segments(p[1..]);
      if p[0] == SLASH then [[]] + rest else [[p[0]] + rest[0]] + rest[1..]
  }

  function Join(segments: seq<Path>): Path
    requires segments != []
  {
    if |segments| == 1 then segments[0] else segments[0] + [SLASH] + Join(segments[1..])
  }

  function Hash31(segment: Path): u32 {
    if segment == [] then 0
    else (Hash31(segment[..|segment| - 1]) * 31 + segment[|segment| - 1]) % LIMIT32
  }

  function GuardSegment(segment: Path): Path {
    if |segment| > 200 then segment[..180] + [TILDE] + Hex8(Hash31(segment)) else segment
  }

  function GuardSegments(segments: seq<Path>): (guarded: seq<Path>)
    ensures |guarded| == |segments| && forall k | 0 <= k < |segments| :: guarded[k] == GuardSegment(segments[k])
  {
    seq(|segments|, k requires 0 <= k < |segments| => GuardSegment(segments[k]))
  }

  function GuardLong(rel: Path): Path {
    Join(GuardSegments(Segments(rel)))
  }

  lemma {:induction false} JoinSegments(p: Path)
    ensures Join(Segments(p)) == p
  {
    if p != [] {
      JoinSegments(p[1..]);
      var rest := Segments(p[1..]);
      var all := Segments(p);
      assert p == [p[0]] + p[1..];
      if p[0] == SLASH {
        assert all[1..] == rest;
      } else {
        assert all[1..] == rest[1..];
      }
    }
  }

  /** Short segments are kept as they are. */
  lemma GuardShort(rel: Path)
    requires forall k | 0 <= k < |Segments(rel)| :: |Segments(rel)[k]| <= 200
    ensures GuardLong(rel) == rel
  {
    assert GuardSegments(Segments(rel)) == Segments(rel);
    JoinSegments(rel);
  }

  // ---------------------------------------------------------------- candidates

  /** Where a suffix goes: before the last dot, or at the end. */
  function SuffixPoint(rel: Path): (i: nat)
    ensures i <= |rel| && (i < |rel| ==> rel[i] == DOT && DOT !in rel[i + 1..]) && (i == |rel| ==> DOT !in rel)
  {
    if rel == [] then 0
    else
      var n := |rel| - 1;
      if rel[n] == DOT then n
      else
        var i := SuffixPoint(rel[..n]);
        assert rel == rel[..n] + [rel[n]];
        if i < n then (assert rel[i + 1..] == rel[..n][i + 1..] + [rel[n]]; i) else n + 1
  }

  function Candidate(rel: Path, n: nat): Path {
    var i := SuffixPoint(rel);
    rel[..i] + [TILDE] + Decimal(n) + rel[i..]
  }

  /** Candidates differ, whatever the case of the letters. */
  lemma CandidatesDiffer(rel: Path, m: nat, n: nat)
    requires Lower(Candidate(rel, m)) == Lower(Candidate(rel, n))
    ensures m == n
  {
    hide SuffixPoint, Decimal, Lower;
    var i := SuffixPoint(rel);
    var head, tail := rel[..i] + [TILDE], rel[i..];
    LowerParts(head, Decimal(m), tail);
    LowerParts(head, Decimal(n), tail);
    LowerNumeral(Decimal(m));
    LowerNumeral(Decimal(n));
    Middle(Lower(head), Decimal(m), Decimal(n), Lower(tail));
    DecimalInjective(m, n);
  }

  lemma LowerParts(a: Path, b: Path, c: Path)
    ensures Lower(a + b + c) == Lower(a) + Lower(b) + Lower(c)
  {
    LowerConcat(a, b);
    LowerConcat(a + b, c);
  }

  lemma Middle(a: Path, b: Path, c: Path, d: Path)
    requires a + b + d == a + c + d
    ensures b == c
  {
    assert |b| == |c|;
    assert (a + b + d)[|a|..|a| + |b|] == b && (a + c + d)[|a|..|a| + |c|] == c;
  }

  // ---------------------------------------------------------------- the search

  /** The used names that are candidates with a suffix above `n`. */
  ghost function Beyond(used: set<Path>, rel: Path, n: nat): set<Path> {
    set p | p in used && IsCandidateAbove(rel, n, p)
  }

  ghost predicate IsCandidateAbove(rel: Path, n: nat, p: Path) {
    exists m: nat :: m > n && Lower(Candidate(rel, m)) == p
  }

  lemma BeyondShrinks(used: set<Path>, rel: Path, n: nat)
    requires Lower(Candidate(rel, n + 1)) in used
    ensures |Beyond(used, rel, n + 1)| < |Beyond(used, rel, n)|
  {
    hide Candidate, Lower;
    var next := n + 1;
    var key := Lower(Candidate(rel, next));
    assert IsCandidateAbove(rel, n, key);
    forall p | p in Beyond(used, rel, next)
      ensures p in Beyond(used, rel, n) && p != key
    {
      var m: nat :| m > next && Lower(Candidate(rel, m)) == p;
      if p == key {
        CandidatesDiffer(rel, m, next);
      }
    }
    assert Beyond(used, rel, next) <= Beyond(used, rel, n) - {key};
    SubsetSize(Beyond(used, rel, next), Beyond(used, rel, n) - {key});
  }

  lemma {:induction false} SubsetSize(a: set<Path>, b: set<Path>)
    requires a <= b
    ensures |a| <= |b|
    decreases |a|
  {
    if a != {} {
      var x :| x in a;
      SubsetSize(a - {x}, b - {x});
    }
  }

  /** The least suffix above `n` whose name is free. */
  ghost function FreeSuffix(used: set<Path>, rel: Path, n: nat): (m: nat)
    ensures m > n && Lower(Candidate(rel, m)) !in used
    ensures forall k: nat | n < k < m :: Lower(Candidate(rel, k)) in used
    decreases |Beyond(used, rel, n)|
  {
    if Lower(Candidate(rel, n + 1)) !in used then n + 1
    else
      BeyondShrinks(used, rel, n);
      FreeSuffix(used, rel, n + 1)
  }

  function Shaped(rel: Path, dirs: set<Path>): Path {
    GuardLong(if rel in dirs then rel + NODE_SUFFIX else rel)
  }

  /** The name a path gets, given the names used so far. */
  ghost function FinalName(rel: Path, dirs: set<Path>, used: map<Path, nat>): Path {
    var shaped := Shaped(rel, dirs);
    if Lower(shaped) in used then Candidate(shaped, FreeSuffix(used.Keys, shaped, used[Lower(shaped)])) else shaped
  }

  ghost function UsedAfter(rel: Path, dirs: set<Path>, used: map<Path, nat>): map<Path, nat> {
    var shaped := Shaped(rel, dirs);
    if Lower(shaped) in used then
      var n := FreeSuffix(used.Keys, shaped, used[Lower(shaped)]);
      used[Lower(shaped) := n][Lower(Candidate(shaped, n)) := 0]
    else used[Lower(shaped) := 0]
  }

  /** The name of one path, and the table of names used so far. */
  method FinalizeRel(rel: Path, dirs: set<Path>, used: map<Path, nat>) returns (name: Path, after: map<Path, nat>)
    ensures name == FinalName(rel, dirs, used) && after == UsedAfter(rel, dirs, used)
  {
    hide GuardLong, Candidate, Lower, Beyond;
    name := Shaped(rel, dirs);
    var low := Lower(name);
    if low in used {
      var n := used[low];
      ghost var goal := FreeSuffix(used.Keys, name, n);
      while Lower(Candidate(name, n + 1)) in used
        invariant used[low] <= n < goal && FreeSuffix(used.Keys, name, n) == goal
        decreases goal - n
      {
        n := n + 1;
      }
      n := n + 1;
      var candidate := Candidate(name, n);
      after := used[low := n][Lower(candidate) := 0];
      name := candidate;
    } else {
      after := used[low := 0];
    }
  }

  /** A fresh name each time, recorded for the next. */
  lemma NameIsFresh(rel: Path, dirs: set<Path>, used: map<Path, nat>)
    ensures Lower(FinalName(rel, dirs, used)) !in used
    ensures UsedAfter(rel, dirs, used).Keys == used.Keys + {Lower(FinalName(rel, dirs, used))}
  {
    hide GuardLong, Candidate, Lower, Beyond;
  }

  // ---------------------------------------------------------------- whole runs

  ghost function UsedBy(paths: seq<Path>, dirs: set<Path>): map<Path, nat> {
    if paths == [] then map[]
    else UsedAfter(paths[|paths| - 1], dirs, UsedBy(paths[..|paths| - 1], dirs))
  }

  ghost function NamesOf(paths: seq<Path>, dirs: set<Path>): (names: seq<Path>)
    ensures |names| == |paths|
  {
    if paths == [] then []
    else
      var rest := paths[..|paths| - 1];
      NamesOf(rest, dirs) + [FinalName(paths[|paths| - 1], dirs, UsedBy(rest, dirs))]
  }

  /** Names paths one after the other with one table. */
  method NameAll(paths: seq<Path>, dirs: set<Path>) returns (names: seq<Path>)
    ensures names == NamesOf(paths, dirs)
  {
    hide FinalName, UsedAfter;
    names := [];
    var used: map<Path, nat> := map[];
    assert paths[..0] == [];
    for k := 0 to |paths|
      invariant used == UsedBy(paths[..k], dirs) && names == NamesOf(paths[..k], dirs)
    {
      assert paths[..k + 1][..k] == paths[..k];
      var name, after := FinalizeRel(paths[k], dirs, used);
      names := names + [name];
      used := after;
    }
    assert paths[..|paths|] == paths;
  }

  ghost predicate CaseDistinct(names: seq<Path>) {
    forall i, j | 0 <= i < j < |names| :: Lower(names[i]) != Lower(names[j])
  }

  ghost predicate AllUsed(names: seq<Path>, used: map<Path, nat>) {
    forall k | 0 <= k < |names| :: Lower(names[k]) in used.Keys
  }

  lemma OneMore(names: seq<Path>, used: map<Path, nat>, name: Path, after: map<Path, nat>)
    requires CaseDistinct(names) && AllUsed(names, used) && Lower(name) !in used
    requires after.Keys == used.Keys + {Lower(name)}
    ensures CaseDistinct(names + [name]) && AllUsed(names + [name], after)
  {
    hide Lower;
    var longer := names + [name];
    assert forall k | 0 <= k < |names| :: longer[k] == names[k];
    assert longer[|names|] == name;
  }

  /** No two names of a run are equal, even without regard to case. */
  lemma {:induction false} NamesDistinct(paths: seq<Path>, dirs: set<Path>)
    ensures CaseDistinct(NamesOf(paths, dirs)) && AllUsed(NamesOf(paths, dirs), UsedBy(paths, dirs))
    decreases |paths|
  {
    hide FinalName, UsedAfter, Lower;
    if paths != [] {
      var rest, last := paths[..|paths| - 1], paths[|paths| - 1];
      NamesDistinct(rest, dirs);
      NameIsFresh(last, dirs, UsedBy(rest, dirs));
      OneMore(NamesOf(rest, dirs), UsedBy(rest, dirs), FinalName(last, dirs, UsedBy(rest, dirs)), UsedBy(paths, dirs));
    }
  }

  // ---------------------------------------------------------------- the loader

  /** The proper prefixes of a path that end before a slash. */
  predicate IsParent(dir: Path, path: Path) {
    |dir| < |path| && dir == path[..|dir|] && path[|dir|] == SLASH
  }

  function ParentsOf(path: Path): set<Path> {
    set k | 0 <= k < |path| && path[k] == SLASH :: path[..k]
  }

  function DirSet(paths: seq<Path>): set<Path> {
    if paths == [] then {} else DirSet(paths[..|paths| - 1]) + ParentsOf(paths[|paths| - 1])
  }

  lemma {:induction false} DirSetIs(paths: seq<Path>, dir: Path)
    ensures dir in DirSet(paths) <==> exists k :: 0 <= k < |paths| && IsParent(dir, paths[k])
    decreases |paths|
  {
    if paths != [] {
      var n := |paths| - 1;
      DirSetIs(paths[..n], dir);
      assert dir in ParentsOf(paths[n]) <==> IsParent(dir, paths[n]) by {
        if IsParent(dir, paths[n]) {
          assert paths[n][..|dir|] == dir;
        }
      }
      hide IsParent;
      if k :| 0 <= k < n && IsParent(dir, paths[..n][k]) {
        assert IsParent(dir, paths[k]);
      }
      if k :| 0 <= k < |paths| && IsParent(dir, paths[k]) {
        assert k < n ==> paths[..n][k] == paths[k];
      }
    }
  }

  /** The tree writer and the loader both name the sorted paths of the manifest. */
  method NameTree(paths: seq<Path>) returns (sorted: seq<Path>, names: seq<Path>)
    ensures sorted == Sort(TextBefore, paths)
    ensures names == NamesOf(sorted, DirSet(paths))
  {
    sorted := Sort(TextBefore, paths);
    names := NameAll(sorted, DirSet(paths));
  }

  /** Starting from the same paths in any order, the loader finds the writer's names. */
  lemma LoaderAgrees(written: seq<Path>, loaded: seq<Path>)
    requires multiset(written) == multiset(loaded)
    ensures Sort(TextBefore, written) == Sort(TextBefore, loaded)
    ensures NamesOf(Sort(TextBefore, written), DirSet(written)) == NamesOf(Sort(TextBefore, loaded), DirSet(loaded))
  {
    TextOrder();
    SortPermutation(TextBefore, written, loaded);
    hide TextBefore, Sort, DirSet;
    assert DirSet(written) == DirSet(loaded) by {
      forall dir
        ensures dir in DirSet(written) <==> dir in DirSet(loaded)
      {
        SameDirs(written, loaded, dir);
        SameDirs(loaded, written, dir);
      }
    }
  }

  lemma SameDirs(xs: seq<Path>, ys: seq<Path>, dir: Path)
    requires multiset(xs) == multiset(ys)
    ensures dir in DirSet(xs) ==> dir in DirSet(ys)
  {
    DirSetIs(xs, dir);
    DirSetIs(ys, dir);
    hide DirSet, IsParent;
    if k :| 0 <= k < |xs| && IsParent(dir, xs[k]) {
      assert xs[k] in multiset(ys);
      var j :| 0 <= j < |ys| && ys[j] == xs[k];
    }
  }
}
