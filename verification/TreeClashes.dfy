/**
 * Where names of the source tree can meet: which segments are shortened to the same text, and when the name of a
 * file is also the name of a directory.
 */
module TreeClashes {
  import opened Words
  import opened Text
  import opened TreeNaming
  import opened SourcePaths

  // ---------------------------------------------------------------- shortened segments

  predicate IsLong(segment: Path) {
    |segment| > 200
  }

  /** Two long segments that begin and hash alike. */
  predicate HashAlike(a: Path, b: Path) {
    IsLong(a) && IsLong(b) && a[..180] == b[..180] && Hash31(a) == Hash31(b)
  }

  /** `b` is a short segment spelled like the shortened form of `a`. */
  predicate SpelledAsShortened(a: Path, b: Path) {
    && IsLong(a) && |b| == 189
    && b[..180] == a[..180] && b[180] == TILDE && b[181..] == Hex8(Hash31(a))
  }

  predicate GuardedAlike(a: Path, b: Path) {
    a == b || HashAlike(a, b) || SpelledAsShortened(a, b) || SpelledAsShortened(b, a)
  }

  lemma ShortenedParts(a: Path)
    requires IsLong(a)
    ensures var g := GuardSegment(a);
            |g| == 189 && g[..180] == a[..180] && g[180] == TILDE && g[181..] == Hex8(Hash31(a))
  {
    hide Hash31, Hex8;
  }

  lemma JoinParts(b: Path)
    requires |b| == 189
    ensures b == b[..180] + [b[180]] + b[181..]
  {
  }

  /** Exactly when two segments are guarded alike. */
  lemma GuardedAlikeExactly(a: Path, b: Path)
    ensures GuardSegment(a) == GuardSegment(b) <==> GuardedAlike(a, b)
  {
    hide Hash31, Hex8;
    if IsLong(a) {
      ShortenedParts(a);
      JoinParts(GuardSegment(a));
    }
    if IsLong(b) {
      ShortenedParts(b);
      JoinParts(GuardSegment(b));
    }
    if IsLong(a) && IsLong(b) && GuardSegment(a) == GuardSegment(b) {
      Hex8Injective(Hash31(a), Hash31(b));
    }
    if |a| == 189 {
      JoinParts(a);
    }
    if |b| == 189 {
      JoinParts(b);
    }
  }

  lemma TailHash(h: u32)
    ensures ((h * 31 + 65) % LIMIT32 * 31 + 97) % LIMIT32 == ((h * 31 + 66) % LIMIT32 * 31 + 66) % LIMIT32
  {
    FoldTwice(h, 65, 97);
    FoldTwice(h, 66, 66);
  }

  lemma FoldTwice(h: u32, c: byte, d: byte)
    ensures ((h * 31 + c) % LIMIT32 * 31 + d) % LIMIT32 == (h * 961 + c * 31 + d) % LIMIT32
  {
    var x := h * 31 + c;
    var q := x / LIMIT32;
    assert x == q * LIMIT32 + x % LIMIT32;
    assert x * 31 + d == q * 31 * LIMIT32 + (x % LIMIT32 * 31 + d);
    SameRemainder(x % LIMIT32 * 31 + d, q * 31);
  }

  lemma SameRemainder(y: nat, k: nat)
    ensures (k * LIMIT32 + y) % LIMIT32 == y % LIMIT32
  {
  }

  lemma HashOfTwo(head: Path, c: byte, d: byte)
    ensures Hash31(head + [c, d]) == ((Hash31(head) * 31 + c) % LIMIT32 * 31 + d) % LIMIT32
  {
    var one, two := head + [c], head + [c, d];
    assert two[..|two| - 1] == one && one[..|one| - 1] == head;
  }

  lemma SameHashExtended(a: Path, b: Path, tail: Path)
    requires Hash31(a) == Hash31(b)
    ensures Hash31(a + tail) == Hash31(b + tail)
    decreases |tail|
  {
    if tail == [] {
      assert a + tail == a && b + tail == b;
    } else {
      var n := |tail| - 1;
      SameHashExtended(a, b, tail[..n]);
      assert (a + tail)[..|a + tail| - 1] == a + tail[..n] && (b + tail)[..|b + tail| - 1] == b + tail[..n];
    }
  }

  lemma SameHashes(head: Path, tail: Path)
    ensures Hash31(head + [65, 97] + tail) == Hash31(head + [66, 66] + tail)
  {
    HashOfTwo(head, 65, 97);
    HashOfTwo(head, 66, 66);
    TailHash(Hash31(head));
    hide Hash31;
    SameHashExtended(head + [65, 97], head + [66, 66], tail);
  }

  /** Shortening is not injective: two long segments that differ only in `Aa` against `BB` after 180 bytes meet. */
  lemma ShortenedMeet(head: Path, tail: Path)
    requires |head| >= 180 && |head| + 2 + |tail| > 200
    ensures head + [65, 97] + tail != head + [66, 66] + tail
    ensures GuardSegment(head + [65, 97] + tail) == GuardSegment(head + [66, 66] + tail)
  {
    SameHashes(head, tail);
    hide GuardSegment, Hash31, Hex8;
    var a, b := head + [65, 97] + tail, head + [66, 66] + tail;
    assert a[|head|] == 65 && b[|head|] == 66;
    assert a[..180] == head[..180] && b[..180] == head[..180];
    GuardedAlikeExactly(a, b);
  }

  function Repeated(b: byte, n: nat): (p: Path)
    ensures |p| == n && forall k | 0 <= k < n :: p[k] == b
  {
    seq(n, _ => b)
  }

  /** `a/`, 180 times `a`, the middle, 16 times `b`, `.cpp`: a source path whose last segment has 202 bytes. */
  function LongPath(middle: Path): Path {
    [97, SLASH] + LongSegment(middle)
  }

  function LongSegment(middle: Path): Path {
    Repeated(97, 180) + middle + (Repeated(98, 16) + [DOT, 99, 112, 112])
  }

  /** Two different source paths that are shortened to one name. */
  lemma LongPathsMeet()
    ensures IsSourceText(LongPath([65, 97])) && Normalize(LongPath([65, 97])) == LongPath([65, 97])
    ensures IsSourceText(LongPath([66, 66])) && Normalize(LongPath([66, 66])) == LongPath([66, 66])
    ensures LongPath([65, 97]) != LongPath([66, 66])
    ensures GuardLong(LongPath([65, 97])) == GuardLong(LongPath([66, 66]))
  {
    ShortenedMeet(Repeated(97, 180), Repeated(98, 16) + [DOT, 99, 112, 112]);
    LongPathIs([65, 97]);
    LongPathIs([66, 66]);
    hide GuardSegment, LongSegment, Normalize, IsSourceText;
    assert LongPath([65, 97])[2..] == LongSegment([65, 97]) && LongPath([66, 66])[2..] == LongSegment([66, 66]);
  }

  lemma LongPathIs(middle: Path)
    requires |middle| == 2 && forall k | 0 <= k < 2 :: IsLetter(middle[k])
    ensures IsSourceText(LongPath(middle)) && Normalize(LongPath(middle)) == LongPath(middle)
    ensures GuardLong(LongPath(middle)) == [97, SLASH] + GuardSegment(LongSegment(middle))
  {
    LongPathIsSource(middle);
    LongSegments(middle);
    NoBackslash(middle);
    hide *;
    TwoSegments(LongPath(middle), [97], LongSegment(middle));
    assert [97] + [SLASH] == [97, SLASH];
  }

  /** A path of a short segment and another, both of which are kept. */
  lemma TwoSegments(path: Path, a: Path, b: Path)
    requires Segments(path) == [a, b] && Slashes(path) == path && IsKept(a) && IsKept(b) && |a| <= 200
    ensures Normalize(path) == path && GuardLong(path) == a + [SLASH] + GuardSegment(b)
  {
    JoinSegments(path);
    hide Segments, IsKept, GuardSegment;
    TwoJoined(a, b);
    TwoJoined(a, GuardSegment(b));
    TwoKept(a, b);
    ShortIsKept(a);
    assert GuardSegments([a, b]) == [a, GuardSegment(b)];
  }

  lemma ShortIsKept(s: Path)
    requires |s| <= 200
    ensures GuardSegment(s) == s
  {
  }

  lemma TwoJoined(a: Path, b: Path)
    ensures Join([a, b]) == a + [SLASH] + b
  {
    assert [a, b][1..] == [b];
  }

  lemma TwoKept(a: Path, b: Path)
    requires IsKept(a) && IsKept(b)
    ensures KeptSegments([a, b]) == [a, b]
  {
    OneKept(b);
    assert [a, b][1..] == [b] && [a] + [b] == [a, b];
  }

  lemma LongSegments(middle: Path)
    requires |middle| == 2 && forall k | 0 <= k < 2 :: IsLetter(middle[k])
    ensures Segments(LongPath(middle)) == [[97], LongSegment(middle)]
    ensures IsKept(LongSegment(middle)) && IsKept([97])
  {
    var s := LongSegment(middle);
    assert SLASH !in s;
    SegmentsOfLast(s);
    SegmentsOfText([97], s);
    assert LongPath(middle) == [97] + [SLASH] + s;
  }

  lemma NoBackslash(middle: Path)
    requires |middle| == 2 && forall k | 0 <= k < 2 :: IsLetter(middle[k])
    ensures Slashes(LongPath(middle)) == LongPath(middle)
  {
  }

  lemma LongPathIsSource(middle: Path)
    requires |middle| == 2 && forall k | 0 <= k < 2 :: IsLetter(middle[k])
    ensures IsSourceText(LongPath(middle))
  {
    var path := LongPath(middle);
    CppIsExtension();
    assert path[200] == DOT && path[201..] == [99, 112, 112];
    hide IsExtension;
    assert EndsAt(path, 200);
  }

  lemma CppIsExtension()
    ensures IsExtension([99, 112, 112])
  {
    assert Lower([99, 112, 112]) == [99, 112, 112];
  }

  lemma GuardKeepsSlash(segment: Path)
    requires SLASH !in segment
    ensures SLASH !in GuardSegment(segment)
  {
    hide Hash31, Hex8;
    var hex := Hex8(Hash31(segment));
    assert IsNumeral(hex);
    forall k | 0 <= k < |hex|
      ensures hex[k] != SLASH
    {
      assert IsHexDigit(hex[k]);
    }
  }

  lemma GuardedSegments(p: Path)
    ensures Segments(GuardLong(p)) == GuardSegments(Segments(p))
  {
    SegmentsHaveNoSlash(p);
    hide GuardSegment, Segments, Join;
    var guarded := GuardSegments(Segments(p));
    forall k | 0 <= k < |guarded|
      ensures SLASH !in guarded[k]
    {
      GuardKeepsSlash(Segments(p)[k]);
    }
    SegmentsJoin(guarded);
  }

  /** Exactly when two paths are shortened to the same path: segment by segment. */
  lemma ShortenedAlikeExactly(p: Path, q: Path)
    ensures GuardLong(p) == GuardLong(q) <==>
            && |Segments(p)| == |Segments(q)|
            && forall k | 0 <= k < |Segments(p)| :: GuardedAlike(Segments(p)[k], Segments(q)[k])
  {
    GuardedSegments(p);
    GuardedSegments(q);
    hide GuardedAlike, GuardSegment, Segments, Join;
    var a, b := Segments(p), Segments(q);
    if GuardLong(p) == GuardLong(q) {
      forall k | 0 <= k < |a|
        ensures GuardedAlike(a[k], b[k])
      {
        assert GuardSegments(a)[k] == GuardSegments(b)[k];
        GuardedAlikeExactly(a[k], b[k]);
      }
    }
    if |a| == |b| && forall k | 0 <= k < |a| :: GuardedAlike(a[k], b[k]) {
      forall k | 0 <= k < |a|
        ensures GuardSegment(a[k]) == GuardSegment(b[k])
      {
        GuardedAlikeExactly(a[k], b[k]);
      }
      assert GuardSegments(a) == GuardSegments(b);
    }
  }

  // ---------------------------------------------------------------- files and directories

  /** A file of the tree whose name is also the name of a directory of the tree. */
  ghost predicate Clash(names: seq<Path>) {
    exists i, j :: 0 <= i < |names| && 0 <= j < |names| && IsParent(names[i], names[j])
  }

  /** Only the last segment of the path is changed, by `.node`, by shortening, or by a suffix. */
  ghost predicate KeepsDirectories(path: Path, dirs: set<Path>) {
    && ParentsOf(Shaped(path, dirs)) == ParentsOf(path)
    && SLASH !in Shaped(path, dirs)[SuffixPoint(Shaped(path, dirs))..]
  }

  lemma ParentsAre(path: Path, dir: Path)
    ensures dir in ParentsOf(path) <==> IsParent(dir, path)
  {
    if IsParent(dir, path) {
      assert path[..|dir|] == dir;
    }
  }

  lemma ParentsKept(head: Path, middle: Path, tail: Path)
    requires SLASH !in middle && SLASH !in tail
    ensures ParentsOf(head + middle + tail) == ParentsOf(head + tail)
  {
    var p, q := head + middle + tail, head + tail;
    forall dir
      ensures IsParent(dir, p) <==> IsParent(dir, q)
    {
      if |dir| < |head| {
        assert p[..|dir|] == head[..|dir|] == q[..|dir|];
        assert p[|dir|] == head[|dir|] == q[|dir|];
      } else {
        if |dir| < |p| {
          assert p[|dir|] == (middle + tail)[|dir| - |head|];
        }
        if |dir| < |q| {
          assert q[|dir|] == tail[|dir| - |head|];
        }
      }
    }
    forall dir
      ensures dir in ParentsOf(p) <==> dir in ParentsOf(q)
    {
      ParentsAre(p, dir);
      ParentsAre(q, dir);
    }
  }

  lemma NumeralHasNoSlash(text: Path)
    requires IsNumeral(text)
    ensures SLASH !in text
  {
    forall k | 0 <= k < |text|
      ensures text[k] != SLASH
    {
      assert IsHexDigit(text[k]);
    }
  }

  lemma CandidateKeepsParents(rel: Path, n: nat)
    requires SLASH !in rel[SuffixPoint(rel)..]
    ensures ParentsOf(Candidate(rel, n)) == ParentsOf(rel)
  {
    hide SuffixPoint, Decimal, ParentsOf;
    var i := SuffixPoint(rel);
    NumeralHasNoSlash(Decimal(n));
    ParentsKept(rel[..i], [TILDE] + Decimal(n), rel[i..]);
    assert Candidate(rel, n) == rel[..i] + ([TILDE] + Decimal(n)) + rel[i..];
    assert rel[..i] + rel[i..] == rel;
  }

  lemma NameKeepsParents(path: Path, dirs: set<Path>, used: map<Path, nat>)
    requires KeepsDirectories(path, dirs)
    ensures ParentsOf(FinalName(path, dirs, used)) == ParentsOf(path)
  {
    hide ParentsOf, Shaped, Candidate, SuffixPoint, Lower;
    var shaped := Shaped(path, dirs);
    if Lower(shaped) in used {
      CandidateKeepsParents(shaped, FreeSuffix(used.Keys, shaped, used[Lower(shaped)]));
    }
  }

  lemma {:induction false} NamesKeepParents(paths: seq<Path>, dirs: set<Path>)
    requires forall k | 0 <= k < |paths| :: KeepsDirectories(paths[k], dirs)
    ensures forall k | 0 <= k < |paths| :: ParentsOf(NamesOf(paths, dirs)[k]) == ParentsOf(paths[k])
    decreases |paths|
  {
    hide ParentsOf, KeepsDirectories, FinalName, UsedAfter;
    if paths != [] {
      var n := |paths| - 1;
      NamesKeepParents(paths[..n], dirs);
      NameKeepsParents(paths[n], dirs, UsedBy(paths[..n], dirs));
    }
  }

  /**
   * When names keep their directories, a file clashes with a directory exactly when a final name is in the directory
   * set of the paths: the guard is applied before `.node` is added, and never to the name that is used.
   */
  lemma ClashExactly(paths: seq<Path>)
    requires forall k | 0 <= k < |paths| :: KeepsDirectories(paths[k], DirSet(paths))
    ensures var names := NamesOf(paths, DirSet(paths));
            Clash(names) <==> exists i :: 0 <= i < |names| && names[i] in DirSet(paths)
  {
    var dirs := DirSet(paths);
    var names := NamesOf(paths, dirs);
    NamesKeepParents(paths, dirs);
    hide DirSet, NamesOf, KeepsDirectories, IsParent;
    if i, j :| 0 <= i < |names| && 0 <= j < |names| && IsParent(names[i], names[j]) {
      ParentsAre(names[j], names[i]);
      ParentsAre(paths[j], names[i]);
      DirSetIs(paths, names[i]);
    }
    if i :| 0 <= i < |names| && names[i] in dirs {
      DirSetIs(paths, names[i]);
      var j :| 0 <= j < |paths| && IsParent(names[i], paths[j]);
      ParentsAre(paths[j], names[i]);
      ParentsAre(names[j], names[i]);
    }
  }

  // ---------------------------------------------------------------- without suffixes

  /** No segment is long, even with `.node` added. */
  predicate AllShort(path: Path) {
    forall k | 0 <= k < |Segments(path)| :: |Segments(path)[k]| <= 195
  }

  function WithNode(path: Path, dirs: set<Path>): Path {
    if path in dirs then path + NODE_SUFFIX else path
  }

  /** No two paths want the same name, even without regard to case. */
  ghost predicate CaseApart(paths: seq<Path>, dirs: set<Path>) {
    forall i, j | 0 <= i < j < |paths| :: Lower(WithNode(paths[i], dirs)) != Lower(WithNode(paths[j], dirs))
  }

  function GrowLast(segments: seq<Path>, tail: Path): seq<Path>
    requires segments != []
  {
    segments[..|segments| - 1] + [segments[|segments| - 1] + tail]
  }

  lemma GrowAfter(first: Path, segments: seq<Path>, tail: Path)
    requires segments != []
    ensures GrowLast([first] + segments, tail) == [first] + GrowLast(segments, tail)
  {
    var all := [first] + segments;
    assert all[|all| - 1] == segments[|segments| - 1];
    assert all[..|all| - 1] == [first] + segments[..|segments| - 1];
  }

  lemma GrowSame(b: byte, segments: seq<Path>, tail: Path)
    requires segments != []
    ensures var grown := GrowLast(segments, tail);
            GrowLast([[b] + segments[0]] + segments[1..], tail) == [[b] + grown[0]] + grown[1..]
  {
    if |segments| == 1 {
      assert [b] + (segments[0] + tail) == [b] + segments[0] + tail;
    } else {
      GrowAfter([b] + segments[0], segments[1..], tail);
      GrowAfter(segments[0], segments[1..], tail);
      assert segments == [segments[0]] + segments[1..];
      hide GrowLast;
    }
  }

  lemma {:induction false} LastSegmentGrows(p: Path, tail: Path)
    requires SLASH !in tail
    ensures Segments(p + tail) == GrowLast(Segments(p), tail)
    decreases |p|
  {
    if p == [] {
      SegmentsOfLast(tail);
      assert p + tail == tail && [] + tail == tail;
    } else {
      LastSegmentGrows(p[1..], tail);
      assert (p + tail)[1..] == p[1..] + tail && (p + tail)[0] == p[0];
      GrowAfter([], Segments(p[1..]), tail);
      GrowSame(p[0], Segments(p[1..]), tail);
      hide GrowLast;
    }
  }

  lemma ShapedIs(path: Path, dirs: set<Path>)
    requires AllShort(path)
    ensures Shaped(path, dirs) == WithNode(path, dirs)
  {
    hide Segments;
    LastSegmentGrows(path, NODE_SUFFIX);
    GuardShort(WithNode(path, dirs));
  }

  lemma WithNodeKeepsParents(path: Path, dirs: set<Path>)
    ensures ParentsOf(WithNode(path, dirs)) == ParentsOf(path)
  {
    ParentsKept(path, NODE_SUFFIX, []);
    assert path + NODE_SUFFIX + [] == path + NODE_SUFFIX && path + [] == path;
  }

  ghost predicate NamedPlainly(paths: seq<Path>, dirs: set<Path>) {
    && (forall k | 0 <= k < |paths| :: NamesOf(paths, dirs)[k] == WithNode(paths[k], dirs))
    && (forall low | low in UsedBy(paths, dirs) ::
          exists k :: 0 <= k < |paths| && low == Lower(WithNode(paths[k], dirs)))
  }

  /** Without long segments and collisions, the names are the paths, with `.node` for directories. */
  lemma {:induction false} PlainNames(paths: seq<Path>, dirs: set<Path>)
    requires (forall k | 0 <= k < |paths| :: AllShort(paths[k])) && CaseApart(paths, dirs)
    ensures NamedPlainly(paths, dirs)
    decreases |paths|
  {
    hide AllShort, Lower, WithNode, Shaped;
    if paths != [] {
      var n := |paths| - 1;
      var rest := paths[..n];
      PlainNames(rest, dirs);
      ShapedIs(paths[n], dirs);
      assert Lower(WithNode(paths[n], dirs)) !in UsedBy(rest, dirs);
      forall low | low in UsedBy(paths, dirs)
        ensures exists k :: 0 <= k < |paths| && low == Lower(WithNode(paths[k], dirs))
      {
        if low in UsedBy(rest, dirs) {
          var k :| 0 <= k < |rest| && low == Lower(WithNode(rest[k], dirs));
          assert paths[k] == rest[k];
        } else {
          assert low == Lower(WithNode(paths[n], dirs));
        }
      }
    }
  }

  lemma PlainParent(dirs: set<Path>, path: Path, dir: Path)
    ensures IsParent(dir, WithNode(path, dirs)) <==> IsParent(dir, path)
  {
    WithNodeKeepsParents(path, dirs);
    ParentsAre(WithNode(path, dirs), dir);
    ParentsAre(path, dir);
    hide WithNode, IsParent, ParentsOf;
  }

  /** The name of a path is a directory exactly when the path and its `.node` both are. */
  lemma NodeIsDirectory(paths: seq<Path>, path: Path)
    ensures var dirs := DirSet(paths);
            WithNode(path, dirs) in dirs <==> path in dirs && path + NODE_SUFFIX in dirs
  {
    hide DirSet;
  }

  lemma PlainClash(paths: seq<Path>, k: nat)
    requires k < |paths|
    ensures var dirs := DirSet(paths);
            WithNode(paths[k], dirs) in dirs
            <==> exists j :: 0 <= j < |paths| && IsParent(WithNode(paths[k], dirs), WithNode(paths[j], dirs))
  {
    var dirs := DirSet(paths);
    var name := WithNode(paths[k], dirs);
    DirSetIs(paths, name);
    hide DirSet, IsParent, WithNode;
    if j :| 0 <= j < |paths| && IsParent(name, paths[j]) {
      PlainParent(dirs, paths[j], name);
    }
    if j :| 0 <= j < |paths| && IsParent(name, WithNode(paths[j], dirs)) {
      PlainParent(dirs, paths[j], name);
    }
  }

  lemma PlainNamesClash(paths: seq<Path>, names: seq<Path>)
    requires |names| == |paths|
    requires forall k | 0 <= k < |paths| :: names[k] == WithNode(paths[k], DirSet(paths))
    ensures Clash(names) <==> exists k :: 0 <= k < |paths| && WithNode(paths[k], DirSet(paths)) in DirSet(paths)
  {
    hide DirSet, IsParent, WithNode;
    if i, j :| 0 <= i < |names| && 0 <= j < |names| && IsParent(names[i], names[j]) {
      PlainClash(paths, i);
    }
    if k :| 0 <= k < |paths| && WithNode(paths[k], DirSet(paths)) in DirSet(paths) {
      PlainClash(paths, k);
      var j :| 0 <= j < |paths| && IsParent(names[k], WithNode(paths[j], DirSet(paths)));
      assert IsParent(names[k], names[j]);
    }
  }

  /** A path of the list that is a directory, and whose `.node` is a directory too. */
  ghost predicate NodeTaken(paths: seq<Path>) {
    exists k :: 0 <= k < |paths| && paths[k] in DirSet(paths) && paths[k] + NODE_SUFFIX in DirSet(paths)
  }

  lemma NodeTakenMeans(paths: seq<Path>)
    ensures NodeTaken(paths) <==> exists k :: 0 <= k < |paths| && WithNode(paths[k], DirSet(paths)) in DirSet(paths)
  {
    hide DirSet, WithNode;
    if k :| 0 <= k < |paths| && paths[k] in DirSet(paths) && paths[k] + NODE_SUFFIX in DirSet(paths) {
      NodeIsDirectory(paths, paths[k]);
    }
    if k :| 0 <= k < |paths| && WithNode(paths[k], DirSet(paths)) in DirSet(paths) {
      NodeIsDirectory(paths, paths[k]);
    }
  }

  /** Then a clash is exactly a path that is a directory and whose `.node` is a directory too. */
  lemma NodeClashExactly(paths: seq<Path>)
    requires (forall k | 0 <= k < |paths| :: AllShort(paths[k])) && CaseApart(paths, DirSet(paths))
    ensures Clash(NamesOf(paths, DirSet(paths))) <==> NodeTaken(paths)
  {
    PlainNames(paths, DirSet(paths));
    NodeTakenMeans(paths);
    hide DirSet, NamesOf, AllShort, CaseApart, UsedBy, Lower, WithNode, Clash, NodeTaken;
    PlainNamesClash(paths, NamesOf(paths, DirSet(paths)));
  }

  /** The last dot is where the suffix goes. */
  lemma {:induction false} PointAtDot(head: Path, text: Path)
    requires DOT !in text
    ensures SuffixPoint(head + [DOT] + text) == |head|
    decreases |text|
  {
    var rel := head + [DOT] + text;
    if text == [] {
      assert rel == head + [DOT];
    } else {
      var n := |text| - 1;
      PointAtDot(head, text[..n]);
      assert rel[..|rel| - 1] == head + [DOT] + text[..n];
      assert rel[|rel| - 1] == text[n];
    }
  }

  lemma NodePoint(path: Path)
    ensures SuffixPoint(path + NODE_SUFFIX) == |path|
  {
    NodeText(path);
    hide *;
    PointAtDot(path, NODE);
  }

  /** `node`. */
  const NODE: Path := [110, 111, 100, 101]

  lemma NodeText(path: Path)
    ensures path + NODE_SUFFIX == path + [DOT] + NODE && DOT !in NODE
  {
    assert NODE_SUFFIX == [DOT] + NODE;
  }

  /** Short segments, and dots in the last one only: only the last segment is changed. */
  lemma DotsLastKeep(path: Path, dirs: set<Path>)
    requires AllShort(path) && forall k | 0 <= k < |path| && path[k] == DOT :: SLASH !in path[k..]
    ensures KeepsDirectories(path, dirs)
  {
    ShapedIs(path, dirs);
    WithNodeKeepsParents(path, dirs);
    hide Shaped, ParentsOf, AllShort, SuffixPoint;
    if path in dirs {
      NodePoint(path);
      assert (path + NODE_SUFFIX)[|path|..] == NODE_SUFFIX;
    } else {
      assert SuffixPoint(path) < |path| ==> path[SuffixPoint(path)] == DOT;
    }
  }

  // `a/x.c`, `a/x.c.node/z.c` and `a/x.c/y.c`.
  const SAMPLE: seq<Path> :=
    [[97, 47, 120, 46, 99], [97, 47, 120, 46, 99, 46, 110, 111, 100, 101, 47, 122, 46, 99],
     [97, 47, 120, 46, 99, 47, 121, 46, 99]]

  /** The file for `a/x.c` is named `a/x.c.node`, which is also the directory of `a/x.c.node/z.c`. */
  lemma SampleClashes()
    ensures Clash(NamesOf(SAMPLE, DirSet(SAMPLE)))
  {
    var dirs := DirSet(SAMPLE);
    assert IsParent(SAMPLE[0], SAMPLE[2]);
    DirSetIs(SAMPLE, SAMPLE[0]);
    assert IsParent(SAMPLE[0] + NODE_SUFFIX, SAMPLE[1]);
    DirSetIs(SAMPLE, SAMPLE[0] + NODE_SUFFIX);
    SampleIsPlain();
    NodeClashExactly(SAMPLE);
  }

  lemma {:induction false} SegmentsNotLonger(p: Path)
    ensures forall k | 0 <= k < |Segments(p)| :: |Segments(p)[k]| <= |p|
  {
    if p != [] {
      SegmentsNotLonger(p[1..]);
    }
  }

  lemma SampleIsPlain()
    ensures forall k | 0 <= k < |SAMPLE| :: AllShort(SAMPLE[k])
    ensures CaseApart(SAMPLE, DirSet(SAMPLE))
  {
    forall k | 0 <= k < |SAMPLE|
      ensures AllShort(SAMPLE[k])
    {
      SegmentsNotLonger(SAMPLE[k]);
      assert |SAMPLE[k]| <= 14;
    }
    hide DirSet, AllShort;
    var dirs := DirSet(SAMPLE);
    var a, b, c := WithNode(SAMPLE[0], dirs), WithNode(SAMPLE[1], dirs), WithNode(SAMPLE[2], dirs);
    assert |a| in {5, 10} && |b| in {14, 19} && |c| in {9, 14};
    assert Lower(b)[5] == 46 && Lower(c)[5] == 47;
  }

  lemma {:induction false} AllKept(segments: seq<Path>)
    requires forall k | 0 <= k < |segments| :: IsKept(segments[k])
    ensures KeptSegments(segments) == segments
    decreases |segments|
  {
    hide IsKept;
    if segments != [] {
      AllKept(segments[1..]);
      assert segments == [segments[0]] + segments[1..];
    }
  }

  lemma NormalizeSame(path: Path)
    requires Slashes(path) == path && forall k | 0 <= k < |Segments(path)| :: IsKept(Segments(path)[k])
    ensures Normalize(path) == path
  {
    JoinSegments(path);
    AllKept(Segments(path));
    hide Segments, IsKept, KeptSegments;
  }

  lemma SampleSegments()
    ensures Segments(SAMPLE[0]) == [[97], [120, 46, 99]]
    ensures Segments(SAMPLE[1]) == [[97], [120, 46, 99, 46, 110, 111, 100, 101], [122, 46, 99]]
    ensures Segments(SAMPLE[2]) == [[97], [120, 46, 99], [121, 46, 99]]
  {
    hide Segments;
    var x, node, y, z: Path := [120, 46, 99], [120, 46, 99, 46, 110, 111, 100, 101], [121, 46, 99], [122, 46, 99];
    SegmentsOfLast(x);
    SegmentsOfLast(y);
    SegmentsOfLast(z);
    SegmentsOfText(node, z);
    SegmentsOfText(x, y);
    SegmentsOfText([97], x);
    SegmentsOfText([97], node + [SLASH] + z);
    SegmentsOfText([97], x + [SLASH] + y);
    assert SAMPLE[0] == [97] + [SLASH] + x;
    assert SAMPLE[1] == [97] + [SLASH] + (node + [SLASH] + z);
    assert SAMPLE[2] == [97] + [SLASH] + (x + [SLASH] + y);
  }

  lemma CIsExtension()
    ensures IsExtension([99])
  {
    assert Lower([99]) == [99];
  }

  lemma EndsInC(path: Path)
    requires |path| >= 5 && path[|path| - 2] == DOT && path[|path| - 1] == 99 && |path| <= 202
    requires forall k | 0 <= k < |path| :: IsPathByte(path[k]) && path[k] != BACKSLASH
    requires forall k | 0 <= k < |Segments(path)| :: IsKept(Segments(path)[k])
    ensures IsSourceText(path) && Normalize(path) == path
  {
    CIsExtension();
    hide IsExtension, Segments, IsKept, Normalize, IsPathByte;
    assert path[|path| - 1..] == [99];
    assert EndsAt(path, |path| - 2);
    assert Slashes(path) == path;
    NormalizeSame(path);
  }

  /** The three paths are source paths as they stand. */
  lemma SampleReceived()
    ensures forall k | 0 <= k < |SAMPLE| :: IsSourceText(SAMPLE[k]) && Normalize(SAMPLE[k]) == SAMPLE[k]
  {
    SampleSegments();
    hide Segments, IsSourceText, Normalize;
    EndsInC(SAMPLE[0]);
    EndsInC(SAMPLE[1]);
    EndsInC(SAMPLE[2]);
  }
}
