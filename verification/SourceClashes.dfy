/**
 * When a file of the source tree is named like a directory, for the paths that reach it: a condition on the paths
 * alone, whatever collides and whatever is shortened.
 */
module SourceClashes {
  import opened Words
  import opened Text
  import opened TreeNaming
  import opened SourcePaths
  import opened TreeClashes

  // ---------------------------------------------------------------- candidates

  lemma TildeAt(a: Path, x: Path)
    requires TILDE !in x
    ensures var c := a + [TILDE] + x; c[|a|] == TILDE && forall k | |a| < k < |c| :: c[k] != TILDE
    ensures var c := a + [TILDE] + x; c[..|a|] == a && c[|a| + 1..] == x
  {
    var c := a + [TILDE] + x;
    forall k | |a| < k < |c|
      ensures c[k] != TILDE
    {
      assert c[k] == x[k - |a| - 1];
    }
  }

  /** The last tilde splits a text in one way. */
  lemma LastTilde(a: Path, x: Path, b: Path, y: Path)
    requires TILDE !in x && TILDE !in y && a + [TILDE] + x == b + [TILDE] + y
    ensures a == b && x == y
  {
    TildeAt(a, x);
    TildeAt(b, y);
    assert |a| == |b|;
  }

  lemma NumeralIsPlain(text: Path)
    requires IsNumeral(text)
    ensures TILDE !in text && SLASH !in text && DOT !in text
  {
    forall k | 0 <= k < |text|
      ensures text[k] != TILDE && text[k] != SLASH && text[k] != DOT
    {
      assert IsHexDigit(text[k]);
    }
  }

  /** Where the suffix of a candidate ends: before its last dot, or at the end. */
  lemma CandidatePoint(s: Path, n: nat)
    ensures var p, c := SuffixPoint(s), Candidate(s, n);
            SuffixPoint(c) == p + 1 + |Decimal(n)| && c[SuffixPoint(c)..] == s[p..]
  {
    var p, d := SuffixPoint(s), Decimal(n);
    NumeralIsPlain(d);
    hide SuffixPoint, Decimal;
    var head := s[..p] + [TILDE] + d;
    if p == |s| {
      assert s[..p] == s && s[p..] == [];
      assert Candidate(s, n) == head + [];
      assert DOT !in head;
      PointAtEnd(head);
      assert head + [] == head;
    } else {
      assert s[p..] == [DOT] + s[p + 1..];
      assert Candidate(s, n) == head + [DOT] + s[p + 1..];
      PointAtDot(head, s[p + 1..]);
    }
  }

  lemma PointAtEnd(text: Path)
    requires DOT !in text
    ensures SuffixPoint(text) == |text|
  {
    hide SuffixPoint;
    assert forall k | 0 <= k < |text| :: text[k] in text;
  }

  /** A candidate tells which path it was made from, and which number it was given. */
  lemma CandidateDetermines(s: Path, m: nat, t: Path, n: nat)
    requires Candidate(s, m) == Candidate(t, n)
    ensures s == t && m == n
  {
    CandidatePoint(s, m);
    CandidatePoint(t, n);
    var p, q, c := SuffixPoint(s), SuffixPoint(t), Candidate(s, m);
    NumeralIsPlain(Decimal(m));
    NumeralIsPlain(Decimal(n));
    hide SuffixPoint, Decimal;
    assert c[..SuffixPoint(c)] == s[..p] + [TILDE] + Decimal(m);
    assert c[..SuffixPoint(c)] == t[..q] + [TILDE] + Decimal(n);
    LastTilde(s[..p], Decimal(m), t[..q], Decimal(n));
    assert s == s[..p] + s[p..] && t == t[..q] + t[q..];
    DecimalInjective(m, n);
  }

  lemma CandidateHasTilde(s: Path, n: nat)
    ensures SuffixPoint(s) < |Candidate(s, n)| && Candidate(s, n)[SuffixPoint(s)] == TILDE
    ensures TILDE in Candidate(s, n)
  {
    hide SuffixPoint, Decimal;
    var c, p := Candidate(s, n), SuffixPoint(s);
    assert c[p] == TILDE;
  }

  lemma CandidateIs(s: Path, n: nat)
    ensures var p, digits := SuffixPoint(s), Decimal(n);
            && Candidate(s, n) == s[..p] + [TILDE] + digits + s[p..] && |digits| > 0
            && TILDE !in digits && SLASH !in digits && DOT !in digits
            && (p < |s| ==> s[p] == DOT && DOT !in s[p + 1..])
  {
    NumeralIsPlain(Decimal(n));
    hide SuffixPoint, Decimal;
  }

  lemma EarlierSlash(head: Path, middle: Path, tail: Path, q: nat)
    requires q < |head + middle + tail| && (head + middle + tail)[q] == SLASH && SLASH !in middle
    ensures q < |head| ==> head[q] == SLASH && (head + middle + tail)[..q] == head[..q]
    ensures q >= |head| ==> q >= |head| + |middle| && tail[q - |head| - |middle|] == SLASH
    ensures q >= |head| ==> (head + middle + tail)[..q] == head + middle + tail[..q - |head| - |middle|]
  {
    var c := head + middle + tail;
    assert forall k | |head| <= k < |head| + |middle| :: c[k] == middle[k - |head|] && middle[k - |head|] in middle;
  }

  /** Cutting a path after its last dot leaves the dot where it was. */
  lemma CutCandidate(s: Path, n: nat, at: nat)
    requires SuffixPoint(s) < at <= |s|
    ensures var p := SuffixPoint(s);
            && SuffixPoint(s[..at]) == p && DOT in s[..at]
            && Candidate(s[..at], n) == s[..p] + [TILDE] + Decimal(n) + s[p..at]
  {
    CandidateIs(s, n);
    hide SuffixPoint, Decimal, Candidate;
    var p, e := SuffixPoint(s), s[..at];
    assert e[p] == DOT;
    assert s[p + 1..at] == s[p + 1..][..at - p - 1];
    assert e == s[..p] + [DOT] + s[p + 1..at];
    PointAtDot(s[..p], s[p + 1..at]);
    CandidateIs(e, n);
    assert e[..p] == s[..p] && e[p..] == s[p..at];
  }

  /** A directory of a candidate is one of the path, or is itself a candidate of a directory that holds the last dot. */
  lemma CandidateParents(s: Path, n: nat, d: Path)
    requires IsParent(d, Candidate(s, n))
    ensures IsParent(d, s) || exists e :: IsParent(e, s) && SuffixPoint(s) < |e| && DOT in e && d == Candidate(e, n)
  {
    CandidateIs(s, n);
    hide SuffixPoint, Decimal, Candidate;
    var p, q, middle := SuffixPoint(s), |d|, [TILDE] + Decimal(n);
    assert SLASH !in middle;
    assert Candidate(s, n) == s[..p] + middle + s[p..];
    EarlierSlash(s[..p], middle, s[p..], q);
    if q < p {
      assert d == s[..q];
    } else {
      var at := q - |middle|;
      assert s[p..][at - p] == s[at] == SLASH;
      assert at != p;
      CutCandidate(s, n, at);
      assert s[p..][..at - p] == s[p..at];
      assert IsParent(s[..at], s);
    }
  }

  lemma CandidateKeepsEarlier(s: Path, n: nat, d: Path)
    requires IsParent(d, s) && |d| < SuffixPoint(s)
    ensures IsParent(d, Candidate(s, n))
  {
    hide SuffixPoint, Decimal;
    var p := SuffixPoint(s);
    var c := Candidate(s, n);
    assert c == s[..p] + ([TILDE] + Decimal(n) + s[p..]);
    assert c[..|d|] == s[..|d|] && c[|d|] == s[|d|];
  }

  // ---------------------------------------------------------------- names are shapes or candidates

  lemma NameIs(rel: Path, dirs: set<Path>, used: map<Path, nat>)
    ensures var shaped := Shaped(rel, dirs);
            if Lower(shaped) in used then exists n :: FinalName(rel, dirs, used) == Candidate(shaped, n)
            else FinalName(rel, dirs, used) == shaped
  {
    hide Shaped, Candidate, Lower;
    var shaped := Shaped(rel, dirs);
    if Lower(shaped) in used {
      assert FinalName(rel, dirs, used) == Candidate(shaped, FreeSuffix(used.Keys, shaped, used[Lower(shaped)]));
    }
  }

  /** Some path of the list has the shape, in lower case. */
  ghost predicate IsShape(paths: seq<Path>, dirs: set<Path>, low: Path) {
    exists k :: 0 <= k < |paths| && low == Lower(Shaped(paths[k], dirs))
  }

  lemma ShapeMore(paths: seq<Path>, dirs: set<Path>, low: Path)
    requires paths != []
    ensures var n := |paths| - 1;
            IsShape(paths, dirs, low) <==> IsShape(paths[..n], dirs, low) || low == Lower(Shaped(paths[n], dirs))
  {
    hide Shaped, Lower;
    var n := |paths| - 1;
    if k :| 0 <= k < n && low == Lower(Shaped(paths[..n][k], dirs)) {
      assert paths[k] == paths[..n][k];
    }
    if k :| 0 <= k < |paths| && low == Lower(Shaped(paths[k], dirs)) {
      assert k < n ==> paths[..n][k] == paths[k];
    }
  }

  /** The table holds the shapes, and otherwise only candidates, which have a tilde. */
  lemma {:induction false} UsedKeys(paths: seq<Path>, dirs: set<Path>, low: Path)
    ensures IsShape(paths, dirs, low) ==> low in UsedBy(paths, dirs)
    ensures low in UsedBy(paths, dirs) ==> TILDE in low || IsShape(paths, dirs, low)
    decreases |paths|
  {
    if paths != [] {
      hide Shaped, Lower, UsedAfter, IsShape;
      var n := |paths| - 1;
      UsedKeys(paths[..n], dirs, low);
      ShapeMore(paths, dirs, low);
      UsedNext(paths[n], dirs, UsedBy(paths[..n], dirs));
    }
  }

  lemma UsedNext(rel: Path, dirs: set<Path>, used: map<Path, nat>)
    ensures var low, after := Lower(Shaped(rel, dirs)), UsedAfter(rel, dirs, used);
            && low in after && used.Keys <= after.Keys
            && forall x | x in after && x !in used :: x == low || TILDE in x
  {
    var shaped := Shaped(rel, dirs);
    hide Shaped, SuffixPoint, Decimal;
    if Lower(shaped) in used {
      var n := FreeSuffix(used.Keys, shaped, used[Lower(shaped)]);
      CandidateHasTilde(shaped, n);
      LowerKeepsTilde(Candidate(shaped, n));
    }
  }

  lemma LowerKeepsTilde(p: Path)
    ensures TILDE in p <==> TILDE in Lower(p)
  {
    if TILDE in p {
      var k :| 0 <= k < |p| && p[k] == TILDE;
      assert Lower(p)[k] == TILDE;
    }
    if TILDE in Lower(p) {
      var k :| 0 <= k < |Lower(p)| && Lower(p)[k] == TILDE;
      assert p[k] == TILDE;
    }
  }

  // ---------------------------------------------------------------- the shape of a source path

  ghost predicate AllSource(paths: seq<Path>) {
    forall k | 0 <= k < |paths| :: IsSourcePath(paths[k])
  }

  lemma SourceIsPlain(p: Path)
    requires IsSourcePath(p)
    ensures TILDE !in p && 2 <= |p| <= 204
  {
    var k: nat :| k <= 200 && EndsAt(p, k);
    ExtensionIs(p[k + 1..]);
    hide IsExtension;
    forall i | 0 <= i < |p|
      ensures p[i] != TILDE
    {
      if i > k {
        assert p[i] == p[k + 1..][i - k - 1];
        assert IsLetter(p[i]);
      } else if i < k {
        assert IsPathByte(p[i]);
      }
    }
  }

  /** Directories of source paths: no tilde, and short. */
  lemma DirectoryIs(paths: seq<Path>, d: Path)
    requires AllSource(paths) && d in DirSet(paths)
    ensures TILDE !in d && |d| <= 199
  {
    DirSetIs(paths, d);
    hide DirSet;
    var k :| 0 <= k < |paths| && IsParent(d, paths[k]);
    SourceIsPlain(paths[k]);
    SourceParent(paths[k], d);
    assert forall i | 0 <= i < |d| :: d[i] == paths[k][i] && paths[k][i] in paths[k];
  }

  lemma SourceParent(p: Path, d: Path)
    requires IsSourcePath(p) && IsParent(d, p)
    ensures |d| <= 199
  {
    var k: nat :| k <= 200 && EndsAt(p, k);
    NoSlashFrom(p, k);
    hide EndsAt;
  }

  /** A path cut before its last segment, which is guarded alone when the others are short. */
  lemma GuardedLast(p: Path) returns (head: Path, last: Path)
    ensures p == head + last && SLASH !in last && (head != [] ==> head[|head| - 1] == SLASH)
    ensures |head| <= 200 ==> GuardLong(p) == head + GuardSegment(last)
  {
    head, last := LastSegment(p);
    SegmentsHaveNoSlash(p);
    var s := Segments(p);
    hide Segments;
    if |head| <= 200 {
      var n := |s| - 1;
      if n == 0 {
        assert GuardSegments(s) == [GuardSegment(last)];
        assert [] + GuardSegment(last) == GuardSegment(last);
      } else {
        var init := s[..n];
        AllGuarded(init);
        assert s == init + [last];
        assert GuardSegments(s) == init + [GuardSegment(last)];
        JoinSplits(GuardSegments(s));
        assert GuardSegments(s)[..n] == init;
      }
    }
  }

  lemma {:induction false} PartNotLonger(segments: seq<Path>, k: nat)
    requires k < |segments|
    ensures |segments[k]| <= |Join(segments)|
    decreases |segments|
  {
    if k > 0 {
      PartNotLonger(segments[1..], k - 1);
    }
  }

  lemma AllGuarded(segments: seq<Path>)
    requires segments != [] && |Join(segments)| <= 200
    ensures GuardSegments(segments) == segments
  {
    forall k | 0 <= k < |segments|
      ensures GuardSegment(segments[k]) == segments[k]
    {
      PartNotLonger(segments, k);
    }
  }

  // ---------------------------------------------------------------- which names keep their directories

  lemma HeadOfSource(p: Path, head: Path, last: Path)
    requires IsSourcePath(p) && p == head + last && (head != [] ==> head[|head| - 1] == SLASH)
    ensures |head| <= 200 && DOT in last && (|last| > 200 ==> |head| <= 3)
  {
    var k: nat :| k <= 200 && EndsAt(p, k);
    SourceIsPlain(p);
    ExtensionInLast(p, k, head, last);
    hide EndsAt;
  }

  lemma HeadOfNode(p: Path, head: Path, last: Path)
    requires |p| <= 199 && p + NODE_SUFFIX == head + last && (head != [] ==> head[|head| - 1] == SLASH)
    ensures |head| <= 200 && DOT in last && (|last| > 200 ==> |head| <= 3)
  {
    var whole := p + NODE_SUFFIX;
    assert whole[|p|] == DOT;
    assert forall k | |p| <= k < |whole| :: whole[k] == NODE_SUFFIX[k - |p|] && NODE_SUFFIX[k - |p|] != SLASH;
    assert head != [] ==> whole[|head| - 1] == SLASH;
    assert |head| <= |p|;
    assert last[|p| - |head|] == DOT;
  }

  /** The shape of a source path: its head, and its last segment, guarded. */
  lemma ShapeParts(paths: seq<Path>, p: Path) returns (head: Path, last: Path)
    requires AllSource(paths) && IsSourcePath(p)
    ensures var dirs := DirSet(paths);
            && WithNode(p, dirs) == head + last && SLASH !in last && DOT in last
            && Shaped(p, dirs) == head + GuardSegment(last)
            && (|last| > 200 ==> |head| <= 3)
    ensures head != [] ==> head[|head| - 1] == SLASH
  {
    var dirs := DirSet(paths);
    head, last := GuardedLast(WithNode(p, dirs));
    if p in dirs {
      DirectoryIs(paths, p);
      HeadOfNode(p, head, last);
    } else {
      HeadOfSource(p, head, last);
    }
    hide DirSet, GuardLong, GuardSegment;
  }

  lemma TailParents(head: Path, tail: Path, d: Path)
    requires SLASH !in tail && (head != [] ==> head[|head| - 1] == SLASH)
    ensures IsParent(d, head + tail) ==> |d| < |head| && d == head[..|d|] && head[|d|] == SLASH
    ensures |d| < |head| && d == head[..|d|] && head[|d|] == SLASH ==> IsParent(d, head + tail)
  {
    var p := head + tail;
    assert |d| <= |head| ==> p[..|d|] == head[..|d|];
    assert forall k | |head| <= k < |p| :: p[k] == tail[k - |head|] && tail[k - |head|] in tail;
  }

  lemma GuardedTail(last: Path)
    requires SLASH !in last
    ensures SLASH !in GuardSegment(last)
    ensures |last| <= 200 ==> GuardSegment(last) == last
    ensures |last| > 200 ==> |GuardSegment(last)| == 189 && GuardSegment(last)[180] == TILDE
    ensures |last| > 200 ==> GuardSegment(last)[..180] == last[..180]
  {
    GuardKeepsSlash(last);
    if |last| > 200 {
      ShortenedParts(last);
    }
    hide Hash31, Hex8;
  }

  /** Shaping changes only the last segment. */
  lemma ShapeParents(paths: seq<Path>, p: Path, d: Path)
    requires AllSource(paths) && IsSourcePath(p)
    ensures IsParent(d, Shaped(p, DirSet(paths))) <==> IsParent(d, p)
  {
    var head, last := ShapeParts(paths, p);
    GuardedTail(last);
    TailParents(head, GuardSegment(last), d);
    TailParents(head, last, d);
    PlainParent(DirSet(paths), p, d);
    hide DirSet, IsParent, GuardSegment, Shaped, WithNode;
  }

  lemma PointIsLast(rel: Path)
    ensures var p := SuffixPoint(rel); forall j | p < j < |rel| :: rel[j] != DOT
    ensures SuffixPoint(rel) == |rel| ==> DOT !in rel
  {
    hide SuffixPoint;
    var p := SuffixPoint(rel);
    if p < |rel| {
      assert forall j | p < j < |rel| :: rel[j] == rel[p + 1..][j - p - 1];
    }
  }

  lemma DotAfter(head: Path, last: Path)
    requires DOT in last
    ensures |head| <= SuffixPoint(head + last) < |head + last|
  {
    hide SuffixPoint;
    PointIsLast(head + last);
    var k :| 0 <= k < |last| && last[k] == DOT;
    assert (head + last)[|head| + k] == DOT;
  }

  /** When the suffix goes into a directory, that directory has at most two bytes. */
  lemma SuffixInDirectory(paths: seq<Path>, p: Path, e: Path)
    requires AllSource(paths) && IsSourcePath(p)
    requires IsParent(e, Shaped(p, DirSet(paths))) && SuffixPoint(Shaped(p, DirSet(paths))) <= |e|
    ensures |e| <= 2
  {
    var head, last := ShapeParts(paths, p);
    GuardedTail(last);
    TailParents(head, GuardSegment(last), e);
    if |last| <= 200 {
      DotAfter(head, last);
    }
    hide DirSet, IsParent, GuardSegment, Shaped, WithNode, SuffixPoint;
  }

  lemma WantedIsPlain(paths: seq<Path>, p: Path)
    requires AllSource(paths) && IsSourcePath(p)
    ensures TILDE !in WithNode(p, DirSet(paths)) && |WithNode(p, DirSet(paths))| >= 2
  {
    SourceIsPlain(p);
    hide DirSet;
  }

  /** A shape is the path wanted, unless it was shortened; then its tilde comes after 180 bytes. */
  lemma ShapeIsPlain(paths: seq<Path>, p: Path)
    requires AllSource(paths) && IsSourcePath(p)
    ensures var shaped, wanted := Shaped(p, DirSet(paths)), WithNode(p, DirSet(paths));
            if TILDE in shaped then |shaped| > 180 && forall k | 0 <= k < 180 :: shaped[k] != TILDE
            else shaped == wanted
  {
    WantedIsPlain(paths, p);
    var head, last := ShapeParts(paths, p);
    GuardedTail(last);
    hide DirSet, GuardSegment, Shaped, WithNode;
    if |last| > 200 {
      var shaped := head + GuardSegment(last);
      assert shaped[|head| + 180] == TILDE;
      forall k | 0 <= k < 180
        ensures shaped[k] != TILDE
      {
        assert k >= |head| ==> shaped[k] == GuardSegment(last)[..180][k - |head|] == last[k - |head|];
        assert (head + last)[k] in head + last;
      }
    }
  }

  /** The place of a tilde in a candidate of a short directory is early. */
  lemma EarlyTilde(e: Path, n: nat)
    requires |e| <= 2
    ensures exists k :: 0 <= k <= 2 && k < |Candidate(e, n)| && Candidate(e, n)[k] == TILDE
  {
    CandidateHasTilde(e, n);
    hide SuffixPoint, Candidate;
    assert Candidate(e, n)[SuffixPoint(e)] == TILDE;
  }

  // ---------------------------------------------------------------- the theorem

  lemma {:induction false} NameAt(paths: seq<Path>, dirs: set<Path>, k: nat)
    requires k < |paths|
    ensures NamesOf(paths, dirs)[k] == FinalName(paths[k], dirs, UsedBy(paths[..k], dirs))
    decreases |paths|
  {
    hide FinalName, UsedBy;
    var n := |paths| - 1;
    if k < n {
      NameAt(paths[..n], dirs, k);
      assert paths[..n][..k] == paths[..k];
    }
  }

  /** No path before `i` wants the same name, even without regard to case. */
  ghost predicate IsFirst(paths: seq<Path>, i: nat)
    requires i < |paths|
  {
    forall j | 0 <= j < i :: Lower(WithNode(paths[j], DirSet(paths))) != Lower(WithNode(paths[i], DirSet(paths)))
  }

  /** The path is a directory, its `.node` is a directory too, and it is the first to want that name. */
  ghost predicate TakesDirectory(paths: seq<Path>, i: nat)
    requires i < |paths|
  {
    paths[i] in DirSet(paths) && paths[i] + NODE_SUFFIX in DirSet(paths) && IsFirst(paths, i)
  }

  /** Shapes without a tilde collide exactly when the wanted names do. */
  lemma SameWanted(paths: seq<Path>, i: nat, j: nat)
    requires AllSource(paths) && i < |paths| && j < |paths| && TILDE !in Shaped(paths[i], DirSet(paths))
    ensures Lower(Shaped(paths[j], DirSet(paths))) == Lower(Shaped(paths[i], DirSet(paths)))
            <==> Lower(WithNode(paths[j], DirSet(paths))) == Lower(WithNode(paths[i], DirSet(paths)))
  {
    ShapeIsPlain(paths, paths[i]);
    ShapeIsPlain(paths, paths[j]);
    LowerKeepsTilde(Shaped(paths[i], DirSet(paths)));
    LowerKeepsTilde(Shaped(paths[j], DirSet(paths)));
    if Lower(WithNode(paths[j], DirSet(paths))) == Lower(WithNode(paths[i], DirSet(paths))) {
      SameLastLength(paths, i, j);
    }
    hide DirSet, Shaped, WithNode, Lower;
  }

  /** Names equal but for case have last segments of the same length, so both are shortened or neither is. */
  lemma SameLastLength(paths: seq<Path>, i: nat, j: nat)
    requires AllSource(paths) && i < |paths| && j < |paths|
    requires Lower(WithNode(paths[j], DirSet(paths))) == Lower(WithNode(paths[i], DirSet(paths)))
    requires TILDE !in Shaped(paths[i], DirSet(paths))
    ensures TILDE !in Shaped(paths[j], DirSet(paths))
  {
    WantedIsPlain(paths, paths[j]);
    var headI, lastI := ShapeParts(paths, paths[i]);
    var headJ, lastJ := ShapeParts(paths, paths[j]);
    GuardedTail(lastI);
    GuardedTail(lastJ);
    hide DirSet, GuardSegment, Shaped, WithNode;
    TildeWhenLong(headI, lastI);
    SameCut(headI, lastI, headJ, lastJ);
  }

  lemma TildeWhenLong(head: Path, last: Path)
    requires SLASH !in last
    ensures |last| > 200 ==> TILDE in head + GuardSegment(last)
  {
    GuardedTail(last);
    hide GuardSegment;
    if |last| > 200 {
      assert (head + GuardSegment(last))[|head| + 180] == TILDE;
    }
  }

  lemma SameCut(headI: Path, lastI: Path, headJ: Path, lastJ: Path)
    requires Lower(headI + lastI) == Lower(headJ + lastJ) && SLASH !in lastI && SLASH !in lastJ
    requires (headI != [] ==> headI[|headI| - 1] == SLASH) && (headJ != [] ==> headJ[|headJ| - 1] == SLASH)
    ensures |lastI| == |lastJ|
  {
    SlashesStay(headI + lastI, headJ + lastJ);
    LastSlash(headI, lastI);
    LastSlash(headJ, lastJ);
  }

  lemma LastSlash(head: Path, last: Path)
    requires SLASH !in last && (head != [] ==> head[|head| - 1] == SLASH)
    ensures head != [] ==> (head + last)[|head| - 1] == SLASH
    ensures forall k | |head| <= k < |head + last| :: (head + last)[k] != SLASH
  {
    assert forall k | |head| <= k < |head + last| :: (head + last)[k] == last[k - |head|] && last[k - |head|] in last;
  }

  lemma SlashesStay(p: Path, q: Path)
    requires Lower(p) == Lower(q)
    ensures |p| == |q| && forall k | 0 <= k < |p| :: p[k] == SLASH <==> q[k] == SLASH
  {
    forall k | 0 <= k < |p|
      ensures p[k] == SLASH <==> q[k] == SLASH
    {
      assert Lower(p)[k] == Lower(q)[k];
    }
  }

  /** A name that has no tilde is the wanted name, and the first to be wanted. */
  lemma PlainName(paths: seq<Path>, i: nat)
    requires AllSource(paths) && i < |paths|
    ensures var name := NamesOf(paths, DirSet(paths))[i];
            && (TILDE !in name ==> name == WithNode(paths[i], DirSet(paths)) && IsFirst(paths, i))
            && (IsFirst(paths, i) && TILDE !in Shaped(paths[i], DirSet(paths)) ==>
                  name == WithNode(paths[i], DirSet(paths)))
  {
    var dirs := DirSet(paths);
    var shaped, used := Shaped(paths[i], dirs), UsedBy(paths[..i], dirs);
    NameAt(paths, dirs, i);
    NameIs(paths[i], dirs, used);
    ShapeIsPlain(paths, paths[i]);
    UsedKeys(paths[..i], dirs, Lower(shaped));
    LowerKeepsTilde(shaped);
    FirstShape(paths, i);
    hide DirSet, Shaped, WithNode, Lower, NamesOf, FinalName, UsedBy, IsShape, IsFirst, Candidate;
    if Lower(shaped) in used {
      var n :| FinalName(paths[i], dirs, used) == Candidate(shaped, n);
      CandidateHasTilde(shaped, n);
    }
  }

  lemma FirstShape(paths: seq<Path>, i: nat)
    requires AllSource(paths) && i < |paths|
    ensures TILDE !in Shaped(paths[i], DirSet(paths)) ==>
              (IsShape(paths[..i], DirSet(paths), Lower(Shaped(paths[i], DirSet(paths)))) <==> !IsFirst(paths, i))
  {
    hide DirSet, Shaped, WithNode, Lower;
    if TILDE !in Shaped(paths[i], DirSet(paths)) {
      forall j | 0 <= j < i
        ensures paths[..i][j] == paths[j]
        ensures Lower(Shaped(paths[j], DirSet(paths))) == Lower(Shaped(paths[i], DirSet(paths)))
                <==> Lower(WithNode(paths[j], DirSet(paths))) == Lower(WithNode(paths[i], DirSet(paths)))
      {
        SameWanted(paths, i, j);
      }
    }
  }

  /** A name that is a directory of the paths is that of a path that takes a directory. */
  lemma NameInDirectories(paths: seq<Path>, i: nat)
    requires AllSource(paths) && i < |paths|
    ensures NamesOf(paths, DirSet(paths))[i] in DirSet(paths) <==> TakesDirectory(paths, i)
  {
    var dirs := DirSet(paths);
    hide DirSet, NamesOf, IsFirst, Shaped;
    var name := NamesOf(paths, dirs)[i];
    PlainName(paths, i);
    if name in dirs {
      DirectoryIs(paths, name);
      NodeIsDirectory(paths, paths[i]);
    }
    if TakesDirectory(paths, i) {
      TakenIsShort(paths, i);
      NodeIsDirectory(paths, paths[i]);
    }
  }

  lemma TakenIsShort(paths: seq<Path>, i: nat)
    requires AllSource(paths) && i < |paths| && TakesDirectory(paths, i)
    ensures TILDE !in Shaped(paths[i], DirSet(paths)) && IsFirst(paths, i)
    ensures WithNode(paths[i], DirSet(paths)) == paths[i] + NODE_SUFFIX
  {
    hide DirSet, IsFirst, Shaped;
    DirectoryIs(paths, paths[i] + NODE_SUFFIX);
    ShortShape(paths, paths[i]);
  }

  lemma ShortShape(paths: seq<Path>, p: Path)
    requires AllSource(paths) && IsSourcePath(p) && |WithNode(p, DirSet(paths))| <= 200
    ensures TILDE !in Shaped(p, DirSet(paths))
  {
    WantedIsPlain(paths, p);
    var head, last := ShapeParts(paths, p);
    GuardedTail(last);
    hide DirSet, GuardSegment, Shaped, WithNode;
  }

  /** A directory of a final name is one of its path, or a candidate of one of at most two bytes that has a dot. */
  lemma DirectoryOfName(paths: seq<Path>, j: nat, d: Path)
    requires AllSource(paths) && j < |paths| && IsParent(d, NamesOf(paths, DirSet(paths))[j])
    ensures IsParent(d, paths[j])
            || exists e, n :: e in DirSet(paths) && |e| <= 2 && d == Candidate(e, n)
  {
    var dirs := DirSet(paths);
    var shaped, used := Shaped(paths[j], dirs), UsedBy(paths[..j], dirs);
    NameAt(paths, dirs, j);
    NameIs(paths[j], dirs, used);
    ShapeParents(paths, paths[j], d);
    hide DirSet, Shaped, Lower, NamesOf, FinalName, UsedBy, Candidate, IsParent, SuffixPoint;
    if Lower(shaped) in used {
      var n :| FinalName(paths[j], dirs, used) == Candidate(shaped, n);
      CandidateParents(shaped, n, d);
      if !IsParent(d, shaped) {
        var e :| IsParent(e, shaped) && SuffixPoint(shaped) < |e| && DOT in e && d == Candidate(e, n);
        SuffixInDirectory(paths, paths[j], e);
        ShapeParents(paths, paths[j], e);
        DirSetIs(paths, e);
      }
    }
  }

  lemma LongDirectoryStays(paths: seq<Path>, j: nat, d: Path)
    requires AllSource(paths) && j < |paths| && IsParent(d, paths[j]) && |d| > 2
    ensures IsParent(d, NamesOf(paths, DirSet(paths))[j])
  {
    var dirs := DirSet(paths);
    var shaped, used := Shaped(paths[j], dirs), UsedBy(paths[..j], dirs);
    NameAt(paths, dirs, j);
    NameIs(paths[j], dirs, used);
    ShapeParents(paths, paths[j], d);
    if SuffixPoint(shaped) <= |d| {
      SuffixInDirectory(paths, paths[j], d);
    }
    hide DirSet, Shaped, Lower, NamesOf, FinalName, UsedBy, Candidate, IsParent, SuffixPoint;
    if Lower(shaped) in used {
      var n :| FinalName(paths[j], dirs, used) == Candidate(shaped, n);
      CandidateKeepsEarlier(shaped, n, d);
    }
  }

  /** No final name is a candidate of a directory of at most two bytes. */
  lemma NotOfDirectory(paths: seq<Path>, i: nat, e: Path, n: nat)
    requires AllSource(paths) && i < |paths| && e in DirSet(paths) && |e| <= 2
    ensures NamesOf(paths, DirSet(paths))[i] != Candidate(e, n)
  {
    var dirs := DirSet(paths);
    var shaped, used := Shaped(paths[i], dirs), UsedBy(paths[..i], dirs);
    NameAt(paths, dirs, i);
    NameIs(paths[i], dirs, used);
    ShapeIsPlain(paths, paths[i]);
    ShapeNotDirectory(paths, i, e);
    EarlyTilde(e, n);
    hide DirSet, Shaped, Lower, NamesOf, FinalName, UsedBy, Candidate, WithNode, SuffixPoint;
    if Lower(shaped) in used {
      var m :| FinalName(paths[i], dirs, used) == Candidate(shaped, m);
      if Candidate(shaped, m) == Candidate(e, n) {
        CandidateDetermines(shaped, m, e, n);
      }
    }
  }

  lemma ShapeNotDirectory(paths: seq<Path>, i: nat, e: Path)
    requires AllSource(paths) && i < |paths| && e in DirSet(paths) && |e| <= 2
    ensures Shaped(paths[i], DirSet(paths)) != e
  {
    DirectoryIs(paths, e);
    ShapeIsPlain(paths, paths[i]);
    SourceIsPlain(paths[i]);
    hide DirSet, Shaped;
  }

  /**
   * For source paths, a file of the tree is named like a directory of the tree exactly when some path is a directory,
   * its `.node` is a directory too, and no earlier path wants the same name.
   */
  lemma SourceClashExactly(paths: seq<Path>)
    requires AllSource(paths)
    ensures Clash(NamesOf(paths, DirSet(paths))) <==> exists i: nat :: i < |paths| && TakesDirectory(paths, i)
  {
    var dirs := DirSet(paths);
    var names := NamesOf(paths, dirs);
    hide DirSet, NamesOf, IsParent, TakesDirectory, Candidate;
    if i: nat, j: nat :| i < |names| && j < |names| && IsParent(names[i], names[j]) {
      DirectoryOfName(paths, j, names[i]);
      if e, n :| e in dirs && |e| <= 2 && names[i] == Candidate(e, n) {
        NotOfDirectory(paths, i, e, n);
      }
      DirSetIs(paths, names[i]);
      NameInDirectories(paths, i);
    }
    if i: nat :| i < |paths| && TakesDirectory(paths, i) {
      NameInDirectories(paths, i);
      LongTaken(paths, i);
      DirSetIs(paths, names[i]);
      var j :| 0 <= j < |paths| && IsParent(names[i], paths[j]);
      LongDirectoryStays(paths, j, names[i]);
    }
  }

  lemma LongTaken(paths: seq<Path>, i: nat)
    requires AllSource(paths) && i < |paths| && TakesDirectory(paths, i)
    ensures |NamesOf(paths, DirSet(paths))[i]| > 2
  {
    TakenIsShort(paths, i);
    hide DirSet, NamesOf, IsFirst, Shaped, TakesDirectory;
    PlainName(paths, i);
  }
}
