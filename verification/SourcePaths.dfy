/**
 * Which paths reach the source tree: texts of a fixed form, with their separators normalized and their empty and
 * relative segments removed.
 */
module SourcePaths {
  import opened Words
  import opened Text
  import opened TreeNaming

  const BACKSLASH: byte := 92

  predicate IsLetter(b: byte) {
    65 <= b <= 90 || 97 <= b <= 122
  }

  /** Letters, digits, `_`, `.`, `/`, a backslash, `+` and `-`. */
  predicate IsPathByte(b: byte) {
    IsLetter(b) || 48 <= b <= 57 || b == 95 || b == DOT || b == SLASH || b == BACKSLASH || b == 43 || b == 45
  }

  /** c, cc, cpp, cxx, h, hh, hpp, inc, inl, ipp, asm, s. */
  const EXTENSIONS: set<Path> :=
    {[99], [99, 99], [99, 112, 112], [99, 120, 120], [104], [104, 104], [104, 112, 112], [105, 110, 99],
     [105, 110, 108], [105, 112, 112], [97, 115, 109], [115]}

  predicate IsExtension(e: Path) {
    Lower(e) in EXTENSIONS
  }

  /** Path bytes, then a dot at `k` and an extension. */
  predicate EndsAt(text: Path, k: nat) {
    && k < |text| && text[k] == DOT && IsExtension(text[k + 1..])
    && forall i | 0 <= i < k :: IsPathByte(text[i])
  }

  /** The text of a source path: 3 to 200 path bytes before the dot of the extension. */
  ghost predicate IsSourceText(text: Path) {
    exists k :: 3 <= k <= 200 && EndsAt(text, k)
  }

  /** What is left of one when it has been normalized: at most 200 path bytes before the dot. */
  ghost predicate IsSourcePath(path: Path) {
    exists k: nat :: k <= 200 && EndsAt(path, k)
  }

  lemma ExtensionIs(e: Path)
    requires IsExtension(e)
    ensures 1 <= |e| <= 3 && forall k | 0 <= k < |e| :: IsLetter(e[k])
  {
    var low := Lower(e);
    assert 1 <= |low| <= 3;
    forall k | 0 <= k < |e|
      ensures IsLetter(e[k])
    {
      assert 97 <= low[k] <= 122;
    }
  }

  // ---------------------------------------------------------------- segments

  ghost predicate NoSlashes(segments: seq<Path>) {
    forall k | 0 <= k < |segments| :: SLASH !in segments[k]
  }

  lemma {:induction false} SegmentsHaveNoSlash(p: Path)
    ensures NoSlashes(Segments(p))
  {
    if p != [] {
      SegmentsHaveNoSlash(p[1..]);
    }
  }

  lemma {:induction false} SegmentsOfText(s: Path, rest: Path)
    requires SLASH !in s
    ensures Segments(s + [SLASH] + rest) == [s] + Segments(rest)
    decreases |s|
  {
    var p := s + [SLASH] + rest;
    if s == [] {
      assert p[1..] == rest;
    } else {
      assert p[1..] == s[1..] + [SLASH] + rest;
      SegmentsOfText(s[1..], rest);
      var inner := Segments(p[1..]);
      assert inner[0] == s[1..] && inner[1..] == Segments(rest);
      assert [p[0]] + s[1..] == s;
    }
  }

  lemma {:induction false} SegmentsOfLast(s: Path)
    requires SLASH !in s
    ensures Segments(s) == [s]
    decreases |s|
  {
    if s != [] {
      SegmentsOfLast(s[1..]);
      assert [s[0]] + s[1..] == s;
    }
  }

  /** Splitting undoes joining. */
  lemma {:induction false} SegmentsJoin(segments: seq<Path>)
    requires segments != [] && NoSlashes(segments)
    ensures Segments(Join(segments)) == segments
    decreases |segments|
  {
    if |segments| == 1 {
      SegmentsOfLast(segments[0]);
    } else {
      SegmentsJoin(segments[1..]);
      SegmentsOfText(segments[0], Join(segments[1..]));
      assert segments == [segments[0]] + segments[1..];
    }
  }

  // ---------------------------------------------------------------- normalizing

  function Slashes(text: Path): (path: Path)
    ensures |path| == |text|
    ensures forall k | 0 <= k < |text| :: path[k] == if text[k] == BACKSLASH then SLASH else text[k]
  {
    seq(|text|, k requires 0 <= k < |text| => if text[k] == BACKSLASH then SLASH else text[k])
  }

  predicate IsKept(segment: Path) {
    segment != [] && segment != [DOT] && segment != [DOT, DOT]
  }

  function KeptSegments(segments: seq<Path>): seq<Path> {
    if segments == [] then []
    else (if IsKept(segments[0]) then [segments[0]] else []) + KeptSegments(segments[1..])
  }

  function Joined(segments: seq<Path>): Path {
    if segments == [] then [] else Join(segments)
  }

  /** The segments that are neither empty nor relative, joined again. */
  function Normalize(text: Path): Path {
    Joined(KeptSegments(Segments(Slashes(text))))
  }

  lemma DroppedFirst(segment: Path, rest: Path)
    requires SLASH !in segment && !IsKept(segment)
    ensures KeptSegments(Segments(segment + [SLASH] + rest)) == KeptSegments(Segments(rest))
  {
    SegmentsOfText(segment, rest);
    hide Segments;
    assert ([segment] + Segments(rest))[1..] == Segments(rest);
  }

  predicate StartsWith(text: Path, prefix: Path) {
    |prefix| <= |text| && text[..|prefix|] == prefix
  }

  /** Strips relative prefixes first; they are segments that would be dropped in any case. */
  method NormalizePath(text: Path) returns (path: Path)
    ensures path == Normalize(text)
  {
    hide Segments, KeptSegments, Join;
    path := Slashes(text);
    while true
      invariant KeptSegments(Segments(path)) == KeptSegments(Segments(Slashes(text)))
      decreases |path|
    {
      if StartsWith(path, [DOT, DOT, SLASH]) {
        assert path == [DOT, DOT] + [SLASH] + path[3..];
        DroppedFirst([DOT, DOT], path[3..]);
        path := path[3..];
      } else if StartsWith(path, [DOT, SLASH]) {
        assert path == [DOT] + [SLASH] + path[2..];
        DroppedFirst([DOT], path[2..]);
        path := path[2..];
      } else if StartsWith(path, [SLASH]) {
        assert path == [] + [SLASH] + path[1..];
        DroppedFirst([], path[1..]);
        path := path[1..];
      } else {
        break;
      }
    }
    path := Joined(KeptSegments(Segments(path)));
  }

  // ---------------------------------------------------------------- what normalizing keeps

  ghost predicate AllPathBytes(text: Path) {
    forall k | 0 <= k < |text| :: IsPathByte(text[k])
  }

  lemma {:induction false} JoinSplits(segments: seq<Path>)
    requires |segments| > 1
    ensures Join(segments) == Join(segments[..|segments| - 1]) + [SLASH] + segments[|segments| - 1]
    decreases |segments|
  {
    var n := |segments| - 1;
    if n == 1 {
      assert segments[1..] == [segments[1]] && segments[..1] == [segments[0]];
    } else {
      var rest := segments[1..];
      JoinSplits(rest);
      assert rest[..|rest| - 1] == segments[..n][1..];
    }
  }

  lemma {:induction false} KeptConcat(a: seq<Path>, b: seq<Path>)
    ensures KeptSegments(a + b) == KeptSegments(a) + KeptSegments(b)
    decreases |a|
  {
    if a == [] {
      assert a + b == b;
    } else {
      KeptConcat(a[1..], b);
      assert (a + b)[1..] == a[1..] + b;
    }
  }

  lemma {:induction false} KeptBytes(segments: seq<Path>)
    requires forall k | 0 <= k < |segments| :: AllPathBytes(segments[k])
    ensures AllPathBytes(Joined(KeptSegments(segments)))
    decreases |segments|
  {
    if segments != [] {
      KeptBytes(segments[1..]);
      hide IsPathByte;
      assert IsPathByte(SLASH) by { SlashIsPathByte(); }
      JoinedPrepend(segments[0], KeptSegments(segments[1..]));
    }
  }

  lemma JoinedPrepend(first: Path, kept: seq<Path>)
    ensures Joined([first] + kept) == if kept == [] then first else first + [SLASH] + Joined(kept)
    ensures [] + kept == kept
  {
    if kept == [] {
      assert [first] + kept == [first];
    } else {
      assert ([first] + kept)[1..] == kept;
    }
  }

  lemma SlashIsPathByte()
    ensures IsPathByte(SLASH)
  {
  }

  lemma {:induction false} SegmentBytes(text: Path)
    requires AllPathBytes(text)
    ensures forall k | 0 <= k < |Segments(text)| :: AllPathBytes(Segments(text)[k])
    decreases |text|
  {
    hide IsPathByte;
    if text != [] {
      SegmentBytes(text[1..]);
    }
  }

  lemma {:induction false} KeptNotLonger(segments: seq<Path>)
    requires segments != []
    ensures |Joined(KeptSegments(segments))| <= |Join(segments)|
    decreases |segments|
  {
    if |segments| > 1 {
      KeptNotLonger(segments[1..]);
      JoinedPrepend(segments[0], KeptSegments(segments[1..]));
    } else {
      assert segments[1..] == [];
      JoinedPrepend(segments[0], []);
    }
  }

  /** The last segment begins after the last slash. */
  lemma LastSegment(text: Path) returns (head: Path, last: Path)
    ensures text == head + last && SLASH !in last && (head != [] ==> head[|head| - 1] == SLASH)
    ensures var s := Segments(text); last == s[|s| - 1]
    ensures var s := Segments(text); head == [] ==> s == [last]
    ensures var s := Segments(text); head != [] ==> |s| > 1 && head == Join(s[..|s| - 1]) + [SLASH]
  {
    SegmentsHaveNoSlash(text);
    JoinSegments(text);
    var s := Segments(text);
    hide Segments;
    last := s[|s| - 1];
    if |s| == 1 {
      head := [];
      assert s == [last];
    } else {
      JoinSplits(s);
      head := Join(s[..|s| - 1]) + [SLASH];
    }
  }

  lemma NoSlashFrom(text: Path, k: nat)
    requires EndsAt(text, k)
    ensures k < |text| && text[k] == DOT && forall i | k <= i < |text| :: text[i] != SLASH
  {
    ExtensionIs(text[k + 1..]);
    hide IsExtension, IsPathByte;
    forall i | k < i < |text|
      ensures text[i] != SLASH
    {
      assert text[i] == text[k + 1..][i - k - 1];
      assert IsLetter(text[i]);
    }
  }

  lemma TailOfLast(head: Path, last: Path, k: nat)
    requires |head| <= k < |head + last|
    ensures last[k - |head|] == (head + last)[k] && last[k - |head| + 1..] == (head + last)[k + 1..]
  {
  }

  /** The extension, with its dot, is in the last segment. */
  lemma ExtensionInLast(text: Path, k: nat, head: Path, last: Path)
    requires EndsAt(text, k) && text == head + last && (head != [] ==> head[|head| - 1] == SLASH)
    ensures |head| <= k < |text| && last[k - |head|] == DOT && last[k - |head| + 1..] == text[k + 1..]
  {
    NoSlashFrom(text, k);
    hide EndsAt;
    assert head != [] ==> text[|head| - 1] == SLASH;
    TailOfLast(head, last, k);
  }

  lemma SourceBytes(text: Path, k: nat)
    requires EndsAt(text, k)
    ensures AllPathBytes(text) && AllPathBytes(Slashes(text)) && EndsAt(Slashes(text), k)
  {
    ExtensionIs(text[k + 1..]);
    forall i | k < i < |text|
      ensures IsLetter(text[i])
    {
      assert text[i] == text[k + 1..][i - k - 1];
    }
    assert Slashes(text)[k + 1..] == text[k + 1..];
    hide IsExtension;
  }

  lemma LastIsKept(path: Path, k: nat, head: Path, last: Path)
    requires EndsAt(path, k) && path == head + last && |head| <= k
    ensures IsKept(last)
  {
    ExtensionIs(path[k + 1..]);
    hide IsExtension, IsPathByte;
    assert last[|last| - 1] == path[k + 1..][|path| - k - 2];
    assert IsLetter(last[|last| - 1]);
  }

  lemma OneKept(segment: Path)
    requires IsKept(segment)
    ensures KeptSegments([segment]) == [segment]
  {
  }

  lemma LastKept(segments: seq<Path>)
    requires segments != [] && IsKept(segments[|segments| - 1])
    ensures var kept := KeptSegments(segments); kept != [] && kept[|kept| - 1] == segments[|segments| - 1]
  {
    var n := |segments| - 1;
    var last := segments[n];
    KeptConcat(segments[..n], [last]);
    assert segments == segments[..n] + [last];
    OneKept(last);
  }

  /** What is normalized still ends with the last segment, and gets no longer. */
  lemma NormalizedParts(path: Path, last: Path)
    requires IsKept(last) && last == Segments(path)[|Segments(path)| - 1]
    ensures var kept := KeptSegments(Segments(path));
            kept != [] && kept[|kept| - 1] == last && |Join(kept)| <= |path|
  {
    JoinSegments(path);
    hide Segments, Join, KeptSegments, IsKept;
    KeptNotLonger(Segments(path));
    LastKept(Segments(path));
  }

  lemma JoinedFront(kept: seq<Path>, last: Path) returns (front: Path)
    requires kept != [] && kept[|kept| - 1] == last
    ensures Join(kept) == front + last
  {
    if |kept| > 1 {
      JoinSplits(kept);
      front := Join(kept[..|kept| - 1]) + [SLASH];
    } else {
      front := [];
      assert front + last == last;
    }
  }

  /** A text keeps its extension and gets no longer. */
  lemma NormalizedIsSource(text: Path)
    requires IsSourceText(text)
    ensures IsSourcePath(Normalize(text))
  {
    var k: nat :| 3 <= k <= 200 && EndsAt(text, k);
    hide *;
    SourceBytes(text, k);
    var path := Slashes(text);
    SegmentBytes(path);
    KeptBytes(Segments(path));
    var head, last := LastSegment(path);
    ExtensionInLast(path, k, head, last);
    LastIsKept(path, k, head, last);
    NormalizedParts(path, last);
    var kept := KeptSegments(Segments(path));
    NormalizeIs(text, kept);
    var front := JoinedFront(kept, last);
    SameEnd(path, k, head, last, front, Join(kept));
  }

  lemma NormalizeIs(text: Path, kept: seq<Path>)
    requires kept == KeptSegments(Segments(Slashes(text))) && kept != []
    ensures Normalize(text) == Join(kept) && Joined(kept) == Join(kept)
  {
    hide KeptSegments, Segments, Join;
  }

  lemma SameEnd(path: Path, k: nat, head: Path, last: Path, front: Path, result: Path)
    requires EndsAt(path, k) && k <= 200 && path == head + last && |head| <= k
    requires result == front + last && |result| <= |path| && AllPathBytes(result)
    ensures IsSourcePath(result)
  {
    var j: nat := |front| + (k - |head|);
    hide IsExtension, IsPathByte;
    assert result[j] == last[k - |head|] == path[k];
    assert result[j + 1..] == last[k - |head| + 1..] == path[k + 1..];
    assert EndsAt(result, j);
  }
}
