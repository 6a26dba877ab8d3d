/**
 * The address-indexed listing. A slice is borrowed from the text whenever that is the joined lines; what
 * is returned is the joined lines in every case.
 */
module DisasmIndex {
  import opened Words

  const LF: byte := 10
  const CR: byte := 13

  /** How the address at the start of a line is read. */
  type LineAddress = seq<byte> -> Option<u64>

  /** An address line: its text without the terminator, and its bytes in the file. */
  datatype Line = Line(address: u64, text: seq<byte>, start: nat, end: nat)

  // ---------------------------------------------------------------- lines

  /** `split_inclusive('\n')`: the position after the first line feed, or the end. */
  function ChunkEnd(src: seq<byte>, from: nat): (end: nat)
    requires from <= |src|
    ensures from <= end <= |src| && (from < |src| ==> from < end)
    ensures LF !in src[from..if from < end then end - 1 else end]
    ensures from < end < |src| ==> src[end - 1] == LF
    decreases |src| - from
  {
    if from == |src| then from
    else if src[from] == LF then from + 1
    else
      var end := ChunkEnd(src, from + 1);
      assert src[from..if from < end then end - 1 else end]
          == [src[from]] + src[from + 1..if from + 1 < end then end - 1 else end] || end == from + 1;
      end
  }

  /** A chunk without its line feed, and without a carriage return before it. */
  function Stripped(chunk: seq<byte>): seq<byte> {
    var line := if chunk != [] && chunk[|chunk| - 1] == LF then chunk[..|chunk| - 1] else chunk;
    if line != [] && line[|line| - 1] == CR then line[..|line| - 1] else line
  }

  /** The address lines from a position on. */
  function LinesFrom(src: seq<byte>, address: LineAddress, from: nat): seq<Line>
    requires from <= |src|
    decreases |src| - from
  {
    if from == |src| then []
    else
      var end := ChunkEnd(src, from);
      var line := Stripped(src[from..end]);
      var rest := LinesFrom(src, address, end);
      if address(line).Some? then [Line(address(line).value, line, from, end)] + rest else rest
  }

  /** The line is where it says: one chunk of the text, stripped. */
  ghost predicate LineOk(src: seq<byte>, line: Line) {
    line.start < line.end <= |src| && line.text == Stripped(src[line.start..line.end])
    && LF !in src[line.start..line.end - 1] && (line.end < |src| ==> src[line.end - 1] == LF)
  }

  /** Lines are where they say, in order, from a position on. */
  ghost predicate LinesOk(src: seq<byte>, lines: seq<Line>, from: nat) {
    && (forall k | 0 <= k < |lines| :: LineOk(src, lines[k]) && from <= lines[k].start)
    && (forall i, j | 0 <= i < j < |lines| :: lines[i].end <= lines[j].start)
  }

  lemma PrependLine(src: seq<byte>, line: Line, rest: seq<Line>, from: nat)
    requires LineOk(src, line) && line.start == from && LinesOk(src, rest, line.end)
    ensures LinesOk(src, [line] + rest, from)
  {
    hide LineOk;
    LineShape(src, line);
    var all := [line] + rest;
    forall k | 0 <= k < |all|
      ensures LineOk(src, all[k]) && from <= all[k].start
    {
      if k > 0 {
        assert all[k] == rest[k - 1];
      }
    }
    forall i, j | 0 <= i < j < |all|
      ensures all[i].end <= all[j].start
    {
      assert all[j] == rest[j - 1];
      if i > 0 {
        assert all[i] == rest[i - 1];
      }
    }
  }

  lemma LineShape(src: seq<byte>, line: Line)
    requires LineOk(src, line)
    ensures line.start < line.end <= |src|
  {
  }

  lemma LaterLines(src: seq<byte>, lines: seq<Line>, from: nat, earlier: nat)
    requires LinesOk(src, lines, from) && earlier <= from
    ensures LinesOk(src, lines, earlier)
  {
    hide LineOk;
  }

  lemma {:induction false} LinesFromOk(src: seq<byte>, address: LineAddress, from: nat)
    requires from <= |src|
    ensures LinesOk(src, LinesFrom(src, address, from), from)
    decreases |src| - from
  {
    hide Stripped, LineOk, LinesOk;
    if from == |src| {
      NoLines(src, from);
    } else {
      var end := ChunkEnd(src, from);
      LinesFromOk(src, address, end);
      var line := Stripped(src[from..end]);
      var rest := LinesFrom(src, address, end);
      if address(line).Some? {
        ChunkIsLine(src, from, address(line).value);
        PrependLine(src, Line(address(line).value, line, from, end), rest, from);
      } else {
        LaterLines(src, rest, end, from);
      }
    }
  }

  lemma NoLines(src: seq<byte>, from: nat)
    ensures LinesOk(src, [], from)
  {
  }

  lemma ChunkIsLine(src: seq<byte>, from: nat, address: u64)
    requires from < |src|
    ensures var end := ChunkEnd(src, from); LineOk(src, Line(address, Stripped(src[from..end]), from, end))
  {
    hide Stripped;
  }

  // ---------------------------------------------------------------- slices

  /** The lines, each ended by one line feed. */
  function Joined(lines: seq<Line>): seq<byte> {
    if lines == [] then [] else Joined(lines[..|lines| - 1]) + lines[|lines| - 1].text + [LF]
  }

  /** How many leading lines from `at` on are below `end`. */
  function Taken(lines: seq<Line>, at: nat, end: u64): (n: nat)
    requires at <= |lines|
    ensures at + n <= |lines|
    ensures forall k | at <= k < at + n :: lines[k].address < end
    ensures at + n < |lines| ==> lines[at + n].address >= end
    decreases |lines| - at
  {
    if at == |lines| || lines[at].address >= end then 0 else 1 + Taken(lines, at + 1, end)
  }

  /** The binary search for the first line not below an address. */
  function Partition(lines: seq<Line>, entry: u64, low: nat, high: nat): (at: nat)
    requires low <= high <= |lines|
    ensures low <= at <= high
    decreases high - low
  {
    if low == high then low
    else
      var middle := (low + high) / 2;
      if lines[middle].address < entry then Partition(lines, entry, middle + 1, high)
      else Partition(lines, entry, low, middle)
  }

  /** The selected lines: from the partition point, while below `end`. */
  function Selected(lines: seq<Line>, entry: u64, end: u64): seq<Line> {
    var at := Partition(lines, entry, 0, |lines|);
    lines[at..at + Taken(lines, at, end)]
  }

  class Index {
    const src: seq<byte>
    const address: LineAddress
    var lines: seq<Line>

    ghost predicate Valid()
      reads this
    {
      lines == LinesFrom(src, address, 0)
    }

    constructor (text: seq<byte>, parse: LineAddress)
      ensures Valid() && src == text && address == parse
    {
      src, address := text, parse;
      var found := [];
      var offset := 0;
      while offset < |text|
        invariant offset <= |text| && found + LinesFrom(text, parse, offset) == LinesFrom(text, parse, 0)
        decreases |text| - offset
      {
        var start := offset;
        offset := ChunkEnd(text, start);
        var line := Stripped(text[start..offset]);
        if parse(line).Some? {
          found := found + [Line(parse(line).value, line, start, offset)];
        }
      }
      lines := found;
    }

    /** Copies the selected lines, each with a line feed. */
    method SliceFor(entry: u64, end: u64) returns (out: seq<byte>)
      requires Valid()
      ensures out == Joined(Selected(lines, entry, end))
    {
      hide *;
      out := [];
      var at := Partition(lines, entry, 0, |lines|);
      ghost var picked := lines[at..at + Taken(lines, at, end)];
      SelectedOk(entry, end);
      NothingPicked();
      var k := at;
      while k < |lines| && lines[k].address < end
        invariant at <= k <= at + Taken(lines, at, end) && out == Joined(picked[..k - at])
        decreases |lines| - k
      {
        assert picked[..k + 1 - at] == picked[..k - at] + [lines[k]];
        JoinedMore(picked[..k - at], lines[k]);
        out := out + lines[k].text;
        out := out + [LF];
        k := k + 1;
      }
      assert picked[..k - at] == picked;
    }

    lemma SelectedOk(entry: u64, end: u64)
      requires Valid()
      ensures var at := Partition(lines, entry, 0, |lines|);
              Selected(lines, entry, end) == lines[at..at + Taken(lines, at, end)]
      ensures LinesOk(src, Selected(lines, entry, end), 0)
    {
      hide *;
      ValidIs();
      LinesFromOk(src, address, 0);
      SelectedLinesOk(src, lines, entry, end);
    }

    lemma ValidIs()
      requires Valid()
      ensures lines == LinesFrom(src, address, 0)
    {
      hide LinesFrom;
    }

    /** Where the selected lines begin and end in the text, and whether they are adjacent there. */
    method Scan(at: nat, end: u64) returns (first: Option<nat>, lastEnd: nat, contiguous: bool)
      requires at <= |lines|
      ensures var picked := lines[at..at + Taken(lines, at, end)];
              && (contiguous <==> Contiguous(picked))
              && (if picked == [] then first.None? else
                    first == Some(picked[0].start) && lastEnd == picked[|picked| - 1].end)
    {
      hide *;
      first := None;
      lastEnd := 0;
      contiguous := true;
      ghost var picked := lines[at..at + Taken(lines, at, end)];
      var k := at;
      NothingPicked();
      while k < |lines| && lines[k].address < end
        invariant at <= k <= at + Taken(lines, at, end)
        invariant first == if k == at then None else Some(lines[at].start)
        invariant k > at ==> lastEnd == lines[k - 1].end
        invariant contiguous <==> Contiguous(picked[..k - at])
        decreases |lines| - k
      {
        assert picked[..k + 1 - at] == picked[..k - at] + [lines[k]];
        assert k > at ==> picked[..k - at] != [] && picked[..k - at][k - at - 1] == lines[k - 1];
        ContiguousMore(picked[..k - at], lines[k]);
        if first.Some? {
          contiguous := contiguous && lines[k].start == lastEnd;
        } else {
          first := Some(lines[k].start);
        }
        lastEnd := lines[k].end;
        k := k + 1;
      }
      assert picked[..k - at] == picked;
    }

    /** Borrows the bytes of the text exactly when they are the joined lines and hold no carriage return. */
    method SliceCow(entry: u64, end: u64) returns (out: Cow)
      requires Valid()
      ensures BytesOf(src, out) == Joined(Selected(lines, entry, end))
      ensures out.Borrowed? <==> Selected(lines, entry, end) == [] || IsPlainView(src, Selected(lines, entry, end))
    {
      hide *;
      var at := Partition(lines, entry, 0, |lines|);
      ghost var picked := Selected(lines, entry, end);
      SelectedOk(entry, end);
      var first, lastEnd, contiguous := Scan(at, end);
      NothingPicked();
      if first.None? {
        BorrowedIs(src, 0, 0);
        return Borrowed(0, 0);
      }
      PickedBounds(src, picked);
      var view := src[first.value..lastEnd];
      PlainExactly(src, picked);
      if contiguous && CR !in view && view != [] && view[|view| - 1] == LF {
        ViewIsJoined(src, picked);
        BorrowedIs(src, first.value, lastEnd);
        return Borrowed(first.value, lastEnd);
      }
      var copy := SliceFor(entry, end);
      OwnedIs(src, copy);
      out := Owned(copy);
    }
  }

  /** Bytes of the text, or a copy. */
  datatype Cow = Borrowed(from: nat, to: nat) | Owned(text: seq<byte>)

  function BytesOf(src: seq<byte>, c: Cow): seq<byte> {
    match c
    case Borrowed(from, to) => if from <= to <= |src| then src[from..to] else []
    case Owned(text) => text
  }

  lemma BorrowedIs(src: seq<byte>, from: nat, to: nat)
    requires from <= to <= |src|
    ensures BytesOf(src, Borrowed(from, to)) == src[from..to] && (from == to ==> src[from..to] == [])
  {
  }

  lemma OwnedIs(src: seq<byte>, text: seq<byte>)
    ensures BytesOf(src, Owned(text)) == text
  {
  }

  /** The bytes from the first line to the last are the joined lines, and hold no carriage return. */
  ghost predicate IsPlainView(src: seq<byte>, lines: seq<Line>) {
    && lines != [] && lines[0].start <= lines[|lines| - 1].end <= |src|
    && CR !in src[lines[0].start..lines[|lines| - 1].end]
    && src[lines[0].start..lines[|lines| - 1].end] == Joined(lines)
  }

  /** The bytes the lines take in the text. */
  ghost function Extents(lines: seq<Line>): int {
    if lines == [] then 0 else Extents(lines[..|lines| - 1]) + lines[|lines| - 1].end - lines[|lines| - 1].start
  }

  lemma LastExtent(src: seq<byte>, lines: seq<Line>)
    requires LinesOk(src, lines, 0) && lines != []
    ensures var n := |lines| - 1;
            && Extents(lines) == Extents(lines[..n]) + lines[n].end - lines[n].start
            && LinesOk(src, lines[..n], 0) && (n > 0 ==> lines[n - 1].end <= lines[n].start)
  {
    var n := |lines| - 1;
    PickedOk(src, lines, 0, n);
    assert lines[0..n] == lines[..n];
    hide LineOk;
  }

  lemma NoExtents()
    ensures Extents([]) == 0
  {
  }

  lemma ContiguousLast(lines: seq<Line>)
    requires lines != []
    ensures Contiguous(lines) <==>
            Contiguous(lines[..|lines| - 1])
            && (|lines| > 1 ==> lines[|lines| - 2].end == lines[|lines| - 1].start)
  {
    var n := |lines| - 1;
    assert lines == lines[..n] + [lines[n]];
    hide Contiguous;
    ContiguousMore(lines[..n], lines[n]);
  }

  lemma {:induction false} GapsAdd(src: seq<byte>, lines: seq<Line>)
    requires LinesOk(src, lines, 0) && lines != []
    ensures Extents(lines) <= lines[|lines| - 1].end - lines[0].start
    ensures Extents(lines) == lines[|lines| - 1].end - lines[0].start ==> Contiguous(lines)
    decreases |lines|
  {
    hide *;
    LastExtent(src, lines);
    ContiguousLast(lines);
    var n := |lines| - 1;
    if n > 0 {
      GapsAdd(src, lines[..n]);
    } else {
      assert lines[..0] == [];
      NoExtents();
      NothingPicked();
    }
  }

  lemma {:induction false} JoinedLength(src: seq<byte>, lines: seq<Line>)
    requires forall k | 0 <= k < |lines| :: lines[k].end - lines[k].start == |lines[k].text| + 1
    ensures |Joined(lines)| == Extents(lines)
    decreases |lines|
  {
    if lines != [] {
      JoinedLength(src, lines[..|lines| - 1]);
    }
  }

  lemma JoinedEnds(lines: seq<Line>)
    requires lines != []
    ensures Joined(lines) != [] && Joined(lines)[|Joined(lines)| - 1] == LF
  {
  }

  lemma LineInView(src: seq<byte>, lines: seq<Line>, k: nat)
    requires LinesOk(src, lines, 0) && k < |lines|
    ensures LineOk(src, lines[k])
    ensures lines[0].start <= lines[k].start < lines[k].end <= lines[|lines| - 1].end <= |src|
    ensures k < |lines| - 1 ==> lines[k].end < |src|
  {
  }

  lemma PlainLength(src: seq<byte>, lines: seq<Line>, k: nat)
    requires LinesOk(src, lines, 0) && k < |lines| && lines[0].start < lines[|lines| - 1].end <= |src|
    requires CR !in src[lines[0].start..lines[|lines| - 1].end] && src[lines[|lines| - 1].end - 1] == LF
    ensures lines[k].end - lines[k].start == |lines[k].text| + 1
  {
    LineInView(src, lines, k);
    LineEnds(src, lines[k]);
    var view := src[lines[0].start..lines[|lines| - 1].end];
    forall i | lines[k].start <= i < lines[k].end
      ensures src[i] != CR
    {
      assert src[i] == view[i - lines[0].start];
    }
    hide LinesOk;
    PlainLine(src, lines[k]);
  }

  lemma LineEnds(src: seq<byte>, line: Line)
    requires LineOk(src, line)
    ensures line.end < |src| ==> src[line.end - 1] == LF
  {
  }

  lemma PlainViewIs(src: seq<byte>, lines: seq<Line>)
    requires IsPlainView(src, lines) && lines[0].start < lines[|lines| - 1].end
    ensures lines != [] && lines[|lines| - 1].end <= |src|
    ensures CR !in src[lines[0].start..lines[|lines| - 1].end]
    ensures |Joined(lines)| == lines[|lines| - 1].end - lines[0].start
    ensures src[lines[|lines| - 1].end - 1] == LF
  {
    JoinedEnds(lines);
    hide Joined;
    var view := src[lines[0].start..lines[|lines| - 1].end];
    assert view[|view| - 1] == src[lines[|lines| - 1].end - 1];
  }

  lemma ViewIsAdjacent(src: seq<byte>, lines: seq<Line>)
    requires LinesOk(src, lines, 0) && IsPlainView(src, lines) && lines != []
    requires lines[0].start < lines[|lines| - 1].end
    ensures Contiguous(lines) && src[lines[|lines| - 1].end - 1] == LF
  {
    hide *;
    PlainViewIs(src, lines);
    forall k | 0 <= k < |lines|
      ensures lines[k].end - lines[k].start == |lines[k].text| + 1
    {
      PlainLength(src, lines, k);
    }
    JoinedLength(src, lines);
    GapsAdd(src, lines);
  }

  /** Adjacent lines that end in line feeds are the only ones that can be borrowed. */
  lemma PlainExactly(src: seq<byte>, lines: seq<Line>)
    requires LinesOk(src, lines, 0) && lines != [] && lines[0].start < lines[|lines| - 1].end <= |src|
    ensures var view := src[lines[0].start..lines[|lines| - 1].end];
            IsPlainView(src, lines)
            <==> Contiguous(lines) && CR !in view && view != [] && view[|view| - 1] == LF
  {
    var view := src[lines[0].start..lines[|lines| - 1].end];
    assert view[|view| - 1] == src[lines[|lines| - 1].end - 1];
    hide LinesOk, Contiguous, Joined;
    if Contiguous(lines) && CR !in view && view != [] && view[|view| - 1] == LF {
      ViewIsJoined(src, lines);
    }
    if IsPlainView(src, lines) {
      ViewIsAdjacent(src, lines);
    }
  }

  lemma SelectedIs(lines: seq<Line>, entry: u64, end: u64)
    ensures var at := Partition(lines, entry, 0, |lines|);
            Selected(lines, entry, end) == lines[at..at + Taken(lines, at, end)]
  {
    hide Partition, Taken;
  }

  lemma SelectedLinesOk(src: seq<byte>, lines: seq<Line>, entry: u64, end: u64)
    requires LinesOk(src, lines, 0)
    ensures var at := Partition(lines, entry, 0, |lines|);
            Selected(lines, entry, end) == lines[at..at + Taken(lines, at, end)]
    ensures LinesOk(src, Selected(lines, entry, end), 0)
  {
    hide *;
    SelectedIs(lines, entry, end);
    var at := Partition(lines, entry, 0, |lines|);
    PickedOk(src, lines, at, at + Taken(lines, at, end));
  }

  lemma PickedBounds(src: seq<byte>, lines: seq<Line>)
    requires LinesOk(src, lines, 0) && lines != []
    ensures lines[0].start < lines[|lines| - 1].end <= |src|
  {
  }

  /** Each line starts where the one before it ends. */
  ghost predicate Contiguous(lines: seq<Line>) {
    forall i, j | 0 <= i < j < |lines| && j == i + 1 :: lines[i].end == lines[j].start
  }

  lemma ContiguousMore(lines: seq<Line>, line: Line)
    ensures Contiguous(lines + [line])
            <==> Contiguous(lines) && (lines != [] ==> lines[|lines| - 1].end == line.start)
  {
    var more := lines + [line];
    if Contiguous(more) {
      forall i, j | 0 <= i < j < |lines| && j == i + 1
        ensures lines[i].end == lines[j].start
      {
        assert more[i].end == more[j].start;
      }
      if lines != [] {
        var last := |lines| - 1;
        assert more[last].end == more[last + 1].start;
      }
    }
  }

  lemma NothingPicked()
    ensures Joined([]) == [] && Contiguous([])
  {
  }

  lemma PickedOk(src: seq<byte>, lines: seq<Line>, from: nat, to: nat)
    requires LinesOk(src, lines, 0) && from <= to <= |lines|
    ensures LinesOk(src, lines[from..to], 0)
  {
    hide LineOk;
  }

  /** A line whose bytes hold no carriage return and end in a line feed is its text and the line feed. */
  lemma PlainLine(src: seq<byte>, line: Line)
    requires LineOk(src, line) && CR !in src[line.start..line.end] && src[line.end - 1] == LF
    ensures src[line.start..line.end] == line.text + [LF]
  {
    var chunk := src[line.start..line.end];
    assert chunk[|chunk| - 1] == LF;
    var rest := chunk[..|chunk| - 1];
    if rest != [] {
      assert rest[|rest| - 1] in chunk;
    }
  }

  lemma SplitView(src: seq<byte>, from: nat, middle: nat, to: nat)
    requires from <= middle <= to <= |src|
    ensures src[from..to] == src[from..middle] + src[middle..to]
  {
  }

  /** Adjacent lines without carriage returns are their own joined form. */
  lemma {:induction false} ViewIsJoined(src: seq<byte>, lines: seq<Line>)
    requires LinesOk(src, lines, 0) && lines != [] && Contiguous(lines)
    requires lines[0].start <= lines[|lines| - 1].end <= |src|
    requires CR !in src[lines[0].start..lines[|lines| - 1].end]
    requires lines[|lines| - 1].end > 0 && src[lines[|lines| - 1].end - 1] == LF
    ensures src[lines[0].start..lines[|lines| - 1].end] == Joined(lines)
    decreases |lines|
  {
    hide *;
    var n := |lines| - 1;
    var last := lines[n];
    PickedBounds(src, lines);
    if n == 0 {
      OneLine(src, lines);
      PlainLine(src, last);
    } else {
      var init := lines[..n];
      InitFacts(src, lines);
      SplitView(src, lines[0].start, last.start, last.end);
      ViewIsJoined(src, init);
      PlainLine(src, last);
      JoinedMore(init, last);
      assert lines == init + [last];
    }
  }

  lemma OneLine(src: seq<byte>, lines: seq<Line>)
    requires LinesOk(src, lines, 0) && |lines| == 1
    ensures LineOk(src, lines[0]) && Joined(lines) == lines[0].text + [LF]
  {
    hide LineOk;
    assert lines[..0] == [];
  }

  lemma JoinedMore(lines: seq<Line>, line: Line)
    ensures Joined(lines + [line]) == Joined(lines) + line.text + [LF]
  {
    assert (lines + [line])[..|lines + [line]| - 1] == lines;
  }

  lemma InitFacts(src: seq<byte>, lines: seq<Line>)
    requires LinesOk(src, lines, 0) && |lines| > 1 && Contiguous(lines)
    ensures var init, last := lines[..|lines| - 1], lines[|lines| - 1];
            && LinesOk(src, init, 0) && Contiguous(init) && LineOk(src, last)
            && lines[0].start < init[|init| - 1].end == last.start < last.end <= |src|
            && src[last.start - 1] == LF
  {
    var n := |lines| - 1;
    var init, before := lines[..n], lines[n - 1];
    assert LineOk(src, lines[n]) && LineOk(src, before);
    assert before.end == lines[n].start by {
      var j := n - 1;
      assert j + 1 == n;
    }
    PickedOk(src, lines, 0, n);
    assert lines[0..n] == init;
    PickedBounds(src, init);
    hide LineOk, LinesOk;
    assert Contiguous(init) by {
      forall i, j | 0 <= i < j < |init| && j == i + 1
        ensures init[i].end == init[j].start
      {
        assert lines[i].end == lines[j].start;
      }
    }
  }

  // ---------------------------------------------------------------- sorted listings

  ghost predicate AddressSorted(lines: seq<Line>) {
    forall i, j | 0 <= i < j < |lines| :: lines[i].address <= lines[j].address
  }

  ghost predicate AllBelow(lines: seq<Line>, n: nat, entry: u64)
    requires n <= |lines|
  {
    forall k | 0 <= k < n :: lines[k].address < entry
  }

  ghost predicate NoneBelow(lines: seq<Line>, n: nat, entry: u64)
    requires n <= |lines|
  {
    forall k | n <= k < |lines| :: lines[k].address >= entry
  }

  lemma SplitAt(lines: seq<Line>, entry: u64, middle: nat)
    requires AddressSorted(lines) && middle < |lines|
    ensures if lines[middle].address < entry then AllBelow(lines, middle + 1, entry)
        else NoneBelow(lines, middle, entry)
  {
  }

  lemma {:induction false} PartitionSplits(lines: seq<Line>, entry: u64, low: nat, high: nat)
    requires AddressSorted(lines) && low <= high <= |lines|
    requires AllBelow(lines, low, entry) && NoneBelow(lines, high, entry)
    ensures var at := Partition(lines, entry, low, high); AllBelow(lines, at, entry) && NoneBelow(lines, at, entry)
    decreases high - low
  {
    hide AllBelow, NoneBelow, AddressSorted;
    if low < high {
      var middle := (low + high) / 2;
      SplitAt(lines, entry, middle);
      if lines[middle].address < entry {
        PartitionSplits(lines, entry, middle + 1, high);
      } else {
        PartitionSplits(lines, entry, low, middle);
      }
    }
  }

  /** On a sorted listing a slice is exactly the lines with an address in the range. */
  lemma SelectedExactly(lines: seq<Line>, entry: u64, end: u64)
    requires AddressSorted(lines)
    ensures var at := Partition(lines, entry, 0, |lines|);
            var to := at + Taken(lines, at, end);
            && Selected(lines, entry, end) == lines[at..to]
            && forall k | 0 <= k < |lines| :: at <= k < to <==> entry <= lines[k].address < end
  {
    PartitionSplits(lines, entry, 0, |lines|);
    hide Partition;
  }

  lemma {:induction false} JoinedConcat(a: seq<Line>, b: seq<Line>)
    ensures Joined(a + b) == Joined(a) + Joined(b)
    decreases |b|
  {
    hide *;
    if b == [] {
      NothingPicked();
      assert a + b == a && Joined(a) + [] == Joined(a);
    } else {
      var init, last := b[..|b| - 1], b[|b| - 1];
      JoinedConcat(a, init);
      JoinedMore(init, last);
      JoinedMore(a + init, last);
      assert b == init + [last] && a + b == a + init + [last];
      Regroup(Joined(a), Joined(init), last.text, [LF]);
    }
  }

  lemma Regroup(a: seq<byte>, b: seq<byte>, c: seq<byte>, d: seq<byte>)
    ensures a + b + c + d == a + (b + c + d)
  {
  }

  lemma SelectedBetween(lines: seq<Line>, a: u64, b: u64)
    requires AddressSorted(lines) && a <= b
    ensures var pa, pb := Partition(lines, a, 0, |lines|), Partition(lines, b, 0, |lines|);
            pa <= pb && Selected(lines, a, b) == lines[pa..pb]
  {
    SelectedIs(lines, a, b);
    Ends(lines, a);
    Ends(lines, b);
    PartitionSplits(lines, a, 0, |lines|);
    PartitionSplits(lines, b, 0, |lines|);
    var pa, pb := Partition(lines, a, 0, |lines|), Partition(lines, b, 0, |lines|);
    TakenSplits(lines, pa, a, b);
    hide *;
    SameSplit(lines, b, pa + Taken(lines, pa, b), pb);
  }

  lemma Ends(lines: seq<Line>, entry: u64)
    ensures AllBelow(lines, 0, entry) && NoneBelow(lines, |lines|, entry)
  {
  }

  lemma TakenSplits(lines: seq<Line>, at: nat, a: u64, b: u64)
    requires AddressSorted(lines) && at <= |lines| && AllBelow(lines, at, a) && a <= b
    ensures var to := at + Taken(lines, at, b); AllBelow(lines, to, b) && NoneBelow(lines, to, b)
  {
    hide Taken;
  }

  /** A listing splits at an address in one place. */
  lemma SameSplit(lines: seq<Line>, entry: u64, p: nat, q: nat)
    requires p <= |lines| && q <= |lines|
    requires AllBelow(lines, p, entry) && NoneBelow(lines, p, entry)
    requires AllBelow(lines, q, entry) && NoneBelow(lines, q, entry)
    ensures p == q
  {
    if p < q {
      SplitsLater(lines, entry, p, q);
    } else if q < p {
      SplitsLater(lines, entry, q, p);
    }
  }

  lemma SplitsLater(lines: seq<Line>, entry: u64, p: nat, q: nat)
    requires p < q <= |lines| && AllBelow(lines, q, entry)
    ensures !NoneBelow(lines, p, entry)
  {
    assert lines[p].address < entry;
  }

  /** Adjacent ranges concatenate. */
  lemma AdjacentSlices(lines: seq<Line>, a: u64, b: u64, c: u64)
    requires AddressSorted(lines) && a <= b <= c
    ensures Joined(Selected(lines, a, b)) + Joined(Selected(lines, b, c)) == Joined(Selected(lines, a, c))
  {
    hide *;
    SelectedBetween(lines, a, b);
    SelectedBetween(lines, b, c);
    SelectedBetween(lines, a, c);
    JoinedConcat(Selected(lines, a, b), Selected(lines, b, c));
    var pa, pb := Partition(lines, a, 0, |lines|), Partition(lines, b, 0, |lines|);
    var pc := Partition(lines, c, 0, |lines|);
    assert lines[pa..pb] + lines[pb..pc] == lines[pa..pc];
  }
}
