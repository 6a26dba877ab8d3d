/** The lines of an index, told by the text alone: what lies between line feeds, and begins with an address. */
module DisasmLines {
  import opened Words
  import opened DisasmIndex

  /** The bytes from a line's start to its end: up to and including the next line feed, or to the end of the text. */
  ghost predicate IsChunk(src: seq<byte>, start: nat, end: nat) {
    && start < end <= |src|
    && (start == 0 || src[start - 1] == 10) && (end == |src| || src[end - 1] == 10)
    && forall k | start <= k < end - 1 :: src[k] != 10
  }

  /** The chunk is the text and a line end: one line feed at most, and before it one carriage return at most. */
  ghost predicate IsBody(chunk: seq<byte>, text: seq<byte>) {
    || chunk == text + [13, 10]
    || (chunk == text + [10] && (text != [] ==> text[|text| - 1] != 13))
    || chunk == text + [13]
    || (chunk == text && (text != [] ==> text[|text| - 1] != 10 && text[|text| - 1] != 13))
  }

  /** A line of the text that begins with an address. */
  ghost predicate IsLine(src: seq<byte>, address: LineAddress, line: Line) {
    && IsChunk(src, line.start, line.end) && IsBody(src[line.start..line.end], line.text)
    && address(line.text) == Some(line.address)
  }

  lemma StrippedExactly(chunk: seq<byte>, text: seq<byte>)
    ensures IsBody(chunk, text) <==> text == Stripped(chunk)
  {
    var n := |chunk|;
    if n > 0 && chunk[n - 1] == 10 {
      assert chunk == chunk[..n - 1] + [10];
      if n > 1 && chunk[n - 2] == 13 {
        assert chunk == chunk[..n - 2] + [13, 10];
        assert chunk[..n - 1][..n - 2] == chunk[..n - 2];
      }
    } else if n > 0 && chunk[n - 1] == 13 {
      assert chunk == chunk[..n - 1] + [13];
    }
  }

  lemma NextChunk(src: seq<byte>, from: nat, start: nat, end: nat)
    requires from < |src| && (from == 0 || src[from - 1] == 10) && from <= start
    ensures IsChunk(src, from, ChunkEnd(src, from))
    ensures IsChunk(src, start, end) ==> (start == from && end == ChunkEnd(src, from)) || ChunkEnd(src, from) <= start
  {
    var e := ChunkEnd(src, from);
    hide ChunkEnd;
    forall k | from <= k < e - 1
      ensures src[k] != 10
    {
      assert src[from..e - 1][k - from] == src[k];
    }
  }

  lemma {:induction false} LinesAre(src: seq<byte>, address: LineAddress, from: nat, line: Line)
    requires from <= |src| && (from == 0 || src[from - 1] == 10 || from == |src|)
    ensures line in LinesFrom(src, address, from) <==> from <= line.start && IsLine(src, address, line)
    decreases |src| - from
  {
    hide IsBody, Stripped, ChunkEnd;
    if from < |src| {
      NextChunk(src, from, if line.start < from then from else line.start, line.end);
      var end := ChunkEnd(src, from);
      LinesAre(src, address, end, line);
      StrippedExactly(src[from..end], line.text);
    }
  }

  /** The index of a text holds exactly its address lines, in the order of the text. */
  lemma IndexHolds(src: seq<byte>, address: LineAddress, line: Line)
    ensures line in LinesFrom(src, address, 0) <==> IsLine(src, address, line)
    ensures var lines := LinesFrom(src, address, 0);
            forall i, j | 0 <= i < j < |lines| :: lines[i].end <= lines[j].start
  {
    LinesAre(src, address, 0, line);
    LinesFromOk(src, address, 0);
    hide LinesFrom, IsBody, LineOk;
  }
}
