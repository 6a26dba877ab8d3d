/** Splitting a byte range into records at runs of at least four zeros. The conditions leave one answer. */
module RecordSegments {
  import opened Words

  const ZERO_GAP: nat := 4

  datatype Record = Record(start: nat, length: nat) {
    function End(): nat {
      start + length
    }
  }

  /** Four zeros in a row start at `k`. */
  ghost predicate GapAt(b: seq<byte>, k: nat) {
    k + 4 <= |b| && b[k] == 0 && b[k + 1] == 0 && b[k + 2] == 0 && b[k + 3] == 0
  }

  /** Nonempty, nonzero at both ends, with no four zeros in a row inside. */
  ghost predicate RecordOk(b: seq<byte>, r: Record) {
    && r.length > 0 && r.End() <= |b|
    && b[r.start] != 0 && b[r.End() - 1] != 0
    && forall k | r.start <= k && k + 4 <= r.End() :: !GapAt(b, k)
  }

  ghost predicate AllZero(b: seq<byte>, from: nat, to: nat)
    requires to <= |b|
  {
    forall k | from <= k < to :: b[k] == 0
  }

  /** Up to `to`, the records are in order, at least four zeros apart, and everything between them is zero. */
  ghost predicate Segmented(b: seq<byte>, start: nat, to: nat, records: seq<Record>)
    requires to <= |b|
  {
    && (forall k | 0 <= k < |records| :: RecordOk(b, records[k]))
    && (if records == [] then AllZero(b, start, to)
        else
          && start <= records[0].start && AllZero(b, start, records[0].start)
          && records[|records| - 1].End() <= to && AllZero(b, records[|records| - 1].End(), to))
    && (forall i, j | 0 <= i < j < |records| && j == i + 1 :: Gap(b, records[i], records[j]))
  }

  ghost predicate Gap(b: seq<byte>, r: Record, s: Record) {
    r.End() + 4 <= s.start && s.start <= |b| && forall k | r.End() <= k < s.start :: b[k] == 0
  }

  /** The runs of bytes between gaps of four zeros. */
  method SegmentRecords(b: seq<byte>, start: nat, end: nat) returns (records: seq<Record>)
    requires start <= end <= |b|
    ensures Segmented(b, start, end, records)
  {
    hide RecordOk, Gap, Segmented, InRecord;
    records := [];
    var i := start;
    NoRecords(b, start);
    while i < end
      invariant start <= i <= end && Segmented(b, start, i, records)
      invariant records != [] && i < end ==> records[|records| - 1].End() + 4 <= i
      decreases end - i
    {
      if b[i] == 0 {
        OneZero(b, start, i, records);
        i := i + 1;
        continue;
      }
      var s := i;
      var zeros := 0;
      RecordBegins(b, s);
      while i < end && zeros < ZERO_GAP
        invariant s <= i <= end && zeros <= ZERO_GAP && (i == s ==> zeros == 0)
        invariant i > s ==> zeros < i - s
        invariant InRecord(b, s, i, zeros)
        decreases end - i
      {
        InRecordStep(b, s, i, zeros);
        if b[i] == 0 {
          zeros := zeros + 1;
        } else {
          zeros := 0;
        }
        i := i + 1;
      }
      var e := i - zeros;
      RecordDone(b, start, s, i, zeros, records);
      records := records + [Record(s, e - s)];
    }
  }

  lemma NoRecords(b: seq<byte>, start: nat)
    requires start <= |b|
    ensures Segmented(b, start, start, [])
  {
  }

  lemma RecordBegins(b: seq<byte>, s: nat)
    requires s < |b| && b[s] != 0
    ensures InRecord(b, s, s, 0)
  {
  }

  lemma OneZero(b: seq<byte>, start: nat, i: nat, records: seq<Record>)
    requires start <= i < |b| && b[i] == 0 && Segmented(b, start, i, records)
    ensures Segmented(b, start, i + 1, records)
  {
    hide RecordOk, Gap;
  }

  /** Inside a record: `zeros` zeros end at `i`, after a nonzero byte, and no earlier gap. */
  ghost predicate InRecord(b: seq<byte>, s: nat, i: nat, zeros: nat)
    requires s <= i <= |b|
  {
    && s < |b| && b[s] != 0
    && (i > s ==> s + zeros < i && b[i - zeros - 1] != 0)
    && (forall k | i - zeros <= k < i :: k >= 0 && b[k] == 0)
    && (forall k | s <= k && k + 4 <= i - zeros :: !GapAt(b, k))
  }

  lemma InRecordStep(b: seq<byte>, s: nat, i: nat, zeros: nat)
    requires s <= i < |b| && zeros < 4 && InRecord(b, s, i, zeros) && (i == s ==> zeros == 0)
    ensures InRecord(b, s, i + 1, if b[i] == 0 then zeros + 1 else 0)
  {
    if b[i] != 0 {
      forall k | s <= k && k + 4 <= i + 1
        ensures !GapAt(b, k)
      {
        if i > s && k + 4 > i - zeros {
          assert k <= i - zeros - 1 < k + 4 || k + 3 == i || k == i;
        }
      }
    }
  }

  lemma RecordDone(b: seq<byte>, start: nat, s: nat, i: nat, zeros: nat, records: seq<Record>)
    requires start <= s < i <= |b| && InRecord(b, s, i, zeros) && zeros < i - s
    requires Segmented(b, start, s, records)
    requires records != [] ==> records[|records| - 1].End() + 4 <= s
    ensures Segmented(b, start, i, records + [Record(s, i - zeros - s)])
  {
    var r := Record(s, i - zeros - s);
    assert RecordOk(b, r);
    assert AllZero(b, r.End(), i);
    if records != [] {
      assert Gap(b, records[|records| - 1], r);
    }
    hide RecordOk, Gap, InRecord;
    var more := records + [r];
    forall k, l | 0 <= k < l < |more| && l == k + 1
      ensures Gap(b, more[k], more[l])
    {
      if l < |records| {
        assert Gap(b, records[k], records[l]);
      }
    }
  }

  // ---------------------------------------------------------------- only one answer

  lemma TailSegmented(b: seq<byte>, start: nat, to: nat, records: seq<Record>)
    requires to <= |b| && Segmented(b, start, to, records) && records != []
    ensures Segmented(b, records[0].End(), to, records[1..])
  {
    hide RecordOk;
    var tail := records[1..];
    if tail != [] {
      assert Gap(b, records[0], records[1]);
    }
    forall i, j | 0 <= i < j < |tail| && j == i + 1
      ensures Gap(b, tail[i], tail[j])
    {
      assert Gap(b, records[i + 1], records[j + 1]);
    }
  }

  /** After the first record come the zeros up to the next, or up to the end. */
  lemma AfterFirst(b: seq<byte>, start: nat, to: nat, records: seq<Record>, k: nat)
    requires to <= |b| && Segmented(b, start, to, records) && records != []
    requires records[0].End() <= k < to && b[k] != 0
    ensures |records| > 1 && records[0].End() + 4 <= records[1].start <= k && GapAt(b, records[0].End())
  {
    if |records| > 1 {
      assert Gap(b, records[0], records[1]);
    }
  }

  lemma LastFits(b: seq<byte>, start: nat, to: nat, records: seq<Record>, i: nat)
    requires to <= |b| && Segmented(b, start, to, records) && i < |records|
    ensures start <= records[0].start && records[i].End() <= to
    decreases |records| - i
  {
    if i < |records| - 1 {
      LastFits(b, start, to, records, i + 1);
      assert Gap(b, records[i], records[i + 1]);
    }
  }

  lemma FirstStart(b: seq<byte>, start: nat, to: nat, xs: seq<Record>, ys: seq<Record>)
    requires to <= |b| && Segmented(b, start, to, xs) && Segmented(b, start, to, ys) && xs != []
    ensures ys != [] && ys[0].start <= xs[0].start
  {
    LastFits(b, start, to, xs, 0);
    assert RecordOk(b, xs[0]);
    assert b[xs[0].start] != 0 && xs[0].start < to;
    if ys != [] {
      assert ys[0].start <= xs[0].start by {
        assert AllZero(b, start, ys[0].start);
      }
    }
  }

  lemma FirstEnd(b: seq<byte>, start: nat, to: nat, xs: seq<Record>, ys: seq<Record>)
    requires to <= |b| && Segmented(b, start, to, xs) && Segmented(b, start, to, ys) && xs != [] && ys != []
    requires xs[0].start == ys[0].start
    ensures ys[0].End() <= xs[0].End()
  {
    LastFits(b, start, to, ys, 0);
    assert RecordOk(b, xs[0]) && RecordOk(b, ys[0]);
    var e, f := xs[0].End(), ys[0].End();
    if e < f {
      AfterFirst(b, start, to, xs, f - 1);
    }
  }

  /** The conditions determine the records. */
  lemma {:induction false} SegmentsUnique(b: seq<byte>, start: nat, to: nat, xs: seq<Record>, ys: seq<Record>)
    requires to <= |b| && Segmented(b, start, to, xs) && Segmented(b, start, to, ys)
    ensures xs == ys
    decreases |xs|
  {
    hide Segmented;
    if xs == [] {
      if ys != [] {
        FirstStart(b, start, to, ys, xs);
      }
    } else {
      FirstStart(b, start, to, xs, ys);
      FirstStart(b, start, to, ys, xs);
      FirstEnd(b, start, to, xs, ys);
      FirstEnd(b, start, to, ys, xs);
      TailSegmented(b, start, to, xs);
      TailSegmented(b, start, to, ys);
      SegmentsUnique(b, xs[0].End(), to, xs[1..], ys[1..]);
      assert xs == [xs[0]] + xs[1..] && ys == [ys[0]] + ys[1..];
    }
  }

  /** Every nonzero byte of the range is in a record. */
  lemma {:induction false} NonzeroCovered(b: seq<byte>, start: nat, to: nat, records: seq<Record>, k: nat)
    requires to <= |b| && Segmented(b, start, to, records) && start <= k < to && b[k] != 0
    ensures exists i :: 0 <= i < |records| && records[i].start <= k < records[i].End()
    decreases |records|
  {
    if records != [] {
      if k >= records[0].End() {
        TailSegmented(b, start, to, records);
        NonzeroCovered(b, records[0].End(), to, records[1..], k);
        var i :| 0 <= i < |records[1..]| && records[1..][i].start <= k < records[1..][i].End();
        assert records[i + 1] == records[1..][i];
      } else {
        assert AllZero(b, start, records[0].start);
        assert records[0].start <= k < records[0].End();
      }
    }
  }
}
