/**
 * Attributing recovered functions to source paths. Each function gets at most one adjacency result, and
 * exact trace evidence is added without removing or reordering any of them.
 */
module SourceAttribution {
  import opened Words
  import opened Sorting
  import opened Text

  type Path = seq<byte>

  datatype Source = Source(path: Path, occurrences: seq<u64>)

  /** A recovered function; a missing digest sorts first, as the empty text does. */
  datatype Function = Function(owner: nat, entry: u64, digest: seq<byte>, name: seq<byte>, dataRefs: seq<u64>,
                               decodeRanges: Option<seq<(u64, u64)>>)

  datatype Confidence = DbtExact | Direct | Proximity

  /** A row for the function at an index. */
  datatype Row = Row(index: nat, confidence: Confidence)

  datatype Push = Push(path: Path, row: Row)

  type DbtIndex = map<(nat, u64), Path>

  type Rows = map<Path, seq<Row>>

  // ---------------------------------------------------------------- matches

  predicate DirectMatch(s: Source, f: Function) {
    exists k :: 0 <= k < |s.occurrences| && s.occurrences[k] in f.dataRefs
  }

  predicate InRange(range: (u64, u64), a: u64) {
    range.0 <= a < range.1
  }

  predicate RangeMatch(s: Source, f: Function) {
    f.decodeRanges.Some?
    && exists k, r :: 0 <= k < |s.occurrences| && 0 <= r < |f.decodeRanges.value|
                      && InRange(f.decodeRanges.value[r], s.occurrences[k])
  }

  function SaturatingAdd(a: u64, b: u64): u64 {
    if a + b < LIMIT64 then a + b else LIMIT64 - 1
  }

  predicate Near(window: u64, occurrence: u64, reference: u64) {
    occurrence < reference <= SaturatingAdd(occurrence, window)
  }

  predicate ClusterMatch(s: Source, f: Function, window: u64) {
    exists k, r :: 0 <= k < |s.occurrences| && 0 <= r < |f.dataRefs| && Near(window, s.occurrences[k], f.dataRefs[r])
  }

  function DirectPaths(sources: seq<Source>, f: Function): set<Path> {
    set s | s in sources && DirectMatch(s, f) :: s.path
  }

  /** One claim for each nearby source, in source order. */
  function NearbyPaths(sources: seq<Source>, f: Function, window: u64): seq<Path> {
    if sources == [] then []
    else
      var last := sources[|sources| - 1];
      NearbyPaths(sources[..|sources| - 1], f, window)
      + if RangeMatch(last, f) || ClusterMatch(last, f, window) then [last.path] else []
  }

  // ---------------------------------------------------------------- what is pushed, in order

  ghost function DbtPushes(functions: seq<Function>, dbt: DbtIndex, n: nat): seq<Push>
    requires n <= |functions|
  {
    if n == 0 then []
    else
      var f := functions[n - 1];
      DbtPushes(functions, dbt, n - 1)
      + if (f.owner, f.entry) in dbt then [Push(dbt[(f.owner, f.entry)], Row(n - 1, DbtExact))] else []
  }

  ghost function DirectPush(sources: seq<Source>, f: Function, index: nat): seq<Push> {
    if exists p :: DirectPaths(sources, f) == {p} then
      var p :| DirectPaths(sources, f) == {p};
      [Push(p, Row(index, Direct))]
    else []
  }

  ghost function DirectPushes(sources: seq<Source>, functions: seq<Function>, n: nat): seq<Push>
    requires n <= |functions|
  {
    if n == 0 then []
    else DirectPushes(sources, functions, n - 1) + DirectPush(sources, functions[n - 1], n - 1)
  }

  ghost function NearbyPush(sources: seq<Source>, f: Function, index: nat, window: u64): seq<Push> {
    var paths := NearbyPaths(sources, f, window);
    if DirectPaths(sources, f) == {} && |paths| == 1 then [Push(paths[0], Row(index, Proximity))] else []
  }

  ghost function NearbyPushes(sources: seq<Source>, functions: seq<Function>, window: u64, n: nat): seq<Push>
    requires n <= |functions|
  {
    if n == 0 then []
    else NearbyPushes(sources, functions, window, n - 1) + NearbyPush(sources, functions[n - 1], n - 1, window)
  }

  ghost function Adjacency(sources: seq<Source>, functions: seq<Function>, window: u64): seq<Push> {
    DirectPushes(sources, functions, |functions|) + NearbyPushes(sources, functions, window, |functions|)
  }

  ghost function AllPushes(sources: seq<Source>, functions: seq<Function>, window: u64,
                           dbt: Option<DbtIndex>): seq<Push> {
    (if dbt.Some? then DbtPushes(functions, dbt.value, |functions|) else [])
    + Adjacency(sources, functions, window)
  }

  ghost function RowsAt(pushes: seq<Push>, path: Path): seq<Row> {
    if pushes == [] then []
    else
      var last := pushes[|pushes| - 1];
      RowsAt(pushes[..|pushes| - 1], path) + if last.path == path then [last.row] else []
  }

  // ---------------------------------------------------------------- order of rows

  /** Entry, then owner, then digest, then name. */
  predicate FunctionBefore(a: Function, b: Function) {
    || a.entry < b.entry
    || (a.entry == b.entry && a.owner < b.owner)
    || (a.entry == b.entry && a.owner == b.owner && TextBefore(a.digest, b.digest) && a.digest != b.digest)
    || (a.entry == b.entry && a.owner == b.owner && a.digest == b.digest && TextBefore(a.name, b.name))
  }

  lemma FunctionOrder()
    ensures TotalOrder(FunctionBefore)
  {
    TextOrder();
    hide TextBefore;
  }

  function RowBefore(functions: seq<Function>): (Row, Row) -> bool {
    (a: Row, b: Row) =>
      if a.index < |functions| && b.index < |functions| then FunctionBefore(functions[a.index], functions[b.index])
      else b.index >= |functions|
  }

  lemma RowOrder(functions: seq<Function>)
    ensures TotalOrder(RowBefore(functions))
  {
    FunctionOrder();
    hide FunctionBefore;
  }

  // ---------------------------------------------------------------- stable sorting and dropping rows

  function Dropped(rows: seq<Row>): seq<Row> {
    if rows == [] then []
    else (if rows[0].confidence.DbtExact? then [] else [rows[0]]) + Dropped(rows[1..])
  }

  lemma DroppedFirst(a: seq<Row>, b: seq<Row>)
    requires a != [] && Dropped(a[1..] + b) == Dropped(a[1..]) + Dropped(b)
    ensures Dropped(a + b) == Dropped(a) + Dropped(b)
  {
    var head := if a[0].confidence.DbtExact? then [] else [a[0]];
    assert (a + b)[0] == a[0] && (a + b)[1..] == a[1..] + b;
    assert Dropped(a + b) == head + Dropped(a[1..] + b);
    assert Dropped(a) == head + Dropped(a[1..]);
    hide Dropped;
    Regroup(head, Dropped(a[1..]), Dropped(b));
  }

  lemma Regroup(a: seq<Row>, b: seq<Row>, c: seq<Row>)
    ensures a + (b + c) == (a + b) + c
  {
  }

  lemma {:induction false} DroppedConcat(a: seq<Row>, b: seq<Row>)
    ensures Dropped(a + b) == Dropped(a) + Dropped(b)
  {
    if a == [] {
      assert a + b == b;
    } else {
      DroppedConcat(a[1..], b);
      DroppedFirst(a, b);
      hide Dropped;
    }
  }

  lemma {:induction false} DroppedMembers(rows: seq<Row>, r: Row)
    ensures r in Dropped(rows) <==> r in rows && !r.confidence.DbtExact?
  {
    if rows != [] {
      DroppedMembers(rows[1..], r);
      assert rows == [rows[0]] + rows[1..];
    }
  }

  lemma {:induction false} InsertFirst(le: (Row, Row) -> bool, x: Row, rows: seq<Row>)
    requires forall r | r in rows :: le(x, r)
    ensures Insert(le, x, rows) == [x] + rows
  {
  }

  /** Inserting and dropping commute on a sorted list. */
  lemma {:induction false} InsertDropped(le: (Row, Row) -> bool, x: Row, rows: seq<Row>)
    requires TotalOrder(le) && SortedBy(le, rows)
    ensures Dropped(Insert(le, x, rows))
         == if x.confidence.DbtExact? then Dropped(rows) else Insert(le, x, Dropped(rows))
  {
    if rows == [] || le(x, rows[0]) {
      assert ([x] + rows)[1..] == rows;
      forall r | r in Dropped(rows)
        ensures le(x, r)
      {
        DroppedMembers(rows, r);
        var k :| 0 <= k < |rows| && rows[k] == r;
        assert le(x, rows[0]) && (k > 0 ==> le(rows[0], rows[k]));
      }
      InsertFirst(le, x, Dropped(rows));
    } else {
      InsertDropped(le, x, rows[1..]);
      var rest := Insert(le, x, rows[1..]);
      assert ([rows[0]] + rest)[1..] == rest;
      if !rows[0].confidence.DbtExact? {
        assert ([rows[0]] + Dropped(rows[1..]))[1..] == Dropped(rows[1..]);
      } else if !x.confidence.DbtExact? {
        assert Dropped(rows) == Dropped(rows[1..]);
      }
    }
  }

  lemma SortFirst(le: (Row, Row) -> bool, x: Row, rows: seq<Row>)
    ensures Sort(le, [x] + rows) == Insert(le, x, Sort(le, rows))
  {
    assert ([x] + rows)[1..] == rows;
  }

  /** A stable sort keeps the kept rows as if the others had never been there. */
  lemma {:induction false} SortDropped(le: (Row, Row) -> bool, rows: seq<Row>)
    requires TotalOrder(le)
    ensures Dropped(Sort(le, rows)) == Sort(le, Dropped(rows))
  {
    if rows != [] {
      SortDropped(le, rows[1..]);
      SortSorted(le, rows[1..]);
      var x, rest, kept := rows[0], Sort(le, rows[1..]), Dropped(rows[1..]);
      InsertDropped(le, x, rest);
      SortFirst(le, x, kept);
      assert Dropped(rows) == (if x.confidence.DbtExact? then [] else [x]) + kept;
      assert [] + kept == kept;
      assert Sort(le, rows) == Insert(le, x, rest);
    }
  }

  lemma {:induction false} RowsAtConcat(a: seq<Push>, b: seq<Push>, path: Path)
    ensures RowsAt(a + b, path) == RowsAt(a, path) + RowsAt(b, path)
  {
    if b == [] {
      assert a + b == a;
    } else {
      var n := |b| - 1;
      RowsAtConcat(a, b[..n], path);
      assert (a + b)[..|a + b| - 1] == a + b[..n];
    }
  }

  ghost predicate OnlyDbt(pushes: seq<Push>) {
    forall k | 0 <= k < |pushes| :: pushes[k].row.confidence.DbtExact?
  }

  ghost predicate NoDbt(pushes: seq<Push>) {
    forall k | 0 <= k < |pushes| :: !pushes[k].row.confidence.DbtExact?
  }

  lemma {:induction false} DbtRowsDropped(pushes: seq<Push>, path: Path)
    requires OnlyDbt(pushes)
    ensures Dropped(RowsAt(pushes, path)) == []
  {
    if pushes != [] {
      var n := |pushes| - 1;
      DbtRowsDropped(pushes[..n], path);
      DroppedConcat(RowsAt(pushes[..n], path), if pushes[n].path == path then [pushes[n].row] else []);
    }
  }

  lemma {:induction false} OtherRowsKept(pushes: seq<Push>, path: Path)
    requires NoDbt(pushes)
    ensures Dropped(RowsAt(pushes, path)) == RowsAt(pushes, path)
  {
    if pushes != [] {
      var n := |pushes| - 1;
      OtherRowsKept(pushes[..n], path);
      DroppedConcat(RowsAt(pushes[..n], path), if pushes[n].path == path then [pushes[n].row] else []);
    }
  }

  lemma {:induction false} DbtPushesOnlyDbt(functions: seq<Function>, dbt: DbtIndex, n: nat)
    requires n <= |functions|
    ensures OnlyDbt(DbtPushes(functions, dbt, n))
  {
    if n > 0 {
      DbtPushesOnlyDbt(functions, dbt, n - 1);
    }
  }

  lemma NothingOnlyDbt()
    ensures OnlyDbt([])
  {
  }

  lemma NoDbtConcat(a: seq<Push>, b: seq<Push>)
    requires NoDbt(a) && NoDbt(b)
    ensures NoDbt(a + b)
  {
  }

  lemma NoDbtPush(sources: seq<Source>, f: Function, index: nat, window: u64)
    ensures NoDbt(DirectPush(sources, f, index)) && NoDbt(NearbyPush(sources, f, index, window))
  {
    hide DirectPaths, NearbyPaths;
  }

  lemma {:induction false} AdjacencyNoDbt(sources: seq<Source>, functions: seq<Function>, window: u64, n: nat)
    requires n <= |functions|
    ensures NoDbt(DirectPushes(sources, functions, n)) && NoDbt(NearbyPushes(sources, functions, window, n))
  {
    NoDbtConcat([], []);
    hide NoDbt, DirectPush, NearbyPush;
    if n > 0 {
      var f := functions[n - 1];
      AdjacencyNoDbt(sources, functions, window, n - 1);
      NoDbtPush(sources, f, n - 1, window);
      NoDbtConcat(DirectPushes(sources, functions, n - 1), DirectPush(sources, f, n - 1));
      NoDbtConcat(NearbyPushes(sources, functions, window, n - 1), NearbyPush(sources, f, n - 1, window));
    }
  }

  /** What a run files under a path: the pushed rows, stably sorted. */
  ghost function Filed(sources: seq<Source>, functions: seq<Function>, window: u64, dbt: Option<DbtIndex>,
                       path: Path): seq<Row> {
    Sort(RowBefore(functions), RowsAt(AllPushes(sources, functions, window, dbt), path))
  }

  /** Trace evidence only adds rows: without them every path holds the rows of the run without the index, in order. */
  lemma TraceEvidenceOnlyAdds(sources: seq<Source>, functions: seq<Function>, window: u64, dbt: Option<DbtIndex>,
                              path: Path)
    ensures Dropped(Filed(sources, functions, window, dbt, path)) == Filed(sources, functions, window, None, path)
  {
    hide DbtPushes, DirectPushes, NearbyPushes, RowsAt, Dropped, Sort, RowBefore, TotalOrder, OnlyDbt, NoDbt;
    var le := RowBefore(functions);
    var others := Adjacency(sources, functions, window);
    var traced := if dbt.Some? then DbtPushes(functions, dbt.value, |functions|) else [];
    if dbt.Some? {
      DbtPushesOnlyDbt(functions, dbt.value, |functions|);
    }
    if dbt.None? {
      NothingOnlyDbt();
    }
    AdjacencyNoDbt(sources, functions, window, |functions|);
    NoDbtConcat(DirectPushes(sources, functions, |functions|), NearbyPushes(sources, functions, window, |functions|));
    RowOrder(functions);
    SortDropped(le, RowsAt(traced + others, path));
    RowsAtConcat(traced, others, path);
    DroppedConcat(RowsAt(traced, path), RowsAt(others, path));
    DbtRowsDropped(traced, path);
    OtherRowsKept(others, path);
    assert [] + RowsAt(others, path) == RowsAt(others, path);
    assert [] + others == others;
    assert AllPushes(sources, functions, window, None) == others;
  }

  // ---------------------------------------------------------------- which rows there are

  ghost function Copies(pushes: seq<Push>, p: Push): nat {
    multiset(pushes)[p]
  }

  /** Why a row stands under a path. */
  ghost predicate Deserved(sources: seq<Source>, functions: seq<Function>, window: u64, dbt: Option<DbtIndex>,
                           p: Push) {
    && p.row.index < |functions|
    && var f := functions[p.row.index];
       match p.row.confidence
       case DbtExact => dbt.Some? && (f.owner, f.entry) in dbt.value && dbt.value[(f.owner, f.entry)] == p.path
       case Direct => DirectPaths(sources, f) == {p.path}
       case Proximity => DirectPaths(sources, f) == {} && NearbyPaths(sources, f, window) == [p.path]
  }

  lemma CopiesConcat(a: seq<Push>, b: seq<Push>, p: Push)
    ensures Copies(a + b, p) == Copies(a, p) + Copies(b, p)
  {
  }

  lemma CopiesOne(q: Push, p: Push)
    ensures Copies([q], p) == (if p == q then 1 else 0) && Copies([], p) == 0
  {
  }

  lemma {:induction false} DbtCopies(functions: seq<Function>, dbt: DbtIndex, n: nat, p: Push)
    requires n <= |functions|
    ensures Copies(DbtPushes(functions, dbt, n), p)
         == if p.row.index < n && p.row.confidence.DbtExact? && Deserved([], functions, 0, Some(dbt), p) then 1 else 0
  {
    hide Copies;
    CopiesOne(p, p);
    if n > 0 {
      var f := functions[n - 1];
      DbtCopies(functions, dbt, n - 1, p);
      if (f.owner, f.entry) in dbt {
        var q := Push(dbt[(f.owner, f.entry)], Row(n - 1, DbtExact));
        CopiesConcat(DbtPushes(functions, dbt, n - 1), [q], p);
        CopiesOne(q, p);
      } else {
        CopiesConcat(DbtPushes(functions, dbt, n - 1), [], p);
      }
    }
  }

  lemma DirectPushCopies(sources: seq<Source>, f: Function, index: nat, p: Push)
    ensures Copies(DirectPush(sources, f, index), p)
         == if p.row == Row(index, Direct) && DirectPaths(sources, f) == {p.path} then 1 else 0
  {
    hide Copies, DirectPaths;
    var paths := DirectPaths(sources, f);
    CopiesOne(p, p);
    if exists x :: paths == {x} {
      var x :| paths == {x};
      assert x in {x};
      assert DirectPush(sources, f, index) == [Push(x, Row(index, Direct))] by {
        assert forall y :: paths == {y} ==> x in {y};
      }
      CopiesOne(Push(x, Row(index, Direct)), p);
      if paths == {p.path} {
        assert x in {p.path};
      }
    }
  }

  lemma {:induction false} DirectCopies(sources: seq<Source>, functions: seq<Function>, n: nat, p: Push)
    requires n <= |functions|
    ensures Copies(DirectPushes(sources, functions, n), p)
         == if p.row.index < n && p.row.confidence.Direct? && Deserved(sources, functions, 0, None, p) then 1 else 0
  {
    hide Copies, DirectPaths, DirectPush;
    CopiesOne(p, p);
    if n > 0 {
      DirectCopies(sources, functions, n - 1, p);
      CopiesConcat(DirectPushes(sources, functions, n - 1), DirectPush(sources, functions[n - 1], n - 1), p);
      DirectPushCopies(sources, functions[n - 1], n - 1, p);
    }
  }

  lemma {:induction false} NearbyCopies(sources: seq<Source>, functions: seq<Function>, window: u64, n: nat, p: Push)
    requires n <= |functions|
    ensures Copies(NearbyPushes(sources, functions, window, n), p)
         == if p.row.index < n && p.row.confidence.Proximity? && Deserved(sources, functions, window, None, p) then 1
            else 0
  {
    hide Copies, DirectPaths, NearbyPaths;
    CopiesOne(p, p);
    if n > 0 {
      var f := functions[n - 1];
      var paths := NearbyPaths(sources, f, window);
      var push := NearbyPush(sources, f, n - 1, window);
      NearbyCopies(sources, functions, window, n - 1, p);
      CopiesConcat(NearbyPushes(sources, functions, window, n - 1), push, p);
      if push != [] {
        CopiesOne(push[0], p);
        assert paths == [paths[0]];
      }
    }
  }

  /** Each deserved row is pushed once, and no other row is. */
  lemma PushedExactly(sources: seq<Source>, functions: seq<Function>, window: u64, dbt: Option<DbtIndex>, p: Push)
    ensures Copies(AllPushes(sources, functions, window, dbt), p)
         == if Deserved(sources, functions, window, dbt, p) then 1 else 0
  {
    hide Copies, DirectPaths, NearbyPaths, DbtPushes, DirectPushes, NearbyPushes;
    var n := |functions|;
    var traced := if dbt.Some? then DbtPushes(functions, dbt.value, n) else [];
    CopiesConcat(traced, Adjacency(sources, functions, window), p);
    CopiesConcat(DirectPushes(sources, functions, n), NearbyPushes(sources, functions, window, n), p);
    if dbt.Some? {
      DbtCopies(functions, dbt.value, n, p);
    }
    CopiesOne(p, p);
    DirectCopies(sources, functions, n, p);
    NearbyCopies(sources, functions, window, n, p);
  }

  lemma {:induction false} RowCopies(pushes: seq<Push>, path: Path, row: Row)
    ensures multiset(RowsAt(pushes, path))[row] == Copies(pushes, Push(path, row))
  {
    if pushes != [] {
      var n := |pushes| - 1;
      RowCopies(pushes[..n], path, row);
      assert pushes == pushes[..n] + [pushes[n]];
    }
  }

  /** The rows under a path are the deserved ones, each once, in the order of their functions. */
  lemma FiledExactly(sources: seq<Source>, functions: seq<Function>, window: u64, dbt: Option<DbtIndex>, path: Path,
                     row: Row)
    ensures var rows := Filed(sources, functions, window, dbt, path);
            && multiset(rows)[row] == (if Deserved(sources, functions, window, dbt, Push(path, row)) then 1 else 0)
            && SortedBy(RowBefore(functions), rows)
  {
    hide Copies, Deserved, AllPushes, FunctionBefore;
    var pushes := AllPushes(sources, functions, window, dbt);
    RowOrder(functions);
    SortSorted(RowBefore(functions), RowsAt(pushes, path));
    SortMembers(RowBefore(functions), RowsAt(pushes, path));
    RowCopies(pushes, path, row);
    PushedExactly(sources, functions, window, dbt, Push(path, row));
  }

  // ---------------------------------------------------------------- ambiguity

  /** A function claimed directly by several paths, and those paths in ascending order. */
  datatype Ambiguity = Ambiguity(index: nat, paths: seq<Path>)

  /** The members of a set, in some order. */
  ghost function SomeListing(paths: set<Path>): seq<Path> {
    if paths == {} then []
    else
      var p :| p in paths;
      [p] + SomeListing(paths - {p})
  }

  /** The members of a set in ascending order. */
  ghost function Listing(paths: set<Path>): seq<Path> {
    Sort(TextBefore, SomeListing(paths))
  }

  lemma {:induction false} SomeListingIs(paths: set<Path>)
    ensures multiset(SomeListing(paths)) == multiset(paths)
  {
    if paths != {} {
      var p :| p in paths && SomeListing(paths) == [p] + SomeListing(paths - {p});
      SomeListingIs(paths - {p});
      assert multiset([p] + SomeListing(paths - {p})) == multiset{p} + multiset(SomeListing(paths - {p}));
    }
  }

  /** The listing is ascending and holds each member once. */
  lemma ListingIs(paths: set<Path>)
    ensures SortedBy(TextBefore, Listing(paths)) && multiset(Listing(paths)) == multiset(paths)
  {
    TextOrder();
    SomeListingIs(paths);
    SortSorted(TextBefore, SomeListing(paths));
    SortMembers(TextBefore, SomeListing(paths));
  }

  /** However the members are met, sorting them gives the listing. */
  method InOrder(claims: set<Path>) returns (paths: seq<Path>)
    ensures paths == Listing(claims)
    ensures SortedBy(TextBefore, paths) && multiset(paths) == multiset(claims)
  {
    hide *;
    var met: seq<Path>, left := [], claims;
    while left != {}
      invariant left <= claims && multiset(met) + multiset(left) == multiset(claims)
      decreases |left|
    {
      var p :| p in left;
      MeetOne(met, left, p);
      met := met + [p];
      left := left - {p};
    }
    MetAll(met, claims);
    ListingIs(claims);
    paths := Sort(TextBefore, met);
  }

  lemma MeetOne(met: seq<Path>, left: set<Path>, p: Path)
    requires p in left
    ensures multiset(met + [p]) + multiset(left - {p}) == multiset(met) + multiset(left)
  {
    assert left == (left - {p}) + {p};
  }

  lemma MetAll(met: seq<Path>, claims: set<Path>)
    requires multiset(met) == multiset(claims)
    ensures Sort(TextBefore, met) == Listing(claims)
  {
    TextOrder();
    SomeListingIs(claims);
    SortPermutation(TextBefore, met, SomeListing(claims));
  }

  ghost function Ambiguities(sources: seq<Source>, functions: seq<Function>, n: nat): seq<Ambiguity>
    requires n <= |functions|
  {
    if n == 0 then []
    else
      var paths := DirectPaths(sources, functions[n - 1]);
      Ambiguities(sources, functions, n - 1) + if |paths| > 1 then [Ambiguity(n - 1, Listing(paths))] else []
  }

  function AmbiguityBefore(functions: seq<Function>): (Ambiguity, Ambiguity) -> bool {
    (a: Ambiguity, b: Ambiguity) =>
      if a.index < |functions| && b.index < |functions| then FunctionBefore(functions[a.index], functions[b.index])
      else b.index >= |functions|
  }

  lemma AmbiguityOrder(functions: seq<Function>)
    ensures TotalOrder(AmbiguityBefore(functions))
  {
    FunctionOrder();
    hide FunctionBefore;
  }

  ghost function Records(list: seq<Ambiguity>, a: Ambiguity): nat {
    multiset(list)[a]
  }

  lemma AmbiguityPush(before: seq<Ambiguity>, next: Ambiguity, a: Ambiguity)
    ensures Records(before + [next], a) == Records(before, a) + if a == next then 1 else 0
    ensures Records([], a) == 0
  {
  }

  /** The record holds the paths that claim the function directly, more than one of them, in ascending order. */
  ghost predicate IsAmbiguity(sources: seq<Source>, f: Function, a: Ambiguity) {
    |DirectPaths(sources, f)| > 1 && a.paths == Listing(DirectPaths(sources, f))
  }

  lemma {:induction false} AmbiguitiesExactly(sources: seq<Source>, functions: seq<Function>, n: nat, a: Ambiguity)
    requires n <= |functions|
    ensures Records(Ambiguities(sources, functions, n), a)
         == if a.index < n && IsAmbiguity(sources, functions[a.index], a) then 1 else 0
  {
    hide DirectPaths, Records;
    AmbiguityPush([], a, a);
    if n > 0 {
      var paths := DirectPaths(sources, functions[n - 1]);
      var before := Ambiguities(sources, functions, n - 1);
      AmbiguitiesExactly(sources, functions, n - 1, a);
      AmbiguityPush(before, Ambiguity(n - 1, Listing(paths)), a);
      assert before + [] == before;
    }
  }

  /** The reported records are those of the ambiguous functions, each once, in function order. */
  lemma ReportedExactly(sources: seq<Source>, functions: seq<Function>, a: Ambiguity)
    ensures var reported := Sort(AmbiguityBefore(functions), Ambiguities(sources, functions, |functions|));
            && SortedBy(AmbiguityBefore(functions), reported)
            && Records(reported, a)
               == if a.index < |functions| && IsAmbiguity(sources, functions[a.index], a) then 1 else 0
  {
    hide DirectPaths, FunctionBefore, Ambiguities;
    AmbiguityOrder(functions);
    AmbiguitiesExactly(sources, functions, |functions|, a);
    SortSorted(AmbiguityBefore(functions), Ambiguities(sources, functions, |functions|));
    SortMembers(AmbiguityBefore(functions), Ambiguities(sources, functions, |functions|));
  }

  /**
   * A function has at most one adjacency result: a row filed by direct evidence, an ambiguity record, or a row filed by
   * proximity. In particular it has no row of either kind under a second path.
   */
  lemma AtMostOneResult(sources: seq<Source>, functions: seq<Function>, window: u64, dbt: Option<DbtIndex>,
                        p: Path, row: Row, q: Path, other: Row, a: Ambiguity)
    requires row.index == other.index && !row.confidence.DbtExact? && !other.confidence.DbtExact?
    requires row in Filed(sources, functions, window, dbt, p)
    ensures other in Filed(sources, functions, window, dbt, q) ==> p == q && row == other
    ensures a in Ambiguities(sources, functions, |functions|) ==> a.index != row.index
  {
    hide DirectPaths, NearbyPaths, Filed, Ambiguities;
    FiledExactly(sources, functions, window, dbt, p, row);
    FiledExactly(sources, functions, window, dbt, q, other);
    AmbiguitiesExactly(sources, functions, |functions|, a);
    assert row in multiset(Filed(sources, functions, window, dbt, p));
    var paths := DirectPaths(sources, functions[row.index]);
    assert paths == {p} || paths == {};
    assert |paths| <= 1;
    if other in Filed(sources, functions, window, dbt, q) {
      assert other in multiset(Filed(sources, functions, window, dbt, q));
      if paths == {p} {
        assert p in paths;
      } else {
        var near := NearbyPaths(sources, functions[row.index], window);
        assert near == [p] && p !in paths && q !in paths;
        assert near[0] == p;
      }
    }
    if a in Ambiguities(sources, functions, |functions|) {
      assert a in multiset(Ambiguities(sources, functions, |functions|));
    }
  }

  // ---------------------------------------------------------------- the run

  ghost predicate Holds(out: Rows, pushes: seq<Push>) {
    && (forall p | p in out :: out[p] == RowsAt(pushes, p) && out[p] != [])
    && (forall p | RowsAt(pushes, p) != [] :: p in out)
  }

  function WithRow(out: Rows, path: Path, row: Row): Rows {
    out[path := (if path in out then out[path] else []) + [row]]
  }

  lemma HoldsNothing()
    ensures Holds(map[], [])
  {
  }

  lemma WithRowHolds(out: Rows, pushes: seq<Push>, path: Path, row: Row)
    requires Holds(out, pushes)
    ensures Holds(WithRow(out, path, row), pushes + [Push(path, row)])
  {
    var after := pushes + [Push(path, row)];
    assert after[..|after| - 1] == pushes;
    forall p
      ensures RowsAt(after, p) == RowsAt(pushes, p) + if p == path then [row] else []
    {
    }
  }

  method DirectClaims(sources: seq<Source>, f: Function) returns (claims: set<Path>)
    ensures claims == DirectPaths(sources, f)
  {
    claims := {};
    for i := 0 to |sources|
      invariant claims == DirectPaths(sources[..i], f)
    {
      assert sources[..i + 1] == sources[..i] + [sources[i]];
      if DirectMatch(sources[i], f) {
        claims := claims + {sources[i].path};
      }
    }
    assert sources[..|sources|] == sources;
  }

  method NearbyClaims(sources: seq<Source>, f: Function, window: u64) returns (claims: seq<Path>)
    ensures claims == NearbyPaths(sources, f, window)
  {
    claims := [];
    for i := 0 to |sources|
      invariant claims == NearbyPaths(sources[..i], f, window)
    {
      hide RangeMatch, ClusterMatch;
      assert sources[..i + 1][..i] == sources[..i];
      if RangeMatch(sources[i], f) || ClusterMatch(sources[i], f, window) {
        claims := claims + [sources[i].path];
      }
    }
    assert sources[..|sources|] == sources;
  }

  method FileTraced(functions: seq<Function>, dbt: DbtIndex) returns (out: Rows)
    ensures Holds(out, DbtPushes(functions, dbt, |functions|))
  {
    hide Holds;
    out := map[];
    HoldsNothing();
    for i := 0 to |functions|
      invariant Holds(out, DbtPushes(functions, dbt, i))
    {
      var f := functions[i];
      if (f.owner, f.entry) in dbt {
        WithRowHolds(out, DbtPushes(functions, dbt, i), dbt[(f.owner, f.entry)], Row(i, DbtExact));
        out := WithRow(out, dbt[(f.owner, f.entry)], Row(i, DbtExact));
      } else {
        assert DbtPushes(functions, dbt, i) + [] == DbtPushes(functions, dbt, i);
      }
    }
  }

  ghost predicate Marks(marked: set<nat>, sources: seq<Source>, functions: seq<Function>, n: nat)
    requires n <= |functions|
  {
    forall i: nat :: i in marked <==> i < n && DirectPaths(sources, functions[i]) != {}
  }

  lemma NothingMarked(sources: seq<Source>, functions: seq<Function>)
    ensures Marks({}, sources, functions, 0)
  {
  }

  lemma MarksNext(marked: set<nat>, sources: seq<Source>, functions: seq<Function>, n: nat)
    requires n < |functions| && Marks(marked, sources, functions, n)
    ensures Marks(if DirectPaths(sources, functions[n]) != {} then marked + {n} else marked, sources, functions, n + 1)
  {
    hide DirectPaths;
  }

  lemma OneClaim(claims: set<Path>, path: Path)
    requires |claims| == 1 && path in claims
    ensures claims == {path}
  {
    assert |claims - {path}| == 0;
  }

  lemma DirectPushOf(sources: seq<Source>, f: Function, index: nat)
    ensures var claims := DirectPaths(sources, f);
            && (|claims| != 1 ==> DirectPush(sources, f, index) == [])
            && (forall p | claims == {p} :: DirectPush(sources, f, index) == [Push(p, Row(index, Direct))])
  {
    hide DirectPaths;
    var claims := DirectPaths(sources, f);
    forall p | claims == {p}
      ensures DirectPush(sources, f, index) == [Push(p, Row(index, Direct))]
    {
      assert forall q :: claims == {q} ==> p in {q};
    }
  }

  method FileDirect(before: Rows, ghost pushes: seq<Push>, sources: seq<Source>, functions: seq<Function>)
    returns (out: Rows, marked: set<nat>, ambiguous: seq<Ambiguity>)
    requires Holds(before, pushes)
    ensures Holds(out, pushes + DirectPushes(sources, functions, |functions|))
    ensures Marks(marked, sources, functions, |functions|)
    ensures ambiguous == Ambiguities(sources, functions, |functions|)
  {
    hide Holds, DirectPush, DirectPaths, WithRow, Marks;
    out, marked, ambiguous := before, {}, [];
    assert pushes + [] == pushes;
    NothingMarked(sources, functions);
    for i := 0 to |functions|
      invariant Holds(out, pushes + DirectPushes(sources, functions, i))
      invariant Marks(marked, sources, functions, i)
      invariant ambiguous == Ambiguities(sources, functions, i)
    {
      var f := functions[i];
      var claims := DirectClaims(sources, f);
      DirectPushOf(sources, f, i);
      MarksNext(marked, sources, functions, i);
      ghost var sofar := DirectPushes(sources, functions, i);
      if |claims| == 0 {
        assert pushes + (sofar + []) == pushes + sofar;
      } else if |claims| == 1 {
        var path :| path in claims;
        OneClaim(claims, path);
        WithRowHolds(out, pushes + sofar, path, Row(i, Direct));
        assert pushes + sofar + [Push(path, Row(i, Direct))] == pushes + (sofar + [Push(path, Row(i, Direct))]);
        out := WithRow(out, path, Row(i, Direct));
        marked := marked + {i};
      } else {
        assert pushes + (sofar + []) == pushes + sofar;
        var paths := InOrder(claims);
        ambiguous := ambiguous + [Ambiguity(i, paths)];
        marked := marked + {i};
      }
    }
  }

  ghost predicate Collected(claims: map<nat, seq<Path>>, sources: seq<Source>, functions: seq<Function>, window: u64,
                            n: nat)
    requires n <= |functions|
  {
    forall i: nat | i < n && DirectPaths(sources, functions[i]) == {} ::
      var paths := NearbyPaths(sources, functions[i], window);
      if paths == [] then i !in claims else i in claims && claims[i] == paths
  }

  ghost predicate Eligible(claims: map<nat, seq<Path>>, sources: seq<Source>, functions: seq<Function>, n: nat)
    requires n <= |functions|
  {
    forall i | i in claims :: i < n && DirectPaths(sources, functions[i]) == {}
  }

  method CollectNearby(sources: seq<Source>, functions: seq<Function>, window: u64, marked: set<nat>)
    returns (claims: map<nat, seq<Path>>)
    requires Marks(marked, sources, functions, |functions|)
    ensures Collected(claims, sources, functions, window, |functions|)
    ensures Eligible(claims, sources, functions, |functions|)
  {
    hide DirectPaths, NearbyPaths;
    claims := map[];
    for i := 0 to |functions|
      invariant Collected(claims, sources, functions, window, i)
      invariant Eligible(claims, sources, functions, i)
    {
      if i !in marked {
        var paths := NearbyClaims(sources, functions[i], window);
        if paths != [] {
          claims := claims[i := paths];
        }
      }
    }
  }

  lemma NearbyPushOf(claims: map<nat, seq<Path>>, sources: seq<Source>, functions: seq<Function>, window: u64, i: nat)
    requires i < |functions|
    requires Collected(claims, sources, functions, window, |functions|)
    requires Eligible(claims, sources, functions, |functions|)
    ensures NearbyPush(sources, functions[i], i, window)
         == if i in claims && |claims[i]| == 1 then [Push(claims[i][0], Row(i, Proximity))] else []
  {
    hide DirectPaths, NearbyPaths;
  }

  method FileNearby(before: Rows, ghost pushes: seq<Push>, sources: seq<Source>, functions: seq<Function>, window: u64,
                    claims: map<nat, seq<Path>>)
    returns (out: Rows)
    requires Holds(before, pushes)
    requires Collected(claims, sources, functions, window, |functions|)
    requires Eligible(claims, sources, functions, |functions|)
    ensures Holds(out, pushes + NearbyPushes(sources, functions, window, |functions|))
  {
    hide Holds, NearbyPush, WithRow, Collected, Eligible;
    out := before;
    assert pushes + [] == pushes;
    for i := 0 to |functions|
      invariant Holds(out, pushes + NearbyPushes(sources, functions, window, i))
    {
      NearbyPushOf(claims, sources, functions, window, i);
      ghost var sofar := NearbyPushes(sources, functions, window, i);
      if i in claims && |claims[i]| == 1 {
        var path := claims[i][0];
        WithRowHolds(out, pushes + sofar, path, Row(i, Proximity));
        assert pushes + sofar + [Push(path, Row(i, Proximity))] == pushes + (sofar + [Push(path, Row(i, Proximity))]);
        out := WithRow(out, path, Row(i, Proximity));
      } else {
        assert pushes + (sofar + []) == pushes + sofar;
      }
    }
  }

  method SortRows(functions: seq<Function>, rows: Rows) returns (out: Rows)
    ensures out.Keys == rows.Keys
    ensures forall p | p in rows :: out[p] == Sort(RowBefore(functions), rows[p])
  {
    hide RowBefore;
    out := rows;
    var left := rows.Keys;
    while left != {}
      invariant left <= rows.Keys && out.Keys == rows.Keys
      invariant forall p | p in rows :: out[p] == if p in left then rows[p] else Sort(RowBefore(functions), rows[p])
    {
      var p :| p in left;
      out := out[p := Sort(RowBefore(functions), out[p])];
      left := left - {p};
    }
  }

  lemma Regrouped(a: seq<Push>, b: seq<Push>, c: seq<Push>)
    ensures (a + b) + c == a + (b + c)
  {
  }

  lemma FiledOf(out: Rows, sources: seq<Source>, functions: seq<Function>, window: u64, dbt: Option<DbtIndex>, p: Path)
    requires Holds(out, AllPushes(sources, functions, window, dbt))
    ensures p in out <==> Filed(sources, functions, window, dbt, p) != []
    ensures p in out ==> Sort(RowBefore(functions), out[p]) == Filed(sources, functions, window, dbt, p)
  {
    hide AllPushes, RowBefore;
  }

  /** Exactly the filed rows, path by path, and the ambiguity records in function order. */
  method Attribute(sources: seq<Source>, functions: seq<Function>, window: u64, dbt: Option<DbtIndex>)
    returns (attrs: Rows, ambiguous: seq<Ambiguity>)
    ensures forall p :: p in attrs <==> Filed(sources, functions, window, dbt, p) != []
    ensures forall p | p in attrs :: attrs[p] == Filed(sources, functions, window, dbt, p)
    ensures ambiguous == Sort(AmbiguityBefore(functions), Ambiguities(sources, functions, |functions|))
  {
    hide Holds, Marks, Collected, Eligible, Filed, RowBefore, AmbiguityBefore;
    var out: Rows := map[];
    HoldsNothing();
    ghost var pushes: seq<Push> := [];
    if dbt.Some? {
      out := FileTraced(functions, dbt.value);
      pushes := DbtPushes(functions, dbt.value, |functions|);
    }
    var marked, found;
    out, marked, found := FileDirect(out, pushes, sources, functions);
    var claims := CollectNearby(sources, functions, window, marked);
    out := FileNearby(out, pushes + DirectPushes(sources, functions, |functions|), sources, functions, window, claims);
    Regrouped(pushes, DirectPushes(sources, functions, |functions|),
        NearbyPushes(sources, functions, window, |functions|));
    forall p
      ensures p in out <==> Filed(sources, functions, window, dbt, p) != []
      ensures p in out ==> Sort(RowBefore(functions), out[p]) == Filed(sources, functions, window, dbt, p)
    {
      FiledOf(out, sources, functions, window, dbt, p);
    }
    attrs := SortRows(functions, out);
    ambiguous := Sort(AmbiguityBefore(functions), found);
  }
}
