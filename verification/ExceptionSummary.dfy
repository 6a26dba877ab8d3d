/**
 * The exception application summary. Its counters are checked against its rows; from that alone they
 * conserve the entries.
 */
module ExceptionSummary {
  import opened Words
  import opened Arm32
  import opened ExecutionRanges

  const MAX_TABLES: nat := 2
  const VECTOR_SLOTS: nat := 8
  const MAX_ROOTS: nat := 16

  datatype FunctionResult = Created | ReappliedFunction | Existing

  datatype NameResult = Applied | ReappliedName | PreservedName | NotRequested

  datatype PrimarySource = Default | Analysis | Ai | Imported | UserDefined

  datatype PrimaryIdentity = PrimaryIdentity(symbolId: u64, source: PrimarySource, name: string)

  datatype DispositionKind = ExceptionOwned | PreservedPrimary | NotRequestedPrimary | Pass2Owned

  /** A transition with its authority and original identity, either of which may be unreadable. */
  datatype Transition = Transition(authorityKnown: bool, original: Option<PrimaryIdentity>)

  /** One row of the summary; a field that carries none of its known words is absent here. */
  datatype Row = Row(
    key: Option<(u32, Isa)>, functionResult: Option<FunctionResult>, nameResult: Option<NameResult>, shared: bool,
    disposition: Option<DispositionKind>, current: Option<PrimaryIdentity>, transition: Option<Transition>)

  datatype Counters = Counters(
    entries: nat, functionsCreated: nat, functionsReapplied: nat, functionsExisting: nat, namesApplied: nat,
    namesReapplied: nat, namesPreserved: nat, namesNotRequested: nat, sharedEntries: nat)

  /** A summary whose header has been read; `symbolPass2` is the recorded property, if any. */
  datatype Summary = Summary(tables: nat, roles: nat, symbolPass2: Option<string>, counters: Counters, rows: seq<Row>)

  // ---------------------------------------------------------------- what a row must satisfy

  predicate ReplayConsistent(f: FunctionResult, n: NameResult) {
    !(f.ReappliedFunction? && n.Applied?) && !(f.Created? && n.ReappliedName?)
  }

  predicate TransitionOk(row: Row, current: PrimaryIdentity) {
    && row.transition.Some? && row.transition.value.authorityKnown && row.transition.value.original.Some?
    && var original := row.transition.value.original.value;
    && original.source.Analysis? && current.source.UserDefined?
    && original.symbolId == current.symbolId && original.name != current.name
  }

  /** The disposition agrees with the name result, the sharing, the sources and the transition. */
  predicate DispositionOk(row: Row, name: NameResult, current: PrimaryIdentity) {
    match row.disposition
    case None => false
    case Some(ExceptionOwned) =>
      row.transition.None? && current.source.Analysis? && (name.Applied? || name.ReappliedName?)
    case Some(PreservedPrimary) => row.transition.None? && !current.source.Default? && name.PreservedName?
    case Some(NotRequestedPrimary) => row.transition.None? && name.NotRequested? && row.shared
    case Some(Pass2Owned) => name.ReappliedName? && TransitionOk(row, current)
  }

  predicate RowOk(row: Row) {
    && row.key.Some? && row.functionResult.Some? && row.nameResult.Some? && row.current.Some?
    && ReplayConsistent(row.functionResult.value, row.nameResult.value)
    && DispositionOk(row, row.nameResult.value, row.current.value)
    && (row.shared ==> row.nameResult.value.NotRequested?)
  }

  predicate KeyBefore(a: (u32, Isa), b: (u32, Isa)) {
    a.0 < b.0 || (a.0 == b.0 && IsaRank(a.1) < IsaRank(b.1))
  }

  ghost predicate RowsOk(rows: seq<Row>) {
    && (forall k | 0 <= k < |rows| :: RowOk(rows[k]))
    && (forall i, j | 0 <= i < j < |rows| && j == i + 1 :: KeyBefore(rows[i].key.value, rows[j].key.value))
  }

  // ---------------------------------------------------------------- counting rows

  ghost function Count(rows: seq<Row>, f: Row -> bool): nat {
    if rows == [] then 0
    else Count(rows[..|rows| - 1], f) + if f(rows[|rows| - 1]) then 1 else 0
  }

  predicate IsCreated(r: Row) {
    r.functionResult == Some(Created)
  }

  predicate IsReappliedFunction(r: Row) {
    r.functionResult == Some(ReappliedFunction)
  }

  predicate IsExisting(r: Row) {
    r.functionResult == Some(Existing)
  }

  predicate IsApplied(r: Row) {
    r.nameResult == Some(Applied)
  }

  predicate IsReappliedName(r: Row) {
    r.nameResult == Some(ReappliedName)
  }

  predicate IsPreservedName(r: Row) {
    r.nameResult == Some(PreservedName)
  }

  predicate IsNotRequested(r: Row) {
    r.nameResult == Some(NotRequested)
  }

  predicate IsShared(r: Row) {
    r.shared
  }

  predicate IsExceptionOwned(r: Row) {
    r.disposition == Some(ExceptionOwned)
  }

  predicate IsPreservedPrimary(r: Row) {
    r.disposition == Some(PreservedPrimary)
  }

  predicate IsPass2Owned(r: Row) {
    r.disposition == Some(Pass2Owned)
  }

  ghost function CountersOf(rows: seq<Row>): Counters {
    Counters(|rows|, Count(rows, IsCreated), Count(rows, IsReappliedFunction), Count(rows, IsExisting),
             Count(rows, IsApplied), Count(rows, IsReappliedName), Count(rows, IsPreservedName),
             Count(rows, IsNotRequested), Count(rows, IsShared))
  }

  /** What an accepted summary satisfies, and nothing more. */
  ghost predicate SummaryOk(s: Summary) {
    && 1 <= s.tables <= MAX_TABLES && s.roles == s.tables * VECTOR_SLOTS
    && 1 <= |s.rows| <= MAX_ROOTS
    && RowsOk(s.rows)
    && (Count(s.rows, IsPass2Owned) > 0 ==> s.symbolPass2.Some?)
    && s.counters == CountersOf(s.rows)
  }

  // ---------------------------------------------------------------- the operation

  function Bump(n: nat, yes: bool): nat {
    if yes then n + 1 else n
  }

  lemma CountNext(rows: seq<Row>, k: nat, f: Row -> bool)
    requires k < |rows|
    ensures Count(rows[..k + 1], f) == Bump(Count(rows[..k], f), f(rows[k]))
  {
    assert rows[..k + 1][..k] == rows[..k];
  }

  lemma CountersNext(rows: seq<Row>, k: nat)
    requires k < |rows|
    ensures var c, r := CountersOf(rows[..k]), rows[k];
            CountersOf(rows[..k + 1])
            == Counters(c.entries + 1, Bump(c.functionsCreated, r.functionResult == Some(Created)),
                        Bump(c.functionsReapplied, r.functionResult == Some(ReappliedFunction)),
                        Bump(c.functionsExisting, r.functionResult == Some(Existing)),
                        Bump(c.namesApplied, r.nameResult == Some(Applied)),
                        Bump(c.namesReapplied, r.nameResult == Some(ReappliedName)),
                        Bump(c.namesPreserved, r.nameResult == Some(PreservedName)),
                        Bump(c.namesNotRequested, r.nameResult == Some(NotRequested)),
                        Bump(c.sharedEntries, r.shared))
    ensures Count(rows[..k + 1], IsPass2Owned)
        == Bump(Count(rows[..k], IsPass2Owned), rows[k].disposition == Some(Pass2Owned))
  {
    hide Count, Bump;
    CountNext(rows, k, IsCreated);
    CountNext(rows, k, IsReappliedFunction);
    CountNext(rows, k, IsExisting);
    CountNext(rows, k, IsApplied);
    CountNext(rows, k, IsReappliedName);
    CountNext(rows, k, IsPreservedName);
    CountNext(rows, k, IsNotRequested);
    CountNext(rows, k, IsShared);
    CountNext(rows, k, IsPass2Owned);
  }

  /** The map holds each row under its key, and nothing else. */
  ghost predicate KeyedBy(rows: seq<Row>, applications: map<(u32, Isa), Row>) {
    && |applications| == |rows|
    && (forall k | 0 <= k < |rows| :: IsKeyed(rows[k], applications))
    && (forall key | key in applications :: HasKey(rows, key))
  }

  ghost predicate IsKeyed(row: Row, applications: map<(u32, Isa), Row>) {
    row.key.Some? && row.key.value in applications && applications[row.key.value] == row
  }

  ghost predicate HasKey(rows: seq<Row>, key: (u32, Isa)) {
    exists k :: 0 <= k < |rows| && rows[k].key == Some(key)
  }

  /** The rows read so far, by key. */
  ghost predicate Indexed(rows: seq<Row>, applications: map<(u32, Isa), Row>) {
    RowsOk(rows) && KeyedBy(rows, applications)
  }

  lemma {:induction false} KeysAscend(rows: seq<Row>, i: nat, j: nat)
    requires RowsOk(rows) && i < j < |rows|
    ensures KeyBefore(rows[i].key.value, rows[j].key.value)
    decreases j - i
  {
    assert RowOk(rows[i]) && RowOk(rows[j]) && RowOk(rows[j - 1]);
    assert KeyBefore(rows[j - 1].key.value, rows[j].key.value) by {
      var before := j - 1;
      assert before + 1 == j;
    }
    if i < j - 1 {
      KeysAscend(rows, i, j - 1);
    }
  }

  lemma RowsNext(rows: seq<Row>, k: nat)
    requires k < |rows| && RowsOk(rows[..k]) && RowOk(rows[k])
    requires k > 0 ==> rows[k - 1].key.Some? && KeyBefore(rows[k - 1].key.value, rows[k].key.value)
    ensures RowsOk(rows[..k + 1]) && rows[..k + 1] == rows[..k] + [rows[k]]
    ensures !HasKey(rows[..k], rows[k].key.value)
  {
    var some, more := rows[..k], rows[..k + 1];
    forall i, j | 0 <= i < j < |more| && j == i + 1
      ensures KeyBefore(more[i].key.value, more[j].key.value)
    {
      if j < k {
        assert KeyBefore(some[i].key.value, some[j].key.value);
      }
    }
    forall i | 0 <= i < k
      ensures some[i].key != Some(rows[k].key.value)
    {
      KeysAscend(more, i, k);
      assert more[i] == some[i];
    }
  }

  lemma KeyedMore(rows: seq<Row>, row: Row, applications: map<(u32, Isa), Row>)
    requires KeyedBy(rows, applications) && row.key.Some? && !HasKey(rows, row.key.value)
    ensures row.key.value !in applications
    ensures KeyedBy(rows + [row], applications[row.key.value := row])
  {
    var key := row.key.value;
    var grown, more := applications[key := row], rows + [row];
    assert grown.Keys == applications.Keys + {key};
    forall k | 0 <= k < |more|
      ensures IsKeyed(more[k], grown)
    {
      if k < |rows| {
        assert IsKeyed(rows[k], applications);
      }
    }
    forall x | x in grown
      ensures HasKey(more, x)
    {
      if x == key {
        assert more[|rows|].key == Some(x);
      } else {
        assert HasKey(rows, x);
        var i :| 0 <= i < |rows| && rows[i].key == Some(x);
        assert more[i].key == Some(x);
      }
    }
  }

  lemma IndexedNext(rows: seq<Row>, k: nat, applications: map<(u32, Isa), Row>)
    requires k < |rows| && Indexed(rows[..k], applications) && RowOk(rows[k]) && rows[k].key.Some?
    requires k > 0 ==> rows[k - 1].key.Some? && KeyBefore(rows[k - 1].key.value, rows[k].key.value)
    ensures rows[k].key.value !in applications
    ensures Indexed(rows[..k + 1], applications[rows[k].key.value := rows[k]])
  {
    hide RowOk, RowsOk, KeyedBy, KeyBefore, HasKey;
    RowsNext(rows, k);
    KeyedMore(rows[..k], rows[k], applications);
  }

  lemma RowRefused(s: Summary, k: nat)
    requires k < |s.rows|
    requires !RowOk(s.rows[k])
             || (k > 0 && s.rows[k - 1].key.Some? && !KeyBefore(s.rows[k - 1].key.value, s.rows[k].key.value))
    ensures !SummaryOk(s)
  {
    hide RowOk, Count, CountersOf;
    if k > 0 {
      var before := k - 1;
      assert before + 1 == k;
    }
  }

  /** Reads the rows in order; accepts exactly the summaries whose rows and counters agree. */
  method ParseSummary(s: Summary) returns (r: Result<map<(u32, Isa), Row>, string>)
    ensures r.Success? <==> SummaryOk(s)
    ensures r.Success? ==> Indexed(s.rows, r.value)
  {
    if s.tables < 1 || s.tables > MAX_TABLES {
      return Failure("table count is out of range");
    }
    if s.roles != s.tables * VECTOR_SLOTS {
      return Failure("roles do not match the tables");
    }
    if s.rows == [] || |s.rows| > MAX_ROOTS {
      return Failure("application count is out of range");
    }
    hide RowOk, Count, CountersOf, Indexed, SummaryOk, RowsOk, KeyBefore;
    var applications: map<(u32, Isa), Row> := map[];
    var c := Counters(0, 0, 0, 0, 0, 0, 0, 0, 0);
    var pass2 := 0;
    NothingCounted(s.rows);
    for k := 0 to |s.rows|
      invariant Indexed(s.rows[..k], applications)
      invariant c == CountersOf(s.rows[..k]) && pass2 == Count(s.rows[..k], IsPass2Owned)
    {
      var row := s.rows[k];
      IndexedOk(s.rows, k, applications);
      if !RowOk(row) {
        RowRefused(s, k);
        return Failure("row carries unknown or inconsistent state");
      }
      RowHasKey(row);
      if k > 0 && !KeyBefore(s.rows[k - 1].key.value, row.key.value) {
        RowRefused(s, k);
        return Failure("applications are not strictly sorted");
      }
      IndexedNext(s.rows, k, applications);
      CountersNext(s.rows, k);
      c := Counters(c.entries + 1, Bump(c.functionsCreated, row.functionResult == Some(Created)),
                    Bump(c.functionsReapplied, row.functionResult == Some(ReappliedFunction)),
                    Bump(c.functionsExisting, row.functionResult == Some(Existing)),
                    Bump(c.namesApplied, row.nameResult == Some(Applied)),
                    Bump(c.namesReapplied, row.nameResult == Some(ReappliedName)),
                    Bump(c.namesPreserved, row.nameResult == Some(PreservedName)),
                    Bump(c.namesNotRequested, row.nameResult == Some(NotRequested)), Bump(c.sharedEntries, row.shared));
      pass2 := Bump(pass2, row.disposition == Some(Pass2Owned));
      applications := applications[row.key.value := row];
    }
    assert s.rows[..|s.rows|] == s.rows;
    SummaryIs(s, applications);
    if pass2 != 0 && s.symbolPass2.None? {
      return Failure("pass2_owned state lacks the SymbolPass2 property");
    }
    if s.counters != c {
      return Failure("non-conserving summary");
    }
    r := Success(applications);
  }

  lemma NothingCounted(rows: seq<Row>)
    ensures rows[..0] == [] && CountersOf([]) == Counters(0, 0, 0, 0, 0, 0, 0, 0, 0) && Count([], IsPass2Owned) == 0
    ensures Indexed([], map[])
  {
  }

  lemma RowHasKey(row: Row)
    requires RowOk(row)
    ensures row.key.Some?
  {
  }

  lemma IndexedOk(rows: seq<Row>, k: nat, applications: map<(u32, Isa), Row>)
    requires k < |rows| && Indexed(rows[..k], applications)
    ensures k > 0 ==> rows[k - 1].key.Some?
  {
    if k > 0 {
      assert RowOk(rows[..k][k - 1]);
    }
  }

  lemma SummaryIs(s: Summary, applications: map<(u32, Isa), Row>)
    requires 1 <= s.tables <= MAX_TABLES && s.roles == s.tables * VECTOR_SLOTS && 1 <= |s.rows| <= MAX_ROOTS
    requires Indexed(s.rows, applications)
    ensures SummaryOk(s) <==>
            (Count(s.rows, IsPass2Owned) > 0 ==> s.symbolPass2.Some?) && s.counters == CountersOf(s.rows)
  {
    hide RowsOk, Count, CountersOf;
  }

  // ---------------------------------------------------------------- conservation

  lemma {:induction false} RowsConserve(rows: seq<Row>)
    requires forall k | 0 <= k < |rows| :: RowOk(rows[k])
    ensures Count(rows, IsCreated) + Count(rows, IsReappliedFunction) + Count(rows, IsExisting) == |rows|
    ensures Count(rows, IsApplied) + Count(rows, IsReappliedName) + Count(rows, IsPreservedName)
            + Count(rows, IsNotRequested) == |rows|
    ensures Count(rows, IsNotRequested) == Count(rows, IsShared)
    ensures Count(rows, IsPreservedName) == Count(rows, IsPreservedPrimary)
    ensures Count(rows, IsApplied) + Count(rows, IsReappliedName)
            == Count(rows, IsExceptionOwned) + Count(rows, IsPass2Owned)
    decreases |rows|
  {
    if rows != [] {
      var n := |rows| - 1;
      RowsConserve(rows[..n]);
      RowBalances(rows[n]);
      hide RowOk;
    }
  }

  function One(yes: bool): nat {
    if yes then 1 else 0
  }

  /** A consistent row has one result of each kind, and its name result goes with its disposition. */
  lemma RowBalances(row: Row)
    requires RowOk(row)
    ensures One(IsCreated(row)) + One(IsReappliedFunction(row)) + One(IsExisting(row)) == 1
    ensures One(IsApplied(row)) + One(IsReappliedName(row)) + One(IsPreservedName(row)) + One(IsNotRequested(row)) == 1
    ensures IsNotRequested(row) == IsShared(row) && IsPreservedName(row) == IsPreservedPrimary(row)
    ensures One(IsApplied(row)) + One(IsReappliedName(row)) == One(IsExceptionOwned(row)) + One(IsPass2Owned(row))
  {
    var f, n := row.functionResult.value, row.nameResult.value;
    assert row.functionResult == Some(f) && row.nameResult == Some(n) && row.disposition.Some?;
    assert f == Created || f == ReappliedFunction || f == Existing;
    assert n == Applied || n == ReappliedName || n == PreservedName || n == NotRequested;
  }

  /** In every accepted summary the results account for every entry, and the names for every disposition. */
  lemma SummaryConserves(s: Summary)
    requires SummaryOk(s)
    ensures var c := s.counters;
            && c.functionsCreated + c.functionsReapplied + c.functionsExisting == c.entries
            && c.namesApplied + c.namesReapplied + c.namesPreserved + c.namesNotRequested == c.entries
            && c.namesNotRequested == c.sharedEntries
            && c.namesPreserved == Count(s.rows, IsPreservedPrimary)
            && c.namesApplied + c.namesReapplied == Count(s.rows, IsExceptionOwned) + Count(s.rows, IsPass2Owned)
            && (Count(s.rows, IsPass2Owned) > 0 ==> s.symbolPass2.Some?)
  {
    RowsConserve(s.rows);
    hide Count, RowOk;
  }
}
