/** What a row of an exception summary may say, name result by name result, and what its counters count. */
module ExceptionTable {
  import opened Words
  import opened Arm32
  import opened ExceptionSummary

  /** A name the pass has just given belongs to it, and so does the function under it. */
  predicate NamedNow(row: Row, current: PrimaryIdentity) {
    && !row.shared && row.functionResult != Some(ReappliedFunction)
    && row.disposition == Some(ExceptionOwned) && row.transition.None? && current.source == Analysis
  }

  /** A name given before is still there, or the second pass has renamed the same symbol by hand. */
  predicate NamedBefore(row: Row, current: PrimaryIdentity) {
    && !row.shared && row.functionResult != Some(Created)
    && ((row.disposition == Some(ExceptionOwned) && row.transition.None? && current.source == Analysis)
        || (row.disposition == Some(Pass2Owned) && row.transition.Some? && Renamed(row.transition.value, current)))
  }

  predicate Renamed(t: Transition, current: PrimaryIdentity) {
    && t.authorityKnown && t.original.Some? && t.original.value.symbolId == current.symbolId
    && t.original.value.name != current.name
    && t.original.value.source == Analysis && current.source == UserDefined
  }

  /** Another name, which somebody gave, was left in place. */
  predicate NameKept(row: Row, current: PrimaryIdentity) {
    && !row.shared && row.disposition == Some(PreservedPrimary) && row.transition.None?
    && current.source in {Analysis, Ai, Imported, UserDefined}
  }

  /** A shared entry gets no name. */
  predicate NotNamed(row: Row) {
    row.shared && row.disposition == Some(NotRequestedPrimary) && row.transition.None?
  }

  /** What a row may say, by what became of the name. */
  predicate IsConsistent(row: Row) {
    && row.key.Some? && row.functionResult.Some? && row.current.Some?
    && match row.nameResult
       case None => false
       case Some(Applied) => NamedNow(row, row.current.value)
       case Some(ReappliedName) => NamedBefore(row, row.current.value)
       case Some(PreservedName) => NameKept(row, row.current.value)
       case Some(NotRequested) => NotNamed(row)
  }

  lemma ConsistentExactly(row: Row)
    ensures RowOk(row) <==> IsConsistent(row)
  {
  }

  /** The positions of the rows with a property. */
  ghost function Positions(rows: seq<Row>, f: Row -> bool): set<int> {
    set k | 0 <= k < |rows| && f(rows[k])
  }

  /** A counter is the number of rows with the property. */
  lemma {:induction false} CountExactly(rows: seq<Row>, f: Row -> bool)
    ensures Count(rows, f) == |Positions(rows, f)|
    decreases |rows|
  {
    if rows == [] {
      assert Positions(rows, f) == {};
    } else {
      var n := |rows| - 1;
      CountExactly(rows[..n], f);
      var rest := Positions(rows[..n], f);
      forall k
        ensures k in Positions(rows, f) <==> k in rest + if f(rows[n]) then {n} else {}
      {
        assert 0 <= k < n ==> rows[..n][k] == rows[k];
      }
      assert Positions(rows, f) == rest + if f(rows[n]) then {n} else {};
    }
  }

  /** How many rows have a function result, a name result, or are shared. */
  ghost predicate CountsRows(rows: seq<Row>, c: Counters) {
    && c.entries == |rows|
    && c.functionsCreated == |Positions(rows, (r: Row) => r.functionResult == Some(Created))|
    && c.functionsReapplied == |Positions(rows, (r: Row) => r.functionResult == Some(ReappliedFunction))|
    && c.functionsExisting == |Positions(rows, (r: Row) => r.functionResult == Some(Existing))|
    && c.namesApplied == |Positions(rows, (r: Row) => r.nameResult == Some(Applied))|
    && c.namesReapplied == |Positions(rows, (r: Row) => r.nameResult == Some(ReappliedName))|
    && c.namesPreserved == |Positions(rows, (r: Row) => r.nameResult == Some(PreservedName))|
    && c.namesNotRequested == |Positions(rows, (r: Row) => r.nameResult == Some(NotRequested))|
    && c.sharedEntries == |Positions(rows, (r: Row) => r.shared)|
  }

  lemma SamePositions(rows: seq<Row>, f: Row -> bool, g: Row -> bool)
    requires forall r :: f(r) == g(r)
    ensures Count(rows, f) == |Positions(rows, g)|
  {
    CountExactly(rows, f);
    assert Positions(rows, f) == Positions(rows, g);
  }

  lemma CountersCount(rows: seq<Row>)
    ensures CountsRows(rows, CountersOf(rows))
  {
    SamePositions(rows, IsCreated, (r: Row) => r.functionResult == Some(Created));
    SamePositions(rows, IsReappliedFunction, (r: Row) => r.functionResult == Some(ReappliedFunction));
    SamePositions(rows, IsExisting, (r: Row) => r.functionResult == Some(Existing));
    SamePositions(rows, IsApplied, (r: Row) => r.nameResult == Some(Applied));
    SamePositions(rows, IsReappliedName, (r: Row) => r.nameResult == Some(ReappliedName));
    SamePositions(rows, IsPreservedName, (r: Row) => r.nameResult == Some(PreservedName));
    SamePositions(rows, IsNotRequested, (r: Row) => r.nameResult == Some(NotRequested));
    SamePositions(rows, IsShared, (r: Row) => r.shared);
    hide Count, Positions;
  }

  /** By address, and at one address ARM before Thumb. */
  predicate KeyPrecedes(a: (u32, Isa), b: (u32, Isa)) {
    a.0 < b.0 || (a.0 == b.0 && a.1 == Arm && b.1 == Thumb)
  }

  /** The rows are consistent, and each key comes before all later ones. */
  ghost predicate RowsFit(rows: seq<Row>) {
    && (forall k | 0 <= k < |rows| :: IsConsistent(rows[k]))
    && (forall i, j | 0 <= i < j < |rows| ::
          rows[i].key.Some? && rows[j].key.Some? && KeyPrecedes(rows[i].key.value, rows[j].key.value))
  }

  lemma {:induction false} KeysAscend(rows: seq<Row>, i: nat, j: nat)
    requires RowsOk(rows) && i < j < |rows|
    ensures rows[i].key.Some? && rows[j].key.Some? && KeyPrecedes(rows[i].key.value, rows[j].key.value)
    decreases j
  {
    assert RowOk(rows[i]) && RowOk(rows[j]) && RowOk(rows[j - 1]);
    hide RowOk;
    assert KeyBefore(rows[j - 1].key.value, rows[j].key.value);
    if i < j - 1 {
      KeysAscend(rows, i, j - 1);
    }
  }

  lemma RowsExactly(rows: seq<Row>)
    ensures RowsOk(rows) <==> RowsFit(rows)
  {
    forall k | 0 <= k < |rows|
      ensures RowOk(rows[k]) <==> IsConsistent(rows[k])
    {
      ConsistentExactly(rows[k]);
    }
    hide RowOk, IsConsistent;
    if RowsOk(rows) {
      forall i, j | 0 <= i < j < |rows|
        ensures rows[i].key.Some? && rows[j].key.Some? && KeyPrecedes(rows[i].key.value, rows[j].key.value)
      {
        KeysAscend(rows, i, j);
      }
    }
  }

  /**
   * A summary is accepted exactly when it has one or two tables of eight roles, between one and sixteen rows that fit,
   * the recorded property where the second pass owns a name, and the counters that the rows have.
   */
  lemma SummaryExactly(s: Summary)
    ensures SummaryOk(s) <==>
            && 1 <= s.tables <= 2 && s.roles == s.tables * 8 && 1 <= |s.rows| <= 16
            && RowsFit(s.rows) && CountsRows(s.rows, s.counters)
            && ((exists k :: 0 <= k < |s.rows| && s.rows[k].disposition == Some(Pass2Owned)) ==> s.symbolPass2.Some?)
  {
    RowsExactly(s.rows);
    CountersCount(s.rows);
    CountExactly(s.rows, IsPass2Owned);
    PositionsEmpty(s.rows, IsPass2Owned);
    hide RowsOk, RowsFit, Count, Positions;
    assert CountsRows(s.rows, s.counters) <==> s.counters == CountersOf(s.rows);
  }

  lemma PositionsEmpty(rows: seq<Row>, f: Row -> bool)
    ensures |Positions(rows, f)| == 0 <==> forall k | 0 <= k < |rows| :: !f(rows[k])
  {
    assert |Positions(rows, f)| == 0 <==> Positions(rows, f) == {};
    forall k | 0 <= k < |rows|
      ensures f(rows[k]) <==> k in Positions(rows, f)
    {
    }
  }
}
