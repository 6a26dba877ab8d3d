/**
 * The CSV export of a token database: one record for each distinct pair of token and text, in order. A
 * reader of the quoting rules in section 2 of RFC 4180 (records ended by LF) gets the fields back.
 */
module TokenCsv {
  import opened Words
  import opened Sorting
  import opened Text
  import opened TokenDatabase

  const COMMA: byte := 44
  const QUOTE: byte := 34
  const LF: byte := 10
  const CR: byte := 13

  predicate Special(b: byte) {
    b == COMMA || b == QUOTE || b == LF || b == CR
  }

  predicate Plain(field: seq<byte>) {
    forall k | 0 <= k < |field| :: !Special(field[k])
  }

  // ---------------------------------------------------------------- the reader

  /** The inside of a quoted field: a doubled quote is one quote, a single one ends the field. */
  function ReadQuoted(s: seq<byte>): (r: Option<(seq<byte>, seq<byte>)>)
    ensures r.Some? ==> |r.value.1| < |s|
  {
    if s == [] then None
    else if s[0] != QUOTE then
      var r := ReadQuoted(s[1..]);
      if r.None? then None else Some(([s[0]] + r.value.0, r.value.1))
    else if |s| > 1 && s[1] == QUOTE then
      var r := ReadQuoted(s[2..]);
      if r.None? then None else Some(([QUOTE] + r.value.0, r.value.1))
    else Some(([], s[1..]))
  }

  function ReadPlain(s: seq<byte>): (r: (seq<byte>, seq<byte>))
    ensures |r.1| <= |s|
  {
    if s == [] || Special(s[0]) then ([], s)
    else
      var r := ReadPlain(s[1..]);
      ([s[0]] + r.0, r.1)
  }

  function ReadField(s: seq<byte>): (r: Option<(seq<byte>, seq<byte>)>)
    ensures r.Some? ==> |r.value.1| <= |s|
  {
    if s != [] && s[0] == QUOTE then ReadQuoted(s[1..]) else Some(ReadPlain(s))
  }

  /** Fields separated by commas, up to a line feed. */
  function ReadRecord(s: seq<byte>): (r: Option<(seq<seq<byte>>, seq<byte>)>)
    ensures r.Some? ==> |r.value.1| < |s|
    decreases |s|
  {
    var field := ReadField(s);
    if field.None? || field.value.1 == [] then None
    else
      var rest := field.value.1;
      if rest[0] == LF then Some(([field.value.0], rest[1..]))
      else if rest[0] == COMMA then
        var more := ReadRecord(rest[1..]);
        if more.None? then None else Some(([field.value.0] + more.value.0, more.value.1))
      else None
  }

  function ReadCsv(s: seq<byte>): Option<seq<seq<seq<byte>>>>
    decreases |s|
  {
    if s == [] then Some([])
    else
      var record := ReadRecord(s);
      if record.None? then None
      else
        var rest := ReadCsv(record.value.1);
        if rest.None? then None else Some([record.value.0] + rest.value)
  }

  // ---------------------------------------------------------------- the writer's fields

  /** `replace('"', "\"\"")`. */
  function Doubled(field: seq<byte>): seq<byte> {
    if field == [] then []
    else (if field[0] == QUOTE then [QUOTE, QUOTE] else [field[0]]) + Doubled(field[1..])
  }

  function CsvQuote(field: seq<byte>): seq<byte> {
    if Plain(field) then field else [QUOTE] + Doubled(field) + [QUOTE]
  }

  lemma {:induction false} QuotedReads(field: seq<byte>, rest: seq<byte>)
    requires rest != [] ==> rest[0] != QUOTE
    ensures ReadQuoted(Doubled(field) + [QUOTE] + rest) == Some((field, rest))
  {
    if field == [] {
      assert (Doubled(field) + [QUOTE] + rest)[1..] == rest;
    } else {
      QuotedReads(field[1..], rest);
      var head := if field[0] == QUOTE then [QUOTE, QUOTE] else [field[0]];
      var tail := Doubled(field[1..]) + [QUOTE] + rest;
      assert Doubled(field) + [QUOTE] + rest == head + tail;
      assert (head + tail)[|head|..] == tail;
      assert field == [field[0]] + field[1..];
    }
  }

  lemma {:induction false} PlainReads(field: seq<byte>, rest: seq<byte>)
    requires Plain(field) && rest != [] && Special(rest[0])
    ensures ReadPlain(field + rest) == (field, rest)
  {
    if field == [] {
      assert field + rest == rest;
    } else {
      PlainReads(field[1..], rest);
      assert (field + rest)[1..] == field[1..] + rest;
      assert field == [field[0]] + field[1..];
    }
  }

  lemma FieldReads(field: seq<byte>, rest: seq<byte>)
    requires rest != [] && (rest[0] == COMMA || rest[0] == LF)
    ensures ReadField(CsvQuote(field) + rest) == Some((field, rest))
  {
    if Plain(field) {
      PlainReads(field, rest);
      if field != [] {
        assert (field + rest)[0] == field[0];
      }
    } else {
      QuotedReads(field, rest);
      assert CsvQuote(field) + rest == [QUOTE] + (Doubled(field) + [QUOTE] + rest);
    }
  }

  function RecordText(fields: seq<seq<byte>>): seq<byte>
    requires fields != []
  {
    if |fields| == 1 then CsvQuote(fields[0]) + [LF]
    else CsvQuote(fields[0]) + ([COMMA] + RecordText(fields[1..]))
  }

  lemma {:induction false} RecordReads(fields: seq<seq<byte>>, rest: seq<byte>)
    requires fields != []
    ensures ReadRecord(RecordText(fields) + rest) == Some((fields, rest))
    decreases |fields|
  {
    hide CsvQuote, ReadField;
    if |fields| == 1 {
      FieldReads(fields[0], [LF] + rest);
      assert RecordText(fields) + rest == CsvQuote(fields[0]) + ([LF] + rest);
      assert ([LF] + rest)[1..] == rest;
      assert fields == [fields[0]];
    } else {
      var tail := [COMMA] + (RecordText(fields[1..]) + rest);
      RecordReads(fields[1..], rest);
      FieldReads(fields[0], tail);
      assert RecordText(fields) + rest == CsvQuote(fields[0]) + tail;
      assert tail[1..] == RecordText(fields[1..]) + rest;
      assert fields == [fields[0]] + fields[1..];
    }
  }

  ghost function CsvText(rows: seq<seq<seq<byte>>>): seq<byte>
    requires forall k | 0 <= k < |rows| :: rows[k] != []
  {
    if rows == [] then [] else RecordText(rows[0]) + CsvText(rows[1..])
  }

  /** Every list of records is read back. */
  lemma {:induction false} CsvReads(rows: seq<seq<seq<byte>>>)
    requires forall k | 0 <= k < |rows| :: rows[k] != []
    ensures ReadCsv(CsvText(rows)) == Some(rows)
    decreases |rows|
  {
    if rows != [] {
      CsvReads(rows[1..]);
      RecordReads(rows[0], CsvText(rows[1..]));
      RecordNonempty(rows[0]);
      assert rows == [rows[0]] + rows[1..];
    }
  }

  lemma RecordNonempty(fields: seq<seq<byte>>)
    requires fields != []
    ensures RecordText(fields) != []
  {
  }

  // ---------------------------------------------------------------- numbers and dates

  lemma NumeralIsPlain(text: seq<byte>)
    requires IsNumeral(text)
    ensures Plain(text)
  {
    assert forall b: byte | IsHexDigit(b) :: !Special(b);
  }

  function Padded(n: nat, width: nat): (text: seq<byte>)
    ensures Plain(text)
  {
    var digits := Decimal(n);
    NumeralIsPlain(digits);
    if |digits| >= width then digits else seq<byte>(width - |digits|, i => 48) + digits
  }

  function DateText(date: Option<Date>): (text: seq<byte>)
    ensures Plain(text)
  {
    if date.None? then []
    else Padded(date.value.year, 4) + [45] + Padded(date.value.month, 2) + [45] + Padded(date.value.day, 2)
  }

  // ---------------------------------------------------------------- order and uniqueness

  /** The key of the export's ordered map. */
  datatype Key = Key(token: u32, text: seq<byte>)

  predicate KeyBefore(a: Key, b: Key) {
    a.token < b.token || (a.token == b.token && TextBefore(a.text, b.text))
  }

  lemma KeyOrder()
    ensures TotalOrder(KeyBefore) && forall x, y :: KeyBefore(x, y) && KeyBefore(y, x) ==> x == y
  {
    hide TextBefore;
    forall x, y
      ensures KeyBefore(x, y) || KeyBefore(y, x)
      ensures KeyBefore(x, y) && KeyBefore(y, x) ==> x == y
    {
      TextTotal(x.text, y.text);
    }
    forall x, y, z | KeyBefore(x, y) && KeyBefore(y, z)
      ensures KeyBefore(x, z)
    {
      if x.token == y.token && y.token == z.token {
        TextTransitive(x.text, y.text, z.text);
      }
    }
  }

  function KeyOf(e: Entry): Key {
    Key(e.token, e.text)
  }

  /** `entry(key).or_insert(date)` for each entry in turn: the first date of each key stays. */
  function FirstDates(entries: seq<Entry>): map<Key, Option<Date>> {
    if entries == [] then map[]
    else
      var before := FirstDates(entries[..|entries| - 1]);
      var last := entries[|entries| - 1];
      if KeyOf(last) in before then before else before[KeyOf(last) := last.dateRemoved]
  }

  /** The keys are those of the entries, each with the date of its first entry. */
  lemma {:induction false} FirstDatesOf(entries: seq<Entry>, key: Key)
    ensures key in FirstDates(entries) <==> exists k :: 0 <= k < |entries| && KeyOf(entries[k]) == key
    ensures key in FirstDates(entries) ==>
              exists k :: 0 <= k < |entries| && KeyOf(entries[k]) == key
                          && entries[k].dateRemoved == FirstDates(entries)[key]
                          && forall j | 0 <= j < k :: KeyOf(entries[j]) != key
    decreases |entries|
  {
    if entries != [] {
      var n := |entries| - 1;
      var rest := entries[..n];
      FirstDatesOf(rest, key);
      hide KeyOf;
      if key in FirstDates(rest) {
        var k :| 0 <= k < |rest| && KeyOf(rest[k]) == key && rest[k].dateRemoved == FirstDates(rest)[key]
                 && forall j | 0 <= j < k :: KeyOf(rest[j]) != key;
        assert KeyOf(entries[k]) == key && entries[k].dateRemoved == FirstDates(entries)[key];
        assert forall j | 0 <= j < k :: entries[j] == rest[j];
      } else if KeyOf(entries[n]) == key {
        assert forall j | 0 <= j < n :: entries[j] == rest[j];
      } else {
        assert forall k | 0 <= k < |entries| :: KeyOf(entries[k]) == key ==> k < n && rest[k] == entries[k];
      }
    }
  }

  ghost predicate Distinct(keys: seq<Key>) {
    forall i, j | 0 <= i < j < |keys| :: keys[i] != keys[j]
  }

  /** The keys of a map, in some order. */
  method ListKeys(dates: map<Key, Option<Date>>) returns (keys: seq<Key>)
    ensures Distinct(keys) && forall x :: x in keys <==> x in dates
  {
    keys := [];
    var left := dates.Keys;
    while left != {}
      invariant left <= dates.Keys && Distinct(keys) && forall x :: x in keys <==> x in dates && x !in left
      decreases |left|
    {
      var key :| key in left;
      assert key !in keys;
      keys := keys + [key];
      left := left - {key};
    }
  }

  lemma SortedKeys(keys: seq<Key>)
    requires Distinct(keys)
    ensures var rows := Sort(KeyBefore, keys);
            SortedBy(KeyBefore, rows) && Distinct(rows) && forall x :: x in rows <==> x in keys
  {
    KeyOrder();
    SortMembers(KeyBefore, keys);
    SortSorted(KeyBefore, keys);
    hide Sort, KeyBefore;
    PairwisePermuted((a: Key, b: Key) => a != b, keys, Sort(KeyBefore, keys));
  }

  // ---------------------------------------------------------------- the export

  function Fields(key: Key, date: Option<Date>): (fields: seq<seq<byte>>)
    ensures fields != []
  {
    [Hex8(key.token), DateText(date), key.text]
  }

  function AllFields(keys: seq<Key>, dates: map<Key, Option<Date>>): (all: seq<seq<seq<byte>>>)
    requires forall k | 0 <= k < |keys| :: keys[k] in dates
    ensures |all| == |keys| && forall k | 0 <= k < |keys| :: all[k] == Fields(keys[k], dates[keys[k]])
  {
    seq(|keys|, k requires 0 <= k < |keys| => Fields(keys[k], dates[keys[k]]))
  }

  /** The distinct keys of the database in strictly ascending order. */
  ghost predicate UniqueRows(db: Database, keys: seq<Key>) {
    && SortedBy(KeyBefore, keys) && Distinct(keys)
    && forall x :: x in keys <==> exists k :: 0 <= k < |db.entries| && KeyOf(db.entries[k]) == x
  }

  lemma {:induction false} CsvTextMore(rows: seq<seq<seq<byte>>>, row: seq<seq<byte>>)
    requires row != [] && forall k | 0 <= k < |rows| :: rows[k] != []
    ensures CsvText(rows + [row]) == CsvText(rows) + RecordText(row)
    decreases |rows|
  {
    hide RecordText;
    if rows == [] {
      assert rows + [row] == [row];
      assert [row][1..] == [];
    } else {
      CsvTextMore(rows[1..], row);
      assert (rows + [row])[1..] == rows[1..] + [row];
    }
  }

  /** The first two fields never need quoting. */
  lemma RowText(key: Key, date: Option<Date>)
    ensures RecordText(Fields(key, date))
         == Hex8(key.token) + [COMMA] + DateText(date) + [COMMA] + CsvQuote(key.text) + [LF]
  {
    hide Hex8, DateText, Plain;
    NumeralIsPlain(Hex8(key.token));
    var f := Fields(key, date);
    assert f[1..] == [DateText(date), key.text] && f[1..][1..] == [key.text];
    assert RecordText([key.text]) == CsvQuote(key.text) + [LF];
    assert RecordText([DateText(date), key.text]) == DateText(date) + ([COMMA] + RecordText([key.text])) by {
      assert [DateText(date), key.text][1..] == [key.text];
    }
    assert RecordText(f) == Hex8(key.token) + ([COMMA] + RecordText([DateText(date), key.text]));
  }

  lemma KeysAreRows(db: Database, keys: seq<Key>)
    requires SortedBy(KeyBefore, keys) && Distinct(keys) && forall x :: x in keys <==> x in FirstDates(db.entries)
    ensures UniqueRows(db, keys)
  {
    hide SortedBy, KeyBefore, FirstDates, KeyOf;
    forall x
      ensures x in keys <==> exists k :: 0 <= k < |db.entries| && KeyOf(db.entries[k]) == x
    {
      FirstDatesOf(db.entries, x);
    }
  }

  method CollectDates(entries: seq<Entry>) returns (uniq: map<Key, Option<Date>>)
    ensures uniq == FirstDates(entries)
  {
    uniq := map[];
    assert entries[..0] == [];
    for k := 0 to |entries|
      invariant uniq == FirstDates(entries[..k])
    {
      assert entries[..k + 1][..k] == entries[..k];
      if KeyOf(entries[k]) !in uniq {
        uniq := uniq[KeyOf(entries[k]) := entries[k].dateRemoved];
      }
    }
    assert entries[..|entries|] == entries;
  }

  /** Writes the records; a reader gets back exactly the sorted, unique rows. */
  method WriteCsv(db: Database) returns (text: seq<byte>, keys: seq<Key>)
    ensures UniqueRows(db, keys)
    ensures forall k | 0 <= k < |keys| :: keys[k] in FirstDates(db.entries)
    ensures text == CsvText(AllFields(keys, FirstDates(db.entries)))
    ensures ReadCsv(text) == Some(AllFields(keys, FirstDates(db.entries)))
  {
    hide *;
    var uniq := CollectDates(db.entries);
    var listed := ListKeys(uniq);
    keys := Sort(KeyBefore, listed);
    SortedKeys(listed);
    KeysAreRows(db, keys);
    assert forall k | 0 <= k < |keys| :: keys[k] in keys;
    text := [];
    ghost var all := AllFields(keys, uniq);
    NoRecords();
    assert all[..0] == [];
    for k := 0 to |keys|
      invariant text == CsvText(all[..k])
    {
      var date := uniq[keys[k]];
      RowText(keys[k], date);
      CsvTextMore(all[..k], Fields(keys[k], date));
      assert all[..k + 1] == all[..k] + [Fields(keys[k], date)];
      text := text + (Hex8(keys[k].token) + [COMMA] + DateText(date) + [COMMA] + CsvQuote(keys[k].text) + [LF]);
    }
    assert all[..|all|] == all;
    CsvReads(all);
  }

  lemma NoRecords()
    ensures CsvText([]) == []
  {
  }
}
