/**
 * The streaming JSON writer and the string tables written with it. A table file reads back as its
 * document, whose row under a remapped id holds the string that id was made for.
 */
module TraceTables {
  import opened Words
  import opened Sorting
  import opened Text
  import opened JsonText
  import opened StringRemap

  class JsonWriter {
    var sink: seq<byte>
    var depth: nat
    var emptyContainer: bool

    constructor ()
      ensures sink == [] && depth == 0 && !emptyContainer
    {
      sink := [];
      depth := 0;
      emptyContainer := false;
    }

    method OpenObject()
      modifies this
      ensures sink == old(sink) + [OPEN_OBJECT] && depth == old(depth) + 1 && emptyContainer
    {
      sink := sink + [OPEN_OBJECT];
      depth := depth + 1;
      emptyContainer := true;
    }

    method CloseObject()
      requires depth > 0
      modifies this
      ensures depth == old(depth) - 1 && !emptyContainer
      ensures sink == old(sink) + (if old(emptyContainer) then [] else NewLine(depth)) + [CLOSE_OBJECT]
    {
      depth := depth - 1;
      Close(CLOSE_OBJECT);
    }

    method OpenArray()
      modifies this
      ensures sink == old(sink) + [OPEN_ARRAY] && depth == old(depth) + 1 && emptyContainer
    {
      sink := sink + [OPEN_ARRAY];
      depth := depth + 1;
      emptyContainer := true;
    }

    method CloseArray()
      requires depth > 0
      modifies this
      ensures depth == old(depth) - 1 && !emptyContainer
      ensures sink == old(sink) + (if old(emptyContainer) then [] else NewLine(depth)) + [CLOSE_ARRAY]
    {
      depth := depth - 1;
      Close(CLOSE_ARRAY);
    }

    /** An empty container closes on the same line. */
    method Close(bracket: byte)
      modifies this`sink, this`emptyContainer
      ensures !emptyContainer
      ensures sink == old(sink) + (if old(emptyContainer) then [] else NewLine(depth)) + [bracket]
    {
      var empty := emptyContainer;
      emptyContainer := false;
      if !empty {
        sink := sink + [LF];
        WriteIndent();
      }
      sink := sink + [bracket];
    }

    method WriteIndent()
      modifies this`sink
      ensures sink == old(sink) + Indent(depth)
    {
      for level := 0 to depth
        invariant sink == old(sink) + Indent(level)
      {
        sink := sink + [SPACE, SPACE];
      }
    }

    method Key(first: bool, name: seq<byte>)
      modifies this`sink, this`emptyContainer
      ensures sink == old(sink) + KeyText(first, name, depth) && !emptyContainer
    {
      hide *;
      emptyContainer := false;
      ghost var start := sink;
      if !first {
        sink := sink + [COMMA];
      }
      sink := sink + [LF];
      WriteIndent();
      sink := sink + [QUOTE];
      WriteEscaped(name);
      sink := sink + [QUOTE, COLON, SPACE];
      KeyAppended(start, first, name, depth);
    }

    method Element(first: bool)
      modifies this`sink, this`emptyContainer
      ensures sink == old(sink) + ElementText(first, depth) && !emptyContainer
    {
      emptyContainer := false;
      if !first {
        sink := sink + [COMMA];
      }
      sink := sink + [LF];
      WriteIndent();
    }

    method StringValue(value: seq<byte>)
      modifies this`sink
      ensures sink == old(sink) + Print(String(value), depth)
    {
      sink := sink + [QUOTE];
      WriteEscaped(value);
      sink := sink + [QUOTE];
    }

    method NumberValue(value: nat)
      modifies this`sink
      ensures sink == old(sink) + Print(Number(value), depth)
    {
      sink := sink + Decimal(value);
    }

    method WriteEscaped(value: seq<byte>)
      modifies this`sink
      ensures sink == old(sink) + Escaped(value)
    {
      hide *;
      ghost var start := sink;
      assert value[0..] == value;
      for k := 0 to |value|
        invariant sink + Escaped(value[k..]) == start + Escaped(value)
      {
        EscapedStep(value, k);
        Assoc(sink, EscapedByte(value[k]), Escaped(value[k + 1..]));
        sink := sink + EscapedByte(value[k]);
      }
      assert value[|value|..] == [];
      EscapedNothing();
    }
  }

  lemma Assoc(a: seq<byte>, b: seq<byte>, c: seq<byte>)
    ensures a + (b + c) == a + b + c
  {
  }

  lemma EscapedNothing()
    ensures Escaped([]) == []
  {
  }

  lemma KeyAppended(start: seq<byte>, first: bool, name: seq<byte>, depth: nat)
    ensures (if first then start else start + [COMMA]) + [LF] + Indent(depth) + [QUOTE] + Escaped(name)
            + [QUOTE, COLON, SPACE]
         == start + KeyText(first, name, depth)
  {
    hide Indent, Escaped;
    var comma: seq<byte> := if first then [] else [COMMA];
    var line, key, end: seq<byte> := NewLine(depth), Escaped(name), [QUOTE, COLON, SPACE];
    assert (if first then start else start + [COMMA]) == start + comma;
    Assoc(start + comma, [LF], Indent(depth));
    Assoc(start, comma, line);
    Assoc(start, comma + line, [QUOTE]);
    Assoc(start, comma + line + [QUOTE], key);
    Assoc(start, comma + line + [QUOTE] + key, end);
  }

  lemma EscapedStep(value: seq<byte>, k: nat)
    requires k < |value|
    ensures Escaped(value[k..]) == EscapedByte(value[k]) + Escaped(value[k + 1..])
  {
    assert value[k..][1..] == value[k + 1..];
  }

  // ---------------------------------------------------------------- the document of a string table

  /** The member names of a table file, and what is recorded about the producer. */
  datatype Envelope = Envelope(format: seq<byte>, schemaVersion: nat, toolVersion: seq<byte>, tableKey: seq<byte>,
                               valueKey: seq<byte>)

  function Ascii(s: string): seq<byte> {
    seq<byte>(|s|, i requires 0 <= i < |s| => s[i] as int % 256)
  }

  function Row(e: Envelope, id: nat, value: seq<byte>): Json {
    Object(Members(Ascii("id"), Number(id), Members(e.valueKey, String(value), NoMembers)))
  }

  function RowsFrom(e: Envelope, values: seq<seq<byte>>, id: nat): Items
    requires id <= |values|
    decreases |values| - id
  {
    if id == |values| then NoItems else Items(Row(e, id, values[id]), RowsFrom(e, values, id + 1))
  }

  function TableDocument(e: Envelope, values: seq<seq<byte>>): Json {
    Object(Members(Ascii("format"), String(e.format),
           Members(Ascii("schema_version"), Number(e.schemaVersion),
           Members(Ascii("tool_version"), String(e.toolVersion),
           Members(Ascii("count"), Number(|values|),
           Members(e.tableKey, Array(RowsFrom(e, values, 0)), NoMembers))))))
  }

  /** The text of the first rows. */
  ghost function RowsText(e: Envelope, values: seq<seq<byte>>, k: nat): seq<byte>
    requires k <= |values|
  {
    if k == 0 then []
    else RowsText(e, values, k - 1) + ElementText(k == 1, 2) + Print(Row(e, k - 1, values[k - 1]), 2)
  }

  lemma {:induction false} RowsPrinted(e: Envelope, values: seq<seq<byte>>, k: nat)
    requires k <= |values|
    ensures RowsText(e, values, k) + PrintItems(RowsFrom(e, values, k), k == 0, 2)
         == PrintItems(RowsFrom(e, values, 0), true, 2)
  {
    hide Print, ElementText, Row;
    if k > 0 {
      RowsPrinted(e, values, k - 1);
      RowsStep(e, values, k - 1);
    }
  }

  lemma RowsStep(e: Envelope, values: seq<seq<byte>>, k: nat)
    requires k < |values|
    ensures RowsText(e, values, k) + PrintItems(RowsFrom(e, values, k), k == 0, 2)
         == RowsText(e, values, k + 1) + PrintItems(RowsFrom(e, values, k + 1), false, 2)
  {
    hide Print, ElementText, Row;
  }

  /** The text of an object opened at a depth, one key at a time. */
  lemma RowPrinted(e: Envelope, id: nat, value: seq<byte>)
    ensures Print(Row(e, id, value), 2)
         == [OPEN_OBJECT] + KeyText(true, Ascii("id"), 3) + Print(Number(id), 3) + KeyText(false, e.valueKey, 3)
            + Print(String(value), 3) + NewLine(2) + [CLOSE_OBJECT]
  {
    hide KeyText, NewLine, Ascii;
    var last := Members(e.valueKey, String(value), NoMembers);
    assert PrintMembers(last, false, 3) == KeyText(false, e.valueKey, 3) + Print(String(value), 3);
  }

  method WriteRow(json: JsonWriter, e: Envelope, id: nat, value: seq<byte>, first: bool)
    requires json.depth == 2
    modifies json
    ensures json.depth == 2 && !json.emptyContainer
    ensures json.sink == old(json.sink) + ElementText(first, 2) + Print(Row(e, id, value), 2)
  {
    hide *;
    RowPrinted(e, id, value);
    json.Element(first);
    json.OpenObject();
    json.Key(true, Ascii("id"));
    json.NumberValue(id);
    json.Key(false, e.valueKey);
    json.StringValue(value);
    json.CloseObject();
  }

  /** The text before the rows. */
  function Opening(e: Envelope, count: nat): seq<byte> {
    [OPEN_OBJECT] + KeyText(true, Ascii("format"), 1) + Print(String(e.format), 1)
    + KeyText(false, Ascii("schema_version"), 1) + Print(Number(e.schemaVersion), 1)
    + KeyText(false, Ascii("tool_version"), 1) + Print(String(e.toolVersion), 1)
    + KeyText(false, Ascii("count"), 1) + Print(Number(count), 1)
    + KeyText(false, e.tableKey, 1) + [OPEN_ARRAY]
  }

  lemma OpeningParts(e: Envelope, count: nat)
    ensures Opening(e, count)
         == [OPEN_OBJECT] + KeyText(true, Ascii("format"), 1) + Print(String(e.format), 1)
            + KeyText(false, Ascii("schema_version"), 1) + Print(Number(e.schemaVersion), 1)
            + KeyText(false, Ascii("tool_version"), 1) + Print(String(e.toolVersion), 1)
            + KeyText(false, Ascii("count"), 1) + Print(Number(count), 1)
            + KeyText(false, e.tableKey, 1) + [OPEN_ARRAY]
  {
    hide KeyText, Print, Ascii;
  }

  method BeginTable(json: JsonWriter, e: Envelope, count: nat)
    requires json.depth == 0 && json.sink == []
    modifies json
    ensures json.sink == Opening(e, count) && json.depth == 2 && json.emptyContainer
  {
    hide *;
    OpeningParts(e, count);
    json.OpenObject();
    assert json.sink == [OPEN_OBJECT];
    json.Key(true, Ascii("format"));
    json.StringValue(e.format);
    json.Key(false, Ascii("schema_version"));
    json.NumberValue(e.schemaVersion);
    json.Key(false, Ascii("tool_version"));
    json.StringValue(e.toolVersion);
    json.Key(false, Ascii("count"));
    json.NumberValue(count);
    json.Key(false, e.tableKey);
    json.OpenArray();
  }

  lemma DocumentPrinted(e: Envelope, values: seq<seq<byte>>)
    ensures Print(TableDocument(e, values), 0)
         == Opening(e, |values|) + PrintItems(RowsFrom(e, values, 0), true, 2)
            + (if values == [] then [] else NewLine(1)) + [CLOSE_ARRAY] + NewLine(0) + [CLOSE_OBJECT]
  {
    hide *;
    RowsEmpty(e, values);
    OpeningParts(e, |values|);
    var rows := RowsFrom(e, values, 0);
    var m5 := Members(e.tableKey, Array(rows), NoMembers);
    var m4 := Members(Ascii("count"), Number(|values|), m5);
    var m3 := Members(Ascii("tool_version"), String(e.toolVersion), m4);
    var m2 := Members(Ascii("schema_version"), Number(e.schemaVersion), m3);
    var m1 := Members(Ascii("format"), String(e.format), m2);
    DocumentShape(e, values);
    ObjectPrinted(m1);
    var x1 := [OPEN_OBJECT];
    MemberAppended(x1, m1, true);
    var x2 := x1 + KeyText(true, m1.key, 1) + Print(m1.value, 1);
    MemberAppended(x2, m2, false);
    var x3 := x2 + KeyText(false, m2.key, 1) + Print(m2.value, 1);
    MemberAppended(x3, m3, false);
    var x4 := x3 + KeyText(false, m3.key, 1) + Print(m3.value, 1);
    MemberAppended(x4, m4, false);
    var x5 := x4 + KeyText(false, m4.key, 1) + Print(m4.value, 1);
    MemberAppended(x5, m5, false);
    NothingAppended(x5 + KeyText(false, m5.key, 1) + Print(m5.value, 1));
    ArrayAppended(x5 + KeyText(false, m5.key, 1), rows);
  }

  lemma DocumentShape(e: Envelope, values: seq<seq<byte>>)
    ensures TableDocument(e, values)
         == Object(Members(Ascii("format"), String(e.format),
                   Members(Ascii("schema_version"), Number(e.schemaVersion),
                   Members(Ascii("tool_version"), String(e.toolVersion),
                   Members(Ascii("count"), Number(|values|),
                   Members(e.tableKey, Array(RowsFrom(e, values, 0)), NoMembers))))))
  {
  }

  lemma ObjectPrinted(members: Members)
    requires members.Members?
    ensures Print(Object(members), 0) == [OPEN_OBJECT] + PrintMembers(members, true, 1) + NewLine(0) + [CLOSE_OBJECT]
  {
    hide PrintMembers, NewLine;
  }

  lemma MemberAppended(x: seq<byte>, members: Members, first: bool)
    requires members.Members?
    ensures x + PrintMembers(members, first, 1)
         == x + KeyText(first, members.key, 1) + Print(members.value, 1) + PrintMembers(members.rest, false, 1)
  {
    MemberPrinted(members, first);
    hide *;
    var key, value, rest := KeyText(first, members.key, 1), Print(members.value, 1),
        PrintMembers(members.rest, false, 1);
    Assoc(x, key + value, rest);
    Assoc(x, key, value);
  }

  lemma NothingAppended(x: seq<byte>)
    ensures x + PrintMembers(NoMembers, false, 1) == x
  {
  }

  lemma ArrayAppended(x: seq<byte>, rows: Items)
    ensures x + Print(Array(rows), 1)
         == x + [OPEN_ARRAY] + PrintItems(rows, true, 2) + (if rows.NoItems? then [] else NewLine(1)) + [CLOSE_ARRAY]
  {
    ArrayPrinted(rows);
    hide *;
    var items, line: seq<byte> := PrintItems(rows, true, 2), if rows.NoItems? then [] else NewLine(1);
    Assoc(x, [OPEN_ARRAY] + items + line, [CLOSE_ARRAY]);
    Assoc(x, [OPEN_ARRAY] + items, line);
    Assoc(x, [OPEN_ARRAY], items);
  }

  lemma ArrayPrinted(rows: Items)
    ensures Print(Array(rows), 1)
         == [OPEN_ARRAY] + PrintItems(rows, true, 2) + (if rows.NoItems? then [] else NewLine(1)) + [CLOSE_ARRAY]
  {
    hide PrintItems, NewLine;
  }

  lemma MemberPrinted(members: Members, first: bool)
    requires members.Members?
    ensures PrintMembers(members, first, 1)
         == KeyText(first, members.key, 1) + Print(members.value, 1) + PrintMembers(members.rest, false, 1)
    ensures members.rest.NoMembers? ==> PrintMembers(members.rest, false, 1) == []
  {
  }

  lemma RowsEmpty(e: Envelope, values: seq<seq<byte>>)
    ensures RowsFrom(e, values, 0).NoItems? <==> values == []
  {
  }

  /** Writes the strings in sorted order, numbered from zero. */
  method WriteStringTable(e: Envelope, table: seq<seq<byte>>) returns (bytes: seq<byte>)
    ensures bytes == Print(TableDocument(e, Sort(TextBefore, table)), 0) + [LF]
    ensures ReadValue(bytes) == Some((TableDocument(e, Sort(TextBefore, table)), [LF]))
  {
    hide *;
    var order := Sort(TextBefore, table);
    var json := new JsonWriter();
    SortKeepsCount(table);
    BeginTable(json, e, |table|);
    ghost var opening := json.sink;
    NoRows(e, order);
    for index := 0 to |order|
      invariant json.depth == 2 && json.emptyContainer == (index == 0)
      invariant json.sink == opening + RowsText(e, order, index)
    {
      WriteRow(json, e, index, order[index], index == 0);
      RowsNext(e, order, index);
      Assoc(opening, RowsText(e, order, index) + ElementText(index == 0, 2), Print(Row(e, index, order[index]), 2));
      Assoc(opening, RowsText(e, order, index), ElementText(index == 0, 2));
    }
    json.CloseArray();
    json.CloseObject();
    RowsPrinted(e, order, |order|);
    NoRowsLeft(e, order);
    DocumentPrinted(e, order);
    bytes := json.sink + [LF];
    EndOfText();
    ValueReads(TableDocument(e, order), 0, [LF]);
  }

  lemma SortKeepsCount(table: seq<seq<byte>>)
    ensures |Sort(TextBefore, table)| == |table|
  {
  }

  lemma EndOfText()
    ensures Follows([LF])
  {
  }

  lemma NoRows(e: Envelope, values: seq<seq<byte>>)
    ensures RowsText(e, values, 0) == []
  {
  }

  lemma RowsNext(e: Envelope, values: seq<seq<byte>>, k: nat)
    requires k < |values|
    ensures RowsText(e, values, k + 1)
         == RowsText(e, values, k) + ElementText(k == 0, 2) + Print(Row(e, k, values[k]), 2)
  {
    hide Print, ElementText, Row;
  }

  lemma NoRowsLeft(e: Envelope, values: seq<seq<byte>>)
    ensures PrintItems(RowsFrom(e, values, |values|), |values| == 0, 2) == []
  {
  }

  // ---------------------------------------------------------------- indices resolve in the file

  function ItemAt(items: Items, k: nat): Option<Json> {
    match items
    case NoItems => None
    case Items(head, tail) => if k == 0 then Some(head) else ItemAt(tail, k - 1)
  }

  lemma {:induction false} RowAt(e: Envelope, values: seq<seq<byte>>, from: nat, k: nat)
    requires from <= k < |values|
    ensures ItemAt(RowsFrom(e, values, from), k - from) == Some(Row(e, k, values[k]))
    decreases k - from
  {
    hide Row;
    if from < k {
      RowAt(e, values, from + 1, k);
    }
  }

  /** The rows of a table document. */
  function RowsOf(document: Json): Items {
    if document.Object? && document.members.Members? && document.members.rest.Members?
       && document.members.rest.rest.Members? && document.members.rest.rest.rest.Members?
       && document.members.rest.rest.rest.rest.Members? && document.members.rest.rest.rest.rest.value.Array? then
      document.members.rest.rest.rest.rest.value.items
    else NoItems
  }

  /** A spilled index, remapped, finds its own string in the table file. */
  lemma IndexResolves(e: Envelope, table: seq<seq<byte>>, remap: seq<u32>, i: nat, bytes: seq<byte>)
    requires IsRemap(table, remap) && |table| < LIMIT32 && i < |table|
    requires ReadValue(bytes) == Some((TableDocument(e, Sort(TextBefore, table)), [LF]))
    ensures i < |remap| && ItemAt(RowsOf(ReadValue(bytes).value.0), remap[i]) == Some(Row(e, remap[i], table[i]))
  {
    hide Sort, TextBefore, IsRemap, ReadValue, Row;
    RemapResolves(table, remap, i);
    RowAt(e, Sort(TextBefore, table), 0, remap[i]);
  }
}
