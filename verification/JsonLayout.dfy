/** What the printed documents look like, character by character. */
module JsonLayout {
  import opened Words
  import opened Text
  import opened JsonText
  import opened TraceTables

  /** Two spaces for each level. */
  lemma {:induction false} IndentWidth(depth: nat)
    ensures |Indent(depth)| == 2 * depth && forall k | 0 <= k < |Indent(depth)| :: Indent(depth)[k] == ' ' as int
  {
    if depth > 0 {
      IndentWidth(depth - 1);
    }
  }

  /** A byte that must not stand in a string: a quote, a backslash or a control character. */
  predicate MustEscape(b: byte) {
    b == '"' as int || b == '\\' as int || b < 0x20
  }

  /** Two hexadecimal digits for the byte. */
  ghost predicate IsHexPair(text: seq<byte>, b: byte) {
    |text| == 2 && IsNumeral(text) && NumeralValue(text, 16) == b
  }

  /** What an escape looks like. */
  ghost predicate IsEscape(e: seq<byte>, b: byte) {
    if b == '"' as int then e == Ascii("\\\"")
    else if b == '\\' as int then e == Ascii("\\\\")
    else if b == '\n' as int then e == Ascii("\\n")
    else if b == '\t' as int then e == Ascii("\\t")
    else |e| == 6 && e[..4] == Ascii("\\u00") && IsHexPair(e[4..], b)
  }

  lemma HexPairIs(b: byte)
    ensures IsHexPair([HexDigit(b / 16), HexDigit(b % 16)], b)
  {
    var text := [HexDigit(b / 16), HexDigit(b % 16)];
    assert text[..1] == [HexDigit(b / 16)] && text[..1][..0] == [];
    assert NumeralValue(text[..1], 16) == b / 16;
  }

  /** Exactly the bytes that must be escaped are, each in its form. */
  lemma EscapedExactly(b: byte)
    ensures MustEscape(b) ==> IsEscape(EscapedByte(b), b)
    ensures !MustEscape(b) ==> EscapedByte(b) == [b]
  {
    HexPairIs(b);
    hide IsHexPair, NumeralValue, HexDigit;
    if b < 0x20 && b != 10 && b != 9 {
      assert EscapedByte(b)[4..] == [HexDigit(b / 16), HexDigit(b % 16)];
    }
  }

  // ---------------------------------------------------------------- a document

  /** A line feed and two spaces for each level, with a comma before it unless it is the first. */
  lemma LinesLook()
    ensures NewLine(0) == [10] && NewLine(1) == [10, 32, 32]
    ensures ElementText(true, 2) == [10, 32, 32, 32, 32] && ElementText(false, 2) == [44, 10, 32, 32, 32, 32]
  {
    assert Indent(0) == [] && Indent(1) == [SPACE, SPACE] && Indent(2) == [SPACE, SPACE, SPACE, SPACE];
  }

  /** The key in quotes, a colon and a space. */
  lemma KeysLook()
    ensures KeyText(true, [97], 1) == [10, 32, 32, 34, 97, 34, 58, 32]
    ensures KeyText(false, [98], 1) == [44, 10, 32, 32, 34, 98, 34, 58, 32]
  {
    LinesLook();
    assert Escaped([97]) == [97] && Escaped([98]) == [98];
    hide Escaped, NewLine;
  }

  const INNER: Json := Array(Items(Truth(true), Items(NullValue, NoItems)))

  const SAMPLE: Json := Object(Members([97], INNER, Members([98], Object(NoMembers), NoMembers)))

  /** `[`, two elements on lines of their own, and `]` on the line after them. */
  const INNER_TEXT: seq<byte> :=
    [91, 10, 32, 32, 32, 32, 116, 114, 117, 101, 44, 10, 32, 32, 32, 32, 110, 117, 108, 108, 10, 32, 32, 93]

  lemma InnerLooks()
    ensures Print(INNER, 1) == INNER_TEXT
  {
    LinesLook();
    hide ElementText, NewLine;
    assert PrintItems(NoItems, false, 2) == [];
    assert PrintItems(Items(NullValue, NoItems), false, 2) == [44, 10, 32, 32, 32, 32, 110, 117, 108, 108];
    assert Print(Truth(true), 2) == [116, 114, 117, 101];
  }

  /** `{`, the two members on lines of their own, the second one empty, and `}` on the line after them. */
  lemma SampleLooks()
    ensures Print(SAMPLE, 0)
         == [123, 10, 32, 32, 34, 97, 34, 58, 32] + INNER_TEXT
            + [44, 10, 32, 32, 34, 98, 34, 58, 32, 123, 125, 10, 125]
  {
    InnerLooks();
    LinesLook();
    KeysLook();
    assert Print(Object(NoMembers), 1) == [123, 125];
    hide KeyText, NewLine, INNER_TEXT;
    assert PrintMembers(NoMembers, false, 1) == [];
    assert PrintMembers(Members([98], Object(NoMembers), NoMembers), false, 1)
        == [44, 10, 32, 32, 34, 98, 34, 58, 32, 123, 125];
  }

  // ---------------------------------------------------------------- the string tables

  function Names(members: Members): seq<seq<byte>> {
    match members
    case NoMembers => []
    case Members(key, _, rest) => [key] + Names(rest)
  }

  function Values(members: Members): seq<Json> {
    match members
    case NoMembers => []
    case Members(_, value, rest) => [value] + Values(rest)
  }

  predicate IsSpelled(bytes: seq<byte>, text: string) {
    |bytes| == |text| && SpelledAt(bytes, 0, text)
  }

  /** A row: its number, and the string under the table's own key. */
  predicate IsTableRow(row: Json, e: Envelope, id: nat, text: seq<byte>) {
    && row.Object? && |Names(row.members)| == 2
    && IsSpelled(Names(row.members)[0], "id") && Names(row.members)[1] == e.valueKey
    && Values(row.members) == [Number(id), String(text)]
  }

  /** A table: what it is, who wrote it, how many strings it has, and a row for each of them. */
  predicate IsTable(document: Json, e: Envelope, count: nat, rows: Items) {
    && document.Object?
    && var names := Names(document.members);
       && |names| == 5 && IsSpelled(names[0], "format") && IsSpelled(names[1], "schema_version")
       && IsSpelled(names[2], "tool_version") && IsSpelled(names[3], "count") && names[4] == e.tableKey
       && Values(document.members)
          == [String(e.format), Number(e.schemaVersion), String(e.toolVersion), Number(count), Array(rows)]
  }

  lemma AsciiSpells(s: string)
    requires forall k | 0 <= k < |s| :: s[k] as int < 256
    ensures IsSpelled(Ascii(s), s)
  {
  }

  lemma {:induction false} RowsExactly(e: Envelope, values: seq<seq<byte>>, from: nat, k: nat)
    requires from + k < |values|
    ensures var row := ItemAt(RowsFrom(e, values, from), k);
            row.Some? && IsTableRow(row.value, e, from + k, values[from + k])
    decreases k
  {
    if k == 0 {
      AsciiSpells("id");
      hide Ascii, IsSpelled;
      RowLooks(e, from, values[from]);
    } else {
      RowsExactly(e, values, from + 1, k - 1);
    }
  }

  lemma RowLooks(e: Envelope, id: nat, text: seq<byte>)
    requires IsSpelled(Ascii("id"), "id")
    ensures IsTableRow(Row(e, id, text), e, id, text)
  {
    hide Ascii, IsSpelled;
    var members := Row(e, id, text).members;
    assert Names(members.rest) == [e.valueKey] && Values(members.rest) == [String(text)];
  }

  lemma FiveMembers(m: Members)
    requires m.Members? && m.rest.Members? && m.rest.rest.Members? && m.rest.rest.rest.Members?
    ensures var four := m.rest.rest.rest;
            && Names(m) == [m.key, m.rest.key, m.rest.rest.key, four.key] + Names(four.rest)
            && Values(m) == [m.value, m.rest.value, m.rest.rest.value, four.value] + Values(four.rest)
  {
    var four := m.rest.rest.rest;
    assert Names(four) == [four.key] + Names(four.rest) && Values(four) == [four.value] + Values(four.rest);
    assert Names(m.rest.rest) == [m.rest.rest.key] + Names(four);
    assert Values(m.rest.rest) == [m.rest.rest.value] + Values(four);
  }

  /** The document of a table is such a table, with a row for each string in its place. */
  lemma TableExactly(e: Envelope, values: seq<seq<byte>>)
    ensures IsTable(TableDocument(e, values), e, |values|, RowsFrom(e, values, 0))
    ensures forall k | 0 <= k < |values| ::
              var row := ItemAt(RowsFrom(e, values, 0), k); row.Some? && IsTableRow(row.value, e, k, values[k])
  {
    AsciiSpells("format");
    AsciiSpells("schema_version");
    AsciiSpells("tool_version");
    AsciiSpells("count");
    hide Ascii, IsSpelled, IsTableRow;
    var members := TableDocument(e, values).members;
    var last := members.rest.rest.rest.rest;
    assert Names(last) == [e.tableKey] && Values(last) == [Array(RowsFrom(e, values, 0))];
    FiveMembers(members);
    forall k | 0 <= k < |values|
      ensures ItemAt(RowsFrom(e, values, 0), k).Some?
      ensures IsTableRow(ItemAt(RowsFrom(e, values, 0), k).value, e, k, values[k])
    {
      RowsExactly(e, values, 0, k);
    }
  }
}
