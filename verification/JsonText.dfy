/**
 * The canonical JSON text: how a value is laid out, and a reader that gets every value back. Strings are
 * unescaped by section 7 of RFC 8259.
 */
module JsonText {
  import opened Words
  import opened Text

  datatype Json =
    | Object(members: Members)
    | Array(items: Items)
    | String(text: seq<byte>)
    | Number(n: nat)
    | Truth(b: bool)
    | NullValue

  datatype Members = NoMembers | Members(key: seq<byte>, value: Json, rest: Members)

  datatype Items = NoItems | Items(head: Json, tail: Items)

  const QUOTE: byte := 34
  const COMMA: byte := 44
  const COLON: byte := 58
  const BACKSLASH: byte := 92
  const SPACE: byte := 32
  const LF: byte := 10
  const OPEN_ARRAY: byte := 91
  const CLOSE_ARRAY: byte := 93
  const OPEN_OBJECT: byte := 123
  const CLOSE_OBJECT: byte := 125

  const TRUE_TEXT: seq<byte> := [116, 114, 117, 101]
  const FALSE_TEXT: seq<byte> := [102, 97, 108, 115, 101]
  const NULL_TEXT: seq<byte> := [110, 117, 108, 108]

  // ---------------------------------------------------------------- strings

  /** Quotes, backslashes, line feeds and tabs get short escapes; other control bytes get `\u00XX`. */
  function EscapedByte(b: byte): (e: seq<byte>)
    ensures e != []
  {
    if b == QUOTE then [BACKSLASH, QUOTE]
    else if b == BACKSLASH then [BACKSLASH, BACKSLASH]
    else if b == LF then [BACKSLASH, 110]
    else if b == 9 then [BACKSLASH, 116]
    else if b < 32 then [BACKSLASH, 117, 48, 48, HexDigit(b / 16), HexDigit(b % 16)]
    else [b]
  }

  function Escaped(text: seq<byte>): seq<byte> {
    if text == [] then [] else EscapedByte(text[0]) + Escaped(text[1..])
  }

  function HexValue(b: byte): Option<nat> {
    if 48 <= b < 58 then Some(b - 48)
    else if 97 <= b < 103 then Some(b - 87)
    else if 65 <= b < 71 then Some(b - 55)
    else None
  }

  /** The UTF-8 bytes of a code point outside the surrogate range. */
  function Utf8Bytes(c: nat): seq<byte>
    requires c < 0x1_0000
  {
    if c < 0x80 then [c]
    else if c < 0x800 then [0xC0 + c / 64, 0x80 + c % 64]
    else [0xE0 + c / 4096, 0x80 + c / 64 % 64, 0x80 + c % 64]
  }

  /** What follows a backslash: the bytes it stands for, and how long it is. Surrogates are not read. */
  function ReadEscape(s: seq<byte>): (r: Option<(seq<byte>, nat)>)
    ensures r.Some? ==> 0 < r.value.1 <= |s|
  {
    if s == [] then None
    else if s[0] == QUOTE || s[0] == BACKSLASH || s[0] == 47 then Some(([s[0]], 1))
    else if s[0] == 98 then Some(([8], 1))
    else if s[0] == 102 then Some(([12], 1))
    else if s[0] == 110 then Some(([LF], 1))
    else if s[0] == 114 then Some(([13], 1))
    else if s[0] == 116 then Some(([9], 1))
    else if s[0] == 117 && |s| >= 5 && HexValue(s[1]).Some? && HexValue(s[2]).Some? && HexValue(s[3]).Some?
            && HexValue(s[4]).Some? then
      var c := HexValue(s[1]).value * 4096 + HexValue(s[2]).value * 256 + HexValue(s[3]).value * 16
          + HexValue(s[4]).value;
      if 0xD800 <= c < 0xE000 || c >= 0x1_0000 then None else Some((Utf8Bytes(c), 5))
    else None
  }

  /** The rest of a string after its opening quote: its bytes, and what follows the closing quote. */
  function ReadString(s: seq<byte>): (r: Option<(seq<byte>, seq<byte>)>)
    ensures r.Some? ==> |r.value.1| < |s|
    decreases |s|
  {
    if s == [] || s[0] < 32 then None
    else if s[0] == QUOTE then Some(([], s[1..]))
    else if s[0] == BACKSLASH then
      var escape := ReadEscape(s[1..]);
      if escape.None? then None
      else
        var r := ReadString(s[1 + escape.value.1..]);
        if r.None? then None else Some((escape.value.0 + r.value.0, r.value.1))
    else
      var r := ReadString(s[1..]);
      if r.None? then None else Some(([s[0]] + r.value.0, r.value.1))
  }

  lemma HexDigitReads(n: nat)
    requires n < 16
    ensures HexValue(HexDigit(n)) == Some(n)
  {
  }

  /** An escaped byte is read back, whatever follows. */
  lemma EscapeReads(b: byte, rest: seq<byte>)
    ensures var s := EscapedByte(b) + rest;
            s[0] >= 32 && s[0] != QUOTE
            && if s[0] == BACKSLASH then ReadEscape(s[1..]) == Some(([b], |EscapedByte(b)| - 1))
              else EscapedByte(b) == [b]
  {
    var e := EscapedByte(b);
    var s := e + rest;
    assert s[1..] == e[1..] + rest;
    if b < 32 && b != LF && b != 9 {
      HexDigitReads(b / 16);
      HexDigitReads(b % 16);
      var t := s[1..];
      assert t[0] == 117 && t[1] == 48 && t[2] == 48 && t[3] == HexDigit(b / 16) && t[4] == HexDigit(b % 16);
      assert b / 16 * 16 + b % 16 == b;
    }
  }

  /** A string is read back exactly, up to its closing quote. */
  lemma {:induction false} StringReads(text: seq<byte>, rest: seq<byte>)
    ensures ReadString(Escaped(text) + [QUOTE] + rest) == Some((text, rest))
    decreases |text|
  {
    hide EscapedByte, ReadEscape;
    if text == [] {
      assert ([QUOTE] + rest)[1..] == rest;
      assert Escaped(text) + [QUOTE] + rest == [QUOTE] + rest;
    } else {
      StringReads(text[1..], rest);
      var e := EscapedByte(text[0]);
      var more := Escaped(text[1..]) + [QUOTE] + rest;
      EscapeReads(text[0], more);
      assert Escaped(text) + [QUOTE] + rest == e + more;
      assert (e + more)[|e|..] == more;
      assert text == [text[0]] + text[1..];
    }
  }

  // ---------------------------------------------------------------- numbers

  predicate IsDigit(b: byte) {
    48 <= b < 58
  }

  function ReadDigits(s: seq<byte>, so: nat): (r: (nat, seq<byte>))
    ensures |r.1| <= |s|
    decreases |s|
  {
    if s == [] || !IsDigit(s[0]) then (so, s) else ReadDigits(s[1..], so * 10 + (s[0] - 48))
  }

  lemma {:induction false} DigitsRead(n: nat, rest: seq<byte>)
    ensures ReadDigits(Decimal(n) + rest, 0) == ReadDigits(rest, n)
    decreases n
  {
    if n < 10 {
      assert (Decimal(n) + rest)[1..] == rest;
    } else {
      var last: seq<byte> := [48 + n % 10];
      DigitsRead(n / 10, last + rest);
      assert Decimal(n) + rest == Decimal(n / 10) + (last + rest);
      assert (last + rest)[1..] == rest;
      assert n / 10 * 10 + n % 10 == n;
    }
  }

  lemma DecimalStarts(n: nat)
    ensures IsDigit(Decimal(n)[0])
  {
  }

  // ---------------------------------------------------------------- layout

  function Indent(depth: nat): (s: seq<byte>)
    ensures forall k | 0 <= k < |s| :: s[k] == SPACE
  {
    if depth == 0 then [] else Indent(depth - 1) + [SPACE, SPACE]
  }

  function NewLine(depth: nat): seq<byte> {
    [LF] + Indent(depth)
  }

  function KeyText(first: bool, key: seq<byte>, depth: nat): seq<byte> {
    (if first then [] else [COMMA]) + NewLine(depth) + [QUOTE] + Escaped(key) + [QUOTE, COLON, SPACE]
  }

  function ElementText(first: bool, depth: nat): seq<byte> {
    (if first then [] else [COMMA]) + NewLine(depth)
  }

  /** The canonical text of a value at a nesting depth. */
  function Print(v: Json, depth: nat): seq<byte> {
    match v
    case Object(members) =>
      [OPEN_OBJECT] + PrintMembers(members, true, depth + 1)
      + (if members.NoMembers? then [] else NewLine(depth)) + [CLOSE_OBJECT]
    case Array(items) =>
      [OPEN_ARRAY] + PrintItems(items, true, depth + 1)
      + (if items.NoItems? then [] else NewLine(depth)) + [CLOSE_ARRAY]
    case String(text) => [QUOTE] + Escaped(text) + [QUOTE]
    case Number(n) => Decimal(n)
    case Truth(b) => if b then TRUE_TEXT else FALSE_TEXT
    case NullValue => NULL_TEXT
  }

  function PrintMembers(members: Members, first: bool, depth: nat): seq<byte> {
    match members
    case NoMembers => []
    case Members(key, value, rest) =>
      KeyText(first, key, depth) + Print(value, depth) + PrintMembers(rest, false, depth)
  }

  function PrintItems(items: Items, first: bool, depth: nat): seq<byte> {
    match items
    case NoItems => []
    case Items(head, tail) => ElementText(first, depth) + Print(head, depth) + PrintItems(tail, false, depth)
  }

  // ---------------------------------------------------------------- the reader

  predicate IsSpace(b: byte) {
    b == SPACE || b == LF || b == 9 || b == 13
  }

  function SkipSpace(s: seq<byte>): (r: seq<byte>)
    ensures |r| <= |s| && (r != [] ==> !IsSpace(r[0]))
  {
    if s != [] && IsSpace(s[0]) then SkipSpace(s[1..]) else s
  }

  function ReadValue(s: seq<byte>): (r: Option<(Json, seq<byte>)>)
    ensures r.Some? ==> |r.value.1| < |s|
    decreases |s|, 1
  {
    var t := SkipSpace(s);
    if t == [] then None
    else if t[0] == OPEN_OBJECT then
      var u := SkipSpace(t[1..]);
      if u != [] && u[0] == CLOSE_OBJECT then Some((Object(NoMembers), u[1..]))
      else
        var r := ReadMembers(u);
        if r.None? then None else Some((Object(r.value.0), r.value.1))
    else if t[0] == OPEN_ARRAY then
      var u := SkipSpace(t[1..]);
      if u != [] && u[0] == CLOSE_ARRAY then Some((Array(NoItems), u[1..]))
      else
        var r := ReadItems(u);
        if r.None? then None else Some((Array(r.value.0), r.value.1))
    else if t[0] == QUOTE then
      var r := ReadString(t[1..]);
      if r.None? then None else Some((String(r.value.0), r.value.1))
    else if IsDigit(t[0]) then
      var r := ReadDigits(t[1..], t[0] - 48);
      Some((Number(r.0), r.1))
    else if TRUE_TEXT <= t then Some((Truth(true), t[4..]))
    else if FALSE_TEXT <= t then Some((Truth(false), t[5..]))
    else if NULL_TEXT <= t then Some((NullValue, t[4..]))
    else None
  }

  /** Members up to the closing brace. */
  function ReadMembers(s: seq<byte>): (r: Option<(Members, seq<byte>)>)
    ensures r.Some? ==> |r.value.1| < |s|
    decreases |s|, 2
  {
    var t := SkipSpace(s);
    if t == [] || t[0] != QUOTE then None
    else
      var key := ReadString(t[1..]);
      if key.None? then None
      else
        var c := SkipSpace(key.value.1);
        if c == [] || c[0] != COLON then None
        else
          var value := ReadValue(c[1..]);
          if value.None? then None
          else
            var e := SkipSpace(value.value.1);
            if e == [] then None
            else if e[0] == CLOSE_OBJECT then Some((Members(key.value.0, value.value.0, NoMembers), e[1..]))
            else if e[0] == COMMA then
              var rest := ReadMembers(e[1..]);
              if rest.None? then None
              else Some((Members(key.value.0, value.value.0, rest.value.0), rest.value.1))
            else None
  }

  function ReadItems(s: seq<byte>): (r: Option<(Items, seq<byte>)>)
    ensures r.Some? ==> |r.value.1| < |s|
    decreases |s|, 2
  {
    var value := ReadValue(s);
    if value.None? then None
    else
      var e := SkipSpace(value.value.1);
      if e == [] then None
      else if e[0] == CLOSE_ARRAY then Some((Items(value.value.0, NoItems), e[1..]))
      else if e[0] == COMMA then
        var rest := ReadItems(e[1..]);
        if rest.None? then None else Some((Items(value.value.0, rest.value.0), rest.value.1))
      else None
  }

  // ---------------------------------------------------------------- every value is read back

  lemma {:induction false} IndentSkips(depth: nat, rest: seq<byte>)
    ensures SkipSpace(Indent(depth) + rest) == SkipSpace(rest)
  {
    if depth == 0 {
      assert Indent(depth) + rest == rest;
    } else {
      var two: seq<byte> := [SPACE, SPACE];
      IndentSkips(depth - 1, two + rest);
      assert Indent(depth) + rest == Indent(depth - 1) + (two + rest);
      assert (two + rest)[1..][1..] == rest;
    }
  }

  lemma NewLineSkips(depth: nat, rest: seq<byte>)
    ensures SkipSpace(NewLine(depth) + rest) == SkipSpace(rest)
  {
    IndentSkips(depth, rest);
    assert NewLine(depth) + rest == [LF] + (Indent(depth) + rest);
    assert ([LF] + (Indent(depth) + rest))[1..] == Indent(depth) + rest;
  }

  /** What may follow a value: a comma, a line feed, a closing bracket, or nothing. */
  predicate Follows(rest: seq<byte>) {
    rest == [] || rest[0] == COMMA || rest[0] == LF || rest[0] == CLOSE_ARRAY || rest[0] == CLOSE_OBJECT
  }

  /** A member without the separator before it, and the members after it. */
  function MemberBody(members: Members, depth: nat): (s: seq<byte>)
    requires members.Members?
    ensures s != [] && s[0] == QUOTE
  {
    [QUOTE] + (Escaped(members.key) + [QUOTE] + ([COLON, SPACE] + (Print(members.value, depth)
    + PrintMembers(members.rest, false, depth))))
  }

  function ItemBody(items: Items, depth: nat): seq<byte>
    requires items.Items?
  {
    Print(items.head, depth) + PrintItems(items.tail, false, depth)
  }

  lemma MembersText(members: Members, first: bool, depth: nat)
    requires members.Members?
    ensures PrintMembers(members, first, depth)
         == (if first then [] else [COMMA]) + (NewLine(depth) + MemberBody(members, depth))
  {
    MembersUnfold(members, first, depth);
    hide *;
    Regroup(if first then [] else [COMMA], NewLine(depth), Escaped(members.key), Print(members.value, depth),
            PrintMembers(members.rest, false, depth));
  }

  lemma MembersUnfold(members: Members, first: bool, depth: nat)
    requires members.Members?
    ensures PrintMembers(members, first, depth)
         == (if first then [] else [COMMA]) + NewLine(depth) + [QUOTE] + Escaped(members.key) + [QUOTE, COLON, SPACE]
            + Print(members.value, depth) + PrintMembers(members.rest, false, depth)
    ensures MemberBody(members, depth)
         == [QUOTE] + (Escaped(members.key) + [QUOTE] + ([COLON, SPACE] + (Print(members.value, depth)
            + PrintMembers(members.rest, false, depth))))
  {
    hide NewLine, Escaped, Print;
  }

  lemma Regroup(comma: seq<byte>, line: seq<byte>, key: seq<byte>, value: seq<byte>, rest: seq<byte>)
    ensures comma + line + [QUOTE] + key + [QUOTE, COLON, SPACE] + value + rest
         == comma + (line + ([QUOTE] + (key + [QUOTE] + ([COLON, SPACE] + (value + rest)))))
  {
    assert [QUOTE, COLON, SPACE] == [QUOTE] + [COLON, SPACE];
  }

  lemma ItemsText(items: Items, first: bool, depth: nat)
    requires items.Items?
    ensures PrintItems(items, first, depth)
         == (if first then [] else [COMMA]) + (NewLine(depth) + ItemBody(items, depth))
  {
    hide NewLine, Print;
    var head: seq<byte> := if first then [] else [COMMA];
    var value, others := Print(items.head, depth), PrintItems(items.tail, false, depth);
    assert PrintItems(items, first, depth) == head + NewLine(depth) + value + others;
    hide PrintItems;
    RegroupItem(head, NewLine(depth), value, others);
  }

  lemma RegroupItem(comma: seq<byte>, line: seq<byte>, value: seq<byte>, rest: seq<byte>)
    ensures comma + line + value + rest == comma + (line + (value + rest))
  {
  }

  lemma PrintStarts(v: Json, depth: nat)
    ensures Print(v, depth) != [] && !IsSpace(Print(v, depth)[0]) && Print(v, depth)[0] != CLOSE_ARRAY
    ensures Print(v, depth)[0] == OPEN_OBJECT <==> v.Object?
    ensures Print(v, depth)[0] == OPEN_ARRAY <==> v.Array?
    ensures Print(v, depth)[0] == QUOTE <==> v.String?
    ensures IsDigit(Print(v, depth)[0]) <==> v.Number?
  {
    hide NewLine, Escaped, Decimal;
    match v
    case Number(n) => DecimalStarts(n);
    case _ =>
  }

  /** The end of an object or array, and what follows it. */
  function Closing(depth: nat, bracket: byte, rest: seq<byte>): (s: seq<byte>)
    ensures s != [] && s[0] == LF
  {
    NewLine(depth) + ([bracket] + rest)
  }

  lemma ClosingSkips(depth: nat, bracket: byte, rest: seq<byte>)
    requires bracket == CLOSE_OBJECT || bracket == CLOSE_ARRAY
    ensures SkipSpace(Closing(depth, bracket, rest)) == [bracket] + rest
  {
    NewLineSkips(depth, [bracket] + rest);
  }

  lemma ReadMembersOf(s: seq<byte>, key: seq<byte>, value: Json, after: seq<byte>, more: seq<byte>)
    requires SkipSpace(s) == [QUOTE] + (Escaped(key) + [QUOTE] + ([COLON, SPACE] + more))
    requires ReadValue(more) == Some((value, after)) && more != [] && !IsSpace(more[0])
    ensures ReadMembers(s)
         == var e := SkipSpace(after);
            if e == [] then None
            else if e[0] == CLOSE_OBJECT then Some((Members(key, value, NoMembers), e[1..]))
            else if e[0] == COMMA then
              var rest := ReadMembers(e[1..]);
              if rest.None? then None else Some((Members(key, value, rest.value.0), rest.value.1))
            else None
  {
    ColonSkips(more);
    hide Escaped, ReadString, SkipSpace, ReadValue;
    var t := SkipSpace(s);
    var c: seq<byte> := [COLON, SPACE] + more;
    assert t[1..] == Escaped(key) + [QUOTE] + c;
    StringReads(key, c);
    SameValue([SPACE] + more, more);
  }

  lemma ColonSkips(more: seq<byte>)
    requires more != [] && !IsSpace(more[0])
    ensures var c := [COLON, SPACE] + more;
            && SkipSpace(c) == c && c[0] == COLON && c[1..] == [SPACE] + more
            && SkipSpace([SPACE] + more) == SkipSpace(more) == more
  {
    assert ([SPACE] + more)[1..] == more;
  }

  /** Reading a value skips the space before it. */
  lemma SameValue(s: seq<byte>, t: seq<byte>)
    requires SkipSpace(s) == SkipSpace(t)
    ensures ReadValue(s) == ReadValue(t)
  {
    hide ReadMembers, ReadItems, ReadString, ReadDigits;
  }

  /** The members of a printed object are read back, up to the closing brace. */
  lemma {:induction false} MembersRead(members: Members, depth: nat, outer: nat, rest: seq<byte>, s: seq<byte>)
    requires members.Members?
    requires SkipSpace(s) == MemberBody(members, depth) + Closing(outer, CLOSE_OBJECT, rest)
    ensures ReadMembers(s) == Some((members, rest))
    decreases members, 1
  {
    hide *;
    var Members(key, value, others) := members;
    var closing := Closing(outer, CLOSE_OBJECT, rest);
    var after := PrintMembers(others, false, depth) + closing;
    MemberLayout(members, depth, closing);
    AfterMember(others, depth, outer, rest);
    ValueReads(value, depth, after);
    PrintStarts(value, depth);
    ReadMembersOf(s, key, value, after, Print(value, depth) + after);
    if others.NoMembers? {
      ClosingSkips(outer, CLOSE_OBJECT, rest);
      NoMembersText(depth, closing);
      CloseIsNot();
    } else {
      var next := NewLine(depth) + (MemberBody(others, depth) + closing);
      MembersText(others, false, depth);
      assert after == [COMMA] + next;
      CommaStops(next);
      NewLineSkips(depth, MemberBody(others, depth) + closing);
      QuoteStops(MemberBody(others, depth) + closing);
      MembersRead(others, depth, outer, rest, next);
    }
  }

  lemma CloseIsNot()
    ensures CLOSE_OBJECT != COMMA && CLOSE_ARRAY != COMMA
  {
  }

  lemma NoMembersText(depth: nat, closing: seq<byte>)
    ensures PrintMembers(NoMembers, false, depth) + closing == closing
    ensures PrintItems(NoItems, false, depth) + closing == closing
  {
  }

  lemma CommaStops(next: seq<byte>)
    ensures SkipSpace([COMMA] + next) == [COMMA] + next && ([COMMA] + next)[1..] == next
    ensures COMMA != CLOSE_OBJECT && COMMA != CLOSE_ARRAY
  {
  }

  lemma QuoteStops(s: seq<byte>)
    requires s != [] && s[0] == QUOTE
    ensures SkipSpace(s) == s
  {
  }

  lemma MemberLayout(members: Members, depth: nat, closing: seq<byte>)
    requires members.Members?
    ensures MemberBody(members, depth) + closing
         == [QUOTE] + (Escaped(members.key) + [QUOTE] + ([COLON, SPACE] + (Print(members.value, depth)
            + (PrintMembers(members.rest, false, depth) + closing))))
  {
    hide Escaped, Print, PrintMembers;
    var e, value, others := Escaped(members.key), Print(members.value, depth), PrintMembers(members.rest, false, depth);
    assert value + others + closing == value + (others + closing);
  }

  lemma AfterMember(others: Members, depth: nat, outer: nat, rest: seq<byte>)
    ensures Follows(PrintMembers(others, false, depth) + Closing(outer, CLOSE_OBJECT, rest))
  {
    if others.Members? {
      MembersText(others, false, depth);
    }
  }

  lemma AfterItem(others: Items, depth: nat, outer: nat, rest: seq<byte>)
    ensures Follows(PrintItems(others, false, depth) + Closing(outer, CLOSE_ARRAY, rest))
  {
    if others.Items? {
      ItemsText(others, false, depth);
    }
  }

  lemma ReadItemsOf(s: seq<byte>, value: Json, after: seq<byte>, more: seq<byte>)
    requires SkipSpace(s) == SkipSpace(more) && ReadValue(more) == Some((value, after))
    ensures ReadItems(s)
         == var e := SkipSpace(after);
            if e == [] then None
            else if e[0] == CLOSE_ARRAY then Some((Items(value, NoItems), e[1..]))
            else if e[0] == COMMA then
              var rest := ReadItems(e[1..]);
              if rest.None? then None else Some((Items(value, rest.value.0), rest.value.1))
            else None
  {
    hide ReadValue;
    SameValue(s, more);
  }

  lemma {:induction false} ItemsRead(items: Items, depth: nat, outer: nat, rest: seq<byte>, s: seq<byte>)
    requires items.Items?
    requires SkipSpace(s) == SkipSpace(ItemBody(items, depth) + Closing(outer, CLOSE_ARRAY, rest))
    ensures ReadItems(s) == Some((items, rest))
    decreases items, 1
  {
    hide *;
    var Items(head, others) := items;
    var closing := Closing(outer, CLOSE_ARRAY, rest);
    var after := PrintItems(others, false, depth) + closing;
    ItemLayout(items, depth, closing);
    AfterItem(others, depth, outer, rest);
    ValueReads(head, depth, after);
    ReadItemsOf(s, head, after, Print(head, depth) + after);
    if others.NoItems? {
      ClosingSkips(outer, CLOSE_ARRAY, rest);
      NoMembersText(depth, closing);
      CloseIsNot();
    } else {
      var next := NewLine(depth) + (ItemBody(others, depth) + closing);
      ItemsText(others, false, depth);
      assert after == [COMMA] + next;
      CommaStops(next);
      NewLineSkips(depth, ItemBody(others, depth) + closing);
      ItemsRead(others, depth, outer, rest, next);
    }
  }

  lemma ItemLayout(items: Items, depth: nat, closing: seq<byte>)
    requires items.Items?
    ensures ItemBody(items, depth) + closing
         == Print(items.head, depth) + (PrintItems(items.tail, false, depth) + closing)
  {
    hide Print, PrintItems;
  }

  /** Every value is read back from its text. */
  lemma {:induction false} ValueReads(v: Json, depth: nat, rest: seq<byte>)
    requires Follows(rest)
    ensures ReadValue(Print(v, depth) + rest) == Some((v, rest))
    decreases v, 0
  {
    hide *;
    match v
    case Object(members) => ObjectReads(members, depth, rest);
    case Array(items) => ArrayReads(items, depth, rest);
    case String(text) => TextReads(text, depth, rest);
    case Number(n) => NumberReads(n, depth, rest);
    case Truth(b) => LiteralReads(v, depth, rest);
    case NullValue => LiteralReads(v, depth, rest);
  }

  lemma TextReads(text: seq<byte>, depth: nat, rest: seq<byte>)
    ensures ReadValue(Print(String(text), depth) + rest) == Some((String(text), rest))
  {
    hide Escaped, ReadString;
    StringReads(text, rest);
    var s := Print(String(text), depth) + rest;
    assert SkipSpace(s) == s;
    assert s[1..] == Escaped(text) + [QUOTE] + rest;
  }

  lemma NumberReads(n: nat, depth: nat, rest: seq<byte>)
    requires Follows(rest)
    ensures ReadValue(Print(Number(n), depth) + rest) == Some((Number(n), rest))
  {
    hide Decimal;
    DecimalStarts(n);
    DigitsRead(n, rest);
    var s := Decimal(n) + rest;
    assert SkipSpace(s) == s;
    assert ReadDigits(s, 0) == ReadDigits(s[1..], s[0] - 48);
    assert ReadDigits(rest, n) == (n, rest);
  }

  lemma LiteralReads(v: Json, depth: nat, rest: seq<byte>)
    requires v.Truth? || v.NullValue?
    ensures ReadValue(Print(v, depth) + rest) == Some((v, rest))
  {
    var s := Print(v, depth) + rest;
    assert SkipSpace(s) == s;
    assert s[..|Print(v, depth)|] == Print(v, depth) && s[|Print(v, depth)|..] == rest;
  }

  lemma {:induction false} ObjectReads(members: Members, depth: nat, rest: seq<byte>)
    ensures ReadValue(Print(Object(members), depth) + rest) == Some((Object(members), rest))
    decreases members, 2
  {
    if members.NoMembers? {
      var s := Print(Object(members), depth) + rest;
      assert PrintMembers(members, true, depth + 1) == [];
      assert s == [OPEN_OBJECT, CLOSE_OBJECT] + rest;
      assert SkipSpace(s) == s && s[1..] == [CLOSE_OBJECT] + rest && s[1..][1..] == rest;
      assert SkipSpace(s[1..]) == s[1..];
    } else {
      var u := MemberBody(members, depth + 1) + Closing(depth, CLOSE_OBJECT, rest);
      ObjectLayout(members, depth, rest);
      NewLineSkips(depth + 1, u);
      QuoteStops(u);
      MembersRead(members, depth + 1, depth, rest, u);
      ReadObject([OPEN_OBJECT] + (NewLine(depth + 1) + u), NewLine(depth + 1) + u, u, members, rest);
    }
  }

  lemma ReadObject(s: seq<byte>, inside: seq<byte>, u: seq<byte>, members: Members, rest: seq<byte>)
    requires s == [OPEN_OBJECT] + inside && SkipSpace(inside) == u && u != [] && u[0] == QUOTE
    requires ReadMembers(u) == Some((members, rest))
    ensures ReadValue(s) == Some((Object(members), rest))
  {
    hide ReadMembers;
    assert SkipSpace(s) == s && s[1..] == inside;
  }

  lemma ObjectLayout(members: Members, depth: nat, rest: seq<byte>)
    requires members.Members?
    ensures Print(Object(members), depth) + rest
         == [OPEN_OBJECT] + (NewLine(depth + 1) + (MemberBody(members, depth + 1) + Closing(depth, CLOSE_OBJECT, rest)))
  {
    MembersText(members, true, depth + 1);
    hide PrintMembers, NewLine, MemberBody;
    Enclosed(OPEN_OBJECT, NewLine(depth + 1) + MemberBody(members, depth + 1), NewLine(depth), CLOSE_OBJECT, rest);
    assert [] + (NewLine(depth + 1) + MemberBody(members, depth + 1))
        == NewLine(depth + 1) + MemberBody(members, depth + 1);
  }

  lemma Enclosed(open: byte, body: seq<byte>, line: seq<byte>, close: byte, rest: seq<byte>)
    ensures [open] + body + line + [close] + rest == [open] + (body + (line + ([close] + rest)))
  {
  }

  lemma {:induction false} ArrayReads(items: Items, depth: nat, rest: seq<byte>)
    ensures ReadValue(Print(Array(items), depth) + rest) == Some((Array(items), rest))
    decreases items, 2
  {
    if items.NoItems? {
      var s := Print(Array(items), depth) + rest;
      assert PrintItems(items, true, depth + 1) == [];
      assert s == [OPEN_ARRAY, CLOSE_ARRAY] + rest;
      assert SkipSpace(s) == s && s[1..] == [CLOSE_ARRAY] + rest && s[1..][1..] == rest;
      assert SkipSpace(s[1..]) == s[1..];
    } else {
      var u := ItemBody(items, depth + 1) + Closing(depth, CLOSE_ARRAY, rest);
      ArrayLayout(items, depth, rest);
      NewLineSkips(depth + 1, u);
      ItemStops(items, depth + 1, Closing(depth, CLOSE_ARRAY, rest));
      ItemsRead(items, depth + 1, depth, rest, u);
      ReadArray([OPEN_ARRAY] + (NewLine(depth + 1) + u), NewLine(depth + 1) + u, u, items, rest);
    }
  }

  lemma ItemStops(items: Items, depth: nat, closing: seq<byte>)
    requires items.Items?
    ensures var u := ItemBody(items, depth) + closing; u != [] && SkipSpace(u) == u && u[0] != CLOSE_ARRAY
  {
    PrintStarts(items.head, depth);
  }

  lemma ReadArray(s: seq<byte>, inside: seq<byte>, u: seq<byte>, items: Items, rest: seq<byte>)
    requires s == [OPEN_ARRAY] + inside && SkipSpace(inside) == u && u != [] && u[0] != CLOSE_ARRAY
    requires ReadItems(u) == Some((items, rest))
    ensures ReadValue(s) == Some((Array(items), rest))
  {
    hide ReadItems;
    assert SkipSpace(s) == s && s[1..] == inside;
  }

  lemma ArrayLayout(items: Items, depth: nat, rest: seq<byte>)
    requires items.Items?
    ensures Print(Array(items), depth) + rest
         == [OPEN_ARRAY] + (NewLine(depth + 1) + (ItemBody(items, depth + 1) + Closing(depth, CLOSE_ARRAY, rest)))
  {
    ItemsText(items, true, depth + 1);
    hide PrintItems, NewLine, ItemBody;
    assert NewLine(depth) + [CLOSE_ARRAY] + rest == NewLine(depth) + ([CLOSE_ARRAY] + rest);
  }
}
