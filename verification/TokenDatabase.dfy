/**
 * The binary token database. Parsing accepts exactly the byte strings that serializing produces from an
 * encodable database, and returns that database.
 */
module TokenDatabase {
  import opened Words

  datatype Date = Date(year: u16, month: byte, day: byte)

  datatype Entry = Entry(token: u32, dateRemoved: Option<Date>, text: seq<byte>)

  datatype Database = Database(reserved: u32, entries: seq<Entry>)

  /** `TOKENS`, then two NULs. */
  const MAGIC: seq<byte> := [84, 79, 75, 69, 78, 83, 0, 0]

  const HEADER_LEN: nat := 16
  const ENTRY_LEN: nat := 8

  /** What the platform accepts as text. */
  type Utf8 = seq<byte> -> bool

  function DateBytes(date: Option<Date>): (bytes: seq<byte>)
    ensures |bytes| == 4
  {
    match date
    case None => [0xFF, 0xFF, 0xFF, 0xFF]
    case Some(d) => [d.day, d.month, d.year % 0x100, d.year / 0x100]
  }

  function ReadDate(day: byte, month: byte, low: byte, high: byte): Option<Date> {
    if day == 0xFF && month == 0xFF && low == 0xFF && high == 0xFF then None
    else Some(Date(low + high * 0x100, month, day))
  }

  function Row(e: Entry): (bytes: seq<byte>)
    ensures |bytes| == ENTRY_LEN
  {
    LittleEndian(e.token) + DateBytes(e.dateRemoved)
  }

  ghost function Table(entries: seq<Entry>): (bytes: seq<byte>)
    ensures |bytes| == ENTRY_LEN * |entries|
  {
    if entries == [] then [] else Table(entries[..|entries| - 1]) + Row(entries[|entries| - 1])
  }

  ghost function Texts(entries: seq<Entry>): seq<byte> {
    if entries == [] then [] else Texts(entries[..|entries| - 1]) + entries[|entries| - 1].text + [0]
  }

  ghost function Header(count: u32, reserved: u32): (bytes: seq<byte>)
    ensures |bytes| == HEADER_LEN
  {
    MAGIC + LittleEndian(count) + LittleEndian(reserved)
  }

  /** The file a database is written as; the count is cut to 32 bits. */
  ghost function Image(db: Database): seq<byte> {
    Header(|db.entries| % LIMIT32, db.reserved) + Table(db.entries) + Texts(db.entries)
  }

  ghost predicate EntryEncodable(utf8: Utf8, e: Entry) {
    0 !in e.text && utf8(e.text) && e.dateRemoved != Some(Date(0xFFFF, 0xFF, 0xFF))
  }

  /** The databases the format can hold. */
  ghost predicate Encodable(utf8: Utf8, db: Database) {
    |db.entries| < LIMIT32 && forall k | 0 <= k < |db.entries| :: EntryEncodable(utf8, db.entries[k])
  }

  // ---------------------------------------------------------------- writing

  /** Header, table and texts. */
  method Serialize(db: Database) returns (out: seq<byte>)
    ensures out == Image(db) && LaidOut(out, db)
  {
    var count: u32 := |db.entries| % LIMIT32;
    hide *;
    TableNext(db.entries, 0);
    out := MAGIC;
    out := out + LittleEndian(count);
    out := out + LittleEndian(db.reserved);
    ghost var header := out;
    HeaderIs(count, db.reserved);
    for k := 0 to |db.entries|
      invariant out == header + Table(db.entries[..k])
    {
      TableNext(db.entries, k + 1);
      out := out + Row(db.entries[k]);
      Regrouped(header, Table(db.entries[..k]), Row(db.entries[k]));
    }
    assert db.entries[..|db.entries|] == db.entries;
    ghost var table := out;
    TextsNext(db.entries, 0);
    for k := 0 to |db.entries|
      invariant out == table + Texts(db.entries[..k])
    {
      TextsNext(db.entries, k + 1);
      ghost var before := out;
      out := out + db.entries[k].text;
      out := out + [0];
      Regrouped(before, db.entries[k].text, [0]);
      Regrouped(table, Texts(db.entries[..k]), db.entries[k].text + [0]);
    }
    ImageIs(db, count);
    ImageLaidOut(db);
  }

  lemma Regrouped(a: seq<byte>, b: seq<byte>, c: seq<byte>)
    ensures a + b + c == a + (b + c)
  {
  }

  lemma HeaderIs(count: u32, reserved: u32)
    ensures Header(count, reserved) == MAGIC + LittleEndian(count) + LittleEndian(reserved)
  {
  }

  lemma TableNext(entries: seq<Entry>, k: nat)
    requires k <= |entries|
    ensures Table(entries[..k]) == if k == 0 then [] else Table(entries[..k - 1]) + Row(entries[k - 1])
  {
    hide Row;
    if k > 0 {
      assert entries[..k][..k - 1] == entries[..k - 1];
    }
  }

  lemma TextsNext(entries: seq<Entry>, k: nat)
    requires k <= |entries|
    ensures Texts(entries[..k]) == if k == 0 then [] else Texts(entries[..k - 1]) + (entries[k - 1].text + [0])
  {
    if k > 0 {
      assert entries[..k][..k - 1] == entries[..k - 1];
      Regrouped(Texts(entries[..k - 1]), entries[k - 1].text, [0]);
    }
  }

  lemma ImageIs(db: Database, count: u32)
    requires count == |db.entries| % 0x1_0000_0000
    ensures Image(db) == Header(count, db.reserved) + Table(db.entries) + Texts(db.entries)
  {
    hide Header, Table, Texts;
  }

  // ---------------------------------------------------------------- where things are in a file

  lemma DateReads(date: Option<Date>)
    requires date != Some(Date(0xFFFF, 0xFF, 0xFF))
    ensures var b := DateBytes(date); ReadDate(b[0], b[1], b[2], b[3]) == date
  {
  }

  lemma DateWrites(b0: byte, b1: byte, b2: byte, b3: byte)
    ensures DateBytes(ReadDate(b0, b1, b2, b3)) == [b0, b1, b2, b3]
    ensures ReadDate(b0, b1, b2, b3) != Some(Date(0xFFFF, 0xFF, 0xFF))
  {
  }

  lemma {:induction false} TableAt(entries: seq<Entry>, k: nat)
    requires k < |entries|
    ensures Table(entries)[ENTRY_LEN * k..ENTRY_LEN * (k + 1)] == Row(entries[k])
    decreases |entries|
  {
    hide Row;
    var n := |entries| - 1;
    if k < n {
      TableAt(entries[..n], k);
      assert Table(entries)[ENTRY_LEN * k..ENTRY_LEN * (k + 1)]
          == Table(entries[..n])[ENTRY_LEN * k..ENTRY_LEN * (k + 1)];
    }
  }

  lemma {:induction false} TextsSplit(entries: seq<Entry>, k: nat)
    requires k < |entries|
    ensures |Texts(entries[..k])| + |entries[k].text| + 1 <= |Texts(entries)|
    ensures Texts(entries[..k]) + entries[k].text + [0] == Texts(entries[..k + 1])
    ensures Texts(entries[..k + 1]) <= Texts(entries)
    decreases |entries|
  {
    var n := |entries| - 1;
    assert entries[..k + 1][..k] == entries[..k];
    if k < n {
      TextsSplit(entries[..n], k);
      assert entries[..n][..k + 1] == entries[..k + 1] && entries[..n][..k] == entries[..k];
    } else {
      assert entries[..k + 1] == entries;
    }
  }

  // ---------------------------------------------------------------- the layout, byte by byte

  /** Day, month, and the year low byte first; no date is four bytes of ones. */
  predicate DateAt(bytes: seq<byte>, at: nat, date: Option<Date>) {
    && at + 4 <= |bytes|
    && match date
       case None => forall k | at <= k < at + 4 :: bytes[k] == 0xFF
       case Some(d) =>
         && bytes[at] == d.day && bytes[at + 1] == d.month
         && bytes[at + 2] as int + bytes[at + 3] as int * 0x100 == d.year
  }

  predicate SpellsMagic(bytes: seq<byte>) {
    |bytes| >= 8 && SpelledAt(bytes, 0, "TOKENS") && bytes[6] == 0 && bytes[7] == 0
  }

  /** A text stands at a place, with a NUL behind it. */
  predicate TextAt(bytes: seq<byte>, at: nat, text: seq<byte>) {
    at + |text| < |bytes| && bytes[at..at + |text|] == text && bytes[at + |text|] == 0
  }

  /** Where the text of entry `k` starts: behind the table and the texts before it. */
  function TextStart(entries: seq<Entry>, k: nat): nat
    requires k <= |entries|
  {
    if k == 0 then 16 + 8 * |entries| else TextStart(entries, k - 1) + |entries[k - 1].text| + 1
  }

  /** Where everything is in a file: header, then eight bytes for each entry, then the texts. */
  ghost predicate LaidOut(bytes: seq<byte>, db: Database) {
    && SpellsMagic(bytes) && NumberAt(bytes, 8, |db.entries| % LIMIT32) && NumberAt(bytes, 12, db.reserved)
    && (forall k | 0 <= k < |db.entries| :: RowAt(bytes, 16 + 8 * k, db.entries[k]))
    && (forall k | 0 <= k < |db.entries| :: TextAt(bytes, TextStart(db.entries, k), db.entries[k].text))
    && |bytes| == TextStart(db.entries, |db.entries|)
  }

  predicate RowAt(bytes: seq<byte>, at: nat, e: Entry) {
    NumberAt(bytes, at, e.token) && DateAt(bytes, at + 4, e.dateRemoved)
  }

  /** Exactly the entries without a date have four bytes of ones in its place. */
  predicate DatesMarked(bytes: seq<byte>, entries: seq<Entry>)
    requires 16 + 8 * |entries| <= |bytes|
  {
    forall k | 0 <= k < |entries| ::
      entries[k].dateRemoved.None? <==> forall i | 20 + 8 * k <= i < 24 + 8 * k :: bytes[i] == 0xFF
  }

  lemma ImageParts(db: Database)
    ensures var n := |db.entries|; var bytes := Image(db);
            && |bytes| >= 16 + 8 * n && bytes[..16] == Header(n % LIMIT32, db.reserved)
            && bytes[16..16 + 8 * n] == Table(db.entries) && bytes[16 + 8 * n..] == Texts(db.entries)
  {
    hide Header, Table, Texts;
  }

  lemma HeaderLaidOut(bytes: seq<byte>, count: u32, reserved: u32)
    requires |bytes| >= 16 && bytes[..16] == Header(count, reserved)
    ensures SpellsMagic(bytes) && NumberAt(bytes, 8, count) && NumberAt(bytes, 12, reserved)
  {
    var header := Header(count, reserved);
    assert forall k | 0 <= k < 8 :: bytes[k] == bytes[..16][k] == MAGIC[k];
    assert bytes[8..12] == bytes[..16][8..12] == LittleEndian(count) by { HeaderSlices(count, reserved); }
    assert bytes[12..16] == bytes[..16][12..16] == LittleEndian(reserved) by { HeaderSlices(count, reserved); }
    hide LittleEndian, NumberAt;
    NumberIn(bytes, 8, count);
    NumberIn(bytes, 12, reserved);
  }

  lemma HeaderSlices(count: u32, reserved: u32)
    ensures Header(count, reserved)[8..12] == LittleEndian(count)
    ensures Header(count, reserved)[12..16] == LittleEndian(reserved)
  {
    hide LittleEndian;
  }

  lemma RowLaidOut(bytes: seq<byte>, at: nat, e: Entry)
    requires at + 8 <= |bytes| && bytes[at..at + 8] == Row(e)
    ensures RowAt(bytes, at, e)
  {
    var row := bytes[at..at + 8];
    RowParts(e);
    assert bytes[at..at + 4] == row[..4];
    hide Row;
    var date := DateBytes(e.dateRemoved);
    assert forall k | 0 <= k < 4 :: bytes[at + 4 + k] == row[4..8][k];
    assert bytes[at + 4] == date[0] && bytes[at + 5] == date[1] && bytes[at + 6] == date[2] && bytes[at + 7] == date[3];
    hide LittleEndian, NumberAt;
    NumberIn(bytes, at, e.token);
  }

  lemma {:induction false} TextStartIs(entries: seq<Entry>, k: nat)
    requires k <= |entries|
    ensures TextStart(entries, k) == 16 + 8 * |entries| + |Texts(entries[..k])|
    decreases k
  {
    TextsNext(entries, k);
    hide Texts;
    if k > 0 {
      TextStartIs(entries, k - 1);
    } else {
      assert entries[..0] == [];
    }
  }

  lemma TextLaidOut(bytes: seq<byte>, entries: seq<Entry>, k: nat)
    requires |bytes| >= 16 + 8 * |entries| && bytes[16 + 8 * |entries|..] == Texts(entries) && k < |entries|
    ensures TextAt(bytes, TextStart(entries, k), entries[k].text)
  {
    hide *;
    TextsSplit(entries, k);
    TextStartIs(entries, k);
    PieceIn(bytes, 16 + 8 * |entries|, Texts(entries), Texts(entries[..k]), entries[k].text);
    IsTextAt(bytes, TextStart(entries, k), entries[k].text);
  }

  lemma IsTextAt(bytes: seq<byte>, at: nat, text: seq<byte>)
    requires at + |text| < |bytes| && bytes[at..at + |text|] == text && bytes[at + |text|] == 0
    ensures TextAt(bytes, at, text)
  {
  }

  lemma TextsEnd(bytes: seq<byte>, entries: seq<Entry>)
    requires |bytes| >= 16 + 8 * |entries| && bytes[16 + 8 * |entries|..] == Texts(entries)
    ensures |bytes| == TextStart(entries, |entries|)
  {
    TextStartIs(entries, |entries|);
    hide Texts, TextStart;
    assert entries[..|entries|] == entries;
    assert |bytes[16 + 8 * |entries|..]| == |bytes| - (16 + 8 * |entries|);
  }

  /** What is written is laid out as the format says. */
  lemma ImageLaidOut(db: Database)
    ensures LaidOut(Image(db), db) && |Image(db)| >= 16 + 8 * |db.entries|
  {
    var n, bytes := |db.entries|, Image(db);
    ImageParts(db);
    hide Image, Row, Table, Texts, TextAt, TextStart, NumberAt, SpellsMagic, Header, RowAt;
    HeaderLaidOut(bytes, n % LIMIT32, db.reserved);
    TextsEnd(bytes, db.entries);
    forall k | 0 <= k < n
      ensures RowAt(bytes, 16 + 8 * k, db.entries[k])
      ensures TextAt(bytes, TextStart(db.entries, k), db.entries[k].text)
    {
      TextLaidOut(bytes, db.entries, k);
      TableAt(db.entries, k);
      SubSlice(bytes, 16, 16 + 8 * n, 8 * k, 8 * (k + 1));
      RowLaidOut(bytes, 16 + 8 * k, db.entries[k]);
    }
  }

  /** In an accepted file the mark of a missing date is unambiguous. */
  lemma AcceptedMarks(utf8: Utf8, db: Database, bytes: seq<byte>)
    requires WrittenAs(utf8, db, bytes)
    ensures LaidOut(bytes, db) && 16 + 8 * |db.entries| <= |bytes| && DatesMarked(bytes, db.entries)
  {
    ImageLaidOut(db);
    hide Image, TextAt, TextStart, NumberAt, SpellsMagic;
    forall k | 0 <= k < |db.entries|
      ensures db.entries[k].dateRemoved.None? <==> forall i | 20 + 8 * k <= i < 24 + 8 * k :: bytes[i] == 0xFF
    {
      assert RowAt(bytes, 16 + 8 * k, db.entries[k]);
      MarkedIs(bytes, 20 + 8 * k, db.entries[k].dateRemoved);
    }
  }

  lemma MarkedIs(bytes: seq<byte>, at: nat, date: Option<Date>)
    requires DateAt(bytes, at, date) && date != Some(Date(0xFFFF, 0xFF, 0xFF))
    ensures date.None? <==> forall i | at <= i < at + 4 :: bytes[i] == 0xFF
  {
  }

  // ---------------------------------------------------------------- reading

  /** `d` is a database that is written as `bytes`. */
  ghost predicate WrittenAs(utf8: Utf8, d: Database, bytes: seq<byte>) {
    Encodable(utf8, d) && Image(d) == bytes
  }

  function WordIn(bytes: seq<byte>, at: nat): u32
    requires at + 4 <= |bytes|
  {
    LittleEndian32(bytes[at], bytes[at + 1], bytes[at + 2], bytes[at + 3])
  }

  lemma WordInReads(bytes: seq<byte>, at: nat, n: u32)
    requires at + 4 <= |bytes| && bytes[at..at + 4] == LittleEndian(n)
    ensures WordIn(bytes, at) == n
  {
    var b := LittleEndian(n);
    assert bytes[at..at + 4][0] == b[0] && bytes[at..at + 4][1] == b[1];
    assert bytes[at..at + 4][2] == b[2] && bytes[at..at + 4][3] == b[3];
    LittleEndianReads(n);
  }

  lemma WordInWrites(bytes: seq<byte>, at: nat)
    requires at + 4 <= |bytes|
    ensures bytes[at..at + 4] == LittleEndian(WordIn(bytes, at))
  {
    LittleEndianWrites(bytes[at], bytes[at + 1], bytes[at + 2], bytes[at + 3]);
  }

  lemma HeaderReads(utf8: Utf8, d: Database, bytes: seq<byte>)
    requires WrittenAs(utf8, d, bytes)
    ensures |bytes| >= HEADER_LEN + ENTRY_LEN * |d.entries| && bytes[..8] == MAGIC
    ensures WordIn(bytes, 8) == |d.entries| && WordIn(bytes, 12) == d.reserved
    ensures bytes[HEADER_LEN..HEADER_LEN + ENTRY_LEN * |d.entries|] == Table(d.entries)
    ensures bytes[HEADER_LEN + ENTRY_LEN * |d.entries|..] == Texts(d.entries)
  {
    hide LittleEndian, Table, Texts;
    var header := Header(|d.entries| % LIMIT32, d.reserved);
    assert bytes[..HEADER_LEN] == header;
    assert bytes[8..12] == header[8..12] == LittleEndian(|d.entries|);
    assert bytes[12..16] == header[12..16] == LittleEndian(d.reserved);
    WordInReads(bytes, 8, |d.entries|);
    WordInReads(bytes, 12, d.reserved);
  }

  /** The row at an index of the table. */
  function MetaIn(bytes: seq<byte>, at: nat): (u32, Option<Date>)
    requires at + ENTRY_LEN <= |bytes|
  {
    (WordIn(bytes, at), ReadDate(bytes[at + 4], bytes[at + 5], bytes[at + 6], bytes[at + 7]))
  }

  lemma RowParts(e: Entry)
    ensures Row(e)[..4] == LittleEndian(e.token) && Row(e)[4..8] == DateBytes(e.dateRemoved)
  {
    hide LittleEndian, DateBytes;
  }

  lemma MetaReads(utf8: Utf8, d: Database, bytes: seq<byte>, k: nat)
    requires WrittenAs(utf8, d, bytes) && k < |d.entries|
    ensures HEADER_LEN + ENTRY_LEN * (k + 1) <= |bytes|
    ensures MetaIn(bytes, HEADER_LEN + ENTRY_LEN * k) == (d.entries[k].token, d.entries[k].dateRemoved)
  {
    hide LittleEndian, Table, Texts, DateBytes, ReadDate, Image;
    HeaderReads(utf8, d, bytes);
    TableAt(d.entries, k);
    var e, at := d.entries[k], HEADER_LEN + ENTRY_LEN * k;
    var row := bytes[at..at + ENTRY_LEN];
    SubSlice(bytes, HEADER_LEN, HEADER_LEN + ENTRY_LEN * |d.entries|, ENTRY_LEN * k, ENTRY_LEN * (k + 1));
    RowParts(e);
    SubSlice(bytes, at, at + ENTRY_LEN, 0, 4);
    WordInReads(bytes, at, e.token);
    assert bytes[at + 4] == row[4..8][0] && bytes[at + 5] == row[4..8][1];
    assert bytes[at + 6] == row[4..8][2] && bytes[at + 7] == row[4..8][3];
    DateReads(e.dateRemoved);
  }

  lemma MetaWrites(bytes: seq<byte>, at: nat, e: Entry)
    requires at + ENTRY_LEN <= |bytes| && MetaIn(bytes, at) == (e.token, e.dateRemoved)
    ensures bytes[at..at + ENTRY_LEN] == Row(e) && e.dateRemoved != Some(Date(0xFFFF, 0xFF, 0xFF))
  {
    hide LittleEndian, DateBytes, ReadDate;
    WordInWrites(bytes, at);
    DateWrites(bytes[at + 4], bytes[at + 5], bytes[at + 6], bytes[at + 7]);
    assert bytes[at..at + ENTRY_LEN] == bytes[at..at + 4] + bytes[at + 4..at + 8];
    assert bytes[at + 4..at + 8] == [bytes[at + 4], bytes[at + 5], bytes[at + 6], bytes[at + 7]];
  }

  lemma {:induction false} TableWrites(bytes: seq<byte>, entries: seq<Entry>)
    requires HEADER_LEN + ENTRY_LEN * |entries| <= |bytes|
    requires forall k | 0 <= k < |entries| ::
               bytes[HEADER_LEN + ENTRY_LEN * k..HEADER_LEN + ENTRY_LEN * (k + 1)] == Row(entries[k])
    ensures bytes[HEADER_LEN..HEADER_LEN + ENTRY_LEN * |entries|] == Table(entries)
    decreases |entries|
  {
    hide Row;
    if entries != [] {
      var n := |entries| - 1;
      TableWrites(bytes, entries[..n]);
      assert bytes[HEADER_LEN..HEADER_LEN + ENTRY_LEN * |entries|]
          == bytes[HEADER_LEN..HEADER_LEN + ENTRY_LEN * n]
              + bytes[HEADER_LEN + ENTRY_LEN * n..HEADER_LEN + ENTRY_LEN * (n + 1)];
    }
  }

  /** Where the text of entry `k` is, in a file written from `d`. */
  lemma TextReads(utf8: Utf8, d: Database, bytes: seq<byte>, k: nat, at: nat)
    requires WrittenAs(utf8, d, bytes) && k < |d.entries|
    requires at == HEADER_LEN + ENTRY_LEN * |d.entries| + |Texts(d.entries[..k])|
    ensures var end := at + |d.entries[k].text|;
            && end < |bytes| && bytes[at..end] == d.entries[k].text && bytes[end] == 0
            && end + 1 == HEADER_LEN + ENTRY_LEN * |d.entries| + |Texts(d.entries[..k + 1])|
  {
    HeaderReads(utf8, d, bytes);
    TextsSplit(d.entries, k);
    var start := HEADER_LEN + ENTRY_LEN * |d.entries|;
    PieceIn(bytes, start, Texts(d.entries), Texts(d.entries[..k]), d.entries[k].text);
  }

  lemma PieceIn(bytes: seq<byte>, start: nat, all: seq<byte>, before: seq<byte>, piece: seq<byte>)
    requires start <= |bytes| && bytes[start..] == all && before + piece + [0] <= all
    ensures var at := start + |before|; var end := at + |piece|;
            end < |bytes| && bytes[at..end] == piece && bytes[end] == 0
  {
    var some := before + piece + [0];
    assert all[..|some|] == some;
    assert some[|before|..|before| + |piece|] == piece && some[|before| + |piece|] == 0;
    assert all[|before|..|before| + |piece|] == piece && all[|before| + |piece|] == 0;
  }

  /** The position of the first NUL from `at` on. */
  method FindNul(bytes: seq<byte>, at: nat) returns (r: Option<nat>)
    requires at <= |bytes|
    ensures r.Some? ==> at <= r.value < |bytes| && bytes[r.value] == 0 && 0 !in bytes[at..r.value]
    ensures r.None? ==> 0 !in bytes[at..]
  {
    var i := at;
    while i < |bytes|
      invariant at <= i <= |bytes| && 0 !in bytes[at..i]
    {
      if bytes[i] == 0 {
        return Some(i);
      }
      assert bytes[at..i + 1] == bytes[at..i] + [bytes[i]];
      i := i + 1;
    }
    assert bytes[at..i] == bytes[at..];
    r := None;
  }

  lemma TextEnds(bytes: seq<byte>, at: nat, text: seq<byte>, nul: Option<nat>)
    requires at + |text| < |bytes| && bytes[at..at + |text|] == text && bytes[at + |text|] == 0 && 0 !in text
    requires nul.Some? ==> at <= nul.value < |bytes| && bytes[nul.value] == 0 && 0 !in bytes[at..nul.value]
    requires nul.None? ==> 0 !in bytes[at..]
    ensures nul == Some(at + |text|)
  {
    forall i | at <= i < at + |text|
      ensures bytes[i] != 0
    {
      assert bytes[i] == text[i - at];
    }
    forall j | at + |text| < j <= |bytes|
      ensures 0 in bytes[at..j]
    {
      assert bytes[at..j][|text|] == 0;
    }
    assert bytes[at..|bytes|] == bytes[at..];
  }

  /** Pass 1: the tokens and removal dates of the whole table. */
  method ParseTable(bytes: seq<byte>, count: nat) returns (meta: seq<(u32, Option<Date>)>)
    requires HEADER_LEN + ENTRY_LEN * count <= |bytes|
    ensures |meta| == count && forall k | 0 <= k < count :: meta[k] == MetaIn(bytes, HEADER_LEN + ENTRY_LEN * k)
  {
    hide WordIn, ReadDate;
    meta := [];
    for k := 0 to count
      invariant |meta| == k && forall j | 0 <= j < k :: meta[j] == MetaIn(bytes, HEADER_LEN + ENTRY_LEN * j)
    {
      meta := meta + [MetaIn(bytes, HEADER_LEN + ENTRY_LEN * k)];
    }
  }

  /** The entries read so far carry the table's rows and acceptable text. */
  ghost predicate EntriesRead(utf8: Utf8, meta: seq<(u32, Option<Date>)>, entries: seq<Entry>) {
    && |entries| <= |meta|
    && forall k | 0 <= k < |entries| ::
         meta[k] == (entries[k].token, entries[k].dateRemoved) && 0 !in entries[k].text && utf8(entries[k].text)
  }

  /** If a database is written as `bytes`, the entries read so far are its first ones. */
  ghost predicate Agrees(utf8: Utf8, bytes: seq<byte>, meta: seq<(u32, Option<Date>)>, entries: seq<Entry>) {
    forall d | WrittenAs(utf8, d, bytes) :: |meta| == |d.entries| && entries <= d.entries
  }

  ghost predicate NotWritten(utf8: Utf8, bytes: seq<byte>) {
    forall d :: !WrittenAs(utf8, d, bytes)
  }

  /** One more text: if the bytes come from a database, its text ends at the first NUL and is accepted. */
  lemma AgreesNext(utf8: Utf8, bytes: seq<byte>, meta: seq<(u32, Option<Date>)>, entries: seq<Entry>, p: nat,
                   nul: Option<nat>)
    requires Agrees(utf8, bytes, meta, entries) && |entries| < |meta|
    requires HEADER_LEN + ENTRY_LEN * |meta| <= |bytes|
    requires forall k | 0 <= k < |meta| :: meta[k] == MetaIn(bytes, HEADER_LEN + ENTRY_LEN * k)
    requires p == HEADER_LEN + ENTRY_LEN * |meta| + |Texts(entries)| && p <= |bytes|
    requires nul.Some? ==> p <= nul.value < |bytes| && bytes[nul.value] == 0 && 0 !in bytes[p..nul.value]
    requires nul.None? ==> 0 !in bytes[p..]
    ensures nul.None? ==> NotWritten(utf8, bytes)
    ensures nul.Some? && !utf8(bytes[p..nul.value]) ==> NotWritten(utf8, bytes)
    ensures nul.Some? ==>
              var e := Entry(meta[|entries|].0, meta[|entries|].1, bytes[p..nul.value]);
              Agrees(utf8, bytes, meta, entries + [e])
  {
    hide *;
    forall d | WrittenAs(utf8, d, bytes)
      ensures nul.Some? && utf8(bytes[p..nul.value])
      ensures var e := Entry(meta[|entries|].0, meta[|entries|].1, bytes[p..nul.value]);
              |meta| == |d.entries| && entries + [e] <= d.entries
    {
      AgreesOne(utf8, bytes, meta, entries, p, nul, d);
    }
    NotWrittenUnless(utf8, bytes, nul.Some? && utf8(bytes[p..nul.value]));
    if nul.Some? {
      AgreesAll(utf8, bytes, meta, entries + [Entry(meta[|entries|].0, meta[|entries|].1, bytes[p..nul.value])]);
    }
  }

  lemma NotWrittenUnless(utf8: Utf8, bytes: seq<byte>, ok: bool)
    requires forall d | WrittenAs(utf8, d, bytes) :: ok
    ensures !ok ==> NotWritten(utf8, bytes)
  {
    hide WrittenAs;
  }

  lemma AgreesAll(utf8: Utf8, bytes: seq<byte>, meta: seq<(u32, Option<Date>)>, entries: seq<Entry>)
    requires forall d | WrittenAs(utf8, d, bytes) :: |meta| == |d.entries| && entries <= d.entries
    ensures Agrees(utf8, bytes, meta, entries)
  {
    hide WrittenAs;
  }

  lemma AgreesOne(utf8: Utf8, bytes: seq<byte>, meta: seq<(u32, Option<Date>)>, entries: seq<Entry>, p: nat,
                  nul: Option<nat>, d: Database)
    requires Agrees(utf8, bytes, meta, entries) && |entries| < |meta| && WrittenAs(utf8, d, bytes)
    requires HEADER_LEN + ENTRY_LEN * |meta| <= |bytes|
    requires forall k | 0 <= k < |meta| :: meta[k] == MetaIn(bytes, HEADER_LEN + ENTRY_LEN * k)
    requires p == HEADER_LEN + ENTRY_LEN * |meta| + |Texts(entries)| && p <= |bytes|
    requires nul.Some? ==> p <= nul.value < |bytes| && bytes[nul.value] == 0 && 0 !in bytes[p..nul.value]
    requires nul.None? ==> 0 !in bytes[p..]
    ensures nul.Some? && utf8(bytes[p..nul.value]) && |meta| == |d.entries|
    ensures entries + [Entry(meta[|entries|].0, meta[|entries|].1, bytes[p..nul.value])] <= d.entries
  {
    hide *;
    var k := |entries|;
    AgreesMeans(utf8, bytes, meta, entries, d);
    EntryIsEncodable(utf8, d, bytes, k);
    MetaReads(utf8, d, bytes, k);
    TextReads(utf8, d, bytes, k, p);
    TextEnds(bytes, p, d.entries[k].text, nul);
    EntryEta(d.entries[k], meta[k]);
    assert d.entries[..k + 1] == entries + [d.entries[k]];
  }

  lemma AgreesMeans(utf8: Utf8, bytes: seq<byte>, meta: seq<(u32, Option<Date>)>, entries: seq<Entry>, d: Database)
    requires Agrees(utf8, bytes, meta, entries) && WrittenAs(utf8, d, bytes)
    ensures |meta| == |d.entries| && |entries| <= |d.entries| && entries == d.entries[..|entries|]
  {
    hide WrittenAs;
  }

  lemma EntryEta(e: Entry, m: (u32, Option<Date>))
    requires m == (e.token, e.dateRemoved)
    ensures Entry(m.0, m.1, e.text) == e
  {
  }

  lemma EntryIsEncodable(utf8: Utf8, d: Database, bytes: seq<byte>, k: nat)
    requires WrittenAs(utf8, d, bytes) && k < |d.entries|
    ensures 0 !in d.entries[k].text && utf8(d.entries[k].text)
  {
  }

  lemma TextsMore(entries: seq<Entry>, e: Entry)
    ensures Texts(entries + [e]) == Texts(entries) + e.text + [0]
  {
    assert (entries + [e])[..|entries + [e]| - 1] == entries;
  }

  lemma NoTexts(utf8: Utf8, bytes: seq<byte>, meta: seq<(u32, Option<Date>)>)
    ensures Texts([]) == [] && EntriesRead(utf8, meta, [])
  {
  }

  lemma EntriesMore(utf8: Utf8, meta: seq<(u32, Option<Date>)>, entries: seq<Entry>, e: Entry)
    requires EntriesRead(utf8, meta, entries) && |entries| < |meta|
    requires meta[|entries|] == (e.token, e.dateRemoved) && 0 !in e.text && utf8(e.text)
    ensures EntriesRead(utf8, meta, entries + [e])
  {
  }

  /** Pass 2: one NUL-terminated text for each row. */
  method ParseTexts(bytes: seq<byte>, meta: seq<(u32, Option<Date>)>, utf8: Utf8)
    returns (r: Result<(seq<Entry>, nat), string>)
    requires HEADER_LEN + ENTRY_LEN * |meta| <= |bytes|
    requires forall k | 0 <= k < |meta| :: meta[k] == MetaIn(bytes, HEADER_LEN + ENTRY_LEN * k)
    requires Agrees(utf8, bytes, meta, [])
    ensures r.Failure? ==> NotWritten(utf8, bytes)
    ensures r.Success? ==>
              var (entries, p) := r.value;
              && |entries| == |meta| && EntriesRead(utf8, meta, entries) && Agrees(utf8, bytes, meta, entries)
              && HEADER_LEN + ENTRY_LEN * |meta| <= p <= |bytes|
              && bytes[HEADER_LEN + ENTRY_LEN * |meta|..p] == Texts(entries)
  {
    hide *;
    HeaderLength();
    var tableEnd := HEADER_LEN + ENTRY_LEN * |meta|;
    var entries: seq<Entry> := [];
    var p := tableEnd;
    NoTexts(utf8, bytes, meta);
    for k := 0 to |meta|
      invariant |entries| == k && EntriesRead(utf8, meta, entries) && Agrees(utf8, bytes, meta, entries)
      invariant tableEnd <= p <= |bytes| && bytes[tableEnd..p] == Texts(entries)
    {
      var nul := FindNul(bytes, p);
      AgreesNext(utf8, bytes, meta, entries, p, nul);
      if nul.None? {
        return Failure("string table underrun (missing NUL terminator)");
      }
      if !utf8(bytes[p..nul.value]) {
        return Failure("invalid UTF-8 in string table");
      }
      var e := Entry(meta[k].0, meta[k].1, bytes[p..nul.value]);
      TextsMore(entries, e);
      EntriesMore(utf8, meta, entries, e);
      assert bytes[tableEnd..nul.value + 1] == bytes[tableEnd..p] + e.text + [0];
      entries := entries + [e];
      p := nul.value + 1;
    }
    r := Success((entries, p));
  }

  /** Accepts exactly the files of encodable databases, and returns the database. */
  method Parse(bytes: seq<byte>, utf8: Utf8) returns (r: Result<Database, string>)
    ensures r.Success? ==> WrittenAs(utf8, r.value, bytes) && LaidOut(bytes, r.value)
    ensures r.Success? ==> 16 + 8 * |r.value.entries| <= |bytes| && DatesMarked(bytes, r.value.entries)
    ensures r.Failure? ==> NotWritten(utf8, bytes)
  {
    hide *;
    if |bytes| < 8 || bytes[..8] != MAGIC {
      BadHeader(utf8, bytes);
      return Failure("bad or missing TOKENS magic");
    }
    if |bytes| < HEADER_LEN {
      BadHeader(utf8, bytes);
      return Failure("truncated header");
    }
    HeaderLength();
    var count := WordIn(bytes, 8);
    var reserved := WordIn(bytes, 12);
    var tableEnd := HEADER_LEN + ENTRY_LEN * count;
    if |bytes| < tableEnd {
      BadHeader(utf8, bytes);
      return Failure("truncated entry table");
    }
    var meta := ParseTable(bytes, count);
    NothingRead(utf8, bytes, meta);
    var texts := ParseTexts(bytes, meta, utf8);
    if texts.Failure? {
      return Failure(texts.error);
    }
    var (entries, p) := texts.value;
    if p != |bytes| {
      AllText(utf8, bytes, meta, entries, p);
      NotWrittenUnless(utf8, bytes, p == |bytes|);
      return Failure("trailing bytes after string table");
    }
    AllRead(utf8, bytes, meta, entries, reserved);
    AcceptedMarks(utf8, Database(reserved, entries), bytes);
    r := Success(Database(reserved, entries));
  }

  lemma HeaderLength()
    ensures HEADER_LEN == 16 && ENTRY_LEN == 8
  {
  }

  lemma BadHeader(utf8: Utf8, bytes: seq<byte>)
    requires || |bytes| < 8 || bytes[..8] != MAGIC || |bytes| < HEADER_LEN
             || |bytes| < HEADER_LEN + ENTRY_LEN * WordIn(bytes, 8)
    ensures NotWritten(utf8, bytes)
  {
    hide WrittenAs, WordIn;
    forall d
      ensures !WrittenAs(utf8, d, bytes)
    {
      if WrittenAs(utf8, d, bytes) {
        HeaderReads(utf8, d, bytes);
        assert false;
      }
    }
  }

  lemma NothingRead(utf8: Utf8, bytes: seq<byte>, meta: seq<(u32, Option<Date>)>)
    requires |bytes| >= HEADER_LEN && |meta| == WordIn(bytes, 8)
    ensures Agrees(utf8, bytes, meta, [])
  {
    hide WrittenAs, WordIn;
    forall d | WrittenAs(utf8, d, bytes)
      ensures |meta| == |d.entries|
    {
      HeaderReads(utf8, d, bytes);
    }
  }

  /** The texts of a written database reach the end of the file. */
  lemma AllText(utf8: Utf8, bytes: seq<byte>, meta: seq<(u32, Option<Date>)>, entries: seq<Entry>, p: nat)
    requires Agrees(utf8, bytes, meta, entries) && |entries| == |meta|
    requires HEADER_LEN + ENTRY_LEN * |meta| <= p <= |bytes|
    requires bytes[HEADER_LEN + ENTRY_LEN * |meta|..p] == Texts(entries)
    ensures forall d | WrittenAs(utf8, d, bytes) :: p == |bytes|
  {
    hide WrittenAs, Texts, Agrees;
    forall d | WrittenAs(utf8, d, bytes)
      ensures p == |bytes|
    {
      AgreesMeans(utf8, bytes, meta, entries, d);
      HeaderReads(utf8, d, bytes);
      assert d.entries == entries;
      assert |bytes[HEADER_LEN + ENTRY_LEN * |meta|..]| == |bytes[HEADER_LEN + ENTRY_LEN * |meta|..p]|;
    }
  }

  lemma AllRead(utf8: Utf8, bytes: seq<byte>, meta: seq<(u32, Option<Date>)>, entries: seq<Entry>, reserved: u32)
    requires |bytes| >= HEADER_LEN + ENTRY_LEN * |meta| && bytes[..8] == MAGIC
    requires |meta| == |entries| == WordIn(bytes, 8) && reserved == WordIn(bytes, 12)
    requires forall k | 0 <= k < |meta| :: meta[k] == MetaIn(bytes, HEADER_LEN + ENTRY_LEN * k)
    requires EntriesRead(utf8, meta, entries)
    requires bytes[HEADER_LEN + ENTRY_LEN * |meta|..] == Texts(entries)
    ensures WrittenAs(utf8, Database(reserved, entries), bytes)
  {
    hide MetaIn, Row, Texts, Table, Image, EntriesRead, Encodable, Header, WordIn;
    RowsWritten(utf8, bytes, meta, entries);
    TableWrites(bytes, entries);
    AllEncodable(utf8, meta, entries, reserved);
    HeaderWrites(bytes);
    ImageOf(utf8, bytes, Database(reserved, entries));
  }

  lemma RowsWritten(utf8: Utf8, bytes: seq<byte>, meta: seq<(u32, Option<Date>)>, entries: seq<Entry>)
    requires |bytes| >= HEADER_LEN + ENTRY_LEN * |meta| && |meta| == |entries| && EntriesRead(utf8, meta, entries)
    requires forall k | 0 <= k < |meta| :: meta[k] == MetaIn(bytes, HEADER_LEN + ENTRY_LEN * k)
    ensures forall k | 0 <= k < |entries| ::
              && bytes[HEADER_LEN + ENTRY_LEN * k..HEADER_LEN + ENTRY_LEN * (k + 1)] == Row(entries[k])
              && entries[k].dateRemoved != Some(Date(0xFFFF, 0xFF, 0xFF))
  {
    hide WordIn, MetaIn, Row;
    forall k | 0 <= k < |entries|
      ensures bytes[HEADER_LEN + ENTRY_LEN * k..HEADER_LEN + ENTRY_LEN * (k + 1)] == Row(entries[k])
      ensures entries[k].dateRemoved != Some(Date(0xFFFF, 0xFF, 0xFF))
    {
      MetaWrites(bytes, HEADER_LEN + ENTRY_LEN * k, entries[k]);
    }
  }

  lemma ImageOf(utf8: Utf8, bytes: seq<byte>, d: Database)
    requires Encodable(utf8, d) && |bytes| >= HEADER_LEN + ENTRY_LEN * |d.entries|
    requires bytes[..HEADER_LEN] == Header(|d.entries|, d.reserved)
    requires bytes[HEADER_LEN..HEADER_LEN + ENTRY_LEN * |d.entries|] == Table(d.entries)
    requires bytes[HEADER_LEN + ENTRY_LEN * |d.entries|..] == Texts(d.entries)
    ensures WrittenAs(utf8, d, bytes)
  {
    hide Table, Texts, Header, EntryEncodable;
    var tableEnd := HEADER_LEN + ENTRY_LEN * |d.entries|;
    assert bytes == bytes[..HEADER_LEN] + bytes[HEADER_LEN..tableEnd] + bytes[tableEnd..];
  }

  lemma AllEncodable(utf8: Utf8, meta: seq<(u32, Option<Date>)>, entries: seq<Entry>, reserved: u32)
    requires EntriesRead(utf8, meta, entries) && |entries| < LIMIT32
    requires forall k | 0 <= k < |entries| :: entries[k].dateRemoved != Some(Date(0xFFFF, 0xFF, 0xFF))
    ensures Encodable(utf8, Database(reserved, entries))
  {
  }

  lemma HeaderWrites(bytes: seq<byte>)
    requires |bytes| >= HEADER_LEN && bytes[..8] == MAGIC
    ensures bytes[..HEADER_LEN] == Header(WordIn(bytes, 8), WordIn(bytes, 12))
  {
    hide LittleEndian, WordIn;
    WordInWrites(bytes, 8);
    WordInWrites(bytes, 12);
    assert bytes[..HEADER_LEN] == bytes[..8] + bytes[8..12] + bytes[12..16];
  }

  // ---------------------------------------------------------------- round trips

  lemma {:induction false} SameEntries(utf8: Utf8, d: Database, e: Database, bytes: seq<byte>, k: nat)
    requires WrittenAs(utf8, d, bytes) && WrittenAs(utf8, e, bytes)
    requires |d.entries| == |e.entries| && k <= |d.entries|
    ensures d.entries[..k] == e.entries[..k]
  {
    hide *;
    if k > 0 {
      SameEntries(utf8, d, e, bytes, k - 1);
      var j := k - 1;
      MetaReads(utf8, d, bytes, j);
      MetaReads(utf8, e, bytes, j);
      var at := HEADER_LEN + ENTRY_LEN * |d.entries| + |Texts(d.entries[..j])|;
      TextReads(utf8, d, bytes, j, at);
      TextReads(utf8, e, bytes, j, at);
      EntryIsEncodable(utf8, d, bytes, j);
      EntryIsEncodable(utf8, e, bytes, j);
      SameText(bytes, at, d.entries[j].text, e.entries[j].text);
      SameEntry(d.entries[j], e.entries[j]);
      assert d.entries[..k] == d.entries[..j] + [d.entries[j]];
      assert e.entries[..k] == e.entries[..j] + [e.entries[j]];
    }
  }

  lemma SameEntry(d: Entry, e: Entry)
    requires d.token == e.token && d.dateRemoved == e.dateRemoved && d.text == e.text
    ensures d == e
  {
  }

  lemma SameText(bytes: seq<byte>, at: nat, s: seq<byte>, t: seq<byte>)
    requires at + |s| < |bytes| && bytes[at..at + |s|] == s && bytes[at + |s|] == 0 && 0 !in s
    requires at + |t| < |bytes| && bytes[at..at + |t|] == t && bytes[at + |t|] == 0 && 0 !in t
    ensures s == t
  {
    forall j | at <= j < at + |s|
      ensures bytes[j] != 0
    {
      assert bytes[j] == s[j - at];
    }
    forall j | at <= j < at + |t|
      ensures bytes[j] != 0
    {
      assert bytes[j] == t[j - at];
    }
    assert |s| == |t|;
  }

  /** Two encodable databases are written as the same bytes only when they are the same. */
  lemma ImageInjective(utf8: Utf8, d: Database, e: Database)
    requires Encodable(utf8, d) && Encodable(utf8, e) && Image(d) == Image(e)
    ensures d == e
  {
    var bytes := Image(d);
    hide Image;
    HeaderReads(utf8, d, bytes);
    HeaderReads(utf8, e, bytes);
    SameEntries(utf8, d, e, bytes, |d.entries|);
    assert d.entries[..|d.entries|] == d.entries && e.entries[..|e.entries|] == e.entries;
  }

  /** Parsing what was written gives the database back exactly when the format can hold it. */
  method SerializeThenParse(db: Database, utf8: Utf8) returns (r: Result<Database, string>)
    ensures r == Success(db) <==> Encodable(utf8, db)
  {
    hide Image, Encodable;
    var bytes := Serialize(db);
    r := Parse(bytes, utf8);
    if r.Success? && Encodable(utf8, db) {
      ImageInjective(utf8, r.value, db);
    }
    if Encodable(utf8, db) {
      assert WrittenAs(utf8, db, bytes);
    }
  }
}
