/** The columns of the token table, character by character, and which fields are quoted. */
module CsvColumns {
  import opened Words
  import opened Text
  import opened Sorting
  import opened TokenDatabase
  import opened TokenCsv

  /** The field holds a comma, a quote, a line feed or a carriage return. */
  ghost predicate NeedsQuotes(field: seq<byte>) {
    exists k :: 0 <= k < |field| && IsOneOf(field[k], ",\"\n\r")
  }

  predicate IsOneOf(b: byte, chars: string) {
    exists k :: 0 <= k < |chars| && b == chars[k] as int
  }

  lemma SpecialExactly(b: byte)
    ensures Special(b) <==> IsOneOf(b, ",\"\n\r")
  {
    var chars := ",\"\n\r";
    assert chars[0] as int == 44 && chars[1] as int == 34 && chars[2] as int == 10 && chars[3] as int == 13;
    assert |chars| == 4;
  }

  /** A field is quoted exactly when it needs quotes. */
  lemma QuotedExactly(field: seq<byte>)
    ensures CsvQuote(field) == field <==> !NeedsQuotes(field)
  {
    hide Special, IsOneOf;
    forall k | 0 <= k < |field|
      ensures Special(field[k]) <==> IsOneOf(field[k], ",\"\n\r")
    {
      SpecialExactly(field[k]);
    }
    DoubledLonger(field);
  }

  lemma {:induction false} DoubledLonger(field: seq<byte>)
    ensures |Doubled(field)| >= |field|
  {
    if field != [] {
      DoubledLonger(field[1..]);
    }
  }

  /** Decimal digits for the number, at least `width` of them, with no more zeros in front than that takes. */
  ghost predicate IsPadded(text: seq<byte>, n: nat, width: nat) {
    && AllDecimal(text) && NumeralValue(text, 10) == n
    && |text| >= width && (|text| > width && |text| > 1 ==> text[0] != 48)
  }

  lemma {:induction false} ZerosInFront(zeros: nat, digits: seq<byte>)
    requires AllDecimal(digits)
    ensures AllDecimal(seq<byte>(zeros, i => 48) + digits)
    ensures NumeralValue(seq<byte>(zeros, i => 48) + digits, 10) == NumeralValue(digits, 10)
    decreases |digits|
  {
    var all := seq<byte>(zeros, i => 48) + digits;
    if digits == [] {
      OnlyZeros(zeros);
      assert all == seq<byte>(zeros, i => 48);
    } else {
      var n := |digits| - 1;
      ZerosInFront(zeros, digits[..n]);
      assert all[..|all| - 1] == seq<byte>(zeros, i => 48) + digits[..n];
    }
  }

  lemma {:induction false} OnlyZeros(zeros: nat)
    ensures NumeralValue(seq<byte>(zeros, i => 48), 10) == 0
  {
    if zeros > 0 {
      OnlyZeros(zeros - 1);
      assert seq<byte>(zeros, i => 48)[..zeros - 1] == seq<byte>(zeros - 1, i => 48);
    }
  }

  lemma PaddedIs(n: nat, width: nat)
    ensures IsPadded(Padded(n, width), n, width)
  {
    DecimalIs(n);
    var digits := Decimal(n);
    if |digits| < width {
      ZerosInFront(width - |digits|, digits);
    }
  }

  /** Year, month and day of at least four, two and two digits, with hyphens between them. */
  ghost predicate IsDateText(text: seq<byte>, date: Option<Date>) {
    match date
    case None => text == []
    case Some(d) =>
      var hyphen: byte := '-' as int;
      exists year, month, day ::
        && IsPadded(year, d.year, 4) && IsPadded(month, d.month, 2) && IsPadded(day, d.day, 2)
        && text == year + [hyphen] + month + [hyphen] + day
  }

  lemma DateTextIs(date: Option<Date>)
    ensures IsDateText(DateText(date), date)
  {
    hide Padded, IsPadded;
    if date.Some? {
      PaddedIs(date.value.year, 4);
      PaddedIs(date.value.month, 2);
      PaddedIs(date.value.day, 2);
    }
  }

  /** Eight hexadecimal digits of the token, the date, and the text. */
  ghost predicate IsRow(fields: seq<seq<byte>>, key: Key, date: Option<Date>) {
    && |fields| == 3
    && |fields[0]| == 8 && IsNumeral(fields[0]) && NumeralValue(fields[0], 16) == key.token
    && IsDateText(fields[1], date) && fields[2] == key.text
  }

  /** Every row of the table has these three columns. */
  lemma RowsAre(keys: seq<Key>, dates: map<Key, Option<Date>>, k: nat)
    requires k < |keys| && forall i | 0 <= i < |keys| :: keys[i] in dates
    ensures IsRow(AllFields(keys, dates)[k], keys[k], dates[keys[k]])
  {
    Hex8Is(keys[k].token);
    DateTextIs(dates[keys[k]]);
    hide Hex8, DateText, IsDateText;
  }

  /** The rows ascend by token, and by text where the tokens are the same. */
  lemma RowsAscend(keys: seq<Key>, i: nat, j: nat)
    requires SortedBy(KeyBefore, keys) && Distinct(keys) && i < j < |keys|
    ensures keys[i].token < keys[j].token
            || (keys[i].token == keys[j].token && Precedes(keys[i].text, keys[j].text))
  {
    PrecedesExactly(keys[i].text, keys[j].text);
    assert KeyBefore(keys[i], keys[j]) && keys[i] != keys[j];
    hide TextBefore, Precedes;
  }
}
