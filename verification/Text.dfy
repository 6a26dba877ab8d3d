/** Byte text: numerals and the order of byte strings. */
module Text {
  import opened Words
  import opened Sorting

  predicate IsHexDigit(b: byte) {
    48 <= b < 58 || 97 <= b < 103
  }

  ghost predicate IsNumeral(text: seq<byte>) {
    forall k | 0 <= k < |text| :: IsHexDigit(text[k])
  }

  function HexDigit(n: nat): (b: byte)
    requires n < 16
    ensures IsHexDigit(b)
  {
    if n < 10 then 48 + n else 87 + n
  }

  /** The last `width` hexadecimal digits, most significant first. */
  function HexText(n: nat, width: nat): (text: seq<byte>)
    ensures |text| == width && IsNumeral(text)
  {
    if width == 0 then [] else HexText(n / 16, width - 1) + [HexDigit(n % 16)]
  }

  function Power16(width: nat): nat {
    if width == 0 then 1 else 16 * Power16(width - 1)
  }

  lemma {:induction false} HexInjective(m: nat, n: nat, width: nat)
    requires m < Power16(width) && n < Power16(width) && HexText(m, width) == HexText(n, width)
    ensures m == n
  {
    if width > 0 {
      var a, b := HexText(m, width), HexText(n, width);
      assert a[..width - 1] == HexText(m / 16, width - 1) && b[..width - 1] == HexText(n / 16, width - 1);
      assert a[width - 1] == b[width - 1];
      HexInjective(m / 16, n / 16, width - 1);
    }
  }

  /** `{n:08x}`. */
  function Hex8(n: u32): (text: seq<byte>)
    ensures |text| == 8 && IsNumeral(text)
  {
    HexText(n, 8)
  }

  lemma Hex8Injective(m: u32, n: u32)
    requires Hex8(m) == Hex8(n)
    ensures m == n
  {
    assert Power16(4) == 0x1_0000;
    HexInjective(m, n, 8);
  }

  function Decimal(n: nat): (text: seq<byte>)
    ensures text != [] && IsNumeral(text)
  {
    if n < 10 then [48 + n] else Decimal(n / 10) + [48 + n % 10]
  }

  lemma {:induction false} DecimalInjective(m: nat, n: nat)
    requires Decimal(m) == Decimal(n)
    ensures m == n
  {
    var a, b := Decimal(m), Decimal(n);
    assert a[|a| - 1] == b[|b| - 1];
    if m >= 10 && n >= 10 {
      assert a[..|a| - 1] == Decimal(m / 10) && b[..|b| - 1] == Decimal(n / 10);
      DecimalInjective(m / 10, n / 10);
    }
  }

  // ---------------------------------------------------------------- what numerals say

  /** The value of a digit in either case of use. */
  function DigitValue(b: byte): nat
    requires IsHexDigit(b)
  {
    if b < 58 then b - 48 else b - 97 + 10
  }

  /** The number that a text of digits stands for. */
  function NumeralValue(text: seq<byte>, base: nat): nat
    requires forall k | 0 <= k < |text| :: IsHexDigit(text[k])
  {
    if text == [] then 0
    else NumeralValue(text[..|text| - 1], base) * base + DigitValue(text[|text| - 1])
  }

  lemma NumeralMore(text: seq<byte>, digit: byte, base: nat)
    requires IsNumeral(text) && IsHexDigit(digit)
    ensures IsNumeral(text + [digit])
    ensures NumeralValue(text + [digit], base) == NumeralValue(text, base) * base + DigitValue(digit)
  {
    var more := text + [digit];
    assert more[..|more| - 1] == text && more[|more| - 1] == digit;
  }

  lemma {:induction false} HexTextIs(n: nat, width: nat)
    requires n < Power16(width)
    ensures NumeralValue(HexText(n, width), 16) == n
    decreases width
  {
    if width > 0 {
      HexTextIs(n / 16, width - 1);
      NumeralMore(HexText(n / 16, width - 1), HexDigit(n % 16), 16);
    }
  }

  /** Eight hexadecimal digits that stand for the number. */
  lemma Hex8Is(n: u32)
    ensures NumeralValue(Hex8(n), 16) == n
  {
    assert Power16(4) == 65536;
    assert Power16(8) == LIMIT32;
    HexTextIs(n, 8);
  }

  predicate AllDecimal(text: seq<byte>) {
    forall k | 0 <= k < |text| :: 48 <= text[k] < 58
  }

  /** Decimal digits that stand for the number, without a zero in front. */
  lemma {:induction false} DecimalIs(n: nat)
    ensures AllDecimal(Decimal(n)) && NumeralValue(Decimal(n), 10) == n
    ensures |Decimal(n)| > 1 ==> Decimal(n)[0] != 48
    decreases n
  {
    if n < 10 {
      assert [48 + n][..0] == [];
    } else {
      DecimalIs(n / 10);
      NumeralMore(Decimal(n / 10), 48 + n % 10, 10);
      DecimalSmall(n / 10);
    }
  }

  lemma DecimalSmall(n: nat)
    requires n > 0
    ensures |Decimal(n)| == 1 ==> Decimal(n)[0] != 48
  {
  }

  predicate TextBefore(s: seq<byte>, t: seq<byte>) {
    if s == [] then true
    else if t == [] then false
    else s[0] < t[0] || (s[0] == t[0] && TextBefore(s[1..], t[1..]))
  }

  lemma {:induction false} TextTotal(s: seq<byte>, t: seq<byte>)
    ensures TextBefore(s, t) || TextBefore(t, s)
    ensures TextBefore(s, t) && TextBefore(t, s) ==> s == t
  {
    if s != [] && t != [] {
      TextTotal(s[1..], t[1..]);
      assert s == [s[0]] + s[1..] && t == [t[0]] + t[1..];
    }
  }

  lemma {:induction false} TextTransitive(s: seq<byte>, t: seq<byte>, u: seq<byte>)
    requires TextBefore(s, t) && TextBefore(t, u)
    ensures TextBefore(s, u)
  {
    if s != [] && s[0] == t[0] && t[0] == u[0] {
      TextTransitive(s[1..], t[1..], u[1..]);
    }
  }

  /** The texts agree up to `k`, and there the first ends or has the smaller byte. */
  ghost predicate DiffersAt(s: seq<byte>, t: seq<byte>, k: int) {
    0 <= k <= |s| && k < |t| && s[..k] == t[..k] && (k < |s| ==> s[k] < t[k])
  }

  /** The first text comes strictly before the second in lexicographic order. */
  ghost predicate Precedes(s: seq<byte>, t: seq<byte>) {
    exists k :: DiffersAt(s, t, k)
  }

  lemma {:induction false} BeforeIsPrecedes(s: seq<byte>, t: seq<byte>)
    requires TextBefore(s, t) && s != t
    ensures Precedes(s, t)
  {
    if s == [] || s[0] < t[0] {
      assert DiffersAt(s, t, 0);
    } else {
      assert s == [s[0]] + s[1..] && t == [t[0]] + t[1..];
      BeforeIsPrecedes(s[1..], t[1..]);
      var k :| DiffersAt(s[1..], t[1..], k);
      assert s[..k + 1] == [s[0]] + s[1..][..k] && t[..k + 1] == [t[0]] + t[1..][..k];
      assert DiffersAt(s, t, k + 1);
    }
  }

  lemma {:induction false} PrecedesIsBefore(s: seq<byte>, t: seq<byte>, k: nat)
    requires DiffersAt(s, t, k)
    ensures TextBefore(s, t) && s != t
    decreases k
  {
    if k > 0 {
      assert s[..k][0] == t[..k][0];
      assert s[1..][..k - 1] == s[..k][1..] && t[1..][..k - 1] == t[..k][1..];
      PrecedesIsBefore(s[1..], t[1..], k - 1);
    }
  }

  /** The order of texts is the lexicographic one. */
  lemma PrecedesExactly(s: seq<byte>, t: seq<byte>)
    ensures Precedes(s, t) <==> TextBefore(s, t) && s != t
  {
    if Precedes(s, t) {
      var k :| DiffersAt(s, t, k);
      PrecedesIsBefore(s, t, k);
    }
    if TextBefore(s, t) && s != t {
      BeforeIsPrecedes(s, t);
    }
  }

  lemma TextOrder()
    ensures TotalOrder(TextBefore) && forall x, y :: TextBefore(x, y) && TextBefore(y, x) ==> x == y
  {
    forall x, y
      ensures TextBefore(x, y) || TextBefore(y, x)
      ensures TextBefore(x, y) && TextBefore(y, x) ==> x == y
    {
      TextTotal(x, y);
    }
    forall x, y, z | TextBefore(x, y) && TextBefore(y, z)
      ensures TextBefore(x, z)
    {
      TextTransitive(x, y, z);
    }
  }
}
