/** The names of the tree, character by character. */
module NameShapes {
  import opened Words
  import opened Text
  import opened TreeNaming
  import opened SourcePaths

  function Power31(n: nat): nat {
    if n == 0 then 1 else 31 * Power31(n - 1)
  }

  /** The bytes of a segment as the coefficients of a polynomial, the first one highest, at 31. */
  function PolynomialAt31(segment: Path): nat {
    if segment == [] then 0 else segment[0] * Power31(|segment| - 1) + PolynomialAt31(segment[1..])
  }

  lemma {:induction false} PolynomialLast(segment: Path)
    requires segment != []
    ensures PolynomialAt31(segment) == PolynomialAt31(segment[..|segment| - 1]) * 31 + segment[|segment| - 1]
    decreases |segment|
  {
    var n := |segment| - 1;
    if n > 0 {
      PolynomialLast(segment[1..]);
      assert segment[1..][..n - 1] == segment[..n][1..];
      var first, power := segment[0], Power31(n - 1);
      assert first * (31 * power) == first * power * 31;
    } else {
      assert Power31(0) == 1;
    }
  }

  lemma ModuloStep(a: nat, b: nat, c: nat)
    requires a % LIMIT32 == b % LIMIT32
    ensures (a * 31 + c) % LIMIT32 == (b * 31 + c) % LIMIT32
  {
    var q := a / LIMIT32 - b / LIMIT32;
    assert a == b + q * LIMIT32;
    assert a * 31 + c == b * 31 + c + q * 31 * LIMIT32;
    MultipleAway(b * 31 + c, q * 31);
  }

  lemma MultipleAway(x: int, q: int)
    ensures (x + q * LIMIT32) % LIMIT32 == x % LIMIT32
  {
  }

  /** The hash is the polynomial, modulo 2^32. */
  lemma {:induction false} HashIsPolynomial(segment: Path)
    ensures Hash31(segment) == PolynomialAt31(segment) % LIMIT32
    decreases |segment|
  {
    if segment != [] {
      var n := |segment| - 1;
      HashIsPolynomial(segment[..n]);
      PolynomialLast(segment);
      ModuloStep(Hash31(segment[..n]), PolynomialAt31(segment[..n]), segment[n]);
    }
  }

  /** A segment of more than 200 bytes becomes its first 180, a tilde, and eight hexadecimal digits of its hash. */
  lemma LongSegmentIs(segment: Path)
    requires |segment| > 200
    ensures var g := GuardSegment(segment);
            && |g| == 189 && g[..180] == segment[..180] && g[180] == '~' as int && IsNumeral(g[181..])
            && NumeralValue(g[181..], 16) == PolynomialAt31(segment) % LIMIT32
  {
    HashIsPolynomial(segment);
    Hex8Is(Hash31(segment));
    hide Hash31, Hex8, PolynomialAt31;
    var g, hex := GuardSegment(segment), Hex8(Hash31(segment));
    assert g == segment[..180] + [TILDE] + hex;
    assert g[181..] == hex;
  }

  /** The number in decimal, without a zero in front. */
  ghost predicate IsNumber(text: seq<byte>, n: nat) {
    AllDecimal(text) && text != [] && NumeralValue(text, 10) == n && (|text| > 1 ==> text[0] != 48)
  }

  lemma DotPlace(base: Path, extension: Path, i: nat)
    requires DOT !in extension && i <= |base| + 1 + |extension|
    requires var rel := base + [DOT] + extension;
             if i < |rel| then rel[i] == DOT && DOT !in rel[i + 1..] else DOT !in rel
    ensures i == |base|
  {
    var rel := base + [DOT] + extension;
    assert rel[|base|] == DOT;
  }

  /** A suffix goes before the last dot, with a tilde in front. */
  lemma CandidateWithDot(base: Path, extension: Path, n: nat)
    requires DOT !in extension
    ensures Candidate(base + [DOT] + extension, n) == base + [TILDE] + Decimal(n) + [DOT] + extension
    ensures DOT == '.' as int && TILDE == '~' as int && IsNumber(Decimal(n), n)
  {
    var rel := base + [DOT] + extension;
    var i := SuffixPoint(rel);
    DecimalIs(n);
    DotPlace(base, extension, i);
    hide SuffixPoint, Decimal;
    assert rel[..i] == base && rel[i..] == [DOT] + extension;
  }

  /** Without a dot the suffix goes to the end. */
  lemma CandidateWithoutDot(rel: Path, n: nat)
    requires DOT !in rel
    ensures Candidate(rel, n) == rel + [TILDE] + Decimal(n)
  {
    var i := SuffixPoint(rel);
    hide SuffixPoint;
    assert rel[..|rel|] == rel;
  }

  /** A path that is also a directory gets the extension `.node`. */
  lemma NodeIs(rel: Path, dirs: set<Path>)
    ensures rel !in dirs ==> Shaped(rel, dirs) == GuardLong(rel)
    ensures rel in dirs ==> exists wanted ::
              Shaped(rel, dirs) == GuardLong(wanted)
              && |wanted| == |rel| + 5 && wanted[..|rel|] == rel && SpelledAt(wanted, |rel|, ".node")
  {
    hide GuardLong;
    if rel in dirs {
      var wanted := rel + NODE_SUFFIX;
      assert Shaped(rel, dirs) == GuardLong(wanted) && wanted[..|rel|] == rel;
    }
  }

  // ---------------------------------------------------------------- source paths

  predicate IsChar(b: byte, c: char) {
    b == c as int
  }

  predicate IsBetween(b: byte, first: char, last: char) {
    first as int <= b <= last as int
  }

  /** Capital letters fold to small ones, and nothing else changes. */
  lemma FoldedExactly(b: byte)
    ensures IsBetween(b, 'A', 'Z') ==> LowerByte(b) - 'a' as int == b - 'A' as int
    ensures !IsBetween(b, 'A', 'Z') ==> LowerByte(b) == b
  {
  }

  /** The bytes of a source path: letters, digits, and `_`, `.`, `/`, a backslash, `+` and `-`. */
  lemma PathBytesAre(b: byte)
    ensures IsPathByte(b) <==>
            || IsBetween(b, 'A', 'Z') || IsBetween(b, 'a', 'z') || IsBetween(b, '0', '9')
            || IsChar(b, '_') || IsChar(b, '.') || IsChar(b, '/') || IsChar(b, '\\') || IsChar(b, '+') || IsChar(b, '-')
  {
  }

  /** A source text is 3 to 200 of them, a dot, and an extension. */
  lemma SourceTextIs(text: Path)
    ensures IsSourceText(text) <==> exists body, extension :: IsBodyAndExtension(text, body, extension)
  {
    if k :| 3 <= k <= 200 && EndsAt(text, k) {
      assert IsBodyAndExtension(text, text[..k], text[k + 1..]);
    }
    if body, extension :| IsBodyAndExtension(text, body, extension) {
      hide IsExtension, IsPathByte;
      assert text[|body| + 1..] == extension;
      assert forall i | 0 <= i < |body| :: text[i] == body[i];
      assert EndsAt(text, |body|);
    }
  }

  ghost predicate IsBodyAndExtension(text: Path, body: Path, extension: Path) {
    && 3 <= |body| <= 200 && (forall i | 0 <= i < |body| :: IsPathByte(body[i]))
    && text == body + [DOT] + extension && IsExtension(extension)
  }

  const SOURCE_EXTENSIONS: set<string> :=
    {"c", "cc", "cpp", "cxx", "h", "hh", "hpp", "inc", "inl", "ipp", "asm", "s"}

  /** The text is one of the extensions, in either case. */
  lemma ExtensionsAre(e: Path)
    ensures IsExtension(e) <==> exists s :: s in SOURCE_EXTENSIONS && |e| == |s| && SpelledAt(Lower(e), 0, s)
  {
    var low := Lower(e);
    if IsExtension(e) {
      var s := ExtensionName(low);
      assert s in SOURCE_EXTENSIONS;
    }
    if s :| s in SOURCE_EXTENSIONS && |e| == |s| && SpelledAt(low, 0, s) {
      SpelledExtension(low, s);
    }
  }

  lemma ExtensionName(low: Path) returns (s: string)
    requires low in EXTENSIONS
    ensures s in SOURCE_EXTENSIONS && |low| == |s| && SpelledAt(low, 0, s)
  {
    if low == [99] { s := "c"; }
    else if low == [99, 99] { s := "cc"; }
    else if low == [99, 112, 112] { s := "cpp"; }
    else if low == [99, 120, 120] { s := "cxx"; }
    else if low == [104] { s := "h"; }
    else if low == [104, 104] { s := "hh"; }
    else if low == [104, 112, 112] { s := "hpp"; }
    else if low == [105, 110, 99] { s := "inc"; }
    else if low == [105, 110, 108] { s := "inl"; }
    else if low == [105, 112, 112] { s := "ipp"; }
    else if low == [97, 115, 109] { s := "asm"; }
    else { s := "s"; }
  }

  lemma SpelledExtension(low: Path, s: string)
    requires s in SOURCE_EXTENSIONS && |low| == |s| && SpelledAt(low, 0, s)
    ensures low in EXTENSIONS
  {
    assert forall k | 0 <= k < |s| :: low[0 + k] == s[k] as int;
    assert |s| == 1 ==> low == [s[0] as int];
    assert |s| == 2 ==> low == [s[0] as int, s[1] as int];
    assert |s| == 3 ==> low == [s[0] as int, s[1] as int, s[2] as int];
  }
}
