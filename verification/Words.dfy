/** Machine words, failure-compatible results and ordered iteration over sets. */
module Words {

  const LIMIT32: int := 0x1_0000_0000

  /** A 32-bit address or register value. */
  type u32 = x: int | 0 <= x < 0x1_0000_0000

  const LIMIT64: int := 0x1_0000_0000_0000_0000

  type u64 = x: int | 0 <= x < 0x1_0000_0000_0000_0000

  type u16 = x: int | 0 <= x < 0x1_0000

  type byte = x: int | 0 <= x < 256

  datatype Option<+T> = None | Some(value: T)

  datatype Result<+T, +E> = Success(value: T) | Failure(error: E)

  ghost predicate StrictlyAscending(q: seq<int>) {
    forall i, j | 0 <= i < j < |q| :: q[i] < q[j]
  }

  ghost predicate IsLeast(m: u32, s: set<u32>) {
    m in s && forall k | k in s :: m <= k
  }

  lemma {:induction false} LeastExists(s: set<u32>) returns (m: u32)
    requires s != {}
    ensures IsLeast(m, s)
    decreases |s|
  {
    var x: u32 :| x in s;
    m := x;
    if s - {x} != {} {
      var other := LeastExists(s - {x});
      m := if other < x then other else x;
    }
    assert forall k | k in s :: k == x || k in s - {x};
  }

  function Least(s: set<u32>): (m: u32)
    requires s != {}
    ensures IsLeast(m, s)
  {
    assert exists m :: IsLeast(m, s) by { var m := LeastExists(s); }
    var m: u32 :| m in s && forall k | k in s :: m <= k;
    m
  }

  /** The members of a set in ascending order: how a `BTreeSet` is iterated. */
  function Ascending(s: set<u32>): (q: seq<u32>)
    ensures StrictlyAscending(q)
    ensures forall x :: x in q <==> x in s
    ensures |q| == |s|
  {
    if s == {} then [] else [Least(s)] + Ascending(s - {Least(s)})
  }

  /** A word as it is stored: least significant byte first. */
  function LittleEndian(n: u32): (bytes: seq<byte>)
    ensures |bytes| == 4
  {
    [n % 0x100, n / 0x100 % 0x100, n / 0x1_0000 % 0x100, n / 0x100_0000]
  }

  lemma LittleEndianInjective(m: u32, n: u32)
    requires LittleEndian(m) == LittleEndian(n)
    ensures m == n
  {
    var a, b := LittleEndian(m), LittleEndian(n);
    assert a[0] == b[0] && a[1] == b[1] && a[2] == b[2] && a[3] == b[3];
    Digits(m);
    Digits(n);
  }

  lemma Digits(n: u32)
    ensures n == n % 0x100 + n / 0x100 % 0x100 * 0x100 + n / 0x1_0000 % 0x100 * 0x1_0000 + n / 0x100_0000 * 0x100_0000
  {
    DividedBySquare(n);
    DividedByCube(n);
  }

  lemma DividedBySquare(n: u32)
    ensures n / 0x100 / 0x100 == n / 0x1_0000
  {
    var a := n / 0x100;
    var b := a / 0x100;
    assert n == b * 0x1_0000 + (a % 0x100 * 0x100 + n % 0x100);
  }

  lemma DividedByCube(n: u32)
    ensures n / 0x1_0000 / 0x100 == n / 0x100_0000
  {
    var a := n / 0x1_0000;
    var b := a / 0x100;
    assert n == b * 0x100_0000 + (a % 0x100 * 0x1_0000 + n % 0x1_0000);
  }

  function LittleEndian32(b0: byte, b1: byte, b2: byte, b3: byte): u32 {
    b0 + b1 * 0x100 + b2 * 0x1_0000 + b3 * 0x100_0000
  }

  lemma LittleEndianReads(n: u32)
    ensures var b := LittleEndian(n); LittleEndian32(b[0], b[1], b[2], b[3]) == n
  {
    Digits(n);
  }

  lemma LittleEndianWrites(b0: byte, b1: byte, b2: byte, b3: byte)
    ensures LittleEndian(LittleEndian32(b0, b1, b2, b3)) == [b0, b1, b2, b3]
  {
    var n := LittleEndian32(b0, b1, b2, b3);
    assert n / 0x100 == b1 + b2 * 0x100 + b3 * 0x1_0000;
    assert n / 0x1_0000 == b2 + b3 * 0x100;
    assert n / 0x100_0000 == b3;
  }

  /** The word at a place, low byte first. */
  predicate NumberAt(bytes: seq<byte>, at: nat, n: int) {
    at + 4 <= |bytes|
    && n == bytes[at] as int + bytes[at + 1] as int * 0x100 + bytes[at + 2] as int * 0x1_0000
            + bytes[at + 3] as int * 0x100_0000
  }

  lemma NumberIn(bytes: seq<byte>, at: nat, n: u32)
    requires at + 4 <= |bytes| && bytes[at..at + 4] == LittleEndian(n)
    ensures NumberAt(bytes, at, n)
  {
    var part, b := bytes[at..at + 4], LittleEndian(n);
    assert part[0] == bytes[at] && part[1] == bytes[at + 1] && part[2] == bytes[at + 2] && part[3] == bytes[at + 3];
    LittleEndianReads(n);
  }

  /** The characters of a text stand at a place, one byte each. */
  predicate SpelledAt(bytes: seq<byte>, at: nat, text: string) {
    at + |text| <= |bytes| && forall k | 0 <= k < |text| :: bytes[at + k] == text[k] as int
  }

  lemma SubSlice(bytes: seq<byte>, from: nat, to: nat, i: nat, j: nat)
    requires from <= to <= |bytes| && i <= j <= to - from
    ensures bytes[from..to][i..j] == bytes[from + i..from + j]
  {
    var part := bytes[from..to];
    var a, b := part[i..j], bytes[from + i..from + j];
    forall k | 0 <= k < |a|
      ensures a[k] == b[k]
    {
      var at := i + k;
      assert a[k] == part[at];
      assert part[at] == bytes[from + at];
      assert b[k] == bytes[from + i + k];
    }
  }
}
