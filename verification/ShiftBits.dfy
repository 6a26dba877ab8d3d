/** The barrel shifter bit by bit, and the computed shifts as its only results. */
module ShiftBits {
  import opened Words
  import opened Arm32
  import opened MustValues

  function Bit(value: nat, i: nat): nat {
    if i == 0 then value % 2 else Bit(value / 2, i - 1)
  }

  /** What the architecture says about each bit of a shifted value; RRX shifts the carry in on top. */
  ghost predicate ShiftResult(value: u32, shift: Shift, result: u32) {
    match shift
    case Lsl(amount) => forall i | 0 <= i < 32 :: Bit(result, i) == if i >= amount then Bit(value, i - amount) else 0
    case Lsr(amount) => forall i | 0 <= i < 32 ::
        Bit(result, i) == if i + amount < 32 then Bit(value, i + amount) else 0
    case Asr(amount) =>
      forall i | 0 <= i < 32 :: Bit(result, i) == if i + amount < 32 then Bit(value, i + amount) else Bit(value, 31)
    case Ror(amount) => forall i | 0 <= i < 32 :: Bit(result, i) == Bit(value, (i + amount) % 32)
    case Rrx => forall i | 0 <= i < 31 :: Bit(result, i) == Bit(value, i + 1)
  }

  function Power(n: nat): (p: nat)
    ensures p > 0
  {
    if n == 0 then 1 else 2 * Power(n - 1)
  }

  lemma Power32()
    ensures Power(31) == 0x8000_0000 && Power(32) == LIMIT32
  {
    assert Power(8) == 256;
    assert Power(16) == 0x1_0000;
    assert Power(24) == 0x100_0000;
  }

  lemma {:induction false} BitsDetermine(a: nat, b: nat, n: nat)
    requires a < Power(n) && b < Power(n) && forall i | 0 <= i < n :: Bit(a, i) == Bit(b, i)
    ensures a == b
  {
    if n > 0 {
      forall i | 0 <= i < n - 1
        ensures Bit(a / 2, i) == Bit(b / 2, i)
      {
        assert Bit(a, i + 1) == Bit(b, i + 1);
      }
      BitsDetermine(a / 2, b / 2, n - 1);
      assert Bit(a, 0) == Bit(b, 0);
    }
  }

  /** Adding a bit above a value that fits below it. */
  lemma {:induction false} BitOfTop(a: nat, n: nat, top: nat, i: nat)
    requires a < Power(n) && top < 2 && i <= n
    ensures Bit(a + top * Power(n), i) == if i < n then Bit(a, i) else top
  {
    if n == 0 {
    } else if i == 0 {
      HalfOfTop(a, Power(n - 1), top);
    } else {
      HalfOfTop(a, Power(n - 1), top);
      BitOfTop(a / 2, n - 1, top, i - 1);
    }
  }

  lemma HalfOfTop(a: nat, half: nat, top: nat)
    requires top < 2
    ensures (a + top * (2 * half)) / 2 == a / 2 + top * half && (a + top * (2 * half)) % 2 == a % 2
  {
    if top == 0 {
      assert top * half == 0 && top * (2 * half) == 0;
    } else {
      assert top * half == half && top * (2 * half) == 2 * half;
    }
  }

  lemma RightOneBits(value: u32, top: u32, i: nat)
    requires top < 2 && i < 32
    ensures Bit(RightOne(value, top), i) == if i < 31 then Bit(value, i + 1) else top
  {
    Power32();
    BitOfTop(value / 2, 31, top, i);
  }

  lemma LeftOneBits(value: u32, i: nat)
    requires i < 32
    ensures Bit(LeftOne(value), i) == if i == 0 then 0 else Bit(value, i - 1)
  {
    Power32();
    var low := value % 0x8000_0000;
    var top := value / 0x8000_0000;
    assert LeftOne(value) / 2 == low;
    if i > 0 {
      BitOfTop(low, 31, top, i - 1);
      assert value == low + top * Power(31);
    }
  }

  lemma TopBit(value: u32)
    ensures Bit(value, 31) == value / 0x8000_0000
  {
    Power32();
    BitOfTop(value % 0x8000_0000, 31, value / 0x8000_0000, 31);
  }

  lemma {:induction false} ShiftLeftBits(value: u32, amount: nat, i: nat)
    requires i < 32
    ensures Bit(ShiftLeft(value, amount), i) == if i >= amount then Bit(value, i - amount) else 0
    decreases amount
  {
    if amount > 0 {
      ShiftLeftBits(LeftOne(value), amount - 1, i);
      if i >= amount - 1 {
        LeftOneBits(value, i - (amount - 1));
      }
    }
  }

  lemma {:induction false} ShiftRightBits(value: u32, amount: nat, i: nat)
    requires i < 32
    ensures Bit(ShiftRight(value, amount), i) == if i + amount < 32 then Bit(value, i + amount) else 0
    decreases amount
  {
    if amount > 0 {
      ShiftRightBits(RightOne(value, 0), amount - 1, i);
      if i + amount - 1 < 32 {
        RightOneBits(value, 0, i + amount - 1);
      }
    }
  }

  lemma {:induction false} ShiftRightSignedBits(value: u32, amount: nat, i: nat)
    requires i < 32
    ensures Bit(ShiftRightSigned(value, amount), i) ==
            if i + amount < 32 then Bit(value, i + amount) else Bit(value, 31)
    decreases amount
  {
    if amount > 0 {
      var top := value / 0x8000_0000;
      ShiftRightSignedBits(RightOne(value, top), amount - 1, i);
      TopBit(value);
      RightOneBits(value, top, 31);
      if i + amount - 1 < 32 {
        RightOneBits(value, top, i + amount - 1);
      }
    }
  }

  lemma NextModulo32(n: nat)
    ensures (n + 1) % 32 == if n % 32 == 31 then 0 else n % 32 + 1
  {
  }

  lemma {:induction false} RotateRightBits(value: u32, amount: nat, i: nat)
    requires i < 32
    ensures Bit(RotateRight(value, amount), i) == Bit(value, (i + amount) % 32)
    decreases amount
  {
    if amount > 0 {
      hide Bit, RightOne;
      RotateRightBits(RightOne(value, value % 2), amount - 1, i);
      var j := (i + amount - 1) % 32;
      RightOneBits(value, value % 2, j);
      NextModulo32(i + amount - 1);
    }
  }

  lemma AllOnes(n: nat, i: nat)
    requires i < n
    ensures Bit(Power(n) - 1, i) == 1
  {
    if i > 0 {
      assert (Power(n) - 1) / 2 == Power(n - 1) - 1;
      AllOnes(n - 1, i - 1);
    }
  }

  lemma Zero(i: nat)
    ensures Bit(0, i) == 0
  {
  }

  lemma LeftComputes(value: u32, amount: byte)
    ensures ShiftResult(value, Lsl(amount), ShiftValue(value, Lsl(amount)).value)
  {
    var result := ShiftValue(value, Lsl(amount)).value;
    forall i | 0 <= i < 32
      ensures Bit(result, i) == if i >= amount then Bit(value, i - amount) else 0
    {
      hide Bit;
      if amount < 32 { ShiftLeftBits(value, amount, i); } else { Zero(i); }
    }
  }

  lemma RightComputes(value: u32, amount: byte)
    ensures ShiftResult(value, Lsr(amount), ShiftValue(value, Lsr(amount)).value)
  {
    var result := ShiftValue(value, Lsr(amount)).value;
    forall i | 0 <= i < 32
      ensures Bit(result, i) == if i + amount < 32 then Bit(value, i + amount) else 0
    {
      hide Bit;
      if amount < 32 { ShiftRightBits(value, amount, i); } else { Zero(i); }
    }
  }

  lemma SignedComputes(value: u32, amount: byte)
    ensures ShiftResult(value, Asr(amount), ShiftValue(value, Asr(amount)).value)
  {
    var result := ShiftValue(value, Asr(amount)).value;
    forall i | 0 <= i < 32
      ensures Bit(result, i) == if i + amount < 32 then Bit(value, i + amount) else Bit(value, 31)
    {
      hide Bit, Power;
      TopBit(value);
      Power32();
      if amount < 32 {
        ShiftRightSignedBits(value, amount, i);
      } else if value < 0x8000_0000 {
        Zero(i);
      } else {
        AllOnes(32, i);
      }
    }
  }

  lemma AmountModulo32(i: nat, amount: nat)
    ensures (i + amount % 32) % 32 == (i + amount) % 32
  {
    assert amount == 32 * (amount / 32) + amount % 32;
  }

  lemma RotateComputes(value: u32, amount: byte)
    ensures ShiftResult(value, Ror(amount), ShiftValue(value, Ror(amount)).value)
  {
    var result := ShiftValue(value, Ror(amount)).value;
    forall i | 0 <= i < 32
      ensures Bit(result, i) == Bit(value, (i + amount) % 32)
    {
      hide Bit;
      RotateRightBits(value, amount % 32, i);
      AmountModulo32(i, amount);
    }
  }

  lemma ShiftComputes(value: u32, shift: Shift)
    requires ShiftValue(value, shift).Some?
    ensures ShiftResult(value, shift, ShiftValue(value, shift).value)
  {
    hide ShiftResult;
    match shift
    case Lsl(amount) => LeftComputes(value, amount);
    case Lsr(amount) => RightComputes(value, amount);
    case Asr(amount) => SignedComputes(value, amount);
    case Ror(amount) => RotateComputes(value, amount);
  }

  /** Whenever a shift is computed, the computed value is the one the shifter produces. */
  lemma ShiftExact(value: u32, shift: Shift, result: u32)
    requires ShiftValue(value, shift).Some?
    ensures ShiftResult(value, shift, result) <==> result == ShiftValue(value, shift).value
  {
    ShiftComputes(value, shift);
    Power32();
    if ShiftResult(value, shift, result) {
      BitsDetermine(result, ShiftValue(value, shift).value, 32);
    }
  }
}
