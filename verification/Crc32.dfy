/** The GPT checksum: the table-driven loop, and the shift register it stands for.

    Registers are unsigned 32-bit numbers; exclusive or, the one bitwise operation
    that has no counterpart in integer arithmetic, is written out bit by bit. */
module Crc32 {
  import opened Bytes

  // The reflected generator polynomial; its set top bit is what makes a clock reversible.
  const POLYNOMIAL: U32 := 0xEDB8_8320
  const ALL_ONES: U32 := 0xFFFF_FFFF

  // ----- exclusive or -----

  /** The low bits of two numbers, compared. */
  function LowBitXor(a: nat, b: nat): (bit: nat)
    ensures bit < 2
  {
    if a % 2 == b % 2 then 0 else 1
  }

  function Xor(a: nat, b: nat): nat
    decreases a + b
  {
    if a == 0 && b == 0 then 0 else LowBitXor(a, b) + 2 * Xor(a / 2, b / 2)
  }

  function TwoTo(k: nat): (p: nat)
    ensures p > 0
  {
    if k == 0 then 1 else 2 * TwoTo(k - 1)
  }

  lemma Digits(h: nat, i: nat)
    requires i < 2
    ensures (i + 2 * h) / 2 == h && (i + 2 * h) % 2 == i
  {}

  lemma SameDigits(a: nat, b: nat)
    requires a / 2 == b / 2 && a % 2 == b % 2
    ensures a == b
  {}

  lemma XorUnfold(a: nat, b: nat)
    ensures Xor(a, b) == LowBitXor(a, b) + 2 * Xor(a / 2, b / 2)
  {}

  lemma XorBits(a: nat, b: nat)
    ensures Xor(a, b) % 2 == LowBitXor(a, b)
    ensures Xor(a, b) / 2 == Xor(a / 2, b / 2)
  {
    hide Xor;
    XorUnfold(a, b);
    Digits(Xor(a / 2, b / 2), LowBitXor(a, b));
  }

  lemma XorFromBits(a: nat, b: nat, x: nat)
    requires x % 2 == LowBitXor(a, b)
    requires x / 2 == Xor(a / 2, b / 2)
    ensures x == Xor(a, b)
  {
    hide Xor;
    XorBits(a, b);
    SameDigits(x, Xor(a, b));
  }

  lemma {:induction false} XorCommutes(a: nat, b: nat)
    ensures Xor(a, b) == Xor(b, a)
    decreases a + b
  {
    if a + b > 0 {
      XorCommutes(a / 2, b / 2);
    }
  }

  lemma {:induction false} XorZero(a: nat)
    ensures Xor(a, 0) == a && Xor(0, a) == a && Xor(a, a) == 0
  {
    if a > 0 {
      XorZero(a / 2);
    }
  }

  lemma {:induction false} XorAssociates(a: nat, b: nat, c: nat)
    ensures Xor(Xor(a, b), c) == Xor(a, Xor(b, c))
    decreases a + b + c
  {
    if a + b + c > 0 {
      XorAssociates(a / 2, b / 2, c / 2);
      AssociateOneBit(a, b, c);
    }
  }

  lemma AssociateOneBit(a: nat, b: nat, c: nat)
    requires Xor(Xor(a / 2, b / 2), c / 2) == Xor(a / 2, Xor(b / 2, c / 2))
    ensures Xor(Xor(a, b), c) == Xor(a, Xor(b, c))
  {
    hide Xor;
    XorBits(a, b);
    XorBits(b, c);
    XorBits(Xor(a, b), c);
    XorFromBits(a, Xor(b, c), Xor(Xor(a, b), c));
  }

  lemma XorUndo(a: nat, m: nat)
    ensures Xor(Xor(a, m), m) == a
  {
    XorAssociates(a, m, m);
    XorZero(m);
    XorZero(a);
  }

  lemma XorPairs(a: nat, b: nat, c: nat, d: nat)
    ensures Xor(Xor(a, b), Xor(c, d)) == Xor(Xor(a, c), Xor(b, d))
  {
    XorAssociates(a, b, Xor(c, d));
    XorAssociates(b, c, d);
    XorCommutes(b, c);
    XorAssociates(c, b, d);
    XorAssociates(a, c, Xor(b, d));
  }

  lemma DoubledProduct(half: nat, h: nat)
    ensures (2 * half) * h == 2 * (half * h)
  {}

  /** Exclusive or works on the digits above and below any bit separately. */
  lemma {:induction false} XorSplit(k: nat, ah: nat, al: nat, bh: nat, bl: nat)
    requires al < TwoTo(k) && bl < TwoTo(k)
    ensures Xor(TwoTo(k) * ah + al, TwoTo(k) * bh + bl) == TwoTo(k) * Xor(ah, bh) + Xor(al, bl)
    ensures Xor(al, bl) < TwoTo(k)
  {
    hide Xor;
    if k == 0 {
      XorZero(0);
    } else {
      var half := TwoTo(k - 1);
      XorSplit(k - 1, ah, al / 2, bh, bl / 2);
      SplitOneBit(half * ah, al, half * bh, bl, half * Xor(ah, bh));
      DoubledProduct(half, ah);
      DoubledProduct(half, bh);
      DoubledProduct(half, Xor(ah, bh));
    }
  }

  lemma HalfOfSplit(h: nat, l: nat)
    ensures (2 * h + l) / 2 == h + l / 2
    ensures (2 * h + l) % 2 == l % 2
  {}

  lemma SplitOneBit(a: nat, al: nat, b: nat, bl: nat, ab: nat)
    requires Xor(a + al / 2, b + bl / 2) == ab + Xor(al / 2, bl / 2)
    ensures Xor(2 * a + al, 2 * b + bl) == 2 * ab + Xor(al, bl)
    ensures Xor(al, bl) <= 2 * Xor(al / 2, bl / 2) + 1
  {
    hide Xor;
    XorBits(al, bl);
    HalfOfSplit(a, al);
    HalfOfSplit(b, bl);
    HalfOfSplit(ab, Xor(al, bl));
    XorFromBits(2 * a + al, 2 * b + bl, 2 * ab + Xor(al, bl));
  }

  lemma Powers()
    ensures TwoTo(8) == 0x100 && TwoTo(16) == 0x1_0000 && TwoTo(24) == 0x100_0000
    ensures TwoTo(31) == 0x8000_0000 && TwoTo(32) == 0x1_0000_0000
  {
    assert TwoTo(4) == 0x10;
    assert TwoTo(8) == 0x100;
    assert TwoTo(12) == 0x1000;
    assert TwoTo(16) == 0x1_0000;
    assert TwoTo(20) == 0x10_0000;
    assert TwoTo(24) == 0x100_0000;
    assert TwoTo(28) == 0x1000_0000;
  }

  lemma XorFits(a: U32, b: U32)
    ensures Xor(a, b) < 0x1_0000_0000
  {
    Powers();
    XorSplit(32, 0, a, 0, b);
  }

  /** Exclusive or as a 32-bit machine computes it. */
  function Xor32(a: U32, b: U32): U32
  {
    XorFits(a, b);
    Xor(a, b)
  }

  // ----- the shift register -----

  /** One clock of the register. */
  function Clock(r: U32): U32
  {
    if r % 2 == 1 then Xor32(POLYNOMIAL, r / 2) else r / 2
  }

  function Clocks(r: U32, n: nat): U32
    decreases n
  {
    if n == 0 then r else Clocks(Clock(r), n - 1)
  }

  /** The low `n` bits of `b` enter the register one at a time, least significant first. */
  function FeedBits(r: U32, b: U32, n: nat): U32
    decreases n
  {
    if n == 0 then r else FeedBits(Clock(Xor32(r, b % 2)), b / 2, n - 1)
  }

  function Register(r: U32, data: seq<Byte>): U32
    decreases |data|
  {
    if data == [] then r else Register(FeedBits(r, data[0], 8), data[1..])
  }

  /** CRC-32 by definition: preset to all ones, every bit of the message fed in, complemented. */
  function Crc(data: seq<Byte>): U32
  {
    Xor32(Register(ALL_ONES, data), ALL_ONES)
  }

  // ----- a clock is linear and reversible -----

  lemma XorThroughFeedback(p: nat, hx: nat, hy: nat)
    ensures Xor(Xor(p, hx), Xor(p, hy)) == Xor(hx, hy)
    ensures Xor(Xor(p, hx), hy) == Xor(p, Xor(hx, hy)) == Xor(hx, Xor(p, hy))
  {
    hide Xor;
    XorPairs(p, hx, p, hy);
    XorZero(p);
    XorZero(Xor(hx, hy));
    XorAssociates(p, hx, hy);
    XorAssociates(hx, p, hy);
    XorCommutes(hx, p);
  }

  lemma ClockLinear(x: U32, y: U32)
    ensures Clock(Xor32(x, y)) == Xor32(Clock(x), Clock(y))
  {
    hide Xor;
    XorBits(x, y);
    XorThroughFeedback(POLYNOMIAL, x / 2, y / 2);
  }

  /** The polynomial's top bit tells a clock that fed back from one that did not. */
  lemma FeedbackSetsTopBit(h: nat)
    requires h < 0x8000_0000
    ensures Xor(POLYNOMIAL, h) >= 0x8000_0000
  {
    Powers();
    XorSplit(31, 1, 0x6DB8_8320, 0, h);
    XorZero(1);
  }

  lemma ClockInjective(x: U32, y: U32)
    requires Clock(x) == Clock(y)
    ensures x == y
  {
    FeedbackSetsTopBit(x / 2);
    FeedbackSetsTopBit(y / 2);
    XorUndo(x / 2, POLYNOMIAL);
    XorUndo(y / 2, POLYNOMIAL);
    XorCommutes(x / 2, POLYNOMIAL);
    XorCommutes(y / 2, POLYNOMIAL);
  }

  lemma {:induction false} ClocksLinear(x: U32, y: U32, n: nat)
    ensures Clocks(Xor32(x, y), n) == Xor32(Clocks(x, n), Clocks(y, n))
    decreases n
  {
    if n > 0 {
      ClockLinear(x, y);
      ClocksLinear(Clock(x), Clock(y), n - 1);
    }
  }

  lemma {:induction false} ClocksInjective(x: U32, y: U32, n: nat)
    requires Clocks(x, n) == Clocks(y, n)
    ensures x == y
    decreases n
  {
    if n > 0 {
      ClocksInjective(Clock(x), Clock(y), n - 1);
      ClockInjective(x, y);
    }
  }

  /** Clocks shift down untouched whatever has only zeros below it. */
  lemma {:induction false} ClocksShiftDown(y: nat, n: nat)
    requires TwoTo(n) * y < 0x1_0000_0000
    ensures Clocks(TwoTo(n) * y, n) == y
  {
    if n > 0 {
      var half := TwoTo(n - 1) * y;
      DoubledProduct(TwoTo(n - 1), y);
      ClocksShiftDown(y, n - 1);
      ClockHalves(half);
      hide Clock;
    }
  }

  lemma ClockHalves(half: nat)
    requires 2 * half < 0x1_0000_0000
    ensures Clock(2 * half) == half
  {
    hide Xor;
  }

  // ----- feeding a byte is one table lookup -----

  lemma FeedOneBit(r: U32, b: U32)
    ensures Clock(Xor32(r, b)) == Xor32(Clock(Xor32(r, b % 2)), b / 2)
  {
    hide Xor;
    var even := 2 * (b / 2);
    XorBits(b % 2, even);
    XorZero(b / 2);
    assert Xor(b % 2, even) == b;
    XorAssociates(r, b % 2, even);
    ClockLinear(Xor32(r, b % 2), even);
  }

  /** Bits fed in one at a time equal the same bits laid over the register beforehand. */
  lemma {:induction false} FeedBitsAreClocks(r: U32, b: U32, n: nat)
    requires b < TwoTo(n)
    ensures FeedBits(r, b, n) == Clocks(Xor32(r, b), n)
    decreases n
  {
    XorZero(r);
    if n > 0 {
      var r' := Clock(Xor32(r, b % 2));
      FeedOneBit(r, b);
      FeedBitsAreClocks(r', b / 2, n - 1);
    }
  }

  lemma FeedByte(r: U32, b: Byte)
    ensures FeedBits(r, b, 8) == Clocks(Xor32(r, b), 8)
  {
    Powers();
    FeedBitsAreClocks(r, b, 8);
  }

  /** Looking up the low byte and shifting the rest down advances the register by a whole byte. */
  lemma LookupFeedsByte(r: U32, b: Byte)
    ensures Xor32(Clocks(Xor32(r, b) % 256, 8), r / 256) == FeedBits(r, b, 8)
  {
    hide Xor, Clocks, FeedBits;
    var x := Xor32(r, b);
    Powers();
    FeedByte(r, b);
    XorSplit(8, r / 256, r % 256, 0, b);
    XorZero(r / 256);
    assert x / 256 == r / 256;
    XorSplit(8, 0, x % 256, r / 256, 0);
    XorZero(x % 256);
    ClocksLinear(x % 256, 256 * (r / 256), 8);
    ClocksShiftDown(r / 256, 8);
  }

  method TableEntry(i: Byte) returns (value: U32)
    ensures value == Clocks(i, 8)
  {
    hide Xor;
    value := i;
    for bit := 0 to 8
      invariant Clocks(value, 8 - bit) == Clocks(i, 8)
    {
      value := if value % 2 == 1 then Xor32(POLYNOMIAL, value / 2) else value / 2;
    }
  }

  method BuildTable() returns (table: array<U32>)
    ensures fresh(table) && table.Length == 256
    ensures forall i :: 0 <= i < 256 ==> table[i] == Clocks(i, 8)
  {
    hide Clocks;
    table := new U32[256];
    for i := 0 to 256
      invariant forall k :: 0 <= k < i ==> table[k] == Clocks(k, 8)
    {
      var entry := TableEntry(i);
      table[i] := entry;
    }
  }

  lemma RegisterStep(r: U32, data: seq<Byte>, i: nat)
    requires i < |data|
    ensures Register(r, data[i..]) == Register(FeedBits(r, data[i], 8), data[i + 1..])
  {
    hide FeedBits;
    assert data[i..][1..] == data[i + 1..];
  }

  /** The shipped loop computes the checksum the shift register defines. */
  method Checksum(data: seq<Byte>) returns (crc: U32)
    ensures crc == Crc(data)
  {
    hide Xor, Clocks, FeedBits;
    var table := BuildTable();
    crc := ALL_ONES;
    assert data[0..] == data;
    for i := 0 to |data|
      invariant forall k :: 0 <= k < 256 ==> table[k] == Clocks(k, 8)
      invariant Register(ALL_ONES, data) == Register(crc, data[i..])
    {
      RegisterStep(crc, data, i);
      LookupFeedsByte(crc, data[i]);
      var index := Xor32(crc, data[i]) % 256;
      crc := Xor32(table[index], crc / 256);
    }
    crc := Xor32(crc, ALL_ONES);
  }

  // ----- every burst within four consecutive bytes is detected -----

  /** Where two registers stood before one byte each, from where they stand after it. */
  lemma RegistersOneByteBack(r: U32, r': U32, a: Byte, b: Byte, apart: nat)
    requires apart < 0x100_0000
    requires Xor(FeedBits(r, a, 8), FeedBits(r', b, 8)) == apart
    ensures Xor(r, r') == 256 * apart + Xor(a, b)
  {
    hide Xor, Clocks, FeedBits;
    FeedByte(r, a);
    FeedByte(r', b);
    ClocksLinear(Xor32(r, a), Xor32(r', b), 8);
    Powers();
    ClocksShiftDown(apart, 8);
    ClocksInjective(Xor32(Xor32(r, a), Xor32(r', b)), 256 * apart, 8);
    XorPairs(r, a, r', b);
    XorUndo(Xor(r, r'), Xor(a, b));
    XorSplit(8, apart, 0, 0, Xor(a, b)) by {
      XorSplit(8, 0, a, 0, b);
    }
    XorZero(apart);
    XorZero(Xor(a, b));
  }

  /** Two registers that meet after at most four bytes started as far apart as those bytes are. */
  lemma {:induction false} RegistersMeet(r: U32, r': U32, w: seq<Byte>, w': seq<Byte>)
    requires |w| == |w'| <= 4
    requires Register(r, w) == Register(r', w')
    ensures Xor(r, r') == Xor(FromLittleEndian(w), FromLittleEndian(w'))
    decreases |w|
  {
    hide Xor, FeedBits;
    if w == [] {
      XorZero(r);
      XorZero(0);
    } else {
      var p, q := FromLittleEndian(w[1..]), FromLittleEndian(w'[1..]);
      RegistersMeet(FeedBits(r, w[0], 8), FeedBits(r', w'[0], 8), w[1..], w'[1..]);
      TailFits(w[1..], w'[1..]);
      RegistersOneByteBack(r, r', w[0], w'[0], Xor(p, q));
      Powers();
      XorSplit(8, p, w[0], q, w'[0]);
    }
  }

  lemma TailFits(w: seq<Byte>, w': seq<Byte>)
    requires |w| <= 3 && |w'| <= 3
    ensures Xor(FromLittleEndian(w), FromLittleEndian(w')) < 0x100_0000
  {
    Powers();
    FromLittleEndianBound(w);
    FromLittleEndianBound(w');
    XorSplit(24, 0, FromLittleEndian(w), 0, FromLittleEndian(w'));
  }

  lemma {:induction false} FromLittleEndianBound(w: seq<Byte>)
    requires |w| <= 3
    ensures |w| <= 1 ==> FromLittleEndian(w) < 0x100
    ensures |w| <= 2 ==> FromLittleEndian(w) < 0x1_0000
    ensures FromLittleEndian(w) < 0x100_0000
  {
    if w != [] {
      FromLittleEndianBound(w[1..]);
      if |w| >= 2 {
        FromLittleEndianBound(w[1..][1..]);
      }
    }
  }

  lemma {:induction false} FromLittleEndianInjective(w: seq<Byte>, w': seq<Byte>)
    requires |w| == |w'|
    requires FromLittleEndian(w) == FromLittleEndian(w')
    ensures w == w'
  {
    if w != [] {
      FromLittleEndianInjective(w[1..], w'[1..]);
      assert w == [w[0]] + w[1..] && w' == [w'[0]] + w'[1..];
    }
  }

  lemma XorApart(a: nat, b: nat)
    requires Xor(a, b) == 0
    ensures a == b
  {
    XorUndo(a, b);
    XorZero(b);
  }

  lemma {:induction false} RegisterInjective(r: U32, r': U32, data: seq<Byte>)
    requires Register(r, data) == Register(r', data)
    ensures r == r'
    decreases |data|
  {
    if data != [] {
      var b := data[0];
      FeedByte(r, b);
      FeedByte(r', b);
      RegisterInjective(FeedBits(r, b, 8), FeedBits(r', b, 8), data[1..]);
      ClocksInjective(Xor32(r, b), Xor32(r', b), 8);
      XorUndo(r, b);
      XorUndo(r', b);
    }
  }

  lemma {:induction false} RegisterConcat(r: U32, a: seq<Byte>, b: seq<Byte>)
    ensures Register(r, a + b) == Register(Register(r, a), b)
    decreases |a|
  {
    if a == [] {
      assert a + b == b;
    } else {
      assert (a + b)[1..] == a[1..] + b;
      RegisterConcat(FeedBits(r, a[0], 8), a[1..], b);
    }
  }

  /** Equal registers after a burst and a common ending mean equal bursts. */
  lemma BurstsSeparateRegisters(r: U32, burst: seq<Byte>, burst': seq<Byte>, after: seq<Byte>)
    requires |burst| == |burst'| <= 4
    requires Register(Register(r, burst), after) == Register(Register(r, burst'), after)
    ensures burst == burst'
  {
    RegisterInjective(Register(r, burst), Register(r, burst'), after);
    RegistersMeet(r, r, burst, burst');
    XorZero(r);
    XorApart(FromLittleEndian(burst), FromLittleEndian(burst'));
    FromLittleEndianInjective(burst, burst');
  }

  /** Two messages that differ only within four consecutive bytes have different checksums. */
  lemma BurstsAreDetected(before: seq<Byte>, burst: seq<Byte>, burst': seq<Byte>, after: seq<Byte>)
    requires |burst| == |burst'| <= 4
    ensures Crc(before + burst + after) == Crc(before + burst' + after) ==> burst == burst'
  {
    RegisterConcat(ALL_ONES, before + burst, after);
    RegisterConcat(ALL_ONES, before, burst);
    RegisterConcat(ALL_ONES, before + burst', after);
    RegisterConcat(ALL_ONES, before, burst');
    if Crc(before + burst + after) == Crc(before + burst' + after) {
      XorUndo(Register(ALL_ONES, before + burst + after), ALL_ONES);
      XorUndo(Register(ALL_ONES, before + burst' + after), ALL_ONES);
      BurstsSeparateRegisters(Register(ALL_ONES, before), burst, burst', after);
    }
  }
}
