/** What the checksum is, apart from how it is computed: the remainder of a long
    division of polynomials over the field of two elements. */
module CrcDivision {
  import opened Bytes
  import opened Crc32

  // Coefficients, highest power first; dividing takes them from the left.
  type Bits = seq<bool>

  /** x^32 + x^26 + x^23 + x^22 + x^16 + x^12 + x^11 + x^10 + x^8 + x^7 + x^5 + x^4 + x^2 + x + 1. */
  function Generator(): (g: Bits)
    ensures |g| == 33
  {
    seq(33, i requires 0 <= i < 33 => 32 - i in {32, 26, 23, 22, 16, 12, 11, 10, 8, 7, 5, 4, 2, 1, 0})
  }

  /** The sum of two polynomials, the shorter with more high powers: coefficients are added without carry. */
  function Plus(a: Bits, b: Bits): (sum: Bits)
    ensures |sum| == |a|
  {
    seq(|a|, i requires 0 <= i < |a| => a[i] != (i < |b| && b[i]))
  }

  /** Long division: while there is a power the generator reaches, it is cancelled. */
  function Remainder(dividend: Bits): (rest: Bits)
    ensures |rest| == if |dividend| < 32 then |dividend| else 32
    decreases |dividend|
  {
    if |dividend| <= 32 then dividend
    else Remainder((if dividend[0] then Plus(dividend, Generator()) else dividend)[1..])
  }

  function Repeated(bit: bool, count: nat): (bits: Bits)
    ensures |bits| == count
  {
    seq(count, _ => bit)
  }

  /** The low bits of a number, lowest first. */
  function LowBits(number: nat, count: nat): (bits: Bits)
    ensures |bits| == count
    decreases count
  {
    if count == 0 then [] else [number % 2 == 1] + LowBits(number / 2, count - 1)
  }

  /** A message as bits, each byte lowest bit first. */
  function MessageBits(data: seq<Byte>): (bits: Bits)
    ensures |bits| == 8 * |data|
    decreases |data|
  {
    if data == [] then [] else LowBits(data[0], 8) + MessageBits(data[1..])
  }

  /** The message times x^32, with the preset laid over its first 32 coefficients. */
  function Dividend(register: Bits, message: Bits): (dividend: Bits)
    requires |register| == 32
    ensures |dividend| == |message| + 32
  {
    Plus(message + Repeated(false, 32), register)
  }

  // ----- registers as bits -----

  lemma {:induction false} BitsOfXor(a: nat, b: nat, count: nat)
    ensures LowBits(Xor(a, b), count) == Plus(LowBits(a, count), LowBits(b, count))
    decreases count
  {
    hide Xor;
    if count > 0 {
      XorBits(a, b);
      BitsOfXor(a / 2, b / 2, count - 1);
    }
  }

  /** Halving drops the lowest bit, and what comes in at the top is zero. */
  lemma {:induction false} TopBit(number: nat, count: nat)
    requires number < TwoTo(count)
    ensures LowBits(number, count + 1) == LowBits(number, count) + [false]
    decreases count
  {
    if count > 0 {
      TopBit(number / 2, count - 1);
      assert LowBits(number, count + 1) == [number % 2 == 1] + LowBits(number / 2, count);
    } else {
      assert number == 0;
      assert LowBits(0, 1) == [false] + LowBits(0, 0);
    }
  }

  lemma OneBit(number: nat, count: nat)
    ensures LowBits(number, count + 1) == [number % 2 == 1] + LowBits(number / 2, count)
  {}

  lemma HalfShifts(number: nat, count: nat)
    requires number < TwoTo(count) && count > 0
    ensures LowBits(number / 2, count) == LowBits(number, count)[1..] + [false]
  {
    hide LowBits, TwoTo;
    TopBit(number, count);
    OneBit(number, count);
    ShiftOne(LowBits(number, count), LowBits(number / 2, count), number % 2 == 1);
  }

  lemma ShiftOne(bits: Bits, half: Bits, lowest: bool)
    requires bits != [] && bits + [false] == [lowest] + half
    ensures half == bits[1..] + [false]
  {
    assert half == (bits + [false])[1..];
  }

  lemma FourBits(number: nat, count: nat)
    ensures LowBits(number, count + 4)
         == [number % 2 == 1, number / 2 % 2 == 1, number / 4 % 2 == 1, number / 8 % 2 == 1] + LowBits(number / 16, count)
  {
    hide LowBits;
    OneBit(number, count + 3);
    OneBit(number / 2, count + 2);
    OneBit(number / 4, count + 1);
    OneBit(number / 8, count);
  }

  lemma LowHalfOfPolynomial()
    ensures LowBits(POLYNOMIAL, 32) == [ false, false, false, false, false, true, false, false,
                                     true, true, false, false, false, false, false, true ] + LowBits(0xEDB8, 16)
  {
    hide LowBits;
    FourBits(POLYNOMIAL, 28);
    FourBits(0xEDB_8832, 24);
    FourBits(0xED_B883, 20);
    FourBits(0xE_DB88, 16);
  }

  lemma HighHalfOfPolynomial()
    ensures LowBits(0xEDB8, 16) == [ false, false, false, true, true, true, false, true,
                                     true, false, true, true, false, true, true, true ]
  {
    hide LowBits;
    FourBits(0xEDB8, 12);
    FourBits(0xEDB, 8);
    FourBits(0xED, 4);
    FourBits(0xE, 0);
  }

  /** The generator without its highest power, which every step of a division cancels. */
  lemma BitsOfPolynomial()
    ensures LowBits(POLYNOMIAL, 32) == Generator()[1..]
  {
    hide LowBits;
    LowHalfOfPolynomial();
    HighHalfOfPolynomial();
  }

  lemma {:induction false} BitsDiffer(a: nat, b: nat, count: nat)
    requires a < TwoTo(count) && b < TwoTo(count) && LowBits(a, count) == LowBits(b, count)
    ensures a == b
    decreases count
  {
    if count > 0 {
      OneBit(a, count - 1);
      OneBit(b, count - 1);
      hide LowBits;
      assert LowBits(a, count)[1..] == LowBits(a / 2, count - 1) && LowBits(b, count)[1..] == LowBits(b / 2, count - 1);
      BitsDiffer(a / 2, b / 2, count - 1);
    }
  }

  lemma {:induction false} BitsOfOnes(count: nat)
    ensures LowBits(TwoTo(count) - 1, count) == Repeated(true, count)
  {
    if count > 0 {
      BitsOfOnes(count - 1);
      OneBit(TwoTo(count) - 1, count - 1);
      hide LowBits;
      assert (TwoTo(count) - 1) / 2 == TwoTo(count - 1) - 1;
    }
  }

  lemma {:induction false} BitsOfBit(bit: nat, count: nat)
    requires bit < 2 && count > 0
    ensures LowBits(bit, count) == [bit == 1] + Repeated(false, count - 1)
    decreases count
  {
    OneBit(bit, count - 1);
    if count > 1 {
      BitsOfBit(0, count - 1);
    }
  }

  // ----- the register divides -----

  /** What one step of the division makes of the leading coefficients. */
  function Shifted(register: Bits, cancels: bool): (next: Bits)
    requires |register| == 32
    ensures |next| == 32
  {
    var moved := register[1..] + [false];
    if cancels then Plus(moved, Generator()[1..]) else moved
  }

  lemma ClockShifts(r: U32)
    ensures LowBits(Clock(r), 32) == Shifted(LowBits(r, 32), r % 2 == 1)
  {
    hide LowBits, Xor, Generator;
    Powers();
    HalfShifts(r, 32);
    BitsOfPolynomial();
    BitsOfXor(POLYNOMIAL, r / 2, 32);
  }

  lemma DivisionStep(register: Bits, message: Bits)
    requires |register| == 32 && message != []
    ensures Remainder(Dividend(register, message))
         == Remainder(Dividend(Shifted(register, register[0] != message[0]), message[1..]))
  {
    var dividend, cancels := Dividend(register, message), register[0] != message[0];
    var next := (if cancels then Plus(dividend, Generator()) else dividend)[1..];
    assert dividend[0] == cancels;
    assert Remainder(dividend) == Remainder(next);
    hide Remainder, Generator;
    NextDividend(register, message, next);
  }

  lemma NextDividend(register: Bits, message: Bits, next: Bits)
    requires |register| == 32 && message != []
    requires var cancels := register[0] != message[0];
             next == (if cancels then Plus(Dividend(register, message), Generator()) else Dividend(register, message))[1..]
    ensures next == Dividend(Shifted(register, register[0] != message[0]), message[1..])
  {
    hide Generator;
    assert (message + Repeated(false, 32))[1..] == message[1..] + Repeated(false, 32);
  }

  /** A bit that enters the register is the next coefficient of the message. */
  lemma BitDivides(r: U32, bit: U32, message: Bits)
    requires bit < 2 && message != [] && message[0] == (bit == 1)
    ensures Remainder(Dividend(LowBits(r, 32), message))
         == Remainder(Dividend(LowBits(Clock(Xor32(r, bit)), 32), message[1..]))
  {
    hide LowBits, Xor, Remainder, Dividend, Clock, Generator;
    var x := Xor32(r, bit);
    DivisionStep(LowBits(r, 32), message);
    BitsOfXor(r, bit, 32);
    BitsOfBit(bit, 32);
    ClockShifts(x);
    XorBits(r, bit);
    OneBit(x, 31);
    OneBit(r, 31);
    assert LowBits(x, 32)[1..] == LowBits(r, 32)[1..];
    hide Shifted;
    SameShift(LowBits(x, 32), LowBits(r, 32), x % 2 == 1);
  }

  lemma SameShift(a: Bits, b: Bits, cancels: bool)
    requires |a| == |b| == 32 && a[1..] == b[1..]
    ensures Shifted(a, cancels) == Shifted(b, cancels)
  {}

  lemma FedBits(r: U32, b: U32, n: nat)
    ensures FeedBits(r, b, n) == if n == 0 then r else FeedBits(Clock(Xor32(r, b % 2)), b / 2, n - 1)
  {}

  lemma {:induction false} BitsDivide(r: U32, b: U32, n: nat, rest: Bits)
    ensures Remainder(Dividend(LowBits(r, 32), LowBits(b, n) + rest))
         == Remainder(Dividend(LowBits(FeedBits(r, b, n), 32), rest))
    decreases n
  {
    hide LowBits, Xor, Remainder, Dividend, Clock, FeedBits;
    FedBits(r, b, n);
    if n == 0 {
      assert LowBits(b, 0) + rest == rest;
    } else {
      var message := LowBits(b, n) + rest;
      OneBit(b, n - 1);
      BitDivides(r, b % 2, message);
      assert message[1..] == LowBits(b / 2, n - 1) + rest;
      BitsDivide(Clock(Xor32(r, b % 2)), b / 2, n - 1, rest);
    }
  }

  lemma {:induction false} RegisterDivides(r: U32, data: seq<Byte>)
    ensures Remainder(Dividend(LowBits(r, 32), MessageBits(data))) == LowBits(Register(r, data), 32)
    decreases |data|
  {
    hide LowBits, FeedBits;
    if data == [] {
      assert Dividend(LowBits(r, 32), []) == LowBits(r, 32);
    } else {
      hide Remainder, Dividend;
      BitsDivide(r, data[0], 8, MessageBits(data[1..]));
      RegisterDivides(FeedBits(r, data[0], 8), data[1..]);
    }
  }

  /** The checksum of a message is the 32-bit number whose bits, lowest first, are the complement of the remainder
      of the preset message divided by the generator. */
  lemma CrcIsRemainder(data: seq<Byte>, crc: U32)
    ensures crc == Crc(data) <==>
              LowBits(crc, 32)
              == Plus(Remainder(Dividend(Repeated(true, 32), MessageBits(data))), Repeated(true, 32))
  {
    hide LowBits, Register, Xor, Remainder, Dividend, TwoTo;
    Powers();
    BitsOfOnes(32);
    RegisterDivides(ALL_ONES, data);
    BitsOfXor(Register(ALL_ONES, data), ALL_ONES, 32);
    if LowBits(crc, 32) == LowBits(Crc(data), 32) {
      BitsDiffer(crc, Crc(data), 32);
    }
  }
}
