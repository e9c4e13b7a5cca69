/** The checksum of section 8 of RFC 1952 as that section has it: the remainder of a division of polynomials over the
    field of two elements. The divisor is written by its exponents and divided the long way, highest bit first; nothing
    here shifts a register. */
module CrcDivision {
  import opened Common
  import opened Crc

  type Bits = seq<bool>

  /** The exponents of the divisor. */
  const EXPONENTS: seq<nat> := [32, 26, 23, 22, 16, 12, 11, 10, 8, 7, 5, 4, 2, 1, 0]

  /** The divisor, highest exponent first. */
  function Divisor(): (r: Bits)
    ensures |r| == 33 && r[0]
  {
    assert 32 in EXPONENTS by { assert EXPONENTS[0] == 32; }
    seq(33, k requires 0 <= k < 33 => (32 - k) in EXPONENTS)
  }

  /** Adding is subtracting. */
  function Added(one: Bits, other: Bits): (r: Bits)
    requires |one| == |other|
    ensures |r| == |one| && forall i :: 0 <= i < |r| ==> r[i] == (one[i] != other[i])
  {
    seq(|one|, i requires 0 <= i < |one| => one[i] != other[i])
  }

  /** Long division, until what is left is shorter than the divisor. */
  function Remainder(dividend: Bits): (r: Bits)
    requires |dividend| >= 32
    ensures |r| == 32
    decreases |dividend|
  {
    if |dividend| == 32 then dividend
    else if dividend[0] then Remainder(Added(dividend[..33], Divisor())[1..] + dividend[33..])
    else Remainder(dividend[1..])
  }

  function Zeros(count: nat): (r: Bits)
    ensures |r| == count && forall i :: 0 <= i < |r| ==> !r[i]
  {
    seq(count, _ => false)
  }

  function Complemented(bits: Bits): (r: Bits)
    ensures |r| == |bits| && forall i :: 0 <= i < |r| ==> r[i] == !bits[i]
  {
    seq(|bits|, i requires 0 <= i < |bits| => !bits[i])
  }

  /** The bits of a number, lowest first. */
  function BitsOf(value: nat, count: nat): (r: Bits)
    ensures |r| == count
  {
    if count == 0 then [] else [value % 2 == 1] + BitsOf(value / 2, count - 1)
  }

  /** Bytes as they are sent: each lowest bit first. */
  function Sent(bytes: seq<Byte>): (r: Bits)
    ensures |r| == 8 * |bytes|
  {
    if bytes == [] then [] else BitsOf(bytes[0], 8) + Sent(bytes[1..])
  }

  /** Sent bits followed by room for the remainder, the first thirty-two of them all complemented. */
  function Preset(bits: Bits): (r: Bits)
    ensures |r| == |bits| + 32
  {
    var all := bits + Zeros(32);
    Complemented(all[..32]) + all[32..]
  }

  // ---------------------------------------------------------------- a register mixed in

  /** The bits with a register's thirty-two added to the first of them. */
  function Mixed(register: Bits, bits: Bits): (r: Bits)
    requires |register| == 32 <= |bits|
    ensures |r| == |bits|
    ensures forall i :: 0 <= i < |r| ==> r[i] == if i < 32 then register[i] != bits[i] else bits[i]
  {
    Added(register, bits[..32]) + bits[32..]
  }

  /** The register after a zero has gone in: its first bit out, and the divisor added if that was a one. */
  function Stepped(register: Bits): (r: Bits)
    requires |register| == 32
    ensures |r| == 32
  {
    Added(register[1..] + [false], if register[0] then Divisor()[1..] else Zeros(32))
  }

  lemma SteppedAt(register: Bits, i: nat)
    requires |register| == 32 && i < 32
    ensures Stepped(register)[i] == ((i < 31 && register[i + 1]) != (register[0] && Divisor()[i + 1]))
  {
    hide Divisor, Added, Zeros;
    assert (register[1..] + [false])[i] == (i < 31 && register[i + 1]);
  }

  /** What is left of the dividend after one step of the division. */
  function Left(bits: Bits): (r: Bits)
    requires |bits| > 32
    ensures |r| == |bits| - 1 && Remainder(bits) == Remainder(r)
  {
    if bits[0] then Added(bits[..33], Divisor())[1..] + bits[33..] else bits[1..]
  }

  lemma LeftAt(bits: Bits, i: nat)
    requires |bits| > 32 && i < |bits| - 1
    ensures Left(bits)[i] == (bits[i + 1] != (i < 32 && bits[0] && Divisor()[i + 1]))
  {
    hide Divisor, Remainder;
  }

  lemma ZeroIn(register: Bits, rest: Bits)
    requires |register| == 32 <= |rest|
    ensures Remainder(Mixed(register, [false] + rest)) == Remainder(Mixed(Stepped(register), rest))
  {
    var bits, next := Mixed(register, [false] + rest), Mixed(Stepped(register), rest);
    hide Divisor, Mixed, Stepped, Left, Remainder;
    forall i | 0 <= i < |rest|
      ensures Left(bits)[i] == next[i]
    {
      LeftAt(bits, i);
      if i < 32 {
        SteppedAt(register, i);
      }
      assert ([false] + rest)[i + 1] == rest[i];
    }
    assert Left(bits) == next;
  }

  // ---------------------------------------------------------------- numbers as registers

  lemma {:induction false} BitsOfXor(a: nat, b: nat, count: nat)
    ensures BitsOf(Xor(a, b), count) == Added(BitsOf(a, count), BitsOf(b, count))
  {
    if count > 0 {
      XorParts(a, b);
      BitsOfXor(a / 2, b / 2, count - 1);
      hide Xor;
    }
  }

  lemma {:induction false} BitsOfHalf(value: nat, count: nat)
    requires value < Shifted(1, count + 1)
    ensures BitsOf(value / 2, count + 1) == BitsOf(value, count + 1)[1..] + [false]
  {
    if count > 0 {
      BitsOfHalf(value / 2, count - 1);
    } else {
      assert value < 2 && value / 2 == 0;
    }
  }

  lemma {:induction false} BitsOfSmall(value: nat, count: nat, more: nat)
    requires value < Shifted(1, count)
    ensures BitsOf(value, count + more) == BitsOf(value, count) + Zeros(more)
  {
    if count > 0 {
      BitsOfSmall(value / 2, count - 1, more);
    } else {
      BitsOfNothing(more);
    }
  }

  lemma {:induction false} BitsOfNothing(count: nat)
    ensures BitsOf(0, count) == Zeros(count)
  {
    if count > 0 {
      BitsOfNothing(count - 1);
    }
  }

  lemma {:induction false} BitsJoin(low: nat, high: nat, count: nat, more: nat)
    requires low < Shifted(1, count)
    ensures BitsOf(low + Shifted(high, count), count + more) == BitsOf(low, count) + BitsOf(high, more)
  {
    if count > 0 {
      var value := low + Shifted(high, count);
      assert value % 2 == low % 2 && value / 2 == low / 2 + Shifted(high, count - 1);
      BitsJoin(low / 2, high, count - 1, more);
    }
  }

  lemma ByteJoin(low: Byte, high: nat, more: nat)
    ensures BitsOf(low + 256 * high, 8 + more) == BitsOf(low, 8) + BitsOf(high, more)
  {
    ShiftedByByte(1);
    ShiftedByByte(high);
    BitsJoin(low, high, 8, more);
  }

  lemma InExponents(n: nat)
    ensures n in EXPONENTS <==>
            n == 32 || n == 26 || n == 23 || n == 22 || n == 16 || n == 12 || n == 11 || n == 10 || n == 8 || n == 7
            || n == 5 || n == 4 || n == 2 || n == 1 || n == 0
  {
    assert EXPONENTS == [32, 26, 23, 22, 16, 12, 11, 10, 8, 7, 5, 4, 2, 1, 0];
  }

  lemma DivisorAt(k: nat)
    requires k < 33
    ensures Divisor()[k] ==
            (k == 0 || k == 6 || k == 9 || k == 10 || k == 16 || k == 20 || k == 21 || k == 22 || k == 24 || k == 25
             || k == 27 || k == 28 || k == 30 || k == 31 || k == 32)
  {
    InExponents(32 - k);
    hide EXPONENTS;
  }

  lemma DivisorFour(k: nat)
    requires k + 4 <= 33
    ensures Divisor()[k..k + 4] == [Divisor()[k], Divisor()[k + 1], Divisor()[k + 2], Divisor()[k + 3]]
  {
    hide Divisor;
  }

  lemma DivisorIs()
    ensures Divisor()[1..9] == [false, false, false, false] + [false, true, false, false]
    ensures Divisor()[9..17] == [true, true, false, false] + [false, false, false, true]
    ensures Divisor()[17..25] == [false, false, false, true] + [true, true, false, true]
    ensures Divisor()[25..33] == [true, false, true, true] + [false, true, true, true]
  {
    hide Divisor;
    forall k | 0 <= k < 33
      ensures Divisor()[k] ==
              (k == 0 || k == 6 || k == 9 || k == 10 || k == 16 || k == 20 || k == 21 || k == 22 || k == 24 || k == 25
               || k == 27 || k == 28 || k == 30 || k == 31 || k == 32)
    {
      DivisorAt(k);
    }
  }

  lemma NextBit(bit: bool, higher: nat, count: nat)
    ensures BitsOf(One(bit) + 2 * higher, count + 1) == [bit] + BitsOf(higher, count)
  {
  }

  /** A byte by its two hexadecimal digits, the lower one first. */
  lemma ByteBits(low: nat, high: nat)
    requires low < 16 && high < 16
    ensures BitsOf(low + 16 * high, 8) == BitsOf(low, 4) + BitsOf(high, 4)
  {
    assert Shifted(high, 1) == 2 * high;
    assert Shifted(high, 2) == 4 * high;
    assert Shifted(high, 3) == 8 * high;
    assert Shifted(high, 4) == 16 * high;
    assert Shifted(1, 2) == 4 && Shifted(1, 4) == 16;
    BitsJoin(low, high, 4, 4);
  }

  lemma DigitBits(b0: bool, b1: bool, b2: bool, b3: bool)
    ensures BitsOf(One(b0) + 2 * (One(b1) + 2 * (One(b2) + 2 * One(b3))), 4) == [b0, b1, b2, b3]
  {
    var v2 := One(b2) + 2 * One(b3);
    var v1 := One(b1) + 2 * v2;
    NextBit(b0, v1, 3);
    NextBit(b1, v2, 2);
    NextBit(b2, One(b3), 1);
    NextBit(b3, 0, 0);
    assert BitsOf(0, 0) == [];
    hide BitsOf;
  }

  function One(bit: bool): nat { if bit then 1 else 0 }

  lemma FirstByte()
    ensures BitsOf(0x20, 8) == Divisor()[1..9]
  {
    ByteBits(0x0, 0x2);
    DigitBits(false, false, false, false);
    DigitBits(false, true, false, false);
    DivisorIs();
    hide BitsOf, Divisor;
  }

  lemma SecondByte()
    ensures BitsOf(0x83, 8) == Divisor()[9..17]
  {
    ByteBits(0x3, 0x8);
    DigitBits(true, true, false, false);
    DigitBits(false, false, false, true);
    DivisorIs();
    hide BitsOf, Divisor;
  }

  lemma ThirdByte()
    ensures BitsOf(0xB8, 8) == Divisor()[17..25]
  {
    ByteBits(0x8, 0xB);
    DigitBits(false, false, false, true);
    DigitBits(true, true, false, true);
    DivisorIs();
    hide BitsOf, Divisor;
  }

  lemma FourthByte()
    ensures BitsOf(0xED, 8) == Divisor()[25..33]
  {
    ByteBits(0xD, 0xE);
    DigitBits(true, false, true, true);
    DigitBits(false, true, true, true);
    DivisorIs();
    hide BitsOf, Divisor;
  }

  lemma PolynomialBytes()
    ensures BitsOf(POLYNOMIAL, 32) == BitsOf(0x20, 8) + (BitsOf(0x83, 8) + (BitsOf(0xB8, 8) + BitsOf(0xED, 8)))
  {
    hide BitsOf;
    assert POLYNOMIAL == 0x20 + 256 * 0xED_B883;
    ByteJoin(0x20, 0xED_B883, 24);
    ByteJoin(0x83, 0xEDB8, 16);
    ByteJoin(0xB8, 0xED, 8);
  }

  /** The constant of the code is the divisor without its highest exponent, mirrored. */
  lemma PolynomialIsDivisor()
    ensures BitsOf(POLYNOMIAL, 32) == Divisor()[1..]
  {
    PolynomialBytes();
    FirstByte();
    SecondByte();
    ThirdByte();
    FourthByte();
    hide *;
    JoinFour(Divisor());
  }

  lemma JoinFour(divisor: Bits)
    requires |divisor| == 33
    ensures divisor[1..] == divisor[1..9] + (divisor[9..17] + (divisor[17..25] + divisor[25..33]))
  {
  }

  // ---------------------------------------------------------------- the checksum is that remainder

  lemma BitStepIs(crc: nat)
    requires crc < 0x1_0000_0000
    ensures BitsOf(BitStep(crc), 32) == Stepped(BitsOf(crc, 32))
  {
    BitsOfXor(crc / 2, Fallen(crc), 32);
    ShiftedByWord(1);
    BitsOfHalf(crc, 31);
    PolynomialIsDivisor();
    BitsOfNothing(32);
    assert BitsOf(crc, 32)[0] == (crc % 2 == 1);
    hide BitsOf, Xor, Divisor, Added, Zeros;
  }

  /** Zeros going in one at a time are bit steps. */
  lemma {:induction false} ZerosIn(crc: nat, count: nat, rest: Bits)
    requires crc < 0x1_0000_0000 && |rest| >= 32
    ensures Remainder(Mixed(BitsOf(crc, 32), Zeros(count) + rest))
            == Remainder(Mixed(BitsOf(BitSteps(crc, count), 32), rest))
  {
    hide BitsOf, Mixed, Remainder, BitStep, Stepped;
    if count == 0 {
      assert Zeros(0) + rest == rest;
    } else {
      assert Zeros(count) + rest == Zeros(count - 1) + ([false] + rest);
      ZerosIn(crc, count - 1, [false] + rest);
      BitStepsBelow(crc, count - 1);
      BitStepIs(BitSteps(crc, count - 1));
      ZeroIn(BitsOf(BitSteps(crc, count - 1), 32), rest);
    }
  }

  /** A byte going in is a byte added to the register, and eight zeros. */
  lemma ByteIn(crc: nat, byte: Byte, rest: Bits)
    requires crc < 0x1_0000_0000 && |rest| >= 32
    ensures Mixed(BitsOf(crc, 32), BitsOf(byte, 8) + rest) == Mixed(BitsOf(Xor(crc, byte), 32), Zeros(8) + rest)
  {
    BitsOfXor(crc, byte, 32);
    ShiftedByByte(1);
    BitsOfSmall(byte, 8, 24);
    var left, right := Mixed(BitsOf(crc, 32), BitsOf(byte, 8) + rest),
                       Mixed(BitsOf(Xor(crc, byte), 32), Zeros(8) + rest);
    hide BitsOf, Mixed, Xor, Added, Zeros;
    forall i | 0 <= i < |left|
      ensures left[i] == right[i]
    {
      if i < 32 {
        assert BitsOf(byte, 32)[i] == (i < 8 && BitsOf(byte, 8)[i]);
      }
    }
  }

  lemma XorBelow(a: nat, b: nat)
    requires a < 0x1_0000_0000 && b < 0x1_0000_0000
    ensures Xor(a, b) < 0x1_0000_0000
  {
    hide Xor;
    ShiftedByWord(1);
    XorSplit(a, b, 0, 32);
  }

  /** The running remainder of the code is the register of the division, wherever the bytes begin. */
  lemma {:induction false} FoldDivides(crc: nat, bytes: seq<Byte>)
    requires crc < 0x1_0000_0000
    ensures Remainder(Mixed(BitsOf(crc, 32), Sent(bytes) + Zeros(32))) == BitsOf(Fold(crc, bytes), 32)
    decreases |bytes|
  {
    hide BitsOf, Mixed, BitSteps, Xor;
    if bytes == [] {
      assert Sent(bytes) + Zeros(32) == Zeros(32);
      assert Mixed(BitsOf(crc, 32), Zeros(32)) == BitsOf(crc, 32);
    } else {
      hide Remainder;
      var rest := Sent(bytes[1..]) + Zeros(32);
      assert Sent(bytes) + Zeros(32) == BitsOf(bytes[0], 8) + rest;
      ByteIn(crc, bytes[0], rest);
      XorBelow(crc, bytes[0]);
      ZerosIn(Xor(crc, bytes[0]), 8, rest);
      ByteStepBelow(crc, bytes[0]);
      FoldDivides(ByteStep(Xor(crc, bytes[0])), bytes[1..]);
    }
  }

  lemma {:induction false} OnesBits(ones: nat, count: nat)
    requires ones + 1 == Shifted(1, count)
    ensures BitsOf(ones, count) == Complemented(Zeros(count))
  {
    if count > 0 {
      OnesBits(ones / 2, count - 1);
    }
  }

  lemma PresetIsMixed(bits: Bits)
    ensures Mixed(Complemented(Zeros(32)), bits + Zeros(32)) == Preset(bits)
  {
    hide Zeros, Complemented;
  }

  /** The checksum of any bytes, complemented and lowest bit first, is the remainder by the divisor of RFC 1952 of the
      bytes as sent, with thirty-two zeros behind them and their first thirty-two bits complemented. */
  lemma ChecksumIsRemainder(bytes: seq<Byte>)
    ensures Checksum(bytes) < 0x1_0000_0000
    ensures BitsOf(Checksum(bytes), 32) == Complemented(Remainder(Preset(Sent(bytes))))
  {
    var folded := Fold(ALL_ONES, bytes);
    ShiftedByWord(1);
    OnesBits(ALL_ONES, 32);
    PresetIsMixed(Sent(bytes));
    FoldDivides(ALL_ONES, bytes);
    FoldBelow(ALL_ONES, bytes);
    XorBelow(folded, ALL_ONES);
    BitsOfXor(folded, ALL_ONES, 32);
    hide BitsOf, Mixed, Remainder, Preset, Fold, Xor;
    assert Added(BitsOf(folded, 32), Complemented(Zeros(32))) == Complemented(BitsOf(folded, 32));
  }
}
