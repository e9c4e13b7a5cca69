/** CRC-32 over the reflected gzip polynomial (section 8 of RFC 1952).

    The bit-at-a-time loop of `src/media.rs` is the reference. The slice-by-16 form of `src/crc.rs`, with the tables
    its own loops build, is proved to return the same checksum for every byte string. A `u32` is a natural number
    below 2^32, so `>> 1` is `/ 2`, `& 0xFF` is `% 256`, and only XOR needs a definition of its own. */
module Crc {
  import opened Common

  const POLYNOMIAL: nat := 0xEDB8_8320
  const ALL_ONES: nat := 0xFFFF_FFFF
  const SLICES: nat := 16

  // ---------------------------------------------------------------- XOR

  function Xor(a: nat, b: nat): nat
    decreases a + b
  {
    if a == 0 && b == 0 then 0 else 2 * Xor(a / 2, b / 2) + (if a % 2 == b % 2 then 0 else 1)
  }

  lemma XorParts(a: nat, b: nat)
    ensures Xor(a, b) / 2 == Xor(a / 2, b / 2)
    ensures Xor(a, b) % 2 == if a % 2 == b % 2 then 0 else 1
  {
  }

  lemma {:induction false} XorZero(a: nat)
    ensures Xor(a, 0) == a && Xor(0, a) == a
  {
    if a > 0 {
      XorZero(a / 2);
    }
  }

  lemma {:induction false} XorAssociative(a: nat, b: nat, c: nat)
    ensures Xor(Xor(a, b), c) == Xor(a, Xor(b, c))
    decreases a + b + c
  {
    if a + b + c > 0 {
      XorAssociative(a / 2, b / 2, c / 2);
      XorParts(a, b);
      XorParts(b, c);
      XorParts(Xor(a, b), c);
      XorParts(a, Xor(b, c));
    }
  }

  lemma {:induction false} XorCommutative(a: nat, b: nat)
    ensures Xor(a, b) == Xor(b, a)
    decreases a + b
  {
    if a + b > 0 {
      XorCommutative(a / 2, b / 2);
    }
  }

  lemma {:induction false} XorSelf(a: nat)
    ensures Xor(a, a) == 0
  {
    if a > 0 {
      XorSelf(a / 2);
    }
  }

  /** (a ^ b) ^ (c ^ d) == (a ^ c) ^ (b ^ d) */
  lemma XorInterchange(a: nat, b: nat, c: nat, d: nat)
    ensures Xor(Xor(a, b), Xor(c, d)) == Xor(Xor(a, c), Xor(b, d))
  {
    XorAssociative(a, b, Xor(c, d));
    XorAssociative(b, c, d);
    XorCommutative(b, c);
    XorAssociative(c, b, d);
    XorAssociative(a, c, Xor(b, d));
  }

  /** `value << bits` */
  function Shifted(value: nat, bits: nat): nat {
    if bits == 0 then value else 2 * Shifted(value, bits - 1)
  }

  /** Bits above `bits` and bits below it do not meet in a XOR. */
  lemma {:induction false} XorSplit(a: nat, b: nat, high: nat, bits: nat)
    requires a < Shifted(1, bits) && b < Shifted(1, bits)
    ensures Xor(a, b) < Shifted(1, bits)
    ensures Xor(a, b + Shifted(high, bits)) == Xor(a, b) + Shifted(high, bits)
  {
    if bits == 0 {
      XorZero(high);
    } else {
      XorSplit(a / 2, b / 2, high, bits - 1);
      var wide := b + Shifted(high, bits);
      assert wide / 2 == b / 2 + Shifted(high, bits - 1) && wide % 2 == b % 2;
      XorParts(a, b);
      XorParts(a, wide);
    }
  }

  lemma {:induction false} ShiftedTwice(value: nat, first: nat, second: nat)
    ensures Shifted(Shifted(value, first), second) == Shifted(value, first + second)
  {
    if second > 0 {
      ShiftedTwice(value, first, second - 1);
    }
  }

  lemma ShiftedByByte(value: nat)
    ensures Shifted(value, 8) == 256 * value
  {
    for bits := 0 to 8
      invariant Shifted(value, bits) == [1, 2, 4, 8, 16, 32, 64, 128, 256][bits] * value
    {
      assert Shifted(value, bits + 1) == 2 * Shifted(value, bits);
    }
  }

  lemma ShiftedByWord(value: nat)
    ensures Shifted(value, 32) == 0x1_0000_0000 * value
  {
    ShiftedTwice(value, 8, 8);
    ShiftedTwice(value, 16, 8);
    ShiftedTwice(value, 24, 8);
    ShiftedByByte(value);
    ShiftedByByte(256 * value);
    ShiftedByByte(0x1_0000 * value);
    ShiftedByByte(0x100_0000 * value);
  }

  lemma LowByteApart(low: Byte, high: nat)
    ensures Xor(low, 256 * high) == low + 256 * high
  {
    ShiftedByByte(high);
    ShiftedByByte(1);
    XorZero(low);
    XorSplit(low, 0, high, 8);
  }

  // ---------------------------------------------------------------- the bitwise reference

  /** One bit of the division: shift, and subtract the polynomial if a one fell out. */
  function BitStep(crc: nat): nat {
    Xor(crc / 2, Fallen(crc))
  }

  /** `POLYNOMIAL & (crc & 1).wrapping_neg()`: the mask is all ones or zero. */
  function Fallen(crc: nat): nat {
    if crc % 2 == 1 then POLYNOMIAL else 0
  }

  function BitSteps(crc: nat, count: nat): nat
    decreases count
  {
    if count == 0 then crc else BitStep(BitSteps(crc, count - 1))
  }

  /** What one zero byte does to a remainder. */
  function ByteStep(crc: nat): nat {
    BitSteps(crc, 8)
  }

  /** The remainder after `count` zero bytes. */
  function ZeroBytes(crc: nat, count: nat): nat
    decreases count
  {
    if count == 0 then crc else ZeroBytes(ByteStep(crc), count - 1)
  }

  /** The running remainder after `bytes`. */
  function Fold(crc: nat, bytes: seq<Byte>): nat
    decreases |bytes|
  {
    if bytes == [] then crc else Fold(ByteStep(Xor(crc, bytes[0])), bytes[1..])
  }

  /** What the formats call the CRC-32 of `bytes`: initial and final XOR all-ones. */
  function Checksum(bytes: seq<Byte>): nat {
    Xor(Fold(ALL_ONES, bytes), ALL_ONES)
  }

  lemma {:induction false} FoldAppend(crc: nat, front: seq<Byte>, back: seq<Byte>)
    ensures Fold(crc, front + back) == Fold(Fold(crc, front), back)
    decreases |front|
  {
    if front == [] {
      assert front + back == back;
    } else {
      assert (front + back)[1..] == front[1..] + back;
      FoldAppend(ByteStep(Xor(crc, front[0])), front[1..], back);
    }
  }

  /** The inner loop of both the bitwise form and the table builder. */
  method EightBits(entered: nat) returns (crc: nat)
    ensures crc == ByteStep(entered)
  {
    crc := entered;
    for bit := 0 to 8
      invariant crc == BitSteps(entered, bit)
    {
      crc := Xor(crc / 2, Fallen(crc));
    }
  }

  method BitwiseCrc32(bytes: seq<Byte>) returns (result: nat)
    ensures result == Checksum(bytes)
  {
    var crc := ALL_ONES;
    for i := 0 to |bytes|
      invariant crc == Fold(ALL_ONES, bytes[..i])
    {
      assert bytes[..i + 1] == bytes[..i] + [bytes[i]];
      FoldAppend(ALL_ONES, bytes[..i], [bytes[i]]);
      crc := EightBits(Xor(crc, bytes[i]));
    }
    assert bytes[..|bytes|] == bytes;
    result := Xor(crc, ALL_ONES);
  }

  // ---------------------------------------------------------------- the division is linear

  lemma BitStepLinear(a: nat, b: nat)
    ensures BitStep(Xor(a, b)) == Xor(BitStep(a), BitStep(b))
  {
    XorParts(a, b);
    XorInterchange(a / 2, b / 2, Fallen(a), Fallen(b));
    XorZero(POLYNOMIAL);
    XorSelf(POLYNOMIAL);
    XorZero(0);
  }

  lemma {:induction false} BitStepsLinear(a: nat, b: nat, count: nat)
    ensures BitSteps(Xor(a, b), count) == Xor(BitSteps(a, count), BitSteps(b, count))
  {
    if count > 0 {
      BitStepsLinear(a, b, count - 1);
      BitStepLinear(BitSteps(a, count - 1), BitSteps(b, count - 1));
    }
  }

  lemma ByteStepLinear(a: nat, b: nat)
    ensures ByteStep(Xor(a, b)) == Xor(ByteStep(a), ByteStep(b))
  {
    hide BitSteps, Xor;
    BitStepsLinear(a, b, 8);
  }

  lemma {:induction false} ZeroBytesLinear(a: nat, b: nat, count: nat)
    ensures ZeroBytes(Xor(a, b), count) == Xor(ZeroBytes(a, count), ZeroBytes(b, count))
    decreases count
  {
    hide ByteStep, Xor;
    if count > 0 {
      ByteStepLinear(a, b);
      ZeroBytesLinear(ByteStep(a), ByteStep(b), count - 1);
    }
  }

  lemma EvenBitStep(half: nat)
    ensures BitStep(2 * half) == half
  {
    hide Xor;
    XorZero(half);
  }

  /** A remainder whose low bits are zero only shifts. */
  lemma {:induction false} EvenBitSteps(high: nat, count: nat, left: nat)
    ensures BitSteps(Shifted(high, count + left), count) == Shifted(high, left)
  {
    hide BitStep;
    if count > 0 {
      EvenBitSteps(high, count - 1, left + 1);
      assert (count - 1) + (left + 1) == count + left;
      EvenBitStep(Shifted(high, left));
    }
  }

  lemma ByteStepShift(high: nat)
    ensures ByteStep(256 * high) == high
  {
    hide BitSteps;
    EvenBitSteps(high, 8, 0);
    ShiftedByByte(high);
  }

  lemma ZeroBytesShift(high: nat, count: nat)
    requires count > 0
    ensures ZeroBytes(256 * high, count) == ZeroBytes(high, count - 1)
  {
    hide ByteStep;
    ByteStepShift(high);
  }

  /** The whole remainder is the contribution of its low byte and that of the rest, one byte later. */
  lemma PeelByte(crc: nat, count: nat)
    requires count > 0
    ensures ZeroBytes(crc, count) == Xor(ZeroBytes(crc % 256, count), ZeroBytes(crc / 256, count - 1))
  {
    hide ZeroBytes, Xor;
    LowByteApart(crc % 256, crc / 256);
    ZeroBytesLinear(crc % 256, 256 * (crc / 256), count);
    ZeroBytesShift(crc / 256, count);
  }

  // ---------------------------------------------------------------- a chunk as one wide remainder

  function LittleEndian(bytes: seq<Byte>): nat {
    if bytes == [] then 0 else bytes[0] + 256 * LittleEndian(bytes[1..])
  }

  /** Feeding bytes one at a time is XORing them in together and then shifting them all out. */
  lemma {:induction false} FoldAtOnce(crc: nat, bytes: seq<Byte>)
    ensures Fold(crc, bytes) == ZeroBytes(Xor(crc, LittleEndian(bytes)), |bytes|)
    decreases |bytes|
  {
    hide ByteStep, Xor;
    if bytes == [] {
      XorZero(crc);
    } else {
      var rest := LittleEndian(bytes[1..]);
      LowByteApart(bytes[0], rest);
      XorAssociative(crc, bytes[0], 256 * rest);
      ByteStepLinear(Xor(crc, bytes[0]), 256 * rest);
      ByteStepShift(rest);
      FoldAtOnce(ByteStep(Xor(crc, bytes[0])), bytes[1..]);
    }
  }

  /** The low `count` bytes of a number, least significant first. */
  function Digits(value: nat, count: nat): (r: seq<Byte>)
    ensures |r| == count
  {
    if count == 0 then [] else [value % 256] + Digits(value / 256, count - 1)
  }

  lemma {:induction false} LittleEndianBelow(bytes: seq<Byte>)
    requires |bytes| == 4
    ensures LittleEndian(bytes) < 0x1_0000_0000
  {
    var tail1, tail2, tail3 := bytes[1..], bytes[1..][1..], bytes[1..][1..][1..];
    assert tail3[1..] == [];
    assert LittleEndian(tail3) < 256;
    assert LittleEndian(tail2) < 0x1_0000;
    assert LittleEndian(tail1) < 0x100_0000;
  }

  lemma {:induction false} LittleEndianAppend(front: seq<Byte>, back: seq<Byte>)
    ensures LittleEndian(front + back) == LittleEndian(front) + Shifted(LittleEndian(back), 8 * |front|)
  {
    if front == [] {
      assert front + back == back;
    } else {
      assert (front + back)[1..] == front[1..] + back;
      LittleEndianAppend(front[1..], back);
      ShiftedTwice(LittleEndian(back), 8 * |front[1..]|, 8);
      ShiftedByByte(Shifted(LittleEndian(back), 8 * |front[1..]|));
    }
  }

  // ---------------------------------------------------------------- the tables

  /** The first `slices` tables: in table k, what each byte leaves after k zero bytes more. */
  ghost predicate FilledTo(tables: array2<nat>, slices: nat)
    reads tables
  {
    && tables.Length0 == SLICES && tables.Length1 == 256 && slices <= SLICES
    && forall k, b :: 0 <= k < slices && 0 <= b < 256 ==> tables[k, b] == ZeroBytes(b, k + 1)
  }

  lemma {:induction false} ZeroBytesLast(crc: nat, count: nat)
    ensures ZeroBytes(crc, count + 1) == ByteStep(ZeroBytes(crc, count))
    decreases count
  {
    hide ByteStep;
    if count > 0 {
      ZeroBytesLast(ByteStep(crc), count - 1);
    }
  }

  /** Looking the low byte up in the first table shifts one zero byte in. */
  lemma TableStep(crc: nat)
    ensures ByteStep(crc) == Xor(crc / 256, ZeroBytes(crc % 256, 1))
  {
    hide ByteStep, Xor;
    PeelByte(crc, 1);
    XorCommutative(crc / 256, ZeroBytes(crc % 256, 1));
  }

  method FillFirstTable(tables: array2<nat>)
    requires tables.Length0 == SLICES && tables.Length1 == 256
    modifies tables
    ensures FilledTo(tables, 1)
  {
    hide Xor, BitSteps;
    var index := 0;
    while index < 256
      invariant 0 <= index <= 256
      invariant forall b :: 0 <= b < index ==> tables[0, b] == ZeroBytes(b, 1)
    {
      var crc := EightBits(index);
      assert ZeroBytes(index, 1) == ByteStep(index);
      tables[0, index] := crc;
      index := index + 1;
    }
  }

  method FillNextTable(tables: array2<nat>, slice: nat)
    requires 1 <= slice < SLICES && FilledTo(tables, slice)
    modifies tables
    ensures FilledTo(tables, slice + 1)
  {
    hide Xor, ByteStep;
    var index := 0;
    while index < 256
      invariant 0 <= index <= 256
      invariant FilledTo(tables, slice)
      invariant forall b :: 0 <= b < index ==> tables[slice, b] == ZeroBytes(b, slice + 1)
    {
      var previous := tables[slice - 1, index];
      assert previous == ZeroBytes(index, slice);
      TableStep(previous);
      ZeroBytesLast(index, slice);
      tables[slice, index] := Xor(previous / 256, tables[0, previous % 256]);
      index := index + 1;
    }
  }

  method BuildTables() returns (tables: array2<nat>)
    ensures fresh(tables) && FilledTo(tables, SLICES)
  {
    tables := new nat[SLICES, 256];
    FillFirstTable(tables);
    var slice := 1;
    while slice < SLICES
      invariant 1 <= slice <= SLICES && FilledTo(tables, slice)
    {
      FillNextTable(tables, slice);
      slice := slice + 1;
    }
  }

  /** The XOR chain of the sliced loop, leftmost operand first. */
  function XorAll(terms: seq<nat>): nat {
    if terms == [] then 0 else Xor(XorAll(terms[..|terms| - 1]), terms[|terms| - 1])
  }

  lemma {:induction false} XorAllFirst(first: nat, rest: seq<nat>)
    ensures XorAll([first] + rest) == Xor(first, XorAll(rest))
  {
    var terms := [first] + rest;
    if rest == [] {
      assert terms[..0] == [];
      XorCommutative(first, 0);
    } else {
      var front := rest[..|rest| - 1];
      assert terms[..|terms| - 1] == [first] + front;
      XorAllFirst(first, front);
      XorAssociative(first, XorAll(front), rest[|rest| - 1]);
    }
  }

  lemma LowDigit(digits: seq<Byte>)
    requires digits != []
    ensures LittleEndian(digits) % 256 == digits[0] && LittleEndian(digits) / 256 == LittleEndian(digits[1..])
  {
  }

  /** Each byte's table entry for its distance from the end: together they are the whole division. */
  lemma {:induction false} SlicesSum(digits: seq<Byte>, terms: seq<nat>, k: nat)
    requires k <= |terms| == |digits|
    requires forall i :: 0 <= i < |terms| ==> terms[i] == ZeroBytes(digits[i], |terms| - i)
    ensures XorAll(terms[k..]) == ZeroBytes(LittleEndian(digits[k..]), |terms| - k)
    decreases |terms| - k
  {
    NoSlices();
    hide Xor, ZeroBytes, XorAll, LittleEndian;
    var later, rest := digits[k..], terms[k..];
    if k == |terms| {
      assert later == [] && rest == [];
    } else {
      SlicesSum(digits, terms, k + 1);
      assert later[0] == digits[k] && later[1..] == digits[k + 1..];
      assert rest[0] == terms[k] && rest[1..] == terms[k + 1..];
      SliceStep(later, rest, |terms| - k);
    }
  }

  lemma NoSlices()
    ensures XorAll([]) == ZeroBytes(LittleEndian([]), 0)
  {
  }

  lemma SliceStep(digits: seq<Byte>, terms: seq<nat>, left: nat)
    requires digits != [] && terms != [] && left > 0 && terms[0] == ZeroBytes(digits[0], left)
    requires XorAll(terms[1..]) == ZeroBytes(LittleEndian(digits[1..]), left - 1)
    ensures XorAll(terms) == ZeroBytes(LittleEndian(digits), left)
  {
    hide Xor, ZeroBytes, XorAll, LittleEndian;
    LowDigit(digits);
    PeelByte(LittleEndian(digits), left);
    XorAllFirst(terms[0], terms[1..]);
    assert terms == [terms[0]] + terms[1..];
  }

  lemma {:induction false} LittleEndianOfDigits(value: nat, count: nat)
    requires value < Shifted(1, 8 * count)
    ensures LittleEndian(Digits(value, count)) == value
    decreases count
  {
    if count > 0 {
      ShiftedTwice(1, 8 * (count - 1), 8);
      ShiftedByByte(Shifted(1, 8 * (count - 1)));
      LittleEndianOfDigits(value / 256, count - 1);
    }
  }

  lemma LittleEndianInvertsDigits(low: nat, bytes: seq<Byte>)
    requires low < 0x1_0000_0000
    ensures LittleEndian(Digits(low, 4) + bytes) == low + 0x1_0000_0000 * LittleEndian(bytes)
  {
    LittleEndianAppend(Digits(low, 4), bytes);
    ShiftedByWord(LittleEndian(bytes));
    ShiftedByWord(1);
    LittleEndianOfDigits(low, 4);
  }

  /** The remainder and a sixteen-byte chunk, as the sliced loop looks at them. */
  lemma ChunkDigits(crc: nat, chunk: seq<Byte>, low: nat)
    requires crc < 0x1_0000_0000 && |chunk| == SLICES
    requires low == Xor(crc, LittleEndian(chunk[..4]))
    ensures low < 0x1_0000_0000
    ensures Xor(crc, LittleEndian(chunk)) == LittleEndian(Digits(low, 4) + chunk[4..])
  {
    hide Xor, Shifted, LittleEndian, Digits;
    ShiftedByWord(1);
    ShiftedByWord(LittleEndian(chunk[4..]));
    LittleEndianBelow(chunk[..4]);
    XorSplit(crc, LittleEndian(chunk[..4]), LittleEndian(chunk[4..]), 32);
    assert chunk == chunk[..4] + chunk[4..];
    LittleEndianAppend(chunk[..4], chunk[4..]);
    LittleEndianInvertsDigits(low, chunk[4..]);
  }

  // ---------------------------------------------------------------- the sliced loop

  /** One iteration of the sliced loop: sixteen lookups, XORed left to right. */
  method FoldChunk(tables: array2<nat>, crc: nat, chunk: seq<Byte>) returns (next: nat)
    requires FilledTo(tables, SLICES) && crc < 0x1_0000_0000 && |chunk| == SLICES
    ensures next == Fold(crc, chunk)
  {
    hide Xor, ZeroBytes, XorAll, Fold;
    var low := Xor(crc, LittleEndian(chunk[..4]));
    ChunkDigits(crc, chunk, low);
    var terms := [tables[15, low % 256], tables[14, low / 256 % 256], tables[13, low / 256 / 256 % 256],
                  tables[12, low / 256 / 256 / 256], tables[11, chunk[4]], tables[10, chunk[5]],
                  tables[9, chunk[6]], tables[8, chunk[7]], tables[7, chunk[8]], tables[6, chunk[9]],
                  tables[5, chunk[10]], tables[4, chunk[11]], tables[3, chunk[12]], tables[2, chunk[13]],
                  tables[1, chunk[14]], tables[0, chunk[15]]];
    next := XorAll(terms);
    ghost var digits := Digits(low, 4) + chunk[4..];
    assert Digits(low, 4) == [low % 256] + Digits(low / 256, 3);
    assert Digits(low / 256, 3) == [low / 256 % 256] + Digits(low / 256 / 256, 2);
    assert digits[..4] == [low % 256, low / 256 % 256, low / 256 / 256 % 256, low / 256 / 256 / 256];
    SlicesSum(digits, terms, 0);
    assert digits[0..] == digits && terms[0..] == terms;
    FoldAtOnce(crc, chunk);
  }

  /** Every remainder the loops hold fits in a `u32`. */
  lemma {:induction false} FoldBelow(crc: nat, bytes: seq<Byte>)
    requires crc < 0x1_0000_0000
    ensures Fold(crc, bytes) < 0x1_0000_0000
    decreases |bytes|
  {
    hide ByteStep, Xor;
    if bytes != [] {
      ByteStepBelow(crc, bytes[0]);
      FoldBelow(ByteStep(Xor(crc, bytes[0])), bytes[1..]);
    }
  }

  lemma ByteStepBelow(crc: nat, byte: Byte)
    requires crc < 0x1_0000_0000
    ensures ByteStep(Xor(crc, byte)) < 0x1_0000_0000
  {
    hide BitSteps, Xor;
    ShiftedByWord(1);
    XorSplit(crc, byte, 0, 32);
    BitStepsBelow(Xor(crc, byte), 8);
  }

  lemma {:induction false} BitStepsBelow(crc: nat, count: nat)
    requires crc < 0x1_0000_0000
    ensures BitSteps(crc, count) < 0x1_0000_0000
    decreases count
  {
    hide BitStep;
    if count > 0 {
      BitStepsBelow(crc, count - 1);
      BitStepBelow(BitSteps(crc, count - 1));
    }
  }

  lemma BitStepBelow(crc: nat)
    requires crc < 0x1_0000_0000
    ensures BitStep(crc) < 0x1_0000_0000
  {
    hide Xor;
    ShiftedByWord(1);
    XorSplit(crc / 2, Fallen(crc), 0, 32);
  }

  /** The shipped checksum: sixteen bytes at a time, then the remainder one byte at a time. */
  method SlicedCrc32(bytes: seq<Byte>) returns (result: nat)
    ensures result == Checksum(bytes)
  {
    hide Xor, Fold;
    var tables := BuildTables();
    var crc := ALL_ONES;
    var at := 0;
    FoldEmpty(ALL_ONES);
    while at + SLICES <= |bytes|
      invariant 0 <= at <= |bytes| && crc == Fold(ALL_ONES, bytes[..at]) && FilledTo(tables, SLICES)
    {
      var chunk := bytes[at..at + SLICES];
      FoldBelow(ALL_ONES, bytes[..at]);
      crc := FoldChunk(tables, crc, chunk);
      assert bytes[..at + SLICES] == bytes[..at] + chunk;
      FoldAppend(ALL_ONES, bytes[..at], chunk);
      at := at + SLICES;
    }
    while at < |bytes|
      invariant 0 <= at <= |bytes| && crc == Fold(ALL_ONES, bytes[..at]) && FilledTo(tables, SLICES)
    {
      assert bytes[..at + 1] == bytes[..at] + [bytes[at]];
      FoldAppend(ALL_ONES, bytes[..at], [bytes[at]]);
      FoldOne(crc, bytes[at]);
      crc := Xor(crc / 256, tables[0, Xor(crc, bytes[at]) % 256]);
      at := at + 1;
    }
    assert bytes[..at] == bytes;
    result := Xor(crc, ALL_ONES);
  }

  lemma FoldEmpty(crc: nat)
    ensures Fold(crc, []) == crc
  {
  }

  /** The tail loop's table step, with its operand split the way the code writes it. */
  lemma FoldOne(crc: nat, byte: Byte)
    ensures Fold(crc, [byte]) == Xor(crc / 256, ZeroBytes(Xor(crc, byte) % 256, 1))
  {
    hide Xor;
    TableStep(Xor(crc, byte));
    ShiftedByByte(crc / 256);
    ShiftedByByte(1);
    XorSplit(byte, crc % 256, crc / 256, 8);
    XorCommutative(crc, byte);
    assert [byte][1..] == [];
  }
}
