/** The GIF image data written by `src/media.rs` (`BitWriter`, `gif_lzw`, `gif_sub_blocks`), proved against a decoder of
    appendix F of the GIF89a specification: the pixels come back, and the code width never leaves nine bits. */
module Gif {
  import opened Common
  import Crc

  type BitString = seq<bool>

  const CLEAR: nat := 256
  const END: nat := 257

  // ---------------------------------------------------------------- bits, least significant first

  function BitsOf(value: nat, count: nat): (r: BitString)
    ensures |r| == count
  {
    if count == 0 then [] else [value % 2 == 1] + BitsOf(value / 2, count - 1)
  }

  function ValueOf(bits: BitString): nat {
    if bits == [] then 0 else (if bits[0] then 1 else 0) + 2 * ValueOf(bits[1..])
  }

  function BitsOfBytes(bytes: Bytes): BitString {
    if bytes == [] then [] else BitsOfBytes(bytes[..|bytes| - 1]) + BitsOf(bytes[|bytes| - 1], 8)
  }

  lemma {:induction false} ValueOfBits(value: nat, count: nat)
    requires value < Crc.Shifted(1, count)
    ensures ValueOf(BitsOf(value, count)) == value
  {
    if count > 0 {
      ValueOfBits(value / 2, count - 1);
      assert BitsOf(value, count)[1..] == BitsOf(value / 2, count - 1);
    }
  }

  /** Low bits and the bits above them, one after the other. */
  lemma {:induction false} BitsJoin(low: nat, lowCount: nat, high: nat, highCount: nat)
    requires low < Crc.Shifted(1, lowCount)
    ensures BitsOf(low + Crc.Shifted(high, lowCount), lowCount + highCount)
            == BitsOf(low, lowCount) + BitsOf(high, highCount)
    decreases lowCount
  {
    if lowCount > 0 {
      var whole := low + Crc.Shifted(high, lowCount);
      assert whole / 2 == low / 2 + Crc.Shifted(high, lowCount - 1) && whole % 2 == low % 2;
      BitsJoin(low / 2, lowCount - 1, high, highCount);
    }
  }

  /** Bitwise or. */
  function Or(a: nat, b: nat): nat
    decreases a + b
  {
    if a == 0 && b == 0 then 0 else (if a % 2 == 1 || b % 2 == 1 then 1 else 0) + 2 * Or(a / 2, b / 2)
  }

  /** Where the low bits are free, a bitwise or adds. */
  lemma {:induction false} OrAbove(low: nat, high: nat, count: nat)
    requires low < Crc.Shifted(1, count)
    ensures Or(low, Crc.Shifted(high, count)) == low + Crc.Shifted(high, count)
    decreases count
  {
    if count == 0 {
      OrNothing(high);
    } else {
      OrAbove(low / 2, high, count - 1);
    }
  }

  lemma {:induction false} OrNothing(value: nat)
    ensures Or(0, value) == value
  {
    if value > 0 {
      OrNothing(value / 2);
    }
  }

  lemma {:induction false} ShiftBelow(low: nat, lowCount: nat, high: nat, highCount: nat)
    requires low < Crc.Shifted(1, lowCount) && high < Crc.Shifted(1, highCount)
    ensures low + Crc.Shifted(high, lowCount) < Crc.Shifted(1, lowCount + highCount)
    decreases lowCount
  {
    if lowCount > 0 {
      ShiftBelow(low / 2, lowCount - 1, high, highCount);
    }
  }

  // ---------------------------------------------------------------- the bit writer

  class BitWriter {
    var out: Bytes
    var bits: nat
    var count: nat

    ghost predicate Valid()
      reads this
    {
      count < 8 && bits < Crc.Shifted(1, count)
    }

    /** Everything written so far: the whole bytes, and the bits of the one begun. */
    function Written(): BitString
      reads this
    {
      BitsOfBytes(out) + BitsOf(bits, count)
    }

    constructor ()
      ensures Valid() && Written() == []
    {
      out, bits, count := [], 0, 0;
    }

    method Write(code: nat, width: nat)
      requires Valid() && code < Crc.Shifted(1, width) && count + width <= 32
      modifies this
      ensures Valid() && Written() == old(Written()) + BitsOf(code, width)
    {
      hide BitsOf, BitsOfBytes, Or, Crc.Shifted;
      ghost var target := Written() + BitsOf(code, width);
      OrAbove(bits, code, count);
      BitsJoin(bits, count, code, width);
      ShiftBelow(bits, count, code, width);
      bits := Or(bits, Crc.Shifted(code, count));
      count := count + width;
      assert Written() == target;
      while count >= 8
        invariant bits < Crc.Shifted(1, count) && Written() == target
      {
        ByteOff(out, bits, count);
        out := out + [bits % 256];
        bits := bits / 256;
        count := count - 8;
      }
    }

    /** Fills the last byte up with zeros. */
    method Finish() returns (bytes: Bytes, ghost padding: BitString)
      requires Valid()
      ensures BitsOfBytes(bytes) == Written() + padding && |padding| < 8
    {
      hide BitsOf, BitsOfBytes, Crc.Shifted;
      bytes := out;
      if count > 0 {
        LastByte(out, bits, count);
        bytes := bytes + [bits % 256];
        padding := BitsOf(0, 8 - count);
      } else {
        NoBits(bits);
        padding := [];
      }
    }
  }

  lemma NoBits(value: nat)
    ensures BitsOf(value, 0) == []
  {
  }

  lemma ByteAppended(out: Bytes, byte: Byte)
    ensures BitsOfBytes(out + [byte]) == BitsOfBytes(out) + BitsOf(byte, 8)
  {
    assert (out + [byte])[..|out|] == out;
  }

  /** A whole byte taken off the accumulator. */
  lemma ByteOff(out: Bytes, value: nat, count: nat)
    requires count >= 8 && value < Crc.Shifted(1, count)
    ensures value / 256 < Crc.Shifted(1, count - 8)
    ensures BitsOfBytes(out) + BitsOf(value, count) == BitsOfBytes(out + [value % 256]) + BitsOf(value / 256, count - 8)
  {
    hide BitsOf, BitsOfBytes, Crc.Shifted;
    Crc.ShiftedTwice(1, count - 8, 8);
    Crc.ShiftedByByte(Crc.Shifted(1, count - 8));
    Crc.ShiftedByByte(value / 256);
    Crc.ShiftedByByte(1);
    BitsJoin(value % 256, 8, value / 256, count - 8);
    ByteAppended(out, value % 256);
  }

  lemma LastByte(out: Bytes, value: nat, count: nat)
    requires 0 < count < 8 && value < Crc.Shifted(1, count)
    ensures value < 256
    ensures BitsOfBytes(out + [value]) == BitsOfBytes(out) + BitsOf(value, count) + BitsOf(0, 8 - count)
  {
    hide BitsOf, BitsOfBytes, Crc.Shifted;
    FitsByte(value, count);
    BitsJoin(value, count, 0, 8 - count);
    ShiftedZero(count);
    ByteAppended(out, value);
  }

  lemma FitsByte(value: nat, count: nat)
    requires count < 8 && value < Crc.Shifted(1, count)
    ensures value < 256
  {
    Crc.ShiftedTwice(1, count, 8 - count);
    Crc.ShiftedByByte(1);
    ShiftGrows(Crc.Shifted(1, count), 8 - count);
  }

  lemma {:induction false} ShiftGrows(value: nat, count: nat)
    ensures value <= Crc.Shifted(value, count)
  {
    if count > 0 {
      ShiftGrows(value, count - 1);
    }
  }

  lemma {:induction false} ShiftedZero(count: nat)
    ensures Crc.Shifted(0, count) == 0
  {
    if count > 0 {
      ShiftedZero(count - 1);
    }
  }

  // ---------------------------------------------------------------- the decoder

  datatype Decoded = Decoded(pixels: Bytes, widest: nat) | Bad

  const LONGEST: nat := 12
  const FIRST_FREE: nat := 258

  /** Appendix F of GIF89a for eight-bit pixels: codes below 256 are pixels, 256 clears the table and 257 ends the data;
      any other names a string of the table, which each code after the first since a clear lengthens by the string
      before it and the first pixel of its own. The code width grows when the table reaches what it can name. */
  function Decode(bits: BitString, width: nat, table: seq<Bytes>, previous: Option<Bytes>): Decoded
    requires width > 0 && (previous.Some? ==> previous.value != [])
    requires forall i :: 0 <= i < |table| ==> table[i] != []
    decreases |bits|
  {
    if |bits| < width then Bad
    else
      var code, rest := ValueOf(bits[..width]), bits[width..];
      if code == 256 then Widest(width, Decode(rest, 9, [], None))
      else if code == 257 then Decoded([], width)
      else
        var entry := EntryOf(code, table, previous);
        if entry == [] then Bad
        else
          var longer := if previous.Some? && FIRST_FREE + |table| < Crc.Shifted(1, LONGEST)
                        then table + [previous.value + [entry[0]]] else table;
          var wider := if FIRST_FREE + |longer| == Crc.Shifted(1, width) && width < LONGEST then width + 1 else width;
          Widest(width, Prepended(entry, Decode(rest, wider, longer, Some(entry))))
  }

  /** The string a code names; none if it names nothing. The one code just past the table names the string about to be
      added. */
  function EntryOf(code: nat, table: seq<Bytes>, previous: Option<Bytes>): Bytes
    requires previous.Some? ==> previous.value != []
  {
    if code < 256 then [code]
    else if FIRST_FREE <= code < FIRST_FREE + |table| then table[code - FIRST_FREE]
    else if code == FIRST_FREE + |table| && previous.Some? then previous.value + [previous.value[0]]
    else []
  }

  function Prepended(entry: Bytes, decoded: Decoded): Decoded {
    if decoded.Bad? then Bad else Decoded(entry + decoded.pixels, decoded.widest)
  }

  function Widest(width: nat, decoded: Decoded): Decoded {
    if decoded.Bad? then Bad else Decoded(decoded.pixels, Max(width, decoded.widest))
  }

  // ---------------------------------------------------------------- the codes the encoder writes

  /** The codes for these pixels, `emitted` of them since the last clear. */
  function Codes(pixels: Bytes, emitted: nat): seq<nat> {
    if pixels == [] then [END]
    else if emitted + 1 == 250 then [pixels[0], CLEAR] + Codes(pixels[1..], 0)
    else [pixels[0]] + Codes(pixels[1..], emitted + 1)
  }

  function CodeBits(codes: seq<nat>): BitString {
    if codes == [] then [] else BitsOf(codes[0], 9) + CodeBits(codes[1..])
  }

  lemma NineBits(code: nat, rest: BitString)
    requires code < 512
    ensures var bits := BitsOf(code, 9) + rest;
            ValueOf(bits[..9]) == code && bits[9..] == rest && |bits| >= 9
    ensures code < Crc.Shifted(1, 9)
  {
    Crc.ShiftedTwice(1, 8, 1);
    Crc.ShiftedByByte(1);
    assert Crc.Shifted(256, 1) == 512;
    ValueOfBits(code, 9);
    assert (BitsOf(code, 9) + rest)[..9] == BitsOf(code, 9);
  }

  /** What the decoder holds when `emitted` pixels have been written since the last clear. */
  ghost predicate InStep(emitted: nat, table: seq<Bytes>, previous: Option<Bytes>) {
    && emitted < 250 && (forall i :: 0 <= i < |table| ==> table[i] != [])
    && (previous.Some? <==> emitted > 0) && (previous.Some? ==> previous.value != [])
    && |table| == if emitted == 0 then 0 else emitted - 1
  }

  lemma DecodesPixel(pixel: Byte, rest: BitString, emitted: nat, table: seq<Bytes>, previous: Option<Bytes>)
    requires InStep(emitted, table, previous)
    ensures var longer := if previous.Some? then table + [previous.value + [pixel]] else table;
            && (emitted + 1 < 250 ==> InStep(emitted + 1, longer, Some([pixel])))
            && (forall i :: 0 <= i < |longer| ==> longer[i] != [])
            && Decode(BitsOf(pixel, 9) + rest, 9, table, previous)
               == Widest(9, Prepended([pixel], Decode(rest, 9, longer, Some([pixel]))))
  {
    hide BitsOf, ValueOf;
    NineBits(pixel, rest);
    Sizes();
  }

  lemma Sizes()
    ensures Crc.Shifted(1, 9) == 512 && Crc.Shifted(1, LONGEST) == 4096
  {
    Crc.ShiftedTwice(1, 8, 1);
    Crc.ShiftedTwice(1, 8, 4);
    Crc.ShiftedByByte(1);
    assert Crc.Shifted(256, 1) == 512 && Crc.Shifted(256, 2) == 1024 && Crc.Shifted(256, 3) == 2048;
  }

  lemma DecodesClear(rest: BitString, table: seq<Bytes>, previous: Option<Bytes>)
    requires (previous.Some? ==> previous.value != []) && forall i :: 0 <= i < |table| ==> table[i] != []
    ensures Decode(BitsOf(CLEAR, 9) + rest, 9, table, previous) == Widest(9, Decode(rest, 9, [], None))
    ensures Decode(BitsOf(END, 9) + rest, 9, table, previous) == Decoded([], 9)
  {
    hide BitsOf, ValueOf;
    NineBits(CLEAR, rest);
    NineBits(END, rest);
  }

  /** Decoding the codes gives the pixels, never with a wider code. */
  lemma {:induction false} CodesDecode(pixels: Bytes, emitted: nat, padding: BitString, table: seq<Bytes>,
                                       previous: Option<Bytes>)
    requires InStep(emitted, table, previous)
    ensures Decode(CodeBits(Codes(pixels, emitted)) + padding, 9, table, previous) == Decoded(pixels, 9)
    decreases |pixels|
  {
    hide BitsOf, ValueOf, Decode;
    if pixels == [] {
      CodeFirst(END, [], padding);
      DecodesClear(CodeBits([]) + padding, table, previous);
    } else {
      var pixel, later := pixels[0], pixels[1..];
      var longer := if previous.Some? then table + [previous.value + [pixel]] else table;
      assert pixels == [pixel] + later;
      if emitted + 1 == 250 {
        var rest := CodeBits(Codes(later, 0)) + padding;
        CodeFirst(pixel, [CLEAR] + Codes(later, 0), padding);
        CodeFirst(CLEAR, Codes(later, 0), padding);
        assert [pixel, CLEAR] + Codes(later, 0) == [pixel] + ([CLEAR] + Codes(later, 0));
        DecodesPixel(pixel, BitsOf(CLEAR, 9) + rest, emitted, table, previous);
        DecodesClear(rest, longer, Some([pixel]));
        CodesDecode(later, 0, padding, [], None);
      } else {
        CodeFirst(pixel, Codes(later, emitted + 1), padding);
        DecodesPixel(pixel, CodeBits(Codes(later, emitted + 1)) + padding, emitted, table, previous);
        CodesDecode(later, emitted + 1, padding, longer, Some([pixel]));
      }
    }
  }

  lemma CodeFirst(code: nat, codes: seq<nat>, padding: BitString)
    ensures CodeBits([code] + codes) + padding == BitsOf(code, 9) + (CodeBits(codes) + padding)
  {
    hide BitsOf;
    assert ([code] + codes)[1..] == codes;
  }

  // ---------------------------------------------------------------- the encoder

  /** One pixel's codes move from what is to be written to what is. */
  lemma PixelWritten(written: BitString, pixels: Bytes, i: nat, emitted: nat)
    requires i < |pixels|
    ensures var clear := emitted + 1 == 250;
            written + CodeBits(Codes(pixels[i..], emitted))
            == written + BitsOf(pixels[i], 9) + (if clear then BitsOf(CLEAR, 9) else [])
               + CodeBits(Codes(pixels[i + 1..], if clear then 0 else emitted + 1))
  {
    hide BitsOf;
    var later := pixels[i..];
    assert later[0] == pixels[i] && later[1..] == pixels[i + 1..];
    if emitted + 1 == 250 {
      var codes := Codes(pixels[i + 1..], 0);
      assert [pixels[i], CLEAR] + codes == [pixels[i]] + ([CLEAR] + codes);
      CodeFirst(pixels[i], [CLEAR] + codes, []);
      CodeFirst(CLEAR, codes, []);
    } else {
      CodeFirst(pixels[i], Codes(pixels[i + 1..], emitted + 1), []);
    }
  }

  /** The LZW data of the pixels: it decodes to them, by codes of nine bits throughout. */
  method GifLzw(pixels: Bytes) returns (data: Bytes)
    ensures Decode(BitsOfBytes(data), 9, [], None) == Decoded(pixels, 9)
  {
    hide BitsOf, BitsOfBytes, Decode, CodeBits, Codes, Crc.Shifted;
    var writer := new BitWriter();
    CodesFit();
    writer.Write(CLEAR, 9);
    var emitted := 0;
    ghost var whole := BitsOf(CLEAR, 9) + CodeBits(Codes(pixels, 0));
    assert pixels[0..] == pixels;
    for i := 0 to |pixels|
      invariant writer.Valid() && fresh(writer) && emitted < 250
      invariant writer.Written() + CodeBits(Codes(pixels[i..], emitted)) == whole
    {
      PixelWritten(writer.Written(), pixels, i, emitted);
      NineBits(pixels[i], []);
      writer.Write(pixels[i], 9);
      emitted := emitted + 1;
      if emitted == 250 {
        writer.Write(CLEAR, 9);
        emitted := 0;
      }
    }
    LastCode(pixels[|pixels|..], emitted);
    writer.Write(END, 9);
    ghost var padding;
    data, padding := writer.Finish();
    assert BitsOfBytes(data) == BitsOf(CLEAR, 9) + (CodeBits(Codes(pixels, 0)) + padding);
    DecodesClear(CodeBits(Codes(pixels, 0)) + padding, [], None);
    CodesDecode(pixels, 0, padding, [], None);
  }

  lemma CodesFit()
    ensures CLEAR < Crc.Shifted(1, 9) && END < Crc.Shifted(1, 9)
  {
    NineBits(CLEAR, []);
    NineBits(END, []);
  }

  lemma LastCode(pixels: Bytes, emitted: nat)
    requires pixels == []
    ensures CodeBits(Codes(pixels, emitted)) == BitsOf(END, 9)
  {
    hide BitsOf;
    assert [END][1..] == [];
  }

  // ---------------------------------------------------------------- sub-blocks

  /** Section 15 of GIF89a: blocks of a size byte and so many bytes, up to one of size zero. */
  function Unblocked(bytes: Bytes): Option<(Bytes, Bytes)> {
    if bytes == [] then None
    else
      var size: nat := bytes[0];
      if |bytes| < 1 + size then None
      else if size == 0 then Some(([], bytes[1..]))
      else
        match Unblocked(bytes[1 + size..])
        case None => None
        case Some((data, rest)) => Some((bytes[1..1 + size] + data, rest))
  }

  function SubBlocks(data: Bytes): Bytes {
    if data == [] then [0]
    else if |data| <= 255 then [|data|] + data + [0]
    else [255] + data[..255] + SubBlocks(data[255..])
  }

  lemma {:induction false} SubBlocksUnblock(data: Bytes, rest: Bytes)
    ensures Unblocked(SubBlocks(data) + rest) == Some((data, rest))
  {
    if data == [] {
      assert (SubBlocks(data) + rest)[1..] == rest;
    } else {
      var n := Min(|data|, 255);
      SubBlocksUnblock(data[n..], rest);
      SubBlocksStep(data);
      SubBlockFirst(data[..n], SubBlocks(data[n..]), rest);
      hide SubBlocks;
      assert data == data[..n] + data[n..];
    }
  }

  lemma SubBlockFirst(chunk: Bytes, later: Bytes, rest: Bytes)
    requires 0 < |chunk| <= 255
    ensures var bytes := [|chunk|] + chunk + later + rest;
            && |bytes| == 1 + |chunk| + |later| + |rest| && bytes[0] == |chunk|
            && bytes[1..1 + |chunk|] == chunk && bytes[1 + |chunk|..] == later + rest
  {
  }

  lemma SubBlocksStep(data: Bytes)
    requires data != []
    ensures var n := Min(|data|, 255); SubBlocks(data) == [n] + data[..n] + SubBlocks(data[n..])
  {
    if |data| <= 255 {
      assert data[..|data|] == data && data[|data|..] == [];
    }
  }

  method GifSubBlocks(data: Bytes) returns (out: Bytes)
    ensures forall rest: Bytes :: Unblocked(out + rest) == Some((data, rest))
  {
    hide SubBlocks, Unblocked;
    out := [];
    var at := 0;
    assert data[0..] == data;
    while at < |data|
      invariant at <= |data| && out + SubBlocks(data[at..]) == SubBlocks(data)
    {
      var chunk := data[at..Min(at + 255, |data|)];
      ChunkStep(data, at, chunk);
      Regrouped(out, [|chunk|], chunk, SubBlocks(data[at + |chunk|..]));
      out := out + [|chunk|];
      out := out + chunk;
      at := at + |chunk|;
    }
    assert data[at..] == [];
    NoSubBlocks();
    out := out + [0];
    forall rest: Bytes
      ensures Unblocked(out + rest) == Some((data, rest))
    {
      SubBlocksUnblock(data, rest);
    }
  }

  lemma ChunkStep(data: Bytes, at: nat, chunk: Bytes)
    requires at < |data| && chunk == data[at..Min(at + 255, |data|)]
    ensures SubBlocks(data[at..]) == [|chunk|] + chunk + SubBlocks(data[at + |chunk|..])
  {
    hide SubBlocks;
    SubBlocksStep(data[at..]);
    assert data[at..][..|chunk|] == chunk && data[at..][|chunk|..] == data[at + |chunk|..];
  }

  lemma Regrouped(out: Bytes, size: Bytes, chunk: Bytes, later: Bytes)
    ensures out + (size + chunk + later) == out + size + chunk + later
  {
  }

  lemma NoSubBlocks()
    ensures SubBlocks([]) == [0]
  {
  }

  /** The image data of a frame: unblocked and decoded, it is the pixels, in codes of nine bits. */
  method FrameData(pixels: Bytes) returns (out: Bytes)
    ensures forall rest: Bytes ::
              var unblocked := Unblocked(out + rest);
              && unblocked.Some? && unblocked.value.1 == rest
              && Decode(BitsOfBytes(unblocked.value.0), 9, [], None) == Decoded(pixels, 9)
  {
    hide Unblocked, Decode, BitsOfBytes;
    var data := GifLzw(pixels);
    out := GifSubBlocks(data);
  }
}
