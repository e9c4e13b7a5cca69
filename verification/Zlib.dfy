/** The zlib stream of stored blocks written by `src/media.rs`, proved against the decoding of RFC 1950 and of section
    3.2.4 of RFC 1951. */
module Zlib {
  import opened Common

  const BASE: nat := 65521

  // ---------------------------------------------------------------- Adler-32

  function Sum(bytes: Bytes): nat {
    if bytes == [] then 0 else Sum(bytes[..|bytes| - 1]) + bytes[|bytes| - 1]
  }

  /** One and the bytes up to here, summed over every place. */
  function SumOfSums(bytes: Bytes): nat {
    if bytes == [] then 0 else SumOfSums(bytes[..|bytes| - 1]) + 1 + Sum(bytes)
  }

  /** Section 2.2 of RFC 1950: two sums, each reduced once at the end. */
  function Adler(bytes: Bytes): nat {
    SumOfSums(bytes) % BASE * 0x1_0000 + (1 + Sum(bytes)) % BASE
  }

  lemma ReducedSum(x: nat, y: nat)
    ensures (x % BASE + y) % BASE == (x + y) % BASE
  {
    var q := (x % BASE + y) / BASE;
    QuotientIs(x + y, x / BASE + q, BASE);
  }

  /** The shipped checksum reduces at every byte; the result is the same. */
  method Adler32(bytes: Bytes) returns (checksum: nat)
    ensures checksum == Adler(bytes) == SumOfSums(bytes) % 65521 * 0x1_0000 + (1 + Sum(bytes)) % 65521
  {
    var a, b := 1, 0;
    for i := 0 to |bytes|
      invariant a == (1 + Sum(bytes[..i])) % BASE && b == SumOfSums(bytes[..i]) % BASE
    {
      var front := bytes[..i + 1];
      assert front[..i] == bytes[..i];
      ReducedSum(1 + Sum(bytes[..i]), bytes[i]);
      a := (a + bytes[i]) % BASE;
      ReducedSum(SumOfSums(bytes[..i]), a);
      ReducedSum(1 + Sum(front), SumOfSums(bytes[..i]));
      b := (b + a) % BASE;
    }
    assert bytes[..|bytes|] == bytes;
    checksum := b * 0x1_0000 + a;
  }

  // ---------------------------------------------------------------- words

  function Little(value: nat): Bytes
    requires value < 0x1_0000
  {
    [value % 256, value / 256]
  }

  function Big(value: nat): (r: Bytes)
    requires value < 0x1_0000_0000
    ensures |r| == 4
  {
    [value / 256 / 256 / 256, value / 256 / 256 % 256, value / 256 % 256, value % 256]
  }

  function BigValue(word: Bytes): nat {
    if word == [] then 0 else BigValue(word[..|word| - 1]) * 256 + word[|word| - 1]
  }

  lemma BigReads(value: nat)
    requires value < 0x1_0000_0000
    ensures BigValue(Big(value)) == value
  {
    var w := Big(value);
    assert w[..3][..2] == w[..2] && w[..2][..1] == w[..1] && w[..1][..0] == [];
    assert BigValue(w[..1]) == value / 256 / 256 / 256;
    assert BigValue(w[..2]) == value / 256 / 256;
    assert BigValue(w[..3]) == value / 256;
  }

  // ---------------------------------------------------------------- the decoding

  function LittleValue(low: nat, high: nat): nat { low + 256 * high }

  /** Stored blocks: a header byte of three bits and padding, the length, its complement, and so many bytes. */
  function InflateStored(bytes: Bytes): Option<(Bytes, Bytes)>
    decreases |bytes|
  {
    if |bytes| < 5 then None
    else
      var last, kind := bytes[0] % 2 == 1, bytes[0] / 2 % 4;
      var length, complement := LittleValue(bytes[1], bytes[2]), LittleValue(bytes[3], bytes[4]);
      if kind != 0 || length + complement != 0xFFFF || 5 + length > |bytes| then None
      else
        var data, rest := bytes[5..5 + length], bytes[5 + length..];
        if last then Some((data, rest))
        else
          match InflateStored(rest)
          case None => None
          case Some((more, after)) => Some((data + more, after))
  }

  /** A zlib stream: a checked header naming deflate with no preset dictionary, the blocks, and the checksum
      of the data. */
  function Decode(stream: Bytes): Option<Bytes> {
    if |stream| < 2 || BigValue(stream[..2]) % 31 != 0 || stream[0] % 16 != 8 || stream[1] / 32 % 2 != 0 then None
    else
      match InflateStored(stream[2..])
      case None => None
      case Some((data, rest)) => if |rest| == 4 && BigValue(rest) == Adler(data) then Some(data) else None
  }

  // ---------------------------------------------------------------- the encoder

  function Block(data: Bytes, last: bool): Bytes
    requires |data| <= 65535
  {
    [if last then 1 else 0] + Little(|data|) + Little(65535 - |data|) + data
  }

  function Blocks(raw: Bytes): Bytes {
    if |raw| <= 65535 then Block(raw, true) else Block(raw[..65535], false) + Blocks(raw[65535..])
  }

  /** A block is read back, and what follows it. */
  lemma BlockReads(data: Bytes, last: bool, rest: Bytes)
    requires |data| <= 65535
    ensures InflateStored(Block(data, last) + rest)
            == if last then Some((data, rest))
               else match InflateStored(rest)
                    case None => None
                    case Some((more, after)) => Some((data + more, after))
  {
    var bytes := Block(data, last) + rest;
    BlockParts(data, last, rest);
    hide Block, Little;
    LittleReads(|data|);
    LittleReads(65535 - |data|);
  }

  lemma LittleReads(value: nat)
    requires value < 0x1_0000
    ensures |Little(value)| == 2 && LittleValue(Little(value)[0], Little(value)[1]) == value
  {
  }

  lemma BlockParts(data: Bytes, last: bool, rest: Bytes)
    requires |data| <= 65535
    ensures var bytes := Block(data, last) + rest;
            && |bytes| == 5 + |data| + |rest| && bytes[0] == (if last then 1 else 0)
            && [bytes[1], bytes[2]] == Little(|data|) && [bytes[3], bytes[4]] == Little(65535 - |data|)
            && bytes[5..5 + |data|] == data && bytes[5 + |data|..] == rest
  {
  }

  lemma {:induction false} BlocksRead(raw: Bytes, rest: Bytes)
    ensures InflateStored(Blocks(raw) + rest) == Some((raw, rest))
  {
    hide InflateStored, Block;
    if |raw| <= 65535 {
      BlockReads(raw, true, rest);
    } else {
      var first, later := raw[..65535], raw[65535..];
      assert Blocks(raw) + rest == Block(first, false) + (Blocks(later) + rest);
      BlockReads(first, false, Blocks(later) + rest);
      BlocksRead(later, rest);
      assert raw == first + later;
    }
  }

  lemma AdlerFits(bytes: Bytes)
    ensures Adler(bytes) < 0x1_0000_0000
  {
  }

  /** The blocks of the rest of the input; none when it is used up, unless there was nothing at all. */
  function Remaining(raw: Bytes, offset: nat): Bytes
    requires offset <= |raw|
  {
    if offset == |raw| then [] else Blocks(raw[offset..])
  }

  lemma RemainingStep(raw: Bytes, offset: nat, take: nat)
    requires offset < |raw| && take == Min(|raw| - offset, 65535)
    ensures Remaining(raw, offset)
            == Block(raw[offset..offset + take], offset + take >= |raw|) + Remaining(raw, offset + take)
  {
    hide Block;
    var later := raw[offset..];
    assert later[..take] == raw[offset..offset + take];
    if |later| <= 65535 {
      assert later[..take] == later && Blocks(later) == Block(later, true);
      assert Remaining(raw, offset + take) == [];
    } else {
      assert later[65535..] == raw[offset + take..];
      assert Blocks(later) == Block(later[..65535], false) + Blocks(later[65535..]);
    }
  }

  method WriteBlocks(raw: Bytes, header: Bytes) returns (stream: Bytes)
    ensures stream == header + Blocks(raw)
  {
    hide Block, Blocks;
    stream := header;
    var offset := 0;
    if raw == [] {
      EmptyBlock();
      stream := stream + [0x01, 0x00, 0x00, 0xFF, 0xFF];
    } else {
      assert raw[0..] == raw;
    }
    ghost var whole := header + Blocks(raw);
    while offset < |raw|
      invariant offset <= |raw| && stream + Remaining(raw, offset) == whole
    {
      var take := Min(|raw| - offset, 65535);
      RemainingStep(raw, offset, take);
      var data, last := raw[offset..offset + take], offset + take >= |raw|;
      Regroup(stream, Block(data, last), Remaining(raw, offset + take));
      stream := WriteBlock(stream, data, last);
      offset := offset + take;
    }
  }

  /** A zlib stream of stored blocks: decoding it gives the bytes back. */
  method ZlibStored(raw: Bytes) returns (stream: Bytes)
    ensures Decode(stream) == Some(raw)
  {
    hide Blocks, Adler, Big, InflateStored;
    stream := WriteBlocks(raw, [0x78, 0x01]);
    var checksum := Adler32(raw);
    AdlerFits(raw);
    stream := stream + Big(checksum);
    BlocksRead(raw, Big(checksum));
    BigReads(checksum);
    assert stream[2..] == Blocks(raw) + Big(checksum);
    assert stream[..2] == [0x78, 0x01];
    HeaderChecks();
  }

  lemma HeaderChecks()
    ensures BigValue([0x78, 0x01]) == 0x7801 && 0x7801 % 31 == 0
  {
    assert [0x78, 0x01][..1] == [0x78] && [0x78][..0] == [];
    assert BigValue([0x78]) == 0x78;
  }

  lemma EmptyBlock()
    ensures Blocks([]) == [0x01, 0x00, 0x00, 0xFF, 0xFF]
  {
    assert Little(0) == [0, 0] && Little(65535) == [255, 255];
  }

  method WriteBlock(stream: Bytes, data: Bytes, last: bool) returns (longer: Bytes)
    requires |data| <= 65535
    ensures longer == stream + Block(data, last)
  {
    longer := stream + [if last then 1 else 0];
    longer := longer + Little(|data|);
    longer := longer + Little(65535 - |data|);
    longer := longer + data;
  }
}
