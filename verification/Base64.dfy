/** The base64 encoder of `src/media.rs`, proved against the decoding of section 4 of RFC 4648. */
module Base64 {
  import opened Common

  /** The standard alphabet. */
  function Symbol(value: nat): char
    requires value < 64
  {
    if value < 26 then (65 + value) as char
    else if value < 52 then (97 + value - 26) as char
    else if value < 62 then (48 + value - 52) as char
    else if value == 62 then '+'
    else '/'
  }

  /** The value a symbol of the alphabet stands for. */
  function ValueOf(symbol: char): Option<nat> {
    if 'A' <= symbol <= 'Z' then Some(symbol as int - 65)
    else if 'a' <= symbol <= 'z' then Some(symbol as int - 97 + 26)
    else if '0' <= symbol <= '9' then Some(symbol as int - 48 + 52)
    else if symbol == '+' then Some(62)
    else if symbol == '/' then Some(63)
    else None
  }

  lemma SymbolStandsFor(value: nat)
    requires value < 64
    ensures ValueOf(Symbol(value)) == Some(value) && Symbol(value) != '='
  {
  }

  // ---------------------------------------------------------------- the decoding

  /** Four symbols are twenty-four bits, most significant first: three bytes, or fewer when padded. */
  function DecodeQuad(text: string, last: bool): Option<Bytes>
    requires |text| == 4
  {
    var v0, v1 := ValueOf(text[0]), ValueOf(text[1]);
    if v0.None? || v1.None? then None
    else
      var high := v0.value * 4 + v1.value / 16;
      if text[2] == '=' then
        if last && text[3] == '=' && v1.value % 16 == 0 && high < 256 then Some([high]) else None
      else
        var v2 := ValueOf(text[2]);
        if v2.None? then None
        else
          var middle := v1.value % 16 * 16 + v2.value / 4;
          if text[3] == '=' then
            if last && v2.value % 4 == 0 && high < 256 && middle < 256 then Some([high, middle]) else None
          else
            var v3 := ValueOf(text[3]);
            if v3.None? then None
            else
              var low := v2.value % 4 * 64 + v3.value;
              if high < 256 && middle < 256 && low < 256 then Some([high, middle, low]) else None
  }

  /** Groups of four symbols, only the last of which may be padded. */
  function Decode(text: string): Option<Bytes> {
    if text == [] then Some([])
    else if |text| < 4 then None
    else
      var first := DecodeQuad(text[..4], |text| == 4);
      var rest := Decode(text[4..]);
      if first.None? || rest.None? then None else Some(first.value + rest.value)
  }

  // ---------------------------------------------------------------- the encoder

  /** What one group of up to three bytes is written as. */
  function Quad(group: Bytes): (r: string)
    requires 0 < |group| <= 3
    ensures |r| == 4
  {
    var b1: nat := if |group| > 1 then group[1] else 0;
    var b2: nat := if |group| > 2 then group[2] else 0;
    var triple: nat := group[0] * 0x1_0000 + b1 * 0x100 + b2;
    [Symbol(triple / 0x4_0000), Symbol(triple / 0x1000 % 64),
     if |group| > 1 then Symbol(triple / 64 % 64) else '=', if |group| > 2 then Symbol(triple % 64) else '=']
  }

  function Encoded(bytes: Bytes): string {
    if bytes == [] then [] else if |bytes| <= 3 then Quad(bytes) else Quad(bytes[..3]) + Encoded(bytes[3..])
  }

  method Encode(bytes: Bytes) returns (text: string)
    ensures Decode(text) == Some(bytes)
    ensures |text| == (|bytes| + 2) / 3 * 4
  {
    hide Quad;
    text := [];
    var at := 0;
    assert bytes[0..] == bytes;
    while at < |bytes|
      invariant 0 <= at <= |bytes| && text + Encoded(bytes[at..]) == Encoded(bytes)
    {
      var group := bytes[at..Min(at + 3, |bytes|)];
      EncodedStep(bytes[at..]);
      assert bytes[at..][..|group|] == group && bytes[at..][|group|..] == bytes[at + |group|..];
      assert text + Encoded(bytes[at..]) == text + Quad(group) + Encoded(bytes[at + |group|..]);
      text := text + Quad(group);
      at := at + |group|;
    }
    assert text == Encoded(bytes);
    DecodeInvertsEncode(bytes);
  }

  lemma EncodedStep(bytes: Bytes)
    requires bytes != []
    ensures var n := Min(3, |bytes|); Encoded(bytes) == Quad(bytes[..n]) + Encoded(bytes[n..])
  {
    hide Quad;
    if |bytes| <= 3 {
      assert bytes[..|bytes|] == bytes && bytes[|bytes|..] == [];
    }
  }

  /** The four six-bit pieces of three bytes. */
  lemma Sextets(b0: nat, b1: nat, b2: nat)
    requires b0 < 256 && b1 < 256 && b2 < 256
    ensures var triple := b0 * 0x1_0000 + b1 * 0x100 + b2;
            && triple / 0x4_0000 == b0 / 4 && triple / 0x1000 % 64 == b0 % 4 * 16 + b1 / 16
            && triple / 64 % 64 == b1 % 16 * 4 + b2 / 64 && triple % 64 == b2 % 64
  {
    var triple := b0 * 0x1_0000 + b1 * 0x100 + b2;
    QuotientIs(triple, b0 / 4, 0x4_0000);
    QuotientIs(triple, b0 * 16 + b1 / 16, 0x1000);
    QuotientIs(b0 * 16 + b1 / 16, b0 / 4, 64);
    QuotientIs(triple, b0 * 1024 + b1 * 4 + b2 / 64, 64);
    QuotientIs(b0 * 1024 + b1 * 4 + b2 / 64, b0 * 16 + b1 / 16, 64);
  }

  /** The bytes back from their pieces. */
  lemma Octets(b0: nat, b1: nat, b2: nat)
    requires b0 < 256 && b1 < 256 && b2 < 256
    ensures var s1, s2 := b0 % 4 * 16 + b1 / 16, b1 % 16 * 4 + b2 / 64;
            && b0 / 4 * 4 + s1 / 16 == b0 && s1 % 16 == b1 / 16
            && s1 % 16 * 16 + s2 / 4 == b1 && s2 % 4 == b2 / 64 && s2 % 4 * 64 + b2 % 64 == b2
            && (b1 == 0 ==> s1 % 16 == 0) && (b2 == 0 ==> s2 % 4 == 0)
  {
    QuotientIs(b0 % 4 * 16 + b1 / 16, b0 % 4, 16);
    QuotientIs(b1 % 16 * 4 + b2 / 64, b1 % 16, 4);
  }

  lemma SymbolsDecode(s0: nat, s1: nat, s2: nat, s3: nat, count: nat, last: bool)
    requires s0 < 64 && s1 < 64 && s2 < 64 && s3 < 64 && 1 <= count <= 3 && (count < 3 ==> last)
    requires count == 1 ==> s1 % 16 == 0
    requires count == 2 ==> s2 % 4 == 0
    requires s0 * 4 + s1 / 16 < 256 && s1 % 16 * 16 + s2 / 4 < 256 && s2 % 4 * 64 + s3 < 256
    ensures DecodeQuad([Symbol(s0), Symbol(s1), if count > 1 then Symbol(s2) else '=',
                        if count > 2 then Symbol(s3) else '='],
                       last)
            == Some([s0 * 4 + s1 / 16, s1 % 16 * 16 + s2 / 4, s2 % 4 * 64 + s3][..count])
  {
    SymbolStandsFor(s0);
    SymbolStandsFor(s1);
    SymbolStandsFor(s2);
    SymbolStandsFor(s3);
    hide Symbol, ValueOf;
    var all: Bytes := [s0 * 4 + s1 / 16, s1 % 16 * 16 + s2 / 4, s2 % 4 * 64 + s3];
    assert all[..1] == [all[0]] && all[..2] == [all[0], all[1]] && all[..3] == all;
  }

  function Nth(group: Bytes, i: nat): nat { if i < |group| then group[i] else 0 }

  /** A group as its four six-bit pieces. */
  lemma QuadIs(group: Bytes)
    requires 0 < |group| <= 3
    ensures var b0, b1, b2 := Nth(group, 0), Nth(group, 1), Nth(group, 2);
            Quad(group) == [Symbol(b0 / 4), Symbol(b0 % 4 * 16 + b1 / 16),
                            if |group| > 1 then Symbol(b1 % 16 * 4 + b2 / 64) else '=',
                            if |group| > 2 then Symbol(b2 % 64) else '=']
  {
    hide Symbol;
    Sextets(group[0], Nth(group, 1), Nth(group, 2));
  }

  /** The symbols of a group give its six-bit values back. */
  lemma QuadDecodes(group: Bytes, last: bool)
    requires 0 < |group| <= 3 && (|group| < 3 ==> last)
    ensures DecodeQuad(Quad(group), last) == Some(group)
  {
    hide DecodeQuad, Symbol, Quad;
    var b0, b1, b2 := Nth(group, 0), Nth(group, 1), Nth(group, 2);
    QuadIs(group);
    Octets(b0, b1, b2);
    assert [b0, b1, b2][..|group|] == group;
    SymbolsDecode(b0 / 4, b0 % 4 * 16 + b1 / 16, b1 % 16 * 4 + b2 / 64, b2 % 64, |group|, last);
  }

  /** Decoding what the encoder writes gives the bytes back. */
  lemma {:induction false} DecodeInvertsEncode(bytes: Bytes)
    ensures Decode(Encoded(bytes)) == Some(bytes)
    ensures |Encoded(bytes)| == (|bytes| + 2) / 3 * 4
  {
    hide Quad, DecodeQuad;
    if bytes != [] {
      var n := Min(3, |bytes|);
      var text, quad := Encoded(bytes), Quad(bytes[..n]);
      EncodedStep(bytes);
      DecodeInvertsEncode(bytes[n..]);
      assert text[..4] == quad && text[4..] == Encoded(bytes[n..]);
      QuadDecodes(bytes[..n], |text| == 4);
      assert bytes == bytes[..n] + bytes[n..];
    }
  }
}
