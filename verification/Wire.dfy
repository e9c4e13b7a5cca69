/** The protobuf wire reader of `src/otlp_pb.rs`: varints, fixed-width integers, length-delimited fields and skipping,
    over arbitrary bytes; and a reference encoder it inverts. */
module Wire {
  import opened Common
  import Crc

  const MODULUS: nat := 0x1_0000_0000_0000_0000

  /** One field of a message: its number and what its wire type carries. */
  datatype Field =
    | Varint(number: nat, value: nat)
    | Fixed64(number: nat, value: nat)
    | Delimited(number: nat, bytes: Bytes)
    | Fixed32(number: nat, value: nat)

  // ---------------------------------------------------------------- varints

  function Pow128(n: nat): (p: nat)
    ensures p > 0
  {
    if n == 0 then 1 else 128 * Pow128(n - 1)
  }

  /** Up to ten groups of seven bits, least significant first; bits past the sixty-fourth are lost. */
  function VarintAt(bytes: Bytes, position: nat, group: nat, value: nat): (r: Option<(nat, nat)>)
    ensures r.Some? ==> position < r.value.1 <= |bytes|
    decreases 10 - group
  {
    if group >= 10 || position >= |bytes| then None
    else
      var byte: nat := bytes[position];
      var more := value + byte % 128 * Pow128(group) % MODULUS;
      if byte < 128 then Some((more, position + 1)) else VarintAt(bytes, position + 1, group + 1, more)
  }

  function EncodedVarint(value: nat): (r: Bytes)
    ensures |r| > 0
  {
    if value < 128 then [value] else [value % 128 + 128] + EncodedVarint(value / 128)
  }

  lemma PowersGrow(group: nat)
    ensures Pow128(group + 1) == 128 * Pow128(group)
  {
  }

  lemma {:induction false} PowersPast(group: nat)
    requires group >= 10
    ensures Pow128(group) > MODULUS
  {
    if group == 10 {
      var five := Pow128(5);
      assert Pow128(2) == 0x4000 && Pow128(4) == 0x1000_0000;
      assert five == 0x8_0000_0000;
      assert Pow128(7) == 0x4000 * five && Pow128(9) == 0x1000_0000 * five;
    } else {
      PowersPast(group - 1);
    }
  }

  /** A group of seven bits taken off a value in its place. */
  lemma GroupTaken(value: nat, group: nat)
    ensures value % 128 * Pow128(group) + value / 128 * Pow128(group + 1) == value * Pow128(group)
  {
    PowersGrow(group);
    var p := Pow128(group);
    calc {
      value % 128 * p + value / 128 * (128 * p);
      (value % 128 + value / 128 * 128) * p;
      value * p;
    }
  }

  lemma AtLeastTimes(a: nat, p: nat)
    requires a >= 1
    ensures a * p >= p
  {
  }

  lemma FewGroups(value: nat, group: nat)
    requires value * Pow128(group) < MODULUS && (group == 0 || value > 0)
    ensures group < 10
  {
    if group >= 10 {
      PowersPast(group);
      AtLeastTimes(value, Pow128(group));
    }
  }

  lemma VarintStep(bytes: Bytes, position: nat, group: nat, value: nat, byte: nat)
    requires group < 10 && position < |bytes| && bytes[position] == byte && byte % 128 * Pow128(group) < MODULUS
    ensures var more := value + byte % 128 * Pow128(group);
            VarintAt(bytes, position, group, value)
            == if byte < 128 then Some((more, position + 1)) else VarintAt(bytes, position + 1, group + 1, more)
  {
    hide Pow128;
  }

  lemma Placed(front: Bytes, byte: Byte, later: Bytes, rest: Bytes)
    ensures var bytes := front + ([byte] + later) + rest;
            bytes == (front + [byte]) + later + rest && bytes[|front|] == byte
  {
  }

  /** A varint of a 64-bit value is read back wherever it stands. */
  lemma {:induction false} VarintReads(front: Bytes, value: nat, rest: Bytes, group: nat, low: nat)
    requires low + value * Pow128(group) < MODULUS && (group == 0 || value > 0)
    ensures VarintAt(front + EncodedVarint(value) + rest, |front|, group, low)
            == Some((low + value * Pow128(group), |front| + |EncodedVarint(value)|))
    decreases value
  {
    hide VarintAt, Pow128;
    var bytes := front + EncodedVarint(value) + rest;
    FewGroups(value, group);
    GroupTaken(value, group);
    var taken := value % 128 * Pow128(group);
    var above := value / 128 * Pow128(group + 1);
    assert taken >= 0 && above >= 0;
    if value < 128 {
      assert value % 128 == value && bytes[|front|] == value;
      VarintStep(bytes, |front|, group, low, value);
    } else {
      var byte := value % 128 + 128;
      assert byte % 128 == value % 128;
      Placed(front, byte, EncodedVarint(value / 128), rest);
      VarintStep(bytes, |front|, group, low, byte);
      VarintReads(front + [byte], value / 128, rest, group + 1, low + taken);
    }
  }

  lemma VarintReadsBack(front: Bytes, value: nat, rest: Bytes)
    requires value < MODULUS
    ensures VarintAt(front + EncodedVarint(value) + rest, |front|, 0, 0)
            == Some((value, |front| + |EncodedVarint(value)|))
  {
    assert value * Pow128(0) == value;
    VarintReads(front, value, rest, 0, 0);
  }

  // ---------------------------------------------------------------- fields

  function WordAt(bytes: Bytes, position: nat, width: nat): Option<(nat, nat)> {
    if position + width > |bytes| then None
    else Some((Crc.LittleEndian(bytes[position..position + width]), position + width))
  }

  function DelimitedAt(bytes: Bytes, position: nat): (r: Option<(Bytes, nat)>)
    ensures r.Some? ==> position < r.value.1 <= |bytes| && |r.value.0| < |bytes|
  {
    match VarintAt(bytes, position, 0, 0)
    case None => None
    case Some((length, start)) =>
      if start + length > |bytes| then None else Some((bytes[start..start + length], start + length))
  }

  /** A tag and what its wire type says follows it. */
  function FieldAt(bytes: Bytes, position: nat): (r: Option<(Field, nat)>)
    ensures r.Some? ==> position < r.value.1 <= |bytes|
    ensures r.Some? && r.value.0.Delimited? ==> |r.value.0.bytes| < |bytes|
  {
    match VarintAt(bytes, position, 0, 0)
    case None => None
    case Some((key, start)) =>
      var number := key / 8;
      if key % 8 == 0 then
        match VarintAt(bytes, start, 0, 0)
        case None => None
        case Some((value, end)) => Some((Varint(number, value), end))
      else if key % 8 == 1 then
        match WordAt(bytes, start, 8)
        case None => None
        case Some((value, end)) => Some((Fixed64(number, value), end))
      else if key % 8 == 2 then
        match DelimitedAt(bytes, start)
        case None => None
        case Some((content, end)) => Some((Delimited(number, content), end))
      else if key % 8 == 5 then
        match WordAt(bytes, start, 4)
        case None => None
        case Some((value, end)) => Some((Fixed32(number, value), end))
      else None
  }

  function FieldsFrom(bytes: Bytes, position: nat): Option<seq<Field>>
    requires position <= |bytes|
    decreases |bytes| - position
  {
    if position == |bytes| then Some([])
    else
      match FieldAt(bytes, position)
      case None => None
      case Some((field, next)) =>
        match FieldsFrom(bytes, next)
        case None => None
        case Some(rest) => Some([field] + rest)
  }

  /** A whole message as its fields, or nothing when some byte of it is malformed. */
  function Fields(bytes: Bytes): Option<seq<Field>> { FieldsFrom(bytes, 0) }

  // ---------------------------------------------------------------- the reference encoder

  /** A field a message can carry. */
  predicate Encodable(field: Field) {
    && field.number * 8 + 7 < MODULUS
    && match field
       case Delimited(_, bytes) => |bytes| < MODULUS
       case Fixed32(_, value) => value < 0x1_0000_0000
       case _ => field.value < MODULUS
  }

  function EncodedField(field: Field): Bytes {
    match field
    case Varint(number, value) => EncodedVarint(number * 8) + EncodedVarint(value)
    case Fixed64(number, value) => EncodedVarint(number * 8 + 1) + Crc.Digits(value, 8)
    case Delimited(number, bytes) => EncodedVarint(number * 8 + 2) + (EncodedVarint(|bytes|) + bytes)
    case Fixed32(number, value) => EncodedVarint(number * 8 + 5) + Crc.Digits(value, 4)
  }

  function Encoded(fields: seq<Field>): Bytes {
    if fields == [] then [] else EncodedField(fields[0]) + Encoded(fields[1..])
  }

  lemma WordReads(front: Bytes, value: nat, width: nat, rest: Bytes)
    requires (width == 4 && value < 0x1_0000_0000) || (width == 8 && value < MODULUS)
    ensures WordAt(front + Crc.Digits(value, width) + rest, |front|, width) == Some((value, |front| + width))
  {
    Crc.ShiftedByWord(1);
    Crc.ShiftedTwice(1, 32, 32);
    Crc.ShiftedByWord(0x1_0000_0000);
    Crc.LittleEndianOfDigits(value, width);
    var bytes := front + Crc.Digits(value, width) + rest;
    assert bytes[|front|..|front| + width] == Crc.Digits(value, width);
  }

  lemma DelimitedReads(front: Bytes, content: Bytes, rest: Bytes)
    requires |content| < MODULUS
    ensures DelimitedAt(front + (EncodedVarint(|content|) + content) + rest, |front|)
            == Some((content, |front| + |EncodedVarint(|content|)| + |content|))
  {
    hide VarintAt, EncodedVarint;
    var length := EncodedVarint(|content|);
    var bytes := front + (length + content) + rest;
    assert bytes == front + length + (content + rest);
    VarintReadsBack(front, |content|, content + rest);
    var start := |front| + |length|;
    assert bytes[start..start + |content|] == content;
  }

  /** An encoded field is read back wherever it stands. */
  lemma FieldReads(front: Bytes, field: Field, rest: Bytes)
    requires Encodable(field)
    ensures FieldAt(front + EncodedField(field) + rest, |front|) == Some((field, |front| + |EncodedField(field)|))
  {
    hide VarintAt, EncodedVarint, WordAt, DelimitedAt, Crc.Digits;
    var key := field.number * 8
               + (if field.Varint? then 0 else if field.Fixed64? then 1 else if field.Delimited? then 2 else 5);
    var tag := EncodedVarint(key);
    var start := front + tag;
    match field {
      case Varint(_, value) =>
        TagReads(front, key, EncodedVarint(value), rest);
        VarintReadsBack(start, value, rest);
      case Fixed64(_, value) =>
        TagReads(front, key, Crc.Digits(value, 8), rest);
        WordReads(start, value, 8, rest);
      case Delimited(_, content) =>
        TagReads(front, key, EncodedVarint(|content|) + content, rest);
        DelimitedReads(start, content, rest);
      case Fixed32(_, value) =>
        TagReads(front, key, Crc.Digits(value, 4), rest);
        WordReads(start, value, 4, rest);
    }
  }

  lemma TagReads(front: Bytes, key: nat, payload: Bytes, rest: Bytes)
    requires key < MODULUS
    ensures var bytes := front + (EncodedVarint(key) + payload) + rest;
            && bytes == (front + EncodedVarint(key)) + payload + rest
            && VarintAt(bytes, |front|, 0, 0) == Some((key, |front| + |EncodedVarint(key)|))
  {
    hide VarintAt, EncodedVarint;
    var tag := EncodedVarint(key);
    assert front + (tag + payload) + rest == front + tag + (payload + rest) == (front + tag) + payload + rest;
    VarintReadsBack(front, key, payload + rest);
  }

  /** Reading inverts writing, whatever fields follow. */
  lemma {:induction false} FieldsRead(front: Bytes, fields: seq<Field>, rest: Bytes)
    requires forall i :: 0 <= i < |fields| ==> Encodable(fields[i])
    ensures FieldsFrom(front + Encoded(fields) + rest, |front|)
            == match FieldsFrom(front + Encoded(fields) + rest, |front + Encoded(fields)|)
               case None => None
               case Some(more) => Some(fields + more)
    decreases |fields|
  {
    hide FieldAt, EncodedField;
    if fields == [] {
      assert front + [] + rest == front + rest && front + [] == front;
      assert forall more: seq<Field> :: [] + more == more;
    } else {
      var first, later := EncodedField(fields[0]), Encoded(fields[1..]);
      var bytes := front + (first + later) + rest;
      assert bytes == front + first + (later + rest) == (front + first) + later + rest;
      FieldReads(front, fields[0], later + rest);
      FieldsRead(front + first, fields[1..], rest);
      assert front + first + later == front + (first + later);
      assert forall more: seq<Field> :: [fields[0]] + (fields[1..] + more) == fields + more;
    }
  }

  lemma FieldsReadBack(fields: seq<Field>)
    requires forall i :: 0 <= i < |fields| ==> Encodable(fields[i])
    ensures Fields(Encoded(fields)) == Some(fields)
  {
    hide Encoded, Encodable, FieldsFrom;
    var bytes := Encoded(fields);
    FieldsRead([], fields, []);
    assert [] + bytes + [] == bytes && [] + bytes == bytes;
    NoMoreFields(bytes);
    assert fields + [] == fields;
  }

  lemma NoMoreFields(bytes: Bytes)
    ensures FieldsFrom(bytes, |bytes|) == Some([])
  {
  }

  // ---------------------------------------------------------------- the reader

  datatype Malformed = TruncatedVarint | LongVarint | TruncatedWord | PastEnd | UnsupportedType

  /** A position in a message that every read moves forward, within the bytes there are. */
  class Reader {
    const bytes: Bytes
    var position: nat

    constructor (bytes: Bytes)
      ensures this.bytes == bytes && position == 0
    {
      this.bytes, position := bytes, 0;
    }

    ghost predicate Valid()
      reads this
    {
      position <= |bytes|
    }

    predicate Done()
      reads this
    {
      position >= |bytes|
    }

    method ReadVarint() returns (r: Result<nat, Malformed>)
      requires Valid()
      modifies this`position
      ensures Valid() && old(position) <= position
      ensures r.Err? <==> VarintAt(bytes, old(position), 0, 0).None?
      ensures r.Ok? ==> Some((r.value, position)) == VarintAt(bytes, old(position), 0, 0)
    {
      hide Pow128;
      var value: nat, group: nat := 0, 0;
      while group < 10
        invariant 0 <= group <= 10 && old(position) <= position <= |bytes|
        invariant VarintAt(bytes, old(position), 0, 0) == VarintAt(bytes, position, group, value)
      {
        if position >= |bytes| {
          return Err(TruncatedVarint);
        }
        var byte: nat := bytes[position];
        position := position + 1;
        value := value + byte % 128 * Pow128(group) % MODULUS;
        if byte < 128 {
          return Ok(value);
        }
        group := group + 1;
      }
      r := Err(LongVarint);
    }

    method ReadWord(width: nat) returns (r: Result<nat, Malformed>)
      requires Valid()
      modifies this`position
      ensures Valid() && old(position) <= position
      ensures r.Err? <==> WordAt(bytes, old(position), width).None?
      ensures r.Ok? ==> Some((r.value, position)) == WordAt(bytes, old(position), width)
    {
      if position + width > |bytes| {
        return Err(TruncatedWord);
      }
      r := Ok(Crc.LittleEndian(bytes[position..position + width]));
      position := position + width;
    }

    method ReadBytes() returns (r: Result<Bytes, Malformed>)
      requires Valid()
      modifies this`position
      ensures Valid() && old(position) <= position
      ensures r.Err? <==> DelimitedAt(bytes, old(position)).None?
      ensures r.Ok? ==> Some((r.value, position)) == DelimitedAt(bytes, old(position))
    {
      hide VarintAt;
      var length :- ReadVarint();
      if position + length > |bytes| {
        return Err(PastEnd);
      }
      r := Ok(bytes[position..position + length]);
      position := position + length;
    }

    /** Reads a tag and what follows it by its wire type, which is as far as skipping the field would go. */
    method ReadField() returns (r: Result<Field, Malformed>)
      requires Valid()
      modifies this`position
      ensures Valid() && old(position) <= position
      ensures r.Err? <==> FieldAt(bytes, old(position)).None?
      ensures r.Ok? ==> Some((r.value, position)) == FieldAt(bytes, old(position)) && old(position) < position
      ensures r.Ok? && r.value.Delimited? ==> |r.value.bytes| < |bytes|
    {
      hide VarintAt, WordAt, DelimitedAt;
      var key :- ReadVarint();
      var number, wireType := key / 8, key % 8;
      if wireType == 0 {
        var value :- ReadVarint();
        r := Ok(Varint(number, value));
      } else if wireType == 1 {
        var value :- ReadWord(8);
        r := Ok(Fixed64(number, value));
      } else if wireType == 2 {
        var content :- ReadBytes();
        r := Ok(Delimited(number, content));
      } else if wireType == 5 {
        var value :- ReadWord(4);
        r := Ok(Fixed32(number, value));
      } else {
        r := Err(UnsupportedType);
      }
    }
  }

  // ---------------------------------------------------------------- messages end to end

  lemma {:induction false} VarintStays(front: Bytes, back: Bytes, position: nat, group: nat, value: nat)
    requires VarintAt(front, position, group, value).Some?
    ensures VarintAt(front + back, position, group, value) == VarintAt(front, position, group, value)
    decreases 10 - group
  {
    hide Pow128;
    var byte: nat := front[position];
    assert (front + back)[position] == byte;
    if byte >= 128 {
      VarintStays(front, back, position + 1, group + 1, value + byte % 128 * Pow128(group) % MODULUS);
    }
  }

  lemma {:induction false} VarintShifts(front: Bytes, back: Bytes, position: nat, group: nat, value: nat)
    ensures VarintAt(front + back, |front| + position, group, value)
            == match VarintAt(back, position, group, value)
               case None => None
               case Some((v, end)) => Some((v, |front| + end))
    decreases 10 - group
  {
    hide Pow128;
    if group < 10 && position < |back| {
      var byte: nat := back[position];
      assert (front + back)[|front| + position] == byte;
      VarintShifts(front, back, position + 1, group + 1, value + byte % 128 * Pow128(group) % MODULUS);
    }
  }

  /** What is read inside a message is read the same with more after it. */
  lemma FieldStays(front: Bytes, back: Bytes, position: nat)
    requires FieldAt(front, position).Some?
    ensures FieldAt(front + back, position) == FieldAt(front, position)
  {
    hide VarintAt;
    VarintStays(front, back, position, 0, 0);
    var (key, start) := VarintAt(front, position, 0, 0).value;
    if key % 8 == 0 || key % 8 == 2 {
      VarintStays(front, back, start, 0, 0);
    }
    SlicesStay(front, back);
  }

  lemma SlicesStay(front: Bytes, back: Bytes)
    ensures forall i, j :: 0 <= i <= j <= |front| ==> (front + back)[i..j] == front[i..j]
  {
  }

  lemma FieldShifts(front: Bytes, back: Bytes, position: nat)
    ensures FieldAt(front + back, |front| + position)
            == match FieldAt(back, position)
               case None => None
               case Some((field, end)) => Some((field, |front| + end))
  {
    hide VarintAt;
    VarintShifts(front, back, position, 0, 0);
    if VarintAt(back, position, 0, 0).Some? {
      var (key, start) := VarintAt(back, position, 0, 0).value;
      VarintShifts(front, back, start, 0, 0);
      SlicesShift(front, back);
    }
  }

  lemma SlicesShift(front: Bytes, back: Bytes)
    ensures forall i, j :: 0 <= i <= j <= |back| ==> (front + back)[|front| + i..|front| + j] == back[i..j]
  {
  }

  lemma {:induction false} FieldsShift(front: Bytes, back: Bytes, position: nat)
    requires position <= |back|
    ensures FieldsFrom(front + back, |front| + position) == FieldsFrom(back, position)
    decreases |back| - position
  {
    hide FieldAt;
    FieldShifts(front, back, position);
    if position < |back| && FieldAt(back, position).Some? {
      FieldsShift(front, back, FieldAt(back, position).value.1);
    }
  }

  lemma {:induction false} FieldsJoin(front: Bytes, back: Bytes, position: nat)
    requires position <= |front| && FieldsFrom(front, position).Some?
    ensures FieldsFrom(front + back, position)
            == match Fields(back)
               case None => None
               case Some(more) => Some(FieldsFrom(front, position).value + more)
    decreases |front| - position
  {
    hide FieldAt;
    if position == |front| {
      FieldsShift(front, back, 0);
      assert forall more: seq<Field> :: [] + more == more;
    } else {
      FieldStays(front, back, position);
      var (field, next) := FieldAt(front, position).value;
      FieldsJoin(front, back, next);
      var rest := FieldsFrom(front, next).value;
      assert forall more: seq<Field> :: [field] + (rest + more) == [field] + rest + more;
    }
  }

  /** A well-formed message followed by anything is its fields followed by those of what follows. */
  lemma MessagesConcatenate(front: Bytes, back: Bytes)
    requires Fields(front).Some?
    ensures Fields(front + back)
            == match Fields(back) case None => None case Some(more) => Some(Fields(front).value + more)
  {
    FieldsJoin(front, back, 0);
  }
}
