/** Attribute values on the OTLP wire (`decode_any_value`, `decode_key_value` of `src/otlp_pb.rs`,
    `AnyValueParts::resolve` of `src/otlp.rs`): nested lists and maps within a depth cap, decoded field by field. The
    decoder inverts a reference encoder exactly on values nested within the cap. */
module OtlpValues {
  import opened Common
  import opened Wire

  const MAX_DEPTH: nat := 32

  /** A decoded value. A double is its IEEE bits. */
  datatype Value =
    | Null
    | Bool(truth: bool)
    | Int(number: int)
    | Double(bits: nat)
    | Str(text: string)
    | Arr(items: seq<Value>)
    | Obj(entries: map<string, Value>)

  /** UTF-8; its insides are not modelled. */
  datatype Text = Text(decode: Bytes -> Option<string>, encode: string -> Bytes)

  ghost predicate Faithful(text: Text) {
    forall s :: text.decode(text.encode(s)) == Some(s)
  }

  /** Lowercase hex, two digits a byte. */
  function Hex(bytes: Bytes): string {
    if bytes == [] then []
    else Hex(bytes[..|bytes| - 1]) + [HexDigit(bytes[|bytes| - 1] / 16), HexDigit(bytes[|bytes| - 1] % 16)]
  }

  /** `as i64` */
  function Signed(value: nat): int {
    if value < MODULUS / 2 then value else value - MODULUS
  }

  predicate Finite(bits: nat) { bits / 0x10_0000_0000_0000 % 0x800 != 0x7FF }

  /** By IEEE 754 the patterns that are no numbers are those from infinity's on, with either sign. */
  lemma FiniteIsBelowInfinity(bits: nat)
    requires bits < 0x1_0000_0000_0000_0000
    ensures Finite(bits) <==> bits % 0x8000_0000_0000_0000 < 0x7FF0_0000_0000_0000
  {
    var sign, magnitude := bits / 0x8000_0000_0000_0000, bits % 0x8000_0000_0000_0000;
    QuotientIs(bits, 0x800 * sign + magnitude / 0x10_0000_0000_0000, 0x10_0000_0000_0000);
    QuotientIs(0x800 * sign + magnitude / 0x10_0000_0000_0000, sign, 0x800);
  }

  // ---------------------------------------------------------------- one value of several fields

  /** The variants found, whichever order they came in. */
  datatype Parts = Parts(text: Option<Value>, integer: Option<Value>, double: Option<Value>, boolean: Option<Value>,
                         items: Option<seq<Value>>, kvlist: Option<map<string, Value>>, bytes: Option<Bytes>)

  const NO_PARTS := Parts(None, None, None, None, None, None, None)

  function Resolve(parts: Parts): Value {
    if parts.text.Some? then parts.text.value
    else if parts.integer.Some? then parts.integer.value
    else if parts.double.Some? then parts.double.value
    else if parts.boolean.Some? then parts.boolean.value
    else if parts.items.Some? then Arr(parts.items.value)
    else if parts.kvlist.Some? then Obj(parts.kvlist.value)
    else if parts.bytes.Some? then Str(Hex(parts.bytes.value))
    else Null
  }

  // ---------------------------------------------------------------- the decoding, as a fold over fields

  function Room(depth: nat): nat { if depth <= MAX_DEPTH then MAX_DEPTH + 1 - depth else 0 }

  function AnyValueOf(text: Text, bytes: Bytes, depth: nat): Option<Value>
    decreases Room(depth), 3, 1, 0
  {
    if depth > MAX_DEPTH then None
    else
      match Fields(bytes)
      case None => None
      case Some(fields) =>
        match FoldParts(text, fields, depth, NO_PARTS)
        case None => None
        case Some(parts) => Some(Resolve(parts))
  }

  function FoldParts(text: Text, fields: seq<Field>, depth: nat, parts: Parts): Option<Parts>
    requires depth <= MAX_DEPTH
    decreases Room(depth), 3, 0, |fields|
  {
    if fields == [] then Some(parts)
    else
      match PartsWith(text, fields[0], depth, parts)
      case None => None
      case Some(next) => FoldParts(text, fields[1..], depth, next)
  }

  function PartsWith(text: Text, field: Field, depth: nat, parts: Parts): Option<Parts>
    requires depth <= MAX_DEPTH
    decreases Room(depth), 2, 0, 0
  {
    match field
    case Delimited(1, bytes) =>
      (match text.decode(bytes) case None => None case Some(s) => Some(parts.(text := Some(Str(s)))))
    case Varint(2, value) => Some(parts.(boolean := Some(Bool(value != 0))))
    case Varint(3, value) => Some(parts.(integer := Some(Int(Signed(value)))))
    case Fixed64(4, bits) => Some(parts.(double := Some(if Finite(bits) then Double(bits) else Null)))
    case Delimited(5, bytes) =>
      (match ItemsOf(text, bytes, depth + 1) case None => None case Some(items) => Some(parts.(items := Some(items))))
    case Delimited(6, bytes) =>
      (match PairsOf(text, bytes, 1, depth + 1)
       case None => None
       case Some(entries) => Some(parts.(kvlist := Some(entries))))
    case Delimited(7, bytes) => Some(parts.(bytes := Some(bytes)))
    case _ => Some(parts)
  }

  function ItemsOf(text: Text, bytes: Bytes, depth: nat): Option<seq<Value>>
    decreases Room(depth), 6, 0, 0
  {
    match Fields(bytes)
    case None => None
    case Some(fields) => FoldItems(text, fields, depth, [])
  }

  function FoldItems(text: Text, fields: seq<Field>, depth: nat, items: seq<Value>): Option<seq<Value>>
    decreases Room(depth), 5, 0, |fields|
  {
    if fields == [] then Some(items)
    else if fields[0].Delimited? && fields[0].number == 1 then
      match AnyValueOf(text, fields[0].bytes, depth)
      case None => None
      case Some(item) => FoldItems(text, fields[1..], depth, items + [item])
    else FoldItems(text, fields[1..], depth, items)
  }

  /** The pairs of a message under one field number: of a list of pairs, or of a span's attributes. */
  function PairsOf(text: Text, bytes: Bytes, number: nat, depth: nat): Option<map<string, Value>>
    decreases Room(depth), 6, 0, 0
  {
    match Fields(bytes)
    case None => None
    case Some(fields) => FoldEntries(text, fields, number, depth, map[])
  }

  /** Key-value pairs under one field number, the last of a key winning. */
  function FoldEntries(text: Text, fields: seq<Field>, number: nat, depth: nat, entries: map<string, Value>)
    : Option<map<string, Value>>
    decreases Room(depth), 5, 0, |fields|
  {
    if fields == [] then Some(entries)
    else if fields[0].Delimited? && fields[0].number == number then
      match KeyValueOf(text, fields[0].bytes, depth)
      case None => None
      case Some((key, value)) => FoldEntries(text, fields[1..], number, depth, entries[key := value])
    else FoldEntries(text, fields[1..], number, depth, entries)
  }

  function KeyValueOf(text: Text, bytes: Bytes, depth: nat): Option<(string, Value)>
    decreases Room(depth), 4, 1, 0
  {
    match Fields(bytes)
    case None => None
    case Some(fields) => FoldKeyValue(text, fields, depth, [], Null)
  }

  function FoldKeyValue(text: Text, fields: seq<Field>, depth: nat, key: string, value: Value): Option<(string, Value)>
    decreases Room(depth), 4, 0, |fields|
  {
    if fields == [] then Some((key, value))
    else
      match fields[0]
      case Delimited(1, bytes) =>
        (match text.decode(bytes) case None => None case Some(s) => FoldKeyValue(text, fields[1..], depth, s, value))
      case Delimited(2, bytes) =>
        (match AnyValueOf(text, bytes, depth)
         case None => None
         case Some(v) => FoldKeyValue(text, fields[1..], depth, key, v))
      case _ => FoldKeyValue(text, fields[1..], depth, key, value)
  }

  // ---------------------------------------------------------------- the decoder

  datatype Refusal = BadWire | NotUtf8 | TooDeep

  /** Whether a reading and its specification agree. */
  predicate Agrees<T(==)>(r: Result<T, Refusal>, expected: Option<T>) {
    match r case Ok(value) => expected == Some(value) case Err(_) => expected.None?
  }

  method ReadNext(reader: Reader) returns (r: Result<Field, Refusal>)
    requires reader.Valid() && !reader.Done()
    modifies reader`position
    ensures reader.Valid() && old(reader.position) <= reader.position
    ensures r.Err? ==> FieldsFrom(reader.bytes, old(reader.position)).None?
    ensures r.Ok? ==> old(reader.position) < reader.position
                      && FieldsFrom(reader.bytes, old(reader.position))
                         == match FieldsFrom(reader.bytes, reader.position)
                            case None => None
                            case Some(rest) => Some([r.value] + rest)
  {
    ghost var start := reader.position;
    var field := reader.ReadField();
    hide FieldAt;
    if field.Err? {
      assert FieldsFrom(reader.bytes, start).None?;
      return Err(BadWire);
    }
    r := Ok(field.value);
  }

  method DecodeAnyValue(text: Text, bytes: Bytes, depth: nat) returns (r: Result<Value, Refusal>)
    ensures Agrees(r, AnyValueOf(text, bytes, depth))
    decreases Room(depth), 3, 1
  {
    hide FieldsFrom, PartsWith;
    if depth > MAX_DEPTH {
      return Err(TooDeep);
    }
    var reader := new Reader(bytes);
    var parts := NO_PARTS;
    while !reader.Done()
      invariant reader.Valid() && fresh(reader)
      invariant match FieldsFrom(bytes, reader.position)
                case None => AnyValueOf(text, bytes, depth).None?
                case Some(rest) =>
                  AnyValueOf(text, bytes, depth)
                  == match FoldParts(text, rest, depth, parts) case None => None case Some(p) => Some(Resolve(p))
      decreases |bytes| - reader.position
    {
      var field :- ReadNext(reader);
      parts :- AddPart(text, field, depth, parts);
    }
    EndsRead(bytes, reader.position);
    r := Ok(Resolve(parts));
  }

  method AddPart(text: Text, field: Field, depth: nat, parts: Parts) returns (r: Result<Parts, Refusal>)
    requires depth <= MAX_DEPTH
    ensures Agrees(r, PartsWith(text, field, depth, parts))
    decreases Room(depth), 2, 0
  {
    hide ItemsOf, PairsOf;
    match field
    case Delimited(1, bytes) =>
      var decoded := text.decode(bytes);
      if decoded.None? {
        return Err(NotUtf8);
      }
      r := Ok(parts.(text := Some(Str(decoded.value))));
    case Varint(2, value) => r := Ok(parts.(boolean := Some(Bool(value != 0))));
    case Varint(3, value) => r := Ok(parts.(integer := Some(Int(Signed(value)))));
    case Fixed64(4, bits) => r := Ok(parts.(double := Some(if Finite(bits) then Double(bits) else Null)));
    case Delimited(5, bytes) =>
      var items :- DecodeItems(text, bytes, depth + 1);
      r := Ok(parts.(items := Some(items)));
    case Delimited(6, bytes) =>
      var entries :- DecodeEntries(text, bytes, 1, depth + 1);
      r := Ok(parts.(kvlist := Some(entries)));
    case Delimited(7, bytes) => r := Ok(parts.(bytes := Some(bytes)));
    case _ => r := Ok(parts);
  }

  method DecodeItems(text: Text, bytes: Bytes, depth: nat) returns (r: Result<seq<Value>, Refusal>)
    ensures Agrees(r, ItemsOf(text, bytes, depth))
    decreases Room(depth), 6, 0
  {
    hide FieldsFrom, AnyValueOf;
    var reader := new Reader(bytes);
    var items: seq<Value> := [];
    while !reader.Done()
      invariant reader.Valid() && fresh(reader)
      invariant match FieldsFrom(bytes, reader.position)
                case None => ItemsOf(text, bytes, depth).None?
                case Some(rest) => ItemsOf(text, bytes, depth) == FoldItems(text, rest, depth, items)
      decreases |bytes| - reader.position
    {
      var field :- ReadNext(reader);
      if field.Delimited? && field.number == 1 {
        var item :- DecodeAnyValue(text, field.bytes, depth);
        items := items + [item];
      }
    }
    EndsRead(bytes, reader.position);
    r := Ok(items);
  }

  lemma EndsRead(bytes: Bytes, position: nat)
    requires position == |bytes|
    ensures FieldsFrom(bytes, position) == Some([])
  {
  }

  method DecodeEntries(text: Text, bytes: Bytes, number: nat, depth: nat)
    returns (r: Result<map<string, Value>, Refusal>)
    ensures Agrees(r, PairsOf(text, bytes, number, depth))
    decreases Room(depth), 6, 0
  {
    hide FieldsFrom, KeyValueOf;
    var reader := new Reader(bytes);
    var entries: map<string, Value> := map[];
    while !reader.Done()
      invariant reader.Valid() && fresh(reader)
      invariant match FieldsFrom(bytes, reader.position)
                case None => PairsOf(text, bytes, number, depth).None?
                case Some(rest) =>
                  PairsOf(text, bytes, number, depth) == FoldEntries(text, rest, number, depth, entries)
      decreases |bytes| - reader.position
    {
      var field :- ReadNext(reader);
      if field.Delimited? && field.number == number {
        var pair :- DecodeKeyValue(text, field.bytes, depth);
        entries := entries[pair.0 := pair.1];
      }
    }
    EndsRead(bytes, reader.position);
    r := Ok(entries);
  }

  method DecodeKeyValue(text: Text, bytes: Bytes, depth: nat) returns (r: Result<(string, Value), Refusal>)
    ensures Agrees(r, KeyValueOf(text, bytes, depth))
    decreases Room(depth), 4, 1
  {
    hide FieldsFrom, AnyValueOf;
    var reader := new Reader(bytes);
    var key: string, value := [], Null;
    while !reader.Done()
      invariant reader.Valid() && fresh(reader)
      invariant match FieldsFrom(bytes, reader.position)
                case None => KeyValueOf(text, bytes, depth).None?
                case Some(rest) => KeyValueOf(text, bytes, depth) == FoldKeyValue(text, rest, depth, key, value)
      decreases |bytes| - reader.position
    {
      var field :- ReadNext(reader);
      match field
      case Delimited(1, content) =>
        var decoded := text.decode(content);
        if decoded.None? {
          return Err(NotUtf8);
        }
        key := decoded.value;
      case Delimited(2, content) => value :- DecodeAnyValue(text, content, depth);
      case _ =>
    }
    EndsRead(bytes, reader.position);
    r := Ok((key, value));
  }
}
