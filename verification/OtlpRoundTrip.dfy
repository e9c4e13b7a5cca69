/** A reference encoder of OTLP attribute values, which the decoder of `src/otlp_pb.rs` inverts exactly on values nested
    within its cap; fields the decoder does not know change nothing. */
module OtlpRoundTrip {
  import opened Common
  import opened Wire
  import opened OtlpValues

  /** A value as an encoder sees it: a map is a list of pairs. */
  datatype Any =
    | ANull
    | ABool(truth: bool)
    | AInt(number: int)
    | ADouble(bits: nat)
    | AStr(text: string)
    | AArr(items: seq<Any>)
    | AObj(pairs: seq<AnyPair>)
    | ABytes(bytes: Bytes)

  datatype AnyPair = AnyPair(key: string, value: Any)

  const HALF: int := 0x8000_0000_0000_0000

  function Unsigned(number: int): nat
    requires -HALF <= number < HALF
  {
    if number >= 0 then number else number + MODULUS
  }

  // ---------------------------------------------------------------- encoding

  function EncodedAny(text: Text, any: Any): Bytes
    decreases any, 1
  {
    Encoded(FieldsOf(text, any))
  }

  /** Section "Encoding" of the protobuf specification, for `AnyValue`: one field of the variant held. */
  function FieldsOf(text: Text, any: Any): seq<Field>
    decreases any, 0
  {
    match any
    case ANull => []
    case ABool(truth) => [Varint(2, if truth then 1 else 0)]
    case AInt(number) => [Varint(3, if -HALF <= number < HALF then Unsigned(number) else 0)]
    case ADouble(bits) => [Fixed64(4, bits)]
    case AStr(s) => [Delimited(1, text.encode(s))]
    case AArr(items) => [Delimited(5, Encoded(ItemFields(text, any, items)))]
    case AObj(pairs) => [Delimited(6, Encoded(PairFields(text, any, pairs)))]
    case ABytes(bytes) => [Delimited(7, bytes)]
  }

  function ItemFields(text: Text, owner: Any, items: seq<Any>): seq<Field>
    requires forall i :: 0 <= i < |items| ==> items[i] < owner
    decreases owner, 0, |items|
  {
    if items == [] then [] else [Delimited(1, EncodedAny(text, items[0]))] + ItemFields(text, owner, items[1..])
  }

  function PairFields(text: Text, owner: Any, pairs: seq<AnyPair>): seq<Field>
    requires forall i :: 0 <= i < |pairs| ==> pairs[i].value < owner
    decreases owner, 0, |pairs|
  {
    if pairs == [] then [] else [Delimited(1, EncodedPair(text, pairs[0]))] + PairFields(text, owner, pairs[1..])
  }

  function EncodedPair(text: Text, pair: AnyPair): Bytes
    decreases pair.value, 2
  {
    Encoded([Delimited(1, text.encode(pair.key)), Delimited(2, EncodedAny(text, pair.value))])
  }

  /** Integers of 64 bits, and lengths a varint can say. */
  ghost predicate Fits(text: Text, any: Any)
    decreases any, 0
  {
    && (forall i :: 0 <= i < |FieldsOf(text, any)| ==> Encodable(FieldsOf(text, any)[i]))
    && match any
       case AInt(number) => -HALF <= number < HALF
       case AArr(items) =>
         forall i :: 0 <= i < |items| ==> Fits(text, items[i]) && |EncodedAny(text, items[i])| < MODULUS
       case AObj(pairs) => forall i :: 0 <= i < |pairs| ==> PairFits(text, pairs[i])
       case _ => true
  }

  ghost predicate PairFits(text: Text, pair: AnyPair)
    decreases pair.value, 1
  {
    && |text.encode(pair.key)| < MODULUS && Fits(text, pair.value) && |EncodedAny(text, pair.value)| < MODULUS
    && |EncodedPair(text, pair)| < MODULUS
  }

  // ---------------------------------------------------------------- what is meant

  function Meaning(any: Any): Value {
    match any
    case ANull => Null
    case ABool(truth) => Bool(truth)
    case AInt(number) => Int(number)
    case ADouble(bits) => if Finite(bits) then Double(bits) else Null
    case AStr(s) => Str(s)
    case AArr(items) => Arr(Meanings(any, items))
    case AObj(pairs) => Obj(MeaningOfPairs(any, pairs, map[]))
    case ABytes(bytes) => Str(Hex(bytes))
  }

  function Meanings(owner: Any, items: seq<Any>): seq<Value>
    requires forall i :: 0 <= i < |items| ==> items[i] < owner
    decreases owner, 0, |items|
  {
    if items == [] then [] else [Meaning(items[0])] + Meanings(owner, items[1..])
  }

  /** Of several pairs with one key the last is meant. */
  function MeaningOfPairs(owner: Any, pairs: seq<AnyPair>, entries: map<string, Value>): map<string, Value>
    requires forall i :: 0 <= i < |pairs| ==> pairs[i].value < owner
    decreases owner, 0, |pairs|
  {
    if pairs == [] then entries
    else MeaningOfPairs(owner, pairs[1..], entries[pairs[0].key := Meaning(pairs[0].value)])
  }

  /** How many lists and maps deep the value goes. */
  function Nesting(any: Any): nat {
    match any
    case AArr(items) => DeepestItem(any, items)
    case AObj(pairs) => DeepestPair(any, pairs)
    case _ => 0
  }

  function DeepestItem(owner: Any, items: seq<Any>): nat
    requires forall i :: 0 <= i < |items| ==> items[i] < owner
    decreases owner, 0, |items|
  {
    if items == [] then 0 else Max(1 + Nesting(items[0]), DeepestItem(owner, items[1..]))
  }

  function DeepestPair(owner: Any, pairs: seq<AnyPair>): nat
    requires forall i :: 0 <= i < |pairs| ==> pairs[i].value < owner
    decreases owner, 0, |pairs|
  {
    if pairs == [] then 0 else Max(1 + Nesting(pairs[0].value), DeepestPair(owner, pairs[1..]))
  }

  // ---------------------------------------------------------------- decoding inverts encoding

  /** An encoded value decodes to what it means where it nests to a depth of 32 at most, and is refused where it nests
      deeper. */
  lemma DecodesExactly(text: Text, any: Any, depth: nat)
    requires Faithful(text) && Fits(text, any)
    ensures AnyValueOf(text, EncodedAny(text, any), depth)
            == if depth + Nesting(any) <= 32 then Some(Meaning(any)) else None
  {
    hide AnyValueOf, EncodedAny, Nesting, Meaning, Faithful, Fits;
    DecodesWithin(text, any, depth);
  }

  lemma {:induction false} DecodesWithin(text: Text, any: Any, depth: nat)
    requires Faithful(text) && Fits(text, any)
    ensures AnyValueOf(text, EncodedAny(text, any), depth)
            == if depth + Nesting(any) <= MAX_DEPTH then Some(Meaning(any)) else None
    decreases any, 1
  {
    hide *;
    if depth > MAX_DEPTH {
      TooDeepIsRefused(text, EncodedAny(text, any), depth);
    } else if any.AArr? {
      ItemsDecode(text, any, any.items, depth + 1);
      ListDecodes(text, any, depth);
    } else if any.AObj? {
      PairsDecode(text, any, any.pairs, depth + 1);
      MapDecodes(text, any, depth);
    } else if any.ANull? {
      NothingHeld(text, depth);
      LeafIs(any);
    } else {
      LeafDecodes(text, any, depth);
      LeafIs(any);
    }
  }

  lemma LeafIs(any: Any)
    requires !any.AArr? && !any.AObj?
    ensures Nesting(any) == 0 && (any.ANull? ==> Meaning(any) == Null)
  {
  }

  lemma ListDecodes(text: Text, any: Any, depth: nat)
    requires depth <= MAX_DEPTH && Fits(text, any) && any.AArr?
    requires ItemsOf(text, Encoded(ItemFields(text, any, any.items)), depth + 1)
             == if depth + 1 + DeepestItem(any, any.items) <= MAX_DEPTH + 1
                 then Some(Meanings(any, any.items)) else None
    ensures AnyValueOf(text, EncodedAny(text, any), depth)
            == if depth + Nesting(any) <= MAX_DEPTH then Some(Meaning(any)) else None
  {
    HoldsOne(text, any, depth);
    hide AnyValueOf, EncodedAny, Encoded, ItemFields, DeepestItem, Meanings, ItemsOf, PairsOf, Fits;
  }

  lemma MapDecodes(text: Text, any: Any, depth: nat)
    requires depth <= MAX_DEPTH && Fits(text, any) && any.AObj?
    requires PairsOf(text, Encoded(PairFields(text, any, any.pairs)), 1, depth + 1)
             == if depth + 1 + DeepestPair(any, any.pairs) <= MAX_DEPTH + 1
                then Some(MeaningOfPairs(any, any.pairs, map[])) else None
    ensures AnyValueOf(text, EncodedAny(text, any), depth)
            == if depth + Nesting(any) <= MAX_DEPTH then Some(Meaning(any)) else None
  {
    HoldsOne(text, any, depth);
    hide AnyValueOf, EncodedAny, Encoded, PairFields, DeepestPair, MeaningOfPairs, ItemsOf, PairsOf, Fits;
  }

  lemma TooDeepIsRefused(text: Text, bytes: Bytes, depth: nat)
    requires depth > MAX_DEPTH
    ensures AnyValueOf(text, bytes, depth).None?
  {
  }

  lemma NothingHeld(text: Text, depth: nat)
    requires depth <= MAX_DEPTH
    ensures AnyValueOf(text, EncodedAny(text, ANull), depth) == Some(Null)
  {
    FieldsReadBack([]);
  }

  /** A message of one field is what that field makes it. */
  lemma HoldsOne(text: Text, any: Any, depth: nat)
    requires depth <= MAX_DEPTH && Fits(text, any) && !any.ANull?
    ensures |FieldsOf(text, any)| == 1
    ensures AnyValueOf(text, EncodedAny(text, any), depth)
            == match PartsWith(text, FieldsOf(text, any)[0], depth, NO_PARTS)
               case None => None
               case Some(parts) => Some(Resolve(parts))
  {
    var fields := FieldsOf(text, any);
    FieldsReadBack(fields);
    hide Fields, Encoded, PartsWith, ItemFields, PairFields;
    assert fields == [fields[0]];
    OneField(text, fields[0], depth);
  }

  lemma LeafDecodes(text: Text, any: Any, depth: nat)
    requires depth <= MAX_DEPTH && Faithful(text) && Fits(text, any)
    requires !any.AArr? && !any.AObj? && !any.ANull?
    ensures AnyValueOf(text, EncodedAny(text, any), depth) == Some(Meaning(any))
  {
    HoldsOne(text, any, depth);
    hide AnyValueOf, EncodedAny, Encoded, Finite;
    if any.AInt? {
      assert Signed(Unsigned(any.number)) == any.number;
    }
  }

  lemma OneField(text: Text, field: Field, depth: nat)
    requires depth <= MAX_DEPTH
    ensures FoldParts(text, [field], depth, NO_PARTS) == PartsWith(text, field, depth, NO_PARTS)
  {
    hide PartsWith;
    assert [field][1..] == [];
  }

  lemma ItemsFit(text: Text, owner: Any)
    requires owner.AArr? && Fits(text, owner)
    ensures forall i :: 0 <= i < |owner.items| ==>
              Fits(text, owner.items[i]) && |EncodedAny(text, owner.items[i])| < MODULUS
  {
    hide EncodedAny;
  }

  lemma PairsFit(text: Text, owner: Any)
    requires owner.AObj? && Fits(text, owner)
    ensures forall i :: 0 <= i < |owner.pairs| ==>
              PairFits(text, owner.pairs[i]) && |EncodedPair(text, owner.pairs[i])| < MODULUS
  {
    hide EncodedPair, EncodedAny;
  }

  lemma ItemsDecode(text: Text, owner: Any, items: seq<Any>, depth: nat)
    requires owner == AArr(items) && Faithful(text) && Fits(text, owner) && 0 < depth <= MAX_DEPTH + 1
    ensures ItemsOf(text, Encoded(ItemFields(text, owner, items)), depth)
            == if depth + DeepestItem(owner, items) <= MAX_DEPTH + 1 then Some(Meanings(owner, items)) else None
    decreases owner, 0, |items| + 1
  {
    hide Fits, Encoded, Fields, ItemFields, DeepestItem, Meanings, FoldItems;
    ItemsFit(text, owner);
    ItemsEncodable(text, owner, items);
    FieldsReadBack(ItemFields(text, owner, items));
    FoldsItems(text, owner, items, depth, []);
    assert [] + Meanings(owner, items) == Meanings(owner, items);
  }

  lemma {:induction false} ItemsEncodable(text: Text, owner: Any, items: seq<Any>)
    requires forall i :: 0 <= i < |items| ==> items[i] < owner && |EncodedAny(text, items[i])| < MODULUS
    ensures forall i :: 0 <= i < |ItemFields(text, owner, items)| ==> Encodable(ItemFields(text, owner, items)[i])
    decreases |items|
  {
    hide EncodedAny;
    if items != [] {
      ItemsEncodable(text, owner, items[1..]);
    }
  }

  lemma {:induction false} FoldsItems(text: Text, owner: Any, items: seq<Any>, depth: nat, before: seq<Value>)
    requires Faithful(text) && 0 < depth <= MAX_DEPTH + 1
    requires forall i :: 0 <= i < |items| ==> items[i] < owner && Fits(text, items[i])
    ensures FoldItems(text, ItemFields(text, owner, items), depth, before)
            == if depth + DeepestItem(owner, items) <= MAX_DEPTH + 1
               then Some(before + Meanings(owner, items)) else None
    decreases owner, 0, |items|
  {
    hide EncodedAny, AnyValueOf, Nesting, Meaning, Fits;
    if items == [] {
      assert before + [] == before;
    } else {
      var fields := ItemFields(text, owner, items);
      assert fields[1..] == ItemFields(text, owner, items[1..]);
      DecodesWithin(text, items[0], depth);
      FoldsItems(text, owner, items[1..], depth, before + [Meaning(items[0])]);
      assert before + [Meaning(items[0])] + Meanings(owner, items[1..]) == before + Meanings(owner, items);
    }
  }

  lemma PairsDecode(text: Text, owner: Any, pairs: seq<AnyPair>, depth: nat)
    requires owner == AObj(pairs) && Faithful(text) && Fits(text, owner) && 0 < depth <= MAX_DEPTH + 1
    ensures PairsOf(text, Encoded(PairFields(text, owner, pairs)), 1, depth)
            == if depth + DeepestPair(owner, pairs) <= MAX_DEPTH + 1
               then Some(MeaningOfPairs(owner, pairs, map[])) else None
    decreases owner, 0, |pairs| + 1
  {
    hide Fits, PairFits, Encoded, Fields, PairFields, DeepestPair, MeaningOfPairs, FoldEntries;
    PairsFit(text, owner);
    PairsEncodable(text, owner, pairs);
    FieldsReadBack(PairFields(text, owner, pairs));
    FoldsPairs(text, owner, pairs, depth, map[]);
  }

  lemma {:induction false} PairsEncodable(text: Text, owner: Any, pairs: seq<AnyPair>)
    requires forall i :: 0 <= i < |pairs| ==> pairs[i].value < owner && |EncodedPair(text, pairs[i])| < MODULUS
    ensures forall i :: 0 <= i < |PairFields(text, owner, pairs)| ==> Encodable(PairFields(text, owner, pairs)[i])
    decreases |pairs|
  {
    hide EncodedPair;
    if pairs != [] {
      PairsEncodable(text, owner, pairs[1..]);
    }
  }

  lemma {:induction false} FoldsPairs(text: Text, owner: Any, pairs: seq<AnyPair>, depth: nat,
                                      before: map<string, Value>)
    requires Faithful(text) && 0 < depth <= MAX_DEPTH + 1
    requires forall i :: 0 <= i < |pairs| ==> pairs[i].value < owner && PairFits(text, pairs[i])
    ensures FoldEntries(text, PairFields(text, owner, pairs), 1, depth, before)
            == if depth + DeepestPair(owner, pairs) <= MAX_DEPTH + 1
               then Some(MeaningOfPairs(owner, pairs, before)) else None
    decreases owner, 0, |pairs|
  {
    hide EncodedPair, KeyValueOf, Nesting, Meaning, PairFits;
    if pairs != [] {
      var fields := PairFields(text, owner, pairs);
      assert fields[1..] == PairFields(text, owner, pairs[1..]);
      PairDecodes(text, pairs[0], depth);
      FoldsPairs(text, owner, pairs[1..], depth, before[pairs[0].key := Meaning(pairs[0].value)]);
    }
  }

  lemma PairDecodes(text: Text, pair: AnyPair, depth: nat)
    requires Faithful(text) && PairFits(text, pair)
    ensures KeyValueOf(text, EncodedPair(text, pair), depth)
            == if depth + Nesting(pair.value) <= MAX_DEPTH then Some((pair.key, Meaning(pair.value))) else None
    decreases pair.value, 2
  {
    var fields := [Delimited(1, text.encode(pair.key)), Delimited(2, EncodedAny(text, pair.value))];
    FieldsReadBack(fields);
    DecodesWithin(text, pair.value, depth);
    hide Fields, Encoded, EncodedAny, AnyValueOf, Nesting, Meaning;
    TwoFields(text, fields, depth);
  }

  lemma TwoFields(text: Text, fields: seq<Field>, depth: nat)
    requires |fields| == 2 && fields[0].Delimited? && fields[0].number == 1 && fields[1].Delimited?
             && fields[1].number == 2
    requires text.decode(fields[0].bytes).Some?
    ensures FoldKeyValue(text, fields, depth, [], Null)
            == match AnyValueOf(text, fields[1].bytes, depth)
               case None => None
               case Some(value) => Some((text.decode(fields[0].bytes).value, value))
  {
    hide AnyValueOf;
    var key := text.decode(fields[0].bytes).value;
    assert FoldKeyValue(text, fields, depth, [], Null) == FoldKeyValue(text, fields[1..], depth, key, Null);
    assert fields[1..][0] == fields[1] && fields[1..][1..] == [];
  }
}
