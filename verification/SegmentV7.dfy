/** The frozen v7 segment decoder of `src/migration.rs`, proved to accept exactly the files that are a header, a block
    directory and an offset index laid over one gap-free stream of records, and to return those records. */
module SegmentV7 {
  import opened Common
  import Crc

  const HEADER_LEN: nat := 128
  const ENTRY_LEN: nat := 32
  const RAW_FLAG: nat := 0x8000_0000
  const FIXED_LEN: nat := 24
  const PAIR_LEN: nat := 20
  const VERSION: nat := 7
  const MAGIC: Bytes := [0x54, 0x52, 0x41, 0x5A, 0x41, 0x53, 0x45, 0x47]

  /** Library calls whose insides are not modelled: UTF-8 validation and LZ4 block decompression. */
  datatype Library = Library(utf8: Bytes -> bool, inflate: (Bytes, nat) -> Option<Bytes>)

  datatype Refusal =
    | TooShort | BadMagic | WrongVersion | WrongHeaderLength | UnknownCodec | OffsetBeyondFile | NotContiguous
    | SectionBeyondFile | TrailingBytes | BadOffsetLength | PartialEntry | RegionsDisagree | BadOffsets | NoOffsets
    | EmptyBlock | BlockBeyondRegion | StoredGap | UnorderedBlocks | UnorderedTimes | FirstBlockNotZero
    | StoredUnaccounted | ExtentTooLarge | RawLengthMismatch | CrcMismatch | NotInflatable | WrongBlockLength
    | FenceMismatch | LogicalUnaccounted | TruncatedHeader | TruncatedField | NotUtf8 | UnorderedPairs
    | IndexDisagrees | RecordsMissing | BlockInsideRecord

  /** A little-endian integer of `width` bytes. */
  function Word(bytes: Bytes, at: nat, width: nat): nat
    requires at + width <= |bytes|
  {
    Crc.LittleEndian(bytes[at..at + width])
  }

  // ---------------------------------------------------------------- the record stream

  datatype Pair = Pair(id: nat, digest: Bytes)

  /** One framed record: `reserved` is the four header bytes the decoder does not read. */
  datatype Record = Record(timestamp: nat, traceId: Bytes, pairs: seq<Pair>, reserved: Bytes, payload: Bytes)

  /** What the decoder returns of it: the payload is the authority for everything else. */
  datatype LegacyRecord = LegacyRecord(timestamp: nat, traceId: Bytes, payload: Bytes)

  function Kept(record: Record): LegacyRecord {
    LegacyRecord(record.timestamp, record.traceId, record.payload)
  }

  function PairBytes(pair: Pair): Bytes {
    Crc.Digits(pair.id, 4) + pair.digest
  }

  function PairsBytes(pairs: seq<Pair>): Bytes {
    if pairs == [] then [] else PairsBytes(pairs[..|pairs| - 1]) + PairBytes(pairs[|pairs| - 1])
  }

  function FixedBytes(record: Record): Bytes {
    Crc.Digits(record.timestamp, 8) + Crc.Digits(|record.traceId|, 4) + Crc.Digits(|record.pairs|, 4)
    + Crc.Digits(|record.payload|, 4) + record.reserved
  }

  function RecordBytes(record: Record): Bytes {
    FixedBytes(record) + record.traceId + PairsBytes(record.pairs) + record.payload
  }

  predicate Framed(library: Library, record: Record) {
    && record.timestamp < 0x1_0000_0000_0000_0000 && |record.reserved| == 4
    && |record.traceId| < 0x1_0000_0000 && |record.pairs| < 0x1_0000_0000 && |record.payload| < 0x1_0000_0000
    && library.utf8(record.traceId) && PairsFramed(record.pairs)
  }

  /** Attribute pairs: a key id and a value digest each, the ids strictly ascending. */
  predicate PairsFramed(pairs: seq<Pair>) {
    && (forall i :: 0 <= i < |pairs| ==> pairs[i].id < 0x1_0000_0000 && |pairs[i].digest| == 16)
    && (forall i :: 0 < i < |pairs| ==> pairs[i - 1].id < pairs[i].id)
  }

  function Stream(records: seq<Record>): Bytes {
    if records == [] then [] else Stream(records[..|records| - 1]) + RecordBytes(records[|records| - 1])
  }

  /** Where each record starts in the stream. */
  function Starts(records: seq<Record>): seq<nat> {
    if records == [] then [] else Starts(records[..|records| - 1]) + [|Stream(records[..|records| - 1])|]
  }

  function KeptAll(records: seq<Record>): seq<LegacyRecord> {
    seq(|records|, i requires 0 <= i < |records| => Kept(records[i]))
  }

  // ---------------------------------------------------------------- pieces of a byte string

  /** `piece` stands in `bytes` at `at`. */
  predicate At(bytes: Bytes, at: nat, piece: Bytes) {
    at + |piece| <= |bytes| && bytes[at..at + |piece|] == piece
  }

  lemma AtJoined(bytes: Bytes, at: nat, left: Bytes, right: Bytes)
    ensures At(bytes, at, left + right) <==> At(bytes, at, left) && At(bytes, at + |left|, right)
  {
    if at + |left| + |right| <= |bytes| {
      var both := bytes[at..at + |left + right|];
      assert both[..|left|] == bytes[at..at + |left|];
      assert both[|left|..] == bytes[at + |left|..at + |left| + |right|];
      assert both == both[..|left|] + both[|left|..];
      assert (left + right)[..|left|] == left && (left + right)[|left|..] == right;
    }
  }

  lemma {:induction false} DigitsOfBytes(bytes: Bytes)
    ensures Crc.Digits(Crc.LittleEndian(bytes), |bytes|) == bytes
    ensures Crc.LittleEndian(bytes) < Crc.Shifted(1, 8 * |bytes|)
  {
    if bytes != [] {
      var rest := Crc.LittleEndian(bytes[1..]);
      DigitsOfBytes(bytes[1..]);
      Crc.ShiftedTwice(1, 8 * |bytes[1..]|, 8);
      Crc.ShiftedByByte(Crc.Shifted(1, 8 * |bytes[1..]|));
      assert Crc.LittleEndian(bytes) / 256 == rest && Crc.LittleEndian(bytes) % 256 == bytes[0];
      assert bytes == [bytes[0]] + bytes[1..];
    }
  }

  /** The integers a field of this width can hold. */
  function Bound(width: nat): nat {
    if width == 2 then 0x1_0000 else if width == 4 then 0x1_0000_0000 else 0x1_0000_0000_0000_0000
  }

  lemma BoundIsShift(width: nat)
    requires width == 2 || width == 4 || width == 8
    ensures Bound(width) == Crc.Shifted(1, 8 * width)
  {
    Crc.ShiftedTwice(1, 8, 8);
    Crc.ShiftedByByte(1);
    Crc.ShiftedByByte(256);
    Crc.ShiftedByWord(1);
    Crc.ShiftedTwice(1, 32, 32);
    Crc.ShiftedByWord(0x1_0000_0000);
  }

  lemma WordBelow(bytes: Bytes, at: nat, width: nat)
    requires width == 2 || width == 4 || width == 8
    requires at + width <= |bytes|
    ensures Word(bytes, at, width) < Bound(width)
  {
    BoundIsShift(width);
    DigitsOfBytes(bytes[at..at + width]);
  }

  /** Reading an integer field is finding its digits there. */
  lemma AtWord(bytes: Bytes, at: nat, value: nat, width: nat)
    requires width == 2 || width == 4 || width == 8
    requires value < Bound(width)
    ensures At(bytes, at, Crc.Digits(value, width)) <==> at + width <= |bytes| && Word(bytes, at, width) == value
  {
    BoundIsShift(width);
    if at + width <= |bytes| {
      DigitsOfBytes(bytes[at..at + width]);
      Crc.LittleEndianOfDigits(value, width);
    }
  }

  // ---------------------------------------------------------------- one record

  predicate RecordAt(library: Library, bytes: Bytes, at: nat, record: Record) {
    Framed(library, record) && At(bytes, at, RecordBytes(record))
  }

  lemma FrontFramed(pairs: seq<Pair>, n: nat)
    requires n <= |pairs| && PairsFramed(pairs)
    ensures PairsFramed(pairs[..n])
  {
  }

  lemma {:induction false} PairsLength(pairs: seq<Pair>)
    requires PairsFramed(pairs)
    ensures |PairsBytes(pairs)| == PAIR_LEN * |pairs|
  {
    if pairs != [] {
      PairsLength(pairs[..|pairs| - 1]);
    }
  }

  lemma PairFields(bytes: Bytes, at: nat, pair: Pair)
    requires pair.id < Bound(4) && |pair.digest| == 16
    ensures At(bytes, at, PairBytes(pair))
            <==> at + PAIR_LEN <= |bytes| && Word(bytes, at, 4) == pair.id
                 && bytes[at + 4..at + PAIR_LEN] == pair.digest
  {
    AtJoined(bytes, at, Crc.Digits(pair.id, 4), pair.digest);
    AtWord(bytes, at, pair.id, 4);
  }

  /** A run of pairs, read one at a time. */
  lemma PairsAtLast(bytes: Bytes, at: nat, pairs: seq<Pair>)
    requires pairs != [] && PairsFramed(pairs)
    ensures var n := |pairs| - 1;
            At(bytes, at, PairsBytes(pairs))
            <==> At(bytes, at, PairsBytes(pairs[..n])) && At(bytes, at + PAIR_LEN * n, PairBytes(pairs[n]))
  {
    hide At, PairBytes, PairsFramed;
    var n := |pairs| - 1;
    FrontFramed(pairs, n);
    PairsLength(pairs[..n]);
    AtJoined(bytes, at, PairsBytes(pairs[..n]), PairBytes(pairs[n]));
  }

  /** The framing of a record, field by field, is its bytes. */
  predicate FieldsAt(bytes: Bytes, at: nat, record: Record) {
    var trace, pairs := at + FIXED_LEN, at + FIXED_LEN + |record.traceId|;
    && trace <= |bytes| && Word(bytes, at, 8) == record.timestamp
    && Word(bytes, at + 8, 4) == |record.traceId| && Word(bytes, at + 12, 4) == |record.pairs|
    && Word(bytes, at + 16, 4) == |record.payload| && bytes[at + 20..at + 24] == record.reserved
    && At(bytes, trace, record.traceId) && At(bytes, pairs, PairsBytes(record.pairs))
    && At(bytes, pairs + PAIR_LEN * |record.pairs|, record.payload)
  }

  lemma RecordFields(library: Library, bytes: Bytes, at: nat, record: Record)
    requires Framed(library, record)
    ensures At(bytes, at, RecordBytes(record)) <==> FieldsAt(bytes, at, record)
    ensures |RecordBytes(record)| == FIXED_LEN + |record.traceId| + PAIR_LEN * |record.pairs| + |record.payload|
  {
    hide At, Word, FixedBytes, PairsBytes, PairsFramed;
    PairsLength(record.pairs);
    FixedFields(bytes, at, record);
    var fixed := FixedBytes(record);
    AtJoined(bytes, at, fixed + record.traceId + PairsBytes(record.pairs), record.payload);
    AtJoined(bytes, at, fixed + record.traceId, PairsBytes(record.pairs));
    AtJoined(bytes, at, fixed, record.traceId);
  }

  lemma FixedFields(bytes: Bytes, at: nat, record: Record)
    requires record.timestamp < Bound(8) && |record.traceId| < Bound(4) && |record.pairs| < Bound(4)
    requires |record.payload| < Bound(4) && |record.reserved| == 4
    ensures |FixedBytes(record)| == FIXED_LEN
    ensures At(bytes, at, FixedBytes(record))
            <==> (&& at + FIXED_LEN <= |bytes| && Word(bytes, at, 8) == record.timestamp
                  && Word(bytes, at + 8, 4) == |record.traceId| && Word(bytes, at + 12, 4) == |record.pairs|
                  && Word(bytes, at + 16, 4) == |record.payload| && bytes[at + 20..at + 24] == record.reserved)
  {
    var time, trace := Crc.Digits(record.timestamp, 8), Crc.Digits(|record.traceId|, 4);
    var pairs, payload := Crc.Digits(|record.pairs|, 4), Crc.Digits(|record.payload|, 4);
    AtJoined(bytes, at, time + trace + pairs + payload, record.reserved);
    AtJoined(bytes, at, time + trace + pairs, payload);
    AtJoined(bytes, at, time + trace, pairs);
    AtJoined(bytes, at, time, trace);
    AtWord(bytes, at, record.timestamp, 8);
    AtWord(bytes, at + 8, |record.traceId|, 4);
    AtWord(bytes, at + 12, |record.pairs|, 4);
    AtWord(bytes, at + 16, |record.payload|, 4);
  }

  lemma SamePair(bytes: Bytes, at: nat, one: Pair, other: Pair)
    requires one.id < Bound(4) && |one.digest| == 16 && other.id < Bound(4) && |other.digest| == 16
    requires At(bytes, at, PairBytes(one)) && At(bytes, at, PairBytes(other))
    ensures one == other
  {
    hide At, PairBytes;
    PairFields(bytes, at, one);
    PairFields(bytes, at, other);
  }

  lemma {:induction false} SamePairs(bytes: Bytes, at: nat, one: seq<Pair>, other: seq<Pair>)
    requires PairsFramed(one) && PairsFramed(other) && |one| == |other|
    requires At(bytes, at, PairsBytes(one)) && At(bytes, at, PairsBytes(other))
    ensures one == other
  {
    hide At, PairBytes, PairsBytes;
    if one != [] {
      PairsAtLast(bytes, at, one);
      PairsAtLast(bytes, at, other);
      var n := |one| - 1;
      SamePairs(bytes, at, one[..n], other[..n]);
      SamePair(bytes, at + PAIR_LEN * n, one[n], other[n]);
      assert one == one[..n] + [one[n]] && other == other[..n] + [other[n]];
    }
  }

  /** A run of framed pairs standing at `at`. */
  predicate PairsAt(bytes: Bytes, at: nat, count: nat, pairs: seq<Pair>) {
    |pairs| == count && PairsFramed(pairs) && At(bytes, at, PairsBytes(pairs))
  }

  lemma {:induction false} PairAt(bytes: Bytes, at: nat, pairs: seq<Pair>, k: nat)
    requires PairsFramed(pairs) && At(bytes, at, PairsBytes(pairs)) && k < |pairs|
    ensures At(bytes, at + PAIR_LEN * k, PairBytes(pairs[k]))
    decreases |pairs|
  {
    hide At, PairBytes, PairsBytes, PairsFramed;
    var n := |pairs| - 1;
    PairsAtLast(bytes, at, pairs);
    FrontFramed(pairs, n);
    if k < n {
      PairAt(bytes, at, pairs[..n], k);
    }
  }

  /** Whatever run stands there goes on with the pair that is read next. */
  lemma NextPair(bytes: Bytes, at: nat, count: nat, k: nat, pairs: seq<Pair>)
    requires k < count && PairsAt(bytes, at, count, pairs)
    ensures var from := at + PAIR_LEN * k;
            && from + PAIR_LEN <= |bytes|
            && pairs[k] == Pair(Word(bytes, from, 4), bytes[from + 4..from + PAIR_LEN])
            && (k > 0 ==> pairs[k - 1].id < pairs[k].id)
  {
    hide At, PairBytes, PairsBytes;
    PairAt(bytes, at, pairs, k);
    PairFields(bytes, at + PAIR_LEN * k, pairs[k]);
  }

  /** The pair just read, appended to the run before it. */
  lemma PairRead(bytes: Bytes, at: nat, pairs: seq<Pair>, pair: Pair)
    requires PairsAt(bytes, at, |pairs|, pairs)
    requires var from := at + PAIR_LEN * |pairs|;
             from + PAIR_LEN <= |bytes| && pair == Pair(Word(bytes, from, 4), bytes[from + 4..from + PAIR_LEN])
    requires pairs != [] ==> pairs[|pairs| - 1].id < pair.id
    ensures PairsAt(bytes, at, |pairs| + 1, pairs + [pair])
  {
    hide At, PairBytes, PairsBytes;
    var longer, from := pairs + [pair], at + PAIR_LEN * |pairs|;
    WordBelow(bytes, from, 4);
    assert longer[..|pairs|] == pairs;
    PairFields(bytes, from, pair);
    PairsAtLast(bytes, at, longer);
  }

  /** Every run of framed pairs that could stand there starts with these. */
  ghost predicate OnlyPairs(bytes: Bytes, at: nat, count: nat, pairs: seq<Pair>) {
    forall other: seq<Pair> :: PairsAt(bytes, at, count, other) ==> pairs <= other
  }

  /** Walks the attribute pairs of a record: they are all there, and their ids ascend. */
  method DecodePairs(bytes: Bytes, at: nat, count: nat) returns (r: Result<nat, Refusal>, ghost pairs: seq<Pair>)
    requires at <= |bytes|
    ensures r.Ok? ==> r.value == at + PAIR_LEN * count && PairsAt(bytes, at, count, pairs)
    ensures r.Err? ==> forall other: seq<Pair> :: !PairsAt(bytes, at, count, other)
  {
    pairs := [];
    assert PairsAt(bytes, at, 0, pairs);
    hide At, PairBytes;
    var cursor := at;
    var previous: Option<nat> := None;
    for k := 0 to count
      invariant cursor == at + PAIR_LEN * k && cursor <= |bytes|
      invariant PairsAt(bytes, at, k, pairs) && OnlyPairs(bytes, at, count, pairs)
      invariant previous == (if k == 0 then None else Some(pairs[k - 1].id))
    {
      hide PairsBytes, PairsFramed;
      forall other: seq<Pair> | PairsAt(bytes, at, count, other)
        ensures cursor + PAIR_LEN <= |bytes|
        ensures other[k] == Pair(Word(bytes, cursor, 4), bytes[cursor + 4..cursor + PAIR_LEN])
        ensures k > 0 ==> pairs[k - 1].id < other[k].id
      {
        NextPair(bytes, at, count, k, other);
      }
      if cursor + PAIR_LEN > |bytes| {
        r := Err(TruncatedField);
        return;
      }
      var pair := Pair(Word(bytes, cursor, 4), bytes[cursor + 4..cursor + PAIR_LEN]);
      if previous.Some? && previous.value >= pair.id {
        r := Err(UnorderedPairs);
        return;
      }
      PairRead(bytes, at, pairs, pair);
      previous := Some(pair.id);
      pairs := pairs + [pair];
      cursor := cursor + PAIR_LEN;
    }
    r := Ok(cursor);
  }

  lemma AtSlice(bytes: Bytes, at: nat, length: nat, piece: Bytes)
    requires |piece| == length
    ensures At(bytes, at, piece) <==> at + length <= |bytes| && piece == bytes[at..at + length]
  {
  }

  /** What any record standing at `at` makes the reads of the decoder return. */
  predicate Readable(library: Library, bytes: Bytes, at: nat, pairs: seq<Pair>) {
    at + FIXED_LEN <= |bytes|
    && var pairsAt := at + FIXED_LEN + Word(bytes, at + 8, 4);
    && pairsAt <= |bytes| && library.utf8(bytes[at + FIXED_LEN..pairsAt])
    && PairsAt(bytes, pairsAt, Word(bytes, at + 12, 4), pairs)
    && pairsAt + PAIR_LEN * |pairs| + Word(bytes, at + 16, 4) <= |bytes|
  }

  /** The record the decoder's reads make, when they all succeed. */
  function RecordOf(bytes: Bytes, at: nat, pairs: seq<Pair>): Record
    requires at + FIXED_LEN <= |bytes| && at + FIXED_LEN + Word(bytes, at + 8, 4) <= |bytes|
    requires at + FIXED_LEN + Word(bytes, at + 8, 4) + PAIR_LEN * |pairs| + Word(bytes, at + 16, 4) <= |bytes|
  {
    var pairsAt := at + FIXED_LEN + Word(bytes, at + 8, 4);
    var payloadAt := pairsAt + PAIR_LEN * |pairs|;
    Record(Word(bytes, at, 8), bytes[at + FIXED_LEN..pairsAt], pairs, bytes[at + 20..at + 24],
           bytes[payloadAt..payloadAt + Word(bytes, at + 16, 4)])
  }

  lemma RecordReads(library: Library, bytes: Bytes, at: nat, record: Record)
    requires RecordAt(library, bytes, at, record)
    ensures Readable(library, bytes, at, record.pairs) && record == RecordOf(bytes, at, record.pairs)
  {
    hide At, PairsBytes, FixedBytes, RecordBytes, PairsFramed;
    RecordFields(library, bytes, at, record);
    AtSlice(bytes, at + FIXED_LEN, |record.traceId|, record.traceId);
    AtSlice(bytes, at + FIXED_LEN + |record.traceId| + PAIR_LEN * |record.pairs|, |record.payload|, record.payload);
  }

  /** No two records can be read from the same place. */
  lemma SameRecord(library: Library, bytes: Bytes, at: nat, one: Record, other: Record)
    requires RecordAt(library, bytes, at, one) && RecordAt(library, bytes, at, other)
    ensures one == other
  {
    hide At, PairsBytes, RecordBytes, PairsFramed, Word;
    RecordReads(library, bytes, at, one);
    RecordReads(library, bytes, at, other);
    SamePairs(bytes, at + FIXED_LEN + Word(bytes, at + 8, 4), one.pairs, other.pairs);
  }

  lemma RecordRead(library: Library, bytes: Bytes, at: nat, pairs: seq<Pair>)
    requires Readable(library, bytes, at, pairs)
    ensures RecordAt(library, bytes, at, RecordOf(bytes, at, pairs))
    ensures |RecordBytes(RecordOf(bytes, at, pairs))|
            == FIXED_LEN + Word(bytes, at + 8, 4) + PAIR_LEN * |pairs| + Word(bytes, at + 16, 4)
  {
    hide At, PairsBytes, FixedBytes, RecordBytes, PairsFramed, Word;
    var record := RecordOf(bytes, at, pairs);
    WordBelow(bytes, at, 8);
    WordBelow(bytes, at + 8, 4);
    WordBelow(bytes, at + 12, 4);
    WordBelow(bytes, at + 16, 4);
    RecordFields(library, bytes, at, record);
    AtSlice(bytes, at + FIXED_LEN, |record.traceId|, record.traceId);
    AtSlice(bytes, at + FIXED_LEN + |record.traceId| + PAIR_LEN * |record.pairs|, |record.payload|, record.payload);
  }

  /** The record framed at `start`, and where the next one has to begin. */
  method DecodeRecord(library: Library, bytes: Bytes, start: nat)
    returns (r: Result<(LegacyRecord, nat), Refusal>, ghost record: Record)
    ensures r.Ok? ==> RecordAt(library, bytes, start, record)
                      && r.value == (Kept(record), start + |RecordBytes(record)|)
    ensures r.Err? ==> forall other: Record :: !RecordAt(library, bytes, start, other)
  {
    hide At, PairsBytes, RecordAt, RecordBytes, PairsAt, Word;
    record := Record(0, [], [], [], []);
    forall other: Record | RecordAt(library, bytes, start, other)
      ensures Readable(library, bytes, start, other.pairs)
    {
      RecordReads(library, bytes, start, other);
    }
    if start + FIXED_LEN > |bytes| {
      return Err(TruncatedHeader), record;
    }
    var timestamp := Word(bytes, start, 8);
    var traceLen, attributeCount, payloadLen :=
      Word(bytes, start + 8, 4), Word(bytes, start + 12, 4), Word(bytes, start + 16, 4);
    var trace := start + FIXED_LEN;
    if trace + traceLen > |bytes| {
      return Err(TruncatedField), record;
    }
    var traceId := bytes[trace..trace + traceLen];
    if !library.utf8(traceId) {
      return Err(NotUtf8), record;
    }
    ghost var pairs: seq<Pair>;
    var walked;
    walked, pairs := DecodePairs(bytes, trace + traceLen, attributeCount);
    if walked.Err? {
      return Err(walked.error), record;
    }
    PairsCounted(bytes, trace + traceLen, attributeCount, pairs);
    var payloadAt := walked.value;
    if payloadAt + payloadLen > |bytes| {
      forall other: Record | RecordAt(library, bytes, start, other)
        ensures false
      {
        PairsCounted(bytes, trace + traceLen, attributeCount, other.pairs);
      }
      return Err(TruncatedField), record;
    }
    var payload := bytes[payloadAt..payloadAt + payloadLen];
    RecordRead(library, bytes, start, pairs);
    record := RecordOf(bytes, start, pairs);
    r := Ok((LegacyRecord(timestamp, traceId, payload), payloadAt + payloadLen));
  }

  lemma PairsCounted(bytes: Bytes, at: nat, count: nat, pairs: seq<Pair>)
    requires PairsAt(bytes, at, count, pairs)
    ensures |pairs| == count
  {
  }

  // ---------------------------------------------------------------- the stream

  predicate AllFramed(library: Library, records: seq<Record>) {
    forall i :: 0 <= i < |records| ==> Framed(library, records[i])
  }

  lemma {:induction false} StreamElement(records: seq<Record>, k: nat)
    requires k < |records|
    ensures At(Stream(records), |Stream(records[..k])|, RecordBytes(records[k]))
    ensures |Starts(records)| == |records| && Starts(records)[k] == |Stream(records[..k])|
    ensures |Stream(records[..k])| + |RecordBytes(records[k])| <= |Stream(records)|
    decreases |records|
  {
    hide RecordBytes;
    var n := |records| - 1;
    StartsCounted(records[..n]);
    if k < n {
      assert records[..n][..k] == records[..k];
      StreamElement(records[..n], k);
      assert Stream(records)[..|Stream(records[..n])|] == Stream(records[..n]);
      AtLonger(Stream(records[..n]), RecordBytes(records[n]), |Stream(records[..k])|, RecordBytes(records[k]));
    }
  }

  lemma AtLonger(front: Bytes, back: Bytes, at: nat, piece: Bytes)
    requires At(front, at, piece)
    ensures At(front + back, at, piece)
  {
    assert (front + back)[at..at + |piece|] == front[at..at + |piece|];
  }

  lemma {:induction false} StartsCounted(records: seq<Record>)
    ensures |Starts(records)| == |records|
  {
    if records != [] {
      StartsCounted(records[..|records| - 1]);
    }
  }

  /** The same bytes cannot be the streams of two record lists, even of one that is only a beginning of the other. */
  lemma {:induction false} SameStream(library: Library, bytes: Bytes, one: seq<Record>, other: seq<Record>, k: nat)
    requires AllFramed(library, one) && AllFramed(library, other)
    requires Stream(one) == bytes && Stream(other) == bytes
    requires k <= |one| && k <= |other| && one[..k] == other[..k]
    ensures one == other
    decreases |one| - k
  {
    hide At, RecordBytes, Stream, Framed;
    assert k == |one| ==> one[..k] == one;
    assert k == |other| ==> other[..k] == other;
    if k < |one| && k < |other| {
      StreamElement(one, k);
      StreamElement(other, k);
      SameRecord(library, bytes, |Stream(one[..k])|, one[k], other[k]);
      assert one[..k + 1] == one[..k] + [one[k]] && other[..k + 1] == other[..k] + [other[k]];
      SameStream(library, bytes, one, other, k + 1);
    } else if k < |one| {
      Nonempty(library, one, k);
    } else if k < |other| {
      Nonempty(library, other, k);
    }
  }

  lemma Nonempty(library: Library, records: seq<Record>, k: nat)
    requires k < |records| && AllFramed(library, records)
    ensures |Stream(records[..k])| < |Stream(records)|
  {
    hide RecordBytes, Stream;
    StreamElement(records, k);
    RecordFields(library, [], 0, records[k]);
  }

  /** One record list at most fits the stream: the walk cannot have read it any other way. */
  lemma RecordListUnique(library: Library, one: seq<Record>, other: seq<Record>)
    requires AllFramed(library, one) && AllFramed(library, other) && Stream(one) == Stream(other)
    ensures one == other
  {
    SameStream(library, Stream(one), one, other, 0);
  }

  // ---------------------------------------------------------------- the header

  datatype Header = Header(codec: nat, recordCount: nat, recordsOffset: nat, recordsLen: nat, offsetsOffset: nat,
                           offsetsLen: nat, directoryOffset: nat, directoryLen: nat, logicalLen: nat)

  datatype Section = Section(offset: nat, length: int)

  function HeaderOf(bytes: Bytes): Header
    requires |bytes| >= HEADER_LEN
  {
    Header(Word(bytes, 12, 4), Word(bytes, 16, 8), Word(bytes, 24, 8), Word(bytes, 32, 8), Word(bytes, 40, 8),
           Word(bytes, 48, 8), Word(bytes, 104, 8), Word(bytes, 112, 8), Word(bytes, 120, 8))
  }

  /** Records, block directory, record offsets, trace index, attribute index, content index. */
  function SectionsOf(bytes: Bytes): seq<Section>
    requires |bytes| >= HEADER_LEN
  {
    var header := HeaderOf(bytes);
    var attributes, content := Word(bytes, 72, 8), Word(bytes, 96, 8);
    [Section(header.recordsOffset, header.recordsLen), Section(header.directoryOffset, header.directoryLen),
     Section(header.offsetsOffset, header.offsetsLen), Section(Word(bytes, 56, 8), Word(bytes, 64, 8)),
     Section(attributes, content - attributes), Section(content, |bytes| - content)]
  }

  /** The sections lie end to end from `from` to `to`. */
  predicate Tile(sections: seq<Section>, from: nat, to: nat) {
    if sections == [] then from == to
    else
      && sections[0].offset == from && sections[0].length >= 0 && from + sections[0].length <= to
      && Tile(sections[1..], from + sections[0].length, to)
  }

  /** Integers of eight bytes each, one after the other. */
  function Words(values: seq<nat>): Bytes {
    if values == [] then [] else Crc.Digits(values[0], 8) + Words(values[1..])
  }

  predicate WordsAt(bytes: Bytes, at: nat, values: seq<nat>) {
    at + 8 * |values| <= |bytes| && forall i :: 0 <= i < |values| ==> values[i] == Word(bytes, at + 8 * i, 8)
  }

  lemma {:induction false} WordsStand(bytes: Bytes, at: nat, values: seq<nat>)
    requires WordsAt(bytes, at, values)
    ensures bytes[at..at + 8 * |values|] == Words(values)
    decreases |values|
  {
    if values != [] {
      hide WordsAt, Word, Crc.Digits;
      LaterWords(bytes, at, values);
      WordsStand(bytes, at + 8, values[1..]);
      OneWordMore(bytes, at, |values|);
    }
  }

  lemma LaterWords(bytes: Bytes, at: nat, values: seq<nat>)
    requires WordsAt(bytes, at, values) && values != []
    ensures at + 8 <= |bytes| && bytes[at..at + 8] == Crc.Digits(values[0], 8) && WordsAt(bytes, at + 8, values[1..])
  {
    hide Word, Crc.Digits;
    assert values[0] == Word(bytes, at + 8 * 0, 8);
    WordStands(bytes, at, 8);
    forall i | 0 <= i < |values[1..]|
      ensures values[1..][i] == Word(bytes, at + 8 + 8 * i, 8)
    {
      assert values[i + 1] == Word(bytes, at + 8 * (i + 1), 8);
    }
  }

  lemma OneWordMore(bytes: Bytes, at: nat, n: nat)
    requires 0 < n && at + 8 * n <= |bytes|
    ensures bytes[at..at + 8 * n] == bytes[at..at + 8] + bytes[at + 8..at + 8 + 8 * (n - 1)]
  {
    var end := at + 8 * n;
    assert bytes[at..end] == bytes[at..at + 8] + bytes[at + 8..end];
  }

  lemma WordStands(bytes: Bytes, at: nat, width: nat)
    requires at + width <= |bytes|
    ensures bytes[at..at + width] == Crc.Digits(Word(bytes, at, width), width)
  {
    DigitsOfBytes(bytes[at..at + width]);
  }

  /** The 128 bytes a fitting file begins with, piece by piece: the name, the version, the header's own length, the
      codec, the record count, where every section lies and the logical length. Two words in the middle, the time
      bounds, are not read. */
  lemma HeaderLaidOut(bytes: Bytes)
    requires HeaderFits(bytes)
    ensures var header, sections, text := HeaderOf(bytes), SectionsOf(bytes), "TRAZASEG";
            && (forall i :: 0 <= i < 8 ==> bytes[i] == text[i] as int)
            && bytes[8..16] == Crc.Digits(7, 2) + Crc.Digits(128, 2) + Crc.Digits(header.codec, 4)
            && bytes[16..80] == Words([header.recordCount, sections[0].offset, sections[0].length,
                                       sections[2].offset, sections[2].length, sections[3].offset,
                                       sections[3].length, sections[4].offset])
            && bytes[96..128] == Words([sections[5].offset, sections[1].offset, sections[1].length, header.logicalLen])
            && sections[5].offset + sections[5].length == |bytes|
            && sections[4].offset + sections[4].length == sections[5].offset
  {
    assert bytes[..8] == MAGIC;
    assert forall i :: 0 <= i < 8 ==> bytes[i] == bytes[..8][i];
    var header, sections := HeaderOf(bytes), SectionsOf(bytes);
    WordStands(bytes, 8, 2);
    WordStands(bytes, 10, 2);
    WordStands(bytes, 12, 4);
    assert bytes[8..16] == bytes[8..10] + bytes[10..12] + bytes[12..16];
    hide HeaderFits, Words, Word, Crc.Digits;
    WordsStand(bytes, 16, [header.recordCount, sections[0].offset, sections[0].length, sections[2].offset,
                           sections[2].length, sections[3].offset, sections[3].length, sections[4].offset]);
    WordsStand(bytes, 96, [sections[5].offset, sections[1].offset, sections[1].length, header.logicalLen]);
  }

  predicate HeaderFits(bytes: Bytes) {
    |bytes| >= HEADER_LEN
    && var header := HeaderOf(bytes);
    && bytes[..8] == MAGIC && Word(bytes, 8, 2) == VERSION && Word(bytes, 10, 2) == HEADER_LEN && header.codec <= 1
    && Tile(SectionsOf(bytes), HEADER_LEN, |bytes|)
    && header.offsetsLen == 8 * header.recordCount && header.directoryLen % ENTRY_LEN == 0
    && (header.recordsLen == 0 <==> header.recordCount == 0) && (header.logicalLen == 0 <==> header.recordCount == 0)
    && (header.directoryLen == 0 <==> header.recordCount == 0)
  }

  method CheckSections(sections: seq<Section>, total: U64) returns (r: Result<(), Refusal>)
    requires forall i :: 0 <= i < |sections| ==> sections[i].length >= 0
    ensures r.Ok? <==> Tile(sections, HEADER_LEN, total)
  {
    var expected: nat := HEADER_LEN;
    for i := 0 to |sections|
      invariant Tile(sections, HEADER_LEN, total) <==> Tile(sections[i..], expected, total)
    {
      if sections[i].offset != expected {
        return Err(NotContiguous);
      }
      if expected + sections[i].length > U64_MAX {
        return Err(SectionBeyondFile);
      }
      expected := expected + sections[i].length;
      if expected > total {
        return Err(SectionBeyondFile);
      }
    }
    r := if expected != total then Err(TrailingBytes) else Ok(());
  }

  /** What the tiling says of the three sections the decoder reads. */
  lemma SectionsInside(bytes: Bytes)
    requires HeaderFits(bytes)
    ensures var header := HeaderOf(bytes);
            && header.recordsOffset == HEADER_LEN && header.directoryOffset == HEADER_LEN + header.recordsLen
            && header.offsetsOffset == header.directoryOffset + header.directoryLen
            && header.offsetsOffset + header.offsetsLen <= |bytes|
            && header.offsetsLen == 8 * header.recordCount
            && (header.directoryLen / ENTRY_LEN == 0 <==> header.logicalLen == 0)
  {
    hide Word;
    var sections := SectionsOf(bytes);
    assert Tile(sections[1..], HEADER_LEN + sections[0].length, |bytes|);
    assert Tile(sections[1..][1..], HEADER_LEN + sections[0].length + sections[1].length, |bytes|);
  }

  lemma {:induction false} TileEach(sections: seq<Section>, from: nat, to: nat, k: nat)
    requires Tile(sections, from, to) && k < |sections|
    ensures sections[k].length >= 0
  {
    if k > 0 {
      TileEach(sections[1..], from + sections[0].length, to, k - 1);
    }
  }

  lemma IndexesApart(bytes: Bytes)
    requires |bytes| >= HEADER_LEN && Tile(SectionsOf(bytes), HEADER_LEN, |bytes|)
    ensures Word(bytes, 72, 8) <= Word(bytes, 96, 8) <= |bytes|
  {
    hide Word, Tile;
    TileEach(SectionsOf(bytes), HEADER_LEN, |bytes|, 4);
    TileEach(SectionsOf(bytes), HEADER_LEN, |bytes|, 5);
  }

  method ParseHeader(bytes: Bytes) returns (r: Result<Header, Refusal>)
    requires |bytes| <= U64_MAX
    ensures r.Ok? <==> HeaderFits(bytes)
    ensures r.Ok? ==> r.value == HeaderOf(bytes)
  {
    hide Word, Tile;
    if |bytes| < HEADER_LEN {
      return Err(TooShort);
    }
    if bytes[..8] != MAGIC {
      return Err(BadMagic);
    }
    if Word(bytes, 8, 2) != VERSION {
      return Err(WrongVersion);
    }
    if Word(bytes, 10, 2) != HEADER_LEN {
      return Err(WrongHeaderLength);
    }
    var codec := Word(bytes, 12, 4);
    if codec > 1 {
      return Err(UnknownCodec);
    }
    var attributes, content := Word(bytes, 72, 8), Word(bytes, 96, 8);
    var header := Header(codec, Word(bytes, 16, 8), Word(bytes, 24, 8), Word(bytes, 32, 8), Word(bytes, 40, 8),
                         Word(bytes, 48, 8), Word(bytes, 104, 8), Word(bytes, 112, 8), Word(bytes, 120, 8));
    if content < attributes || |bytes| < content {
      assert !Tile(SectionsOf(bytes), HEADER_LEN, |bytes|) by {
        if Tile(SectionsOf(bytes), HEADER_LEN, |bytes|) {
          IndexesApart(bytes);
        }
      }
      return Err(OffsetBeyondFile);
    }
    var sections := [Section(header.recordsOffset, header.recordsLen),
                     Section(header.directoryOffset, header.directoryLen),
                     Section(header.offsetsOffset, header.offsetsLen), Section(Word(bytes, 56, 8), Word(bytes, 64, 8)),
                     Section(attributes, content - attributes), Section(content, |bytes| - content)];
    var _ :- CheckSections(sections, |bytes|);
    if header.offsetsLen != 8 * header.recordCount {
      return Err(BadOffsetLength);
    }
    if header.directoryLen % ENTRY_LEN != 0 {
      return Err(PartialEntry);
    }
    var empty := header.recordCount == 0;
    if (header.recordsLen == 0) != empty || (header.logicalLen == 0) != empty || (header.directoryLen == 0) != empty {
      return Err(RegionsDisagree);
    }
    r := Ok(header);
  }

  // ---------------------------------------------------------------- the offset index

  function OffsetsOf(bytes: Bytes, header: Header): (r: seq<nat>)
    requires header.offsetsLen == 8 * header.recordCount && header.offsetsOffset + header.offsetsLen <= |bytes|
    ensures |r| == header.recordCount
  {
    seq(header.recordCount, i requires 0 <= i < header.recordCount => Word(bytes, header.offsetsOffset + 8 * i, 8))
  }

  predicate OffsetsFit(offsets: seq<nat>, logicalLen: nat) {
    && (forall i :: 0 <= i < |offsets| ==> offsets[i] < logicalLen)
    && (forall i :: 0 < i < |offsets| ==> offsets[i - 1] < offsets[i])
    && (offsets == [] ==> logicalLen == 0)
  }

  method DecodeOffsets(bytes: Bytes, header: Header) returns (r: Result<seq<nat>, Refusal>)
    requires header.offsetsLen == 8 * header.recordCount && header.offsetsOffset + header.offsetsLen <= |bytes|
    ensures r.Ok? <==> OffsetsFit(OffsetsOf(bytes, header), header.logicalLen)
    ensures r.Ok? ==> r.value == OffsetsOf(bytes, header)
  {
    hide Word;
    var offsets: seq<nat> := [];
    var previous: Option<nat> := None;
    ghost var all := OffsetsOf(bytes, header);
    for i := 0 to header.recordCount
      invariant offsets == all[..i] && previous == (if i == 0 then None else Some(all[i - 1]))
      invariant forall k :: 0 <= k < i ==> all[k] < header.logicalLen
      invariant forall k :: 0 < k < i ==> all[k - 1] < all[k]
    {
      var offset := Word(bytes, header.offsetsOffset + 8 * i, 8);
      assert offset == all[i];
      if offset >= header.logicalLen || (previous.Some? && offset <= previous.value) {
        return Err(BadOffsets);
      }
      previous := Some(offset);
      offsets := offsets + [offset];
    }
    assert all[..header.recordCount] == all;
    if offsets == [] && header.logicalLen != 0 {
      return Err(NoOffsets);
    }
    r := Ok(offsets);
  }

  // ---------------------------------------------------------------- the block directory

  datatype Entry = Entry(logicalStart: nat, storedOffset: nat, storedLen: nat, raw: bool, crc: nat, minTimestamp: nat)

  function EntryAt(bytes: Bytes, base: nat): Entry
    requires base + ENTRY_LEN <= |bytes|
  {
    var word := Word(bytes, base + 16, 4);
    Entry(Word(bytes, base, 8), Word(bytes, base + 8, 8), word % RAW_FLAG, word >= RAW_FLAG, Word(bytes, base + 20, 4),
          Word(bytes, base + 24, 8))
  }

  /** The 32 bytes of an entry, piece by piece; the top bit of the stored length says that a block is stored raw. */
  lemma EntryLaidOut(bytes: Bytes, base: nat)
    requires base + 32 <= |bytes|
    ensures var entry := EntryAt(bytes, base);
            && entry.storedLen < 0x8000_0000
            && bytes[base..base + 32]
               == Words([entry.logicalStart, entry.storedOffset])
                  + Crc.Digits(entry.storedLen + if entry.raw then 0x8000_0000 else 0, 4) + Crc.Digits(entry.crc, 4)
                  + Words([entry.minTimestamp])
  {
    hide Words, Word, Crc.Digits;
    LengthLaidOut(bytes, base);
    WordStands(bytes, base + 20, 4);
    AroundTheLengths(bytes, base);
    hide *;
    FourPieces(bytes, base);
  }

  /** The stored length with its flag is the word it was read from. */
  lemma LengthLaidOut(bytes: Bytes, base: nat)
    requires base + 32 <= |bytes|
    ensures var entry := EntryAt(bytes, base);
            && entry.storedLen < 0x8000_0000
            && bytes[base + 16..base + 20] == Crc.Digits(entry.storedLen + if entry.raw then 0x8000_0000 else 0, 4)
  {
    hide Word, Crc.Digits;
    WordBelow(bytes, base + 16, 4);
    WordStands(bytes, base + 16, 4);
    FlagOnTop(Word(bytes, base + 16, 4));
  }

  lemma FlagOnTop(word: nat)
    requires word < 0x1_0000_0000
    ensures word % RAW_FLAG < 0x8000_0000
    ensures word == word % RAW_FLAG + if word >= RAW_FLAG then 0x8000_0000 else 0
  {
    if word >= RAW_FLAG {
      QuotientIs(word, 1, RAW_FLAG);
    }
  }

  lemma FourPieces(bytes: Bytes, base: nat)
    requires base + 32 <= |bytes|
    ensures bytes[base..base + 32]
            == bytes[base..base + 16] + bytes[base + 16..base + 20] + bytes[base + 20..base + 24]
               + bytes[base + 24..base + 32]
  {
  }

  lemma AroundTheLengths(bytes: Bytes, base: nat)
    requires base + 32 <= |bytes|
    ensures bytes[base..base + 16] == Words([Word(bytes, base, 8), Word(bytes, base + 8, 8)])
    ensures bytes[base + 24..base + 32] == Words([Word(bytes, base + 24, 8)])
  {
    hide Words, Word;
    WordsStand(bytes, base, [Word(bytes, base, 8), Word(bytes, base + 8, 8)]);
    WordsStand(bytes, base + 24, [Word(bytes, base + 24, 8)]);
  }

  function DirectoryOf(bytes: Bytes, header: Header): (r: seq<Entry>)
    requires header.directoryOffset + header.directoryLen <= |bytes|
    ensures |r| == header.directoryLen / ENTRY_LEN
  {
    seq(header.directoryLen / ENTRY_LEN,
        i requires 0 <= i < header.directoryLen / ENTRY_LEN => EntryAt(bytes, header.directoryOffset + ENTRY_LEN * i))
  }

  /** The stored bytes of the first blocks together. */
  function StoredBefore(entries: seq<Entry>): nat {
    if entries == [] then 0 else StoredBefore(entries[..|entries| - 1]) + entries[|entries| - 1].storedLen
  }

  /** Where a block ends in the logical region: where the next starts. */
  function LogicalEnd(entries: seq<Entry>, i: nat, logicalLen: nat): nat
    requires i < |entries|
  {
    if i + 1 < |entries| then entries[i + 1].logicalStart else logicalLen
  }

  /** A block follows the one before it: no gap in the stored region, and the logical region and times move forward. */
  predicate EntryFollows(entries: seq<Entry>, i: nat, logicalLen: nat)
    requires i < |entries|
  {
    var entry := entries[i];
    && entry.storedLen > 0 && entry.logicalStart < logicalLen && entry.storedOffset == StoredBefore(entries[..i])
    && if i == 0 then entry.logicalStart == 0
       else entries[i - 1].logicalStart < entry.logicalStart && entries[i - 1].minTimestamp <= entry.minTimestamp
  }

  predicate ExtentFits(entries: seq<Entry>, i: nat, logicalLen: nat)
    requires i < |entries|
  {
    var entry := entries[i];
    var extent := LogicalEnd(entries, i, logicalLen) - entry.logicalStart;
    extent < RAW_FLAG && if entry.raw then entry.storedLen == extent else extent <= entry.storedLen * 256 + 64
  }

  predicate EntriesFollow(entries: seq<Entry>, logicalLen: nat) {
    forall i :: 0 <= i < |entries| ==> EntryFollows(entries, i, logicalLen)
  }

  predicate DirectoryFits(entries: seq<Entry>, header: Header) {
    && EntriesFollow(entries, header.logicalLen) && StoredBefore(entries) == header.recordsLen
    && forall i :: 0 <= i < |entries| ==> ExtentFits(entries, i, header.logicalLen)
  }

  /** Reads the directory, checking each entry against the one before it. */
  method ReadEntries(bytes: Bytes, header: Header) returns (r: Result<seq<Entry>, Refusal>)
    requires header.directoryOffset + header.directoryLen <= |bytes| && header.recordsLen <= U64_MAX
    ensures var all := DirectoryOf(bytes, header);
            r.Ok? <==> EntriesFollow(all, header.logicalLen) && StoredBefore(all) == header.recordsLen
    ensures r.Ok? ==> r.value == DirectoryOf(bytes, header)
  {
    hide EntryAt, EntryFollows;
    ghost var all := DirectoryOf(bytes, header);
    var entries: seq<Entry> := [];
    var storedTotal: nat := 0;
    var count := header.directoryLen / ENTRY_LEN;
    for i := 0 to count
      invariant entries == all[..i] && storedTotal == StoredBefore(all[..i])
      invariant forall k :: 0 <= k < i ==> EntryFollows(all, k, header.logicalLen)
    {
      var entry := EntryAt(bytes, header.directoryOffset + ENTRY_LEN * i);
      assert entry == all[i];
      var checked :=
        CheckEntry(all, i, header.logicalLen, entry, if i == 0 then None else Some(entries[i - 1]), storedTotal);
      if checked.Err? {
        return Err(checked.error);
      }
      StoredMore(all, i);
      if storedTotal + entry.storedLen > U64_MAX {
        return Err(StoredUnaccounted);
      }
      storedTotal := storedTotal + entry.storedLen;
      entries := entries + [entry];
    }
    assert all[..count] == all;
    if storedTotal != header.recordsLen {
      return Err(StoredUnaccounted);
    }
    r := Ok(entries);
  }

  method CheckEntry(ghost all: seq<Entry>, ghost i: nat, logicalLen: nat, entry: Entry, previous: Option<Entry>,
                    storedTotal: nat)
    returns (r: Result<(), Refusal>)
    requires i < |all| && entry == all[i] && storedTotal == StoredBefore(all[..i])
    requires previous == if i == 0 then None else Some(all[i - 1])
    ensures r.Ok? <==> EntryFollows(all, i, logicalLen)
  {
    if entry.storedLen == 0 {
      return Err(EmptyBlock);
    }
    if entry.logicalStart >= logicalLen {
      return Err(BlockBeyondRegion);
    }
    if entry.storedOffset != storedTotal {
      return Err(StoredGap);
    }
    if previous.Some? {
      if entry.logicalStart <= previous.value.logicalStart {
        return Err(UnorderedBlocks);
      }
      if entry.minTimestamp < previous.value.minTimestamp {
        return Err(UnorderedTimes);
      }
    } else if entry.logicalStart != 0 {
      return Err(FirstBlockNotZero);
    }
    r := Ok(());
  }

  method DecodeDirectory(bytes: Bytes, header: Header) returns (r: Result<seq<Entry>, Refusal>)
    requires header.directoryOffset + header.directoryLen <= |bytes| && header.recordsLen <= U64_MAX
    ensures r.Ok? <==> DirectoryFits(DirectoryOf(bytes, header), header)
    ensures r.Ok? ==> r.value == DirectoryOf(bytes, header)
  {
    hide EntryAt, StoredBefore, EntriesFollow;
    var entries :- ReadEntries(bytes, header);
    for i := 0 to |entries|
      invariant forall k :: 0 <= k < i ==> ExtentFits(entries, k, header.logicalLen)
    {
      var entry := entries[i];
      var extent := LogicalEnd(entries, i, header.logicalLen) - entry.logicalStart;
      assert DirectoryFits(entries, header) ==> ExtentFits(entries, i, header.logicalLen);
      if extent >= RAW_FLAG {
        return Err(ExtentTooLarge);
      }
      if entry.raw && entry.storedLen != extent {
        return Err(RawLengthMismatch);
      }
      if !entry.raw && extent > entry.storedLen * 256 + 64 {
        return Err(ExtentTooLarge);
      }
    }
    r := Ok(entries);
  }

  lemma {:induction false} StoredMore(entries: seq<Entry>, i: nat)
    requires i < |entries|
    ensures StoredBefore(entries[..i + 1]) == StoredBefore(entries[..i]) + entries[i].storedLen <= StoredBefore(entries)
    decreases |entries| - i
  {
    assert entries[..i + 1][..i] == entries[..i];
    if i + 1 < |entries| {
      StoredMore(entries, i + 1);
    } else {
      assert entries[..i + 1] == entries;
    }
  }

  // ---------------------------------------------------------------- the blocks

  /** The bytes a block stands for: its stored bytes, or what they inflate to. */
  function Inflated(library: Library, bytes: Bytes, header: Header, entry: Entry, extent: nat): Option<Bytes>
    requires header.recordsOffset + entry.storedOffset + entry.storedLen <= |bytes|
  {
    var start := header.recordsOffset + entry.storedOffset;
    var stored := bytes[start..start + entry.storedLen];
    if entry.raw || header.codec == 0 then Some(stored) else library.inflate(stored, extent)
  }

  /** One block is intact: its checksum holds and it inflates to its extent, beginning with its fence. */
  predicate BlockFits(library: Library, bytes: Bytes, header: Header, entries: seq<Entry>, i: nat, block: Bytes)
    requires i < |entries|
  {
    var entry := entries[i];
    var start := header.recordsOffset + entry.storedOffset;
    && start + entry.storedLen <= |bytes| && Crc.Checksum(bytes[start..start + entry.storedLen]) == entry.crc
    && entry.logicalStart + |block| == LogicalEnd(entries, i, header.logicalLen)
    && Inflated(library, bytes, header, entry, |block|) == Some(block)
    && (|block| >= 8 ==> Word(block, 0, 8) == entry.minTimestamp)
  }

  function Joined(blocks: seq<Bytes>): Bytes {
    if blocks == [] then [] else Joined(blocks[..|blocks| - 1]) + blocks[|blocks| - 1]
  }

  predicate BlocksFit(library: Library, bytes: Bytes, header: Header, entries: seq<Entry>, blocks: seq<Bytes>) {
    |blocks| == |entries| && forall i :: 0 <= i < |blocks| ==> BlockFits(library, bytes, header, entries, i, blocks[i])
  }

  /** Checks one block's checksum before inflating it, and its length and fence after. */
  method InflateBlock(library: Library, bytes: Bytes, header: Header, entries: seq<Entry>, i: nat)
    returns (r: Result<Bytes, Refusal>)
    requires i < |entries| && entries[i].logicalStart <= LogicalEnd(entries, i, header.logicalLen)
    requires header.recordsOffset + entries[i].storedOffset + entries[i].storedLen <= |bytes|
    ensures r.Ok? ==> BlockFits(library, bytes, header, entries, i, r.value)
    ensures r.Err? ==> forall block: Bytes :: !BlockFits(library, bytes, header, entries, i, block)
  {
    hide Word, Crc.Checksum;
    var entry := entries[i];
    var start := header.recordsOffset + entry.storedOffset;
    var stored := bytes[start..start + entry.storedLen];
    var checksum := Crc.SlicedCrc32(stored);
    if checksum != entry.crc {
      return Err(CrcMismatch);
    }
    var extent := LogicalEnd(entries, i, header.logicalLen) - entry.logicalStart;
    var inflated := if entry.raw || header.codec == 0 then Some(stored) else library.inflate(stored, extent);
    if inflated.None? {
      return Err(NotInflatable);
    }
    if |inflated.value| != extent {
      return Err(WrongBlockLength);
    }
    if extent >= 8 && Word(inflated.value, 0, 8) != entry.minTimestamp {
      return Err(FenceMismatch);
    }
    r := Ok(inflated.value);
  }

  /** What the directory says of a block before it is read. */
  lemma EntryInside(header: Header, entries: seq<Entry>, i: nat)
    requires DirectoryFits(entries, header) && i < |entries|
    ensures entries[i].logicalStart < LogicalEnd(entries, i, header.logicalLen)
    ensures entries[i].storedOffset + entries[i].storedLen <= header.recordsLen
    ensures entries[0].logicalStart == 0
  {
    assert EntryFollows(entries, 0, header.logicalLen) && EntryFollows(entries, i, header.logicalLen);
    assert i + 1 < |entries| ==> EntryFollows(entries, i + 1, header.logicalLen);
    StoredMore(entries, i);
  }

  lemma BlockMissing(library: Library, bytes: Bytes, header: Header, entries: seq<Entry>, i: nat)
    requires i < |entries| && forall block: Bytes :: !BlockFits(library, bytes, header, entries, i, block)
    ensures forall other: seq<Bytes> :: !BlocksFit(library, bytes, header, entries, other)
  {
    hide BlockFits;
    forall other: seq<Bytes>
      ensures !BlocksFit(library, bytes, header, entries, other)
    {
      assert |other| == |entries| ==> !BlockFits(library, bytes, header, entries, i, other[i]);
    }
  }

  method InflateRecords(library: Library, bytes: Bytes, header: Header, entries: seq<Entry>)
    returns (r: Result<Bytes, Refusal>, ghost blocks: seq<Bytes>)
    requires DirectoryFits(entries, header) && header.recordsOffset + header.recordsLen <= |bytes|
    requires entries == [] ==> header.logicalLen == 0
    ensures r.Ok? ==> BlocksFit(library, bytes, header, entries, blocks) && r.value == Joined(blocks)
    ensures r.Ok? ==> |r.value| == header.logicalLen
    ensures r.Err? ==> forall other: seq<Bytes> :: !BlocksFit(library, bytes, header, entries, other)
  {
    hide Inflated, DirectoryFits;
    var logical: Bytes := [];
    blocks := [];
    if entries != [] {
      EntryInside(header, entries, 0);
    }
    for i := 0 to |entries|
      invariant |blocks| == i && logical == Joined(blocks)
      invariant forall k :: 0 <= k < i ==> BlockFits(library, bytes, header, entries, k, blocks[k])
      invariant |logical| == if i < |entries| then entries[i].logicalStart else header.logicalLen
    {
      EntryInside(header, entries, i);
      var decoded := InflateBlock(library, bytes, header, entries, i);
      if decoded.Err? {
        BlockMissing(library, bytes, header, entries, i);
        return Err(decoded.error), blocks;
      }
      assert (blocks + [decoded.value])[..i] == blocks;
      logical := logical + decoded.value;
      blocks := blocks + [decoded.value];
    }
    if |logical| != header.logicalLen {
      return Err(LogicalUnaccounted), blocks;
    }
    r := Ok(logical);
  }

  // ---------------------------------------------------------------- the whole file

  predicate LayoutFits(bytes: Bytes) {
    |bytes| >= HEADER_LEN && HeaderFits(bytes)
    && var header := HeaderOf(bytes);
    && header.offsetsOffset + header.offsetsLen <= |bytes| && header.directoryOffset + header.directoryLen <= |bytes|
    && header.recordsOffset + header.recordsLen <= |bytes|
    && OffsetsFit(OffsetsOf(bytes, header), header.logicalLen) && DirectoryFits(DirectoryOf(bytes, header), header)
  }

  /** A file holds these records: its sections tile it, its blocks are intact and join to exactly the stream of the
      records, its offset index lists exactly where they start, and every block starts where one of them does. */
  predicate Holds(library: Library, bytes: Bytes, blocks: seq<Bytes>, records: seq<Record>) {
    LayoutFits(bytes)
    && var header := HeaderOf(bytes);
    && BlocksFit(library, bytes, header, DirectoryOf(bytes, header), blocks)
    && AllFramed(library, records) && Joined(blocks) == Stream(records)
    && OffsetsOf(bytes, header) == Starts(records)
    && BlocksOnRecords(DirectoryOf(bytes, header), Starts(records))
  }

  predicate BlocksOnRecords(entries: seq<Entry>, starts: seq<nat>) {
    forall i :: 0 <= i < |entries| ==> entries[i].logicalStart in starts
  }

  /** The records of a stream, walked from its first byte against the offset index. */
  predicate Walks(library: Library, logical: Bytes, offsets: seq<nat>, records: seq<Record>) {
    AllFramed(library, records) && Stream(records) == logical && Starts(records) == offsets
  }

  /** Whatever list the stream holds goes on with the record that is read next. */
  lemma NextRecord(library: Library, logical: Bytes, offsets: seq<nat>, records: seq<Record>, k: nat)
    requires Walks(library, logical, offsets, records) && k <= |records| && |Stream(records[..k])| < |logical|
    ensures k < |records| == |offsets| && offsets[k] == |Stream(records[..k])|
    ensures RecordAt(library, logical, offsets[k], records[k])
  {
    hide At, RecordBytes, Stream;
    StartsCounted(records);
    assert records[..|records|] == records;
    if k < |records| {
      StreamElement(records, k);
    }
  }

  /** The record just read, appended to those before it. */
  lemma RecordAppended(library: Library, logical: Bytes, records: seq<Record>, record: Record)
    requires AllFramed(library, records) && At(logical, 0, Stream(records))
    requires RecordAt(library, logical, |Stream(records)|, record)
    ensures AllFramed(library, records + [record]) && At(logical, 0, Stream(records + [record]))
    ensures |Stream(records + [record])| == |Stream(records)| + |RecordBytes(record)|
    ensures Starts(records + [record]) == Starts(records) + [|Stream(records)|]
    ensures KeptAll(records + [record]) == KeptAll(records) + [Kept(record)]
    ensures |RecordBytes(record)| > 0
  {
    hide At, RecordBytes, Framed;
    assert (records + [record])[..|records|] == records;
    AtJoined(logical, 0, Stream(records), RecordBytes(record));
    RecordFields(library, [], 0, record);
  }

  /** How far the walk has come: the stream begins with these records, the index lists their starts, and no list the
      stream holds begins otherwise. */
  ghost predicate WalkedTo(library: Library, logical: Bytes, offsets: seq<nat>, records: seq<Record>) {
    && AllFramed(library, records) && At(logical, 0, Stream(records)) && Starts(records) <= offsets
    && forall other: seq<Record> :: Walks(library, logical, offsets, other) ==> records <= other
  }

  /** What the index and the stream must say next, if any list is to be read from them. */
  lemma WalkGoesOn(library: Library, logical: Bytes, offsets: seq<nat>, records: seq<Record>, other: seq<Record>)
    requires WalkedTo(library, logical, offsets, records) && |Stream(records)| < |logical|
    requires Walks(library, logical, offsets, other)
    ensures var k := |records|;
            k < |other| && k < |offsets| && offsets[k] == |Stream(records)|
            && RecordAt(library, logical, offsets[k], other[k])
  {
    hide At, RecordBytes, Stream, Framed, Walks, Starts;
    assert other[..|records|] == records;
    NextRecord(library, logical, offsets, other, |records|);
  }

  lemma WalkStep(library: Library, logical: Bytes, offsets: seq<nat>, records: seq<Record>, record: Record)
    requires WalkedTo(library, logical, offsets, records) && |Stream(records)| < |logical|
    requires |records| < |offsets| && offsets[|records|] == |Stream(records)|
    requires RecordAt(library, logical, |Stream(records)|, record)
    ensures WalkedTo(library, logical, offsets, records + [record])
  {
    hide At, RecordBytes, RecordAt, Stream, Framed, Walks, Starts;
    RecordAppended(library, logical, records, record);
    StartsCounted(records);
    forall other: seq<Record> | Walks(library, logical, offsets, other)
      ensures records + [record] <= other
    {
      WalkGoesOn(library, logical, offsets, records, other);
      SameRecord(library, logical, |Stream(records)|, record, other[|records|]);
    }
  }

  lemma WalkEnds(library: Library, logical: Bytes, offsets: seq<nat>, records: seq<Record>)
    requires WalkedTo(library, logical, offsets, records) && |Stream(records)| == |logical|
    ensures |records| == |offsets| ==> Walks(library, logical, offsets, records)
    ensures |records| != |offsets| ==> forall other: seq<Record> :: !Walks(library, logical, offsets, other)
  {
    hide RecordBytes, Stream, Starts;
    StartsCounted(records);
    forall other: seq<Record> | Walks(library, logical, offsets, other)
      ensures |records| == |offsets|
    {
      StartsCounted(other);
      assert other[..|records|] == records;
      if |records| < |other| {
        Nonempty(library, other, |records|);
      }
    }
  }

  /** Walks the stream sequentially: every record starts where the one before ended, and where the index says. */
  method WalkRecords(library: Library, logical: Bytes, offsets: seq<nat>)
    returns (r: Result<seq<LegacyRecord>, Refusal>, ghost records: seq<Record>)
    ensures r.Ok? ==> Walks(library, logical, offsets, records) && r.value == KeptAll(records)
    ensures r.Err? ==> forall other: seq<Record> :: !Walks(library, logical, offsets, other)
  {
    records := [];
    assert WalkedTo(library, logical, offsets, records);
    StreamOfNone();
    hide At, RecordBytes, RecordAt, Stream, Starts, AllFramed, Walks, WalkedTo;
    var kept: seq<LegacyRecord> := [];
    var cursor := 0;
    while cursor < |logical|
      invariant cursor <= |logical| && cursor == |Stream(records)| && kept == KeptAll(records)
      invariant WalkedTo(library, logical, offsets, records)
    {
      var ordinal := |kept|;
      forall other: seq<Record> | Walks(library, logical, offsets, other)
        ensures ordinal < |other| && ordinal < |offsets| && offsets[ordinal] == cursor
        ensures RecordAt(library, logical, cursor, other[ordinal])
      {
        WalkGoesOn(library, logical, offsets, records, other);
      }
      if ordinal >= |offsets| || offsets[ordinal] != cursor {
        return Err(IndexDisagrees), records;
      }
      var decoded;
      ghost var record;
      decoded, record := DecodeRecord(library, logical, cursor);
      if decoded.Err? {
        return Err(decoded.error), records;
      }
      RecordGrows(library, logical, offsets, records, record);
      WalkStep(library, logical, offsets, records, record);
      records := records + [record];
      kept := kept + [decoded.value.0];
      cursor := decoded.value.1;
    }
    WalkEnds(library, logical, offsets, records);
    if |kept| != |offsets| {
      return Err(RecordsMissing), records;
    }
    r := Ok(kept);
  }

  lemma StreamOfNone()
    ensures Stream([]) == []
  {
  }

  lemma RecordGrows(library: Library, logical: Bytes, offsets: seq<nat>, records: seq<Record>, record: Record)
    requires WalkedTo(library, logical, offsets, records) && RecordAt(library, logical, |Stream(records)|, record)
    ensures |Stream(records + [record])| == |Stream(records)| + |RecordBytes(record)| <= |logical|
    ensures KeptAll(records + [record]) == KeptAll(records) + [Kept(record)]
    ensures |RecordBytes(record)| > 0
  {
    hide RecordBytes, Stream, Starts;
    RecordAppended(library, logical, records, record);
  }

  /** Decodes a complete segment file: it succeeds exactly when the file holds some records, and returns those. */
  method DecodeSegment(library: Library, bytes: Bytes)
    returns (r: Result<seq<LegacyRecord>, Refusal>, ghost blocks: seq<Bytes>, ghost records: seq<Record>)
    requires |bytes| <= U64_MAX
    ensures r.Ok? ==> Holds(library, bytes, blocks, records) && r.value == KeptAll(records)
    ensures r.Err? ==> forall b: seq<Bytes>, s: seq<Record> :: !Holds(library, bytes, b, s)
  {
    hide HeaderFits, OffsetsFit, DirectoryFits, BlocksFit, AllFramed, Stream, Starts, Joined;
    blocks, records := [], [];
    var parsed := ParseHeader(bytes);
    if parsed.Err? {
      return Err(parsed.error), blocks, records;
    }
    var header := parsed.value;
    SectionsInside(bytes);
    var listed := DecodeOffsets(bytes, header);
    if listed.Err? {
      return Err(listed.error), blocks, records;
    }
    var entries := DecodeDirectory(bytes, header);
    if entries.Err? {
      return Err(entries.error), blocks, records;
    }
    var logical;
    logical, blocks := InflateRecords(library, bytes, header, entries.value);
    if logical.Err? {
      return Err(logical.error), blocks, records;
    }
    forall b: seq<Bytes>, s: seq<Record> | Holds(library, bytes, b, s)
      ensures b == blocks && Walks(library, logical.value, listed.value, s)
    {
      BlocksUnique(library, bytes, header, entries.value, blocks, b);
    }
    r, records := WalkRecords(library, logical.value, listed.value);
    if r.Err? {
      return;
    }
    forall b: seq<Bytes>, s: seq<Record> | Holds(library, bytes, b, s)
      ensures s == records
    {
      RecordListUnique(library, s, records);
    }
    for i := 0 to |entries.value|
      invariant forall k :: 0 <= k < i ==> entries.value[k].logicalStart in listed.value
    {
      if entries.value[i].logicalStart !in listed.value {
        return Err(BlockInsideRecord), blocks, records;
      }
    }
  }

  lemma BlocksUnique(library: Library, bytes: Bytes, header: Header, entries: seq<Entry>, one: seq<Bytes>,
                     other: seq<Bytes>)
    requires BlocksFit(library, bytes, header, entries, one) && BlocksFit(library, bytes, header, entries, other)
    ensures one == other
  {
    forall i | 0 <= i < |one|
      ensures one[i] == other[i]
    {
      assert BlockFits(library, bytes, header, entries, i, one[i])
             && BlockFits(library, bytes, header, entries, i, other[i]);
    }
  }

  // ---------------------------------------------------------------- what acceptance means

  /** A file holds one record list and no other. */
  lemma FileHoldsOneList(library: Library, bytes: Bytes, blocks: seq<Bytes>, records: seq<Record>,
                         otherBlocks: seq<Bytes>, otherRecords: seq<Record>)
    requires Holds(library, bytes, blocks, records) && Holds(library, bytes, otherBlocks, otherRecords)
    ensures blocks == otherBlocks && records == otherRecords
  {
    hide HeaderFits, OffsetsFit, DirectoryFits, BlocksFit, AllFramed, Stream, Starts, Joined;
    var header := HeaderOf(bytes);
    BlocksUnique(library, bytes, header, DirectoryOf(bytes, header), blocks, otherBlocks);
    RecordListUnique(library, records, otherRecords);
  }

  lemma {:induction false} StreamAppend(front: seq<Record>, back: seq<Record>)
    ensures Stream(front + back) == Stream(front) + Stream(back)
  {
    hide RecordBytes;
    if back == [] {
      assert front + back == front;
    } else {
      var n := |back| - 1;
      assert (front + back)[..|front + back| - 1] == front + back[..n];
      StreamAppend(front, back[..n]);
    }
  }

  /** A block starts at the length of the blocks before it, and they come first in the stream. */
  lemma {:induction false} BlockStart(library: Library, bytes: Bytes, header: Header, entries: seq<Entry>,
                                      blocks: seq<Bytes>, i: nat)
    requires DirectoryFits(entries, header) && BlocksFit(library, bytes, header, entries, blocks) && i < |entries|
    ensures |Joined(blocks[..i])| == entries[i].logicalStart
    ensures |Joined(blocks[..i + 1])| == LogicalEnd(entries, i, header.logicalLen)
  {
    hide Inflated, DirectoryFits;
    EntryInside(header, entries, i);
    if i > 0 {
      BlockStart(library, bytes, header, entries, blocks, i - 1);
    }
    assert BlockFits(library, bytes, header, entries, i, blocks[i]);
    assert blocks[..i + 1][..i] == blocks[..i];
  }

  lemma {:induction false} JoinedPrefix(blocks: seq<Bytes>, i: nat)
    requires i <= |blocks|
    ensures Joined(blocks[..i]) <= Joined(blocks)
    decreases |blocks|
  {
    if i == |blocks| {
      assert blocks[..i] == blocks;
    } else {
      assert blocks[..|blocks| - 1][..i] == blocks[..i];
      JoinedPrefix(blocks[..|blocks| - 1], i);
    }
  }

  /** Every block boundary is a record boundary. */
  lemma CutAt(library: Library, bytes: Bytes, blocks: seq<Bytes>, records: seq<Record>, i: nat) returns (a: nat)
    requires Holds(library, bytes, blocks, records) && i <= |blocks|
    ensures a <= |records| && Joined(blocks[..i]) == Stream(records[..a])
  {
    hide HeaderFits, OffsetsFit, DirectoryFits, BlocksFit, RecordBytes, Stream, Starts, Joined, AllFramed;
    var header := HeaderOf(bytes);
    var entries := DirectoryOf(bytes, header);
    JoinedPrefix(blocks, i);
    if i == |blocks| {
      assert blocks[..i] == blocks && records[..|records|] == records;
      return |records|;
    }
    HeldParts(library, bytes, blocks, records);
    BlockStart(library, bytes, header, entries, blocks, i);
    StartsCounted(records);
    assert entries[i].logicalStart in Starts(records);
    a :| 0 <= a < |records| && Starts(records)[a] == entries[i].logicalStart;
    StreamElement(records, a);
    StreamAppend(records[..a], records[a..]);
    assert records == records[..a] + records[a..];
  }

  lemma HeldParts(library: Library, bytes: Bytes, blocks: seq<Bytes>, records: seq<Record>)
    requires Holds(library, bytes, blocks, records)
    ensures var header := HeaderOf(bytes); var entries := DirectoryOf(bytes, header);
            DirectoryFits(entries, header) && BlocksFit(library, bytes, header, entries, blocks)
            && |entries| == |blocks|
  {
    hide HeaderFits, OffsetsFit, DirectoryFits, AllFramed, Stream, Starts, Joined;
  }

  /** No record spans two blocks: every block is the stream of its own run of records. */
  lemma BlockHoldsWholeRecords(library: Library, bytes: Bytes, blocks: seq<Bytes>, records: seq<Record>, i: nat)
    returns (a: nat, b: nat)
    requires Holds(library, bytes, blocks, records) && i < |blocks|
    ensures a <= b <= |records| && blocks[i] == Stream(records[a..b])
  {
    hide Holds, RecordBytes;
    a := CutAt(library, bytes, blocks, records, i);
    b := CutAt(library, bytes, blocks, records, i + 1);
    assert blocks[..i + 1][..i] == blocks[..i];
    assert Stream([]) == [];
    hide Stream, Joined;
    if a <= b {
      StreamBetween(records, a, b);
      SameRest(Joined(blocks[..i]), blocks[i], Stream(records[a..b]));
    } else {
      StreamBetween(records, b, a);
      assert blocks[i] == [];
      b := a;
      assert records[a..b] == [];
    }
  }

  lemma StreamBetween(records: seq<Record>, a: nat, b: nat)
    requires a <= b <= |records|
    ensures Stream(records[..b]) == Stream(records[..a]) + Stream(records[a..b])
  {
    hide Stream;
    StreamAppend(records[..a], records[a..b]);
    assert records[..a] + records[a..b] == records[..b];
  }

  lemma SameRest(before: Bytes, one: Bytes, other: Bytes)
    requires before + one == before + other
    ensures one == other
  {
    assert (before + one)[|before|..] == one && (before + other)[|before|..] == other;
  }
}
