/** The migration of `src/migration.rs` with its v7 decoder put in: what a file of the old format holds is what the file
    that replaces it holds, whatever crashes come between. */
module MigrationV7 {
  import opened Common
  import opened MigrationState
  import Migration
  import V7 = SegmentV7

  /** The format word of a segment file, if it begins like one. */
  function VersionOf(bytes: Bytes): Option<nat> {
    if |bytes| < 10 || bytes[..8] != V7.MAGIC then None else Some(V7.Word(bytes, 8, 2))
  }

  /** What the conversion calls besides the v7 decoder. A payload is parsed into a span, which stands here as the bytes
      it is written with; `write` is the writer of the current format once the records are in order and `spans` are the
      payloads of such a file's records. Both are part of the segment layer. */
  datatype Codec = Codec(library: V7.Library, parse: Bytes -> Option<Bytes>, payloadsV6: Bytes -> Option<seq<Bytes>>,
                         begins: Bytes -> U64, write: seq<Bytes> -> Option<Bytes>, valid: Bytes -> bool,
                         spans: Bytes -> seq<Bytes>, sha256: Bytes -> string, decodeBlob: Bytes -> Option<Bytes>,
                         encodeBlob: Bytes -> Bytes)

  /** What is relied on: a segment written from records in order reads back, and so does a blob. */
  ghost predicate ReadsBack(codec: Codec) {
    && (forall spans :: Ascending(codec.begins, spans) && codec.write(spans).Some? ==>
          var file := codec.write(spans).value;
          VersionOf(file) == Some(CURRENT_FORMAT) && codec.valid(file) && codec.spans(file) == spans)
    && (forall bytes :: codec.decodeBlob(codec.encodeBlob(bytes)) == Some(bytes))
  }

  // ---------------------------------------------------------------- the order of a segment

  /** Starts never descend: what the time-window search of a segment relies on. */
  predicate Ascending(begins: Bytes -> U64, spans: seq<Bytes>) {
    forall i, j :: 0 <= i < j < |spans| ==> begins(spans[i]) <= begins(spans[j])
  }

  /** A span goes behind every span that does not begin after it. */
  function Placed(begins: Bytes -> U64, sorted: seq<Bytes>, span: Bytes): seq<Bytes> {
    if sorted != [] && begins(span) < begins(sorted[|sorted| - 1])
    then Placed(begins, sorted[..|sorted| - 1], span) + [sorted[|sorted| - 1]]
    else sorted + [span]
  }

  /** The writer's stable sort. */
  function ByStart(begins: Bytes -> U64, spans: seq<Bytes>): seq<Bytes> {
    if spans == [] then [] else Placed(begins, ByStart(begins, spans[..|spans| - 1]), spans[|spans| - 1])
  }

  /** The spans with one start, in their order. */
  function StartingAt(begins: Bytes -> U64, spans: seq<Bytes>, start: U64): seq<Bytes> {
    if spans == [] then []
    else StartingAt(begins, spans[..|spans| - 1], start)
         + if begins(spans[|spans| - 1]) == start then [spans[|spans| - 1]] else []
  }

  lemma StartingAtNext(begins: Bytes -> U64, spans: seq<Bytes>, span: Bytes, start: U64)
    ensures StartingAt(begins, spans + [span], start)
            == StartingAt(begins, spans, start) + if begins(span) == start then [span] else []
  {
    assert (spans + [span])[..|spans|] == spans;
  }

  lemma {:induction false} PlacedHolds(begins: Bytes -> U64, sorted: seq<Bytes>, span: Bytes)
    ensures multiset(Placed(begins, sorted, span)) == multiset(sorted) + multiset{span}
    ensures forall i :: 0 <= i < |Placed(begins, sorted, span)| ==>
              Placed(begins, sorted, span)[i] == span || Placed(begins, sorted, span)[i] in sorted
    decreases |sorted|
  {
    if sorted != [] && begins(span) < begins(sorted[|sorted| - 1]) {
      var front := sorted[..|sorted| - 1];
      assert sorted == front + [sorted[|sorted| - 1]];
      PlacedHolds(begins, front, span);
    }
  }

  lemma AscendingNext(begins: Bytes -> U64, spans: seq<Bytes>, last: Bytes)
    requires Ascending(begins, spans) && forall i :: 0 <= i < |spans| ==> begins(spans[i]) <= begins(last)
    ensures Ascending(begins, spans + [last])
  {
  }

  lemma {:induction false} PlacedAscends(begins: Bytes -> U64, sorted: seq<Bytes>, span: Bytes)
    requires Ascending(begins, sorted)
    ensures Ascending(begins, Placed(begins, sorted, span))
    decreases |sorted|
  {
    if sorted != [] && begins(span) < begins(sorted[|sorted| - 1]) {
      var front, last := sorted[..|sorted| - 1], sorted[|sorted| - 1];
      PlacedAscends(begins, front, span);
      PlacedHolds(begins, front, span);
      AscendingNext(begins, Placed(begins, front, span), last);
    } else {
      AscendingNext(begins, sorted, span);
    }
  }

  lemma {:induction false} PlacedIsStable(begins: Bytes -> U64, sorted: seq<Bytes>, span: Bytes, start: U64)
    ensures StartingAt(begins, Placed(begins, sorted, span), start)
            == StartingAt(begins, sorted, start) + (if begins(span) == start then [span] else [])
    decreases |sorted|
  {
    hide StartingAt;
    if sorted != [] && begins(span) < begins(sorted[|sorted| - 1]) {
      var front, last := sorted[..|sorted| - 1], sorted[|sorted| - 1];
      assert sorted == front + [last];
      PlacedIsStable(begins, front, span, start);
      StartingAtNext(begins, front, last, start);
      StartingAtNext(begins, Placed(begins, front, span), last, start);
    } else {
      StartingAtNext(begins, sorted, span, start);
    }
  }

  /** The sort is a permutation, ascends, and keeps the order of spans that start together. */
  lemma {:induction false} ByStartSorts(begins: Bytes -> U64, spans: seq<Bytes>)
    ensures Ascending(begins, ByStart(begins, spans)) && multiset(ByStart(begins, spans)) == multiset(spans)
    ensures forall start :: StartingAt(begins, ByStart(begins, spans), start) == StartingAt(begins, spans, start)
  {
    assert Ascending(begins, []);
    hide Placed, StartingAt, Ascending;
    if spans != [] {
      var front, last := spans[..|spans| - 1], spans[|spans| - 1];
      assert spans == front + [last];
      ByStartSorts(begins, front);
      PlacedAscends(begins, ByStart(begins, front), last);
      PlacedHolds(begins, ByStart(begins, front), last);
      forall start
        ensures StartingAt(begins, ByStart(begins, spans), start) == StartingAt(begins, spans, start)
      {
        PlacedIsStable(begins, ByStart(begins, front), last, start);
        StartingAtNext(begins, front, last, start);
      }
    }
  }

  /** The last of the spans with the last start is the last span. */
  lemma LastStarting(begins: Bytes -> U64, spans: seq<Bytes>)
    requires spans != []
    ensures var last := spans[|spans| - 1]; var at := StartingAt(begins, spans, begins(last));
            at != [] && at[|at| - 1] == last
  {
    hide StartingAt;
    StartingAtNext(begins, spans[..|spans| - 1], spans[|spans| - 1], begins(spans[|spans| - 1]));
    assert spans[..|spans| - 1] + [spans[|spans| - 1]] == spans;
  }

  lemma {:induction false} StartsHere(begins: Bytes -> U64, spans: seq<Bytes>, start: U64)
    requires StartingAt(begins, spans, start) != [] && Ascending(begins, spans)
    ensures spans != [] && start <= begins(spans[|spans| - 1])
  {
    if spans != [] && begins(spans[|spans| - 1]) != start {
      StartsHere(begins, spans[..|spans| - 1], start);
    }
  }

  /** No other arrangement does that. */
  lemma {:induction false} OneStableArrangement(begins: Bytes -> U64, one: seq<Bytes>, other: seq<Bytes>)
    requires Ascending(begins, one) && Ascending(begins, other)
    requires forall start :: StartingAt(begins, one, start) == StartingAt(begins, other, start)
    ensures one == other
  {
    hide StartingAt, Ascending;
    if one == [] || other == [] {
      NoneStarting(begins, one, other);
    } else {
      var n, x, m, y := |one| - 1, one[|one| - 1], |other| - 1, other[|other| - 1];
      LastStarting(begins, one);
      LastStarting(begins, other);
      StartsHere(begins, one, begins(y));
      StartsHere(begins, other, begins(x));
      assert x == y;
      assert one[..n] + [x] == one && other[..m] + [y] == other;
      forall start
        ensures StartingAt(begins, one[..n], start) == StartingAt(begins, other[..m], start)
      {
        assert StartingAt(begins, one, start) == StartingAt(begins, other, start);
        StartingAtNext(begins, one[..n], x, start);
        StartingAtNext(begins, other[..m], y, start);
        SameFront(StartingAt(begins, one[..n], start), StartingAt(begins, other[..m], start),
                  if begins(x) == start then [x] else []);
      }
      FrontAscends(begins, one);
      FrontAscends(begins, other);
      OneStableArrangement(begins, one[..n], other[..m]);
    }
  }

  lemma SameFront(one: seq<Bytes>, other: seq<Bytes>, end: seq<Bytes>)
    requires one + end == other + end
    ensures one == other
  {
    assert |one| == |other|;
    assert one == (one + end)[..|one|] && other == (other + end)[..|other|];
  }

  lemma NoneStarting(begins: Bytes -> U64, one: seq<Bytes>, other: seq<Bytes>)
    requires one == [] || other == []
    requires forall start :: StartingAt(begins, one, start) == StartingAt(begins, other, start)
    ensures one == other
  {
    if one != [] {
      LastStarting(begins, one);
    } else if other != [] {
      LastStarting(begins, other);
    }
  }

  lemma FrontAscends(begins: Bytes -> U64, spans: seq<Bytes>)
    requires spans != [] && Ascending(begins, spans)
    ensures Ascending(begins, spans[..|spans| - 1])
  {
  }

  /** A list keeps its order exactly when it is in order already. */
  lemma OrderKeptExactly(begins: Bytes -> U64, spans: seq<Bytes>)
    ensures ByStart(begins, spans) == spans <==> Ascending(begins, spans)
  {
    hide Ascending, ByStart, StartingAt;
    ByStartSorts(begins, spans);
    if Ascending(begins, spans) {
      OneStableArrangement(begins, ByStart(begins, spans), spans);
    }
  }

  // ---------------------------------------------------------------- what a file holds

  function Payloads(records: seq<V7.LegacyRecord>): seq<Bytes> {
    seq(|records|, i requires 0 <= i < |records| => records[i].payload)
  }

  /** The spans of some payloads, if every one of them parses. */
  function Parsed(codec: Codec, payloads: seq<Bytes>): Option<seq<Bytes>> {
    if payloads == [] then Some([])
    else
      var front := Parsed(codec, payloads[..|payloads| - 1]);
      var last := codec.parse(payloads[|payloads| - 1]);
      if front.Some? && last.Some? then Some(front.value + [last.value]) else None
  }

  /** What a v7 file holds. */
  ghost function PayloadsV7(codec: Codec, bytes: Bytes): Option<seq<Bytes>> {
    if blocks: seq<Bytes>, records: seq<V7.Record> :| V7.Holds(codec.library, bytes, blocks, records)
    then Some(Payloads(V7.KeptAll(records)))
    else None
  }

  ghost function PayloadsOf(codec: Codec, bytes: Bytes): Option<seq<Bytes>> {
    if VersionOf(bytes) == Some(7) then PayloadsV7(codec, bytes)
    else if VersionOf(bytes) == Some(6) then codec.payloadsV6(bytes)
    else None
  }

  /** The spans of a file of the old formats. */
  ghost function LegacySpans(codec: Codec, bytes: Bytes): Option<seq<Bytes>> {
    match PayloadsOf(codec, bytes)
    case None => None
    case Some(payloads) => Parsed(codec, payloads)
  }

  ghost function Conversion(codec: Codec, bytes: Bytes): Option<Bytes> {
    match LegacySpans(codec, bytes)
    case None => None
    case Some(spans) => codec.write(ByStart(codec.begins, spans))
  }

  /** The spans of a file of any format, in the order of their starts. */
  ghost function SpansOf(codec: Codec, bytes: Bytes): seq<Bytes> {
    if IsLegacy(VersionOf(bytes)) then ByStart(codec.begins, LegacySpans(codec, bytes).GetOr([]))
    else codec.spans(bytes)
  }

  ghost function FormatsOf(codec: Codec): Formats {
    Formats(bytes => VersionOf(bytes), bytes => Conversion(codec, bytes), codec.valid, bytes => SpansOf(codec, bytes),
            codec.sha256, codec.decodeBlob, codec.encodeBlob)
  }

  lemma FormatsAreLawful(codec: Codec)
    requires ReadsBack(codec)
    ensures Lawful(FormatsOf(codec))
  {
    hide PayloadsV7, VersionOf, Parsed, Ascending, ByStart;
    var formats := FormatsOf(codec);
    forall bytes | formats.convert(bytes).Some?
      ensures IsLegacy(formats.version(bytes))
      ensures var file := formats.convert(bytes).value;
              && formats.version(file) == Some(CURRENT_FORMAT) && formats.valid(file)
              && formats.records(file) == formats.records(bytes)
    {
      ByStartSorts(codec.begins, LegacySpans(codec, bytes).value);
    }
  }

  lemma HeldIsV7(library: V7.Library, bytes: Bytes, blocks: seq<Bytes>, records: seq<V7.Record>)
    requires V7.Holds(library, bytes, blocks, records)
    ensures VersionOf(bytes) == Some(7)
  {
  }

  /** What a v7 file holds does not depend on how one looks. */
  lemma HeldPayloads(codec: Codec, bytes: Bytes, blocks: seq<Bytes>, records: seq<V7.Record>)
    requires V7.Holds(codec.library, bytes, blocks, records)
    ensures PayloadsOf(codec, bytes) == Some(Payloads(V7.KeptAll(records)))
  {
    HeldIsV7(codec.library, bytes, blocks, records);
    hide V7.Holds, VersionOf;
    forall b: seq<Bytes>, r: seq<V7.Record> | V7.Holds(codec.library, bytes, b, r)
      ensures r == records
    {
      V7.FileHoldsOneList(codec.library, bytes, blocks, records, b, r);
    }
  }

  /** One segment file: decoded as its format word says, every payload parsed, and encoded anew; or refused. */
  method MigrateSegment(codec: Codec, bytes: Bytes) returns (r: Option<Bytes>)
    requires |bytes| <= U64_MAX
    ensures r == Conversion(codec, bytes)
  {
    hide VersionOf, V7.Holds, Parsed;
    var payloads: seq<Bytes>;
    if VersionOf(bytes) == Some(7) {
      var decoded, blocks, records := V7.DecodeSegment(codec.library, bytes);
      if decoded.Err? {
        return None;
      }
      HeldPayloads(codec, bytes, blocks, records);
      payloads := Payloads(decoded.value);
    } else if VersionOf(bytes) == Some(6) {
      var decoded := codec.payloadsV6(bytes);
      if decoded.None? {
        return None;
      }
      payloads := decoded.value;
    } else {
      return None;
    }
    var spans := ParseAll(codec, payloads);
    if spans.None? {
      return None;
    }
    r := codec.write(ByStart(codec.begins, spans.value));
  }

  method ParseAll(codec: Codec, payloads: seq<Bytes>) returns (r: Option<seq<Bytes>>)
    ensures r == Parsed(codec, payloads)
  {
    var spans: seq<Bytes> := [];
    for i := 0 to |payloads|
      invariant Parsed(codec, payloads[..i]) == Some(spans)
    {
      assert payloads[..i + 1][..i] == payloads[..i];
      var span := codec.parse(payloads[i]);
      if span.None? {
        NoneParsed(codec, payloads, i + 1);
        return None;
      }
      spans := spans + [span.value];
    }
    assert payloads[..|payloads|] == payloads;
    r := Some(spans);
  }

  lemma {:induction false} NoneParsed(codec: Codec, payloads: seq<Bytes>, i: nat)
    requires i <= |payloads| && Parsed(codec, payloads[..i]).None?
    ensures Parsed(codec, payloads).None?
    decreases |payloads|
  {
    if i == |payloads| {
      assert payloads[..i] == payloads;
    } else {
      var front := payloads[..|payloads| - 1];
      assert front[..i] == payloads[..i];
      NoneParsed(codec, front, i);
    }
  }

  /** The file under a segment's name afterwards is current, and its spans are those of the records the v7 file held:
      all of them, in the order of their starts, those that start together in the order of the file. */
  ghost predicate FileKept(codec: Codec, records: seq<V7.Record>, file: Bytes) {
    && VersionOf(file) == Some(CURRENT_FORMAT)
    && var parsed := Parsed(codec, Payloads(V7.KeptAll(records)));
       && parsed.Some? && Ascending(codec.begins, codec.spans(file))
       && multiset(codec.spans(file)) == multiset(parsed.value)
       && forall start :: StartingAt(codec.begins, codec.spans(file), start)
                          == StartingAt(codec.begins, parsed.value, start)
  }

  ghost predicate SpansKept(codec: Codec, before: Files, after: Files) {
    forall path, blocks: seq<Bytes>, records: seq<V7.Record> ::
      path in before && path.Segment? && V7.Holds(codec.library, before[path], blocks, records) ==>
        path in after && FileKept(codec, records, after[path])
  }

  /** The spans come back in the order of the file exactly when the starts of its records never descend. */
  lemma FileOrderKept(codec: Codec, records: seq<V7.Record>, file: Bytes)
    requires FileKept(codec, records, file)
    ensures var parsed := Parsed(codec, Payloads(V7.KeptAll(records))).value;
            codec.spans(file) == parsed <==> Ascending(codec.begins, parsed)
  {
    hide Parsed, VersionOf, Ascending, StartingAt;
    var parsed := Parsed(codec, Payloads(V7.KeptAll(records))).value;
    if Ascending(codec.begins, parsed) {
      OneStableArrangement(codec.begins, codec.spans(file), parsed);
    }
  }

  /** Two records of one block of a v7 file may start at 5 and then at 3; they change places. */
  lemma DescendingStartsSwap(codec: Codec, records: seq<V7.Record>, file: Bytes, first: Bytes, second: Bytes)
    requires FileKept(codec, records, file) && Parsed(codec, Payloads(V7.KeptAll(records))) == Some([first, second])
    requires codec.begins(first) == 5 && codec.begins(second) == 3
    ensures codec.spans(file) == [second, first] != [first, second]
  {
    hide Parsed, VersionOf, StartingAt;
    forall start
      ensures StartingAt(codec.begins, [second, first], start) == StartingAt(codec.begins, [first, second], start)
    {
      StartingAtBoth(codec.begins, first, second, start);
      StartingAtBoth(codec.begins, second, first, start);
    }
    var begins, swapped := codec.begins, [second, first];
    assert Ascending(begins, swapped);
    hide Ascending;
    OneStableArrangement(begins, codec.spans(file), swapped);
  }

  lemma StartingAtBoth(begins: Bytes -> U64, one: Bytes, other: Bytes, start: U64)
    ensures StartingAt(begins, [one, other], start)
            == (if begins(one) == start then [one] else []) + (if begins(other) == start then [other] else [])
  {
    assert StartingAt(begins, [], start) == [];
    hide StartingAt;
    StartingAtNext(begins, [], one, start);
    StartingAtNext(begins, [one], other, start);
    assert [] + [one] == [one] && [one] + [other] == [one, other];
  }

  lemma CarriedSpans(codec: Codec, before: Files, after: Files)
    requires ReadsBack(codec) && AcceptableFiles(FormatsOf(codec), before)
    requires Migration.FilesCarriedOver(FormatsOf(codec), before, after)
    ensures SpansKept(codec, before, after)
  {
    hide V7.Holds, VersionOf, Parsed, PayloadsOf, FileKept, ByStart;
    var formats := FormatsOf(codec);
    forall path, blocks: seq<Bytes>, records: seq<V7.Record> |
      path in before && path.Segment? && V7.Holds(codec.library, before[path], blocks, records)
      ensures path in after && FileKept(codec, records, after[path])
    {
      HeldIsV7(codec.library, before[path], blocks, records);
      HeldPayloads(codec, before[path], blocks, records);
      assert Acceptable(formats, path, before[path]);
      assert formats.records(after[path]) == formats.records(before[path]);
      SortedIsKept(codec, records, after[path]);
    }
  }

  lemma SortedIsKept(codec: Codec, records: seq<V7.Record>, file: Bytes)
    requires Parsed(codec, Payloads(V7.KeptAll(records))).Some? && VersionOf(file) == Some(CURRENT_FORMAT)
    requires codec.spans(file) == ByStart(codec.begins, Parsed(codec, Payloads(V7.KeptAll(records))).value)
    ensures FileKept(codec, records, file)
  {
    hide Parsed, VersionOf, Ascending, StartingAt, ByStart;
    ByStartSorts(codec.begins, Parsed(codec, Payloads(V7.KeptAll(records))).value);
  }

  /** However often a migration was killed, the open that completes leaves every v7 segment, live or pinned, as a
      current one with the spans of exactly the records the decoder reads from the old file, stably sorted by start. */
  lemma RecordsSurviveTheMigration(codec: Codec, start: Disk, events: seq<Migration.Event>,
                                   states: seq<Migration.System>)
    requires ReadsBack(codec) && Admissible(FormatsOf(codec), start) && !Declared(start)
    requires Migration.History(FormatsOf(codec), start, events, states) && Migration.OpenCompleted(events, states)
    ensures var disk := states[|events|].disk;
            && SpansKept(codec, start.live, disk.live) && disk.pins.Keys == start.pins.Keys
            && forall pin :: pin in start.pins ==> SpansKept(codec, start.pins[pin].files, disk.pins[pin].files)
  {
    var formats := FormatsOf(codec);
    FormatsAreLawful(codec);
    Migration.ResumeReachesGoal(formats, start, events, states);
    Migration.GoalMeaning(formats, start);
    hide Migration.FilesCarriedOver, FormatsOf, SpansKept, Goal, ReadsBack, Lawful;
    CarriedSpans(codec, start.live, states[|events|].disk.live);
    forall pin | pin in start.pins
      ensures SpansKept(codec, start.pins[pin].files, states[|events|].disk.pins[pin].files)
    {
      assert AcceptablePin(formats, start.pins[pin]);
      CarriedSpans(codec, start.pins[pin].files, states[|events|].disk.pins[pin].files);
    }
  }
}
