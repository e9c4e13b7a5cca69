/** The tombstone log of `src/erasure.rs` as an event-sourced state: begin, note and settle append one line each, the
    open replays them, and the mask is always that of the erasures without an outcome. */
module ErasureLog {
  import opened Common
  import opened CanonicalJson
  import opened Erasure
  import LineLog

  datatype SettleRecord = SettleRecord(id: U64, settled: U64, generation: U64, removed: nat, redacted: nat)

  datatype LogRecord =
    | Erase(erase: EraseRecord)
    | Settle(settle: SettleRecord)
    | Note(id: U64, payloadRefs: seq<string>)

  datatype Entry = Entry(erase: EraseRecord, settle: Option<SettleRecord>)

  type Entries = map<U64, Entry>

  // ---------------------------------------------------------------- noting references

  predicate Listed(refs: seq<string>) {
    forall i, j :: 0 <= i < j < |refs| ==> Less(refs[i], refs[j])
  }

  /** Puts a reference in its place, once. */
  function Placed(reference: string, sorted: seq<string>): seq<string> {
    if sorted == [] || Less(reference, sorted[0]) then [reference] + sorted
    else if reference == sorted[0] then sorted
    else [sorted[0]] + Placed(reference, sorted[1..])
  }

  /** Extended, sorted, deduplicated. */
  function Merged(refs: seq<string>): seq<string> {
    if refs == [] then [] else Placed(refs[|refs| - 1], Merged(refs[..|refs| - 1]))
  }

  lemma {:induction false} PlacedHolds(reference: string, sorted: seq<string>)
    ensures forall r :: r in Placed(reference, sorted) <==> r == reference || r in sorted
    ensures Listed(sorted) ==> Listed(Placed(reference, sorted))
  {
    if sorted != [] {
      LessTotal(reference, sorted[0]);
      if Less(reference, sorted[0]) {
        forall j | 0 <= j < |sorted| && Listed(sorted)
          ensures Less(reference, sorted[j])
        {
          if j > 0 {
            LessTransitive(reference, sorted[0], sorted[j]);
          }
        }
      } else if reference != sorted[0] {
        var rest := Placed(reference, sorted[1..]);
        PlacedHolds(reference, sorted[1..]);
        assert sorted == [sorted[0]] + sorted[1..];
        forall j | 0 <= j < |rest| && Listed(sorted)
          ensures Less(sorted[0], rest[j])
        {
          assert rest[j] in rest;
        }
      }
    }
  }

  /** Merging keeps exactly the references it is given, each once, in order: noting them again changes nothing. */
  lemma {:induction false} MergedHolds(refs: seq<string>)
    ensures forall r :: r in Merged(refs) <==> r in refs
    ensures Listed(Merged(refs))
  {
    if refs != [] {
      var n := |refs| - 1;
      MergedHolds(refs[..n]);
      PlacedHolds(refs[n], Merged(refs[..n]));
      assert refs == refs[..n] + [refs[n]];
    }
  }

  // ---------------------------------------------------------------- replay

  function Noted(erase: EraseRecord, refs: seq<string>): EraseRecord {
    erase.(payloadRefs := Merged(erase.payloadRefs + refs))
  }

  function Applied(entries: Entries, record: LogRecord): Entries {
    match record
    case Erase(erase) => entries[erase.id := Entry(erase, None)]
    case Settle(settle) =>
      // An outcome whose erasure the log does not hold changes nothing.
      if settle.id in entries then entries[settle.id := entries[settle.id].(settle := Some(settle))] else entries
    case Note(id, refs) =>
      if id in entries then entries[id := entries[id].(erase := Noted(entries[id].erase, refs))] else entries
  }

  function Replay(log: seq<LogRecord>): Entries {
    if log == [] then map[] else Applied(Replay(log[..|log| - 1]), log[|log| - 1])
  }

  lemma ReplayOne(log: seq<LogRecord>, record: LogRecord)
    ensures Replay(log + [record]) == Applied(Replay(log), record)
  {
    assert (log + [record])[..|log|] == log;
  }

  // ---------------------------------------------------------------- the mask of what is pending

  predicate Pending(entries: Entries, id: U64) {
    id in entries && entries[id].settle == None
  }

  /** The ids in order, as the map they are keys of lists them. */
  function InOrder(ids: set<U64>): (r: seq<U64>)
    ensures forall x :: x in r <==> x in ids
    ensures forall i, j :: 0 <= i < j < |r| ==> r[i] < r[j]
    decreases |ids|
  {
    if ids == {} then [] else InOrder(ids - {MaxOf(ids)}) + [MaxOf(ids)]
  }

  function PendingIds(entries: Entries): set<U64> {
    set id | id in entries && Pending(entries, id)
  }

  function Erases(entries: Entries, ids: seq<U64>): seq<EraseRecord>
    requires forall id :: id in ids ==> id in entries
  {
    seq(|ids|, i requires 0 <= i < |ids| => assert ids[i] in ids; entries[ids[i]].erase)
  }

  /** The erasures without an outcome, oldest first. */
  function PendingErases(entries: Entries): seq<EraseRecord> {
    Erases(entries, InOrder(PendingIds(entries)))
  }

  /** The mask a set of entries calls for: none when nothing is pending, else that of the pending erasures. */
  function MaskOf(entries: Entries): Option<Mask> {
    var pending := PendingErases(entries);
    if pending == [] then None else Some(MaskFor(pending))
  }

  /** No erasure is pending, or one is that is due to drop (or, for reads, to redact) the span. */
  predicate Hides(mask: Option<Mask>, resolve: Sessions, span: Span) {
    mask.Some? && mask.value.Covers(resolve, span)
  }

  /** What the mask of a log hides from reads: exactly what some erasure begun and not settled is due to act on. */
  lemma PendingErasuresHide(entries: Entries, resolve: Sessions, span: Span)
    ensures Hides(MaskOf(entries), resolve, span)
            <==> exists id :: Pending(entries, id)
                   && (DueToDrop(resolve, entries[id].erase, span) || DueToRedact(resolve, entries[id].erase, span))
  {
    hide DueToDrop, DueToRedact, MaskFor;
    var ids, pending := InOrder(PendingIds(entries)), PendingErases(entries);
    MaskIsExact(resolve, pending, span);
    assert forall id :: Pending(entries, id) <==> id in ids;
    forall i | 0 <= i < |ids|
      ensures ids[i] in entries && pending[i] == entries[ids[i]].erase
    {
      assert ids[i] in ids;
    }
  }

  // ---------------------------------------------------------------- the log

  function NextId(entries: Entries): U64 {
    SaturatingAdd(if entries.Keys == {} then 0 else MaxOf(entries.Keys), 1)
  }

  /** The tombstone log: the lines on disk, and the state replayed from them. */
  class ErasureLog {
    var lines: seq<LogRecord>
    var entries: Entries
    var mask: Option<Mask>

    /** Memory is the replay of the log, and the mask that of what is pending. */
    ghost predicate Valid()
      reads this
    {
      entries == Replay(lines) && mask == MaskOf(entries)
    }

    method RebuildMask()
      modifies this`mask
      ensures mask == MaskOf(entries)
    {
      var pending := PendingErases(entries);
      if pending == [] {
        mask := None;
      } else {
        var built := ForPending(pending);
        mask := Some(built);
      }
    }

    /** Opens a log whose file held these lines. */
    constructor (contents: seq<LogRecord>)
      ensures Valid() && lines == contents
    {
      lines := contents;
      entries := map[];
      new;
      for i := 0 to |contents|
        invariant lines == contents && entries == Replay(contents[..i])
      {
        assert contents[..i + 1] == contents[..i] + [contents[i]];
        ReplayOne(contents[..i], contents[i]);
        match contents[i] {
          case Erase(erase) => entries := entries[erase.id := Entry(erase, None)];
          case Settle(settle) =>
            if settle.id in entries {
              entries := entries[settle.id := entries[settle.id].(settle := Some(settle))];
            }
          case Note(id, refs) =>
            if id in entries {
              entries := entries[id := entries[id].(erase := Noted(entries[id].erase, refs))];
            }
        }
      }
      assert contents[..|contents|] == contents;
      RebuildMask();
    }

    /** Records an intent under the next id, durably, and puts it in the mask. */
    method Begin(requested: U64, subject: Subject, spanKeys: seq<Key>, payloadRefs: seq<string>, datasets: seq<U64>,
                 experiments: seq<U64>)
      returns (erase: EraseRecord)
      requires Valid()
      modifies this
      ensures Valid() && lines == old(lines) + [Erase(erase)]
      ensures erase
              == EraseRecord(NextId(old(entries)), requested, subject, spanKeys, payloadRefs, datasets, experiments)
      ensures old(IsRun(lines)) ==> IsRun(lines)
    {
      hide MaskOf, Replay, Merged;
      assert (lines + [Erase(EraseRecord(NextId(entries), requested, subject, spanKeys, payloadRefs, datasets,
                                         experiments))])[..|lines|] == lines;
      erase := EraseRecord(NextId(entries), requested, subject, spanKeys, payloadRefs, datasets, experiments);
      ReplayOne(lines, Erase(erase));
      lines := lines + [Erase(erase)];
      entries := entries[erase.id := Entry(erase, None)];
      RebuildMask();
    }

    /** Logs what became of an erasure, which then hides nothing any more. */
    method RecordSettle(settle: SettleRecord)
      requires Valid()
      modifies this
      ensures Valid() && lines == old(lines) + [Settle(settle)]
      ensures !Pending(entries, settle.id)
      ensures old(IsRun(lines)) ==> IsRun(lines)
    {
      hide MaskOf, Replay, Merged;
      assert (lines + [Settle(settle)])[..|lines|] == lines;
      ReplayOne(lines, Settle(settle));
      lines := lines + [Settle(settle)];
      if settle.id in entries {
        entries := entries[settle.id := entries[settle.id].(settle := Some(settle))];
      }
      RebuildMask();
    }

    /** Adds payload references to an erasure's accounting. */
    method NotePayloadRefs(id: U64, payloadRefs: seq<string>)
      requires Valid()
      modifies this
      ensures Valid()
      ensures lines == if payloadRefs == [] then old(lines) else old(lines) + [Note(id, payloadRefs)]
      ensures id in entries ==> forall r :: r in payloadRefs ==> r in entries[id].erase.payloadRefs
      ensures old(IsRun(lines)) ==> IsRun(lines)
    {
      hide MaskOf, Replay, Merged;
      if payloadRefs == [] {
        return;
      }
      assert (lines + [Note(id, payloadRefs)])[..|lines|] == lines;
      ReplayOne(lines, Note(id, payloadRefs));
      lines := lines + [Note(id, payloadRefs)];
      if id in entries {
        MergedHolds(entries[id].erase.payloadRefs + payloadRefs);
        entries := entries[id := entries[id].(erase := Noted(entries[id].erase, payloadRefs))];
      }
      RebuildMask();
    }
  }

  // ---------------------------------------------------------------- runs

  /** What the log may hold next: an intent under the next id, any outcome, references that are some. */
  predicate MayFollow(log: seq<LogRecord>, record: LogRecord) {
    match record
    case Erase(erase) => erase.id == NextId(Replay(log))
    case Settle(_) => true
    case Note(_, refs) => refs != []
  }

  /** The logs any run of begin, note and settle leaves, across reopens: see `CrashLeavesARun`. */
  predicate IsRun(log: seq<LogRecord>) {
    log == [] || (IsRun(log[..|log| - 1]) && MayFollow(log[..|log| - 1], log[|log| - 1]))
  }

  /** A crash at any byte of an append leaves a file that opens to the log without the record or with it, and is then
      the clean file of that log: nothing acknowledged is lost, and both are logs of a run. */
  lemma CrashLeavesARun(codec: LineLog.Codec<LogRecord>, log: seq<LogRecord>, record: LogRecord, cut: nat)
    returns (survived: seq<LogRecord>)
    requires LineLog.Serializes(codec) && LineLog.Faithful(codec) && IsRun(log) && MayFollow(log, record)
    requires cut <= |LineLog.Lines(codec, [record])|
    ensures IsRun(survived) && (survived == log || survived == log + [record])
    ensures LineLog.Open(codec, LineLog.Lines(codec, log) + LineLog.Lines(codec, [record])[..cut])
            == LineLog.Opened(survived, LineLog.Lines(codec, survived))
            == LineLog.Open(codec, LineLog.Lines(codec, survived))
  {
    hide LineLog.Serializes, LineLog.Open, LineLog.Lines, MayFollow;
    LineLog.TornAppendHeals(codec, log, [record], cut);
    var k := LineLog.Arrived(codec, [record], cut);
    survived := log + [record][..k];
    assert k == 0 ==> survived == log;
    assert k == 1 ==> survived == log + [record] && (log + [record])[..|log|] == log;
    assert LineLog.ReadBack(codec, survived) == survived;
  }

  function Begun(log: seq<LogRecord>): nat {
    if log == [] then 0 else Begun(log[..|log| - 1]) + if log[|log| - 1].Erase? then 1 else 0
  }

  /** While no more than 2^64 - 1 erasures were begun, their ids are 1, 2, 3, ... in order: none is ever given twice. */
  lemma {:induction false} IdsCountUp(log: seq<LogRecord>)
    requires IsRun(log) && Begun(log) <= U64_MAX
    ensures forall id :: id in Replay(log) <==> 1 <= id <= Begun(log)
    ensures forall i :: 0 <= i < |log| && log[i].Erase? ==> log[i].erase.id == Begun(log[..i]) + 1
  {
    if log != [] {
      var n := |log| - 1;
      IdsCountUp(log[..n]);
      assert forall i :: 0 <= i < n ==> log[..n][..i] == log[..i];
      NextIdCounts(Replay(log[..n]), Begun(log[..n]));
    }
  }

  lemma NextIdCounts(entries: Entries, count: nat)
    requires count <= U64_MAX && forall id :: id in entries <==> 1 <= id <= count
    ensures NextId(entries) == if count < U64_MAX then count + 1 else U64_MAX
  {
    if count > 0 {
      assert count in entries.Keys;
    }
  }

  lemma {:induction false} BegunGrows(log: seq<LogRecord>, i: nat)
    requires i <= |log|
    ensures Begun(log[..i]) <= Begun(log)
    ensures i < |log| && log[i].Erase? ==> Begun(log[..i]) < Begun(log)
    decreases |log|
  {
    if i == |log| {
      assert log[..i] == log;
    } else if i < |log| - 1 {
      BegunGrows(log[..|log| - 1], i);
      assert log[..|log| - 1][..i] == log[..i];
    }
  }

  /** Erasure ids strictly increase along a log. */
  lemma IdsIncrease(log: seq<LogRecord>, i: nat, j: nat)
    requires IsRun(log) && Begun(log) <= U64_MAX
    requires i < j < |log| && log[i].Erase? && log[j].Erase?
    ensures log[i].erase.id < log[j].erase.id
  {
    IdsCountUp(log);
    BegunGrows(log[..j], i);
    assert log[..j][..i] == log[..i];
  }

  /** The next id is new exactly while the last id of all has not been given: saturation would reissue that one. */
  lemma NextIdIsNew(entries: Entries)
    ensures NextId(entries) !in entries <==> U64_MAX !in entries
    ensures U64_MAX !in entries ==> forall id :: id in entries ==> id < NextId(entries)
  {
  }

  /** What a later log still says of an erasure: its intent, no fewer references, and an outcome if it had one. */
  predicate Carries(before: Entry, after: Entry) {
    && after.erase == before.erase.(payloadRefs := after.erase.payloadRefs)
    && (forall r :: r in before.erase.payloadRefs ==> r in after.erase.payloadRefs)
    && (before.settle.Some? ==> after.settle.Some?)
  }

  lemma StepCarries(log: seq<LogRecord>, record: LogRecord, id: U64)
    requires MayFollow(log, record) && (record.Erase? ==> U64_MAX !in Replay(log)) && id in Replay(log)
    ensures id in Replay(log + [record]) && Carries(Replay(log)[id], Replay(log + [record])[id])
  {
    ReplayOne(log, record);
    NextIdIsNew(Replay(log));
    if record.Note? {
      MergedHolds(Replay(log)[id].erase.payloadRefs + record.payloadRefs);
    }
  }

  /** Whatever was acknowledged stays recorded in every later log of the run. */
  lemma {:induction false} AcknowledgedSurvives(log: seq<LogRecord>, later: seq<LogRecord>, id: U64)
    requires IsRun(later) && log <= later && Begun(later) <= U64_MAX && id in Replay(log)
    ensures id in Replay(later) && Carries(Replay(log)[id], Replay(later)[id])
    decreases |later|
  {
    hide Carries, MayFollow;
    if log != later {
      var n := |later| - 1;
      BegunGrows(later, n);
      IdsCountUp(later[..n]);
      AcknowledgedSurvives(log, later[..n], id);
      StepCarries(later[..n], later[n], id);
      assert later == later[..n] + [later[n]];
      CarriesOn(Replay(log)[id], Replay(later[..n])[id], Replay(later)[id]);
    } else {
      assert Carries(Replay(log)[id], Replay(log)[id]) by { CarriesItself(Replay(log)[id]); }
    }
  }

  lemma CarriesOn(a: Entry, b: Entry, c: Entry)
    requires Carries(a, b) && Carries(b, c)
    ensures Carries(a, c)
  {
  }

  lemma CarriesItself(a: Entry)
    ensures Carries(a, a)
  {
  }
}
