/** Which runs of the eval log come back as they were when it is opened again: those that write no null into an optional
    field. */
module EvalNulls {
  import opened Common
  import opened CanonicalJson
  import opened EvalState
  import opened EvalLog
  import opened EvalPurge
  import opened EvalReread
  import opened EvalRuns

  // ---------------------------------------------------------------- records stay

  /** The state holds what the record brought. */
  predicate Holds(state: State, record: LogRecord) {
    match record
    case OfExample(example) => example.digest in state.examples && state.examples[example.digest] == example
    case OfVersion(version) => version.versionId in state.versions && state.versions[version.versionId] == version
    case OfExperiment(experiment) =>
      experiment.experimentId in state.experiments && state.experiments[experiment.experimentId] == experiment
    case _ => true
  }

  lemma HoldsNow(state: State, record: LogRecord)
    ensures Holds(Applied(state, record), record)
  {
    hide BodyRefs, Without;
  }

  lemma HoldsStill(hash: Hash, state: State, record: LogRecord, next: LogRecord)
    requires Holds(state, record) && Admits(hash, state, next)
    ensures Holds(Applied(state, next), record)
  {
    hide BodyRefs, Without, VersionSound, ExperimentSound, RunSound, TombstoneSound, Addresses;
  }

  /** Nothing a lawful log holds is overwritten. */
  lemma {:induction false} LawfulLogsHold(hash: Hash, log: seq<LogRecord>, i: nat)
    requires Lawful(hash, EMPTY, log) && i < |log|
    ensures Holds(Replay(log), log[i])
    decreases |log|
  {
    hide Holds, Admits, Applied;
    var n := |log| - 1;
    if i == n {
      HoldsNow(Replay(log[..n]), log[n]);
    } else {
      LawfulLogsHold(hash, log[..n], i);
      HoldsStill(hash, Replay(log[..n]), log[i], log[n]);
    }
  }

  /** Nothing in the state would be lost in a reopen. */
  predicate NullFree(state: State) {
    && (forall d :: d in state.examples ==> Writable(OfExample(state.examples[d])))
    && (forall v :: v in state.versions ==> Writable(OfVersion(state.versions[v])))
    && (forall e :: e in state.experiments ==> Writable(OfExperiment(state.experiments[e])))
  }

  lemma NullFreeIsKept(state: State)
    ensures RereadState(state) == state <==> NullFree(state)
  {
    var back := RereadState(state);
    if back == state {
      forall d | d in state.examples
        ensures RereadExample(state.examples[d]) == state.examples[d]
      {
        assert back.examples[d] == state.examples[d];
      }
      forall v | v in state.versions
        ensures RereadVersion(state.versions[v]) == state.versions[v]
      {
        assert back.versions[v] == state.versions[v];
      }
      forall e | e in state.experiments
        ensures RereadExperiment(state.experiments[e]) == state.experiments[e]
      {
        assert back.experiments[e] == state.experiments[e];
      }
    }
  }

  lemma NullFreeNext(state: State, record: LogRecord)
    requires NullFree(state) && Writable(record)
    ensures NullFree(Applied(state, record))
  {
    hide BodyRefs, Without, VersionsOf;
    match record
    case OfExample(example) =>
    case OfVersion(version) =>
    case OfExperiment(experiment) =>
    case _ =>
  }

  lemma {:induction false} WritableReplays(log: seq<LogRecord>)
    requires AllWritable(log)
    ensures NullFree(Replay(log))
  {
    assert NullFree(EMPTY);
    hide NullFree, Writable, Applied;
    if log != [] {
      WritableReplays(log[..|log| - 1]);
      NullFreeNext(Replay(log[..|log| - 1]), log[|log| - 1]);
    }
  }

  /** A lawful log and the state it replays to hold the same nulls. */
  lemma LogIsWritable(hash: Hash, log: seq<LogRecord>)
    requires Lawful(hash, EMPTY, log)
    ensures AllWritable(log) <==> NullFree(Replay(log))
  {
    hide Lawful, Replay;
    if AllWritable(log) {
      WritableReplays(log);
    }
    forall i | 0 <= i < |log| && NullFree(Replay(log))
      ensures Writable(log[i])
    {
      LawfulLogsHold(hash, log, i);
    }
  }

  // ---------------------------------------------------------------- exactly when

  /** At any point of any run, opening the log anew gives the state that was in memory exactly when no record in memory
      holds a null in an optional field. */
  lemma ReopenKeepsMemory(hash: Hash, logs: seq<Log>)
    requires History(hash, logs) && |logs| <= U64_MAX
    ensures var last := logs[|logs| - 1];
            Replay(RereadAll(last.written)) == StateOf(last) <==> AllWritable(last.held)
  {
    var last := logs[|logs| - 1];
    RunsStayConsistent(hash, logs);
    RereadReplays(last.held);
    NullFreeIsKept(StateOf(last));
    LogIsWritable(hash, last.held);
    hide Replay, Lawful, Valid, NullFree, AllWritable, RereadAll, RereadState, History, DatasetWater, ExperimentWater;
  }

  /** A step that appends no such null. */
  ghost predicate PlainStep(hash: Hash, before: Log, after: Log) {
    || (exists batch :: Appends(hash, before, after, batch) && AllWritable(batch))
    || (exists arrived :: Reopens(hash, before, after, arrived) && AllWritable(arrived))
    || (exists tenant :: Rewrites(hash, before, after, tenant))
  }

  ghost predicate PlainHistory(hash: Hash, logs: seq<Log>) {
    logs != [] && logs[0] == Log([], []) && forall i :: 0 < i < |logs| ==> PlainStep(hash, logs[i - 1], logs[i])
  }

  /** In memory is what was written, and every body under its own address. */
  ghost predicate Faithful(hash: Hash, log: Log) {
    log.held == log.written && AllWritable(log.written) && BodiesAddressed(hash, StateOf(log))
  }

  lemma {:induction false} ExactKeepsAll(hash: Hash, state: State, log: seq<LogRecord>)
    requires BodiesAddressed(hash, state) && AllExact(hash, log)
    ensures BodiesAddressed(hash, Replayed(state, log))
  {
    hide BodiesAddressed, Exact, Applied;
    if log != [] {
      var n := |log| - 1;
      ExactKeepsAll(hash, state, log[..n]);
      ExactKeeps(hash, Replayed(state, log[..n]), log[n]);
    }
  }

  /** Operations put bodies under their own addresses. */
  lemma BatchExact(hash: Hash, state: State, batch: seq<LogRecord>)
    requires OperationBatch(hash, state, batch)
    ensures AllExact(hash, batch)
  {
    hide Lawful, Replayed, Admits, NextDatasetId, NextExperimentId, RunSound, ExperimentSound, TombstoneSound, Digest;
    if VersionBatch(hash, state, batch) {
      var n := |batch| - 1;
      forall i | 0 <= i < |batch|
        ensures Exact(hash, batch[i])
      {
        if i < n {
          assert batch[i] == batch[..n][i];
        }
      }
    }
  }

  lemma ReachedExact(hash: Hash, state: State, arrived: seq<LogRecord>)
    requires Reached(hash, state, arrived)
    ensures AllExact(hash, arrived)
  {
    hide OperationBatch, Exact;
    if arrived != [] {
      var batch :| OperationBatch(hash, state, batch) && arrived <= batch;
      BatchExact(hash, state, batch);
      forall i | 0 <= i < |arrived|
        ensures Exact(hash, arrived[i])
      {
        assert arrived[i] == batch[i];
      }
    }
  }

  lemma AppendedFaithful(hash: Hash, log: Log, arrived: seq<LogRecord>)
    requires Faithful(hash, log) && AllWritable(arrived) && AllExact(hash, arrived)
    ensures Faithful(hash, Log(log.written + arrived, log.held + arrived))
    ensures RereadAll(log.written + arrived) == log.held + arrived
  {
    hide BodiesAddressed, Exact, Writable, Reread;
    ReplayedAppend(EMPTY, log.held, arrived);
    ExactKeepsAll(hash, StateOf(log), arrived);
    var whole := log.written + arrived;
    forall i | 0 <= i < |whole|
      ensures Writable(whole[i]) && Reread(whole[i]) == whole[i]
    {
      WritableIsKept(whole[i]);
    }
  }

  lemma WritableIsKept(record: LogRecord)
    ensures Reread(record) == record <==> Writable(record)
  {
  }

  lemma PurgedFaithful(hash: Hash, before: Log, after: Log, tenant: string)
    requires Faithful(hash, before) && Rewrites(hash, before, after, tenant)
    ensures Faithful(hash, after)
  {
    hide Lawful, Replay, RefsOfBodies, NextId, KeptLists, KeptRuns, KeptTombstones, BodySurvives, Digest;
    WritableReplays(before.held);
    LogIsWritable(hash, after.held);
  }

  lemma StepFaithful(hash: Hash, before: Log, after: Log)
    requires PlainStep(hash, before, after) && Faithful(hash, before)
    ensures Faithful(hash, after) && Step(hash, before, after)
  {
    hide OperationBatch, Faithful, Reached, Writes, AllWritable, AllExact, RereadAll, Replay;
    if batch :| Appends(hash, before, after, batch) && AllWritable(batch) {
      BatchExact(hash, Replay(before.held), batch);
      AppendedFaithful(hash, before, batch);
    } else if arrived :| Reopens(hash, before, after, arrived) && AllWritable(arrived) {
      ReachedExact(hash, Replay(before.held), arrived);
      AppendedFaithful(hash, before, arrived);
    } else {
      var tenant :| Rewrites(hash, before, after, tenant);
      PurgedFaithful(hash, before, after, tenant);
    }
  }

  lemma NothingIsFaithful(hash: Hash)
    ensures Faithful(hash, Log([], []))
  {
  }

  /** While no request holds such a null, memory is at every step, through crashes, reopens and purges, what was
      written, and every body is under its own address. */
  lemma {:induction false} PlainRunsAreFaithful(hash: Hash, logs: seq<Log>)
    requires PlainHistory(hash, logs)
    ensures History(hash, logs) && forall i :: 0 <= i < |logs| ==> Faithful(hash, logs[i])
  {
    NothingIsFaithful(hash);
    hide PlainStep, Step, Faithful;
    var n := |logs| - 1;
    if n > 0 {
      PlainRunsAreFaithful(hash, logs[..n]);
      assert logs[..n][n - 1] == logs[n - 1] && PlainStep(hash, logs[n - 1], logs[n]);
      StepFaithful(hash, logs[n - 1], logs[n]);
      forall i | 0 <= i < |logs|
        ensures Faithful(hash, logs[i]) && (i > 0 ==> Step(hash, logs[i - 1], logs[i]))
      {
        if i < n {
          assert logs[i] == logs[..n][i] && (i > 0 ==> logs[i - 1] == logs[..n][i - 1]);
        }
      }
    }
  }

  // ---------------------------------------------------------------- a body that expects a null

  const LABELLED := Body(Str("question"), Some(Null), [], None)

  const FIRST := OfDataset(Dataset(1, [], "set", 0))

  function NullPairs(hash: Hash): seq<Pair> { [("e1", Digest(hash, LABELLED))] }

  function NullBatch(hash: Hash): seq<LogRecord> {
    [OfExample(Example(Digest(hash, LABELLED), LABELLED)),
     OfVersion(Version([], 1, VersionId(hash, 1, None, NullPairs(hash)), None, None, NullPairs(hash), 0))]
  }

  function NullRun(hash: Hash): seq<Log> {
    var whole := [FIRST] + NullBatch(hash);
    [Log([], []), Log([FIRST], [FIRST]), Log(whole, whole), Log(whole, RereadAll(whole))]
  }

  lemma FirstStep(hash: Hash)
    ensures Step(hash, Log([], []), Log([FIRST], [FIRST]))
    ensures Replay([FIRST]) == EMPTY.(datasets := map[1 := FIRST.dataset])
  {
    ReplayedOne(EMPTY, [], FIRST);
    assert [] + [FIRST] == [FIRST];
    assert DatasetBatch(EMPTY, [FIRST]);
    assert Appends(hash, Log([], []), Log([FIRST], [FIRST]), [FIRST]);
  }

  lemma NullIsStored(hash: Hash, state: State)
    requires state.examples == map[]
    ensures StoresBodies(hash, state, NullBatch(hash)[..1])
  {
    NothingStored(hash, state);
    NoRecords();
    StoresOneMore(hash, state, [], Item("e1", Digest(hash, LABELLED), LABELLED));
    hide StoresBodies, Digest, VersionId;
    assert NullBatch(hash)[..1] == [] + [NullBatch(hash)[0]];
  }

  lemma NullVersionAdmitted(hash: Hash, state: State, next: State)
    requires state == EMPTY.(datasets := map[1 := FIRST.dataset])
    requires next == state.(examples := next.examples, payloadRefs := next.payloadRefs)
    requires Digest(hash, LABELLED) in next.examples
    ensures Admits(hash, next, NullBatch(hash)[1])
  {
    hide Digest, VersionId;
  }

  lemma NullBatchIsVersion(hash: Hash, state: State)
    requires state == EMPTY.(datasets := map[1 := FIRST.dataset])
    ensures VersionBatch(hash, state, NullBatch(hash))
  {
    NullIsStored(hash, state);
    hide Digest, VersionId, Admits, Replayed, Lawful, Exact;
    var batch := NullBatch(hash);
    assert batch[..1][0] == batch[0] && RecordsBody(batch[..1], Digest(hash, LABELLED));
    NullVersionAdmitted(hash, state, Replayed(state, batch[..1]));
  }

  lemma SecondStep(hash: Hash)
    ensures var whole := [FIRST] + NullBatch(hash); Step(hash, Log([FIRST], [FIRST]), Log(whole, whole))
  {
    FirstStep(hash);
    NullBatchIsVersion(hash, Replay([FIRST]));
    hide VersionBatch, Replay, NullBatch;
    var whole := [FIRST] + NullBatch(hash);
    assert Appends(hash, Log([FIRST], [FIRST]), Log(whole, whole), NullBatch(hash));
  }

  lemma ReopenStep(hash: Hash, log: seq<LogRecord>)
    ensures Step(hash, Log(log, log), Log(log, RereadAll(log)))
  {
    assert log + [] == log;
    assert Reopens(hash, Log(log, log), Log(log, RereadAll(log)), []);
  }

  lemma NullRunIsRun(hash: Hash)
    ensures History(hash, NullRun(hash)) && History(hash, NullRun(hash)[..3])
  {
    FirstStep(hash);
    SecondStep(hash);
    ReopenStep(hash, [FIRST] + NullBatch(hash));
    hide Step, NullBatch, RereadAll;
    var logs := NullRun(hash);
    assert Step(hash, logs[0], logs[1]) && Step(hash, logs[1], logs[2]) && Step(hash, logs[2], logs[3]);
  }

  lemma NullRunExact(hash: Hash)
    ensures var whole := [FIRST] + NullBatch(hash); |whole| == 3 && AllExact(hash, whole) && ExpectsNull(whole[1])
  {
    hide Digest, VersionId;
    var whole := [FIRST] + NullBatch(hash);
    assert whole[0] == FIRST && whole[1] == NullBatch(hash)[0] && whole[2] == NullBatch(hash)[1];
  }

  /** A dataset, a version with one example that expects null, and a reopen: the body in memory is no longer the one
      acknowledged, nor the one its address is of. */
  lemma NullIsLost(hash: Hash)
    requires Injective(hash)
    ensures History(hash, NullRun(hash))
    ensures var logs := NullRun(hash);
            && logs[3].written == logs[2].written && StateOf(logs[3]) != StateOf(logs[2])
            && BodiesAddressed(hash, StateOf(logs[2])) && !BodiesAddressed(hash, StateOf(logs[3]))
  {
    NullRunIsRun(hash);
    NullRunExact(hash);
    hide NullBatch, RereadAll, Step, Lawful, Replay, Digest, BodiesAddressed, Valid, ExpectsNull, AllExact, Agrees,
         DatasetWater, ExperimentWater, Injective, History;
    RunsStayConsistent(hash, NullRun(hash)[..3]);
    var whole := [FIRST] + NullBatch(hash);
    AddressedIsExact(hash, whole);
    AddressesSurvive(hash, whole);
  }
}
