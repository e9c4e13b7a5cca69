/** Whole runs of the eval log of `src/evals.rs`: operations, appends cut at any byte, purges and reopens. Every state a
    run reaches is consistent, ids are never given twice, what is in memory is what was written exactly when no record
    holds a null that reads back as nothing, and a purge shows in no other tenant's view. */
module EvalRuns {
  import opened Common
  import opened CanonicalJson
  import opened EvalState
  import opened EvalLog
  import opened EvalPurge
  import opened EvalReread
  import LineLog

  // ---------------------------------------------------------------- runs

  /** A log by the records written to its file and those the state in memory was made from. */
  datatype Log = Log(written: seq<LogRecord>, held: seq<LogRecord>)

  /** One operation's append, applied. */
  ghost predicate Appends(hash: Hash, before: Log, after: Log, batch: seq<LogRecord>) {
    OperationBatch(hash, Replay(before.held), batch) && after == Log(before.written + batch, before.held + batch)
  }

  /** As much of one operation's append as reached the disk before the process ended, or nothing. */
  ghost predicate Reached(hash: Hash, state: State, arrived: seq<LogRecord>) {
    arrived == [] || exists batch :: OperationBatch(hash, state, batch) && arrived <= batch
  }

  /** The log is opened anew: what is in memory is what the file reads back as. */
  ghost predicate Reopens(hash: Hash, before: Log, after: Log, arrived: seq<LogRecord>) {
    Reached(hash, Replay(before.held), arrived)
    && after == Log(before.written + arrived, RereadAll(before.written + arrived))
  }

  ghost predicate Rewrites(hash: Hash, before: Log, after: Log, tenant: string) {
    Writes(hash, after.held, Purged(Replay(before.held), tenant)) && after.written == after.held
  }

  ghost predicate Step(hash: Hash, before: Log, after: Log) {
    || (exists batch :: Appends(hash, before, after, batch))
    || (exists arrived :: Reopens(hash, before, after, arrived))
    || (exists tenant :: Rewrites(hash, before, after, tenant))
  }

  /** The log after each step of a run. */
  ghost predicate History(hash: Hash, logs: seq<Log>) {
    logs != [] && logs[0] == Log([], []) && forall i :: 0 < i < |logs| ==> Step(hash, logs[i - 1], logs[i])
  }

  function StateOf(log: Log): State { Replay(log.held) }

  /** An append cut at any byte opens to a log one step on, whose clean file the healed file is. */
  lemma CrashIsAStep(codec: LineLog.Codec<LogRecord>, hash: Hash, log: Log, batch: seq<LogRecord>, cut: nat)
    returns (next: Log)
    requires ReadsRecords(codec) && OperationBatch(hash, StateOf(log), batch)
    requires LineLog.AllRead(codec, log.written) && LineLog.AllRead(codec, batch)
    requires cut <= |LineLog.Lines(codec, batch)|
    ensures Step(hash, log, next)
    ensures LineLog.Open(codec, LineLog.Lines(codec, log.written) + LineLog.Lines(codec, batch)[..cut])
            == LineLog.Opened(next.held, LineLog.Lines(codec, next.written))
            == LineLog.Open(codec, LineLog.Lines(codec, next.written))
  {
    hide LineLog.Open, LineLog.Lines, LineLog.Arrived, OperationBatch, Replay;
    LineLog.TornAppendHeals(codec, log.written, batch, cut);
    var arrived := batch[..LineLog.Arrived(codec, batch, cut)];
    var written := log.written + arrived;
    assert LineLog.ReadBack(codec, written) == RereadAll(written);
    next := Log(written, RereadAll(written));
    assert arrived <= batch && Reopens(hash, log, next, arrived);
  }

  // ---------------------------------------------------------------- ids

  /** Steps may raise the highest id by one and never lower it. */
  ghost predicate WaterRises(before: State, after: State) {
    && DatasetWater(before) <= DatasetWater(after) <= DatasetWater(before) + 1
    && ExperimentWater(before) <= ExperimentWater(after) <= ExperimentWater(before) + 1
  }

  lemma HighestOf(ids: set<U64>, floor: U64)
    ensures forall x :: x in ids ==> x <= Highest(ids, floor)
    ensures floor <= Highest(ids, floor)
    ensures Highest(ids, floor) == floor || Highest(ids, floor) in ids
  {
  }

  lemma HighestWithOne(ids: set<U64>, floor: U64, id: U64)
    requires id == Highest(ids, floor) + 1
    ensures Highest(ids + {id}, floor) == id
  {
    HighestOf(ids, floor);
    HighestOf(ids + {id}, floor);
  }

  /** A floor at the highest id holds it, whichever ids go. */
  lemma HighestAfterPurge(ids: set<U64>, floor: U64, kept: set<U64>)
    requires kept <= ids && Highest(ids, floor) < U64_MAX
    ensures Highest(kept, FloorUnder(NextId(ids, floor))) == Highest(ids, floor)
  {
    NextIdIsNew(ids, floor);
    HighestOf(ids, floor);
    HighestOf(kept, FloorUnder(NextId(ids, floor)));
  }

  lemma PurgeKeepsWater(state: State, tenant: string)
    requires DatasetWater(state) < U64_MAX && ExperimentWater(state) < U64_MAX
    ensures DatasetWater(Purged(state, tenant)) == DatasetWater(state)
    ensures ExperimentWater(Purged(state, tenant)) == ExperimentWater(state)
  {
    hide NextId, Highest, KeptVersions, KeptLists, KeptExamples, KeptRuns, KeptTombstones, RefsOfBodies;
    HighestAfterPurge(state.datasets.Keys, state.datasetFloor, KeptDatasets(state, tenant).Keys);
    HighestAfterPurge(state.experiments.Keys, state.experimentFloor, KeptExperiments(state, tenant).Keys);
  }

  /** What a record does to the highest ids. */
  lemma RecordWater(state: State, record: LogRecord)
    requires record.OfDataset? ==> record.dataset.datasetId == NextDatasetId(state)
    requires record.OfExperiment? ==> record.experiment.experimentId == NextExperimentId(state)
    requires !record.OfCounters? && DatasetWater(state) < U64_MAX && ExperimentWater(state) < U64_MAX
    ensures WaterRises(state, Applied(state, record))
    ensures record.OfDataset? ==> DatasetWater(state) < record.dataset.datasetId == DatasetWater(Applied(state, record))
    ensures record.OfExperiment? ==>
              ExperimentWater(state) < record.experiment.experimentId == ExperimentWater(Applied(state, record))
  {
    hide NextId, Highest, BodyRefs, Without, VersionsOf;
    NextIdIsNew(state.datasets.Keys, state.datasetFloor);
    NextIdIsNew(state.experiments.Keys, state.experimentFloor);
    if record.OfDataset? {
      HighestWithOne(state.datasets.Keys, state.datasetFloor, record.dataset.datasetId);
      assert Applied(state, record).datasets.Keys == state.datasets.Keys + {record.dataset.datasetId};
    } else if record.OfExperiment? {
      HighestWithOne(state.experiments.Keys, state.experimentFloor, record.experiment.experimentId);
      assert Applied(state, record).experiments.Keys == state.experiments.Keys + {record.experiment.experimentId};
    }
  }

  predicate GivesNoId(record: LogRecord) {
    !record.OfDataset? && !record.OfExperiment? && !record.OfCounters?
  }

  lemma {:induction false} QuietKeepsWater(state: State, records: seq<LogRecord>)
    requires forall i :: 0 <= i < |records| ==> GivesNoId(records[i])
    ensures DatasetWater(Replayed(state, records)) == DatasetWater(state)
    ensures ExperimentWater(Replayed(state, records)) == ExperimentWater(state)
  {
    hide Highest, BodyRefs, Without, VersionsOf;
    if records != [] {
      var n := |records| - 1;
      QuietKeepsWater(state, records[..n]);
      assert GivesNoId(records[n]);
    }
  }

  lemma AppendWater(hash: Hash, held: seq<LogRecord>, batch: seq<LogRecord>, arrived: seq<LogRecord>)
    requires OperationBatch(hash, Replay(held), batch) && arrived <= batch
    requires DatasetWater(Replay(held)) < U64_MAX && ExperimentWater(Replay(held)) < U64_MAX
    ensures WaterRises(Replay(held), Replay(held + arrived))
  {
    hide Highest, NextId, StoresBodies, Admits, Applied, RunSound, ExperimentSound, TombstoneSound, Replayed;
    var state := Replay(held);
    ReplayedAppend(EMPTY, held, arrived);
    BatchQuiet(hash, state, batch);
    if |batch| == 1 && |arrived| == 1 {
      assert arrived == [] + [batch[0]];
      ReplayedOne(state, [], batch[0]);
      ReplayedNone(state);
      if GivesNoId(batch[0]) {
        QuietKeepsWater(state, arrived);
      } else {
        RecordWater(state, batch[0]);
      }
    } else {
      QuietKeepsWater(state, arrived);
    }
  }

  lemma ReplayedNone(state: State)
    ensures Replayed(state, []) == state
  {
  }

  /** Only a lone record gives an id. */
  lemma BatchQuiet(hash: Hash, state: State, batch: seq<LogRecord>)
    requires OperationBatch(hash, state, batch)
    ensures |batch| > 1 ==> forall i :: 0 <= i < |batch| ==> GivesNoId(batch[i])
    ensures |batch| == 1 && batch[0].OfDataset? ==> batch[0].dataset.datasetId == NextDatasetId(state)
    ensures |batch| == 1 && batch[0].OfExperiment? ==> batch[0].experiment.experimentId == NextExperimentId(state)
    ensures |batch| == 1 ==> !batch[0].OfCounters?
  {
    hide Lawful, Replayed, Admits, NextDatasetId, NextExperimentId, RunSound, ExperimentSound, TombstoneSound;
    if VersionBatch(hash, state, batch) {
      var bodies := batch[..|batch| - 1];
      forall i | 0 <= i < |batch| - 1
        ensures GivesNoId(batch[i])
      {
        assert bodies[i].OfExample?;
      }
    }
  }

  lemma RereadWater(log: seq<LogRecord>)
    ensures DatasetWater(Replay(RereadAll(log))) == DatasetWater(Replay(log))
    ensures ExperimentWater(Replay(RereadAll(log))) == ExperimentWater(Replay(log))
  {
    RereadReplays(log);
    hide Replay, Highest;
    assert RereadState(Replay(log)).experiments.Keys == Replay(log).experiments.Keys;
  }

  /** What is in memory and what was written come back as the same. */
  ghost predicate Agrees(log: Log) {
    RereadAll(log.held) == RereadAll(log.written)
  }

  lemma RereadAppend(front: seq<LogRecord>, back: seq<LogRecord>)
    ensures RereadAll(front + back) == RereadAll(front) + RereadAll(back)
  {
  }

  lemma RereadTwice(log: seq<LogRecord>)
    ensures RereadAll(RereadAll(log)) == RereadAll(log)
  {
    forall i | 0 <= i < |log|
      ensures Reread(Reread(log[i])) == Reread(log[i])
    {
    }
  }

  lemma StepAgrees(hash: Hash, before: Log, after: Log)
    requires Step(hash, before, after) && Agrees(before)
    ensures Agrees(after)
  {
    hide OperationBatch, Replay, Reached, Writes, RereadAll;
    if batch :| Appends(hash, before, after, batch) {
      RereadAppend(before.held, batch);
      RereadAppend(before.written, batch);
    } else if arrived :| Reopens(hash, before, after, arrived) {
      RereadTwice(before.written + arrived);
    }
  }

  /** A reopen gives what reading back the records in memory and the arrived ones would. */
  lemma ReopenedHeld(before: Log, arrived: seq<LogRecord>)
    requires Agrees(before)
    ensures RereadAll(before.written + arrived) == RereadAll(before.held + arrived)
  {
    hide RereadAll;
    RereadAppend(before.held, arrived);
    RereadAppend(before.written, arrived);
  }

  lemma ReachedWater(hash: Hash, held: seq<LogRecord>, arrived: seq<LogRecord>)
    requires Reached(hash, Replay(held), arrived)
    requires DatasetWater(Replay(held)) < U64_MAX && ExperimentWater(Replay(held)) < U64_MAX
    ensures WaterRises(Replay(held), Replay(held + arrived))
  {
    hide OperationBatch, Replay, DatasetWater, ExperimentWater;
    if arrived == [] {
      assert held + arrived == held;
    } else {
      var batch :| OperationBatch(hash, Replay(held), batch) && arrived <= batch;
      AppendWater(hash, held, batch, arrived);
    }
  }

  lemma StepWater(hash: Hash, before: Log, after: Log)
    requires Step(hash, before, after) && Agrees(before)
    requires DatasetWater(StateOf(before)) < U64_MAX && ExperimentWater(StateOf(before)) < U64_MAX
    ensures WaterRises(StateOf(before), StateOf(after))
  {
    hide Reached, Replay, Purged, DatasetWater, ExperimentWater, Agrees, RereadAll, OperationBatch;
    if batch :| Appends(hash, before, after, batch) {
      AppendWater(hash, before.held, batch, batch);
    } else if arrived :| Reopens(hash, before, after, arrived) {
      ReopenedHeld(before, arrived);
      RereadWater(before.held + arrived);
      ReachedWater(hash, before.held, arrived);
    } else {
      var tenant :| Rewrites(hash, before, after, tenant);
      PurgeKeepsWater(StateOf(before), tenant);
    }
  }

  lemma ReachedLawful(hash: Hash, held: seq<LogRecord>, arrived: seq<LogRecord>)
    requires Reached(hash, Replay(held), arrived) && Lawful(hash, EMPTY, held)
    requires DatasetWater(Replay(held)) < U64_MAX && ExperimentWater(Replay(held)) < U64_MAX
    ensures Lawful(hash, EMPTY, held + arrived)
  {
    hide OperationBatch, Lawful, Replayed, DatasetWater, ExperimentWater;
    if arrived == [] {
      assert held + arrived == held;
    } else {
      var batch :| OperationBatch(hash, Replay(held), batch) && arrived <= batch;
      BatchLawful(hash, Replay(held), batch);
      LawfulPrefix(hash, Replay(held), batch, |arrived|);
      assert arrived == batch[..|arrived|];
      LawfulAppend(hash, EMPTY, held, arrived);
    }
  }

  lemma BatchReached(hash: Hash, state: State, batch: seq<LogRecord>)
    requires OperationBatch(hash, state, batch)
    ensures Reached(hash, state, batch)
  {
    hide OperationBatch;
    assert batch <= batch;
  }

  lemma StepLawful(hash: Hash, before: Log, after: Log)
    requires Step(hash, before, after) && Agrees(before) && Lawful(hash, EMPTY, before.held)
    requires DatasetWater(StateOf(before)) < U64_MAX && ExperimentWater(StateOf(before)) < U64_MAX
    ensures Lawful(hash, EMPTY, after.held)
  {
    hide OperationBatch, Lawful, Purged, DatasetWater, ExperimentWater, Replayed, Reached, RereadAll, Agrees;
    if batch :| Appends(hash, before, after, batch) {
      BatchReached(hash, Replay(before.held), batch);
      ReachedLawful(hash, before.held, batch);
    } else if arrived :| Reopens(hash, before, after, arrived) {
      ReachedLawful(hash, before.held, arrived);
      ReopenedHeld(before, arrived);
      RereadLawful(hash, before.held + arrived);
    } else {
      var tenant :| Rewrites(hash, before, after, tenant);
    }
  }

  /** In every log of a run of fewer than 2^64 steps the records in memory are lawful, so the state is consistent, and
      they differ from those written at most by what a reopen leaves out; the highest id given counts no more than the
      steps. */
  lemma {:induction false} RunsStayConsistent(hash: Hash, logs: seq<Log>)
    requires History(hash, logs) && |logs| <= U64_MAX
    ensures var last := logs[|logs| - 1];
            && Lawful(hash, EMPTY, last.held) && Valid(hash, StateOf(last)) && Agrees(last)
            && DatasetWater(StateOf(last)) < |logs| && ExperimentWater(StateOf(last)) < |logs|
    decreases |logs|
  {
    hide Step, Valid, Replayed, Highest, Lawful, Agrees;
    var n := |logs| - 1;
    if n == 0 {
      StartsEmpty(hash);
    } else {
      RunsStayConsistent(hash, logs[..n]);
      assert logs[..n][n - 1] == logs[n - 1] && Step(hash, logs[n - 1], logs[n]);
      StepLawful(hash, logs[n - 1], logs[n]);
      StepWater(hash, logs[n - 1], logs[n]);
      StepAgrees(hash, logs[n - 1], logs[n]);
      EmptyIsValid(hash);
      LawfulLogsReplayValid(hash, EMPTY, logs[n].held);
    }
  }

  lemma StartsEmpty(hash: Hash)
    ensures Lawful(hash, EMPTY, []) && Valid(hash, Replay([]))
    ensures DatasetWater(Replay([])) == 0 && ExperimentWater(Replay([])) == 0
    ensures Agrees(Log([], []))
  {
    EmptyIsValid(hash);
    hide Valid;
  }

  /** The step wrote the record: its operation was acknowledged, or its whole line survived a crash. */
  predicate Writing(before: Log, after: Log, record: LogRecord) {
    && after.written == before.written + [record]
    && (after.held == before.held + [record] || after.held == RereadAll(after.written))
  }

  ghost predicate Creates(logs: seq<Log>, i: nat, dataset: Dataset) {
    0 < i < |logs| && DatasetBatch(StateOf(logs[i - 1]), [OfDataset(dataset)])
    && Writing(logs[i - 1], logs[i], OfDataset(dataset))
  }

  ghost predicate Starts(logs: seq<Log>, i: nat, experiment: Experiment) {
    && 0 < i < |logs| && ExperimentBatch(StateOf(logs[i - 1]), [OfExperiment(experiment)])
    && Writing(logs[i - 1], logs[i], OfExperiment(experiment))
  }

  lemma {:induction false} WaterNeverFalls(hash: Hash, logs: seq<Log>, i: nat, j: nat)
    requires History(hash, logs) && |logs| <= U64_MAX && i <= j < |logs|
    ensures DatasetWater(StateOf(logs[i])) <= DatasetWater(StateOf(logs[j]))
    ensures ExperimentWater(StateOf(logs[i])) <= ExperimentWater(StateOf(logs[j]))
    decreases j
  {
    hide Step, Valid, Replay, DatasetWater, ExperimentWater, Lawful, Agrees;
    if i < j {
      WaterNeverFalls(hash, logs, i, j - 1);
      RunsStayConsistent(hash, logs[..j]);
      assert logs[..j][j - 1] == logs[j - 1] && Step(hash, logs[j - 1], logs[j]);
      StepWater(hash, logs[j - 1], logs[j]);
    }
  }

  lemma WritingWater(before: Log, after: Log, record: LogRecord)
    requires Writing(before, after, record) && Agrees(before)
    ensures DatasetWater(StateOf(after)) == DatasetWater(Applied(StateOf(before), record))
    ensures ExperimentWater(StateOf(after)) == ExperimentWater(Applied(StateOf(before), record))
  {
    hide DatasetWater, ExperimentWater, Applied, RereadAll, Agrees, Replayed;
    ReplayedOne(EMPTY, before.held, record);
    ReopenedHeld(before, [record]);
    RereadWater(before.held + [record]);
  }

  /** A created dataset's id is above every id before, and the highest after. */
  lemma CreateRaises(hash: Hash, logs: seq<Log>, i: nat, dataset: Dataset)
    requires History(hash, logs) && |logs| <= U64_MAX && Creates(logs, i, dataset)
    ensures DatasetWater(StateOf(logs[i - 1])) < dataset.datasetId == DatasetWater(StateOf(logs[i]))
  {
    hide DatasetWater, ExperimentWater, Replayed, NextDatasetId, Agrees, Writing, Step;
    RunsStayConsistent(hash, logs[..i]);
    assert logs[..i][i - 1] == logs[i - 1];
    WritingWater(logs[i - 1], logs[i], OfDataset(dataset));
    RecordWater(StateOf(logs[i - 1]), OfDataset(dataset));
  }

  lemma StartRaises(hash: Hash, logs: seq<Log>, i: nat, experiment: Experiment)
    requires History(hash, logs) && |logs| <= U64_MAX && Starts(logs, i, experiment)
    ensures ExperimentWater(StateOf(logs[i - 1])) < experiment.experimentId == ExperimentWater(StateOf(logs[i]))
  {
    hide DatasetWater, ExperimentWater, Replayed, NextExperimentId, ExperimentSound, Agrees, Writing, Step;
    RunsStayConsistent(hash, logs[..i]);
    assert logs[..i][i - 1] == logs[i - 1];
    WritingWater(logs[i - 1], logs[i], OfExperiment(experiment));
    RecordWater(StateOf(logs[i - 1]), OfExperiment(experiment));
  }

  /** No dataset id is ever given twice, whatever was purged or lost in between. */
  lemma DatasetIdsNeverReissued(hash: Hash, logs: seq<Log>, i: nat, j: nat, first: Dataset, second: Dataset)
    requires History(hash, logs) && |logs| <= U64_MAX && i < j && Creates(logs, i, first) && Creates(logs, j, second)
    ensures first.datasetId < second.datasetId
  {
    hide DatasetWater, Replay, Step, DatasetBatch, Writing;
    CreateRaises(hash, logs, i, first);
    CreateRaises(hash, logs, j, second);
    WaterNeverFalls(hash, logs, i, j - 1);
  }

  lemma ExperimentIdsNeverReissued(hash: Hash, logs: seq<Log>, i: nat, j: nat, first: Experiment, second: Experiment)
    requires History(hash, logs) && |logs| <= U64_MAX && i < j && Starts(logs, i, first) && Starts(logs, j, second)
    ensures first.experimentId < second.experimentId
  {
    hide ExperimentWater, Replay, Step, ExperimentBatch, Writing;
    StartRaises(hash, logs, i, first);
    StartRaises(hash, logs, j, second);
    WaterNeverFalls(hash, logs, i, j - 1);
  }

  // ---------------------------------------------------------------- what other tenants see

  datatype VersionSummary = VersionSummary(versionId: string, parent: Option<string>, examples: nat, created: U64,
                                           tombstoned: bool)

  datatype DatasetView = DatasetView(dataset: Dataset, versions: seq<VersionSummary>)

  function Summaries(state: State, ids: seq<string>): seq<VersionSummary> {
    if ids == [] then []
    else
      var rest, v := Summaries(state, ids[..|ids| - 1]), ids[|ids| - 1];
      if v !in state.versions then rest
      else
        var version := state.versions[v];
        rest + [VersionSummary(v, version.parent, |version.examples|, version.created, v in state.tombstones)]
  }

  function ViewOfDataset(state: State, scope: Option<string>, id: U64): Option<DatasetView> {
    var dataset := DatasetInScope(state, scope, id);
    if dataset.None? then None else Some(DatasetView(dataset.value, Summaries(state, VersionsOf(state, id))))
  }

  datatype VersionView = Gone(tombstone: Tombstone) | VersionView(version: Version, bodies: seq<(string, Example)>)

  function BodiesOf(state: State, pairs: seq<Pair>): seq<(string, Example)> {
    if pairs == [] then []
    else
      var rest, last := BodiesOf(state, pairs[..|pairs| - 1]), pairs[|pairs| - 1];
      if last.1 in state.examples then rest + [(last.0, state.examples[last.1])] else rest
  }

  function ViewOfVersion(state: State, scope: Option<string>, id: U64, v: string): Option<VersionView> {
    if DatasetInScope(state, scope, id).None? || !KnownVersion(state, v, id) then None
    else if v in state.tombstones then Some(Gone(state.tombstones[v]))
    else Some(VersionView(state.versions[v], BodiesOf(state, state.versions[v].examples)))
  }

  function RunsOf(runs: seq<Run>, id: U64): seq<Run> {
    if runs == [] then []
    else RunsOf(runs[..|runs| - 1], id) + if runs[|runs| - 1].experimentId == id then [runs[|runs| - 1]] else []
  }

  datatype ExperimentView = ExperimentView(experiment: Experiment, versionDeleted: bool, runs: seq<Run>)

  function ViewOfExperiment(state: State, scope: Option<string>, id: U64): Option<ExperimentView> {
    var experiment := ExperimentInScope(state, scope, id);
    if experiment.None? then None
    else Some(ExperimentView(experiment.value, experiment.value.datasetVersion in state.tombstones,
                             RunsOf(state.runs, id)))
  }

  lemma {:induction false} KeptRunsOf(runs: seq<Run>, tenant: string, id: U64)
    requires forall i :: 0 <= i < |runs| && runs[i].experimentId == id ==> runs[i].tenant != tenant
    ensures RunsOf(KeptRuns(runs, tenant), id) == RunsOf(runs, id)
  {
    if runs != [] {
      var n := |runs| - 1;
      hide KeptRuns, RunsOf;
      KeptRunsOf(runs[..n], tenant, id);
      KeptRunsNext(runs, tenant, n);
      assert runs[..n + 1] == runs == runs[..n] + [runs[n]];
      RunsOfBoth(runs[..n], KeptRuns(runs[..n], tenant), runs[n], tenant, id);
    }
  }

  lemma RunsOfBoth(front: seq<Run>, kept: seq<Run>, last: Run, tenant: string, id: U64)
    requires RunsOf(kept, id) == RunsOf(front, id) && (last.experimentId == id ==> last.tenant != tenant)
    ensures RunsOf(if last.tenant == tenant then kept else kept + [last], id) == RunsOf(front + [last], id)
  {
    hide RunsOf;
    RunsOfNext(front, last, id);
    RunsOfNext(kept, last, id);
  }

  lemma RunsOfNext(runs: seq<Run>, run: Run, id: U64)
    ensures RunsOf(runs + [run], id) == RunsOf(runs, id) + if run.experimentId == id then [run] else []
  {
    assert (runs + [run])[..|runs|] == runs;
  }

  lemma {:induction false} SummariesKept(state: State, tenant: string, ids: seq<string>)
    requires forall i :: 0 <= i < |ids| && ids[i] in state.versions ==> state.versions[ids[i]].tenant != tenant
    requires forall t :: t in ids && t in state.tombstones ==> state.tombstones[t].tenant != tenant
    ensures Summaries(Purged(state, tenant), ids) == Summaries(state, ids)
  {
    hide KeptDatasets, KeptLists, KeptExamples, KeptExperiments, KeptRuns, RefsOfBodies, NextId;
    if ids != [] {
      var n := |ids| - 1;
      SummariesKept(state, tenant, ids[..n]);
      assert ids[n] in ids;
    }
  }

  lemma {:induction false} BodiesKept(state: State, tenant: string, v: string, k: nat)
    requires v in state.versions && state.versions[v].tenant != tenant && k <= |state.versions[v].examples|
    ensures BodiesOf(Purged(state, tenant), state.versions[v].examples[..k])
            == BodiesOf(state, state.versions[v].examples[..k])
  {
    hide KeptDatasets, KeptLists, KeptVersions, KeptTombstones, KeptExperiments, KeptRuns, RefsOfBodies, NextId;
    if k > 0 {
      var pairs := state.versions[v].examples;
      BodiesKept(state, tenant, v, k - 1);
      assert pairs[..k][..k - 1] == pairs[..k - 1];
      assert ListsDigest(state.versions[v], pairs[k - 1].1);
      assert BodySurvives(state, tenant, pairs[k - 1].1);
    }
  }

  /** What a purge leaves of a dataset of another tenant: all of it. */
  lemma DatasetKeptWhole(hash: Hash, state: State, tenant: string, id: U64)
    requires Valid(hash, state) && id in state.datasets && state.datasets[id].tenant != tenant
    ensures var purged := Purged(state, tenant);
            && id in purged.datasets && purged.datasets[id] == state.datasets[id]
            && Summaries(purged, VersionsOf(purged, id)) == Summaries(state, VersionsOf(state, id))
  {
    hide KeptVersions, KeptTombstones, KeptExamples, KeptExperiments, KeptRuns, RefsOfBodies, NextId, Less, Digest,
         VersionId, BodiesKeyed, ParentsEarlier, Distinct, Summaries;
    var ids := VersionsOf(state, id);
    forall v | v in ids && v in state.versions
      ensures state.versions[v].tenant != tenant && (v in state.tombstones ==> state.tombstones[v].tenant != tenant)
    {
      assert VersionSound(hash, state, state.versions[v]);
      assert v in state.tombstones ==> TombstoneSound(state, state.tombstones[v]);
    }
    SummariesKept(state, tenant, ids);
  }

  lemma VersionKeptWhole(hash: Hash, state: State, tenant: string, id: U64, v: string)
    requires Valid(hash, state) && id in state.datasets && state.datasets[id].tenant != tenant
    ensures var purged := Purged(state, tenant);
            && (KnownVersion(purged, v, id) <==> KnownVersion(state, v, id))
            && (KnownVersion(state, v, id) ==>
                  && purged.versions[v] == state.versions[v]
                  && (v in purged.tombstones <==> v in state.tombstones)
                  && (v in state.tombstones ==> purged.tombstones[v] == state.tombstones[v])
                  && BodiesOf(purged, state.versions[v].examples) == BodiesOf(state, state.versions[v].examples))
  {
    hide KeptLists, KeptExamples, KeptExperiments, KeptRuns, RefsOfBodies, NextId, Less, Digest, VersionId, BodiesKeyed,
         ParentsEarlier, VersionsListed, Distinct, BodiesOf;
    if KnownVersion(state, v, id) {
      assert VersionSound(hash, state, state.versions[v]);
      assert v in state.tombstones ==> TombstoneSound(state, state.tombstones[v]);
      var pairs := state.versions[v].examples;
      BodiesKept(state, tenant, v, |pairs|);
      assert pairs[..|pairs|] == pairs;
    }
  }

  lemma ExperimentKeptWhole(hash: Hash, state: State, tenant: string, id: U64)
    requires Valid(hash, state) && id in state.experiments && state.experiments[id].tenant != tenant
    ensures var purged := Purged(state, tenant);
            && id in purged.experiments && purged.experiments[id] == state.experiments[id]
            && RunsOf(purged.runs, id) == RunsOf(state.runs, id)
            && (state.experiments[id].datasetVersion in purged.tombstones
                <==> state.experiments[id].datasetVersion in state.tombstones)
  {
    hide KeptDatasets, KeptLists, KeptVersions, KeptExamples, RefsOfBodies, NextId, Less, Digest, VersionId,
         BodiesKeyed, ParentsEarlier, VersionsListed, Distinct, Lists, VersionSound;
    forall i | 0 <= i < |state.runs| && state.runs[i].experimentId == id
      ensures state.runs[i].tenant != tenant
    {
      assert RunSound(state, state.runs[i]);
    }
    KeptRunsOf(state.runs, tenant, id);
    var v := state.experiments[id].datasetVersion;
    assert ExperimentSound(state, state.experiments[id]);
    assert v in state.tombstones ==> TombstoneSound(state, state.tombstones[v]);
  }

  /** A purge changes nothing another tenant can see. */
  lemma OtherTenantsSeeTheSame(hash: Hash, state: State, tenant: string, other: string, id: U64, v: string)
    requires Valid(hash, state) && other != tenant
    ensures var purged := Purged(state, tenant);
            && ViewOfDataset(purged, Some(other), id) == ViewOfDataset(state, Some(other), id)
            && ViewOfVersion(purged, Some(other), id, v) == ViewOfVersion(state, Some(other), id, v)
            && ViewOfExperiment(purged, Some(other), id) == ViewOfExperiment(state, Some(other), id)
  {
    hide Valid, KeptVersions, KeptLists, KeptExamples, KeptTombstones, KeptRuns, RefsOfBodies, NextId, BodiesOf,
         Summaries, KnownVersion, RunsOf, VersionsOf;
    if id in state.datasets && state.datasets[id].tenant == other {
      DatasetKeptWhole(hash, state, tenant, id);
      VersionKeptWhole(hash, state, tenant, id, v);
    }
    if id in state.experiments && state.experiments[id].tenant == other {
      ExperimentKeptWhole(hash, state, tenant, id);
    }
  }
}
