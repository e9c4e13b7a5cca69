/** The eval log's records and the state they replay to (`State` of `src/evals.rs`): what every record keeps, so that
    every log the operations can leave, cut anywhere, replays to a consistent state. */
module EvalState {
  import opened Common
  import opened CanonicalJson
  import Erasure

  /** SHA-256 in hex; its insides are not modelled. */
  type Hash = string -> string

  // ---------------------------------------------------------------- bodies

  datatype Provenance = Provenance(tenant: string, traceId: string, spanId: string)

  datatype Body = Body(input: Json, expected: Option<Json>, split: string, provenance: Option<Provenance>)

  function Unless(absent: bool, key: string, value: Json): seq<Member> {
    if absent then [] else [Member(key, value)]
  }

  /** A body as it is serialized: empty fields are left out. */
  function BodyJson(body: Body): Json {
    Obj([Member("input", body.input)]
        + Unless(body.expected.None?, "expected", body.expected.GetOr(Null))
        + Unless(body.split == [], "split", Str(body.split))
        + Unless(body.provenance.None?, "provenance",
                 if body.provenance.None? then Null else SourceJson(body.provenance.value)))
  }

  function SourceJson(from: Provenance): Json {
    Obj(Unless(from.tenant == [], "tenant", Str(from.tenant))
        + Unless(from.traceId == [], "trace_id", Str(from.traceId))
        + Unless(from.spanId == [], "span_id", Str(from.spanId)))
  }

  function Digest(hash: Hash, body: Body): string {
    hash(Canonical(BodyJson(body)))
  }

  /** The `$payload` references anywhere inside a value, redaction markers excluded. */
  function CollectRefs(json: Json): set<string> {
    match json
    case Obj(members) =>
      if Erasure.IsMarker(json) then {}
      else
        (if Erasure.Held(json).Some? then {Erasure.Held(json).value} else {})
        + set i, r | 0 <= i < |members| && r in CollectRefs(members[i].value) :: r
    case Arr(items) => set i, r | 0 <= i < |items| && r in CollectRefs(items[i]) :: r
    case _ => {}
  }

  /** The value some steps inside another: a member or an item at a time, by position. */
  function Inside(json: Json, path: seq<nat>): Option<Json> {
    if path == [] then Some(json)
    else if json.Obj? && path[0] < |json.members| then Inside(json.members[path[0]].value, path[1..])
    else if json.Arr? && path[0] < |json.items| then Inside(json.items[path[0]], path[1..])
    else None
  }

  /** The value at the end of the path holds the reference, and nothing on the way to it is a redaction marker. */
  ghost predicate CarriedAt(json: Json, path: seq<nat>, reference: string) {
    && Inside(json, path).Some? && Inside(json, path).value.Obj?
    && Erasure.Get(Inside(json, path).value, "$payload") == Some(Str(reference))
    && forall n: nat :: n <= |path| ==>
         Inside(json, path[..n]).Some? && Erasure.Get(Inside(json, path[..n]).value, "erased") != Some(Bool(true))
  }

  /** The references collected are those some path leads to, however deep. */
  lemma {:induction false} RefsAreAtPaths(json: Json, reference: string)
    ensures reference in CollectRefs(json) <==> exists path :: CarriedAt(json, path, reference)
  {
    if reference in CollectRefs(json) {
      var path := PathTo(json, reference);
    }
    if path :| CarriedAt(json, path, reference) {
      CarriedIsCollected(json, path, reference);
    }
  }

  lemma {:induction false} PathTo(json: Json, reference: string) returns (path: seq<nat>)
    requires reference in CollectRefs(json)
    ensures CarriedAt(json, path, reference)
  {
    if json.Obj? && Erasure.Held(json) == Some(reference) {
      path := [];
    } else if json.Obj? {
      var i :| 0 <= i < |json.members| && reference in CollectRefs(json.members[i].value);
      var rest := PathTo(json.members[i].value, reference);
      path := [i] + rest;
      OneStepDown(json, json.members[i].value, path, reference);
    } else {
      var i :| 0 <= i < |json.items| && reference in CollectRefs(json.items[i]);
      var rest := PathTo(json.items[i], reference);
      path := [i] + rest;
      OneStepDown(json, json.items[i], path, reference);
    }
  }

  lemma OneStepDown(json: Json, inner: Json, path: seq<nat>, reference: string)
    requires path != [] && Inside(json, path[..1]) == Some(inner)
    ensures CarriedAt(json, path, reference) 
            <==> Erasure.Get(json, "erased") != Some(Bool(true)) && CarriedAt(inner, path[1..], reference)
  {
    hide Erasure.Get;
    forall n: nat | 0 < n <= |path|
      ensures Inside(json, path[..n]) == Inside(inner, path[1..][..n - 1])
    {
      assert path[..n][1..] == path[1..][..n - 1];
      assert path[..1][1..] == [] && path[..1][0] == path[0];
    }
    assert path[..|path|] == path && path[1..][..|path| - 1] == path[1..];
    if CarriedAt(json, path, reference) {
      assert Inside(json, path[..0]) == Some(json);
      forall n: nat | n <= |path[1..]|
        ensures Inside(inner, path[1..][..n]).Some?
                && Erasure.Get(Inside(inner, path[1..][..n]).value, "erased") != Some(Bool(true))
      {
        assert Inside(json, path[..n + 1]).Some?;
      }
    }
    if Erasure.Get(json, "erased") != Some(Bool(true)) && CarriedAt(inner, path[1..], reference) {
      forall n: nat | n <= |path|
        ensures Inside(json, path[..n]).Some?
                && Erasure.Get(Inside(json, path[..n]).value, "erased") != Some(Bool(true))
      {
        if n > 0 {
          assert Inside(inner, path[1..][..n - 1]).Some?;
        }
      }
    }
  }

  lemma {:induction false} CarriedIsCollected(json: Json, path: seq<nat>, reference: string)
    requires CarriedAt(json, path, reference)
    ensures reference in CollectRefs(json)
    decreases |path|
  {
    assert path[..0] == [] && path[..|path|] == path;
    if path != [] {
      assert Inside(json, path[..1]).Some?;
      var inner := Inside(json, path[..1]).value;
      assert path[..1][1..] == [] && path[..1][0] == path[0];
      OneStepDown(json, inner, path, reference);
      CarriedIsCollected(inner, path[1..], reference);
    }
  }

  function BodyRefs(body: Body): set<string> { CollectRefs(BodyJson(body)) }

  // ---------------------------------------------------------------- records

  type Pair = (string, string)

  datatype Dataset = Dataset(datasetId: U64, tenant: string, name: string, created: U64)

  datatype Example = Example(digest: string, body: Body)

  datatype Version = Version(tenant: string, datasetId: U64, versionId: string, parent: Option<string>,
                             provenance: Option<Json>, examples: seq<Pair>, created: U64)

  datatype Experiment = Experiment(experimentId: U64, tenant: string, datasetId: U64, datasetVersion: string,
                                   name: string, config: Option<Json>, created: U64)

  datatype Run = Run(tenant: string, experimentId: U64, exampleId: string, traceId: string, spanId: string,
                     created: U64)

  datatype Tombstone = Tombstone(tenant: string, datasetId: U64, versionId: string, requested: U64, reason: string)

  datatype LogRecord =
    | OfDataset(dataset: Dataset)
    | OfExample(example: Example)
    | OfVersion(version: Version)
    | OfExperiment(experiment: Experiment)
    | OfRun(run: Run)
    | OfTombstone(tombstone: Tombstone)
    | OfCounters(datasetNext: U64, experimentNext: U64)

  function PairJson(pair: Pair): Json { Arr([Str(pair.0), Str(pair.1)]) }

  function PairsJson(pairs: seq<Pair>): Json {
    Arr(seq(|pairs|, i requires 0 <= i < |pairs| => PairJson(pairs[i])))
  }

  function ParentJson(parent: Option<string>): Json { if parent.Some? then Str(parent.value) else Null }

  function VersionJson(datasetId: U64, parent: Option<string>, pairs: seq<Pair>): Json {
    Obj([Member("dataset_id", Number(datasetId)), Member("parent", ParentJson(parent)),
         Member("examples", PairsJson(pairs))])
  }

  /** The content address of a version: its dataset, its parent and its examples. */
  function VersionId(hash: Hash, datasetId: U64, parent: Option<string>, pairs: seq<Pair>): string {
    hash(Canonical(VersionJson(datasetId, parent, pairs)))
  }

  // ---------------------------------------------------------------- the state

  datatype State = State(datasets: map<U64, Dataset>, versions: map<string, Version>,
                         versionsByDataset: map<U64, seq<string>>, examples: map<string, Example>,
                         experiments: map<U64, Experiment>, runs: seq<Run>, tombstones: map<string, Tombstone>,
                         datasetFloor: U64, experimentFloor: U64, payloadRefs: set<string>)

  const EMPTY := State(map[], map[], map[], map[], map[], [], map[], 0, 0, {})

  function Without(ids: seq<string>, id: string): (r: seq<string>)
    ensures id !in ids ==> r == ids
    ensures forall x :: x in r <==> x in ids && x != id
  {
    if ids == [] then []
    else
      assert ids == ids[..|ids| - 1] + [ids[|ids| - 1]];
      Without(ids[..|ids| - 1], id) + if ids[|ids| - 1] == id then [] else [ids[|ids| - 1]]
  }

  function VersionsOf(state: State, datasetId: U64): seq<string> {
    if datasetId in state.versionsByDataset then state.versionsByDataset[datasetId] else []
  }

  function Applied(state: State, record: LogRecord): State {
    match record
    case OfDataset(dataset) => state.(datasets := state.datasets[dataset.datasetId := dataset])
    case OfExample(example) =>
      state.(payloadRefs := state.payloadRefs + BodyRefs(example.body),
             examples := state.examples[example.digest := example])
    case OfVersion(version) =>
      var others := Without(VersionsOf(state, version.datasetId), version.versionId);
      state.(versionsByDataset := state.versionsByDataset[version.datasetId := others + [version.versionId]],
             versions := state.versions[version.versionId := version])
    case OfExperiment(experiment) =>
      state.(experiments := state.experiments[experiment.experimentId := experiment])
    case OfRun(run) => state.(runs := state.runs + [run])
    case OfTombstone(tombstone) => state.(tombstones := state.tombstones[tombstone.versionId := tombstone])
    case OfCounters(datasetNext, experimentNext) =>
      state.(datasetFloor := Max(state.datasetFloor, datasetNext),
             experimentFloor := Max(state.experimentFloor, experimentNext))
  }

  function Replayed(state: State, log: seq<LogRecord>): State {
    if log == [] then state else Applied(Replayed(state, log[..|log| - 1]), log[|log| - 1])
  }

  function Replay(log: seq<LogRecord>): State { Replayed(EMPTY, log) }

  lemma ReplayedOne(state: State, log: seq<LogRecord>, record: LogRecord)
    ensures Replayed(state, log + [record]) == Applied(Replayed(state, log), record)
  {
    assert (log + [record])[..|log|] == log;
  }

  lemma {:induction false} ReplayedAppend(state: State, front: seq<LogRecord>, back: seq<LogRecord>)
    ensures Replayed(state, front + back) == Replayed(Replayed(state, front), back)
  {
    if back == [] {
      assert front + back == front;
    } else {
      var n := |back| - 1;
      assert (front + back)[..|front + back| - 1] == front + back[..n];
      ReplayedAppend(state, front, back[..n]);
    }
  }

  // ---------------------------------------------------------------- what every reachable state keeps

  ghost predicate DatasetsKeyed(state: State) {
    forall id :: id in state.datasets ==> state.datasets[id].datasetId == id
  }

  /** Every body is stored under its own content address. */
  ghost predicate BodiesAddressed(hash: Hash, state: State) {
    forall d :: d in state.examples ==> state.examples[d].digest == d == Digest(hash, state.examples[d].body)
  }

  /** The digest is the body's, or was before a null it expected was read back as nothing. */
  predicate Addresses(hash: Hash, digest: string, body: Body) {
    digest == Digest(hash, body) || (body.expected.None? && digest == Digest(hash, body.(expected := Some(Null))))
  }

  ghost predicate BodiesKeyed(hash: Hash, state: State) {
    forall d :: d in state.examples ==>
      state.examples[d].digest == d && Addresses(hash, d, state.examples[d].body)
  }

  /** A version belongs to a dataset of its tenant, lists bodies that exist, and is its own content address. */
  ghost predicate VersionSound(hash: Hash, state: State, version: Version) {
    && version.datasetId in state.datasets && version.tenant == state.datasets[version.datasetId].tenant
    && (forall i :: 0 <= i < |version.examples| ==> version.examples[i].1 in state.examples)
    && (forall i, j :: 0 <= i < j < |version.examples| ==> Less(version.examples[i].0, version.examples[j].0))
    && version.versionId == VersionId(hash, version.datasetId, version.parent, version.examples)
  }

  ghost predicate VersionsSound(hash: Hash, state: State) {
    forall v :: v in state.versions ==> state.versions[v].versionId == v && VersionSound(hash, state, state.versions[v])
  }

  /** The per-dataset lists hold each version of the dataset once. */
  ghost predicate VersionsListed(state: State) {
    && (forall d, v :: v in VersionsOf(state, d) <==> v in state.versions && state.versions[v].datasetId == d)
    && (forall d :: d in state.versionsByDataset ==>
          Distinct(state.versionsByDataset[d]) && state.versionsByDataset[d] != [])
  }

  predicate Distinct(ids: seq<string>) {
    forall i, j :: 0 <= i < j < |ids| ==> ids[i] != ids[j]
  }

  predicate Before(ids: seq<string>, first: string, second: string) {
    exists i, j :: 0 <= i < j < |ids| && ids[i] == first && ids[j] == second
  }

  /** A parent is an earlier version of the same dataset: no chain of parents can turn back on itself. */
  ghost predicate ParentsEarlier(state: State) {
    forall v :: v in state.versions && state.versions[v].parent.Some? ==>
      Before(VersionsOf(state, state.versions[v].datasetId), state.versions[v].parent.value, v)
  }

  ghost predicate ExperimentSound(state: State, experiment: Experiment) {
    && experiment.datasetId in state.datasets && experiment.tenant == state.datasets[experiment.datasetId].tenant
    && experiment.datasetVersion in state.versions
    && state.versions[experiment.datasetVersion].datasetId == experiment.datasetId
  }

  ghost predicate ExperimentsSound(state: State) {
    forall e :: e in state.experiments ==>
      state.experiments[e].experimentId == e && ExperimentSound(state, state.experiments[e])
  }

  /** A run is of its experiment's tenant and of an example its experiment's version lists. */
  ghost predicate RunSound(state: State, run: Run) {
    && run.experimentId in state.experiments && run.tenant == state.experiments[run.experimentId].tenant
    && state.experiments[run.experimentId].datasetVersion in state.versions
    && Lists(state.versions[state.experiments[run.experimentId].datasetVersion], run.exampleId)
  }

  predicate Lists(version: Version, exampleId: string) {
    exists i :: 0 <= i < |version.examples| && version.examples[i].0 == exampleId
  }

  ghost predicate RunsSound(state: State) {
    forall i :: 0 <= i < |state.runs| ==> RunSound(state, state.runs[i])
  }

  ghost predicate TombstoneSound(state: State, tombstone: Tombstone) {
    && tombstone.versionId in state.versions && state.versions[tombstone.versionId].datasetId == tombstone.datasetId
    && tombstone.datasetId in state.datasets && tombstone.tenant == state.datasets[tombstone.datasetId].tenant
  }

  ghost predicate TombstonesSound(state: State) {
    forall t :: t in state.tombstones ==>
      state.tombstones[t].versionId == t && TombstoneSound(state, state.tombstones[t])
  }

  function RefsOfBodies(examples: map<string, Example>): set<string> {
    set d, r | d in examples && r in BodyRefs(examples[d].body) :: r
  }

  ghost predicate Valid(hash: Hash, state: State) {
    && DatasetsKeyed(state) && BodiesKeyed(hash, state) && VersionsSound(hash, state) && VersionsListed(state)
    && ParentsEarlier(state) && ExperimentsSound(state) && RunsSound(state) && TombstonesSound(state)
    && state.payloadRefs == RefsOfBodies(state.examples)
  }

  /** What the operations see to before they append a record. */
  ghost predicate Admits(hash: Hash, state: State, record: LogRecord) {
    match record
    case OfDataset(dataset) => dataset.datasetId !in state.datasets
    case OfExample(example) => example.digest !in state.examples && Addresses(hash, example.digest, example.body)
    case OfVersion(version) =>
      && version.versionId !in state.versions && VersionSound(hash, state, version)
      && (version.parent.Some? ==> version.parent.value in state.versions
                                   && state.versions[version.parent.value].datasetId == version.datasetId)
    case OfExperiment(experiment) =>
      experiment.experimentId !in state.experiments && ExperimentSound(state, experiment)
    case OfRun(run) => RunSound(state, run)
    case OfTombstone(tombstone) => TombstoneSound(state, tombstone)
    case OfCounters(_, _) => true
  }

  /** A body is under its own content address. */
  predicate Exact(hash: Hash, record: LogRecord) {
    record.OfExample? ==> record.example.digest == Digest(hash, record.example.body)
  }

  /** A log each of whose records was admitted by the state before it. */
  ghost predicate Lawful(hash: Hash, state: State, log: seq<LogRecord>) {
    log == [] || (Lawful(hash, state, log[..|log| - 1])
                  && Admits(hash, Replayed(state, log[..|log| - 1]), log[|log| - 1]))
  }

  // ---------------------------------------------------------------- keeping it

  /** Everything of the one state is in the other, unchanged. */
  ghost predicate Extends(small: State, big: State) {
    && (forall k :: k in small.datasets ==> k in big.datasets && big.datasets[k] == small.datasets[k])
    && (forall k :: k in small.versions ==> k in big.versions && big.versions[k] == small.versions[k])
    && (forall k :: k in small.examples ==> k in big.examples)
    && (forall k :: k in small.experiments ==> k in big.experiments && big.experiments[k] == small.experiments[k])
  }

  lemma VersionStays(hash: Hash, small: State, big: State, version: Version)
    requires Extends(small, big) && VersionSound(hash, small, version)
    ensures VersionSound(hash, big, version)
  {
    hide VersionId, Less;
  }

  lemma VersionsStay(hash: Hash, small: State, big: State)
    requires Extends(small, big) && VersionsSound(hash, small)
    ensures forall v :: v in small.versions ==>
              big.versions[v].versionId == v && VersionSound(hash, big, big.versions[v])
  {
    hide VersionSound;
    forall v | v in small.versions
      ensures VersionSound(hash, big, big.versions[v])
    {
      VersionStays(hash, small, big, small.versions[v]);
    }
  }

  lemma ExperimentsStay(small: State, big: State)
    requires Extends(small, big) && ExperimentsSound(small)
    ensures forall e :: e in small.experiments ==>
              big.experiments[e].experimentId == e && ExperimentSound(big, big.experiments[e])
  {
    hide ExperimentSound;
    forall e | e in small.experiments
      ensures ExperimentSound(big, big.experiments[e])
    {
      assert ExperimentSound(small, small.experiments[e]);
      ExperimentStays(small, big, small.experiments[e]);
    }
  }

  lemma ExperimentStays(small: State, big: State, experiment: Experiment)
    requires Extends(small, big) && ExperimentSound(small, experiment)
    ensures ExperimentSound(big, experiment)
  {
  }

  lemma RunStays(small: State, big: State, run: Run)
    requires Extends(small, big) && RunSound(small, run)
    ensures RunSound(big, run)
  {
    hide Lists;
  }

  lemma RunsStay(small: State, big: State)
    requires Extends(small, big) && RunsSound(small)
    ensures forall i :: 0 <= i < |small.runs| ==> RunSound(big, small.runs[i])
  {
    hide RunSound;
    forall i | 0 <= i < |small.runs|
      ensures RunSound(big, small.runs[i])
    {
      RunStays(small, big, small.runs[i]);
    }
  }

  lemma TombstonesStay(small: State, big: State)
    requires Extends(small, big) && TombstonesSound(small)
    ensures forall t :: t in small.tombstones ==>
              small.tombstones[t].versionId == t && TombstoneSound(big, small.tombstones[t])
  {
    forall t | t in small.tombstones
      ensures TombstoneSound(big, small.tombstones[t])
    {
      TombstoneStays(small, big, small.tombstones[t]);
    }
  }

  lemma TombstoneStays(small: State, big: State, tombstone: Tombstone)
    requires Extends(small, big) && TombstoneSound(small, tombstone)
    ensures TombstoneSound(big, tombstone)
  {
  }

  ghost predicate NewVersionsSound(hash: Hash, small: State, big: State) {
    forall v :: v in big.versions && v !in small.versions ==>
      big.versions[v].versionId == v && VersionSound(hash, big, big.versions[v])
  }

  ghost predicate NewExperimentsSound(small: State, big: State) {
    forall e :: e in big.experiments && e !in small.experiments ==>
      big.experiments[e].experimentId == e && ExperimentSound(big, big.experiments[e])
  }

  ghost predicate NewRunsSound(small: State, big: State) {
    && |small.runs| <= |big.runs| && big.runs[..|small.runs|] == small.runs
    && forall i :: |small.runs| <= i < |big.runs| ==> RunSound(big, big.runs[i])
  }

  ghost predicate NewTombstonesSound(small: State, big: State) {
    forall t :: t in big.tombstones ==>
      || (t in small.tombstones && big.tombstones[t] == small.tombstones[t])
      || (big.tombstones[t].versionId == t && TombstoneSound(big, big.tombstones[t]))
  }

  ghost predicate NewSound(hash: Hash, small: State, big: State) {
    NewVersionsSound(hash, small, big) && NewExperimentsSound(small, big) && NewRunsSound(small, big)
    && NewTombstonesSound(small, big)
  }

  /** A state that adds only sound entities keeps every entity sound. */
  lemma SoundnessStays(hash: Hash, small: State, big: State)
    requires Extends(small, big) && NewSound(hash, small, big)
    requires VersionsSound(hash, small) && ExperimentsSound(small) && RunsSound(small) && TombstonesSound(small)
    ensures VersionsSound(hash, big) && ExperimentsSound(big) && RunsSound(big) && TombstonesSound(big)
  {
    hide VersionSound, ExperimentSound, RunSound, TombstoneSound;
    VersionsStay(hash, small, big);
    ExperimentsStay(small, big);
    RunsStay(small, big);
    TombstonesStay(small, big);
    assert VersionsSound(hash, big);
    assert ExperimentsSound(big);
    RunsJoin(small, big);
    assert TombstonesSound(big);
  }

  lemma RunsJoin(small: State, big: State)
    requires NewRunsSound(small, big) && forall i :: 0 <= i < |small.runs| ==> RunSound(big, small.runs[i])
    ensures RunsSound(big)
  {
    hide RunSound;
    forall i | 0 <= i < |big.runs|
      ensures RunSound(big, big.runs[i])
    {
      if i < |small.runs| {
        assert big.runs[i] == big.runs[..|small.runs|][i] == small.runs[i];
      }
    }
  }

  lemma AppliedExtends(hash: Hash, state: State, record: LogRecord)
    requires Admits(hash, state, record)
    ensures Extends(state, Applied(state, record))
  {
    hide Digest, Addresses, VersionSound, ExperimentSound, RunSound, TombstoneSound;
  }

  lemma NothingNew(hash: Hash, state: State, next: State)
    requires next.versions == state.versions && next.experiments == state.experiments && next.runs == state.runs
    requires next.tombstones == state.tombstones
    ensures NewSound(hash, state, next)
  {
    hide VersionSound, ExperimentSound, RunSound, TombstoneSound;
    assert next.runs[..|state.runs|] == state.runs;
  }

  lemma NewVersionSound(hash: Hash, state: State, next: State, version: Version)
    requires next.versions == state.versions[version.versionId := version] && VersionSound(hash, next, version)
    requires next.experiments == state.experiments && next.runs == state.runs && next.tombstones == state.tombstones
    ensures NewSound(hash, state, next)
  {
    hide VersionSound, ExperimentSound, RunSound, TombstoneSound;
    assert next.runs[..|state.runs|] == state.runs;
  }

  lemma NewExperimentSound(hash: Hash, state: State, next: State, experiment: Experiment)
    requires next.experiments == state.experiments[experiment.experimentId := experiment]
    requires ExperimentSound(next, experiment)
    requires next.versions == state.versions && next.runs == state.runs && next.tombstones == state.tombstones
    ensures NewSound(hash, state, next)
  {
    hide VersionSound, ExperimentSound, RunSound, TombstoneSound;
    assert next.runs[..|state.runs|] == state.runs;
  }

  lemma NewRunSound(hash: Hash, state: State, next: State, run: Run)
    requires next.runs == state.runs + [run] && RunSound(next, run)
    requires next.versions == state.versions && next.experiments == state.experiments
    requires next.tombstones == state.tombstones
    ensures NewSound(hash, state, next)
  {
    hide VersionSound, ExperimentSound, RunSound, TombstoneSound;
    assert next.runs[..|state.runs|] == state.runs;
  }

  lemma NewTombstoneSound(hash: Hash, state: State, next: State, tombstone: Tombstone)
    requires next.tombstones == state.tombstones[tombstone.versionId := tombstone] && TombstoneSound(next, tombstone)
    requires next.versions == state.versions && next.experiments == state.experiments && next.runs == state.runs
    ensures NewSound(hash, state, next)
  {
    hide VersionSound, ExperimentSound, RunSound, TombstoneSound;
    assert next.runs[..|state.runs|] == state.runs;
  }

  /** What a record adds is sound in the state it makes. */
  lemma AppliedSound(hash: Hash, state: State, record: LogRecord)
    requires Admits(hash, state, record)
    ensures NewSound(hash, state, Applied(state, record))
  {
    AppliedExtends(hash, state, record);
    var next := Applied(state, record);
    hide VersionSound, ExperimentSound, RunSound, TombstoneSound, Extends, BodyRefs, Digest, Addresses, Without,
         VersionsOf, NewSound;
    match record
    case OfVersion(version) =>
      VersionStays(hash, state, next, version);
      NewVersionSound(hash, state, next, version);
    case OfExperiment(experiment) =>
      ExperimentStays(state, next, experiment);
      NewExperimentSound(hash, state, next, experiment);
    case OfRun(run) =>
      RunStays(state, next, run);
      NewRunSound(hash, state, next, run);
    case OfTombstone(tombstone) =>
      TombstoneStays(state, next, tombstone);
      NewTombstoneSound(hash, state, next, tombstone);
    case _ => NothingNew(hash, state, next);
  }

  /** Bodies stay under their addresses, and their references stay accounted for. */
  lemma BodiesStay(hash: Hash, state: State, record: LogRecord)
    requires Admits(hash, state, record) && DatasetsKeyed(state) && BodiesKeyed(hash, state)
    requires state.payloadRefs == RefsOfBodies(state.examples)
    ensures var next := Applied(state, record);
            DatasetsKeyed(next) && BodiesKeyed(hash, next) && next.payloadRefs == RefsOfBodies(next.examples)
  {
    hide Digest, Addresses, BodyRefs, RefsOfBodies, VersionSound, ExperimentSound, RunSound, TombstoneSound, Without,
         VersionsOf;
    var next := Applied(state, record);
    if record.OfExample? {
      RefsOfMore(state.examples, record.example);
      hide Admits;
      assert next.examples == state.examples[record.example.digest := record.example];
      assert BodiesKeyed(hash, next);
    } else {
      hide Admits, BodiesKeyed;
      SameBodies(hash, state, next);
      assert DatasetsKeyed(next);
    }
  }

  lemma SameBodies(hash: Hash, state: State, next: State)
    requires BodiesKeyed(hash, state) && next.examples == state.examples
    ensures BodiesKeyed(hash, next)
  {
  }

  lemma OrderStays(hash: Hash, state: State, record: LogRecord)
    requires Admits(hash, state, record) && VersionsListed(state) && ParentsEarlier(state)
    ensures VersionsListed(Applied(state, record)) && ParentsEarlier(Applied(state, record))
  {
    if record.OfVersion? {
      VersionLengthensList(hash, state, record.version);
    } else {
      hide VersionsListed, ParentsEarlier, BodyRefs, Admits;
      ListsStay(state, Applied(state, record));
    }
  }

  lemma ListsStay(state: State, next: State)
    requires VersionsListed(state) && ParentsEarlier(state)
    requires next.versions == state.versions && next.versionsByDataset == state.versionsByDataset
    ensures VersionsListed(next) && ParentsEarlier(next)
  {
    hide Before, Distinct;
    assert forall d :: VersionsOf(next, d) == VersionsOf(state, d);
  }

  lemma RefsOfMore(examples: map<string, Example>, example: Example)
    requires example.digest !in examples
    ensures RefsOfBodies(examples[example.digest := example]) == RefsOfBodies(examples) + BodyRefs(example.body)
  {
    hide BodyRefs;
    var more := examples[example.digest := example];
    forall r
      ensures r in RefsOfBodies(more) <==> r in RefsOfBodies(examples) || r in BodyRefs(example.body)
    {
      if r in BodyRefs(example.body) {
        assert example.digest in more && r in BodyRefs(more[example.digest].body);
      }
      if d :| d in examples && r in BodyRefs(examples[d].body) {
        assert d in more && r in BodyRefs(more[d].body);
      }
    }
  }

  /** The new version goes to the end of its dataset's list, after its parent. */
  lemma VersionLengthensList(hash: Hash, state: State, version: Version)
    requires VersionsListed(state) && ParentsEarlier(state) && Admits(hash, state, OfVersion(version))
    ensures VersionsListed(Applied(state, OfVersion(version))) && ParentsEarlier(Applied(state, OfVersion(version)))
  {
    hide VersionSound, Before, Distinct, VersionsListed, ParentsEarlier, Without;
    var next := Applied(state, OfVersion(version));
    var d, v := version.datasetId, version.versionId;
    var ids := VersionsOf(state, d);
    ListedThereOnly(state, d);
    assert v !in ids;
    NewList(state, version);
    ListLonger(state, next, d, v);
    forall x | x in next.versions && next.versions[x].parent.Some?
      ensures Before(VersionsOf(next, next.versions[x].datasetId), next.versions[x].parent.value, x)
    {
      if x == v {
        ListedThere(state, version.parent.value);
        BeforeLast(ids, version.parent.value, v);
      } else {
        EarlierThere(state, x);
        BeforeStays(VersionsOf(state, state.versions[x].datasetId), state.versions[x].parent.value, x, v);
      }
    }
    EarlierAll(next);
  }

  lemma EarlierThere(state: State, x: string)
    requires ParentsEarlier(state) && x in state.versions && state.versions[x].parent.Some?
    ensures Before(VersionsOf(state, state.versions[x].datasetId), state.versions[x].parent.value, x)
  {
  }

  lemma EarlierAll(state: State)
    requires forall x :: x in state.versions && state.versions[x].parent.Some? ==>
               Before(VersionsOf(state, state.versions[x].datasetId), state.versions[x].parent.value, x)
    ensures ParentsEarlier(state)
  {
  }

  lemma ListedThereOnly(state: State, d: U64)
    requires VersionsListed(state)
    ensures forall v :: v in VersionsOf(state, d) <==> v in state.versions && state.versions[v].datasetId == d
  {
  }

  lemma NewList(state: State, version: Version)
    requires version.versionId !in VersionsOf(state, version.datasetId)
    ensures var next := Applied(state, OfVersion(version));
            && VersionsOf(next, version.datasetId) == VersionsOf(state, version.datasetId) + [version.versionId]
            && (forall other :: other != version.datasetId ==> VersionsOf(next, other) == VersionsOf(state, other))
            && next.versionsByDataset.Keys == state.versionsByDataset.Keys + {version.datasetId}
  {
  }

  lemma ListLonger(state: State, next: State, d: U64, v: string)
    requires VersionsListed(state) && v !in state.versions
    requires v in next.versions && next.versions[v].datasetId == d
             && next.versions == state.versions[v := next.versions[v]]
    requires VersionsOf(next, d) == VersionsOf(state, d) + [v]
    requires forall other :: other != d ==> VersionsOf(next, other) == VersionsOf(state, other)
    requires next.versionsByDataset.Keys == state.versionsByDataset.Keys + {d}
    ensures VersionsListed(next)
  {
    hide Distinct;
    DistinctLonger(VersionsOf(state, d), v);
    DistinctNone();
    forall k | k in next.versionsByDataset
      ensures Distinct(next.versionsByDataset[k]) && next.versionsByDataset[k] != []
    {
      assert next.versionsByDataset[k] == VersionsOf(next, k);
      assert k in state.versionsByDataset ==> VersionsOf(state, k) == state.versionsByDataset[k];
    }
  }

  lemma ListedThere(state: State, v: string)
    requires VersionsListed(state) && v in state.versions
    ensures v in VersionsOf(state, state.versions[v].datasetId)
  {
  }

  lemma DistinctNone()
    ensures Distinct([])
  {
  }

  lemma DistinctLonger(ids: seq<string>, last: string)
    requires last !in ids
    ensures Distinct(ids) ==> Distinct(ids + [last])
  {
  }

  lemma BeforeLast(ids: seq<string>, first: string, last: string)
    requires first in ids
    ensures Before(ids + [last], first, last)
  {
    var i :| 0 <= i < |ids| && ids[i] == first;
    assert (ids + [last])[i] == first && (ids + [last])[|ids|] == last;
  }

  lemma BeforeStays(ids: seq<string>, first: string, second: string, last: string)
    requires Before(ids, first, second)
    ensures Before(ids + [last], first, second)
  {
    var i, j :| 0 <= i < j < |ids| && ids[i] == first && ids[j] == second;
    assert (ids + [last])[i] == first && (ids + [last])[j] == second;
  }

  lemma ExactKeeps(hash: Hash, state: State, record: LogRecord)
    ensures BodiesAddressed(hash, state) && Exact(hash, record) ==> BodiesAddressed(hash, Applied(state, record))
  {
    hide Digest, BodyRefs, Without;
  }

  /** A record the operations see to keeps the state consistent. */
  lemma ApplyKeeps(hash: Hash, state: State, record: LogRecord)
    requires Valid(hash, state) && Admits(hash, state, record)
    ensures Valid(hash, Applied(state, record))
    ensures BodiesAddressed(hash, state) && Exact(hash, record) ==> BodiesAddressed(hash, Applied(state, record))
  {
    ExactKeeps(hash, state, record);
    hide Admits, Applied, Extends, NewSound, VersionsSound, ExperimentsSound, RunsSound, TombstonesSound, DatasetsKeyed,
         BodiesKeyed, BodiesAddressed, Exact, RefsOfBodies, VersionsListed, ParentsEarlier;
    AppliedExtends(hash, state, record);
    AppliedSound(hash, state, record);
    SoundnessStays(hash, state, Applied(state, record));
    BodiesStay(hash, state, record);
    OrderStays(hash, state, record);
  }

  /** Every lawful log replays to a consistent state. */
  lemma {:induction false} LawfulLogsReplayValid(hash: Hash, state: State, log: seq<LogRecord>)
    requires Valid(hash, state) && Lawful(hash, state, log)
    ensures Valid(hash, Replayed(state, log))
    ensures BodiesAddressed(hash, state) && (forall i :: 0 <= i < |log| ==> Exact(hash, log[i])) ==>
              BodiesAddressed(hash, Replayed(state, log))
  {
    hide Valid, BodiesAddressed, Exact, Admits, Applied;
    if log != [] {
      var n := |log| - 1;
      LawfulLogsReplayValid(hash, state, log[..n]);
      ApplyKeeps(hash, Replayed(state, log[..n]), log[n]);
    }
  }

  lemma EmptyIsValid(hash: Hash)
    ensures Valid(hash, EMPTY)
  {
  }

  /** A lawful log cut after any record is lawful. */
  lemma {:induction false} LawfulPrefix(hash: Hash, state: State, log: seq<LogRecord>, k: nat)
    requires Lawful(hash, state, log) && k <= |log|
    ensures Lawful(hash, state, log[..k])
    decreases |log|
  {
    hide Admits, Applied;
    if k == |log| {
      assert log[..k] == log;
    } else {
      assert log[..|log| - 1][..k] == log[..k];
      LawfulPrefix(hash, state, log[..|log| - 1], k);
    }
  }

  lemma LawfulOne(hash: Hash, state: State, log: seq<LogRecord>, record: LogRecord)
    requires Lawful(hash, state, log) && Admits(hash, Replayed(state, log), record)
    ensures Lawful(hash, state, log + [record])
  {
    hide Admits, Replayed;
    assert (log + [record])[..|log|] == log;
  }

  lemma {:induction false} LawfulAppend(hash: Hash, state: State, front: seq<LogRecord>, back: seq<LogRecord>)
    requires Lawful(hash, state, front) && Lawful(hash, Replayed(state, front), back)
    ensures Lawful(hash, state, front + back)
  {
    hide Admits, Applied;
    if back == [] {
      assert front + back == front;
    } else {
      var n := |back| - 1;
      assert (front + back)[..|front + back| - 1] == front + back[..n];
      LawfulAppend(hash, state, front, back[..n]);
      ReplayedAppend(state, front, back[..n]);
    }
  }

  // ---------------------------------------------------------------- ids

  function Highest(ids: set<U64>, floor: U64): U64 {
    Max(if ids == {} then 0 else MaxOf(ids), floor)
  }

  /** Every id given so far is at or below this. */
  function DatasetWater(state: State): U64 { Highest(state.datasets.Keys, state.datasetFloor) }

  function ExperimentWater(state: State): U64 { Highest(state.experiments.Keys, state.experimentFloor) }

  function NextId(ids: set<U64>, floor: U64): U64 {
    Max(SaturatingAdd(if ids == {} then 0 else MaxOf(ids), 1), Max(SaturatingAdd(floor, 1), 1))
  }

  function NextDatasetId(state: State): U64 { NextId(state.datasets.Keys, state.datasetFloor) }

  function NextExperimentId(state: State): U64 { NextId(state.experiments.Keys, state.experimentFloor) }

  /** The next id is new exactly while the last id of all has neither been given nor floored: at saturation the
      allocator gives that one again. */
  lemma NextIdIsNew(ids: set<U64>, floor: U64)
    ensures NextId(ids, floor) == SaturatingAdd(Highest(ids, floor), 1)
    ensures Highest(ids, floor) < NextId(ids, floor) <==> Highest(ids, floor) < U64_MAX
    ensures Highest(ids, floor) < U64_MAX ==> NextId(ids, floor) !in ids
    ensures NextId(ids, floor) in ids ==> U64_MAX in ids
  {
  }

  // ---------------------------------------------------------------- parents

  /** Each element of the chain names the next as its parent. */
  ghost predicate ParentChain(state: State, chain: seq<string>) {
    && (forall i :: 0 <= i < |chain| ==> chain[i] in state.versions)
    && (forall i :: 0 < i < |chain| ==> state.versions[chain[i - 1]].parent == Some(chain[i]))
  }

  function Position(ids: seq<string>, id: string): nat
    requires id in ids
  {
    if ids[0] == id then 0 else 1 + Position(ids[1..], id)
  }

  lemma {:induction false} PositionIs(ids: seq<string>, i: nat)
    requires Distinct(ids) && i < |ids|
    ensures Position(ids, ids[i]) == i
  {
    if i > 0 {
      PositionIs(ids[1..], i - 1);
    }
  }

  lemma ParentPosition(state: State, v: string)
    requires VersionsListed(state) && ParentsEarlier(state) && v in state.versions && state.versions[v].parent.Some?
    ensures var ids := VersionsOf(state, state.versions[v].datasetId); var p := state.versions[v].parent.value;
            v in ids && p in ids && p in state.versions && state.versions[p].datasetId == state.versions[v].datasetId
            && Position(ids, p) < Position(ids, v) < |ids|
  {
    var ids, p := VersionsOf(state, state.versions[v].datasetId), state.versions[v].parent.value;
    var i, j :| 0 <= i < j < |ids| && ids[i] == p && ids[j] == v;
    PositionIs(ids, i);
    PositionIs(ids, j);
  }

  /** Following parents ends: a chain of them is no longer than the list of its dataset's versions from where
      it starts. */
  lemma {:induction false} ParentChainsEnd(state: State, chain: seq<string>)
    requires VersionsListed(state) && ParentsEarlier(state) && ParentChain(state, chain) && chain != []
    ensures var ids := VersionsOf(state, state.versions[chain[0]].datasetId);
            chain[0] in ids && |chain| <= Position(ids, chain[0]) + 1
  {
    ListedThere(state, chain[0]);
    if |chain| > 1 {
      hide VersionsListed, ParentsEarlier, Position, VersionsOf;
      assert state.versions[chain[0]].parent == Some(chain[1]);
      ParentPosition(state, chain[0]);
      assert ParentChain(state, chain[1..]);
      ParentChainsEnd(state, chain[1..]);
    }
  }

  // ---------------------------------------------------------------- content addresses are identities

  ghost predicate Injective(hash: Hash) {
    forall a, b :: hash(a) == hash(b) ==> a == b
  }

  lemma VersionJsonIdentifies(datasetId: U64, parent: Option<string>, pairs: seq<Pair>, otherId: U64,
                              otherParent: Option<string>, otherPairs: seq<Pair>)
    requires Canonical(VersionJson(datasetId, parent, pairs))
             == Canonical(VersionJson(otherId, otherParent, otherPairs))
    ensures datasetId == otherId && parent == otherParent && pairs == otherPairs
  {
    SameOrdered(VersionJson(datasetId, parent, pairs), VersionJson(otherId, otherParent, otherPairs));
    var ones := VersionMembers(datasetId, parent, pairs);
    var others := VersionMembers(otherId, otherParent, otherPairs);
    hide Ordered, Canonical, VersionJson, PairsJson, SortByKey;
    assert SortByKey(ones) == SortByKey(others);
    assert multiset(ones) == multiset(SortByKey(ones)) == multiset(SortByKey(others)) == multiset(others);
    SameThree(ones, others);
    PairsIdentify(pairs, otherPairs);
  }

  lemma VersionMembers(datasetId: U64, parent: Option<string>, pairs: seq<Pair>) returns (members: seq<Member>)
    ensures |members| == 3 && Ordered(VersionJson(datasetId, parent, pairs)) == Obj(SortByKey(members))
    ensures |members[0].key| == 10 && |members[1].key| == 6 && |members[2].key| == 8
    ensures members[0].value == Number(datasetId) && members[2].value == Ordered(PairsJson(pairs))
    ensures members[1].value == ParentJson(parent)
  {
    var json := VersionJson(datasetId, parent, pairs);
    hide SortByKey, PairsJson;
    members := OrderedMembers(json, json.members);
  }

  /** Three members with different keys, in the same places, are told apart by their keys. */
  lemma SameThree(ones: seq<Member>, others: seq<Member>)
    requires |ones| == |others| == 3 && multiset(ones) == multiset(others)
    requires |ones[0].key| == |others[0].key| == 10 && |ones[1].key| == |others[1].key| == 6
    requires |ones[2].key| == |others[2].key| == 8
    ensures ones[0].value == others[0].value && ones[1].value == others[1].value && ones[2].value == others[2].value
  {
    InSorted(others, ones, ones[0]);
    InSorted(others, ones, ones[1]);
    InSorted(others, ones, ones[2]);
  }

  lemma SameOrdered(one: Json, other: Json)
    requires Canonical(one) == Canonical(other)
    ensures Ordered(one) == Ordered(other)
  {
    hide Ordered, Text;
    assert Canonical(one) + [] == Canonical(other) + [];
    TextOnce(Ordered(one), Ordered(other), [], []);
  }

  lemma PairsIdentify(pairs: seq<Pair>, others: seq<Pair>)
    requires Ordered(PairsJson(pairs)) == Ordered(PairsJson(others))
    ensures pairs == others
  {
    var ones, twos := PairsJson(pairs).items, PairsJson(others).items;
    var left, right := Ordered(PairsJson(pairs)).items, Ordered(PairsJson(others)).items;
    assert |left| == |pairs| && |right| == |others|;
    forall i | 0 <= i < |pairs|
      ensures pairs[i] == others[i]
    {
      assert left[i] == Ordered(ones[i]) && right[i] == Ordered(twos[i]);
      PairOrdered(pairs[i]);
      PairOrdered(others[i]);
    }
  }

  lemma PairOrdered(pair: Pair)
    ensures Ordered(PairJson(pair)) == PairJson(pair)
  {
    assert Ordered(Str(pair.0)) == Str(pair.0) && Ordered(Str(pair.1)) == Str(pair.1);
  }

  /** A version found under the id of a request is a version of the same dataset, parent and examples. */
  lemma FoundVersionIsTheSame(hash: Hash, state: State, datasetId: U64, parent: Option<string>, pairs: seq<Pair>)
    requires Injective(hash) && VersionsSound(hash, state)
             && VersionId(hash, datasetId, parent, pairs) in state.versions
    ensures var found := state.versions[VersionId(hash, datasetId, parent, pairs)];
            found.datasetId == datasetId && found.parent == parent && found.examples == pairs
  {
    hide Less, Equivalent, Canonical, Keyed;
    var found := state.versions[VersionId(hash, datasetId, parent, pairs)];
    assert VersionSound(hash, state, found);
    var one, other := VersionJson(found.datasetId, found.parent, found.examples), VersionJson(datasetId, parent, pairs);
    assert hash(Canonical(one)) == hash(Canonical(other));
    VersionJsonIdentifies(found.datasetId, found.parent, found.examples, datasetId, parent, pairs);
  }
}
