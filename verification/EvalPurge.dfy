/** The tenant purge of the eval log (`purge_tenant` of `src/evals.rs`): the log it writes replays to the survivors,
    other tenants see what they saw, and what every run of operations, crashes and purges keeps. */
module EvalPurge {
  import opened Common
  import opened CanonicalJson
  import opened EvalState
  import opened EvalLog

  // ---------------------------------------------------------------- what survives

  function KeptDatasets(state: State, tenant: string): map<U64, Dataset> {
    map d | d in state.datasets && state.datasets[d].tenant != tenant :: state.datasets[d]
  }

  function KeptVersions(state: State, tenant: string): map<string, Version> {
    map v | v in state.versions && state.versions[v].tenant != tenant :: state.versions[v]
  }

  function KeptLists(state: State, tenant: string): map<U64, seq<string>> {
    map d | d in state.versionsByDataset && d in KeptDatasets(state, tenant) :: state.versionsByDataset[d]
  }

  predicate ListsDigest(version: Version, digest: string) {
    exists i :: 0 <= i < |version.examples| && version.examples[i].1 == digest
  }

  /** Some surviving version still lists the body. */
  predicate BodySurvives(state: State, tenant: string, digest: string) {
    exists v :: v in state.versions && state.versions[v].tenant != tenant && ListsDigest(state.versions[v], digest)
  }

  function KeptExamples(state: State, tenant: string): map<string, Example> {
    map d | d in state.examples && BodySurvives(state, tenant, d) :: state.examples[d]
  }

  function KeptExperiments(state: State, tenant: string): map<U64, Experiment> {
    map e | e in state.experiments && state.experiments[e].tenant != tenant :: state.experiments[e]
  }

  function KeptRuns(runs: seq<Run>, tenant: string): seq<Run> {
    if runs == [] then []
    else KeptRuns(runs[..|runs| - 1], tenant) + if runs[|runs| - 1].tenant == tenant then [] else [runs[|runs| - 1]]
  }

  function KeptTombstones(state: State, tenant: string): map<string, Tombstone> {
    map t | t in state.tombstones && state.tombstones[t].tenant != tenant :: state.tombstones[t]
  }

  function FloorUnder(next: U64): U64 { if next >= 1 then next - 1 else 0 }

  /** Everything but what the tenant owns, and floors over every id given so far. */
  function Purged(state: State, tenant: string): State {
    State(KeptDatasets(state, tenant), KeptVersions(state, tenant), KeptLists(state, tenant),
          KeptExamples(state, tenant), KeptExperiments(state, tenant), KeptRuns(state.runs, tenant),
          KeptTombstones(state, tenant), FloorUnder(NextDatasetId(state)), FloorUnder(NextExperimentId(state)),
          RefsOfBodies(KeptExamples(state, tenant)))
  }

  // ---------------------------------------------------------------- writing the survivors

  /** What a loop over a map's keys has done: all it keeps but what is left. */
  function Done<K, V>(kept: map<K, V>, left: set<K>): map<K, V> { kept - left }

  lemma OneDone<K, V>(kept: map<K, V>, left: set<K>, key: K)
    requires key in left
    ensures Done(kept, left - {key}) == if key in kept then Done(kept, left)[key := kept[key]] else Done(kept, left)
    ensures key !in Done(kept, left)
  {
  }

  lemma NoneDone<K, V>(kept: map<K, V>, all: set<K>)
    requires kept.Keys <= all
    ensures Done(kept, all) == map[] && Done(kept, {}) == kept
  {
  }

  /** The log so far is lawful and replays to this. */
  ghost predicate Writes(hash: Hash, log: seq<LogRecord>, state: State) {
    Lawful(hash, EMPTY, log) && Replay(log) == state
  }

  lemma WriteOne(hash: Hash, log: seq<LogRecord>, state: State, record: LogRecord)
    requires Writes(hash, log, state) && Admits(hash, state, record)
    ensures Writes(hash, log + [record], Applied(state, record))
  {
    hide Admits, Applied, Lawful, Replayed;
    LawfulOne(hash, EMPTY, log, record);
    ReplayedOne(EMPTY, log, record);
  }

  method WriteDatasets(ghost hash: Hash, state: State, tenant: string, written: seq<LogRecord>, ghost base: State)
    returns (log: seq<LogRecord>)
    requires DatasetsKeyed(state) && Writes(hash, written, base) && base.datasets == map[]
    ensures written <= log && Writes(hash, log, base.(datasets := KeptDatasets(state, tenant)))
  {
    hide Writes, Done;
    log := written;
    ghost var kept := KeptDatasets(state, tenant);
    var left := state.datasets.Keys;
    NoneDone(kept, left);
    assert base.(datasets := map[]) == base;
    while left != {}
      invariant left <= state.datasets.Keys && written <= log && Writes(hash, log, base.(datasets := Done(kept, left)))
    {
      var id :| id in left;
      OneDone(kept, left, id);
      if state.datasets[id].tenant != tenant {
        var record := OfDataset(state.datasets[id]);
        WriteOne(hash, log, base.(datasets := Done(kept, left)), record);
        log := log + [record];
      }
      left := left - {id};
    }
  }

  method WriteExamples(ghost hash: Hash, state: State, tenant: string, written: seq<LogRecord>, ghost base: State)
    returns (log: seq<LogRecord>)
    requires BodiesKeyed(hash, state) && Writes(hash, written, base)
    requires base.examples == map[] && base.payloadRefs == {}
    ensures var kept := KeptExamples(state, tenant);
            written <= log && Writes(hash, log, base.(examples := kept, payloadRefs := RefsOfBodies(kept)))
  {
    NoRefs();
    hide Writes, Done, Digest, BodyRefs, RefsOfBodies, BodySurvives;
    log := written;
    ghost var kept := KeptExamples(state, tenant);
    var left := state.examples.Keys;
    NoneDone(kept, left);
    assert base.(examples := map[], payloadRefs := {}) == base;
    while left != {}
      invariant left <= state.examples.Keys
      invariant written <= log && Writes(hash, log, WithBodies(base, Done(kept, left)))
    {
      var digest :| digest in left;
      OneDone(kept, left, digest);
      if BodySurvives(state, tenant, digest) {
        var record := OfExample(state.examples[digest]);
        WriteOne(hash, log, WithBodies(base, Done(kept, left)), record);
        RefsOfMore(Done(kept, left), state.examples[digest]);
        log := log + [record];
      }
      left := left - {digest};
    }
  }

  function WithBodies(state: State, examples: map<string, Example>): State {
    state.(examples := examples, payloadRefs := RefsOfBodies(examples))
  }

  lemma NoRefs()
    ensures RefsOfBodies(map[]) == {}
  {
  }

  method WriteExperiments(ghost hash: Hash, state: State, tenant: string, written: seq<LogRecord>, ghost base: State)
    returns (log: seq<LogRecord>)
    requires Valid(hash, state) && Writes(hash, written, base)
    requires base.experiments == map[] && base.datasets == KeptDatasets(state, tenant)
    requires base.versions == KeptVersions(state, tenant)
    ensures written <= log && Writes(hash, log, base.(experiments := KeptExperiments(state, tenant)))
  {
    hide Writes, Done, Valid, ExperimentSound;
    log := written;
    ghost var kept := KeptExperiments(state, tenant);
    var left := state.experiments.Keys;
    NoneDone(kept, left);
    assert base.(experiments := map[]) == base;
    while left != {}
      invariant left <= state.experiments.Keys && written <= log
                && Writes(hash, log, base.(experiments := Done(kept, left)))
    {
      var id :| id in left;
      OneDone(kept, left, id);
      if state.experiments[id].tenant != tenant {
        var record := OfExperiment(state.experiments[id]);
        ExperimentSurvives(hash, state, tenant, base.(experiments := Done(kept, left)), id);
        WriteOne(hash, log, base.(experiments := Done(kept, left)), record);
        log := log + [record];
      }
      left := left - {id};
    }
  }

  /** A version is of its dataset's tenant, so an experiment survives with both. */
  lemma ExperimentSurvives(hash: Hash, state: State, tenant: string, partial: State, id: U64)
    requires Valid(hash, state) && id in state.experiments && state.experiments[id].tenant != tenant
    requires partial.datasets == KeptDatasets(state, tenant) && partial.versions == KeptVersions(state, tenant)
    ensures ExperimentSound(partial, state.experiments[id]) && state.experiments[id].experimentId == id
  {
    hide Less, Digest, VersionId, BodiesKeyed, RefsOfBodies, VersionsListed, ParentsEarlier, RunsSound, TombstonesSound;
    var experiment := state.experiments[id];
    assert VersionSound(hash, state, state.versions[experiment.datasetVersion]);
  }

  method WriteRuns(ghost hash: Hash, state: State, tenant: string, written: seq<LogRecord>, ghost base: State)
    returns (log: seq<LogRecord>)
    requires Valid(hash, state) && Writes(hash, written, base) && base.runs == []
    requires base.datasets == KeptDatasets(state, tenant) && base.experiments == KeptExperiments(state, tenant)
    requires base.versions == KeptVersions(state, tenant)
    ensures written <= log && Writes(hash, log, base.(runs := KeptRuns(state.runs, tenant)))
  {
    log := written;
    assert base.(runs := []) == base;
    assert KeptRuns(state.runs[..0], tenant) == [];
    assert state.runs[..|state.runs|] == state.runs;
    assert RunsWritten(hash, log, base, state.runs[..0], tenant);
    hide Writes, Valid, KeptDatasets, KeptVersions, KeptExperiments, RunsWritten, KeptRuns;
    for i := 0 to |state.runs|
      invariant written <= log && RunsWritten(hash, log, base, state.runs[..i], tenant)
    {
      RunWritten(hash, state, tenant, log, base, i);
      if state.runs[i].tenant != tenant {
        log := log + [OfRun(state.runs[i])];
      }
    }
    WroteRuns(hash, log, base, state.runs, tenant);
  }

  ghost predicate RunsWritten(hash: Hash, log: seq<LogRecord>, base: State, runs: seq<Run>, tenant: string) {
    Writes(hash, log, base.(runs := KeptRuns(runs, tenant)))
  }

  lemma WroteRuns(hash: Hash, log: seq<LogRecord>, base: State, runs: seq<Run>, tenant: string)
    requires RunsWritten(hash, log, base, runs, tenant)
    ensures Writes(hash, log, base.(runs := KeptRuns(runs, tenant)))
  {
    hide Writes;
  }

  lemma RunWritten(hash: Hash, state: State, tenant: string, log: seq<LogRecord>, base: State, i: nat)
    requires Valid(hash, state) && i < |state.runs|
    requires RunsWritten(hash, log, base, state.runs[..i], tenant)
    requires base.datasets == KeptDatasets(state, tenant) && base.experiments == KeptExperiments(state, tenant)
    requires base.versions == KeptVersions(state, tenant)
    ensures RunsWritten(hash, if state.runs[i].tenant != tenant then log + [OfRun(state.runs[i])] else log, base,
                        state.runs[..i + 1], tenant)
  {
    hide Writes, Valid, RunSound, Admits, KeptDatasets, KeptVersions, KeptExperiments, KeptRuns;
    KeptRunsNext(state.runs, tenant, i);
    if state.runs[i].tenant != tenant {
      RunSurvives(hash, state, tenant, base.(runs := KeptRuns(state.runs[..i], tenant)), i);
      WriteOne(hash, log, base.(runs := KeptRuns(state.runs[..i], tenant)), OfRun(state.runs[i]));
    }
  }

  lemma KeptRunsNext(runs: seq<Run>, tenant: string, i: nat)
    requires i < |runs|
    ensures KeptRuns(runs[..i + 1], tenant)
            == if runs[i].tenant == tenant then KeptRuns(runs[..i], tenant) else KeptRuns(runs[..i], tenant) + [runs[i]]
  {
    assert runs[..i + 1][..i] == runs[..i];
  }

  lemma RunSurvives(hash: Hash, state: State, tenant: string, partial: State, i: nat)
    requires Valid(hash, state) && i < |state.runs| && state.runs[i].tenant != tenant
    requires partial.datasets == KeptDatasets(state, tenant) && partial.experiments == KeptExperiments(state, tenant)
    requires partial.versions == KeptVersions(state, tenant)
    ensures RunSound(partial, state.runs[i]) && Admits(hash, partial, OfRun(state.runs[i]))
  {
    hide Lists, BodiesKeyed, RefsOfBodies, VersionsListed, ParentsEarlier, VersionsSound, TombstonesSound;
    assert RunSound(state, state.runs[i]);
    ExperimentSurvives(hash, state, tenant, partial, state.runs[i].experimentId);
  }

  method WriteTombstones(ghost hash: Hash, state: State, tenant: string, written: seq<LogRecord>, ghost base: State)
    returns (log: seq<LogRecord>)
    requires Valid(hash, state) && Writes(hash, written, base) && base.tombstones == map[]
    requires base.datasets == KeptDatasets(state, tenant) && base.versions == KeptVersions(state, tenant)
    ensures written <= log && Writes(hash, log, base.(tombstones := KeptTombstones(state, tenant)))
  {
    hide Writes, Done, Valid, TombstoneSound;
    log := written;
    ghost var kept := KeptTombstones(state, tenant);
    var left := state.tombstones.Keys;
    NoneDone(kept, left);
    assert base.(tombstones := map[]) == base;
    while left != {}
      invariant left <= state.tombstones.Keys && written <= log
                && Writes(hash, log, base.(tombstones := Done(kept, left)))
    {
      var id :| id in left;
      OneDone(kept, left, id);
      if state.tombstones[id].tenant != tenant {
        var record := OfTombstone(state.tombstones[id]);
        TombstoneSurvives(hash, state, tenant, base.(tombstones := Done(kept, left)), id);
        WriteOne(hash, log, base.(tombstones := Done(kept, left)), record);
        log := log + [record];
      }
      left := left - {id};
    }
  }

  lemma TombstoneSurvives(hash: Hash, state: State, tenant: string, partial: State, id: string)
    requires Valid(hash, state) && id in state.tombstones && state.tombstones[id].tenant != tenant
    requires partial.datasets == KeptDatasets(state, tenant) && partial.versions == KeptVersions(state, tenant)
    ensures TombstoneSound(partial, state.tombstones[id]) && state.tombstones[id].versionId == id
  {
    hide Less, Digest, VersionId, BodiesKeyed, RefsOfBodies, VersionsListed, ParentsEarlier, RunsSound,
         ExperimentsSound;
    assert TombstoneSound(state, state.tombstones[id]);
    assert VersionSound(hash, state, state.versions[id]);
  }

  /** The versions a dataset's list has come to, in order. */
  function ListedVersions(state: State, ids: seq<string>): map<string, Version>
    requires forall i :: 0 <= i < |ids| ==> ids[i] in state.versions
  {
    map v | v in ids :: state.versions[v]
  }

  /** The survivors with the first versions of one more dataset's list. */
  function WithVersions(base: State, state: State, d: U64, ids: seq<string>): State
    requires forall i :: 0 <= i < |ids| ==> ids[i] in state.versions
  {
    if ids == [] then base
    else base.(versions := base.versions + ListedVersions(state, ids),
               versionsByDataset := base.versionsByDataset[d := ids])
  }

  /** A surviving dataset's list: versions of it, each once, every one a survivor. */
  lemma ListSurvives(hash: Hash, state: State, tenant: string, d: U64)
    requires Valid(hash, state) && d in KeptLists(state, tenant)
    ensures var ids := state.versionsByDataset[d];
            && Distinct(ids)
            && forall k :: 0 <= k < |ids| ==> ids[k] in state.versions && state.versions[ids[k]].datasetId == d
                                              && state.versions[ids[k]].versionId == ids[k]
                                              && state.versions[ids[k]].tenant != tenant
  {
    hide Less, Digest, VersionId, BodiesKeyed, RefsOfBodies, ParentsEarlier, RunsSound, ExperimentsSound,
         TombstonesSound, Distinct;
    var ids := state.versionsByDataset[d];
    forall k | 0 <= k < |ids|
      ensures ids[k] in state.versions && state.versions[ids[k]].datasetId == d
      ensures state.versions[ids[k]].versionId == ids[k] && state.versions[ids[k]].tenant != tenant
    {
      assert ids[k] in VersionsOf(state, d);
      assert VersionSound(hash, state, state.versions[ids[k]]);
    }
  }

  lemma BodiesSurvive(hash: Hash, state: State, tenant: string, partial: State, v: string)
    requires Valid(hash, state) && v in state.versions && state.versions[v].tenant != tenant
    requires partial.datasets == KeptDatasets(state, tenant) && partial.examples == KeptExamples(state, tenant)
    ensures VersionSound(hash, partial, state.versions[v])
  {
    hide Less, Digest, VersionId, BodiesKeyed, RefsOfBodies, VersionsListed, ParentsEarlier, RunsSound,
         ExperimentsSound, TombstonesSound;
    var version := state.versions[v];
    assert VersionSound(hash, state, version);
    forall i | 0 <= i < |version.examples|
      ensures version.examples[i].1 in partial.examples
    {
      assert ListsDigest(version, version.examples[i].1);
      assert BodySurvives(state, tenant, version.examples[i].1);
    }
  }

  /** A parent was written before its child. */
  lemma ParentListed(hash: Hash, state: State, d: U64, i: nat)
    requires Valid(hash, state) && d in state.versionsByDataset
    requires var ids := state.versionsByDataset[d];
             i < |ids| && Distinct(ids) && ids[i] in state.versions && state.versions[ids[i]].datasetId == d
             && state.versions[ids[i]].parent.Some?
    ensures var ids := state.versionsByDataset[d]; state.versions[ids[i]].parent.value in ids[..i]
  {
    hide BodiesKeyed, RefsOfBodies, RunsSound, ExperimentsSound, TombstonesSound, VersionsSound, VersionsListed;
    var ids := state.versionsByDataset[d];
    var p := state.versions[ids[i]].parent.value;
    assert Before(ids, p, ids[i]);
    var j, k :| 0 <= j < k < |ids| && ids[j] == p && ids[k] == ids[i];
    assert k == i;
    assert ids[..i][j] == p;
  }

  /** What a dataset's next version meets, and what it leaves. */
  lemma VersionSurvives(hash: Hash, state: State, tenant: string, base: State, d: U64, i: nat)
    requires Valid(hash, state) && d in KeptLists(state, tenant) && i < |state.versionsByDataset[d]|
    requires base.datasets == KeptDatasets(state, tenant) && base.examples == KeptExamples(state, tenant)
    requires d !in base.versionsByDataset
    requires forall v :: v in base.versions ==> v in state.versions && state.versions[v].datasetId != d
    ensures var ids := state.versionsByDataset[d];
            && (forall k :: 0 <= k < |ids| ==> ids[k] in state.versions)
            && Admits(hash, WithVersions(base, state, d, ids[..i]), OfVersion(state.versions[ids[i]]))
            && Applied(WithVersions(base, state, d, ids[..i]), OfVersion(state.versions[ids[i]]))
               == WithVersions(base, state, d, ids[..i + 1])
  {
    hide Valid, VersionSound, Without, KeptLists, KeptDatasets, KeptExamples, Applied, VersionsOf;
    ListKept(state, tenant, d);
    ListSurvives(hash, state, tenant, d);
    var ids := state.versionsByDataset[d];
    var version := state.versions[ids[i]];
    BodiesSurvive(hash, state, tenant, WithVersions(base, state, d, ids[..i]), ids[i]);
    if version.parent.Some? {
      ParentListed(hash, state, d, i);
    }
    NotYet(ids, i);
    hide Distinct;
    WithOneMore(base, state, d, ids, i);
  }

  lemma ListKept(state: State, tenant: string, d: U64)
    requires d in KeptLists(state, tenant)
    ensures d in state.versionsByDataset && KeptLists(state, tenant)[d] == state.versionsByDataset[d]
  {
  }

  lemma NotYet(ids: seq<string>, i: nat)
    requires Distinct(ids) && i < |ids|
    ensures ids[i] !in ids[..i]
  {
  }

  lemma MapGrows<K, V>(base: map<K, V>, more: map<K, V>, k: K, v: V)
    ensures (base + more)[k := v] == base + more[k := v]
  {
  }

  lemma MapAgain<K, V>(base: map<K, V>, k: K, v: V, w: V)
    ensures base[k := v][k := w] == base[k := w]
  {
  }

  lemma ListedMore(state: State, ids: seq<string>, i: nat)
    requires i < |ids| && forall k :: 0 <= k < |ids| ==> ids[k] in state.versions
    ensures ListedVersions(state, ids[..i + 1]) == ListedVersions(state, ids[..i])[ids[i] := state.versions[ids[i]]]
  {
    assert ids[..i + 1] == ids[..i] + [ids[i]];
  }

  lemma NothingListed(versions: map<string, Version>, state: State)
    ensures versions + ListedVersions(state, []) == versions
  {
  }

  lemma AppliedVersion(state: State, version: Version, ids: seq<string>)
    requires VersionsOf(state, version.datasetId) == ids && version.versionId !in ids
    ensures Applied(state, OfVersion(version))
            == state.(versions := state.versions[version.versionId := version],
                      versionsByDataset := state.versionsByDataset[version.datasetId := ids + [version.versionId]])
  {
  }

  lemma WithOneMore(base: State, state: State, d: U64, ids: seq<string>, i: nat)
    requires i < |ids| && ids[i] !in ids[..i] && forall k :: 0 <= k < |ids| ==> ids[k] in state.versions
    requires state.versions[ids[i]].versionId == ids[i] && state.versions[ids[i]].datasetId == d
    requires d !in base.versionsByDataset
    ensures Applied(WithVersions(base, state, d, ids[..i]), OfVersion(state.versions[ids[i]]))
            == WithVersions(base, state, d, ids[..i + 1])
  {
    var partial, version := WithVersions(base, state, d, ids[..i]), state.versions[ids[i]];
    AppliedVersion(partial, version, ids[..i]);
    ListedMore(state, ids, i);
    MapGrows(base.versions, ListedVersions(state, ids[..i]), ids[i], version);
    assert ids[..i] + [ids[i]] == ids[..i + 1];
    MapAgain(base.versionsByDataset, d, ids[..i], ids[..i + 1]);
    if i == 0 {
      NothingListed(base.versions, state);
    }
    hide ListedVersions, Applied, VersionsOf;
  }

  lemma WithNoVersions(base: State, state: State, d: U64)
    requires d in state.versionsByDataset && d !in base.versionsByDataset
    ensures WithVersions(base, state, d, state.versionsByDataset[d][..0]) == base
  {
  }

  /** Writes one dataset's surviving versions in their order. */
  method WriteList(ghost hash: Hash, state: State, tenant: string, d: U64, written: seq<LogRecord>, ghost base: State)
    returns (log: seq<LogRecord>)
    requires Valid(hash, state) && d in state.versionsByDataset && Writes(hash, written, base)
    requires base.datasets == KeptDatasets(state, tenant) && base.examples == KeptExamples(state, tenant)
    requires d !in base.versionsByDataset
    requires forall v :: v in base.versions ==> v in state.versions && state.versions[v].datasetId != d
    ensures d !in KeptLists(state, tenant) ==> log == written
    ensures d in KeptLists(state, tenant) ==>
              (forall k :: 0 <= k < |state.versionsByDataset[d]| ==> state.versionsByDataset[d][k] in state.versions)
              && written <= log && Writes(hash, log, WithVersions(base, state, d, state.versionsByDataset[d]))
  {
    hide Writes, Valid, KeptExamples, KeptDatasets, KeptLists, Applied, Admits, WithVersions;
    log := written;
    WithNoVersions(base, state, d);
    var ids := state.versionsByDataset[d];
    ghost var survives := d in KeptLists(state, tenant);
    ListTenant(hash, state, tenant, d);
    for i := 0 to |ids|
      invariant !survives ==> log == written
      invariant survives ==> written <= log && Writes(hash, log, WithVersions(base, state, d, ids[..i]))
    {
      if ids[i] in state.versions && state.versions[ids[i]].tenant != tenant {
        VersionSurvives(hash, state, tenant, base, d, i);
        WriteOne(hash, log, WithVersions(base, state, d, ids[..i]), OfVersion(state.versions[ids[i]]));
        log := log + [OfVersion(state.versions[ids[i]])];
      }
    }
    assert ids[..|ids|] == ids;
  }

  /** The versions of one dataset all survive, or none does. */
  lemma ListTenant(hash: Hash, state: State, tenant: string, d: U64)
    requires Valid(hash, state) && d in state.versionsByDataset
    ensures forall k :: 0 <= k < |state.versionsByDataset[d]| ==>
              state.versionsByDataset[d][k] in state.versions
              && (state.versions[state.versionsByDataset[d][k]].tenant != tenant <==> d in KeptLists(state, tenant))
  {
    hide Less, Digest, VersionId, BodiesKeyed, RefsOfBodies, ParentsEarlier, RunsSound, ExperimentsSound,
         TombstonesSound, Distinct;
    var ids := state.versionsByDataset[d];
    forall k | 0 <= k < |ids|
      ensures ids[k] in state.versions
      ensures state.versions[ids[k]].tenant != tenant <==> d in KeptLists(state, tenant)
    {
      assert ids[k] in VersionsOf(state, d);
      assert VersionSound(hash, state, state.versions[ids[k]]);
    }
  }

  /** The surviving versions of the datasets that are done. */
  function VersionsDone(state: State, tenant: string, left: set<U64>): map<string, Version> {
    map v | v in KeptVersions(state, tenant) && state.versions[v].datasetId !in left :: state.versions[v]
  }

  function ListsDone(base: State, state: State, tenant: string, left: set<U64>): State {
    base.(versions := VersionsDone(state, tenant, left), versionsByDataset := Done(KeptLists(state, tenant), left))
  }

  lemma ListDone(hash: Hash, base: State, state: State, tenant: string, left: set<U64>, d: U64)
    requires Valid(hash, state) && d in left && d in state.versionsByDataset
    requires forall k :: 0 <= k < |state.versionsByDataset[d]| ==> state.versionsByDataset[d][k] in state.versions
    ensures ListsDone(base, state, tenant, left - {d})
            == if d in KeptLists(state, tenant)
               then WithVersions(ListsDone(base, state, tenant, left), state, d, state.versionsByDataset[d])
               else ListsDone(base, state, tenant, left)
  {
    hide Done, Valid, KeptDatasets, KeptLists, ListedVersions, VersionsDone;
    ListTenant(hash, state, tenant, d);
    OneDone(KeptLists(state, tenant), left, d);
    ListIs(hash, state, d);
    ListKeptWhen(state, tenant, d);
    VersionsOneDone(state, tenant, left, d, d in KeptLists(state, tenant));
  }

  lemma ListKeptWhen(state: State, tenant: string, d: U64)
    ensures d in KeptLists(state, tenant) ==>
            d in state.versionsByDataset && KeptLists(state, tenant)[d] == state.versionsByDataset[d]
  {
  }

  lemma VersionsOneDone(state: State, tenant: string, left: set<U64>, d: U64, survives: bool)
    requires d in left && d in state.versionsByDataset
    requires forall v :: v in state.versionsByDataset[d] <==> v in state.versions && state.versions[v].datasetId == d
    requires forall v :: v in state.versionsByDataset[d] ==> (state.versions[v].tenant != tenant <==> survives)
    ensures VersionsDone(state, tenant, left - {d})
            == if survives then VersionsDone(state, tenant, left) + ListedVersions(state, state.versionsByDataset[d])
               else VersionsDone(state, tenant, left)
  {
  }

  lemma ListIs(hash: Hash, state: State, d: U64)
    requires Valid(hash, state) && d in state.versionsByDataset
    ensures state.versionsByDataset[d] != []
    ensures forall v :: v in state.versionsByDataset[d] <==> v in state.versions && state.versions[v].datasetId == d
  {
    hide BodiesKeyed, RefsOfBodies, ParentsEarlier, RunsSound, ExperimentsSound, TombstonesSound, VersionsSound,
         Distinct;
    assert forall v :: v in VersionsOf(state, d) <==> v in state.versions && state.versions[v].datasetId == d;
  }

  lemma ListsStart(hash: Hash, base: State, state: State, tenant: string)
    requires Valid(hash, state)
    ensures VersionsDone(state, tenant, state.versionsByDataset.Keys) == map[]
    ensures VersionsDone(state, tenant, {}) == KeptVersions(state, tenant)
  {
    hide BodiesKeyed, RefsOfBodies, ParentsEarlier, RunsSound, ExperimentsSound, TombstonesSound, VersionsSound,
         Distinct;
    forall v | v in state.versions
      ensures state.versions[v].datasetId in state.versionsByDataset
    {
      assert v in VersionsOf(state, state.versions[v].datasetId);
    }
  }

  method WriteVersions(ghost hash: Hash, state: State, tenant: string, written: seq<LogRecord>, ghost base: State)
    returns (log: seq<LogRecord>)
    requires Valid(hash, state) && Writes(hash, written, base)
    requires base.datasets == KeptDatasets(state, tenant) && base.examples == KeptExamples(state, tenant)
    requires base.versions == map[] && base.versionsByDataset == map[]
    ensures written <= log
    ensures Writes(hash, log,
                   base.(versions := KeptVersions(state, tenant), versionsByDataset := KeptLists(state, tenant)))
  {
    hide Writes, Done, Valid, KeptLists, KeptDatasets, KeptExamples, WithVersions;
    log := written;
    var left := state.versionsByDataset.Keys;
    assert KeptLists(state, tenant).Keys <= left by { ListsKept(state, tenant); }
    NoneDone(KeptLists(state, tenant), left);
    ListsStart(hash, base, state, tenant);
    assert ListsDone(base, state, tenant, left) == base;
    while left != {}
      invariant left <= state.versionsByDataset.Keys && written <= log
                && Writes(hash, log, ListsDone(base, state, tenant, left))
    {
      var d :| d in left;
      OneDone(KeptLists(state, tenant), left, d);
      ListTenant(hash, state, tenant, d);
      log := WriteList(hash, state, tenant, d, log, ListsDone(base, state, tenant, left));
      ListDone(hash, base, state, tenant, left, d);
      left := left - {d};
    }
  }

  lemma ListsKept(state: State, tenant: string)
    ensures KeptLists(state, tenant).Keys <= state.versionsByDataset.Keys
  {
  }

  // ---------------------------------------------------------------- the purge

  function Size(state: State): nat {
    |state.datasets| + |state.experiments| + |state.versions| + |state.tombstones| + |state.runs| + |state.examples|
  }

  lemma KeptAndDropped<K, V>(whole: map<K, V>, kept: map<K, V>, dropped: set<K>)
    requires dropped == whole.Keys - kept.Keys && kept.Keys <= whole.Keys
    ensures |whole| == |kept| + |dropped|
  {
    assert whole.Keys == kept.Keys + dropped && kept.Keys !! dropped;
    assert |whole.Keys| == |whole| && |kept.Keys| == |kept|;
  }

  /** Nothing of the tenant is left, and no body without a version that lists it. */
  ghost predicate NothingToPurge(state: State, tenant: string) {
    && (forall d :: d in state.datasets ==> state.datasets[d].tenant != tenant)
    && (forall v :: v in state.versions ==> state.versions[v].tenant != tenant)
    && (forall e :: e in state.experiments ==> state.experiments[e].tenant != tenant)
    && (forall i :: 0 <= i < |state.runs| ==> state.runs[i].tenant != tenant)
    && (forall t :: t in state.tombstones ==> state.tombstones[t].tenant != tenant)
    && (forall d :: d in state.examples ==> BodySurvives(state, tenant, d))
  }

  function DroppedBodies(state: State, tenant: string): map<string, Example> {
    map d | d in state.examples && !BodySurvives(state, tenant, d) :: state.examples[d]
  }

  lemma {:induction false} RunsCounted(runs: seq<Run>, tenant: string)
    ensures |KeptRuns(runs, tenant)| <= |runs|
    ensures |KeptRuns(runs, tenant)| == |runs| <==> forall i :: 0 <= i < |runs| ==> runs[i].tenant != tenant
    ensures forall i :: 0 <= i < |KeptRuns(runs, tenant)| ==> KeptRuns(runs, tenant)[i].tenant != tenant
  {
    if runs != [] {
      var n := |runs| - 1;
      RunsCounted(runs[..n], tenant);
      assert runs == runs[..n] + [runs[n]];
    }
  }

  lemma DatasetsCounted(state: State, tenant: string, doomed: set<U64>)
    requires doomed == set d | d in state.datasets && state.datasets[d].tenant == tenant
    ensures |state.datasets| == |KeptDatasets(state, tenant)| + |doomed|
    ensures |doomed| == 0 <==> forall d :: d in state.datasets ==> state.datasets[d].tenant != tenant
  {
    KeptAndDropped(state.datasets, KeptDatasets(state, tenant), doomed);
    assert doomed == {} <==> forall d :: d in state.datasets ==> state.datasets[d].tenant != tenant;
  }

  lemma ExperimentsCounted(state: State, tenant: string, doomed: set<U64>)
    requires doomed == set e | e in state.experiments && state.experiments[e].tenant == tenant
    ensures |state.experiments| == |KeptExperiments(state, tenant)| + |doomed|
    ensures |doomed| == 0 <==> forall e :: e in state.experiments ==> state.experiments[e].tenant != tenant
  {
    KeptAndDropped(state.experiments, KeptExperiments(state, tenant), doomed);
    assert doomed == {} <==> forall e :: e in state.experiments ==> state.experiments[e].tenant != tenant;
  }

  lemma VersionsCounted(state: State, tenant: string, doomed: set<string>)
    requires doomed == set v | v in state.versions && state.versions[v].tenant == tenant
    ensures |state.versions| == |KeptVersions(state, tenant)| + |doomed|
    ensures |doomed| == 0 <==> forall v :: v in state.versions ==> state.versions[v].tenant != tenant
  {
    KeptAndDropped(state.versions, KeptVersions(state, tenant), doomed);
    assert doomed == {} <==> forall v :: v in state.versions ==> state.versions[v].tenant != tenant;
  }

  lemma TombstonesCounted(state: State, tenant: string, doomed: set<string>)
    requires doomed == set t | t in state.tombstones && state.tombstones[t].tenant == tenant
    ensures |state.tombstones| == |KeptTombstones(state, tenant)| + |doomed|
    ensures |doomed| == 0 <==> forall t :: t in state.tombstones ==> state.tombstones[t].tenant != tenant
  {
    KeptAndDropped(state.tombstones, KeptTombstones(state, tenant), doomed);
    assert doomed == {} <==> forall t :: t in state.tombstones ==> state.tombstones[t].tenant != tenant;
  }

  lemma BodiesCounted(state: State, tenant: string, doomed: set<string>)
    requires doomed == set d | d in state.examples && !BodySurvives(state, tenant, d)
    ensures |state.examples| == |KeptExamples(state, tenant)| + |doomed|
    ensures |doomed| == 0 <==> forall d :: d in state.examples ==> BodySurvives(state, tenant, d)
  {
    hide BodySurvives;
    KeptAndDropped(state.examples, KeptExamples(state, tenant), doomed);
    assert doomed == {} <==> forall d :: d in state.examples ==> BodySurvives(state, tenant, d);
  }

  /** How many records the tenant's removal drops, kind by kind. */
  method CountDoomed(state: State, tenant: string) returns (removed: nat)
    ensures removed + Size(Purged(state, tenant)) == Size(state)
    ensures removed == 0 <==> NothingToPurge(state, tenant)
  {
    hide BodySurvives, RefsOfBodies, NextId, KeptLists, KeptDatasets, KeptExperiments, KeptVersions, KeptTombstones,
         KeptExamples, KeptRuns;
    var datasets := set d | d in state.datasets && state.datasets[d].tenant == tenant;
    DatasetsCounted(state, tenant, datasets);
    var experiments := set e | e in state.experiments && state.experiments[e].tenant == tenant;
    ExperimentsCounted(state, tenant, experiments);
    var versions := set v | v in state.versions && state.versions[v].tenant == tenant;
    VersionsCounted(state, tenant, versions);
    var tombstones := set t | t in state.tombstones && state.tombstones[t].tenant == tenant;
    TombstonesCounted(state, tenant, tombstones);
    var runs := CountRuns(state.runs, tenant);
    var bodies := set d | d in state.examples && !BodySurvives(state, tenant, d);
    BodiesCounted(state, tenant, bodies);
    removed := |datasets| + |experiments| + |versions| + |tombstones| + runs + |bodies|;
  }

  method CountRuns(runs: seq<Run>, tenant: string) returns (doomed: nat)
    ensures doomed + |KeptRuns(runs, tenant)| == |runs|
    ensures doomed == 0 <==> forall i :: 0 <= i < |runs| ==> runs[i].tenant != tenant
  {
    doomed := 0;
    for i := 0 to |runs|
      invariant doomed + |KeptRuns(runs[..i], tenant)| == i
    {
      KeptRunsNext(runs, tenant, i);
      if runs[i].tenant == tenant {
        doomed := doomed + 1;
      }
    }
    assert runs[..|runs|] == runs;
    RunsCounted(runs, tenant);
  }

  /** A body either survives or goes, so a reference carried before is carried after or reported as dropped. */
  lemma RefsAccountedFor(state: State, tenant: string)
    ensures RefsOfBodies(state.examples)
            == RefsOfBodies(KeptExamples(state, tenant)) + RefsOfBodies(DroppedBodies(state, tenant))
  {
    hide BodySurvives, BodyRefs;
    var kept, dropped := KeptExamples(state, tenant), DroppedBodies(state, tenant);
    forall r
      ensures r in RefsOfBodies(state.examples) <==> r in RefsOfBodies(kept) || r in RefsOfBodies(dropped)
    {
      if d :| d in state.examples && r in BodyRefs(state.examples[d].body) {
        assert d in kept || d in dropped;
        assert d in kept ==> r in BodyRefs(kept[d].body);
        assert d in dropped ==> r in BodyRefs(dropped[d].body);
      }
      if d :| d in kept && r in BodyRefs(kept[d].body) {
        assert d in state.examples && r in BodyRefs(state.examples[d].body);
      }
      if d :| d in dropped && r in BodyRefs(dropped[d].body) {
        assert d in state.examples && r in BodyRefs(state.examples[d].body);
      }
    }
  }

  /** A purged state has nothing left to purge. */
  lemma PurgedIsClean(state: State, tenant: string)
    ensures NothingToPurge(Purged(state, tenant), tenant)
  {
    hide ListsDigest, RefsOfBodies, NextId, KeptLists;
    RunsCounted(state.runs, tenant);
    var purged := Purged(state, tenant);
    forall d | d in purged.examples
      ensures BodySurvives(purged, tenant, d)
    {
      assert BodySurvives(state, tenant, d);
      var v :| v in state.versions && state.versions[v].tenant != tenant && ListsDigest(state.versions[v], d);
      assert v in purged.versions;
    }
  }

  /** The survivors as log records, behind a record of the id floors. */
  method WriteSurvivors(ghost hash: Hash, state: State, tenant: string, counters: LogRecord)
    returns (log: seq<LogRecord>)
    requires Valid(hash, state)
    requires counters == OfCounters(FloorUnder(NextDatasetId(state)), FloorUnder(NextExperimentId(state)))
    ensures Writes(hash, log, Purged(state, tenant)) && [counters] <= log
  {
    WriteCounters(hash, counters);
    ValidParts(hash, state);
    PurgedParts(state, tenant, counters);
    hide Writes, KeptDatasets, KeptVersions, KeptLists, KeptExamples, KeptExperiments, KeptRuns, KeptTombstones,
         RefsOfBodies, NextId, Valid, DatasetsKeyed, BodiesKeyed, Purged, Applied;
    log := [counters];
    ghost var base := Applied(EMPTY, counters);
    log := WriteDatasets(hash, state, tenant, log, base);
    base := base.(datasets := KeptDatasets(state, tenant));
    log := WriteExamples(hash, state, tenant, log, base);
    ghost var bodies := KeptExamples(state, tenant);
    base := base.(examples := bodies, payloadRefs := RefsOfBodies(bodies));
    log := WriteVersions(hash, state, tenant, log, base);
    base := base.(versions := KeptVersions(state, tenant), versionsByDataset := KeptLists(state, tenant));
    log := WriteExperiments(hash, state, tenant, log, base);
    base := base.(experiments := KeptExperiments(state, tenant));
    log := WriteRuns(hash, state, tenant, log, base);
    base := base.(runs := KeptRuns(state.runs, tenant));
    log := WriteTombstones(hash, state, tenant, log, base);
    base := base.(tombstones := KeptTombstones(state, tenant));
  }

  /** What the survivors add up to from the floors on. */
  lemma PurgedParts(state: State, tenant: string, counters: LogRecord)
    requires counters == OfCounters(FloorUnder(NextDatasetId(state)), FloorUnder(NextExperimentId(state)))
    ensures var floors := Applied(EMPTY, counters);
            && floors == EMPTY.(datasetFloor := floors.datasetFloor, experimentFloor := floors.experimentFloor)
            && Purged(state, tenant) ==
               floors.(datasets := KeptDatasets(state, tenant), examples := KeptExamples(state, tenant),
                       payloadRefs := RefsOfBodies(KeptExamples(state, tenant)),
                       versions := KeptVersions(state, tenant), versionsByDataset := KeptLists(state, tenant),
                       experiments := KeptExperiments(state, tenant), runs := KeptRuns(state.runs, tenant),
                       tombstones := KeptTombstones(state, tenant))
  {
    hide KeptDatasets, KeptVersions, KeptLists, KeptExamples, KeptExperiments, KeptRuns, KeptTombstones, RefsOfBodies,
         NextId;
  }

  lemma WriteCounters(hash: Hash, counters: LogRecord)
    requires counters.OfCounters?
    ensures Writes(hash, [counters], Applied(EMPTY, counters))
  {
    assert Writes(hash, [], EMPTY);
    hide Writes, Applied;
    WriteOne(hash, [], EMPTY, counters);
    assert [] + [counters] == [counters];
  }

  lemma ValidParts(hash: Hash, state: State)
    requires Valid(hash, state)
    ensures DatasetsKeyed(state) && BodiesKeyed(hash, state) && state.payloadRefs == RefsOfBodies(state.examples)
  {
  }

  /** Starting from the floors is starting from nothing and reading them. */
  lemma FloorsFirst(log: seq<LogRecord>, datasetNext: U64, experimentNext: U64)
    requires [OfCounters(datasetNext, experimentNext)] <= log
    ensures Replayed(EMPTY.(datasetFloor := datasetNext, experimentFloor := experimentNext), log) == Replay(log)
  {
    var counters := OfCounters(datasetNext, experimentNext);
    var floors := EMPTY.(datasetFloor := datasetNext, experimentFloor := experimentNext);
    assert log == [counters] + log[1..];
    ReplayedAppend(EMPTY, [counters], log[1..]);
    ReplayedAppend(floors, [counters], log[1..]);
    assert [counters][..0] == [];
    assert Replayed(EMPTY, [counters]) == Applied(EMPTY, counters) == floors;
    assert Replayed(floors, [counters]) == Applied(floors, counters) == floors;
  }

  method ApplyAll(start: State, records: seq<LogRecord>) returns (state: State)
    ensures state == Replayed(start, records)
  {
    hide Applied;
    state := start;
    for i := 0 to |records|
      invariant state == Replayed(start, records[..i])
    {
      assert records[..i + 1] == records[..i] + [records[i]];
      ReplayedOne(start, records[..i], records[i]);
      state := Applied(state, records[i]);
    }
    assert records[..|records|] == records;
  }

  /** Leaves nothing of a tenant in memory or in the log, which is written anew. */
  method PurgeTenant(log: EvalLog, tenant: string) returns (removed: nat, dropped: set<string>)
    requires log.InStep() && Valid(log.hash, log.state)
    modifies log
    ensures log.InStep()
    ensures removed == 0 <==> NothingToPurge(old(log.state), tenant)
    ensures removed == 0 ==> log.state == old(log.state) && log.lines == old(log.lines) && dropped == {}
    ensures removed > 0 ==> Writes(log.hash, log.lines, Purged(old(log.state), tenant))
    ensures removed + Size(log.state) == Size(old(log.state))
    ensures old(log.state).payloadRefs == log.state.payloadRefs + dropped
    ensures NothingToPurge(log.state, tenant)
  {
    hide *;
    var state := log.state;
    RefsReported(log.hash, state, tenant);
    removed := CountDoomed(state, tenant);
    if removed == 0 {
      return 0, {};
    }
    dropped := RefsOfBodies(DroppedBodies(state, tenant));
    var datasetFloor, experimentFloor := FloorUnder(NextDatasetId(state)), FloorUnder(NextExperimentId(state));
    var records := WriteSurvivors(log.hash, state, tenant, OfCounters(datasetFloor, experimentFloor));
    FloorsFirst(records, datasetFloor, experimentFloor);
    var survivors := ApplyAll(EMPTY.(datasetFloor := datasetFloor, experimentFloor := experimentFloor), records);
    log.lines := records;
    log.state := survivors;
    NowInStep(log, Purged(state, tenant));
    PurgedIsClean(state, tenant);
  }

  lemma NowInStep(log: EvalLog, state: State)
    requires Writes(log.hash, log.lines, state) && log.state == Replay(log.lines)
    ensures log.InStep() && log.state == state
  {
  }

  lemma RefsReported(hash: Hash, state: State, tenant: string)
    requires Valid(hash, state)
    ensures state.payloadRefs == Purged(state, tenant).payloadRefs + RefsOfBodies(DroppedBodies(state, tenant))
  {
    ValidParts(hash, state);
    RefsAccountedFor(state, tenant);
    hide RefsOfBodies, Valid, KeptExamples, DroppedBodies, NextDatasetId, NextExperimentId;
  }
}
