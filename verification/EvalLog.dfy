/** The operations of the eval log (`EvalLog` of `src/evals.rs`): what each requires, what it appends, and that whatever
    part of an append reaches the disk, the log replays to a consistent state. */
module EvalLog {
  import opened Common
  import opened CanonicalJson
  import opened EvalState
  import opened EvalContent
  import Erasure

  datatype Refusal =
    | EmptyName | BadTenant | TenantPending | NoExamples | NoDataset | UnknownParent | ParentTombstoned
    | EmptyExampleId | DuplicateExample | PayloadPending | PayloadUnreachable | PayloadMissing
    | UnknownVersion | VersionTombstoned | EmptyTrace | NoExperiment | NotInManifest

  datatype NewExample = NewExample(exampleId: string, body: Body)

  datatype Outcome = Outcome(versionId: string, examples: nat, created: bool)

  predicate ValidTenant(tenant: string) {
    && 0 < |tenant| <= 64 && TenantStart(tenant[0])
    && forall i :: 0 < i < |tenant| ==> TenantStart(tenant[i]) || tenant[i] in {'.', '_', '-'}
  }

  predicate TenantStart(c: char) { 'a' <= c <= 'z' || '0' <= c <= '9' }

  /** A tenant's name is 1 to 64 ASCII codes of small letters, digits, dots, underscores and hyphens, the first one of a
      letter or a digit. */
  lemma TenantNames(tenant: string)
    ensures ValidTenant(tenant)
            <==> && tenant != "" && |tenant| < 65 && tenant[0] !in "._-"
                 && forall i :: 0 <= i < |tenant| ==>
                      97 <= tenant[i] as int <= 122 || 48 <= tenant[i] as int <= 57 || tenant[i] in "._-"
  {
    forall c: char
      ensures c in "._-" <==> c in {'.', '_', '-'}
    {
      assert "._-"[0] == '.' && "._-"[1] == '_' && "._-"[2] == '-';
    }
  }

  /** A pending erasure covers the tenant: its writes are refused, not raced. */
  predicate Barred(mask: Option<Erasure.Mask>, tenant: string) {
    mask.Some? && mask.value.CoversTenant(tenant)
  }

  /** A foreign entity is not found. */
  function DatasetInScope(state: State, scope: Option<string>, id: U64): Option<Dataset> {
    if id in state.datasets && (scope.None? || state.datasets[id].tenant == scope.value) then Some(state.datasets[id])
    else None
  }

  function ExperimentInScope(state: State, scope: Option<string>, id: U64): Option<Experiment> {
    if id in state.experiments && (scope.None? || state.experiments[id].tenant == scope.value)
    then Some(state.experiments[id])
    else None
  }

  predicate KnownVersion(state: State, v: string, datasetId: U64) {
    v in state.versions && state.versions[v].datasetId == datasetId
  }

  // ---------------------------------------------------------------- the manifest

  datatype Item = Item(id: string, digest: string, body: Body)

  function ItemOf(hash: Hash, example: NewExample): Item {
    Item(example.exampleId, Digest(hash, example.body), example.body)
  }

  function ItemsOf(hash: Hash, examples: seq<NewExample>): seq<Item> {
    seq(|examples|, i requires 0 <= i < |examples| => ItemOf(hash, examples[i]))
  }

  predicate IdsUsable(examples: seq<NewExample>) {
    && (forall i :: 0 <= i < |examples| ==> examples[i].exampleId != [])
    && (forall i, j :: 0 <= i < j < |examples| ==> examples[i].exampleId != examples[j].exampleId)
  }

  function InsertItem(item: Item, sorted: seq<Item>): (r: seq<Item>)
    ensures forall x :: x in r <==> x == item || x in sorted
    ensures |r| == |sorted| + 1
  {
    if sorted == [] || Less(item.id, sorted[0].id) then [item] + sorted
    else
      assert sorted == [sorted[0]] + sorted[1..];
      [sorted[0]] + InsertItem(item, sorted[1..])
  }

  function SortById(items: seq<Item>): (r: seq<Item>)
    ensures forall x :: x in r <==> x in items
    ensures |r| == |items|
  {
    if items == [] then []
    else
      assert items == [items[0]] + items[1..];
      InsertItem(items[0], SortById(items[1..]))
  }

  predicate ById(items: seq<Item>) {
    forall i, j :: 0 <= i < j < |items| ==> Less(items[i].id, items[j].id)
  }

  lemma {:induction false} InsertById(item: Item, sorted: seq<Item>)
    requires ById(sorted) && forall i :: 0 <= i < |sorted| ==> sorted[i].id != item.id
    ensures ById(InsertItem(item, sorted))
  {
    if sorted == [] {
    } else if Less(item.id, sorted[0].id) {
      forall j | 0 <= j < |sorted|
        ensures Less(item.id, sorted[j].id)
      {
        if j > 0 {
          LessTransitive(item.id, sorted[0].id, sorted[j].id);
        }
      }
    } else {
      LessTotal(item.id, sorted[0].id);
      var rest := InsertItem(item, sorted[1..]);
      InsertById(item, sorted[1..]);
      forall j | 0 <= j < |rest|
        ensures Less(sorted[0].id, rest[j].id)
      {
        assert rest[j] in rest;
      }
    }
  }

  lemma {:induction false} SortsById(items: seq<Item>)
    requires forall i, j :: 0 <= i < j < |items| ==> items[i].id != items[j].id
    ensures ById(SortById(items))
  {
    if items != [] {
      var rest := SortById(items[1..]);
      SortsById(items[1..]);
      forall i | 0 <= i < |rest|
        ensures rest[i].id != items[0].id
      {
        assert rest[i] in rest;
      }
      InsertById(items[0], rest);
    }
  }

  /** The manifest: one item for each example, in the order of their ids. */
  function Manifest(hash: Hash, examples: seq<NewExample>): seq<Item> { SortById(ItemsOf(hash, examples)) }

  function PairsOf(items: seq<Item>): seq<Pair> {
    seq(|items|, i requires 0 <= i < |items| => (items[i].id, items[i].digest))
  }

  method BuildManifest(hash: Hash, examples: seq<NewExample>) returns (r: Result<seq<Item>, Refusal>)
    ensures r.Ok? <==> IdsUsable(examples)
    ensures r.Ok? ==> r.value == Manifest(hash, examples)
  {
    hide Digest;
    var manifest: seq<Item> := [];
    var seen: set<string> := {};
    ghost var all := ItemsOf(hash, examples);
    for i := 0 to |examples|
      invariant manifest == all[..i]
      invariant forall id :: id in seen <==> exists k :: 0 <= k < i && examples[k].exampleId == id
      invariant IdsUsable(examples[..i])
    {
      var example := examples[i];
      if example.exampleId == [] {
        return Err(EmptyExampleId);
      }
      if example.exampleId in seen {
        return Err(DuplicateExample);
      }
      seen := seen + {example.exampleId};
      var digest := Digest(hash, example.body);
      manifest := manifest + [Item(example.exampleId, digest, example.body)];
    }
    assert all[..|examples|] == all && examples[..|examples|] == examples;
    r := Ok(SortById(manifest));
  }

  // ---------------------------------------------------------------- the payload interlock

  function RefsOfItems(items: seq<Item>): set<string> {
    if items == [] then {} else RefsOfItems(items[..|items| - 1]) + BodyRefs(items[|items| - 1].body)
  }

  /** Some version of the tenant lists a body that carries the reference. */
  predicate HeldByExamples(state: State, tenant: string, reference: string) {
    exists v :: v in state.versions && state.versions[v].tenant == tenant
      && VersionCarries(state, state.versions[v], reference)
  }

  predicate VersionCarries(state: State, version: Version, reference: string) {
    exists i :: 0 <= i < |version.examples| && version.examples[i].1 in state.examples
      && reference in BodyRefs(state.examples[version.examples[i].1].body)
  }

  /** What the store is asked about a reference: whether its bytes exist, and, for a bound caller, what its
      spans hold. */
  datatype Interlock = Interlock(exist: string -> bool, spansHold: Option<set<string>>)

  ghost predicate RefUsable(state: State, mask: Option<Erasure.Mask>, interlock: Interlock, tenant: string,
                            reference: string) {
    && !(mask.Some? && mask.value.CoversPayloadFile(reference))
    && (interlock.spansHold.Some? ==>
          || reference in interlock.spansHold.value
          || exists v, pair :: Lends(state, tenant, v, pair) && reference in BodyRefs(state.examples[pair.1].body))
    && interlock.exist(reference)
  }

  /** A version of the tenant lists the pair, whose body is there. */
  predicate Lends(state: State, tenant: string, v: string, pair: Pair) {
    && v in state.versions && pair in state.versions[v].examples && state.versions[v].tenant == tenant
    && pair.1 in state.examples
  }

  lemma HeldIsLent(state: State, tenant: string, reference: string)
    ensures HeldByExamples(state, tenant, reference) <==>
            exists v, pair :: Lends(state, tenant, v, pair) && reference in BodyRefs(state.examples[pair.1].body)
  {
    hide BodyRefs;
    if HeldByExamples(state, tenant, reference) {
      var v :| v in state.versions && state.versions[v].tenant == tenant
               && VersionCarries(state, state.versions[v], reference);
      var i :| 0 <= i < |state.versions[v].examples| && state.versions[v].examples[i].1 in state.examples
               && reference in BodyRefs(state.examples[state.versions[v].examples[i].1].body);
      assert Lends(state, tenant, v, state.versions[v].examples[i]);
    }
    if v, pair :| Lends(state, tenant, v, pair) && reference in BodyRefs(state.examples[pair.1].body) {
      var i :| 0 <= i < |state.versions[v].examples| && state.versions[v].examples[i] == pair;
      assert VersionCarries(state, state.versions[v], reference);
    }
  }

  method CheckRefs(state: State, mask: Option<Erasure.Mask>, interlock: Interlock, tenant: string, refs: set<string>)
    returns (r: Result<(), Refusal>)
    ensures r.Ok? <==> forall x :: x in refs ==> RefUsable(state, mask, interlock, tenant, x)
  {
    hide HeldByExamples;
    var left := refs;
    while left != {}
      invariant left <= refs && forall x :: x in refs && x !in left ==> RefUsable(state, mask, interlock, tenant, x)
    {
      var reference :| reference in left;
      left := left - {reference};
      if mask.Some? && mask.value.CoversPayloadFile(reference) {
        return Err(PayloadPending);
      }
      if interlock.spansHold.Some? && reference !in interlock.spansHold.value {
        HeldIsLent(state, tenant, reference);
        if !HeldByExamples(state, tenant, reference) {
          return Err(PayloadUnreachable);
        }
      }
      if !interlock.exist(reference) {
        return Err(PayloadMissing);
      }
    }
    r := Ok(());
  }

  method CollectItemRefs(items: seq<Item>) returns (refs: set<string>)
    ensures refs == RefsOfItems(items)
  {
    hide BodyRefs;
    refs := {};
    for i := 0 to |items|
      invariant refs == RefsOfItems(items[..i])
    {
      assert items[..i + 1][..i] == items[..i];
      refs := refs + BodyRefs(items[i].body);
    }
    assert items[..|items|] == items;
  }

  // ---------------------------------------------------------------- bodies before their version

  predicate RecordsBody(records: seq<LogRecord>, digest: string) {
    exists i :: 0 <= i < |records| && records[i].OfExample? && records[i].example.digest == digest
  }

  function WithBody(known: set<string>, records: seq<LogRecord>, item: Item): seq<LogRecord> {
    if item.digest in known || RecordsBody(records, item.digest) then records
    else records + [OfExample(Example(item.digest, item.body))]
  }

  /** The bodies a version needs that the log does not hold, each once. */
  function FreshBodies(known: set<string>, items: seq<Item>): seq<LogRecord> {
    if items == [] then []
    else
      var before := FreshBodies(known, items[..|items| - 1]);
      WithBody(known, before, items[|items| - 1])
  }

  method MissingBodies(known: set<string>, items: seq<Item>) returns (records: seq<LogRecord>)
    ensures records == FreshBodies(known, items)
  {
    hide RecordsBody;
    records := [];
    for i := 0 to |items|
      invariant records == FreshBodies(known, items[..i])
    {
      assert items[..i + 1][..i] == items[..i];
      if items[i].digest !in known && !RecordsBody(records, items[i].digest) {
        records := records + [OfExample(Example(items[i].digest, items[i].body))];
      }
    }
    assert items[..|items|] == items;
  }

  /** Records that do nothing but store bodies the log did not hold. */
  ghost predicate StoresBodies(hash: Hash, state: State, records: seq<LogRecord>) {
    && Lawful(hash, state, records)
    && (forall i :: 0 <= i < |records| ==> records[i].OfExample? && Exact(hash, records[i]))
    && var next := Replayed(state, records);
    && next == state.(examples := next.examples, payloadRefs := next.payloadRefs)
    && (forall d :: d in next.examples <==> d in state.examples || RecordsBody(records, d))
    && (forall d :: d in state.examples ==> d in next.examples && next.examples[d] == state.examples[d])
  }

  lemma StoresOneMore(hash: Hash, state: State, records: seq<LogRecord>, item: Item)
    requires StoresBodies(hash, state, records) && item.digest == Digest(hash, item.body)
    requires item.digest !in state.examples && !RecordsBody(records, item.digest)
    ensures StoresBodies(hash, state, records + [OfExample(Example(item.digest, item.body))])
  {
    hide Digest, BodyRefs, RecordsBody, Replayed, Lawful;
    var record := OfExample(Example(item.digest, item.body));
    ReplayedOne(state, records, record);
    assert Admits(hash, Replayed(state, records), record);
    LawfulOne(hash, state, records, record);
    RecordsMore(records, record);
    hide Admits, Addresses;
    var next := Replayed(state, records + [record]);
    assert next.examples == Replayed(state, records).examples[item.digest := record.example];
  }

  /** Appending the missing bodies stores every item's body and changes nothing else. */
  lemma {:induction false} FreshBodiesStore(hash: Hash, state: State, items: seq<Item>)
    requires forall i :: 0 <= i < |items| ==> items[i].digest == Digest(hash, items[i].body)
    ensures StoresBodies(hash, state, FreshBodies(state.examples.Keys, items))
    ensures AllStored(state, FreshBodies(state.examples.Keys, items), items)
  {
    hide Digest, RecordsBody, FreshBodies, StoresBodies, AllStored;
    if items == [] {
      NothingStored(hash, state);
    } else {
      var n := |items| - 1;
      var before := FreshBodies(state.examples.Keys, items[..n]);
      FreshBodiesStore(hash, state, items[..n]);
      FreshBodiesNext(state, items);
      hide AllStored;
      if items[n].digest !in state.examples && !RecordsBody(before, items[n].digest) {
        StoresOneMore(hash, state, before, items[n]);
      }
    }
  }

  predicate AllStored(state: State, records: seq<LogRecord>, items: seq<Item>) {
    forall i :: 0 <= i < |items| ==> items[i].digest in state.examples || RecordsBody(records, items[i].digest)
  }

  lemma NothingStored(hash: Hash, state: State)
    ensures StoresBodies(hash, state, FreshBodies(state.examples.Keys, []))
    ensures AllStored(state, FreshBodies(state.examples.Keys, []), [])
  {
    NoRecords();
  }

  lemma FreshBodiesNext(state: State, items: seq<Item>)
    requires items != []
    ensures var n := |items| - 1; var known := state.examples.Keys;
            var before := FreshBodies(known, items[..n]);
            && FreshBodies(known, items) == WithBody(known, before, items[n])
            && (AllStored(state, before, items[..n]) ==> AllStored(state, FreshBodies(known, items), items))
  {
    hide RecordsBody, AllStored;
    var n, known := |items| - 1, state.examples.Keys;
    var before := FreshBodies(known, items[..n]);
    if AllStored(state, before, items[..n]) {
      RecordsMore(before, OfExample(Example(items[n].digest, items[n].body)));
      StoredWith(state, before, WithBody(known, before, items[n]), items);
    }
  }

  lemma StoredWith(state: State, before: seq<LogRecord>, after: seq<LogRecord>, items: seq<Item>)
    requires items != [] && AllStored(state, before, items[..|items| - 1])
    requires forall d :: RecordsBody(before, d) ==> RecordsBody(after, d)
    requires items[|items| - 1].digest in state.examples || RecordsBody(after, items[|items| - 1].digest)
    ensures AllStored(state, after, items)
  {
    hide RecordsBody;
    var n := |items| - 1;
    forall i | 0 <= i < |items|
      ensures items[i].digest in state.examples || RecordsBody(after, items[i].digest)
    {
      if i < n {
        assert items[..n][i] == items[i];
      }
    }
  }

  lemma NoRecords()
    ensures forall d :: !RecordsBody([], d)
  {
  }

  lemma RecordsMore(records: seq<LogRecord>, record: LogRecord)
    requires record.OfExample?
    ensures forall d :: RecordsBody(records + [record], d) <==> RecordsBody(records, d) || d == record.example.digest
  {
    var more := records + [record];
    forall d
      ensures RecordsBody(more, d) <==> RecordsBody(records, d) || d == record.example.digest
    {
      if i :| 0 <= i < |records| && records[i].OfExample? && records[i].example.digest == d {
        assert more[i] == records[i];
      }
      assert more[|records|] == record;
    }
  }

  // ---------------------------------------------------------------- what the operations may append

  ghost predicate DatasetBatch(state: State, batch: seq<LogRecord>) {
    |batch| == 1 && batch[0].OfDataset? && batch[0].dataset.datasetId == NextDatasetId(state)
  }

  /** A version with the bodies it needs before it. */
  ghost predicate VersionBatch(hash: Hash, state: State, batch: seq<LogRecord>) {
    batch != []
    && var bodies, last := batch[..|batch| - 1], batch[|batch| - 1];
    && StoresBodies(hash, state, bodies)
    && last.OfVersion? && Admits(hash, Replayed(state, bodies), last)
  }

  ghost predicate ExperimentBatch(state: State, batch: seq<LogRecord>) {
    |batch| == 1 && batch[0].OfExperiment? && batch[0].experiment.experimentId == NextExperimentId(state)
    && ExperimentSound(state, batch[0].experiment) && batch[0].experiment.datasetVersion !in state.tombstones
  }

  ghost predicate RunBatch(state: State, batch: seq<LogRecord>) {
    |batch| == 1 && batch[0].OfRun? && RunSound(state, batch[0].run)
  }

  ghost predicate TombstoneBatch(state: State, batch: seq<LogRecord>) {
    |batch| == 1 && batch[0].OfTombstone? && TombstoneSound(state, batch[0].tombstone)
    && batch[0].tombstone.versionId !in state.tombstones
  }

  ghost predicate OperationBatch(hash: Hash, state: State, batch: seq<LogRecord>) {
    || DatasetBatch(state, batch) || VersionBatch(hash, state, batch) || ExperimentBatch(state, batch)
    || RunBatch(state, batch) || TombstoneBatch(state, batch)
  }

  /** No operation appends an unlawful record while the id allocators have ids to give. */
  lemma BatchLawful(hash: Hash, state: State, batch: seq<LogRecord>)
    requires OperationBatch(hash, state, batch)
    requires DatasetWater(state) < U64_MAX && ExperimentWater(state) < U64_MAX
    ensures Lawful(hash, state, batch)
  {
    NextIdIsNew(state.datasets.Keys, state.datasetFloor);
    NextIdIsNew(state.experiments.Keys, state.experimentFloor);
    hide ExperimentSound, RunSound, TombstoneSound, NextId, Highest;
    if |batch| == 1 && !VersionBatch(hash, state, batch) {
      assert batch[..0] == [];
    } else {
      hide Admits;
    }
  }

  // ---------------------------------------------------------------- the operations

  datatype VersionRequest = VersionRequest(scope: Option<string>, datasetId: U64, parent: Option<string>,
                                           provenance: Option<Json>, examples: seq<NewExample>, created: U64)

  predicate ParentUsable(state: State, parent: Option<string>, datasetId: U64) {
    parent.Some? ==>
      && parent.value in state.versions && state.versions[parent.value].datasetId == datasetId
      && parent.value !in state.tombstones
  }

  /** Every condition under which a version is created or found again. */
  ghost predicate VersionAcceptable(hash: Hash, state: State, mask: Option<Erasure.Mask>, interlock: Interlock,
                                    request: VersionRequest) {
    && request.examples != [] && request.datasetId in state.datasets
    && var tenant := state.datasets[request.datasetId].tenant;
    && (request.scope.Some? ==> tenant == request.scope.value)
    && !Barred(mask, tenant) && ParentUsable(state, request.parent, request.datasetId) && IdsUsable(request.examples)
    && forall x :: x in RefsOfItems(Manifest(hash, request.examples)) ==> RefUsable(state, mask, interlock, tenant, x)
  }

  lemma ListsSays(version: Version, exampleId: string)
    ensures Lists(version, exampleId) <==> exists digest :: (exampleId, digest) in version.examples
  {
    if Lists(version, exampleId) {
      var i :| 0 <= i < |version.examples| && version.examples[i].0 == exampleId;
      assert (exampleId, version.examples[i].1) in version.examples;
    }
  }

  class EvalLog {
    const hash: Hash
    var lines: seq<LogRecord>
    var state: State

    /** Memory is the replay of the log. */
    ghost predicate InStep()
      reads this
    {
      state == Replay(lines)
    }

    /** Opens a log whose file held these records. */
    constructor (hash: Hash, contents: seq<LogRecord>)
      ensures InStep() && lines == contents && this.hash == hash
    {
      this.hash, lines, state := hash, contents, EMPTY;
      new;
      for i := 0 to |contents|
        invariant lines == contents && state == Replay(contents[..i])
      {
        assert contents[..i + 1] == contents[..i] + [contents[i]];
        ReplayedOne(EMPTY, contents[..i], contents[i]);
        state := Applied(state, contents[i]);
      }
      assert contents[..|contents|] == contents;
    }

    /** Appends records to the file, then applies them one by one. */
    method Commit(records: seq<LogRecord>)
      requires InStep()
      modifies this
      ensures InStep() && lines == old(lines) + records && state == Replayed(old(state), records)
    {
      ghost var was := state;
      lines := lines + records;
      for i := 0 to |records|
        invariant state == Replayed(was, records[..i]) && lines == old(lines) + records
      {
        assert records[..i + 1] == records[..i] + [records[i]];
        ReplayedOne(was, records[..i], records[i]);
        state := Applied(state, records[i]);
      }
      assert records[..|records|] == records;
      ReplayedAppend(EMPTY, old(lines), records);
    }

    method CreateDataset(mask: Option<Erasure.Mask>, tenant: string, name: string, created: U64)
      returns (r: Result<U64, Refusal>, ghost batch: seq<LogRecord>)
      requires InStep()
      modifies this
      ensures InStep() && lines == old(lines) + batch
      ensures r.Ok? <==> name != [] && (tenant != [] ==> ValidTenant(tenant)) && !Barred(mask, tenant)
      ensures r.Err? ==> batch == [] && state == old(state)
      ensures r.Ok? ==> r.value == NextDatasetId(old(state)) && DatasetBatch(old(state), batch)
                        && batch[0].dataset == Dataset(r.value, tenant, name, created)
    {
      hide Replay, NextDatasetId, ValidTenant, Barred;
      batch := [];
      if name == [] {
        return Err(EmptyName), batch;
      }
      if tenant != [] && !ValidTenant(tenant) {
        return Err(BadTenant), batch;
      }
      if Barred(mask, tenant) {
        return Err(TenantPending), batch;
      }
      var dataset := Dataset(NextDatasetId(state), tenant, name, created);
      batch := [OfDataset(dataset)];
      Commit([OfDataset(dataset)]);
      r := Ok(dataset.datasetId);
    }

    method CreateExperiment(mask: Option<Erasure.Mask>, scope: Option<string>, datasetId: U64, datasetVersion: string,
                            name: string, config: Option<Json>, created: U64)
      returns (r: Result<U64, Refusal>, ghost batch: seq<LogRecord>)
      requires InStep() && DatasetsKeyed(state)
      modifies this
      ensures InStep() && lines == old(lines) + batch
      ensures r.Ok? <==> datasetId in old(state).datasets
                         && (scope.Some? ==> old(state).datasets[datasetId].tenant == scope.value)
                         && !Barred(mask, old(state).datasets[datasetId].tenant)
                         && datasetVersion in old(state).versions
                         && old(state).versions[datasetVersion].datasetId == datasetId
                         && datasetVersion !in old(state).tombstones
      ensures r.Err? ==> batch == [] && state == old(state)
      ensures r.Ok? ==> r.value == NextExperimentId(old(state)) && ExperimentBatch(old(state), batch)
                        && batch[0].experiment
                           == Experiment(r.value, old(state).datasets[datasetId].tenant, datasetId, datasetVersion,
                                         name, config, created)
    {
      hide Replay, NextExperimentId, Barred;
      batch := [];
      var dataset := DatasetInScope(state, scope, datasetId);
      if dataset.None? {
        return Err(NoDataset), batch;
      }
      var tenant := dataset.value.tenant;
      if Barred(mask, tenant) {
        return Err(TenantPending), batch;
      }
      if !KnownVersion(state, datasetVersion, datasetId) {
        return Err(UnknownVersion), batch;
      }
      if datasetVersion in state.tombstones {
        return Err(VersionTombstoned), batch;
      }
      var experiment := Experiment(NextExperimentId(state), tenant, datasetId, datasetVersion, name, config, created);
      batch := [OfExperiment(experiment)];
      Commit([OfExperiment(experiment)]);
      r := Ok(experiment.experimentId);
    }

    method RecordRun(mask: Option<Erasure.Mask>, scope: Option<string>, experimentId: U64, exampleId: string,
                     traceId: string, spanId: string, created: U64)
      returns (r: Result<(), Refusal>, ghost batch: seq<LogRecord>)
      requires InStep()
      modifies this
      ensures InStep() && lines == old(lines) + batch
      ensures r.Ok? <==> traceId != [] && experimentId in old(state).experiments
                         && var experiment := old(state).experiments[experimentId];
                            (scope.Some? ==> experiment.tenant == scope.value)
                            && !Barred(mask, experiment.tenant) && experiment.datasetVersion in old(state).versions
                            && exists digest ::
                                 (exampleId, digest) in old(state).versions[experiment.datasetVersion].examples
      ensures r.Err? ==> batch == [] && state == old(state)
      ensures r.Ok? ==> RunBatch(old(state), batch)
                        && batch[0].run == Run(old(state).experiments[experimentId].tenant, experimentId, exampleId,
                                               traceId, spanId, created)
    {
      hide Replay, Lists, Barred;
      batch := [];
      if traceId == [] {
        return Err(EmptyTrace), batch;
      }
      var experiment := ExperimentInScope(state, scope, experimentId);
      if experiment.None? {
        return Err(NoExperiment), batch;
      }
      var tenant, versionId := experiment.value.tenant, experiment.value.datasetVersion;
      if Barred(mask, tenant) {
        return Err(TenantPending), batch;
      }
      if versionId in state.versions {
        ListsSays(state.versions[versionId], exampleId);
      }
      if versionId !in state.versions || !Lists(state.versions[versionId], exampleId) {
        return Err(NotInManifest), batch;
      }
      var run := Run(tenant, experimentId, exampleId, traceId, spanId, created);
      batch := [OfRun(run)];
      Commit([OfRun(run)]);
      r := Ok(());
    }

    /** Idempotent: answers false when the version already was tombstoned. */
    method TombstoneVersion(mask: Option<Erasure.Mask>, scope: Option<string>, datasetId: U64, versionId: string,
                            reason: string, requested: U64)
      returns (r: Result<bool, Refusal>, ghost batch: seq<LogRecord>)
      requires InStep()
      modifies this
      ensures InStep() && lines == old(lines) + batch
      ensures r.Ok? <==> datasetId in old(state).datasets
                         && (scope.Some? ==> old(state).datasets[datasetId].tenant == scope.value)
                         && !Barred(mask, old(state).datasets[datasetId].tenant)
                         && versionId in old(state).versions && old(state).versions[versionId].datasetId == datasetId
      ensures r.Err? || !r.value ==> batch == [] && state == old(state)
      ensures r.Ok? ==> (r.value <==> versionId !in old(state).tombstones) && versionId in state.tombstones
      ensures r.Ok? && r.value ==> TombstoneBatch(old(state), batch)
                                   && batch[0].tombstone == Tombstone(old(state).datasets[datasetId].tenant, datasetId,
                                                                      versionId, requested, reason)
    {
      hide Replay, Barred;
      batch := [];
      var dataset := DatasetInScope(state, scope, datasetId);
      if dataset.None? {
        return Err(NoDataset), batch;
      }
      var tenant := dataset.value.tenant;
      if Barred(mask, tenant) {
        return Err(TenantPending), batch;
      }
      if !KnownVersion(state, versionId, datasetId) {
        return Err(UnknownVersion), batch;
      }
      if versionId in state.tombstones {
        return Ok(false), batch;
      }
      var tombstone := Tombstone(tenant, datasetId, versionId, requested, reason);
      batch := [OfTombstone(tombstone)];
      assert batch[..0] == [];
      Commit([OfTombstone(tombstone)]);
      r := Ok(true);
    }

    /** Creates a version, or finds again the one with the same content. */
    method CreateVersion(mask: Option<Erasure.Mask>, interlock: Interlock, request: VersionRequest)
      returns (r: Result<Outcome, Refusal>, ghost batch: seq<LogRecord>)
      requires InStep()
      modifies this
      ensures InStep() && lines == old(lines) + batch && state == Replayed(old(state), batch)
      ensures r.Ok? <==> VersionAcceptable(hash, old(state), mask, interlock, request)
      ensures r.Err? ==> batch == []
      ensures r.Ok? ==>
                var pairs := PairsOf(Manifest(hash, request.examples));
                var versionId := VersionId(hash, request.datasetId, request.parent, pairs);
                && r.value == Outcome(versionId, |request.examples|, versionId !in old(state).versions)
                && (versionId in old(state).versions ==> batch == [])
                && (versionId !in old(state).versions ==>
                      VersionBatch(hash, old(state), batch)
                      && batch[|batch| - 1].version
                         == Version(old(state).datasets[request.datasetId].tenant, request.datasetId, versionId,
                                    request.parent, request.provenance, pairs, request.created))
      ensures r.Ok? && Injective(hash) && Valid(hash, old(state)) ==>
                forall i :: 0 <= i < |request.examples| ==>
                  ReadsBack(state, r.value.versionId, request.examples[i])
    {
      hide Replay, Barred, Digest, EvalState.VersionId, RefUsable, IdsUsable, RefsOfItems, InsertItem, SortById;
      batch := [];
      if request.examples == [] {
        return Err(NoExamples), batch;
      }
      var dataset := DatasetInScope(state, request.scope, request.datasetId);
      if dataset.None? {
        return Err(NoDataset), batch;
      }
      var tenant := dataset.value.tenant;
      if Barred(mask, tenant) {
        return Err(TenantPending), batch;
      }
      if request.parent.Some? {
        if !KnownVersion(state, request.parent.value, request.datasetId) {
          return Err(UnknownParent), batch;
        }
        if request.parent.value in state.tombstones {
          return Err(ParentTombstoned), batch;
        }
      }
      var built := BuildManifest(hash, request.examples);
      if built.Err? {
        return Err(built.error), batch;
      }
      var manifest := built.value;
      var refs := CollectItemRefs(manifest);
      var checked := CheckRefs(state, mask, interlock, tenant, refs);
      if checked.Err? {
        return Err(checked.error), batch;
      }
      var pairs := PairsOf(manifest);
      var versionId := VersionId(hash, request.datasetId, request.parent, pairs);
      if versionId in state.versions {
        // The same examples under the same parent were a version already.
        FoundReadsBack(hash, state, request);
        return Ok(Outcome(versionId, |pairs|, false)), batch;
      }
      var version :=
        Version(tenant, request.datasetId, versionId, request.parent, request.provenance, pairs, request.created);
      var records := MissingBodies(state.examples.Keys, manifest);
      VersionAdmitted(hash, state, request, version);
      CreatedReadsBack(hash, state, request, version);
      Commit(records + [OfVersion(version)]);
      batch := records + [OfVersion(version)];
      r := Ok(Outcome(versionId, |pairs|, true));
    }
  }

  /** The version has the example under its id, with the body that was asked for. */
  ghost predicate ReadsBack(state: State, v: string, example: NewExample) {
    v in state.versions && exists k :: PairReads(state, state.versions[v].examples, k, example)
  }

  predicate PairReads(state: State, pairs: seq<Pair>, k: int, example: NewExample) {
    && 0 <= k < |pairs| && pairs[k].0 == example.exampleId && pairs[k].1 in state.examples
    && Keeps(state.examples[pairs[k].1].body, example.body)
  }

  lemma ManifestReadsBack(hash: Hash, state: State, v: string, examples: seq<NewExample>, i: nat)
    requires Injective(hash) && Valid(hash, state) && IdsUsable(examples) && i < |examples|
    requires v in state.versions && state.versions[v].examples == PairsOf(Manifest(hash, examples))
    ensures ReadsBack(state, v, examples[i])
  {
    ManifestSound(hash, examples);
    var manifest, item := Manifest(hash, examples), ItemOf(hash, examples[i]);
    assert VersionsSound(hash, state) && BodiesKeyed(hash, state);
    hide Manifest, Digest, Keeps, Addresses, Injective, VersionId, Less, Valid, IdsUsable;
    assert examples[i] in examples;
    var k :| 0 <= k < |manifest| && manifest[k] == item;
    assert VersionSound(hash, state, state.versions[v]);
    assert state.versions[v].examples[k] == (item.id, item.digest);
    FoundBodyIsTheSame(hash, state.examples[item.digest].body, item.body);
    assert PairReads(state, state.versions[v].examples, k, examples[i]);
  }

  lemma FoundReadsBack(hash: Hash, state: State, request: VersionRequest)
    requires IdsUsable(request.examples)
    requires VersionId(hash, request.datasetId, request.parent, PairsOf(Manifest(hash, request.examples)))
             in state.versions
    ensures Injective(hash) && Valid(hash, state) ==> forall i :: 0 <= i < |request.examples| ==>
              ReadsBack(state,
                        VersionId(hash, request.datasetId, request.parent, PairsOf(Manifest(hash, request.examples))),
                        request.examples[i])
  {
    if Injective(hash) && Valid(hash, state) {
      var pairs := PairsOf(Manifest(hash, request.examples));
      FoundVersionIsTheSame(hash, state, request.datasetId, request.parent, pairs);
      hide Valid, ReadsBack, IdsUsable, Manifest, VersionId, Injective;
      forall i | 0 <= i < |request.examples|
        ensures ReadsBack(state, VersionId(hash, request.datasetId, request.parent, pairs), request.examples[i])
      {
        ManifestReadsBack(hash, state, VersionId(hash, request.datasetId, request.parent, pairs), request.examples, i);
      }
    }
  }

  lemma CreatedReadsBack(hash: Hash, state: State, request: VersionRequest, version: Version)
    requires IdsUsable(request.examples) && version.examples == PairsOf(Manifest(hash, request.examples))
    requires VersionBatch(hash, state,
                          FreshBodies(state.examples.Keys, Manifest(hash, request.examples)) + [OfVersion(version)])
    ensures var batch := FreshBodies(state.examples.Keys, Manifest(hash, request.examples)) + [OfVersion(version)];
            Injective(hash) && Valid(hash, state) ==> forall i :: 0 <= i < |request.examples| ==>
              ReadsBack(Replayed(state, batch), version.versionId, request.examples[i])
  {
    if Injective(hash) && Valid(hash, state) {
      var bodies := FreshBodies(state.examples.Keys, Manifest(hash, request.examples));
      var batch := bodies + [OfVersion(version)];
      VersionReplayed(hash, state, bodies, version);
      hide Valid, ReadsBack, IdsUsable, Manifest, Injective, Replayed, VersionBatch, FreshBodies;
      forall i | 0 <= i < |request.examples|
        ensures ReadsBack(Replayed(state, batch), version.versionId, request.examples[i])
      {
        ManifestReadsBack(hash, Replayed(state, batch), version.versionId, request.examples, i);
      }
    }
  }

  lemma VersionReplayed(hash: Hash, state: State, bodies: seq<LogRecord>, version: Version)
    requires Valid(hash, state) && VersionBatch(hash, state, bodies + [OfVersion(version)])
    ensures var after := Replayed(state, bodies + [OfVersion(version)]);
            Valid(hash, after) && version.versionId in after.versions && after.versions[version.versionId] == version
  {
    var batch := bodies + [OfVersion(version)];
    assert batch[..|bodies|] == bodies && batch[|bodies|] == OfVersion(version);
    hide Admits, Valid, Replayed;
    LawfulOne(hash, state, bodies, OfVersion(version));
    LawfulLogsReplayValid(hash, state, batch);
    ReplayedOne(state, bodies, OfVersion(version));
  }

  lemma VersionAdmitted(hash: Hash, state: State, request: VersionRequest, version: Version)
    requires request.datasetId in state.datasets && IdsUsable(request.examples)
    requires ParentUsable(state, request.parent, request.datasetId)
    requires var pairs := PairsOf(Manifest(hash, request.examples));
             var versionId := VersionId(hash, request.datasetId, request.parent, pairs);
             versionId !in state.versions
             && version == Version(state.datasets[request.datasetId].tenant, request.datasetId, versionId,
                                   request.parent, request.provenance, pairs, request.created)
    ensures var manifest := Manifest(hash, request.examples);
            VersionBatch(hash, state, FreshBodies(state.examples.Keys, manifest) + [OfVersion(version)])
  {
    hide Digest, EvalState.VersionId, RecordsBody, FreshBodies, Lawful, Replayed;
    var manifest := Manifest(hash, request.examples);
    var bodies := FreshBodies(state.examples.Keys, manifest);
    ManifestSound(hash, request.examples);
    FreshBodiesStore(hash, state, manifest);
    var next := Replayed(state, bodies);
    assert (bodies + [OfVersion(version)])[..|bodies|] == bodies;
    assert VersionSound(hash, next, version);
  }

  /** The manifest lists each example under its digest, ids ascending. */
  lemma ManifestSound(hash: Hash, examples: seq<NewExample>)
    requires IdsUsable(examples)
    ensures var manifest := Manifest(hash, examples);
            && |manifest| == |examples| && ById(manifest)
            && (forall i :: 0 <= i < |manifest| ==> manifest[i].digest == Digest(hash, manifest[i].body))
            && (forall e :: e in examples ==> ItemOf(hash, e) in manifest)
  {
    hide Digest, SortById;
    var items, manifest := ItemsOf(hash, examples), Manifest(hash, examples);
    SortsById(items);
    forall i | 0 <= i < |manifest|
      ensures manifest[i].digest == Digest(hash, manifest[i].body)
    {
      assert manifest[i] in items;
    }
    forall e | e in examples
      ensures ItemOf(hash, e) in manifest
    {
      var k :| 0 <= k < |examples| && examples[k] == e;
      assert items[k] == ItemOf(hash, e);
    }
  }
}
