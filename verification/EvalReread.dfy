/** What an eval log comes back as when it is opened again (`src/evals.rs`). An optional value is written unless it is
    absent, and a null is read as an absent one, so a null in one of three optional fields is lost on the way. */
module EvalReread {
  import opened Common
  import opened CanonicalJson
  import opened EvalState
  import Erasure
  import LineLog

  function WithoutNull(value: Option<Json>): Option<Json> {
    if value == Some(Null) then None else value
  }

  function RereadExample(example: Example): Example {
    example.(body := example.body.(expected := WithoutNull(example.body.expected)))
  }

  function RereadVersion(version: Version): Version {
    version.(provenance := WithoutNull(version.provenance))
  }

  function RereadExperiment(experiment: Experiment): Experiment {
    experiment.(config := WithoutNull(experiment.config))
  }

  /** What a record comes back as. */
  function Reread(record: LogRecord): LogRecord {
    match record
    case OfExample(example) => OfExample(RereadExample(example))
    case OfVersion(version) => OfVersion(RereadVersion(version))
    case OfExperiment(experiment) => OfExperiment(RereadExperiment(experiment))
    case _ => record
  }

  function RereadAll(log: seq<LogRecord>): (r: seq<LogRecord>)
    ensures |r| == |log| && forall i :: 0 <= i < |r| ==> r[i] == Reread(log[i])
  {
    seq(|log|, i requires 0 <= i < |log| => Reread(log[i]))
  }

  /** What the state of a log comes back as. */
  function RereadState(state: State): State {
    state.(examples := map d | d in state.examples :: RereadExample(state.examples[d]),
           versions := map v | v in state.versions :: RereadVersion(state.versions[v]),
           experiments := map e | e in state.experiments :: RereadExperiment(state.experiments[e]))
  }

  /** None of the three optional values is a null. */
  predicate Writable(record: LogRecord) {
    match record
    case OfExample(example) => example.body.expected != Some(Null)
    case OfVersion(version) => version.provenance != Some(Null)
    case OfExperiment(experiment) => experiment.config != Some(Null)
    case _ => true
  }

  predicate AllWritable(log: seq<LogRecord>) {
    forall i :: 0 <= i < |log| ==> Writable(log[i])
  }

  // ---------------------------------------------------------------- references do not change

  lemma {:induction false} FindWithout(front: seq<Member>, member: Member, back: seq<Member>, key: string)
    requires member.key != key
    ensures Erasure.Find(front + [member] + back, key) == Erasure.Find(front + back, key)
  {
    if front == [] {
      assert front + [member] + back == [member] + back && front + back == back;
      assert ([member] + back)[1..] == back;
    } else {
      assert (front + [member] + back)[1..] == front[1..] + [member] + back;
      assert (front + back)[1..] == front[1..] + back;
      FindWithout(front[1..], member, back, key);
    }
  }

  /** The references inside the members of an object. */
  function Inside(members: seq<Member>): set<string> {
    set i, r | 0 <= i < |members| && r in CollectRefs(members[i].value) :: r
  }

  lemma RefsOfObject(members: seq<Member>)
    ensures CollectRefs(Obj(members))
            == if Erasure.IsMarker(Obj(members)) then {}
               else (if Erasure.Held(Obj(members)).Some? then {Erasure.Held(Obj(members)).value} else {})
                    + Inside(members)
  {
    hide Erasure.IsMarker, Erasure.Held;
  }

  lemma NullInside(front: seq<Member>, member: Member, back: seq<Member>)
    requires member.value == Null
    ensures Inside(front + [member] + back) == Inside(front + back)
  {
    var more, fewer := front + [member] + back, front + back;
    assert CollectRefs(Null) == {};
    hide CollectRefs;
    forall r | r in Inside(more)
      ensures r in Inside(fewer)
    {
      var i :| 0 <= i < |more| && r in CollectRefs(more[i].value);
      assert more[i] == fewer[if i < |front| then i else i - 1];
    }
    forall r | r in Inside(fewer)
      ensures r in Inside(more)
    {
      var i :| 0 <= i < |fewer| && r in CollectRefs(fewer[i].value);
      assert fewer[i] == more[if i < |front| then i else i + 1];
    }
  }

  lemma NullHoldsNothing(front: seq<Member>, member: Member, back: seq<Member>)
    requires member.value == Null && member.key != Erasure.PAYLOAD_KEY && member.key != Erasure.ERASED
    ensures CollectRefs(Obj(front + [member] + back)) == CollectRefs(Obj(front + back))
  {
    FindWithout(front, member, back, Erasure.PAYLOAD_KEY);
    FindWithout(front, member, back, Erasure.ERASED);
    NullInside(front, member, back);
    RefsOfObject(front + [member] + back);
    RefsOfObject(front + back);
    hide Erasure.Find, CollectRefs, Inside;
  }

  lemma RereadRefs(example: Example)
    ensures BodyRefs(RereadExample(example).body) == BodyRefs(example.body)
  {
    var body := example.body;
    if body.expected == Some(Null) {
      var front := [Member("input", body.input)];
      var rest := BodyJson(body).members[2..];
      assert BodyJson(body).members == front + [Member("expected", Null)] + rest;
      assert BodyJson(RereadExample(example).body).members == front + rest;
      NullHoldsNothing(front, Member("expected", Null), rest);
    }
  }

  // ---------------------------------------------------------------- a reopened log is a log

  lemma RereadOneMore(state: State, record: LogRecord)
    ensures var before, next := RereadState(state), RereadState(Applied(state, record));
            match record
            case OfExample(example) => next.examples == before.examples[example.digest := RereadExample(example)]
            case OfVersion(version) => next.versions == before.versions[version.versionId := RereadVersion(version)]
            case OfExperiment(experiment) =>
              next.experiments == before.experiments[experiment.experimentId := RereadExperiment(experiment)]
            case _ => true
  {
    hide BodyRefs, Without, VersionsOf, WithoutNull;
  }

  lemma RereadApplied(state: State, record: LogRecord)
    ensures Applied(RereadState(state), Reread(record)) == RereadState(Applied(state, record))
  {
    hide BodyRefs, Without;
    if record.OfExample? {
      RereadRefs(record.example);
    }
    RereadOneMore(state, record);
  }

  lemma {:induction false} RereadReplays(log: seq<LogRecord>)
    ensures Replay(RereadAll(log)) == RereadState(Replay(log))
  {
    assert RereadState(EMPTY) == EMPTY;
    hide Applied, RereadState;
    if log != [] {
      var n := |log| - 1;
      RereadReplays(log[..n]);
      assert RereadAll(log)[..n] == RereadAll(log[..n]);
      RereadApplied(Replay(log[..n]), log[n]);
    }
  }

  lemma RereadAddresses(hash: Hash, example: Example)
    requires Addresses(hash, example.digest, example.body)
    ensures Addresses(hash, example.digest, RereadExample(example).body)
  {
    hide Digest;
    assert example.body.expected == Some(Null) ==> RereadExample(example).body.(expected := Some(Null)) == example.body;
  }

  lemma RereadVersionSound(hash: Hash, state: State, version: Version)
    requires VersionSound(hash, state, version)
    ensures VersionSound(hash, RereadState(state), RereadVersion(version))
  {
    hide Less, VersionId, WithoutNull;
  }

  lemma RereadAdmits(hash: Hash, state: State, record: LogRecord)
    requires Admits(hash, state, record)
    ensures Admits(hash, RereadState(state), Reread(record))
  {
    hide Less, VersionId, Digest, Lists, Addresses, WithoutNull, VersionSound;
    match record
    case OfExample(example) => RereadAddresses(hash, example);
    case OfVersion(version) => RereadVersionSound(hash, state, version);
    case OfRun(run) => RereadLists(state, run);
    case _ =>
  }

  lemma RereadLists(state: State, run: Run)
    requires RunSound(state, run)
    ensures RunSound(RereadState(state), run)
  {
    hide WithoutNull;
  }

  /** A lawful log comes back as a lawful log, whatever it holds. */
  lemma {:induction false} RereadLawful(hash: Hash, log: seq<LogRecord>)
    requires Lawful(hash, EMPTY, log)
    ensures Lawful(hash, EMPTY, RereadAll(log))
  {
    hide Admits, Applied, RereadState, Reread;
    if log != [] {
      var n := |log| - 1;
      RereadLawful(hash, log[..n]);
      assert RereadAll(log)[..n] == RereadAll(log[..n]);
      RereadReplays(log[..n]);
      RereadAdmits(hash, Replay(log[..n]), log[n]);
    }
  }

  // ---------------------------------------------------------------- what comes back as it was

  /** The codec's records come back as `Reread` says. */
  ghost predicate ReadsRecords(codec: LineLog.Codec<LogRecord>) {
    LineLog.Serializes(codec) && forall record :: codec.readBack(record) == Reread(record)
  }

  /** A reopened log equals what was written exactly when the parser takes every record and none holds a null in an
      optional field; it opens at all exactly when the parser takes every record. */
  lemma ReopenIsExact(codec: LineLog.Codec<LogRecord>, log: seq<LogRecord>)
    requires ReadsRecords(codec)
    ensures LineLog.Open(codec, LineLog.Lines(codec, log))
            == if LineLog.AllRead(codec, log) then LineLog.Opened(RereadAll(log), LineLog.Lines(codec, log))
               else LineLog.Corrupt
    ensures LineLog.Open(codec, LineLog.Lines(codec, log)) == LineLog.Opened(log, LineLog.Lines(codec, log))
            <==> LineLog.AllRead(codec, log) && AllWritable(log)
  {
    hide LineLog.Open, LineLog.Lines, LineLog.AllRead;
    LineLog.OpensExactly(codec, log);
    assert LineLog.ReadBack(codec, log) == RereadAll(log);
    forall i | 0 <= i < |log|
      ensures RereadAll(log)[i] == log[i] <==> Writable(log[i])
    {
    }
  }

  // ---------------------------------------------------------------- addresses

  /** Every body of a lawful log is in the state it replays to, and no other. */
  ghost predicate HoldsBodies(log: seq<LogRecord>, examples: map<string, Example>) {
    && (forall i :: 0 <= i < |log| && log[i].OfExample? ==>
          log[i].example.digest in examples && examples[log[i].example.digest] == log[i].example)
    && (forall d :: d in examples ==>
          exists i :: 0 <= i < |log| && log[i].OfExample? && log[i].example == examples[d] && examples[d].digest == d)
  }

  lemma BodiesAfter(hash: Hash, state: State, record: LogRecord)
    requires Admits(hash, state, record)
    ensures var after := Applied(state, record).examples;
            if record.OfExample?
            then record.example.digest !in state.examples
                 && after == state.examples[record.example.digest := record.example]
            else after == state.examples
  {
    hide Addresses, BodyRefs, Without, VersionSound, ExperimentSound, RunSound, TombstoneSound;
  }

  lemma {:induction false} LogHoldsBodies(hash: Hash, log: seq<LogRecord>)
    requires Lawful(hash, EMPTY, log)
    ensures HoldsBodies(log, Replay(log).examples)
  {
    assert HoldsBodies([], EMPTY.examples);
    hide Admits, Applied, HoldsBodies;
    if log != [] {
      var n := |log| - 1;
      LogHoldsBodies(hash, log[..n]);
      BodiesAfter(hash, Replay(log[..n]), log[n]);
      HoldsOneMore(log, Replay(log[..n]).examples, Replay(log).examples);
    }
  }

  lemma HoldsOneMore(log: seq<LogRecord>, before: map<string, Example>, after: map<string, Example>)
    requires log != [] && HoldsBodies(log[..|log| - 1], before)
    requires var last := log[|log| - 1];
             if last.OfExample? then last.example.digest !in before
               && after == before[last.example.digest := last.example]
             else after == before
    ensures HoldsBodies(log, after)
  {
    var n := |log| - 1;
    var front := log[..n];
    forall d | d in after
      ensures exists i :: 0 <= i < |log| && log[i].OfExample? && log[i].example == after[d] && after[d].digest == d
    {
      if log[n].OfExample? && d == log[n].example.digest {
        assert log[n].example == after[d];
      } else {
        var i :| 0 <= i < |front| && front[i].OfExample? && front[i].example == before[d] && before[d].digest == d;
        assert log[i] == front[i];
      }
    }
    forall i | 0 <= i < |log| && log[i].OfExample?
      ensures log[i].example.digest in after && after[log[i].example.digest] == log[i].example
    {
      if i < n {
        assert front[i] == log[i];
      }
    }
  }

  predicate AllExact(hash: Hash, log: seq<LogRecord>) {
    forall i :: 0 <= i < |log| ==> Exact(hash, log[i])
  }

  lemma AddressedIsExact(hash: Hash, log: seq<LogRecord>)
    requires Lawful(hash, EMPTY, log)
    ensures BodiesAddressed(hash, Replay(log)) <==> AllExact(hash, log)
  {
    hide Digest, Lawful, Replay;
    LogHoldsBodies(hash, log);
  }

  /** A null that is left out makes one member less. */
  lemma FewerMembers(body: Body)
    requires body.expected == Some(Null)
    ensures Ordered(BodyJson(body)) != Ordered(BodyJson(body.(expected := None)))
  {
    var json, less := BodyJson(body), BodyJson(body.(expected := None));
    var front, rest := [Member("input", body.input)], json.members[2..];
    assert json.members == front + [Member("expected", Null)] + rest && less.members == front + rest;
    assert |json.members| == |less.members| + 1;
    hide BodyJson;
    OrderedSize(json);
    OrderedSize(less);
  }

  lemma OrderedSize(json: Json)
    requires json.Obj?
    ensures Ordered(json).Obj? && |Ordered(json).members| == |json.members|
  {
    var members := OrderedMembers(json, json.members);
    assert multiset(SortByKey(members)) == multiset(members);
    assert |multiset(SortByKey(members))| == |SortByKey(members)|;
    assert |multiset(members)| == |members|;
  }

  /** A body is still under its own address after it was read back exactly when it expected no null. */
  lemma RereadExact(hash: Hash, record: LogRecord)
    requires Injective(hash) && record.OfExample? && Exact(hash, record)
    ensures Exact(hash, Reread(record)) <==> record.example.body.expected != Some(Null)
  {
    var body, after := record.example.body, RereadExample(record.example).body;
    if Exact(hash, Reread(record)) && body.expected == Some(Null) {
      assert Canonical(BodyJson(body)) == Canonical(BodyJson(after));
      assert Canonical(BodyJson(body)) + [] == Canonical(BodyJson(after)) + [];
      TextOnce(Ordered(BodyJson(body)), Ordered(BodyJson(after)), [], []);
      FewerMembers(body);
      assert false;
    }
  }

  predicate ExpectsNull(record: LogRecord) {
    record.OfExample? && record.example.body.expected == Some(Null)
  }

  /** The bodies of a log written under their addresses are under them after a reopen exactly when none of them expects
      a null. */
  lemma AddressesSurvive(hash: Hash, log: seq<LogRecord>)
    requires Injective(hash) && Lawful(hash, EMPTY, log) && BodiesAddressed(hash, Replay(log))
    ensures BodiesAddressed(hash, Replay(RereadAll(log))) <==> forall i :: 0 <= i < |log| ==> !ExpectsNull(log[i])
  {
    hide BodiesAddressed, Exact, Injective, Lawful, Replay;
    RereadLawful(hash, log);
    AddressedIsExact(hash, log);
    AddressedIsExact(hash, RereadAll(log));
    forall i | 0 <= i < |log|
      ensures Exact(hash, RereadAll(log)[i]) <==> !ExpectsNull(log[i])
    {
      assert Exact(hash, log[i]);
      if log[i].OfExample? {
        RereadExact(hash, log[i]);
      } else {
        NoBodyIsExact(hash, Reread(log[i]));
      }
    }
  }

  lemma NoBodyIsExact(hash: Hash, record: LogRecord)
    requires !record.OfExample?
    ensures Exact(hash, record)
  {
  }
}
