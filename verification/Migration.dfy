/** The migrator as a state machine over its atomic writes: what every crash leaves, and what a finished run reaches. */
module Migration {
  import opened Common
  import opened MigrationState

  // ---------------------------------------------------------------- atomic writes

  function FilesAt(disk: Disk, root: Option<string>): Files
    requires root.Some? ==> root.value in disk.pins
  {
    if root.None? then disk.live else disk.pins[root.value].files
  }

  function WithFile(disk: Disk, root: Option<string>, path: Path, bytes: Bytes): Disk
    requires root.Some? ==> root.value in disk.pins
  {
    WithFiles(disk, root, FilesAt(disk, root)[path := bytes])
  }

  function WithFiles(disk: Disk, root: Option<string>, files: Files): Disk
    requires root.Some? ==> root.value in disk.pins
  {
    if root.None? then disk.(live := files)
    else disk.(pins := disk.pins[root.value := disk.pins[root.value].(files := files)])
  }

  /** A rename of a converted file over the old one: segments before blobs, the live tree before any pin. */
  ghost predicate FileStep(formats: Formats, d: Disk, d': Disk, root: Option<string>, path: Path) {
    && (root.Some? ==> root.value in d.pins && FilesDone(formats, d.live))
    && path in FilesAt(d, root)
    && Outstanding(formats, path, FilesAt(d, root)[path]) && Acceptable(formats, path, FilesAt(d, root)[path])
    && (path.Blob? ==> SegmentsDone(formats, FilesAt(d, root)))
    && d' == WithFile(d, root, path, Converted(formats, path, FilesAt(d, root)[path]))
  }

  /** A pin's manifest rewritten to match its files. */
  ghost predicate PinStep(formats: Formats, d: Disk, d': Disk, pin: string) {
    && FilesDone(formats, d.live)
    && pin in d.pins && FilesDone(formats, d.pins[pin].files)
    && d' == d.(pins := d.pins[pin := PinTarget(formats, d.pins[pin])])
  }

  predicate AllDone(formats: Formats, disk: Disk) {
    FilesDone(formats, disk.live) && forall pin :: pin in disk.pins ==> PinDone(formats, disk.pins[pin])
  }

  function Published(formats: Formats, disk: Disk): Manifest
    requires disk.current in disk.manifests
  {
    Manifest(disk.manifests[disk.current].folded, Manifested(formats, disk.live), Some(CURRENT_FORMAT))
  }

  /** The completion checkpoint's manifest, durable before `CURRENT` moves. */
  ghost predicate ManifestStep(formats: Formats, d: Disk, d': Disk) {
    && d.current in d.manifests && AllDone(formats, d)
    && d' == d.(manifests := d.manifests[d.current + 1 := Published(formats, d)])
  }

  ghost predicate PublishStep(formats: Formats, d: Disk, d': Disk) {
    && d.current in d.manifests && AllDone(formats, d)
    && d.current + 1 in d.manifests && d.manifests[d.current + 1] == Published(formats, d)
    && d' == d.(current := d.current + 1)
  }

  /** Any write before the commit. */
  ghost predicate WorkStep(formats: Formats, d: Disk, d': Disk) {
    || (exists root, path :: FileStep(formats, d, d', root, path))
    || (exists pin :: PinStep(formats, d, d', pin))
    || ManifestStep(formats, d, d')
  }

  // ---------------------------------------------------------------- what a write keeps

  lemma FileStepKeeps(formats: Formats, d: Disk, d': Disk, root: Option<string>, path: Path)
    requires Lawful(formats) && Admissible(formats, d) && FileStep(formats, d, d', root, path)
    ensures Admissible(formats, d') && Goal(formats, d') == Goal(formats, d) && d'.current == d.current
    ensures d'.manifests == d.manifests
  {
    hide Converted, Acceptable, Outstanding, Lawful, ConvertedFiles, Published, Manifested;
    RewriteKeepsTarget(formats, FilesAt(d, root), path);
    if root.Some? {
      var pin, pin' := d.pins[root.value], d'.pins[root.value];
      assert PinTarget(formats, pin') == PinTarget(formats, pin);
      assert forall other :: other in d.pins && other != root.value ==> d'.pins[other] == d.pins[other];
    }
  }

  lemma PinStepKeeps(formats: Formats, d: Disk, d': Disk, pin: string)
    requires Lawful(formats) && Admissible(formats, d) && PinStep(formats, d, d', pin)
    ensures Admissible(formats, d') && Goal(formats, d') == Goal(formats, d) && d'.current == d.current
    ensures d'.manifests == d.manifests
  {
    hide Acceptable, Outstanding, Lawful, ConvertedFiles, Published, Manifested, PinTarget, AcceptablePin;
    PinTargetStable(formats, d.pins[pin]);
    assert forall other :: other in d.pins && other != pin ==> d'.pins[other] == d.pins[other];
  }

  lemma AllDoneIsGoal(formats: Formats, disk: Disk)
    requires Lawful(formats) && Admissible(formats, disk) && AllDone(formats, disk)
    ensures Goal(formats, disk) ==
            disk.(manifests := disk.manifests[disk.current + 1 := Published(formats, disk)],
                  current := disk.current + 1)
  {
    hide Lawful, PinTarget, AcceptablePin, Manifested;
    DoneIsTarget(formats, disk.live);
  }

  lemma ManifestStepKeeps(formats: Formats, d: Disk, d': Disk)
    requires Lawful(formats) && Admissible(formats, d) && ManifestStep(formats, d, d')
    ensures Admissible(formats, d') && Goal(formats, d') == Goal(formats, d) && d'.current == d.current
    ensures d'.manifests[d'.current] == d.manifests[d.current]
  {
    hide Lawful, PinTarget, AcceptablePin, Manifested, ConvertedFiles;
  }

  /** No write before the commit moves the goal, and none declares anything. */
  lemma WorkStepKeeps(formats: Formats, d: Disk, d': Disk)
    requires Lawful(formats) && Admissible(formats, d) && WorkStep(formats, d, d')
    ensures Admissible(formats, d') && Goal(formats, d') == Goal(formats, d)
    ensures d'.current == d.current && d'.manifests[d'.current] == d.manifests[d.current]
  {
    hide Admissible, Goal, FileStep, PinStep, ManifestStep, Lawful;
    if root, path :| FileStep(formats, d, d', root, path) {
      FileStepKeeps(formats, d, d', root, path);
    } else if pin :| PinStep(formats, d, d', pin) {
      PinStepKeeps(formats, d, d', pin);
    } else {
      ManifestStepKeeps(formats, d, d');
    }
    AdmissibleHasCurrent(formats, d);
  }

  lemma AdmissibleHasCurrent(formats: Formats, disk: Disk)
    requires Admissible(formats, disk)
    ensures disk.current in disk.manifests
  {
  }

  lemma PublishReachesGoal(formats: Formats, d: Disk, d': Disk)
    requires Lawful(formats) && Admissible(formats, d) && PublishStep(formats, d, d')
    ensures d' == Goal(formats, d)
  {
    AllDoneIsGoal(formats, d);
    assert d.manifests[d.current + 1 := Published(formats, d)] == d.manifests;
  }

  // ---------------------------------------------------------------- behaviours: opens, writes, crashes

  datatype Event = Open | Work | Commit | Crash

  datatype System = System(disk: Disk, running: bool)

  ghost predicate Next(formats: Formats, s: System, event: Event, s': System) {
    s.disk.current in s.disk.manifests &&
    match event
    case Open => !s.running && s' == System(s.disk, Triggered(formats, s.disk))
    case Work => s.running && s'.running && WorkStep(formats, s.disk, s'.disk)
    case Commit => s.running && !s'.running && PublishStep(formats, s.disk, s'.disk)
    case Crash => s' == System(s.disk, false)
  }

  /** A history: `events[i]` leads from `states[i]` to `states[i + 1]`. The store starts closed. */
  ghost predicate History(formats: Formats, start: Disk, events: seq<Event>, states: seq<System>) {
    && |states| == |events| + 1 && states[0] == System(start, false)
    && forall i :: 0 <= i < |events| ==> Next(formats, states[i], events[i], states[i + 1])
  }

  /** The last open ran to its end: it committed, or found nothing to do. */
  ghost predicate OpenCompleted(events: seq<Event>, states: seq<System>)
    requires |states| == |events| + 1
  {
    |events| > 0 && (events[|events| - 1] == Commit || (events[|events| - 1] == Open && !states[|events|].running))
  }

  /** Once the goal is reached an open finds nothing to do. */
  lemma GoalIsSettled(formats: Formats, disk: Disk)
    requires Lawful(formats) && Admissible(formats, disk)
    ensures var goal := Goal(formats, disk);
            && Admissible(formats, goal) && Declared(goal) && !AnyLegacy(formats, goal) && !Triggered(formats, goal)
  {
    hide Converted, Acceptable, Lawful, AcceptablePin, PinTarget;
    var goal := Goal(formats, disk);
    DoneIsTarget(formats, disk.live);
    forall pin | pin in disk.pins
      ensures AcceptablePin(formats, goal.pins[pin]) && !AnyLegacyIn(formats, goal.pins[pin].files)
    {
      PinTargetStable(formats, disk.pins[pin]);
    }
  }

  ghost predicate Invariant(formats: Formats, start: Disk, s: System)
    requires start.current in start.manifests
  {
    || (Admissible(formats, s.disk) && Goal(formats, s.disk) == Goal(formats, start) && !Declared(s.disk))
    || (s.disk == Goal(formats, start) && !s.running)
  }

  lemma NextKeepsInvariant(formats: Formats, start: Disk, s: System, event: Event, s': System)
    requires Lawful(formats) && Admissible(formats, start)
    requires Invariant(formats, start, s) && Next(formats, s, event, s')
    ensures Invariant(formats, start, s')
    ensures event == Commit ==> s'.disk == Goal(formats, start)
    ensures event == Open && !s'.running ==> s'.disk == Goal(formats, start)
  {
    hide Goal, WorkStep, PublishStep, Lawful, AcceptableFiles, AcceptablePin, AnyLegacy;
    GoalIsSettled(formats, start);
    match event
    case Open =>
      if !Declared(s.disk) && Admissible(formats, s.disk) {
        AdmissibleReadable(formats, s.disk);
      }
    case Work => WorkStepKeeps(formats, s.disk, s'.disk);
    case Commit => PublishReachesGoal(formats, s.disk, s'.disk);
    case Crash =>
  }

  lemma AdmissibleReadable(formats: Formats, disk: Disk)
    requires Admissible(formats, disk)
    ensures Readable(formats, disk.live)
  {
  }

  lemma {:induction false} HistoryKeepsInvariant(formats: Formats, start: Disk, events: seq<Event>, states: seq<System>,
                                                 i: nat)
    requires Lawful(formats) && Admissible(formats, start) && !Declared(start)
    requires History(formats, start, events, states) && i <= |events|
    ensures Invariant(formats, start, states[i])
    decreases i
  {
    hide Goal, Next, Admissible, Lawful;
    AdmissibleHasCurrent(formats, start);
    if i > 0 {
      HistoryKeepsInvariant(formats, start, events, states, i - 1);
      NextKeepsInvariant(formats, start, states[i - 1], events[i - 1], states[i]);
    } else {
      AdmissibleNow(formats, start);
    }
  }

  lemma AdmissibleNow(formats: Formats, start: Disk)
    requires Admissible(formats, start) && !Declared(start)
    ensures Invariant(formats, start, System(start, false))
  {
  }

  /** Crash anywhere, any number of times: the first open that runs to its end leaves exactly the state an
      uninterrupted run would have left. */
  lemma ResumeReachesGoal(formats: Formats, start: Disk, events: seq<Event>, states: seq<System>)
    requires Lawful(formats) && Admissible(formats, start) && !Declared(start)
    requires History(formats, start, events, states) && OpenCompleted(events, states)
    ensures states[|events|].disk == Goal(formats, start)
  {
    hide Goal, Next, Admissible, Lawful, Invariant;
    var last := |events| - 1;
    HistoryKeepsInvariant(formats, start, events, states, last);
    NextKeepsInvariant(formats, start, states[last], events[last], states[|events|]);
  }

  /** A published declaration means what it says, at every moment of every history. */
  lemma DeclarationImpliesMigrated(formats: Formats, start: Disk, events: seq<Event>, states: seq<System>, i: nat)
    requires Lawful(formats) && Admissible(formats, start) && !Declared(start)
    requires History(formats, start, events, states) && i <= |events|
    ensures states[i].disk.current in states[i].disk.manifests
    ensures Declared(states[i].disk) ==> !AnyLegacy(formats, states[i].disk)
  {
    hide Goal, AnyLegacy, Lawful;
    HistoryKeepsInvariant(formats, start, events, states, i);
    GoalIsSettled(formats, start);
  }

  // ---------------------------------------------------------------- what the goal is worth

  /** The goal in terms of what a reader gets: every segment current with its old records, every blob current with its
      old content, every digest true of its file, the log position where it was. */
  lemma GoalMeaning(formats: Formats, disk: Disk)
    requires Lawful(formats) && Admissible(formats, disk)
    ensures var goal := Goal(formats, disk);
            && FilesCarriedOver(formats, disk.live, goal.live)
            && goal.pins.Keys == disk.pins.Keys
            && (forall pin :: pin in goal.pins ==>
                FilesCarriedOver(formats, disk.pins[pin].files, goal.pins[pin].files))
            && (forall pin :: pin in goal.pins ==>
                  DigestsTrue(formats, goal.pins[pin].files, disk.pins[pin].manifest, goal.pins[pin].manifest))
            && goal.current == disk.current + 1 && goal.current in goal.manifests
            && goal.manifests[goal.current].folded == disk.manifests[disk.current].folded
            && goal.manifests[goal.current].format == Some(CURRENT_FORMAT)
            && goal.manifests[goal.current].files == Manifested(formats, goal.live)
  {
    hide Converted, Acceptable, Outstanding, Lawful, BlobContent, FilesCarriedOver, DigestsTrue;
    FilesCarried(formats, disk.live);
    forall pin | pin in disk.pins
      ensures FilesCarriedOver(formats, disk.pins[pin].files, PinTarget(formats, disk.pins[pin]).files)
      ensures DigestsTrue(formats, PinTarget(formats, disk.pins[pin]).files, disk.pins[pin].manifest,
                          PinTarget(formats, disk.pins[pin]).manifest)
    {
      FilesCarried(formats, disk.pins[pin].files);
      PinDigestsTrue(formats, disk.pins[pin]);
    }
  }

  ghost predicate FilesCarriedOver(formats: Formats, before: Files, after: Files) {
    && after.Keys == before.Keys
    && forall path :: path in before ==>
         match path
         case Segment(_) =>
           formats.version(after[path]) == Some(CURRENT_FORMAT)
           && formats.records(after[path]) == formats.records(before[path])
         case Blob(stem) =>
           BlobCurrent(formats, stem, after[path])
           && BlobContent(formats, stem, after[path]) == BlobContent(formats, stem, before[path])
         case _ => after[path] == before[path]
  }

  lemma FilesCarried(formats: Formats, files: Files)
    requires Lawful(formats) && AcceptableFiles(formats, files)
    ensures FilesCarriedOver(formats, files, ConvertedFiles(formats, files))
  {
    hide Names;
    forall path | path in files
      ensures path.Segment? ==> formats.version(Converted(formats, path, files[path])) == Some(CURRENT_FORMAT)
      ensures path.Segment? ==> formats.records(Converted(formats, path, files[path])) == formats.records(files[path])
      ensures path.Blob? ==> BlobCurrent(formats, path.name, Converted(formats, path, files[path]))
      ensures path.Blob? ==> BlobContent(formats, path.name, Converted(formats, path, files[path])) ==
                             BlobContent(formats, path.name, files[path])
    {
      ConvertedIsDone(formats, path, files[path]);
    }
  }

  ghost predicate DigestsTrue(formats: Formats, files: Files, before: Manifest, after: Manifest) {
    && after.folded == before.folded && after.format == Some(CURRENT_FORMAT) && after.files.Keys == before.files.Keys
    && forall path :: path in after.files ==>
         if path.Log? then after.files[path] == before.files[path]
         else path in files && after.files[path] == DigestOf(formats, files[path])
  }

  lemma PinDigestsTrue(formats: Formats, pin: Pin)
    requires AcceptablePin(formats, pin)
    ensures DigestsTrue(formats, PinTarget(formats, pin).files, pin.manifest, PinTarget(formats, pin).manifest)
  {
    hide Converted, Acceptable;
  }

  // ---------------------------------------------------------------- where resuming is not guaranteed

  /** The files some pass still has to rewrite. */
  ghost function Remaining(formats: Formats, disk: Disk): set<(Option<string>, Path)> {
    (set path | path in disk.live && Outstanding(formats, path, disk.live[path]) :: (None, path))
    + (set pin, path | pin in disk.pins && path in disk.pins[pin].files
                       && Outstanding(formats, path, disk.pins[pin].files[path]) :: (Some(pin), path))
  }

  lemma FileStepShrinks(formats: Formats, d: Disk, d': Disk, root: Option<string>, path: Path)
    requires Lawful(formats) && FileStep(formats, d, d', root, path)
    ensures Remaining(formats, d') == Remaining(formats, d) - {(root, path)} && (root, path) in Remaining(formats, d)
  {
    hide Converted, Outstanding, Acceptable, Lawful;
    ConvertedIsDone(formats, path, FilesAt(d, root)[path]);
    forall root': Option<string>, path': Path
      ensures (root', path') in Remaining(formats, d') <==> (root', path') in Remaining(formats, d) - {(root, path)}
    {
      if root'.Some? && root'.value in d.pins && root.Some? && root'.value != root.value {
        assert d'.pins[root'.value] == d.pins[root'.value];
      }
    }
  }

  /** A running store with a legacy segment can always rewrite some file next. */
  lemma NextFile(formats: Formats, d: Disk) returns (root: Option<string>, path: Path, d': Disk)
    requires Admissible(formats, d) && AnyLegacy(formats, d)
    ensures FileStep(formats, d, d', root, path)
  {
    hide Converted;
    if !FilesDone(formats, d.live) {
      root := None;
      if !SegmentsDone(formats, d.live) {
        path :| path in d.live && path.Segment? && Outstanding(formats, path, d.live[path]);
      } else {
        path :| path in d.live && Outstanding(formats, path, d.live[path]);
      }
    } else {
      assert !AnyLegacyIn(formats, d.live);
      var pin :| pin in d.pins && AnyLegacyIn(formats, d.pins[pin].files);
      root := Some(pin);
      path :| path in d.pins[pin].files && path.Segment? && IsLegacy(formats.version(d.pins[pin].files[path]));
      assert AcceptablePin(formats, d.pins[pin]);
    }
    d' := WithFile(d, root, path, Converted(formats, path, FilesAt(d, root)[path]));
  }

  /** An uninterrupted stretch of writes that leaves no legacy segment and has committed nothing. */
  lemma {:induction false} WorkOffLegacy(formats: Formats, d: Disk) returns (disks: seq<Disk>)
    requires Lawful(formats) && Admissible(formats, d)
    ensures |disks| > 0 && disks[0] == d
    ensures forall i :: 0 <= i < |disks| - 1 ==>
              disks[i].current in disks[i].manifests && WorkStep(formats, disks[i], disks[i + 1])
    ensures var last := disks[|disks| - 1];
            !AnyLegacy(formats, last) && last.current == d.current && last.manifests == d.manifests
    decreases |Remaining(formats, d)|
  {
    hide FileStep, AnyLegacy, Lawful, Remaining, Admissible;
    disks := [d];
    AdmissibleHasCurrent(formats, d);
    if AnyLegacy(formats, d) {
      var root, path, d' := NextFile(formats, d);
      FileStepShrinks(formats, d, d', root, path);
      FileStepKeeps(formats, d, d', root, path);
      var rest := WorkOffLegacy(formats, d');
      disks := [d] + rest;
      assert WorkStep(formats, d, d');
    }
  }

  /** A crash after the last conversion and before the commit, in a store that already declared the current format:
      the next open sees no legacy version word and a declaration, and returns at once. */
  lemma DeclaredStoreStopsShort(formats: Formats, start: Disk) returns (events: seq<Event>, states: seq<System>)
    requires Lawful(formats) && Admissible(formats, start) && Triggered(formats, start) && Declared(start)
    ensures History(formats, start, events, states) && OpenCompleted(events, states)
    ensures states[|events|].disk.current == start.current && states[|events|].disk != Goal(formats, start)
  {
    hide WorkStep, AnyLegacy, Lawful, Admissible;
    var disks := WorkOffLegacy(formats, start);
    var n := |disks| - 1;
    events := [Open] + seq(n, i => Work) + [Crash, Open];
    states := [System(start, false)] + seq(n + 1, i requires 0 <= i < n + 1 => System(disks[i], true))
              + [System(disks[n], false), System(disks[n], false)];
    forall i | 0 <= i < |events|
      ensures Next(formats, states[i], events[i], states[i + 1])
    {
      if i == 0 {
      } else if i <= n {
        assert states[i] == System(disks[i - 1], true) && states[i + 1] == System(disks[i], true);
        assert WorkStep(formats, disks[i - 1], disks[i - 1 + 1]);
      }
    }
  }

  /** Resuming is guaranteed for exactly the stores whose live manifest does not declare the current format yet. */
  lemma ResumeGuaranteed(formats: Formats, start: Disk)
    requires Lawful(formats) && Admissible(formats, start) && Triggered(formats, start)
    ensures !Declared(start) <==>
            forall events: seq<Event>, states: seq<System> ::
              History(formats, start, events, states) && OpenCompleted(events, states) ==>
              states[|events|].disk == Goal(formats, start)
  {
    hide Next, Goal, Lawful, Admissible;
    AdmissibleHasCurrent(formats, start);
    if Declared(start) {
      var events, states := DeclaredStoreStopsShort(formats, start);
    } else {
      forall events: seq<Event>, states: seq<System> |
        History(formats, start, events, states) && OpenCompleted(events, states)
        ensures states[|events|].disk == Goal(formats, start)
      {
        ResumeReachesGoal(formats, start, events, states);
      }
    }
  }

  // ---------------------------------------------------------------- a store that shows it

  ghost const TINY: Formats := Formats(
    (bytes: Bytes) => if bytes == [7] then Some(7) else if bytes == [8] then Some(8) else None,
    (bytes: Bytes) => if bytes == [7] then Some([8]) else None,
    (bytes: Bytes) => bytes == [8],
    (bytes: Bytes) => [],
    (bytes: Bytes) => if bytes == [7] then "7" else "8",
    (bytes: Bytes) => if |bytes| > 0 then Some(bytes[1..]) else None,
    (bytes: Bytes) => [0] + bytes)

  /** A migrated store that is handed a pin taken before the migration. */
  ghost const OLD_PIN: Disk := Disk(
    false, map[],
    map["p" := Pin(map[Segment("s") := [7]], Manifest((0, 0), map[Segment("s") := Digest(1, "7")], None))],
    map[1 := Manifest((0, 0), map[], Some(CURRENT_FORMAT))], 1)

  /** The same store once the pin's one file is converted and nothing else has happened. */
  ghost const HALF_WAY: Disk := OLD_PIN.(
    pins := map["p" := OLD_PIN.pins["p"].(files := map[Segment("s") := [8]])])

  lemma TinyIsLawful()
    ensures Lawful(TINY)
  {
    forall bytes: Bytes
      ensures TINY.decodeBlob(TINY.encodeBlob(bytes)) == Some(bytes)
    {
      assert ([0] + bytes)[1..] == bytes;
    }
  }

  lemma OldPinIsMigrated()
    ensures Admissible(TINY, OLD_PIN) && Triggered(TINY, OLD_PIN)
    ensures FileStep(TINY, OLD_PIN, HALF_WAY, Some("p"), Segment("s"))
  {
    var pin := OLD_PIN.pins["p"];
    assert pin.files == map[Segment("s") := [7]] && TINY.version([7]) == Some(7) && TINY.convert([7]) == Some([8]);
    assert ConvertedFiles(TINY, pin.files) == map[Segment("s") := [8]] && TINY.valid([8]);
    assert Segment("s") in pin.files && IsLegacy(TINY.version(pin.files[Segment("s")]));
    assert AnyLegacyIn(TINY, pin.files);
    assert pin.files[Segment("s") := [8]] == map[Segment("s") := [8]];
    assert WithFile(OLD_PIN, Some("p"), Segment("s"), [8]).pins == HALF_WAY.pins;
  }

  lemma HalfWayIsNotTriggered()
    ensures !Triggered(TINY, HALF_WAY)
  {
    assert TINY.version([8]) == Some(8);
    assert HALF_WAY.live == map[];
  }

  /** Its open is killed between the pin's file pass and the pin's manifest rewrite. The next open completes without
      touching the pin, whose manifest then never matches its file again. */
  lemma OldPinIsLeftUnverifiable() returns (events: seq<Event>, states: seq<System>)
    ensures Lawful(TINY) && Admissible(TINY, OLD_PIN) && Triggered(TINY, OLD_PIN)
    ensures History(TINY, OLD_PIN, events, states) && OpenCompleted(events, states)
    ensures states[|events|] == System(HALF_WAY, false) && !Triggered(TINY, HALF_WAY)
    ensures HALF_WAY.pins["p"].manifest.files[Segment("s")] != DigestOf(TINY, HALF_WAY.pins["p"].files[Segment("s")])
  {
    hide Lawful, Admissible, Triggered, FileStep;
    TinyIsLawful();
    OldPinIsMigrated();
    HalfWayIsNotTriggered();
    events := [Open, Work, Crash, Open];
    states := [System(OLD_PIN, false), System(OLD_PIN, true), System(HALF_WAY, true), System(HALF_WAY, false),
               System(HALF_WAY, false)];
    assert WorkStep(TINY, OLD_PIN, HALF_WAY);
  }
}
