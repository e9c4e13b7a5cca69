/** `run_at_open` itself, killed after any number of atomic writes. */
module Migrator {
  import opened Common
  import opened MigrationState
  import opened Migration

  datatype Outcome = SteppedAside | AlreadyCurrent | Refused | Crashed | Completed

  /** A chain of writes of one run. */
  ghost predicate Writes(formats: Formats, disks: seq<Disk>) {
    && |disks| > 0
    && forall i :: 0 <= i < |disks| - 1 ==>
         disks[i].current in disks[i].manifests && WorkStep(formats, disks[i], disks[i + 1])
  }

  lemma {:induction false} WritesKeep(formats: Formats, disks: seq<Disk>)
    requires Lawful(formats) && Writes(formats, disks) && Admissible(formats, disks[0])
    ensures var last := disks[|disks| - 1];
            Admissible(formats, last) && Goal(formats, last) == Goal(formats, disks[0])
    decreases |disks|
  {
    hide WorkStep, Goal, Lawful, Admissible;
    AdmissibleHasCurrent(formats, disks[0]);
    if |disks| > 1 {
      WorkStepKeeps(formats, disks[0], disks[1]);
      assert forall i :: 0 <= i < |disks[1..]| ==> disks[1..][i] == disks[i + 1];
      WritesKeep(formats, disks[1..]);
    }
  }

  lemma WritesStep(formats: Formats, disks: seq<Disk>, next: Disk)
    requires Writes(formats, disks) && WorkStep(formats, disks[|disks| - 1], next)
    requires disks[|disks| - 1].current in disks[|disks| - 1].manifests
    ensures Writes(formats, disks + [next])
  {
    hide WorkStep;
    var more := disks + [next];
    forall i | 0 <= i < |more| - 1
      ensures more[i].current in more[i].manifests && WorkStep(formats, more[i], more[i + 1])
    {
      if i < |disks| - 1 {
        assert WorkStep(formats, disks[i], disks[i + 1]);
      }
    }
  }

  class Store {
    var disk: Disk
    /** Atomic writes left before the process is killed. */
    var budget: nat
    var killed: bool
    /** Every state this run has left on disk, oldest first. */
    ghost var written: seq<Disk>

    constructor (disk: Disk, budget: nat)
      ensures this.disk == disk && this.budget == budget && !killed && written == [disk]
    {
      this.disk, this.budget, killed, written := disk, budget, false, [disk];
    }

    ghost predicate Tracked(formats: Formats)
      reads this
    {
      |written| > 0 && Writes(formats, written) && written[|written| - 1] == disk && disk.current in disk.manifests
    }

    /** One atomic write, or the kill that comes before it. */
    method Write(formats: Formats, next: Disk)
      requires Tracked(formats) && !killed && WorkStep(formats, disk, next) && next.current in next.manifests
      modifies this
      ensures Tracked(formats) && written[0] == old(written[0])
      ensures if killed then disk == old(disk) else disk == next
    {
      hide WorkStep;
      if budget == 0 {
        killed := true;
        return;
      }
      budget := budget - 1;
      WritesStep(formats, written, next);
      disk := next;
      written := written + [next];
    }

    /** Rewrites the file under `path` if a pass has to; `accepted` is false for a file that no pass can convert. */
    method ConvertFile(formats: Formats, root: Option<string>, path: Path) returns (accepted: bool)
      requires Lawful(formats) && Tracked(formats) && !killed
      requires root.Some? ==> root.value in disk.pins && FilesDone(formats, disk.live)
      requires path in FilesAt(disk, root)
      requires path.Blob? ==> SegmentsDone(formats, FilesAt(disk, root))
      modifies this
      ensures Tracked(formats) && written[0] == old(written[0])
      ensures accepted == Acceptable(formats, path, old(FilesAt(disk, root)[path]))
      ensures !accepted ==> disk == old(disk) && !killed
      ensures accepted && !killed ==>
                disk == WithFile(old(disk), root, path, Converted(formats, path, old(FilesAt(disk, root)[path])))
    {
      hide Lawful, Acceptable, Outstanding, Converted, WorkStep, Writes;
      var bytes := FilesAt(disk, root)[path];
      accepted := Acceptable(formats, path, bytes);
      if accepted {
        ConvertedIsDone(formats, path, bytes);
        var next := WithFile(disk, root, path, Converted(formats, path, bytes));
        if Outstanding(formats, path, bytes) {
          assert FileStep(formats, disk, next, root, path);
          FileStepIsWork(formats, disk, next, root, path);
          Write(formats, next);
        } else {
          SameFile(disk, root, path);
        }
      }
    }

    /** The segment pass over one tree: stops at the first segment that does not convert. */
    method SegmentPass(formats: Formats, root: Option<string>) returns (accepted: bool)
      requires Lawful(formats) && Tracked(formats) && !killed
      requires root.Some? ==> root.value in disk.pins && FilesDone(formats, disk.live)
      modifies this
      ensures Tracked(formats) && written[0] == old(written[0])
      ensures !accepted ==> !AcceptableFiles(formats, old(FilesAt(disk, root)))
      ensures accepted && !killed ==>
                Passing(formats, old(disk), root, OfKind(old(FilesAt(disk, root)), false), disk)
    {
      hide Lawful, Acceptable, Writes, FilesAt, FilesDone, SegmentsDone, Passing;
      ghost var start := disk;
      var rest := OfKind(FilesAt(disk, root), false);
      ghost var done: set<Path> := {};
      PassingStart(formats, disk, root);
      accepted := true;
      while rest != {}
        invariant accepted && !killed && Tracked(formats) && written[0] == old(written[0])
        invariant done + rest == OfKind(FilesAt(start, root), false) && done !! rest
        invariant Passing(formats, start, root, done, disk)
        decreases rest
      {
        var path :| path in rest;
        PassingReads(formats, start, root, done, disk, path);
        rest := rest - {path};
        ghost var before := disk;
        accepted := ConvertFile(formats, root, path);
        if !accepted {
          NotAcceptable(formats, FilesAt(start, root), path);
        }
        if !accepted || killed {
          return;
        }
        PassingStep(formats, start, root, done, before, path);
        done := done + {path};
      }
      assert done == OfKind(FilesAt(start, root), false);
    }

    /** The blob pass over one tree: converts what it can and reports every file that is in neither format. */
    method BlobPass(formats: Formats, root: Option<string>) returns (accepted: bool)
      requires Lawful(formats) && Tracked(formats) && !killed
      requires root.Some? ==> root.value in disk.pins && FilesDone(formats, disk.live)
      requires SegmentsDone(formats, FilesAt(disk, root))
      modifies this
      ensures Tracked(formats) && written[0] == old(written[0])
      ensures !accepted ==> exists path :: path in old(FilesAt(disk, root)) && path.Blob?
                                           && !Acceptable(formats, path, old(FilesAt(disk, root))[path])
      ensures accepted && !killed ==>
                Passing(formats, old(disk), root, OfKind(old(FilesAt(disk, root)), true), disk)
    {
      hide Lawful, Acceptable, Writes, FilesAt, FilesDone, SegmentsDone, Passing;
      ghost var start := disk;
      var rest := OfKind(FilesAt(disk, root), true);
      ghost var done: set<Path> := {};
      var problems: set<Path> := {};
      PassingStart(formats, disk, root);
      while rest != {}
        invariant !killed && Tracked(formats) && written[0] == old(written[0])
        invariant done + problems + rest == OfKind(FilesAt(start, root), true) && done !! rest && done !! problems
        invariant problems !! rest
        invariant Passing(formats, start, root, done, disk)
        invariant forall path :: path in problems ==> !Acceptable(formats, path, FilesAt(start, root)[path])
        decreases rest
      {
        var path :| path in rest;
        PassingReads(formats, start, root, done, disk, path);
        BlobsLeaveSegments(formats, start, root, done, disk);
        rest := rest - {path};
        ghost var before := disk;
        var accepts := ConvertFile(formats, root, path);
        if !accepts {
          problems := problems + {path};
        } else if killed {
          return problems == {};
        } else {
          PassingStep(formats, start, root, done, before, path);
          done := done + {path};
        }
      }
      accepted := problems == {};
      if accepted {
        assert done == OfKind(FilesAt(start, root), true);
      } else {
        ghost var path :| path in problems;
        assert path in FilesAt(start, root);
      }
    }

    /** One pin: both file passes, then the manifest rewritten if any digest moved or the format is not declared. */
    method MigratePin(formats: Formats, pin: string) returns (accepted: bool)
      requires Lawful(formats) && Tracked(formats) && !killed
      requires pin in disk.pins && FilesDone(formats, disk.live)
      modifies this
      ensures Tracked(formats) && written[0] == old(written[0])
      ensures !accepted ==> !AcceptablePin(formats, old(disk.pins[pin]))
      ensures accepted && !killed ==>
                AcceptablePin(formats, old(disk.pins[pin]))
                && disk == old(disk).(pins := old(disk.pins)[pin := PinTarget(formats, old(disk.pins[pin]))])
    {
      hide Lawful, Acceptable, Outstanding, Converted, Writes, WorkStep, Passing, EntryAcceptable;
      ghost var start := disk;
      ghost var original := disk.pins[pin];
      accepted := SegmentPass(formats, Some(pin));
      if !accepted || killed {
        return;
      }
      ghost var between := disk;
      AfterSegments(formats, start, Some(pin), disk);
      accepted := BlobPass(formats, Some(pin));
      if !accepted {
        BlobRefused(formats, start, Some(pin), between);
      }
      if !accepted || killed {
        return;
      }
      AfterBlobs(formats, start, Some(pin), between, disk);
      assert disk.pins[pin] == original.(files := ConvertedFiles(formats, original.files));
      var dirty, refused := CheckEntries(formats, disk.pins[pin]);
      if refused {
        accepted := false;
        return;
      }
      if dirty {
        var next := disk.(pins := disk.pins[pin := PinTarget(formats, disk.pins[pin])]);
        DoneIsTarget(formats, original.files);
        assert PinStep(formats, disk, next, pin);
        PinStepIsWork(formats, disk, next, pin);
        Write(formats, next);
        assert next == start.(pins := start.pins[pin := PinTarget(formats, original)]);
      } else {
        assert disk.pins == start.pins[pin := PinTarget(formats, original)];
      }
    }

    /** The manifest loop of one pin: which entries moved, and whether each moved one can prove itself. */
    method CheckEntries(formats: Formats, pin: Pin) returns (dirty: bool, refused: bool)
      ensures refused <==> exists path :: path in pin.manifest.files
                                          && !EntryAcceptable(formats, pin.files, path, pin.manifest.files[path])
      ensures !refused && !dirty ==>
                pin.manifest.format == Some(CURRENT_FORMAT)
                && RedigestedFiles(formats, pin.files, pin.manifest.files) == pin.manifest.files
    {
      dirty, refused := pin.manifest.format != Some(CURRENT_FORMAT), false;
      var rest := pin.manifest.files.Keys;
      while rest != {}
        invariant rest <= pin.manifest.files.Keys && !refused
        invariant !dirty ==> pin.manifest.format == Some(CURRENT_FORMAT)
        invariant forall path :: path in pin.manifest.files.Keys - rest ==>
                    && EntryAcceptable(formats, pin.files, path, pin.manifest.files[path])
                    && (!dirty ==> path.Log? || (path in pin.files
                                                 && pin.manifest.files[path] == DigestOf(formats, pin.files[path])))
        decreases rest
      {
        var path :| path in rest;
        rest := rest - {path};
        if !path.Log? {
          if path !in pin.files {
            refused := true;
            return;
          }
          if pin.manifest.files[path] != DigestOf(formats, pin.files[path]) {
            if path.Segment? {
              if !formats.valid(pin.files[path]) {
                refused := true;
                return;
              }
            } else if !path.Blob? && !path.StrayBlob? {
              refused := true;
              return;
            }
            dirty := true;
          }
        }
      }
    }

    /** The live tree: both passes. */
    method MigrateLive(formats: Formats) returns (accepted: bool)
      requires Lawful(formats) && Tracked(formats) && !killed
      modifies this
      ensures Tracked(formats) && written[0] == old(written[0])
      ensures !accepted ==> !AcceptableFiles(formats, old(disk.live))
      ensures accepted && !killed ==>
                disk == old(disk).(live := ConvertedFiles(formats, old(disk.live)))
                && AcceptableFiles(formats, old(disk.live)) && FilesDone(formats, disk.live)
    {
      hide Lawful, Acceptable, Outstanding, Converted, Writes, WorkStep, Passing;
      ghost var start := disk;
      accepted := SegmentPass(formats, None);
      if !accepted || killed {
        return;
      }
      ghost var between := disk;
      AfterSegments(formats, start, None, disk);
      accepted := BlobPass(formats, None);
      if !accepted {
        BlobRefused(formats, start, None, between);
      }
      if !accepted || killed {
        return;
      }
      AfterBlobs(formats, start, None, between, disk);
      DoneIsTarget(formats, start.live);
    }

    /** The completion checkpoint: the manifest first, `CURRENT` last. */
    method Complete(formats: Formats)
      requires Lawful(formats) && Tracked(formats) && !killed && AllDone(formats, disk)
      modifies this
      ensures killed ==> Tracked(formats) && written[0] == old(written[0])
      ensures !killed ==>
                disk
                == old(disk).(manifests := old(disk.manifests)[old(disk.current) + 1 := Published(formats, old(disk))],
                              current := old(disk.current) + 1)
    {
      hide AllDone, Writes, WorkStep, Lawful, Published;
      var next := disk.(manifests := disk.manifests[disk.current + 1 := Published(formats, disk)]);
      ManifestStepIsWork(formats, disk, next);
      Write(formats, next);
      if killed {
        return;
      }
      if budget == 0 {
        killed := true;
        return;
      }
      budget := budget - 1;
      disk := disk.(current := disk.current + 1);
    }

    /** The entry point. A completed run reaches the goal of the state it started in; a killed one leaves that goal
        where it was, so the next open reaches it too; a refusal means that no run could have completed. */
    method RunAtOpen(formats: Formats) returns (outcome: Outcome)
      requires Lawful(formats) && disk.current in disk.manifests && !killed && written == [disk]
      modifies this
      ensures outcome == SteppedAside || outcome == AlreadyCurrent ==>
                disk == old(disk) && !Triggered(formats, old(disk))
      ensures outcome == Refused ==> !Admissible(formats, old(disk))
      ensures outcome == Completed ==> Admissible(formats, old(disk)) && disk == Goal(formats, old(disk))
      ensures outcome == Crashed ==>
                Tracked(formats) && written[0] == old(disk)
                && (Admissible(formats, old(disk)) ==>
                      Admissible(formats, disk) && Goal(formats, disk) == Goal(formats, old(disk)))
      ensures Admissible(formats, old(disk)) && Triggered(formats, old(disk)) ==>
                outcome == Completed || outcome == Crashed
    {
      hide Lawful, Acceptable, Outstanding, Converted, Writes, WorkStep, AcceptablePin, PinTarget;
      ghost var start := disk;
      NoWritesYet(formats, disk);
      if disk.jsonl {
        return SteppedAside;
      }
      var anyLegacy := AnyLegacy(formats, disk);
      if !Readable(formats, disk.live) {
        UnreadableIsRefused(formats, disk);
        return if anyLegacy then Refused else SteppedAside;
      }
      if !anyLegacy && Declared(disk) {
        return AlreadyCurrent;
      }
      var accepted := MigrateLive(formats);
      if !accepted {
        return Refused;
      }
      if killed {
        CrashKeepsGoal(formats, start, written);
        return Crashed;
      }
      var rest := disk.pins.Keys;
      while rest != {}
        invariant rest <= start.pins.Keys && !killed && Tracked(formats) && written[0] == start
        invariant disk == start.(live := ConvertedFiles(formats, start.live), pins := disk.pins)
        invariant disk.pins.Keys == start.pins.Keys && FilesDone(formats, disk.live)
        invariant forall pin :: pin in rest ==> disk.pins[pin] == start.pins[pin]
        invariant forall pin :: pin in start.pins.Keys - rest ==>
                    AcceptablePin(formats, start.pins[pin]) && disk.pins[pin] == PinTarget(formats, start.pins[pin])
        decreases rest
      {
        var pin :| pin in rest;
        rest := rest - {pin};
        accepted := MigratePin(formats, pin);
        if !accepted {
          return Refused;
        }
        if killed {
          CrashKeepsGoal(formats, start, written);
          return Crashed;
        }
      }
      PinsAllDone(formats, start, disk);
      Complete(formats);
      if killed {
        CrashKeepsGoal(formats, start, written);
        return Crashed;
      }
      return Completed;
    }
  }

  lemma NoWritesYet(formats: Formats, disk: Disk)
    ensures Writes(formats, [disk])
  {
  }

  lemma UnreadableIsRefused(formats: Formats, disk: Disk)
    requires !Readable(formats, disk.live)
    ensures !Admissible(formats, disk)
  {
  }

  lemma CrashKeepsGoal(formats: Formats, start: Disk, disks: seq<Disk>)
    requires Lawful(formats) && Writes(formats, disks) && disks[0] == start
    ensures Admissible(formats, start) ==>
              var last := disks[|disks| - 1];
              Admissible(formats, last) && Goal(formats, last) == Goal(formats, start)
  {
    hide Lawful, Admissible, Goal;
    if Admissible(formats, start) {
      WritesKeep(formats, disks);
    }
  }

  lemma PinsAllDone(formats: Formats, start: Disk, disk: Disk)
    requires Lawful(formats) && disk.current in disk.manifests && !start.jsonl
    requires AcceptableFiles(formats, start.live)
    requires disk == start.(live := ConvertedFiles(formats, start.live), pins := disk.pins)
    requires disk.pins.Keys == start.pins.Keys && FilesDone(formats, disk.live)
    requires forall pin :: pin in start.pins ==>
               AcceptablePin(formats, start.pins[pin]) && disk.pins[pin] == PinTarget(formats, start.pins[pin])
    ensures AllDone(formats, disk) && Admissible(formats, start)
    ensures Goal(formats, start) ==
            disk.(manifests := disk.manifests[disk.current + 1 := Published(formats, disk)],
                  current := disk.current + 1)
  {
    hide Lawful, AcceptableFiles, AcceptablePin, PinTarget, Manifested, ConvertedFiles, FilesDone;
    forall pin | pin in start.pins
      ensures PinDone(formats, disk.pins[pin])
    {
      PinTargetStable(formats, start.pins[pin]);
    }
    assert Goal(formats, start).pins == disk.pins;
  }

  lemma PinStepIsWork(formats: Formats, d: Disk, d': Disk, pin: string)
    requires PinStep(formats, d, d', pin)
    ensures WorkStep(formats, d, d')
  {
  }

  lemma ManifestStepIsWork(formats: Formats, d: Disk, d': Disk)
    requires d.current in d.manifests && AllDone(formats, d)
    requires d' == d.(manifests := d.manifests[d.current + 1 := Published(formats, d)])
    ensures WorkStep(formats, d, d')
  {
  }

  lemma AfterSegments(formats: Formats, start: Disk, root: Option<string>, disk: Disk)
    requires Lawful(formats) && (root.Some? ==> root.value in start.pins)
    requires Passing(formats, start, root, OfKind(FilesAt(start, root), false), disk)
    ensures root.Some? ==> root.value in disk.pins && FilesDone(formats, disk.live)
    ensures SegmentsDone(formats, FilesAt(disk, root))
    ensures OfKind(FilesAt(disk, root), true) == OfKind(FilesAt(start, root), true)
    ensures forall path :: path in FilesAt(start, root) && path.Blob? ==>
              path in FilesAt(disk, root) && FilesAt(disk, root)[path] == FilesAt(start, root)[path]
  {
    hide Lawful, Acceptable, Outstanding, Converted;
    var before := FilesAt(start, root);
    var done := OfKind(before, false);
    WithFilesReads(start, root, PartlyConverted(formats, before, done));
    forall path | path in done
      ensures !Outstanding(formats, path, Converted(formats, path, before[path]))
    {
      ConvertedIsDone(formats, path, before[path]);
    }
  }

  lemma BlobRefused(formats: Formats, start: Disk, root: Option<string>, between: Disk)
    requires (root.Some? ==> root.value in start.pins && root.value in between.pins)
    requires OfKind(FilesAt(between, root), true) == OfKind(FilesAt(start, root), true)
    requires forall path :: path in FilesAt(start, root) && path.Blob? ==>
               path in FilesAt(between, root) && FilesAt(between, root)[path] == FilesAt(start, root)[path]
    requires exists path :: path in FilesAt(between, root) && path.Blob?
                            && !Acceptable(formats, path, FilesAt(between, root)[path])
    ensures !AcceptableFiles(formats, FilesAt(start, root))
  {
    hide Acceptable;
    var path :| path in FilesAt(between, root) && path.Blob?
                && !Acceptable(formats, path, FilesAt(between, root)[path]);
    assert path in OfKind(FilesAt(between, root), true);
    assert path in OfKind(FilesAt(start, root), true);
  }

  lemma AfterBlobs(formats: Formats, start: Disk, root: Option<string>, between: Disk, disk: Disk)
    requires Lawful(formats) && (root.Some? ==> root.value in start.pins && root.value in between.pins)
    requires Passing(formats, start, root, OfKind(FilesAt(start, root), false), between)
    requires Passing(formats, between, root, OfKind(FilesAt(between, root), true), disk)
    ensures AcceptableFiles(formats, FilesAt(start, root))
    ensures disk == WithFiles(start, root, ConvertedFiles(formats, FilesAt(start, root)))
  {
    hide Lawful, Outstanding, FilesDone;
    AfterSegments(formats, start, root, between);
    var before := FilesAt(start, root);
    var segments := OfKind(before, false);
    WithFilesReads(start, root, PartlyConverted(formats, before, segments));
    WithFilesReads(start, root, ConvertedFiles(formats, before));
    BothPasses(formats, before);
    forall path | path in before
      ensures Acceptable(formats, path, before[path])
    {
      if path.Segment? {
        assert path in segments;
      } else if path.Blob? {
        assert path in OfKind(FilesAt(between, root), true);
      }
    }
  }

  lemma BothPasses(formats: Formats, files: Files)
    ensures var segments := PartlyConverted(formats, files, OfKind(files, false));
            PartlyConverted(formats, segments, OfKind(segments, true)) == ConvertedFiles(formats, files)
  {
  }

  // ---------------------------------------------------------------- the passes as functions on files

  ghost function PartlyConverted(formats: Formats, files: Files, done: set<Path>): Files {
    map path | path in files :: if path in done then Converted(formats, path, files[path]) else files[path]
  }

  /** The paths a pass looks at: the blobs, or else the segments. */
  function OfKind(files: Files, blobs: bool): set<Path> {
    set path | path in files && (if blobs then path.Blob? else path.Segment?)
  }

  /** `disk` is `start` with the files under `done` converted and nothing else changed. */
  ghost predicate Passing(formats: Formats, start: Disk, root: Option<string>, done: set<Path>, disk: Disk) {
    && (root.Some? ==> root.value in start.pins && FilesDone(formats, start.live))
    && done <= FilesAt(start, root).Keys
    && (forall path :: path in done ==> Acceptable(formats, path, FilesAt(start, root)[path]))
    && disk == WithFiles(start, root, PartlyConverted(formats, FilesAt(start, root), done))
  }

  lemma PassingStart(formats: Formats, disk: Disk, root: Option<string>)
    requires root.Some? ==> root.value in disk.pins && FilesDone(formats, disk.live)
    ensures Passing(formats, disk, root, {}, disk)
  {
    hide Acceptable, Converted, FilesDone;
    SameFiles(disk, root);
    assert PartlyConverted(formats, FilesAt(disk, root), {}) == FilesAt(disk, root);
  }

  lemma PassingReads(formats: Formats, start: Disk, root: Option<string>, done: set<Path>, disk: Disk, path: Path)
    requires Passing(formats, start, root, done, disk) && path in FilesAt(start, root) && path !in done
    ensures root.Some? ==> root.value in disk.pins && FilesDone(formats, disk.live)
    ensures path in FilesAt(disk, root) && FilesAt(disk, root)[path] == FilesAt(start, root)[path]
  {
    hide Acceptable, Converted, FilesDone;
    WithFilesReads(start, root, PartlyConverted(formats, FilesAt(start, root), done));
  }

  lemma PassingStep(formats: Formats, start: Disk, root: Option<string>, done: set<Path>, disk: Disk, path: Path)
    requires Passing(formats, start, root, done, disk) && path in FilesAt(start, root) && path !in done
    requires Acceptable(formats, path, FilesAt(start, root)[path])
    ensures root.Some? ==> root.value in disk.pins
    ensures var next := WithFile(disk, root, path, Converted(formats, path, FilesAt(start, root)[path]));
            Passing(formats, start, root, done + {path}, next)
  {
    hide Acceptable, Converted, FilesDone;
    var before := FilesAt(start, root);
    WithFilesReads(start, root, PartlyConverted(formats, before, done));
    assert PartlyConverted(formats, before, done)[path := Converted(formats, path, before[path])] ==
           PartlyConverted(formats, before, done + {path});
  }

  lemma BlobsLeaveSegments(formats: Formats, start: Disk, root: Option<string>, done: set<Path>, disk: Disk)
    requires Passing(formats, start, root, done, disk) && SegmentsDone(formats, FilesAt(start, root))
    requires done <= OfKind(FilesAt(start, root), true)
    ensures root.Some? ==> root.value in disk.pins
    ensures SegmentsDone(formats, FilesAt(disk, root))
  {
    hide Acceptable, Converted, FilesDone, Outstanding;
    WithFilesReads(start, root, PartlyConverted(formats, FilesAt(start, root), done));
  }

  lemma NotAcceptable(formats: Formats, files: Files, path: Path)
    requires path in files && !Acceptable(formats, path, files[path])
    ensures !AcceptableFiles(formats, files)
  {
  }

  lemma FileStepIsWork(formats: Formats, d: Disk, d': Disk, root: Option<string>, path: Path)
    requires FileStep(formats, d, d', root, path)
    ensures WorkStep(formats, d, d')
  {
  }

  lemma SameFile(disk: Disk, root: Option<string>, path: Path)
    requires (root.Some? ==> root.value in disk.pins) && path in FilesAt(disk, root)
    ensures WithFile(disk, root, path, FilesAt(disk, root)[path]) == disk
  {
    assert FilesAt(disk, root)[path := FilesAt(disk, root)[path]] == FilesAt(disk, root);
    SameFiles(disk, root);
  }

  lemma SameFiles(disk: Disk, root: Option<string>)
    requires root.Some? ==> root.value in disk.pins
    ensures WithFiles(disk, root, FilesAt(disk, root)) == disk
  {
    if root.Some? {
      assert disk.pins[root.value := disk.pins[root.value]] == disk.pins;
    }
  }

  lemma WithFilesReads(disk: Disk, root: Option<string>, files: Files)
    requires root.Some? ==> root.value in disk.pins
    ensures var next := WithFiles(disk, root, files);
            && (root.Some? ==> root.value in next.pins && next.live == disk.live)
            && FilesAt(next, root) == files
            && forall other :: WithFiles(next, root, other) == WithFiles(disk, root, other)
  {
    if root.Some? {
      forall other
        ensures WithFiles(WithFiles(disk, root, files), root, other) == WithFiles(disk, root, other)
      {
        assert WithFiles(WithFiles(disk, root, files), root, other).pins == WithFiles(disk, root, other).pins;
      }
    }
  }
}
