/** The on-disk state that the legacy-format migrator of `src/migration.rs` rewrites, and the state it has to reach.

    A directory is a map from paths to bytes and a rename onto a name is one step. What the codecs do to bytes is left
    open: any functions that keep the laws of `Lawful` will do. */
module MigrationState {
  import opened Common

  const CURRENT_FORMAT: nat := 8

  /** The format code the migrator calls: version words, the two frozen decoders with the re-encoder behind them, the
      full validation of a current segment, and the payload blob codec. */
  datatype Formats = Formats(version: Bytes -> Option<nat>, convert: Bytes -> Option<Bytes>, valid: Bytes -> bool,
                             records: Bytes -> seq<Bytes>, sha256: Bytes -> string,
                             decodeBlob: Bytes -> Option<Bytes>, encodeBlob: Bytes -> Bytes)

  predicate IsLegacy(version: Option<nat>) {
    version == Some(6) || version == Some(7)
  }

  ghost predicate Lawful(formats: Formats) {
    && (forall bytes :: formats.convert(bytes).Some? ==>
          && IsLegacy(formats.version(bytes))
          && formats.version(formats.convert(bytes).value) == Some(CURRENT_FORMAT)
          && formats.valid(formats.convert(bytes).value)
          && formats.records(formats.convert(bytes).value) == formats.records(bytes))
    && (forall bytes :: formats.decodeBlob(formats.encodeBlob(bytes)) == Some(bytes))
  }

  // ---------------------------------------------------------------- files

  /** The files of a store or pin directory, by what the migrator takes them for. A `Blob` lies one directory below
      `payloads/`, where the blob pass looks; a `StrayBlob` has a blob's name at any other depth under `payloads/`, and
      `PayloadOther` another name. `Log` is an append-only log. */
  datatype Path = Segment(name: string) | Blob(name: string) | StrayBlob(name: string) | PayloadOther(name: string)
                | Log(name: string) | Unmanifested(name: string)

  type Files = map<Path, Bytes>

  datatype Digest = Digest(length: nat, sha256: string)

  function DigestOf(formats: Formats, bytes: Bytes): Digest {
    Digest(|bytes|, formats.sha256(bytes))
  }

  datatype Manifest = Manifest(folded: (nat, nat), files: map<Path, Digest>, format: Option<nat>)

  datatype Pin = Pin(files: Files, manifest: Manifest)

  datatype Disk = Disk(jsonl: bool, live: Files, pins: map<string, Pin>, manifests: map<nat, Manifest>, current: nat)

  // ---------------------------------------------------------------- names

  function Lower(text: string): string {
    if text == "" then "" else [LowerChar(text[0])] + Lower(text[1..])
  }

  predicate Names(stem: string, digest: string) {
    Lower(stem) == Lower(digest)
  }

  // ---------------------------------------------------------------- one file

  /** A blob that passes full current-format validation. */
  predicate BlobCurrent(formats: Formats, stem: string, bytes: Bytes) {
    formats.decodeBlob(bytes).Some? && Names(stem, formats.sha256(formats.decodeBlob(bytes).value))
  }

  predicate BlobRaw(formats: Formats, stem: string, bytes: Bytes) {
    Names(stem, formats.sha256(bytes))
  }

  /** The bytes a blob serves under its name, in either format. */
  function BlobContent(formats: Formats, stem: string, bytes: Bytes): Option<Bytes> {
    if BlobCurrent(formats, stem, bytes) then formats.decodeBlob(bytes)
    else if BlobRaw(formats, stem, bytes) then Some(bytes)
    else None
  }

  /** The same characters, but for the case of ASCII letters. */
  predicate SameLetters(one: string, other: string) {
    |one| == |other| && forall i :: 0 <= i < |one| ==> SameLetter(one[i], other[i])
  }

  predicate SameLetter(c: char, d: char) {
    || c == d
    || ('A' <= c <= 'Z' && d as int == c as int + 32)
    || ('A' <= d <= 'Z' && c as int == d as int + 32)
  }

  lemma {:induction false} NamesMeans(stem: string, digest: string)
    ensures Names(stem, digest) <==> SameLetters(stem, digest)
  {
    if stem != "" && digest != "" {
      var one, other := stem[1..], digest[1..];
      NamesMeans(one, other);
      assert LowerChar(stem[0]) == LowerChar(digest[0]) <==> SameLetter(stem[0], digest[0]);
      assert Lower(stem)[0] == LowerChar(stem[0]) && Lower(stem)[1..] == Lower(one);
      assert Lower(digest)[0] == LowerChar(digest[0]) && Lower(digest)[1..] == Lower(other);
      hide SameLetter;
      if SameLetters(stem, digest) {
        assert forall i :: 0 <= i < |one| ==> one[i] == stem[i + 1] && other[i] == digest[i + 1];
      }
    }
  }

  /** A blob serves bytes exactly when its own or its decoded ones hash to its name, and only such bytes. */
  lemma BlobServesItsName(formats: Formats, stem: string, bytes: Bytes)
    ensures var content := BlobContent(formats, stem, bytes);
            && (content.Some? <==>
                || SameLetters(stem, formats.sha256(bytes))
                || (formats.decodeBlob(bytes).Some?
                    && SameLetters(stem, formats.sha256(formats.decodeBlob(bytes).value))))
            && (content.Some? ==> SameLetters(stem, formats.sha256(content.value))
                                  && (content.value == bytes || content == formats.decodeBlob(bytes)))
            && (Acceptable(formats, Blob(stem), bytes) <==> content.Some?)
            && (Outstanding(formats, Blob(stem), bytes) <==>
                formats.decodeBlob(bytes).Some? ==> !SameLetters(stem, formats.sha256(formats.decodeBlob(bytes).value)))
  {
    hide Names, SameLetters;
    NamesMeans(stem, formats.sha256(bytes));
    if formats.decodeBlob(bytes).Some? {
      NamesMeans(stem, formats.sha256(formats.decodeBlob(bytes).value));
    }
  }

  /** What the passes leave under a path. */
  function Converted(formats: Formats, path: Path, bytes: Bytes): Bytes {
    match path
    case Segment(_) =>
      if IsLegacy(formats.version(bytes)) && formats.convert(bytes).Some? then formats.convert(bytes).value else bytes
    case Blob(stem) =>
      if !BlobCurrent(formats, stem, bytes) && BlobRaw(formats, stem, bytes) then formats.encodeBlob(bytes) else bytes
    case _ => bytes
  }

  /** Whether a pass still has to rewrite the file. */
  predicate Outstanding(formats: Formats, path: Path, bytes: Bytes) {
    match path
    case Segment(_) => IsLegacy(formats.version(bytes))
    case Blob(stem) => !BlobCurrent(formats, stem, bytes)
    case _ => false
  }

  /** Whether a pass accepts the file: a legacy segment that decodes, a blob in one of the two formats. */
  predicate Acceptable(formats: Formats, path: Path, bytes: Bytes) {
    match path
    case Segment(_) =>
      formats.version(bytes) == Some(CURRENT_FORMAT)
      || (IsLegacy(formats.version(bytes)) && formats.convert(bytes).Some?)
    case Blob(stem) => BlobCurrent(formats, stem, bytes) || BlobRaw(formats, stem, bytes)
    case _ => true
  }

  lemma ConvertedIsDone(formats: Formats, path: Path, bytes: Bytes)
    requires Lawful(formats) && Acceptable(formats, path, bytes)
    ensures var converted := Converted(formats, path, bytes);
            && !Outstanding(formats, path, converted) && Acceptable(formats, path, converted)
            && Converted(formats, path, converted) == converted
    ensures !Outstanding(formats, path, bytes) ==> Converted(formats, path, bytes) == bytes
    ensures path.Segment? ==> formats.records(Converted(formats, path, bytes)) == formats.records(bytes)
    ensures path.Blob? ==>
              BlobContent(formats, path.name, Converted(formats, path, bytes)) == BlobContent(formats, path.name, bytes)
  {
    hide Names;
  }

  // ---------------------------------------------------------------- whole directories

  function ConvertedFiles(formats: Formats, files: Files): Files {
    map path | path in files :: Converted(formats, path, files[path])
  }

  predicate AcceptableFiles(formats: Formats, files: Files) {
    forall path :: path in files ==> Acceptable(formats, path, files[path])
  }

  predicate SegmentsDone(formats: Formats, files: Files) {
    forall path :: path in files && path.Segment? ==> !Outstanding(formats, path, files[path])
  }

  predicate FilesDone(formats: Formats, files: Files) {
    forall path :: path in files ==> !Outstanding(formats, path, files[path])
  }

  lemma RewriteKeepsTarget(formats: Formats, files: Files, path: Path)
    requires Lawful(formats) && AcceptableFiles(formats, files) && path in files
    ensures var next := files[path := Converted(formats, path, files[path])];
            AcceptableFiles(formats, next) && ConvertedFiles(formats, next) == ConvertedFiles(formats, files)
  {
    ConvertedIsDone(formats, path, files[path]);
  }

  lemma DoneIsTarget(formats: Formats, files: Files)
    requires Lawful(formats) && AcceptableFiles(formats, files)
    ensures FilesDone(formats, files) ==> ConvertedFiles(formats, files) == files
    ensures AcceptableFiles(formats, ConvertedFiles(formats, files))
    ensures FilesDone(formats, ConvertedFiles(formats, files))
    ensures ConvertedFiles(formats, ConvertedFiles(formats, files)) == ConvertedFiles(formats, files)
  {
    hide Converted, Acceptable, Outstanding, Lawful;
    var target := ConvertedFiles(formats, files);
    forall path | path in files
      ensures Acceptable(formats, path, target[path]) && !Outstanding(formats, path, target[path])
      ensures Converted(formats, path, target[path]) == target[path]
      ensures !Outstanding(formats, path, files[path]) ==> target[path] == files[path]
    {
      ConvertedIsDone(formats, path, files[path]);
    }
  }

  // ---------------------------------------------------------------- pins

  /** A manifested file's digest once the passes are through: the append-only logs keep theirs. */
  function RedigestedFiles(formats: Formats, files: Files, entries: map<Path, Digest>): map<Path, Digest> {
    map path | path in entries ::
      if path.Log? || path !in files then entries[path] else DigestOf(formats, files[path])
  }

  function PinTarget(formats: Formats, pin: Pin): Pin {
    var files := ConvertedFiles(formats, pin.files);
    Pin(files, pin.manifest.(files := RedigestedFiles(formats, files, pin.manifest.files),
                             format := Some(CURRENT_FORMAT)))
  }

  /** A moved digest is accepted for a segment that validates in full, and for any path with a blob's name. */
  predicate EntryAcceptable(formats: Formats, files: Files, path: Path, digest: Digest) {
    path.Log?
    || (path in files
        && (digest == DigestOf(formats, files[path])
            || (path.Segment? && formats.valid(files[path]))
            || path.Blob? || path.StrayBlob?))
  }

  /** The file proves its own bytes: a segment in full, a blob against its name. */
  predicate Proved(formats: Formats, path: Path, bytes: Bytes) {
    (path.Segment? && formats.valid(bytes)) || (path.Blob? && BlobCurrent(formats, path.name, bytes))
  }

  /** A pin the migrator can finish, judged by what its files will be after the file pass. */
  predicate AcceptablePin(formats: Formats, pin: Pin) {
    && AcceptableFiles(formats, pin.files)
    && forall path :: path in pin.manifest.files ==>
         EntryAcceptable(formats, ConvertedFiles(formats, pin.files), path, pin.manifest.files[path])
  }

  /** A manifest entry whose digest is replaced, for a file the passes are through with. */
  ghost predicate Reaccepted(formats: Formats, files: Files, path: Path, digest: Digest) {
    && path in files && !Outstanding(formats, path, files[path])
    && !path.Log? && digest != DigestOf(formats, files[path]) && EntryAcceptable(formats, files, path, digest)
  }

  /** Whatever the bytes, a digest is replaced only by one of bytes that prove themselves, exactly for the paths that
      are not a stray blob's: the blob pass never looks at those, and their new digest is accepted unproved. */
  lemma ReacceptedAreProved(formats: Formats, path: Path)
    ensures (forall files, digest :: Reaccepted(formats, files, path, digest) ==> Proved(formats, path, files[path]))
            <==> !path.StrayBlob?
  {
    if path.StrayBlob? {
      assert Reaccepted(formats, map[path := []], path, Digest(1, ""));
    }
  }

  predicate PinDone(formats: Formats, pin: Pin) {
    FilesDone(formats, pin.files) && pin == PinTarget(formats, pin)
  }

  lemma PinTargetStable(formats: Formats, pin: Pin)
    requires Lawful(formats) && AcceptablePin(formats, pin)
    ensures PinTarget(formats, PinTarget(formats, pin)) == PinTarget(formats, pin)
    ensures AcceptablePin(formats, PinTarget(formats, pin)) && PinDone(formats, PinTarget(formats, pin))
  {
    DoneIsTarget(formats, pin.files);
  }

  // ---------------------------------------------------------------- the whole store

  function Manifested(formats: Formats, files: Files): map<Path, Digest> {
    map path | path in files && !path.Unmanifested? :: DigestOf(formats, files[path])
  }

  /** The state an uninterrupted run reaches. */
  function Goal(formats: Formats, disk: Disk): Disk
    requires disk.current in disk.manifests
  {
    var live := ConvertedFiles(formats, disk.live);
    var published := Manifest(disk.manifests[disk.current].folded, Manifested(formats, live), Some(CURRENT_FORMAT));
    Disk(disk.jsonl, live, map pin | pin in disk.pins :: PinTarget(formats, disk.pins[pin]),
         disk.manifests[disk.current + 1 := published], disk.current + 1)
  }

  predicate Declared(disk: Disk)
    requires disk.current in disk.manifests
  {
    disk.manifests[disk.current].format == Some(CURRENT_FORMAT)
  }

  predicate AnyLegacyIn(formats: Formats, files: Files) {
    exists path :: path in files && path.Segment? && IsLegacy(formats.version(files[path]))
  }

  predicate AnyLegacy(formats: Formats, disk: Disk) {
    AnyLegacyIn(formats, disk.live) || exists pin :: pin in disk.pins && AnyLegacyIn(formats, disk.pins[pin].files)
  }

  /** Every live segment head reads as one of the three formats. */
  predicate Readable(formats: Formats, files: Files) {
    forall path :: path in files && path.Segment? ==>
      IsLegacy(formats.version(files[path])) || formats.version(files[path]) == Some(CURRENT_FORMAT)
  }

  /** The trigger rule: whether an open runs the passes. */
  predicate Triggered(formats: Formats, disk: Disk)
    requires disk.current in disk.manifests
  {
    !disk.jsonl && Readable(formats, disk.live) && (AnyLegacy(formats, disk) || !Declared(disk))
  }

  /** Nothing in the store makes the passes refuse. */
  predicate Admissible(formats: Formats, disk: Disk) {
    && disk.current in disk.manifests && !disk.jsonl
    && AcceptableFiles(formats, disk.live)
    && forall pin :: pin in disk.pins ==> AcceptablePin(formats, disk.pins[pin])
  }
}
