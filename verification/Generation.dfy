/** Generations (`src/generation.rs`): digesting the engine's files with digests carried over from an earlier manifest,
    verifying files against a manifest, and installing a staged generation, killed at any point. */
module Generation {
  import opened Common

  datatype File = File(bytes: Bytes, modified: U64)

  type Files = map<string, File>

  /** A file as a manifest lists it; a modification time of 0 is unknown. */
  datatype Listed = Listed(length: nat, sha: string, modified: U64)

  datatype Folded = Folded(epoch: nat, sequence: nat)

  datatype Manifest = Manifest(generation: nat, created: nat, folded: Folded, files: map<string, Listed>,
                               format: Option<nat>)

  datatype Root = Root(files: Files, wal: Option<Bytes>, manifests: map<nat, Manifest>, current: Option<nat>)

  /** SHA-256, as far as the model goes: any function, without collisions where an identity rests on it. */
  type Sha = Bytes -> string

  ghost predicate NoCollisions(sha: Sha) { forall a, b :: sha(a) == sha(b) ==> a == b }

  // ---------------------------------------------------------------- paths

  predicate IsAppendOnly(path: string) {
    path == "annotations.jsonl" || path == "tombstones.jsonl" || path == "evals.jsonl"
  }

  predicate IsSegment(path: string) { "segment-" <= path && |path| >= 4 && path[|path| - 4..] == ".seg" }

  predicate IsManifested(path: string) { IsAppendOnly(path) || IsSegment(path) || "payloads/" <= path }

  /** The directories on the way to a file are ones the digest walk goes into. */
  predicate Walked(path: string) { WalkedFrom(path, 0) }

  predicate WalkedFrom(path: string, at: nat)
    requires at <= |path|
    decreases |path| - at
  {
    if '/' !in path[at..] then true
    else
      var n := SlashIn(path[at..]);
      var name := path[at..at + n];
      name != "generations" && name != "pins" && !("." <= name) && WalkedFrom(path, at + n + 1)
  }

  function SlashIn(text: string): (n: nat)
    requires '/' in text
    ensures n < |text| && text[n] == '/'
  {
    if text[0] == '/' then 0 else 1 + SlashIn(text[1..])
  }

  /** The files a manifest is about. */
  predicate Live(path: string) { Walked(path) && IsManifested(path) }

  /** The directory named between two slashes, or before the first. */
  predicate IsDirectory(path: string, i: nat, j: nat) {
    i <= j < |path| && path[j] == '/' && '/' !in path[i..j] && (i == 0 || path[i - 1] == '/')
  }

  predicate WalkedInto(name: string) { name != "generations" && name != "pins" && (name == "" || name[0] != '.') }

  /** A manifest is about the three logs, the segments and the payloads, where no directory on the way is hidden, a
      generation or a pin. */
  lemma LivePaths(path: string)
    ensures Live(path) <==>
            && (|| path in ["annotations.jsonl", "tombstones.jsonl", "evals.jsonl"]
                || ("segment-" <= path && exists stem :: path == stem + ".seg") || "payloads/" <= path)
            && forall i: nat, j: nat :: IsDirectory(path, i, j) ==> WalkedInto(path[i..j])
  {
    WalkedMeans(path, 0);
    if IsSegment(path) {
      assert path == path[..|path| - 4] + ".seg";
    }
    hide WalkedInto, WalkedFrom;
    if stem :| path == stem + ".seg" {
      assert path[|path| - 4..] == ".seg";
    }
  }

  lemma {:induction false} WalkedMeans(path: string, at: nat)
    requires at <= |path| && (at == 0 || path[at - 1] == '/')
    ensures WalkedFrom(path, at) <==>
            forall i: nat, j: nat :: at <= i && IsDirectory(path, i, j) ==> WalkedInto(path[i..j])
    decreases |path| - at
  {
    if '/' in path[at..] {
      var n := SlashIn(path[at..]);
      FirstSlash(path, at);
      WalkedMeans(path, at + n + 1);
      OneDirectoryMore(path, at, n);
      assert WalkedFrom(path, at) <==> WalkedInto(path[at..at + n]) && WalkedFrom(path, at + n + 1);
    } else {
      NoDirectory(path, at);
    }
  }

  lemma NoDirectory(path: string, at: nat)
    requires at <= |path| && '/' !in path[at..]
    ensures forall i: nat, j: nat :: at <= i ==> !IsDirectory(path, i, j)
  {
    forall i: nat, j: nat | at <= i
      ensures !IsDirectory(path, i, j)
    {
      if i <= j < |path| {
        assert path[at..][j - at] == path[j];
      }
    }
  }

  lemma OneDirectoryMore(path: string, at: nat, n: nat)
    requires IsDirectory(path, at, at + n)
    ensures (forall i: nat, j: nat :: at <= i && IsDirectory(path, i, j) ==> WalkedInto(path[i..j]))
            <==> && WalkedInto(path[at..at + n])
                 && forall i: nat, j: nat :: at + n + 1 <= i && IsDirectory(path, i, j) ==> WalkedInto(path[i..j])
  {
    forall i: nat, j: nat | at <= i && IsDirectory(path, i, j)
      ensures (i == at && j == at + n) || at + n + 1 <= i
    {
      NextDirectory(path, at, n, i, j);
    }
    hide WalkedInto, IsDirectory;
  }

  lemma NextDirectory(path: string, at: nat, n: nat, i: nat, j: nat)
    requires IsDirectory(path, at, at + n) && at <= i && IsDirectory(path, i, j)
    ensures (i == at && j == at + n) || at + n + 1 <= i
  {
    if at < i <= at + n {
      NoSlash(path, at, at + n, i - 1);
    } else if i == at && j < at + n {
      NoSlash(path, at, at + n, j);
    } else if i == at && at + n < j {
      NoSlash(path, i, j, at + n);
    }
  }

  lemma NoSlash(path: string, start: nat, end: nat, k: nat)
    requires start <= k < end <= |path| && '/' !in path[start..end]
    ensures path[k] != '/'
  {
    assert path[start..end][k - start] == path[k];
  }

  lemma {:induction false} SlashIsFirst(text: string)
    requires '/' in text
    ensures '/' !in text[..SlashIn(text)]
    decreases |text|
  {
    if text[0] != '/' {
      SlashIsFirst(text[1..]);
      assert text[..SlashIn(text)] == [text[0]] + text[1..][..SlashIn(text[1..])];
    }
  }

  lemma FirstSlash(path: string, at: nat)
    requires at <= |path| && '/' in path[at..] && (at == 0 || path[at - 1] == '/')
    ensures IsDirectory(path, at, at + SlashIn(path[at..]))
  {
    var n := SlashIn(path[at..]);
    SlashIsFirst(path[at..]);
    assert path[at..][..n] == path[at..at + n];
    assert path[at..][n] == path[at + n];
  }

  // ---------------------------------------------------------------- digesting

  predicate CarriesOver(prior: map<string, Listed>, path: string, file: File) {
    && path in prior && prior[path].length == |file.bytes| && prior[path].modified == file.modified
    && prior[path].modified != 0
  }

  /** The files as they grow while the walk goes on: only the logs do, and only at their end. */
  ghost predicate Grown(files: Files, later: Files) {
    forall path :: path in files ==>
      path in later && if IsAppendOnly(path) then files[path].bytes <= later[path].bytes else later[path] == files[path]
  }

  /** One entry: length and time are read first, the digest is over that many bytes of what the file holds by then. */
  function Recorded(sha: Sha, prior: map<string, Listed>, path: string, file: File, later: File): Listed
    requires |file.bytes| <= |later.bytes|
  {
    Listed(|file.bytes|,
           if CarriesOver(prior, path, file) then prior[path].sha
           else if IsAppendOnly(path) then sha(later.bytes[..|file.bytes|]) else sha(later.bytes),
           file.modified)
  }

  method DigestEngine(sha: Sha, files: Files, later: Files, prior: map<string, Listed>) returns (r: map<string, Listed>)
    requires Grown(files, later)
    ensures r == Digested(sha, files, prior)
  {
    r := map[];
    var pending := files.Keys;
    while pending != {}
      invariant pending <= files.Keys
      invariant forall path :: path in r <==> path in files && path !in pending && Live(path)
      invariant forall path :: path in r ==> r[path] == Entry(sha, prior, path, files[path])
      decreases |pending|
    {
      var path :| path in pending;
      pending := pending - {path};
      if Live(path) {
        RecordedIsEntry(sha, prior, path, files[path], later[path]);
        r := r[path := Recorded(sha, prior, path, files[path], later[path])];
      }
    }
  }

  /** The entry of a file that stays as it is. */
  function Entry(sha: Sha, prior: map<string, Listed>, path: string, file: File): Listed {
    Listed(|file.bytes|, if CarriesOver(prior, path, file) then prior[path].sha else sha(file.bytes), file.modified)
  }

  function Digested(sha: Sha, files: Files, prior: map<string, Listed>): map<string, Listed> {
    map path | path in files && Live(path) :: Entry(sha, prior, path, files[path])
  }

  /** Appends that land in the middle of the walk are not in the digest. */
  lemma RecordedIsEntry(sha: Sha, prior: map<string, Listed>, path: string, file: File, later: File)
    requires if IsAppendOnly(path) then file.bytes <= later.bytes else later == file
    ensures Recorded(sha, prior, path, file, later) == Entry(sha, prior, path, file)
  {
    assert IsAppendOnly(path) ==> later.bytes[..|file.bytes|] == file.bytes;
  }

  /** A full digest: nothing carried over. */
  function FullDigest(sha: Sha, files: Files): map<string, Listed> { Digested(sha, files, map[]) }

  predicate SameStamp(a: File, b: File) { |a.bytes| == |b.bytes| && a.modified == b.modified != 0 }

  /** A live file that is not what it was differs from it in length or time. */
  ghost predicate Stamped(before: Files, now: Files) {
    forall path :: path in before && path in now && Live(path) && SameStamp(before[path], now[path]) ==>
      before[path].bytes == now[path].bytes
  }

  /** Carrying digests over from a full digest gives a full digest exactly when every replaced file shows it. */
  lemma CarryOverIsExact(sha: Sha, before: Files, now: Files)
    requires NoCollisions(sha)
    ensures Digested(sha, now, FullDigest(sha, before)) == FullDigest(sha, now) <==> Stamped(before, now)
  {
    hide Walked, IsManifested, NoCollisions;
    var carried, full, prior :=
      Digested(sha, now, FullDigest(sha, before)), FullDigest(sha, now), FullDigest(sha, before);
    forall path | path in now && Live(path)
      ensures carried[path] == full[path]
              <==> (CarriesOver(prior, path, now[path]) ==> sha(before[path].bytes) == sha(now[path].bytes))
    {
    }
    if Stamped(before, now) {
      assert carried == full;
    } else {
      var path :| path in before && path in now && Live(path) && SameStamp(before[path], now[path])
                  && before[path].bytes != now[path].bytes;
      assert carried[path] != full[path] by { DifferentDigests(sha, before[path].bytes, now[path].bytes); }
    }
  }

  lemma DifferentDigests(sha: Sha, a: Bytes, b: Bytes)
    requires NoCollisions(sha) && a != b
    ensures sha(a) != sha(b)
  {
  }

  /** The digests of a chain of checkpoints, each carrying over from the one before. */
  function Chained(sha: Sha, engines: seq<Files>): map<string, Listed>
    requires engines != []
  {
    var n := |engines| - 1;
    if n == 0 then FullDigest(sha, engines[0]) else Digested(sha, engines[n], Chained(sha, engines[..n]))
  }

  /** However many checkpoints have carried a digest over, it is the digest of the file. */
  lemma {:induction false} ChainedIsFull(sha: Sha, engines: seq<Files>)
    requires NoCollisions(sha) && engines != []
    requires forall i :: 0 <= i < |engines| - 1 ==> Stamped(engines[i], engines[i + 1])
    ensures Chained(sha, engines) == FullDigest(sha, engines[|engines| - 1])
  {
    hide Stamped, Digested, FullDigest, NoCollisions;
    var n := |engines| - 1;
    if n > 0 {
      assert engines[..n][n - 1] == engines[n - 1];
      assert forall i :: 0 <= i < n ==> engines[..n][i] == engines[i];
      ChainedIsFull(sha, engines[..n]);
      assert Stamped(engines[n - 1], engines[n]);
      CarryOverIsExact(sha, engines[n - 1], engines[n]);
    }
  }

  // ---------------------------------------------------------------- verifying

  datatype Problem = Missing | WrongLength(onDisk: nat, listed: nat) | DigestMismatch

  function ProblemOf(sha: Sha, files: Files, path: string, listed: Listed): Option<Problem> {
    if path !in files then Some(Missing)
    else
      var bytes := files[path].bytes;
      if |bytes| != listed.length && !(IsAppendOnly(path) && |bytes| > listed.length) then
        Some(WrongLength(|bytes|, listed.length))
      else if sha(if IsAppendOnly(path) then bytes[..listed.length] else bytes) != listed.sha then Some(DigestMismatch)
      else None
  }

  predicate Clean(sha: Sha, files: Files, listed: map<string, Listed>) {
    forall path :: path in listed ==> ProblemOf(sha, files, path, listed[path]) == None
  }

  /** Every discrepancy, by path. */
  method VerifyAgainst(sha: Sha, files: Files, listed: map<string, Listed>) returns (problems: map<string, Problem>)
    ensures forall path :: path in problems <==> path in listed && ProblemOf(sha, files, path, listed[path]).Some?
    ensures forall path :: path in problems ==> ProblemOf(sha, files, path, listed[path]) == Some(problems[path])
    ensures problems == map[] <==> Clean(sha, files, listed)
  {
    hide ProblemOf;
    problems := map[];
    var pending := listed.Keys;
    while pending != {}
      invariant pending <= listed.Keys
      invariant forall path :: path in problems <==>
                  path in listed && path !in pending && ProblemOf(sha, files, path, listed[path]).Some?
      invariant forall path :: path in problems ==> ProblemOf(sha, files, path, listed[path]) == Some(problems[path])
      decreases |pending|
    {
      var path :| path in pending;
      pending := pending - {path};
      var problem := ProblemOf(sha, files, path, listed[path]);
      if problem.Some? {
        problems := problems[path := problem.value];
      }
    }
    assert problems == map[] <==> forall path :: path !in problems;
  }

  /** Files digested into a manifest verify against later files exactly when each is there and unchanged, or, for a log,
      has only grown. */
  lemma VerifyIsExact(sha: Sha, past: Files, now: Files)
    requires NoCollisions(sha)
    ensures Clean(sha, now, FullDigest(sha, past)) <==>
            forall path :: path in past && Live(path) ==>
              path in now && if path in ["annotations.jsonl", "tombstones.jsonl", "evals.jsonl"]
                             then past[path].bytes <= now[path].bytes
                             else past[path].bytes == now[path].bytes
  {
    hide Walked, IsManifested, NoCollisions;
    var listed := FullDigest(sha, past);
    forall path | path in past && Live(path)
      ensures ProblemOf(sha, now, path, listed[path]) == None <==>
              path in now && if IsAppendOnly(path) then past[path].bytes <= now[path].bytes
                             else past[path].bytes == now[path].bytes
    {
      if path in now {
        ProblemIsExact(sha, path, past[path], now[path], now);
      }
    }
  }

  lemma ProblemIsExact(sha: Sha, path: string, was: File, file: File, now: Files)
    requires NoCollisions(sha) && path in now && now[path] == file
    ensures ProblemOf(sha, now, path, Entry(sha, map[], path, was)) == None <==>
            if IsAppendOnly(path) then was.bytes <= file.bytes else was.bytes == file.bytes
  {
    if IsAppendOnly(path) {
      if |file.bytes| >= |was.bytes| {
        PrefixDigest(sha, was.bytes, file.bytes);
      }
    } else if sha(file.bytes) == sha(was.bytes) {
      assert file.bytes == was.bytes;
    }
  }

  lemma PrefixDigest(sha: Sha, short: Bytes, long: Bytes)
    requires NoCollisions(sha) && |short| <= |long|
    ensures sha(long[..|short|]) == sha(short) <==> short <= long
  {
    if sha(long[..|short|]) == sha(short) {
      assert long[..|short|] == short;
    }
    assert short <= long ==> long[..|short|] == short;
  }

  // ---------------------------------------------------------------- installing a staged generation

  /** What the removal of the old working set reaches: top-level logs and segment files, and everything
      under payloads. */
  predicate Removable(path: string) {
    ('/' !in path && (IsAppendOnly(path) || "segment-" <= path)) || "payloads/" <= path
  }

  function Without(files: Files, gone: set<string>): Files { map path | path in files && path !in gone :: files[path] }

  function RemovableIn(files: Files): set<string> { set path | path in files && Removable(path) }

  /** The staged files a manifest lists, as copies made at `now`. */
  function Copies(staged: Files, paths: set<string>, now: U64): Files {
    map path | path in paths && path in staged :: File(staged[path].bytes, now)
  }

  /** A copy cut short: the first `n` bytes have arrived. */
  function Torn(files: Files, staged: Files, path: string, n: nat, now: U64): Files {
    if path in staged then files[path := File(staged[path].bytes[..Min(n, |staged[path].bytes|)], now)] else files
  }

  function NextGeneration(root: Root, manifest: Manifest): nat {
    Max(root.current.GetOr(0), manifest.generation) + 1
  }

  function Declared(root: Root, manifest: Manifest): Manifest {
    manifest.(generation := NextGeneration(root, manifest), folded := Folded(0, 0))
  }

  /** The store an install leaves. */
  function Installed(root: Root, staged: Files, manifest: Manifest, now: U64): Root {
    var next := NextGeneration(root, manifest);
    Root(Without(root.files, RemovableIn(root.files)) + Copies(staged, manifest.files.Keys, now), None,
         root.manifests[next := Declared(root, manifest)], Some(next))
  }

  /** What a kill in the middle of an install can leave. */
  ghost predicate Interrupted(root: Root, staged: Files, manifest: Manifest, now: U64, left: Root) {
    var bare := Without(root.files, RemovableIn(root.files));
    && left.current == root.current
    && ((exists gone :: gone <= RemovableIn(root.files) && left == root.(files := Without(root.files, gone)))
        || CutShort(root.(files := bare), staged, manifest.files.Keys, now, left)
        || left == Installed(root, staged, manifest, now).(current := root.current, manifests := root.manifests)
        || left == Installed(root, staged, manifest, now).(current := root.current))
  }

  /** CURRENT names a generation whose manifest is there. */
  predicate CurrentNamesOne(root: Root) { root.current.Some? ==> root.current.value in root.manifests }

  /** What a kill in the middle of the copying leaves. */
  ghost predicate CutShort(root: Root, staged: Files, paths: set<string>, now: U64, left: Root) {
    || (exists copied :: CutAfter(root, staged, paths, now, copied, left))
    || (left == root.(files := left.files)
        && exists copied, path, n :: CutIn(root.files, staged, paths, now, copied, path, n, left.files))
  }

  ghost predicate CutAfter(root: Root, staged: Files, paths: set<string>, now: U64, copied: set<string>, left: Root) {
    copied <= paths && left == root.(files := root.files + Copies(staged, copied, now))
  }

  ghost predicate CutIn(files: Files, staged: Files, paths: set<string>, now: U64, copied: set<string>, path: string,
                        n: nat, left: Files) {
    copied <= paths && path in paths && left == Torn(files + Copies(staged, copied, now), staged, path, n, now)
  }

  class Store {
    var root: Root
    /** Atomic changes left before the process is killed. */
    var budget: nat
    var killed: bool

    constructor (root: Root, budget: nat)
      ensures this.root == root && this.budget == budget && !killed
    {
      this.root, this.budget, killed := root, budget, false;
    }

    /** One atomic change, or the kill that comes before it. */
    method Change(next: Root)
      requires !killed
      modifies this
      ensures root == if killed then old(root) else next
    {
      if budget == 0 {
        killed := true;
      } else {
        budget := budget - 1;
        root := next;
      }
    }

    method RemoveWorkingSet()
      requires !killed
      modifies this
      ensures !killed ==> root == old(root).(files := Without(old(root.files), RemovableIn(old(root.files))))
      ensures killed ==> exists gone :: gone <= RemovableIn(old(root.files))
                                        && root == old(root).(files := Without(old(root.files), gone))
    {
      var files := root.files;
      WithoutNone(files);
      hide Without, RemovableIn;
      var pending := RemovableIn(files);
      ghost var gone: set<string> := {};
      while pending != {}
        invariant !killed && gone <= RemovableIn(files) && pending == RemovableIn(files) - gone
        invariant root == old(root).(files := Without(files, gone))
        decreases |pending|
      {
        var path :| path in pending;
        WithoutMore(files, gone, path);
        Change(root.(files := Without(root.files, {path})));
        if killed {
          return;
        }
        pending := pending - {path};
        gone := gone + {path};
      }
      assert gone == RemovableIn(files);
    }

    method CopyFiles(staged: Files, paths: set<string>, now: U64)
      requires !killed && paths <= staged.Keys
      modifies this
      ensures !killed ==> root == old(root).(files := old(root.files) + Copies(staged, paths, now))
      ensures killed ==> CutShort(old(root), staged, paths, now, root)
    {
      var files := root.files;
      CopiesNone(files, staged, now);
      hide Copies, Torn;
      var pending := paths;
      ghost var copied: set<string> := {};
      while pending != {}
        invariant !killed && pending <= paths && copied == paths - pending
        invariant root == old(root).(files := files + Copies(staged, copied, now))
        decreases |pending|
      {
        var path :| path in pending;
        CopiesMore(files, staged, copied, path, now);
        var n: nat := *;
        TornThenWhole(root.files, staged, path, n, now);
        Change(root.(files := Torn(root.files, staged, path, n, now)));
        if killed {
          assert CutAfter(old(root), staged, paths, now, copied, root);
          return;
        }
        Change(root.(files := root.files[path := File(staged[path].bytes, now)]));
        if killed {
          TornIsCutShort(old(root), staged, paths, now, copied, path, n, root);
          return;
        }
        pending := pending - {path};
        copied := copied + {path};
      }
      assert copied == paths;
    }

    /** Verifies the staged files, then removes, copies, drops the log, writes the manifest and moves CURRENT. */
    method InstallStaged(sha: Sha, staged: Files, manifest: Manifest, now: U64)
      returns (r: Result<nat, map<string, Problem>>)
      requires !killed
      modifies this
      ensures r.Err? <==> !Clean(sha, staged, manifest.files)
      ensures r.Err? ==> root == old(root) && !killed
      ensures r.Ok? && !killed ==> root == Installed(old(root), staged, manifest, now) && root.current == Some(r.value)
      ensures killed ==> Interrupted(old(root), staged, manifest, now, root)
    {
      var problems := VerifyAgainst(sha, staged, manifest.files);
      if problems != map[] {
        return Err(problems);
      }
      CleanIsThere(sha, staged, manifest.files);
      hide Clean, Removable, ProblemOf;
      ghost var start := root;
      var next := NextGeneration(root, manifest);
      r := Ok(next);
      RemoveWorkingSet();
      if killed {
        return;
      }
      ghost var bare := Without(start.files, RemovableIn(start.files));
      CopyFiles(staged, manifest.files.Keys, now);
      if killed {
        return;
      }
      if root.wal.Some? {
        Change(root.(wal := None));
        if killed {
          assert CutAfter(start.(files := bare), staged, manifest.files.Keys, now, manifest.files.Keys, root);
          return;
        }
      }
      Change(root.(manifests := root.manifests[next := manifest.(generation := next, folded := Folded(0, 0))]));
      if killed {
        return;
      }
      Change(root.(current := Some(next)));
    }

    /** Removes manifests older than `keep`; CURRENT's stays while `keep` is no later. */
    method SweepGenerations(keep: nat)
      modifies this`root
      ensures root == old(root).(manifests := root.manifests)
      ensures forall id :: id in root.manifests <==> id in old(root.manifests) && id >= keep
      ensures forall id :: id in root.manifests ==> root.manifests[id] == old(root.manifests)[id]
      ensures old(CurrentNamesOne(root)) && (root.current.Some? ==> keep <= root.current.value) ==>
              CurrentNamesOne(root)
    {
      root := root.(manifests := map id | id in root.manifests && id >= keep :: root.manifests[id]);
    }
  }

  lemma WithoutNone(files: Files)
    ensures Without(files, {}) == files
  {
  }

  lemma WithoutMore(files: Files, gone: set<string>, path: string)
    ensures Without(Without(files, gone), {path}) == Without(files, gone + {path})
  {
  }

  lemma TornIsCutShort(root: Root, staged: Files, paths: set<string>, now: U64, copied: set<string>, path: string,
                       n: nat, left: Root)
    requires copied <= paths && path in paths
    requires left == root.(files := Torn(root.files + Copies(staged, copied, now), staged, path, n, now))
    ensures CutShort(root, staged, paths, now, left)
  {
    assert CutIn(root.files, staged, paths, now, copied, path, n, left.files);
  }

  lemma CopiesNone(files: Files, staged: Files, now: U64)
    ensures files + Copies(staged, {}, now) == files
  {
  }

  lemma TornThenWhole(files: Files, staged: Files, path: string, n: nat, now: U64)
    requires path in staged
    ensures var whole := File(staged[path].bytes, now);
            Torn(files, staged, path, n, now)[path := whole] == files[path := whole]
  {
  }

  lemma CopiesMore(files: Files, staged: Files, copied: set<string>, path: string, now: U64)
    requires path in staged
    ensures (files + Copies(staged, copied, now))[path := File(staged[path].bytes, now)]
            == files + Copies(staged, copied + {path}, now)
  {
  }

  lemma CleanIsThere(sha: Sha, staged: Files, listed: map<string, Listed>)
    requires Clean(sha, staged, listed)
    ensures listed.Keys <= staged.Keys
  {
    forall path | path in listed
      ensures path in staged
    {
      assert ProblemOf(sha, staged, path, listed[path]) == None;
    }
  }

  /** A kill touches nothing but what the install would have: CURRENT, other manifests and other files are as
      they were. */
  lemma InterruptedIsPartway(root: Root, staged: Files, manifest: Manifest, now: U64, left: Root)
    requires Interrupted(root, staged, manifest, now, left) && manifest.files.Keys <= staged.Keys
    ensures Partway(root, manifest, left)
  {
    hide Removable, CutShort;
    if CutShort(root.(files := Without(root.files, RemovableIn(root.files))), staged, manifest.files.Keys, now, left) {
      CutShortIsPartway(root, staged, manifest, now, left);
    }
  }

  lemma CutShortIsPartway(root: Root, staged: Files, manifest: Manifest, now: U64, left: Root)
    requires CutShort(root.(files := Without(root.files, RemovableIn(root.files))), staged, manifest.files.Keys, now,
                      left)
    requires manifest.files.Keys <= staged.Keys
    ensures Partway(root, manifest, left)
  {
    hide Removable;
  }

  ghost predicate Partway(root: Root, manifest: Manifest, left: Root) {
    && left.current == root.current
    && (forall path :: !Removable(path) && path !in manifest.files ==>
          (path in left.files <==> path in root.files) && (path in left.files ==> left.files[path] == root.files[path]))
    && (forall id :: id != NextGeneration(root, manifest) ==>
          (id in left.manifests <==> id in root.manifests)
          && (id in root.manifests ==> left.manifests[id] == root.manifests[id]))
    && (forall id :: id in root.manifests ==> id in left.manifests)
  }

  /** An install started over after a kill ends as one never killed. */
  lemma ResumedInstallIsTheSame(root: Root, staged: Files, manifest: Manifest, left: Root, now: U64)
    requires Partway(root, manifest, left) && manifest.files.Keys <= staged.Keys
    ensures Installed(left, staged, manifest, now) == Installed(root, staged, manifest, now)
  {
    hide Removable;
    var next := NextGeneration(root, manifest);
    FilesAgreeAfter(root, staged, manifest, left, now);
    assert left.manifests[next := Declared(root, manifest)] == root.manifests[next := Declared(root, manifest)];
  }

  lemma FilesAgreeAfter(root: Root, staged: Files, manifest: Manifest, left: Root, now: U64)
    requires Partway(root, manifest, left) && manifest.files.Keys <= staged.Keys
    ensures var copies := Copies(staged, manifest.files.Keys, now);
            Without(left.files, RemovableIn(left.files)) + copies
            == Without(root.files, RemovableIn(root.files)) + copies
  {
    hide Removable;
  }

  /** Installs killed one after another, each starting from what the last left. */
  ghost predicate KilledRuns(staged: Files, manifest: Manifest, roots: seq<Root>) {
    forall i :: 0 <= i < |roots| - 1 ==> KilledOnce(staged, manifest, roots[i], roots[i + 1])
  }

  ghost predicate KilledOnce(staged: Files, manifest: Manifest, root: Root, left: Root) {
    exists now :: Interrupted(root, staged, manifest, now, left)
  }

  /** However many installs of the same staged generation are killed, wherever they are, CURRENT goes on naming a
      generation whose manifest is there, and the one that completes leaves what it would have left on the first try. */
  lemma {:induction false} KilledInstallsConverge(staged: Files, manifest: Manifest, roots: seq<Root>, now: U64)
    requires roots != [] && KilledRuns(staged, manifest, roots) && manifest.files.Keys <= staged.Keys
    requires CurrentNamesOne(roots[0])
    ensures var last := roots[|roots| - 1];
            && last.current == roots[0].current && CurrentNamesOne(last)
            && Installed(last, staged, manifest, now) == Installed(roots[0], staged, manifest, now)
    decreases |roots|
  {
    hide Interrupted, Installed, Partway, CurrentNamesOne;
    if |roots| > 1 {
      var n := |roots| - 1;
      assert forall i :: 0 <= i < |roots[..n]| ==> roots[..n][i] == roots[i];
      KilledInstallsConverge(staged, manifest, roots[..n], now);
      assert KilledOnce(staged, manifest, roots[n - 1], roots[n]);
      var time :| Interrupted(roots[n - 1], staged, manifest, time, roots[n]);
      InterruptedIsPartway(roots[n - 1], staged, manifest, time, roots[n]);
      PartwayNamesOne(roots[n - 1], manifest, roots[n]);
      ResumedInstallIsTheSame(roots[n - 1], staged, manifest, roots[n], now);
    }
  }

  lemma PartwayNamesOne(root: Root, manifest: Manifest, left: Root)
    requires Partway(root, manifest, left) && CurrentNamesOne(root)
    ensures CurrentNamesOne(left) && left.current == root.current
  {
  }

  /** A log record stamped so is replayed over a generation folded through that position: it comes strictly after. */
  predicate Replays(stamp: Folded, folded: Folded) {
    stamp.epoch > folded.epoch || (stamp.epoch == folded.epoch && stamp.sequence > folded.sequence)
  }

  /** Sequences count from one, so this one position is before every record a log can hold. */
  lemma OnlyTheOriginReplaysAll(folded: Folded)
    ensures (forall stamp: Folded :: stamp.sequence >= 1 ==> Replays(stamp, folded)) <==> folded == Folded(0, 0)
  {
    if folded != Folded(0, 0) {
      assert !Replays(Folded(0, 1), folded);
    }
  }

  /** An installed store's live manifest verifies against its files, is newer than both the staged one and any before,
      and every record of a log begun afterwards is replayed over it. */
  lemma InstalledVerifies(sha: Sha, root: Root, staged: Files, manifest: Manifest, now: U64)
    requires Clean(sha, staged, manifest.files)
    ensures var r := Installed(root, staged, manifest, now);
            && CurrentNamesOne(r) && r.current.Some? && Clean(sha, r.files, r.manifests[r.current.value].files)
            && r.current.value > manifest.generation && (root.current.Some? ==> r.current.value > root.current.value)
            && (r.current.value - 1 == manifest.generation || Some(r.current.value - 1) == root.current)
            && r.wal == None && r.manifests[r.current.value].format == manifest.format
            && r.manifests[r.current.value].created == manifest.created
            && forall stamp: Folded :: stamp.sequence >= 1 ==> Replays(stamp, r.manifests[r.current.value].folded)
  {
    CleanIsThere(sha, staged, manifest.files);
    var r := Installed(root, staged, manifest, now);
    forall path | path in manifest.files
      ensures ProblemOf(sha, r.files, path, manifest.files[path]) == None
    {
      assert ProblemOf(sha, staged, path, manifest.files[path]) == None;
      assert r.files[path] == File(staged[path].bytes, now);
    }
  }

  // ---------------------------------------------------------------- the generation it replaces

  /** Every kill leaves the old generation's files verifying. */
  ghost predicate OutlivesKills(sha: Sha, root: Root, staged: Files, manifest: Manifest, now: U64,
                                prior: map<string, Listed>) {
    forall left :: Interrupted(root, staged, manifest, now, left) ==> Clean(sha, left.files, prior)
  }

  /** Nothing of the old generation is in what an install removes, and what it overwrites is the same. */
  predicate OutOfTheWay(sha: Sha, staged: Files, manifest: Manifest, prior: map<string, Listed>) {
    forall path :: path in prior ==>
      !Removable(path) && (path in manifest.files ==> Same(sha, staged, path, prior[path]))
  }

  /** A staged file that is as the old generation lists it however much of it has been copied: an empty one. */
  predicate Same(sha: Sha, staged: Files, path: string, listed: Listed) {
    path in staged && staged[path].bytes == [] && ProblemOf(sha, staged, path, listed) == None
  }

  /** The old store is gone before CURRENT moves: a kill can leave CURRENT naming a generation whose files no longer
      verify, unless nothing of that generation is in the way of the install. */
  lemma OldGenerationOutlivesKills(sha: Sha, root: Root, staged: Files, manifest: Manifest, now: U64,
                                   prior: map<string, Listed>)
    requires Clean(sha, root.files, prior) && manifest.files.Keys <= staged.Keys
    ensures OutlivesKills(sha, root, staged, manifest, now, prior) <==> OutOfTheWay(sha, staged, manifest, prior)
  {
    hide Removable, ProblemOf;
    if OutOfTheWay(sha, staged, manifest, prior) {
      forall left | Interrupted(root, staged, manifest, now, left)
        ensures Clean(sha, left.files, prior)
      {
        forall path | path in prior
          ensures ProblemOf(sha, left.files, path, prior[path]) == None
        {
          assert ProblemOf(sha, root.files, path, prior[path]) == None;
          SomeMissing(sha, root.files, path, prior[path]);
          KeptOrCopied(root, staged, manifest, now, left, path);
          SameProblem(sha, root.files, left.files, path, prior[path]);
          if path in manifest.files {
            SameProblem(sha, staged, left.files, path, prior[path]);
          }
        }
      }
    } else {
      var path :| path in prior
                  && !(!Removable(path) && (path in manifest.files ==> Same(sha, staged, path, prior[path])));
      if Removable(path) {
        var left := root.(files := Without(root.files, RemovableIn(root.files)));
        assert Interrupted(root, staged, manifest, now, left);
        SomeMissing(sha, left.files, path, prior[path]);
      } else {
        InTheWayOfCopies(sha, root, staged, manifest, now, prior, path);
      }
    }
  }

  lemma InTheWayOfCopies(sha: Sha, root: Root, staged: Files, manifest: Manifest, now: U64, prior: map<string, Listed>,
                         path: string)
    requires path in prior && !Removable(path) && path in manifest.files && manifest.files.Keys <= staged.Keys
    requires !Same(sha, staged, path, prior[path])
    ensures !OutlivesKills(sha, root, staged, manifest, now, prior)
  {
    assert !IsAppendOnly(path);
    hide Removable, IsAppendOnly;
    var bare := Without(root.files, RemovableIn(root.files));
    var copied := Installed(root, staged, manifest, now).(current := root.current);
    assert Interrupted(root, staged, manifest, now, copied);
    SameProblem(sha, staged, copied.files, path, prior[path]);
    var none: set<string> := {};
    var torn := root.(files := Torn(bare + Copies(staged, none, now), staged, path, 0, now));
    assert CutIn(bare, staged, manifest.files.Keys, now, none, path, 0, torn.files);
    assert torn == root.(files := bare).(files := torn.files);
    assert Interrupted(root, staged, manifest, now, torn);
    assert torn.files[path].bytes == [];
    if staged[path].bytes != [] {
      OneLength(sha, torn.files, copied.files, path, prior[path]);
    }
  }

  lemma OneLength(sha: Sha, files: Files, others: Files, path: string, listed: Listed)
    requires !IsAppendOnly(path) && path in files && path in others && |files[path].bytes| != |others[path].bytes|
    ensures ProblemOf(sha, files, path, listed) != None || ProblemOf(sha, others, path, listed) != None
  {
  }

  lemma KeptOrCopied(root: Root, staged: Files, manifest: Manifest, now: U64, left: Root, path: string)
    requires Interrupted(root, staged, manifest, now, left) && !Removable(path) && manifest.files.Keys <= staged.Keys
    requires path in root.files
    ensures path in left.files
    ensures left.files[path] == root.files[path]
            || (path in manifest.files && left.files[path].bytes <= staged[path].bytes)
  {
    hide Removable;
  }

  lemma SameProblem(sha: Sha, files: Files, others: Files, path: string, listed: Listed)
    requires path in files && path in others
    ensures files[path].bytes == others[path].bytes ==>
            ProblemOf(sha, files, path, listed) == ProblemOf(sha, others, path, listed)
  {
  }

  lemma SomeMissing(sha: Sha, files: Files, path: string, listed: Listed)
    ensures path !in files ==> ProblemOf(sha, files, path, listed) != None
  {
  }

  /** A top-level log or segment, or anything under payloads. */
  predicate Ordinary(path: string) { IsManifested(path) && ('/' !in path || "payloads/" <= path) }

  /** An install over any store whose manifest lists an ordinary file does not outlive every kill. */
  lemma OrdinaryStoresAreLost(sha: Sha, root: Root, staged: Files, manifest: Manifest, now: U64,
                              prior: map<string, Listed>, path: string)
    requires Clean(sha, root.files, prior) && manifest.files.Keys <= staged.Keys && path in prior && Ordinary(path)
    ensures !OutlivesKills(sha, root, staged, manifest, now, prior)
  {
    assert Removable(path);
    hide Removable;
    OldGenerationOutlivesKills(sha, root, staged, manifest, now, prior);
  }

  /** The live files of an installed store are the ones its manifest lists exactly when no live file was out of the
      removal's reach: a segment file in a directory of its own is digested but not removed. */
  lemma OnlyListedFilesAreLive(root: Root, staged: Files, manifest: Manifest, now: U64)
    requires manifest.files.Keys <= staged.Keys && forall path :: path in manifest.files ==> Live(path)
    ensures (forall path ::
               path in Installed(root, staged, manifest, now).files && Live(path) <==> path in manifest.files)
            <==> (forall path :: path in root.files && Live(path) && path !in manifest.files ==> Removable(path))
  {
    hide Live, Removable;
    var r := Installed(root, staged, manifest, now);
    assert forall path :: path in r.files <==> path in manifest.files || (path in root.files && !Removable(path));
  }
}
