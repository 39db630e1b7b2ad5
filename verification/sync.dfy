/** One synchronisation run (`do_sync_up` / `do_sync_down` of
    src/sync/sync_engine/mod.rs) over an abstract data directory and an
    abstract WebDAV server. The clock, CRC-32, the JSON codecs and UTF-8
    validation come in through `Env`; the map iteration order of the source's
    `HashMap`s is whatever order `Enumerate` picks. */
module SyncRun {
  import opened Wrappers
  import opened Text
  import opened Paths
  import opened Storage
  import opened Manifest
  import opened Diff
  import opened SyncIo
  import opened WebDavStore
  import opened LibraryModel
  import opened Merge

  /** Everything a run takes from outside the two stores. */
  datatype Env = Env(
    remotePath: string,                          // `WebDavConfig::remote_path`
    host: Host,
    dataDir: string,
    now: nat,                                    // seconds since the epoch, for every write
    crc: Bytes -> nat,                           // `crc32fast::hash`
    encodeManifest: SyncManifest -> Bytes,
    decodeManifest: Bytes -> Option<SyncManifest>,
    isText: Bytes -> bool,                       // `read_to_string` succeeds
    encodeLibrary: Library -> Bytes,
    decodeLibrary: Bytes -> Option<Library>)

  // ---------------------------------------------------------------------------
  // Pieces of a run

  /** Some order of a key set, the order a `HashMap` happens to iterate in. */
  method Enumerate(keys: set<string>) returns (order: seq<string>)
    ensures Enumerates(order, keys)
  {
    order := [];
    var left := keys;
    while left != {}
      invariant left <= keys
      invariant forall i :: 0 <= i < |order| ==> order[i] in keys && order[i] !in left
      invariant forall p :: p in keys ==> p in left || p in order
      invariant forall i, j :: 0 <= i < j < |order| ==> order[i] != order[j]
      decreases left
    {
      var p :| p in left;
      order := order + [p];
      left := left - {p};
    }
  }

  function StoredAt(disk: Disk, key: string): (f: Stored)
    ensures f.Present? <==> key in disk
    ensures f.Present? ==> f.bytes == disk[key].contents
  {
    if key in disk then Present(disk[key].contents) else Missing
  }

  /** The scan of the data directory against the saved manifest. */
  function LocalFiles(env: Env, disk: Disk): Files {
    Scan(disk, LoadLocalManifest(StoredAt(disk, LocalManifestName), env.decodeManifest).files, env.crc)
  }

  /** `download_remote_manifest`: `None` when the server has no manifest. */
  function FetchManifest(env: Env, server: Server): (r: Result<Option<SyncManifest>, SyncError>)
    ensures var path := RemoteFilePath(env.remotePath, RemoteManifestName);
      && (r.Failure? <==> path in server.broken || (path in server.files && env.decodeManifest(server.files[path]).None?))
      && (r == Success(None) <==> path !in server.broken && path !in server.files)
      && (r.Success? && r.value.Some? ==> path in server.files && env.decodeManifest(server.files[path]) == r.value)
  {
    match GetOptional(server, RemoteFilePath(env.remotePath, RemoteManifestName))
    case Failure(e) => Failure(e)
    case Success(None) => Success(None)
    case Success(Some(bytes)) =>
      match env.decodeManifest(bytes)
      case None => Failure(ManifestUnreadable)
      case Some(m) => Success(Some(m))
  }

  /** The directory part of a manifest key, '/'-separated. */
  function Parent(key: string): string {
    Join(ParentSegments(key), "/")
  }

  /** The collections created for one parent directory, shallowest first:
      `<base>/<s1>/`, `<base>/<s1>/<s2>/`, ... */
  function Chain(base: string, parent: string): (dirs: seq<string>)
    ensures |dirs| == |Segments(parent, {'/'})|
  {
    var segs := Segments(parent, {'/'});
    seq(|segs|, k requires 0 <= k < |segs| => base + "/" + Join(segs[..k + 1], "/") + "/")
  }

  /** The chain ends with the collection that holds the file. */
  lemma ChainEndsAtParent(base: string, key: string)
    requires Parent(key) != []
    ensures var c := Chain(base, Parent(key));
      |c| > 0 && c[|c| - 1] == base + "/" + Parent(key) + "/"
  {
    var segs := ParentSegments(key);
    SegmentsOfJoin(segs, '/', {'/'});
    assert segs[..|segs|] == segs;
  }

  /** Creates the collections in order; the first failure stops the chain. */
  function MkcolAll(s: Server, dirs: seq<string>): (r: Result<Server, SyncError>)
    ensures r.Success? ==> forall i :: 0 <= i < |dirs| ==> dirs[i] in r.value.dirs
    ensures r.Success? ==> s.dirs <= r.value.dirs && r.value.files == s.files && r.value.broken == s.broken
    ensures r.Failure? <==> exists i :: 0 <= i < |dirs| && dirs[i] in s.broken
    ensures r.Failure? ==> r.error.RequestFailed? && r.error.path in s.broken
    decreases |dirs|
  {
    if dirs == [] then Success(s)
    else
      var init := dirs[..|dirs| - 1];
      var last := dirs[|dirs| - 1];
      match MkcolAll(s, init)
      case Failure(e) => Failure(e)
      case Success(s1) =>
        var r := Mkcol(s1, last);
        assert forall i :: 0 <= i < |init| ==> dirs[i] == init[i];
        r
  }

  /** The name shown in a progress note. */
  function DisplayName(h: Host, key: string): string {
    FileName(h, key).GetOr([])
  }

  /** Tracked keys never collide with the two manifest names. */
  lemma TrackedIsNoManifest(key: string)
    requires IsTracked(key)
    ensures key != RemoteManifestName && key != LocalManifestName
  {
    if key != ProgressFile {
      assert key[..|NovelsPrefix|] == NovelsPrefix;
      assert RemoteManifestName[0] != NovelsPrefix[0];
      assert LocalManifestName[0] != NovelsPrefix[0];
    }
  }

  predicate Succeeded(msgs: seq<SyncMessage>, done: SyncMessage) {
    |msgs| > 0 && msgs[|msgs| - 1] == done
  }

  /** Progress notes, then exactly one terminal message, at the end. */
  predicate WellFormedRun(msgs: seq<SyncMessage>) {
    && |msgs| > 0
    && msgs[|msgs| - 1].IsTerminal()
    && forall i :: 0 <= i < |msgs| - 1 ==> !msgs[i].IsTerminal()
  }

  lemma WellFormedAppend(notes: seq<SyncMessage>, last: SyncMessage)
    requires forall i :: 0 <= i < |notes| ==> notes[i].Progress?
    requires last.IsTerminal()
    ensures WellFormedRun(notes + [last])
  {
  }

  // ---------------------------------------------------------------------------
  // Upload

  /** The file `key` of the data directory is on the server under its remote path. */
  predicate Uploaded(env: Env, disk: Disk, s: Server, key: string) {
    var path := RemoteFilePath(env.remotePath, key);
    key in disk && path in s.files && s.files[path] == disk[key].contents
  }

  predicate Removed(env: Env, s: Server, key: string) {
    RemoteFilePath(env.remotePath, key) !in s.files
  }

  /** Every collection of the chain of `parent` exists. */
  predicate ChainMade(base: string, s: Server, parent: string) {
    forall d :: d in Chain(base, parent) ==> d in s.dirs
  }

  /** The collections above `key` exist (a key at the top level needs none). */
  predicate DirsReady(env: Env, s: Server, key: string) {
    Parent(key) == [] || ChainMade(RemoteBase(env.remotePath), s, Parent(key))
  }

  lemma RemoteFilePathsDiffer(remotePath: string, a: string, b: string)
    requires a != b
    ensures RemoteFilePath(remotePath, a) != RemoteFilePath(remotePath, b)
  {
    if RemoteFilePath(remotePath, a) == RemoteFilePath(remotePath, b) {
      RemoteFilePathInjective(remotePath, a, b);
    }
  }

  /** Creating collections touches no file and only adds collections. */
  lemma GrowingDirsKeep(env: Env, disk: Disk, s: Server, t: Server)
    requires t.files == s.files && s.dirs <= t.dirs
    ensures forall k :: Uploaded(env, disk, s, k) ==> Uploaded(env, disk, t, k)
    ensures forall k :: Removed(env, s, k) ==> Removed(env, t, k)
    ensures forall k :: DirsReady(env, s, k) ==> DirsReady(env, t, k)
    ensures forall p :: ChainMade(RemoteBase(env.remotePath), s, p) ==> ChainMade(RemoteBase(env.remotePath), t, p)
  {
  }

  /** A PUT or DELETE on the remote path of `key` leaves every other key alone. */
  lemma OtherKeysKept(env: Env, disk: Disk, s: Server, t: Server, key: string)
    requires t.files - {RemoteFilePath(env.remotePath, key)} == s.files - {RemoteFilePath(env.remotePath, key)}
    requires t.dirs == s.dirs
    ensures forall k :: k != key && Uploaded(env, disk, s, k) ==> Uploaded(env, disk, t, k)
    ensures forall k :: k != key && Removed(env, s, k) ==> Removed(env, t, k)
    ensures forall k :: DirsReady(env, s, k) ==> DirsReady(env, t, k)
    ensures forall p :: ChainMade(RemoteBase(env.remotePath), s, p) ==> ChainMade(RemoteBase(env.remotePath), t, p)
  {
    var own := RemoteFilePath(env.remotePath, key);
    forall k | k != key
      ensures RemoteFilePath(env.remotePath, k) in t.files <==> RemoteFilePath(env.remotePath, k) in s.files
      ensures RemoteFilePath(env.remotePath, k) in s.files ==> t.files[RemoteFilePath(env.remotePath, k)] == s.files[RemoteFilePath(env.remotePath, k)]
    {
      var path := RemoteFilePath(env.remotePath, k);
      RemoteFilePathsDiffer(env.remotePath, k, key);
      assert path in t.files - {own} <==> path in s.files - {own};
      if path in s.files {
        assert (t.files - {own})[path] == (s.files - {own})[path];
      }
    }
  }

  /** Makes sure the collections above `key` exist: the chain of its parent,
      unless an earlier upload of this run already created it. */
  function PrepareDirs(base: string, s: Server, created: set<string>, key: string)
      : (r: Result<(Server, set<string>), SyncError>)
    ensures r.Success? ==> var (t, made) := r.value;
      && t.files == s.files && s.dirs <= t.dirs && t.broken == s.broken
      && created <= made
      && (Parent(key) == [] || Parent(key) in made)
      && (forall p :: p in made && p !in created ==> ChainMade(base, t, p))
    ensures r.Failure? ==> r.error.RequestFailed? && r.error.path in s.broken
  {
    var parent := Parent(key);
    if parent == [] || parent in created then Success((s, created))
    else
      match MkcolAll(s, Chain(base, parent))
      case Failure(e) => Failure(e)
      case Success(t) => Success((t, created + {parent}))
  }

  /** A request failure on a path the server refuses. */
  predicate RefusedBy(s: Server, error: Option<SyncError>) {
    error.Some? ==> error.value.RequestFailed? && error.value.path in s.broken
  }

  /** Every server file outside `paths` is still there, with the same bytes,
      and none has appeared. */
  predicate FilesKept(s: Server, t: Server, paths: set<string>) {
    t.files - paths == s.files - paths
  }

  /** Two steps that each keep the files outside their paths keep the files
      outside both. */
  lemma FilesKeptTrans(a: Server, b: Server, c: Server, p: set<string>, q: set<string>, r: set<string>)
    requires FilesKept(a, b, p) && FilesKept(b, c, q) && p + q <= r
    ensures FilesKept(a, c, r)
  {
    forall x | x !in r
      ensures (x in c.files <==> x in a.files) && (x in a.files ==> c.files[x] == a.files[x])
    {
      assert x in c.files - q <==> x in b.files - q;
      assert x in b.files - p <==> x in a.files - p;
      if x in a.files {
        assert (b.files - p)[x] == (a.files - p)[x];
        assert (c.files - q)[x] == (b.files - q)[x];
      }
    }
    assert c.files - r == a.files - r;
  }

  /** The remote path an upload or delete action writes; a download writes none. */
  function StepTargets(env: Env, action: DiffAction): set<string> {
    if action.Download? then {} else {RemoteFilePath(env.remotePath, action.path)}
  }

  /** The remote paths a sequence of upload-side actions writes. */
  function ActionTargets(env: Env, actions: seq<DiffAction>): set<string> {
    set j | 0 <= j < |actions| && !actions[j].Download? :: RemoteFilePath(env.remotePath, actions[j].path)
  }

  /** The server paths a complete upload may write: those of the files to
      transfer, of the files to delete, and of the manifest. */
  function PushTargets(env: Env, local: Files, remote: Files): set<string> {
    (set k | k in local && NeedsTransfer(k, local, remote) :: RemoteFilePath(env.remotePath, k))
    + (set k | k in remote && k !in local :: RemoteFilePath(env.remotePath, k))
    + {RemoteFilePath(env.remotePath, RemoteManifestName)}
  }

  /** One action of `do_sync_up` (the `index`-th of `total`): for an upload,
      the collection chain of its parent directory unless an earlier upload
      already made it, a progress note and the PUT; for a delete, a progress
      note and the DELETE. Downloads do not occur in an upload diff and are
      skipped. */
  method UploadStep(env: Env, disk: Disk, s: Server, created: set<string>, action: DiffAction, index: nat, total: nat)
      returns (note: seq<SyncMessage>, t: Server, made: set<string>, error: Option<SyncError>)
    requires action.Upload? ==> action.path in disk
    requires forall p :: p in created ==> ChainMade(RemoteBase(env.remotePath), s, p)
    ensures |note| <= 1 && forall j :: 0 <= j < |note| ==> note[j].Progress?
    ensures t.broken == s.broken && s.dirs <= t.dirs
    ensures RefusedBy(s, error)
    ensures error.None? && action.Upload? ==> Uploaded(env, disk, t, action.path) && DirsReady(env, t, action.path)
    ensures error.None? && action.Delete? ==> Removed(env, t, action.path)
    ensures error.None? ==> forall p :: p in made ==> ChainMade(RemoteBase(env.remotePath), t, p)
    ensures error.None? ==> forall k :: k != action.path && Uploaded(env, disk, s, k) ==> Uploaded(env, disk, t, k)
    ensures error.None? ==> forall k :: k != action.path && Removed(env, s, k) ==> Removed(env, t, k)
    ensures error.None? ==> forall k :: DirsReady(env, s, k) ==> DirsReady(env, t, k)
    ensures FilesKept(s, t, StepTargets(env, action))
  {
    var base := RemoteBase(env.remotePath);
    var key := action.path;
    var path := RemoteFilePath(env.remotePath, key);
    note, t, made, error := [], s, created, None;
    match action {
      case Upload(_) =>
        var prepared := PrepareDirs(base, s, created, key);
        if prepared.Failure? {
          error := Some(prepared.error);
          return;
        }
        var (ready, dirsMade) := prepared.value;
        GrowingDirsKeep(env, disk, s, ready);
        made := dirsMade;
        note := [Progress(Uploading(index, total, DisplayName(env.host, key)))];
        var put := Put(ready, path, disk[key].contents);
        if put.Failure? {
          t, error := ready, Some(put.error);
          return;
        }
        t := put.value;
        OtherKeysKept(env, disk, ready, t, key);
        FilesKeptTrans(s, ready, t, {}, {path}, {path});
      case Delete(_) =>
        note := [Progress(Deleting(index, total, DisplayName(env.host, key)))];
        var del := WebDavStore.Delete(s, path);
        if del.Failure? {
          error := Some(del.error);
          return;
        }
        t := del.value;
        OtherKeysKept(env, disk, s, t, key);
      case Download(_) =>
    }
  }

  /** The action loop of `do_sync_up`: every action in order, stopping at the
      first failed request. */
  method RunUploads(env: Env, disk: Disk, server: Server, actions: seq<DiffAction>)
      returns (notes: seq<SyncMessage>, out: Server, error: Option<SyncError>)
    requires forall j :: 0 <= j < |actions| && actions[j].Upload? ==> actions[j].path in disk
    requires DistinctPaths(actions)
    ensures forall j :: 0 <= j < |notes| ==> notes[j].Progress?
    ensures error.None? ==> forall j :: 0 <= j < |actions| && actions[j].Upload? ==>
      Uploaded(env, disk, out, actions[j].path) && DirsReady(env, out, actions[j].path)
    ensures error.None? ==> forall j :: 0 <= j < |actions| && actions[j].Delete? ==>
      Removed(env, out, actions[j].path)
    ensures server.broken == out.broken && server.dirs <= out.dirs
    ensures RefusedBy(server, error)
    ensures FilesKept(server, out, ActionTargets(env, actions))
  {
    notes := [];
    out := server;
    error := None;
    var created: set<string> := {};
    var i := 0;
    while i < |actions|
      invariant 0 <= i <= |actions|
      invariant forall j :: 0 <= j < |notes| ==> notes[j].Progress?
      invariant forall p :: p in created ==> ChainMade(RemoteBase(env.remotePath), out, p)
      invariant forall j :: 0 <= j < i && actions[j].Upload? ==>
        Uploaded(env, disk, out, actions[j].path) && DirsReady(env, out, actions[j].path)
      invariant forall j :: 0 <= j < i && actions[j].Delete? ==> Removed(env, out, actions[j].path)
      invariant server.broken == out.broken && server.dirs <= out.dirs
      invariant FilesKept(server, out, ActionTargets(env, actions))
      invariant error.None?
    {
      var note, t, made, failure := UploadStep(env, disk, out, created, actions[i], i + 1, |actions|);
      notes := notes + note;
      assert StepTargets(env, actions[i]) <= ActionTargets(env, actions);
      FilesKeptTrans(server, out, t, ActionTargets(env, actions), StepTargets(env, actions[i]), ActionTargets(env, actions));
      if failure.Some? {
        out, error := t, failure;
        return;
      }
      assert forall j :: 0 <= j < i ==> actions[j].path != actions[i].path;
      out, created := t, made;
      i := i + 1;
    }
  }

  /** The remote file list the diff compares against: the manifest's, or the
      empty list when the server has none yet. */
  function KnownRemote(env: Env, server: Server): Files {
    match FetchManifest(env, server)
    case Success(Some(m)) => m.files
    case _ => map[]
  }

  /** The manifest an upload publishes: the scan of the data directory. */
  function UploadManifest(env: Env, disk: Disk): (m: SyncManifest)
    ensures m.version == ManifestVersion && m.lastSync == env.now
  {
    SyncManifest(ManifestVersion, env.now, LocalFiles(env, disk))
  }

  /** The server holds `m` as its manifest. */
  predicate Published(env: Env, s: Server, m: SyncManifest) {
    var path := RemoteFilePath(env.remotePath, RemoteManifestName);
    path in s.files && s.files[path] == env.encodeManifest(m)
  }

  /** What a complete upload leaves on the server, starting from `before`:
      every changed or new file uploaded below existing collections, every
      file the data directory no longer has deleted, the new manifest, and
      every other server file as it was. */
  ghost predicate Pushed(env: Env, disk: Disk, remote: Files, before: Server, s: Server) {
    var local := LocalFiles(env, disk);
    var base := RemoteBase(env.remotePath);
    && base + "/" in s.dirs && base + "/novels/" in s.dirs
    && (forall p :: NeedsTransfer(p, local, remote) ==> Uploaded(env, disk, s, p) && DirsReady(env, s, p))
    && (forall p :: p in remote && p !in local && p != RemoteManifestName ==> Removed(env, s, p))
    && Published(env, s, UploadManifest(env, disk))
    && FilesKept(before, s, PushTargets(env, local, remote))
  }

  /** A complete upload leaves alone the server copy of a file the diff did
      not name: one in sync on both sides, or one neither side lists. */
  lemma PushKeepsUntouched(env: Env, disk: Disk, remote: Files, before: Server, s: Server, k: string)
    requires Pushed(env, disk, remote, before, s)
    requires k != RemoteManifestName
    requires !NeedsTransfer(k, LocalFiles(env, disk), remote) && !(k in remote && k !in LocalFiles(env, disk))
    ensures var q := RemoteFilePath(env.remotePath, k);
      && (q in s.files <==> q in before.files)
      && (q in before.files ==> s.files[q] == before.files[q])
  {
    var targets := PushTargets(env, LocalFiles(env, disk), remote);
    var q := RemoteFilePath(env.remotePath, k);
    NotAPushTarget(env, LocalFiles(env, disk), remote, k);
    assert s.files - targets == before.files - targets;
    assert q in s.files - targets <==> q in before.files - targets;
    if q in before.files {
      assert (s.files - targets)[q] == (before.files - targets)[q];
    }
  }

  /** Distinct keys have distinct remote paths, so a key the diff does not
      name has a remote path no push writes. */
  lemma NotAPushTarget(env: Env, local: Files, remote: Files, k: string)
    requires k != RemoteManifestName && !NeedsTransfer(k, local, remote) && !(k in remote && k !in local)
    ensures RemoteFilePath(env.remotePath, k) !in PushTargets(env, local, remote)
  {
    var q := RemoteFilePath(env.remotePath, k);
    forall k' | RemoteFilePath(env.remotePath, k') == q ensures k' == k {
      if k' != k {
        RemoteFilePathsDiffer(env.remotePath, k', k);
      }
    }
  }

  /** Every upload of the diff names a file of the data directory. */
  lemma UploadsAreOnDisk(env: Env, disk: Disk, actions: seq<DiffAction>, remote: Files)
    requires forall p :: Upload(p) in actions ==> NeedsTransfer(p, LocalFiles(env, disk), remote)
    ensures forall j :: 0 <= j < |actions| && actions[j].Upload? ==> actions[j].path in disk
  {
    forall j | 0 <= j < |actions| && actions[j].Upload?
      ensures actions[j].path in disk
    {
      assert Upload(actions[j].path) in actions;
    }
  }

  /** The manifest PUT after the action loop keeps what the loop achieved. */
  lemma PublishKeeps(env: Env, disk: Disk, remote: Files, before: Server, s: Server, t: Server)
    requires FilesKept(before, s, PushTargets(env, LocalFiles(env, disk), remote))
    requires forall p :: NeedsTransfer(p, LocalFiles(env, disk), remote) ==> Uploaded(env, disk, s, p) && DirsReady(env, s, p)
    requires forall p :: p in remote && p !in LocalFiles(env, disk) && p != RemoteManifestName ==> Removed(env, s, p)
    requires RemoteBase(env.remotePath) + "/" in s.dirs && RemoteBase(env.remotePath) + "/novels/" in s.dirs
    requires Put(s, RemoteFilePath(env.remotePath, RemoteManifestName), env.encodeManifest(UploadManifest(env, disk))) == Success(t)
    ensures Pushed(env, disk, remote, before, t)
  {
    var local := LocalFiles(env, disk);
    var targets := PushTargets(env, local, remote);
    OtherKeysKept(env, disk, s, t, RemoteManifestName);
    FilesKeptTrans(before, s, t, targets, {RemoteFilePath(env.remotePath, RemoteManifestName)}, targets);
    forall p | NeedsTransfer(p, local, remote)
      ensures Uploaded(env, disk, t, p)
    {
      TrackedIsNoManifest(p);
    }
  }

  /** The two collections every upload starts with: the base and `novels/`
      below it. */
  function MakeRoots(base: string, s: Server): (r: Result<Server, SyncError>)
    ensures r.Success? ==> base + "/" in r.value.dirs && base + "/novels/" in r.value.dirs
    ensures r.Success? ==> r.value.files == s.files && r.value.broken == s.broken && s.dirs <= r.value.dirs
    ensures r.Failure? <==> base + "/" in s.broken || base + "/novels/" in s.broken
    ensures r.Failure? ==> RefusedBy(s, Some(r.error))
  {
    match Mkcol(s, base + "/")
    case Failure(e) => Failure(e)
    case Success(t) => Mkcol(t, base + "/novels/")
  }

  /** The part of `do_sync_up` that writes to the server, for a non-empty diff. */
  method Push(env: Env, disk: Disk, server: Server, remote: Files, actions: seq<DiffAction>)
      returns (notes: seq<SyncMessage>, out: Server, error: Option<SyncError>)
    requires forall p :: Upload(p) in actions <==> NeedsTransfer(p, LocalFiles(env, disk), remote)
    requires forall p :: Delete(p) in actions <==> p in remote && p !in LocalFiles(env, disk)
    requires DistinctPaths(actions)
    ensures forall j :: 0 <= j < |notes| ==> notes[j].Progress?
    ensures out.broken == server.broken
    ensures RefusedBy(server, error)
    ensures FilesKept(server, out, PushTargets(env, LocalFiles(env, disk), remote))
    ensures error.None? ==> Pushed(env, disk, remote, server, out)
  {
    notes, out, error := [], server, None;
    var local := LocalFiles(env, disk);
    var targets := PushTargets(env, local, remote);
    var roots := MakeRoots(RemoteBase(env.remotePath), server);
    if roots.Failure? {
      error := Some(roots.error);
      return;
    }
    UploadsAreOnDisk(env, disk, actions, remote);
    var pushed;
    notes, pushed, error := RunUploads(env, disk, roots.value, actions);
    ActionsWithinTargets(env, disk, remote, actions);
    FilesKeptTrans(server, roots.value, pushed, {}, ActionTargets(env, actions), targets);
    out := pushed;
    if error.Some? {
      return;
    }
    forall p | NeedsTransfer(p, local, remote)
      ensures Uploaded(env, disk, pushed, p) && DirsReady(env, pushed, p)
    {
      assert Upload(p) in actions;
    }
    forall p | p in remote && p !in local && p != RemoteManifestName
      ensures Removed(env, pushed, p)
    {
      assert Delete(p) in actions;
    }
    var put := Put(pushed, RemoteFilePath(env.remotePath, RemoteManifestName), env.encodeManifest(UploadManifest(env, disk)));
    if put.Failure? {
      error := Some(put.error);
      return;
    }
    PublishKeeps(env, disk, remote, server, pushed, put.value);
    out := put.value;
  }

  /** The actions of an upload diff write only paths a push may write. */
  lemma ActionsWithinTargets(env: Env, disk: Disk, remote: Files, actions: seq<DiffAction>)
    requires forall p :: Upload(p) in actions <==> NeedsTransfer(p, LocalFiles(env, disk), remote)
    requires forall p :: Delete(p) in actions <==> p in remote && p !in LocalFiles(env, disk)
    ensures ActionTargets(env, actions) <= PushTargets(env, LocalFiles(env, disk), remote)
  {
    var local := LocalFiles(env, disk);
    forall q | q in ActionTargets(env, actions) ensures q in PushTargets(env, local, remote) {
      var j :| 0 <= j < |actions| && !actions[j].Download? && q == RemoteFilePath(env.remotePath, actions[j].path);
      var p := actions[j].path;
      if actions[j].Upload? {
        assert Upload(p) in actions;
        assert q in (set k | k in local && NeedsTransfer(k, local, remote) :: RemoteFilePath(env.remotePath, k));
      } else {
        assert Delete(p) in actions;
        assert q in (set k | k in remote && k !in local :: RemoteFilePath(env.remotePath, k));
      }
    }
  }

  /** `do_sync_up` with the final `Failed` of `sync_up`: scan, fetch the remote
      manifest, diff, and unless nothing changed create the base collections,
      run the actions, publish the new manifest and save it locally. */
  method SyncUp(env: Env, disk: Disk, server: Server) returns (msgs: seq<SyncMessage>, diskOut: Disk, serverOut: Server)
    ensures WellFormedRun(msgs)
    ensures msgs[0] == Progress(Scanning)
    ensures msgs[|msgs| - 1].Failed? || msgs[|msgs| - 1] == UploadComplete
    ensures msgs[|msgs| - 1].Failed? ==> diskOut == disk
    ensures msgs[|msgs| - 1].Failed? ==>
      RefusedBy(server, Some(msgs[|msgs| - 1].error)) || msgs[|msgs| - 1].error == ManifestUnreadable
    ensures serverOut.broken == server.broken
    ensures FilesKept(server, serverOut, PushTargets(env, LocalFiles(env, disk), KnownRemote(env, server)))
    ensures FetchManifest(env, server).Failure? ==>
      msgs == [Progress(Scanning), Failed(FetchManifest(env, server).error)] && serverOut == server
    ensures FetchManifest(env, server).Success? && InSync(LocalFiles(env, disk), KnownRemote(env, server)) ==>
      msgs == [Progress(Scanning), Progress(NoChanges), UploadComplete] && diskOut == disk && serverOut == server
    ensures Succeeded(msgs, UploadComplete) && !InSync(LocalFiles(env, disk), KnownRemote(env, server)) ==>
      && Pushed(env, disk, KnownRemote(env, server), server, serverOut)
      && diskOut == disk[LocalManifestName := LocalFile(env.encodeManifest(UploadManifest(env, disk)), env.now)]
  {
    msgs := [Progress(Scanning)];
    diskOut, serverOut := disk, server;
    var local := LocalFiles(env, disk);
    var fetched := FetchManifest(env, server);
    if fetched.Failure? {
      msgs := msgs + [Failed(fetched.error)];
      return;
    }
    var remote := KnownRemote(env, server);
    var actions := UploadDiff(env, disk, remote);
    if actions == [] {
      msgs := msgs + [Progress(NoChanges), UploadComplete];
      return;
    }
    var notes, error;
    notes, serverOut, error := Push(env, disk, server, remote, actions);
    WellFormedAppend([Progress(Scanning)] + notes, if error.Some? then Failed(error.value) else UploadComplete);
    if error.Some? {
      msgs := msgs + notes + [Failed(error.value)];
      return;
    }
    diskOut := disk[LocalManifestName := LocalFile(env.encodeManifest(UploadManifest(env, disk)), env.now)];
    msgs := msgs + notes + [UploadComplete];
  }

  /** The scan and diff of `do_sync_up`, with the keys of both sides in some
      order. */
  method UploadDiff(env: Env, disk: Disk, remote: Files) returns (actions: seq<DiffAction>)
    ensures forall p :: Upload(p) in actions <==> NeedsTransfer(p, LocalFiles(env, disk), remote)
    ensures forall p :: Delete(p) in actions <==> p in remote && p !in LocalFiles(env, disk)
    ensures DistinctPaths(actions)
    ensures actions == [] <==> InSync(LocalFiles(env, disk), remote)
  {
    var local := LocalFiles(env, disk);
    var localOrder := Enumerate(local.Keys);
    var remoteOrder := Enumerate(remote.Keys);
    actions := DiffForUpload(local, remote, localOrder, remoteOrder);
  }

  /** Publishing is what makes the next upload a no-op: when the codec reads
      back what it wrote, the data directory after a complete upload scans to
      the manifest just published, so a second run sees nothing to do. */
  lemma SecondUploadFindsNothing(env: Env, disk: Disk, server: Server)
    requires env.decodeManifest(env.encodeManifest(UploadManifest(env, disk))) == Some(UploadManifest(env, disk))
    requires Published(env, server, UploadManifest(env, disk))
    requires RemoteFilePath(env.remotePath, RemoteManifestName) !in server.broken
    ensures var saved := disk[LocalManifestName := LocalFile(env.encodeManifest(UploadManifest(env, disk)), env.now)];
      && LocalFiles(env, saved) == LocalFiles(env, disk)
      && FetchManifest(env, server) == Success(Some(UploadManifest(env, disk)))
      && InSync(LocalFiles(env, saved), KnownRemote(env, server))
  {
    var m := UploadManifest(env, disk);
    var saved := disk[LocalManifestName := LocalFile(env.encodeManifest(m), env.now)];
    var before := LoadLocalManifest(StoredAt(disk, LocalManifestName), env.decodeManifest).files;
    LoadSavedManifest(m, env.encodeManifest, env.decodeManifest);
    assert StoredAt(saved, LocalManifestName) == Present(env.encodeManifest(m));
    assert !IsTracked(LocalManifestName) by {
      assert LocalManifestName != LibraryModel.ProgressFile;
      assert LocalManifestName[0] != NovelsPrefix[0];
    }
    ScanIgnoresUntracked(disk, LocalManifestName, LocalFile(env.encodeManifest(m), env.now), m.files, env.crc);
    ScanIsStable(disk, before, env.crc);
  }

  // ---------------------------------------------------------------------------
  // Download

  /** The file at `key` of a data directory, if there is one. */
  function At(d: Disk, key: string): (r: Option<LocalFile>)
    ensures r.Some? <==> key in d
    ensures r.Some? ==> r.value == d[key]
  {
    if key in d then Some(d[key]) else None
  }

  function ContentsAt(d: Disk, key: string): (r: Option<Bytes>)
    ensures r.Some? <==> key in d
    ensures r.Some? ==> r.value == d[key].contents
  {
    if key in d then Some(d[key].contents) else None
  }

  /** What a download of `key` with the server's bytes writes locally, given
      the data directory `d` it arrives in: `progress.json` is merged with the
      local library, any other key is checked for path traversal and written
      as it came. */
  function Landing(env: Env, d: Disk, key: string, bytes: Bytes): (r: Result<LocalFile, SyncError>)
    ensures r.Success? ==> r.value.mtime == env.now
    ensures key == ProgressFile ==> (r.Failure? <==> env.decodeLibrary(bytes).None?)
    ensures key == ProgressFile && r.Failure? ==> r.error == ProgressUnreadable
    ensures key == ProgressFile && r.Success? ==>
      r.value.contents == MergeProgress(ContentsAt(d, ProgressFile), bytes, env.isText, env.decodeLibrary, env.encodeLibrary).value
    ensures key != ProgressFile ==> (r.Failure? <==> IsUnsafeRel(env.host, key))
    ensures key != ProgressFile && r.Failure? ==> r.error == SyncError.UnsafePath(key)
    ensures key != ProgressFile && r.Success? ==> r.value.contents == bytes
  {
    if key == ProgressFile then
      match MergeProgress(ContentsAt(d, ProgressFile), bytes, env.isText, env.decodeLibrary, env.encodeLibrary)
      case Failure(e) => Failure(e)
      case Success(merged) => Success(LocalFile(merged, env.now))
    else if SafeLocalPath(env.host, env.dataDir, key).Failure? then Failure(SyncError.UnsafePath(key))
    else Success(LocalFile(bytes, env.now))
  }

  /** The server's file for `key` landed in `d`, where `origin` is the data
      directory the download began from. */
  ghost predicate Fetched(env: Env, server: Server, origin: Disk, d: Disk, key: string) {
    var path := RemoteFilePath(env.remotePath, key);
    && path in server.files
    && Landing(env, origin, key, server.files[path]).Success?
    && At(d, key) == Some(Landing(env, origin, key, server.files[path]).value)
  }

  /** A landed file stays landed while its key is left alone. */
  lemma FetchedKept(env: Env, server: Server, origin: Disk, d: Disk, e: Disk, key: string)
    requires Fetched(env, server, origin, d, key) && At(e, key) == At(d, key)
    ensures Fetched(env, server, origin, e, key)
  {
  }

  /** A failure a download run may stop with: a request the server refuses
      or a file it does not have, an unreadable library, or an unsafe path. */
  predicate DownloadFailure(server: Server, e: SyncError) {
    || (e.RequestFailed? && (e.path in server.broken || e.path !in server.files))
    || e == ProgressUnreadable
    || e.UnsafePath?
  }

  /** One action of `do_sync_down` (the `index`-th of `total`): for a
      download, a progress note, the GET and the local write (a merge for
      `progress.json`); for a delete, a progress note and the removal of the
      local file, whose own failure is ignored. Uploads do not occur in a
      download diff and are skipped. */
  method DownloadStep(env: Env, server: Server, origin: Disk, d: Disk, action: DiffAction, index: nat, total: nat)
      returns (note: seq<SyncMessage>, e: Disk, error: Option<SyncError>)
    requires action.path == ProgressFile ==> At(d, ProgressFile) == At(origin, ProgressFile)
    ensures |note| <= 1 && forall j :: 0 <= j < |note| ==> note[j].Progress?
    ensures error.Some? ==> e == d && DownloadFailure(server, error.value)
    ensures error.None? && action.Download? ==> Fetched(env, server, origin, e, action.path)
    ensures error.None? && action.Delete? ==> action.path !in e
    ensures forall k :: k != action.path ==> At(e, k) == At(d, k)
  {
    var key := action.path;
    note, e, error := [], d, None;
    match action {
      case Download(_) =>
        note := [Progress(Downloading(index, total, DisplayName(env.host, key)))];
        var got := Get(server, RemoteFilePath(env.remotePath, key));
        if got.Failure? {
          error := Some(got.error);
          return;
        }
        var landed := Landing(env, d, key, got.value);
        if landed.Failure? {
          error := Some(landed.error);
          return;
        }
        assert key == ProgressFile ==> ContentsAt(d, ProgressFile) == ContentsAt(origin, ProgressFile);
        e := d[key := landed.value];
      case Delete(_) =>
        note := [Progress(Deleting(index, total, DisplayName(env.host, key)))];
        if SafeLocalPath(env.host, env.dataDir, key).Failure? {
          error := Some(SyncError.UnsafePath(key));
          return;
        }
        e := d - {key};
      case Upload(_) =>
    }
  }

  /** The paths a list of actions names. */
  function PathsOf(actions: seq<DiffAction>): (r: set<string>)
    ensures forall j :: 0 <= j < |actions| ==> actions[j].path in r
    ensures forall k :: k in r ==> exists j :: 0 <= j < |actions| && actions[j].path == k
  {
    set j | 0 <= j < |actions| :: actions[j].path
  }

  /** The action loop of `do_sync_down`: every action in order, stopping at
      the first failure; `merged` tells whether `progress.json` came down. */
  method RunDownloads(env: Env, server: Server, disk: Disk, actions: seq<DiffAction>)
      returns (notes: seq<SyncMessage>, out: Disk, error: Option<SyncError>, merged: bool)
    requires DistinctPaths(actions)
    ensures forall j :: 0 <= j < |notes| ==> notes[j].Progress?
    ensures error.Some? ==> DownloadFailure(server, error.value)
    ensures error.None? ==> forall j :: 0 <= j < |actions| && actions[j].Download? ==>
      Fetched(env, server, disk, out, actions[j].path)
    ensures error.None? ==> forall j :: 0 <= j < |actions| && actions[j].Delete? ==> actions[j].path !in out
    ensures forall k :: k !in PathsOf(actions) ==> At(out, k) == At(disk, k)
    ensures error.None? ==> (merged <==> Download(ProgressFile) in actions)
  {
    notes, out, error, merged := [], disk, None, false;
    var i := 0;
    while i < |actions|
      invariant 0 <= i <= |actions|
      invariant forall j :: 0 <= j < |notes| ==> notes[j].Progress?
      invariant forall j :: 0 <= j < i && actions[j].Download? ==> Fetched(env, server, disk, out, actions[j].path)
      invariant forall j :: 0 <= j < i && actions[j].Delete? ==> actions[j].path !in out
      invariant forall k :: k !in PathsOf(actions[..i]) ==> At(out, k) == At(disk, k)
      invariant merged <==> Download(ProgressFile) in actions[..i]
      invariant error.None?
    {
      var action := actions[i];
      assert action.path !in PathsOf(actions[..i]) by {
        forall k | k in PathsOf(actions[..i]) ensures k != action.path {
          var j :| 0 <= j < i && actions[..i][j].path == k;
          assert actions[j].path != actions[i].path;
        }
      }
      var note, next, failure := DownloadStep(env, server, disk, out, action, i + 1, |actions|);
      notes := notes + note;
      if failure.Some? {
        error := failure;
        return;
      }
      forall j | 0 <= j < i
        ensures At(next, actions[j].path) == At(out, actions[j].path)
        ensures actions[j].Download? ==> Fetched(env, server, disk, next, actions[j].path)
      {
        assert actions[j].path != actions[i].path;
        if actions[j].Download? {
          FetchedKept(env, server, disk, out, next, actions[j].path);
        }
      }
      assert actions[..i + 1] == actions[..i] + [action];
      assert PathsOf(actions[..i + 1]) == PathsOf(actions[..i]) + {action.path};
      out := next;
      merged := merged || action == Download(ProgressFile);
      i := i + 1;
    }
    assert actions[..i] == actions;
  }

  /** The manifest `do_sync_down` saves: the server's, except that a
      downloaded `progress.json` is described as it now is on disk, since the
      merge may have changed it. */
  function FinalManifest(env: Env, remote: SyncManifest, d: Disk, merged: bool): (m: SyncManifest)
    ensures m.version == remote.version && m.lastSync == remote.lastSync
    ensures forall k :: k != ProgressFile ==> (k in m.files <==> k in remote.files)
    ensures forall k :: k != ProgressFile && k in m.files ==> m.files[k] == remote.files[k]
    ensures merged && ProgressFile in d ==>
      && ProgressFile in m.files
      && m.files[ProgressFile] == FileEntry(env.crc(d[ProgressFile].contents), |d[ProgressFile].contents|, d[ProgressFile].mtime)
    ensures !(merged && ProgressFile in d) ==> m == remote
  {
    if merged && ProgressFile in d then
      var f := d[ProgressFile];
      remote.(files := remote.files[ProgressFile := FileEntry(env.crc(f.contents), |f.contents|, f.mtime)])
    else remote
  }

  /** The entry saved for a merged `progress.json` is the one the next scan
      computes, so the next run does not see the merge as a local change. */
  lemma FinalManifestMatchesScan(env: Env, remote: SyncManifest, d: Disk)
    requires ProgressFile in d
    ensures var m := FinalManifest(env, remote, d, true);
      ScanEntry(d[ProgressFile], Lookup(m.files, ProgressFile), env.crc) == m.files[ProgressFile]
  {
  }

  /** Every file the server has anew or changed landed in `d` (the local
      manifest's own name aside, which the save overwrites). */
  ghost predicate AllFetched(env: Env, server: Server, disk: Disk, remote: SyncManifest, d: Disk) {
    forall p :: NeedsTransfer(p, remote.files, LocalFiles(env, disk)) && p != LocalManifestName ==>
      Fetched(env, server, disk, d, p)
  }

  /** Every scanned file the server no longer has is gone from `d`. */
  ghost predicate AllRemoved(env: Env, disk: Disk, remote: SyncManifest, d: Disk) {
    forall p :: p in LocalFiles(env, disk) && p !in remote.files ==> p !in d
  }

  /** Every other file of `d` but the local manifest is as it was in `disk`. */
  ghost predicate RestKept(env: Env, disk: Disk, remote: SyncManifest, d: Disk) {
    var local := LocalFiles(env, disk);
    forall k :: k != LocalManifestName && !NeedsTransfer(k, remote.files, local) && !(k in local && k !in remote.files) ==>
      At(d, k) == At(disk, k)
  }

  /** What a complete download leaves in the data directory: the three
      predicates above, and the final manifest saved. */
  ghost predicate Pulled(env: Env, server: Server, disk: Disk, remote: SyncManifest, d: Disk) {
    && AllFetched(env, server, disk, remote, d)
    && AllRemoved(env, disk, remote, d)
    && RestKept(env, disk, remote, d)
    && At(d, LocalManifestName) ==
         Some(LocalFile(env.encodeManifest(FinalManifest(env, remote, d, NeedsTransfer(ProgressFile, remote.files, LocalFiles(env, disk)))), env.now))
  }

  /** Saving the manifest keeps every fetched file. */
  lemma SaveKeepsFetched(env: Env, server: Server, disk: Disk, remote: SyncManifest, actions: seq<DiffAction>, d: Disk, f: LocalFile)
    requires forall p :: Download(p) in actions <==> NeedsTransfer(p, remote.files, LocalFiles(env, disk))
    requires forall j :: 0 <= j < |actions| && actions[j].Download? ==> Fetched(env, server, disk, d, actions[j].path)
    ensures AllFetched(env, server, disk, remote, d[LocalManifestName := f])
  {
    forall p | NeedsTransfer(p, remote.files, LocalFiles(env, disk)) && p != LocalManifestName
      ensures Fetched(env, server, disk, d[LocalManifestName := f], p)
    {
      assert Download(p) in actions;
      assert At(d[LocalManifestName := f], p) == At(d, p);
    }
  }

  /** Saving the manifest brings back no deleted file. */
  lemma SaveKeepsRemoved(env: Env, disk: Disk, remote: SyncManifest, actions: seq<DiffAction>, d: Disk, f: LocalFile)
    requires forall p :: Delete(p) in actions <==> p in LocalFiles(env, disk) && p !in remote.files
    requires forall j :: 0 <= j < |actions| && actions[j].Delete? ==> actions[j].path !in d
    ensures AllRemoved(env, disk, remote, d[LocalManifestName := f])
  {
    forall p | p in LocalFiles(env, disk) && p !in remote.files
      ensures p !in d[LocalManifestName := f]
    {
      assert Delete(p) in actions;
      TrackedIsNoManifest(p);
    }
  }

  /** Files no action names stay as they were, saving aside. */
  lemma SaveKeepsRest(env: Env, disk: Disk, remote: SyncManifest, actions: seq<DiffAction>, d: Disk, f: LocalFile)
    requires forall p :: Download(p) in actions <==> NeedsTransfer(p, remote.files, LocalFiles(env, disk))
    requires forall p :: Delete(p) in actions <==> p in LocalFiles(env, disk) && p !in remote.files
    requires forall j :: 0 <= j < |actions| ==> !actions[j].Upload?
    requires forall k :: k !in PathsOf(actions) ==> At(d, k) == At(disk, k)
    ensures RestKept(env, disk, remote, d[LocalManifestName := f])
  {
    var local := LocalFiles(env, disk);
    forall k | k != LocalManifestName && !NeedsTransfer(k, remote.files, local) && !(k in local && k !in remote.files)
      ensures At(d[LocalManifestName := f], k) == At(disk, k)
    {
      assert At(d[LocalManifestName := f], k) == At(d, k);
    }
  }

  /** The part of `do_sync_down` after a non-empty diff: run the actions, then
      save the final manifest. */
  method Pull(env: Env, server: Server, disk: Disk, remote: SyncManifest, actions: seq<DiffAction>)
      returns (notes: seq<SyncMessage>, out: Disk, error: Option<SyncError>)
    requires forall p :: Download(p) in actions <==> NeedsTransfer(p, remote.files, LocalFiles(env, disk))
    requires forall p :: Delete(p) in actions <==> p in LocalFiles(env, disk) && p !in remote.files
    requires forall j :: 0 <= j < |actions| ==> !actions[j].Upload?
    requires DistinctPaths(actions)
    ensures forall j :: 0 <= j < |notes| ==> notes[j].Progress?
    ensures error.Some? ==> DownloadFailure(server, error.value)
    ensures error.None? ==> Pulled(env, server, disk, remote, out)
  {
    var d, merged;
    notes, d, error, merged := RunDownloads(env, server, disk, actions);
    out := d;
    if error.Some? {
      return;
    }
    var final := FinalManifest(env, remote, d, merged);
    var saved := LocalFile(env.encodeManifest(final), env.now);
    out := d[LocalManifestName := saved];
    SaveKeepsFetched(env, server, disk, remote, actions, d, saved);
    SaveKeepsRemoved(env, disk, remote, actions, d, saved);
    SaveKeepsRest(env, disk, remote, actions, d, saved);
    assert At(out, ProgressFile) == At(d, ProgressFile);
    assert FinalManifest(env, remote, out, merged) == final;
  }

  /** After a complete download the next scan agrees with the server: a
      fetched file hashes as the server's manifest says (provided the server's
      copy has that checksum), and a merged `progress.json` keeps the entry
      just saved for it. */
  lemma PulledScansAsRemote(env: Env, server: Server, disk: Disk, remote: SyncManifest, d: Disk, key: string)
    requires Pulled(env, server, disk, remote, d)
    requires NeedsTransfer(key, remote.files, LocalFiles(env, disk)) && key != LocalManifestName && IsTracked(key)
    requires RemoteFilePath(env.remotePath, key) in server.files ==>
      env.crc(server.files[RemoteFilePath(env.remotePath, key)]) == remote.files[key].hash
    requires var final := FinalManifest(env, remote, d, NeedsTransfer(ProgressFile, remote.files, LocalFiles(env, disk)));
      env.decodeManifest(env.encodeManifest(final)) == Some(final)
    ensures key in LocalFiles(env, d)
    ensures key != ProgressFile ==> LocalFiles(env, d)[key].hash == remote.files[key].hash
    ensures key == ProgressFile ==>
      LocalFiles(env, d)[key] == FinalManifest(env, remote, d, true).files[key]
  {
    var final := FinalManifest(env, remote, d, NeedsTransfer(ProgressFile, remote.files, LocalFiles(env, disk)));
    assert Fetched(env, server, disk, d, key);
    assert StoredAt(d, LocalManifestName) == Present(env.encodeManifest(final));
    LoadSavedManifest(final, env.encodeManifest, env.decodeManifest);
    if key == ProgressFile {
      FinalManifestMatchesScan(env, remote, d);
    }
  }

  /** The scan and diff of `do_sync_down`, with the keys of both sides in
      some order. */
  method DownloadDiff(env: Env, disk: Disk, remote: SyncManifest) returns (actions: seq<DiffAction>)
    ensures forall p :: Download(p) in actions <==> NeedsTransfer(p, remote.files, LocalFiles(env, disk))
    ensures forall p :: Delete(p) in actions <==> p in LocalFiles(env, disk) && p !in remote.files
    ensures forall j :: 0 <= j < |actions| ==> !actions[j].Upload?
    ensures DistinctPaths(actions)
    ensures actions == [] <==> InSync(remote.files, LocalFiles(env, disk))
  {
    var local := LocalFiles(env, disk);
    var localOrder := Enumerate(local.Keys);
    var remoteOrder := Enumerate(remote.files.Keys);
    actions := DiffForDownload(local, remote.files, localOrder, remoteOrder);
  }

  /** `do_sync_down` once the remote manifest is known: scan, diff, and
      unless nothing changed pull. */
  method PullAgainst(env: Env, disk: Disk, server: Server, remote: SyncManifest) returns (tail: seq<SyncMessage>, diskOut: Disk)
    ensures |tail| > 0 && forall j :: 0 <= j < |tail| - 1 ==> tail[j].Progress?
    ensures tail[|tail| - 1].Failed? || tail[|tail| - 1] == DownloadComplete
    ensures tail[|tail| - 1].Failed? ==> DownloadFailure(server, tail[|tail| - 1].error)
    ensures InSync(remote.files, LocalFiles(env, disk)) ==> tail == [Progress(NoChanges), DownloadComplete] && diskOut == disk
    ensures Succeeded(tail, DownloadComplete) && !InSync(remote.files, LocalFiles(env, disk)) ==>
      Pulled(env, server, disk, remote, diskOut)
  {
    var actions := DownloadDiff(env, disk, remote);
    if actions == [] {
      tail, diskOut := [Progress(NoChanges), DownloadComplete], disk;
      return;
    }
    var notes, error;
    notes, diskOut, error := Pull(env, server, disk, remote, actions);
    tail := notes + [if error.Some? then Failed(error.value) else DownloadComplete];
  }

  /** `do_sync_down` with the final `Failed` of `sync_down`: fetch the remote
      manifest (its absence is an error here), then pull against it. The
      server is only read. */
  method SyncDown(env: Env, disk: Disk, server: Server) returns (msgs: seq<SyncMessage>, diskOut: Disk)
    ensures WellFormedRun(msgs)
    ensures msgs[0] == Progress(FetchingManifest)
    ensures msgs[|msgs| - 1].Failed? || msgs[|msgs| - 1] == DownloadComplete
    ensures msgs[|msgs| - 1].Failed? ==> var e := msgs[|msgs| - 1].error;
      DownloadFailure(server, e) || e == ManifestUnreadable || e == NoRemoteData
    ensures FetchManifest(env, server).Failure? ==>
      msgs == [Progress(FetchingManifest), Failed(FetchManifest(env, server).error)] && diskOut == disk
    ensures FetchManifest(env, server) == Success(None) ==>
      msgs == [Progress(FetchingManifest), Failed(NoRemoteData)] && diskOut == disk
    ensures FetchManifest(env, server).Success? && FetchManifest(env, server).value.Some? ==>
      var remote := FetchManifest(env, server).value.value;
      && (InSync(remote.files, LocalFiles(env, disk)) ==>
            msgs == [Progress(FetchingManifest), Progress(NoChanges), DownloadComplete] && diskOut == disk)
      && (Succeeded(msgs, DownloadComplete) && !InSync(remote.files, LocalFiles(env, disk)) ==>
            Pulled(env, server, disk, remote, diskOut))
  {
    msgs := [Progress(FetchingManifest)];
    diskOut := disk;
    var fetched := FetchManifest(env, server);
    if fetched.Failure? {
      msgs := msgs + [Failed(fetched.error)];
      return;
    }
    if fetched.value.None? {
      msgs := msgs + [Failed(NoRemoteData)];
      return;
    }
    var tail;
    tail, diskOut := PullAgainst(env, disk, server, fetched.value.value);
    msgs := msgs + tail;
  }
}
