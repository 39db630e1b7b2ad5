/** The sync engine's view of the two stores (src/sync/sync_engine/io.rs):
    where a manifest path lives on the server, and the scan that turns the
    local data directory into a manifest, re-hashing only files whose size
    or modification time changed. */
module SyncIo {
  import opened Wrappers
  import opened Text
  import opened Paths
  import opened Storage
  import opened Manifest
  import LibraryModel
  import WebDav

  // ---------------------------------------------------------------------------
  // Server paths

  /** `remote_base`: the configured remote directory without its trailing slashes. */
  function RemoteBase(remotePath: string): (r: string)
    ensures |r| <= |remotePath| && r == remotePath[..|r|]
    ensures forall j :: |r| <= j < |remotePath| ==> remotePath[j] == '/'
    ensures r == [] || r[|r| - 1] != '/'
    decreases |remotePath|
  {
    if remotePath != [] && remotePath[|remotePath| - 1] == '/' then RemoteBase(remotePath[..|remotePath| - 1])
    else remotePath
  }

  /** Adding or removing trailing slashes does not move the base. */
  lemma {:induction false} RemoteBaseIgnoresSlashes(base: string, n: nat)
    requires base == [] || base[|base| - 1] != '/'
    ensures RemoteBase(base + seq(n, _ => '/')) == base
    decreases n
  {
    if n == 0 {
      assert base + seq(n, _ => '/') == base;
    } else {
      var s := base + seq(n, _ => '/');
      assert s[..|s| - 1] == base + seq(n - 1, _ => '/');
      RemoteBaseIgnoresSlashes(base, n - 1);
    }
  }

  /** `remote_file_path`: a manifest key placed under the remote base. */
  function RemoteFilePath(remotePath: string, key: string): (r: string)
    ensures r == RemoteBase(remotePath) + "/" + key
  {
    RemoteBase(remotePath) + "/" + key
  }

  /** Different keys never share a server path, so the server holds at most
      one file per key. */
  lemma RemoteFilePathInjective(remotePath: string, a: string, b: string)
    requires RemoteFilePath(remotePath, a) == RemoteFilePath(remotePath, b)
    ensures a == b
  {
    var n := |RemoteBase(remotePath)| + 1;
    assert a == RemoteFilePath(remotePath, a)[n..];
    assert b == RemoteFilePath(remotePath, b)[n..];
  }

  lemma DefaultRemoteBase()
    ensures RemoteBase("/fish_reader/") == "/fish_reader"
  {
    assert "/fish_reader/"[..12] == "/fish_reader";
  }

  // ---------------------------------------------------------------------------
  // Scanning the data directory

  /** A regular file of the data directory: its bytes and modification time
      in whole seconds. */
  datatype LocalFile = LocalFile(contents: Bytes, mtime: nat)

  /** The data directory after the walk: files keyed by their path relative to
      the data directory, with '/' separators. */
  type Disk = map<string, LocalFile>

  const NovelsPrefix: string := "novels/"

  /** A key the scan reports: `progress.json`, or a file under `novels/` whose
      extension is exactly `txt`. */
  predicate IsTracked(key: string) {
    key == LibraryModel.ProgressFile || (StartsWith(key, NovelsPrefix) && Extension(Unix, key) == Some("txt"))
  }

  /** The manifest entry for one file: the previous entry when size and
      modification time are unchanged, otherwise a fresh checksum. */
  function ScanEntry(f: LocalFile, before: Option<FileEntry>, crc: Bytes -> nat): (e: FileEntry)
    ensures e.size == |f.contents| && e.mtime == f.mtime
    ensures before.Some? && before.value.mtime == f.mtime && before.value.size == |f.contents| ==> e == before.value
    ensures !(before.Some? && before.value.mtime == f.mtime && before.value.size == |f.contents|) ==>
      e.hash == crc(f.contents)
  {
    match before
    case Some(b) =>
      if b.mtime == f.mtime && b.size == |f.contents| then b
      else FileEntry(crc(f.contents), |f.contents|, f.mtime)
    case None => FileEntry(crc(f.contents), |f.contents|, f.mtime)
  }

  function Lookup(files: Files, key: string): Option<FileEntry> {
    if key in files then Some(files[key]) else None
  }

  /** `scan_local_files`: one entry per tracked file. */
  function Scan(disk: Disk, before: Files, crc: Bytes -> nat): (r: Files)
    ensures forall k :: k in r <==> k in disk && IsTracked(k)
    ensures forall k :: k in r ==> r[k] == ScanEntry(disk[k], Lookup(before, k), crc)
  {
    map k | k in disk && IsTracked(k) :: ScanEntry(disk[k], Lookup(before, k), crc)
  }

  /** Scanning again over an untouched disk reuses every entry. */
  lemma ScanIsStable(disk: Disk, before: Files, crc: Bytes -> nat)
    ensures Scan(disk, Scan(disk, before, crc), crc) == Scan(disk, before, crc)
  {
    var once := Scan(disk, before, crc);
    var twice := Scan(disk, once, crc);
    forall k | k in twice ensures twice[k] == once[k] {
      assert Lookup(once, k) == Some(once[k]);
    }
  }

  /** Files the scan does not track do not affect it. */
  lemma ScanIgnoresUntracked(disk: Disk, key: string, f: LocalFile, before: Files, crc: Bytes -> nat)
    requires !IsTracked(key)
    ensures Scan(disk[key := f], before, crc) == Scan(disk, before, crc)
  {
  }

  /** A manifest whose checksums match the disk for every file whose size and
      time it records correctly. */
  predicate HashesAccurate(disk: Disk, files: Files, crc: Bytes -> nat) {
    forall k :: k in files && k in disk && files[k].mtime == disk[k].mtime && files[k].size == |disk[k].contents| ==>
      files[k].hash == crc(disk[k].contents)
  }

  /** The cache rule loses nothing: if the previous manifest was accurate,
      every checksum of the scan matches the file's contents. */
  lemma ScanHashesAccurate(disk: Disk, before: Files, crc: Bytes -> nat)
    requires HashesAccurate(disk, before, crc)
    ensures forall k :: k in Scan(disk, before, crc) ==> Scan(disk, before, crc)[k].hash == crc(disk[k].contents)
  {
  }

  /** A name that neither is the library file nor starts with `n` cannot be
      under `novels/`, so the scan never reports it. */
  lemma UntrackedByFirstLetter(key: string)
    requires key != LibraryModel.ProgressFile && key != [] && key[0] != 'n'
    ensures !IsTracked(key)
  {
    assert key[0] != NovelsPrefix[0];
  }

  /** Only tracked names reach the manifest: the library's backups and its
      corrupted copies, the local manifest and the settings file stay out of
      it. */
  lemma ScanSkipsBookkeeping(disk: Disk, before: Files, crc: Bytes -> nat)
    ensures LocalManifestName !in Scan(disk, before, crc)
    ensures WebDav.ConfigFileName !in Scan(disk, before, crc)
    ensures forall k :: StartsWith(k, LibraryModel.BackupPrefix) ==> k !in Scan(disk, before, crc)
    ensures forall n :: LibraryModel.CorruptedName(n) !in Scan(disk, before, crc)
  {
    UntrackedByFirstLetter(LocalManifestName);
    UntrackedByFirstLetter(WebDav.ConfigFileName);
    forall k | StartsWith(k, LibraryModel.BackupPrefix) ensures !IsTracked(k) {
      assert k[0] == LibraryModel.BackupPrefix[0];
      assert |k| >= |LibraryModel.BackupPrefix| > |LibraryModel.ProgressFile|;
      UntrackedByFirstLetter(k);
    }
    forall n: nat ensures !IsTracked(LibraryModel.CorruptedName(n)) {
      var c := LibraryModel.CorruptedName(n);
      assert c[0] == 'p' && |c| > |LibraryModel.ProgressFile|;
      UntrackedByFirstLetter(c);
    }
  }
}
