/** The reading library (src/model/library.rs): the list of novels with their
    reading progress, how an entry is found for a path regardless of the
    platform the path was written on, the rewriting of stored paths into the
    local novels directory, and saving with a rolling backup.

    The JSON encoding is a pair of function parameters; the encoder receives
    the library with every path already in portable form, which is what the
    source's path serializer does. */
module LibraryModel {
  import opened Wrappers
  import opened Text
  import opened Paths
  import opened NovelModel
  import opened Storage

  /** `NovelInfo`: what is persisted about one novel. */
  datatype NovelInfo = NovelInfo(title: string, path: string, progress: ReadingProgress)

  datatype Library = Library(novels: seq<NovelInfo>)

  const EmptyLibrary: Library := Library([])

  /** Name of the library file in the data directory. */
  const ProgressFile: string := "progress.json"

  // ---------------------------------------------------------------------------
  // Finding a novel by path

  /** `same_novel_path`: equal paths, or paths with the same sync key, so that
      a Windows path and a Unix path to the same synchronised novel match. */
  predicate SameNovelPath(a: string, b: string) {
    a == b || (SyncKey(a).Some? && SyncKey(a) == SyncKey(b))
  }

  /** Matching is an equivalence: it never depends on argument order and
      chains through a common path. */
  lemma SameNovelPathIsEquivalence(a: string, b: string, c: string)
    ensures SameNovelPath(a, a)
    ensures SameNovelPath(a, b) ==> SameNovelPath(b, a)
    ensures SameNovelPath(a, b) && SameNovelPath(b, c) ==> SameNovelPath(a, c)
  {
  }

  /** Index of the first entry at or after `k` whose path matches. */
  function FindNovelFrom(novels: seq<NovelInfo>, path: string, k: nat): (r: Option<nat>)
    requires k <= |novels|
    ensures r.Some? ==> k <= r.value < |novels| && SameNovelPath(novels[r.value].path, path)
    ensures r.Some? ==> forall j :: k <= j < r.value ==> !SameNovelPath(novels[j].path, path)
    ensures r.None? ==> forall j :: k <= j < |novels| ==> !SameNovelPath(novels[j].path, path)
    decreases |novels| - k
  {
    if k == |novels| then None
    else if SameNovelPath(novels[k].path, path) then Some(k)
    else FindNovelFrom(novels, path, k + 1)
  }

  /** `iter().find(..)`: the first entry whose path matches. */
  function FindNovel(novels: seq<NovelInfo>, path: string): (r: Option<nat>)
    ensures r.Some? ==> r.value < |novels| && SameNovelPath(novels[r.value].path, path)
    ensures r.Some? ==> forall j :: 0 <= j < r.value ==> !SameNovelPath(novels[j].path, path)
    ensures r.None? ==> forall j :: 0 <= j < |novels| ==> !SameNovelPath(novels[j].path, path)
  {
    FindNovelFrom(novels, path, 0)
  }

  /** The first-match search is pinned down by its contract. */
  lemma FindNovelIs(novels: seq<NovelInfo>, path: string, i: nat)
    requires i < |novels| && SameNovelPath(novels[i].path, path)
    requires forall j :: 0 <= j < i ==> !SameNovelPath(novels[j].path, path)
    ensures FindNovel(novels, path) == Some(i)
  {
  }

  /** `get_novel_progress`: the progress of the first matching entry, or the
      default progress when none matches. */
  function GetNovelProgress(lib: Library, path: string): (r: ReadingProgress)
    ensures FindNovel(lib.novels, path).None? ==> r == DefaultProgress
    ensures FindNovel(lib.novels, path).Some? ==> r == lib.novels[FindNovel(lib.novels, path).value].progress
  {
    match FindNovel(lib.novels, path)
    case None => DefaultProgress
    case Some(i) => lib.novels[i].progress
  }

  /** `update_novel_progress`: the first matching entry takes the new progress
      and the caller's path (migrating it to this platform); without a match a
      new entry titled by the file stem is appended. */
  function UpdateNovelProgress(h: Host, lib: Library, path: string, progress: ReadingProgress): (r: Library)
    ensures FindNovel(lib.novels, path).Some? ==>
      var i := FindNovel(lib.novels, path).value;
      && |r.novels| == |lib.novels|
      && r.novels[i] == NovelInfo(lib.novels[i].title, path, progress)
      && forall j :: 0 <= j < |lib.novels| && j != i ==> r.novels[j] == lib.novels[j]
    ensures FindNovel(lib.novels, path).None? ==>
      && |r.novels| == |lib.novels| + 1
      && r.novels[..|lib.novels|] == lib.novels
      && r.novels[|lib.novels|] == NovelInfo(NewNovel(h, path).title, path, progress)
  {
    match FindNovel(lib.novels, path)
    case Some(i) =>
      Library(lib.novels[i := NovelInfo(lib.novels[i].title, path, progress)])
    case None =>
      Library(lib.novels + [NovelInfo(NewNovel(h, path).title, path, progress)])
  }

  /** What was stored for a path is what is read back for it, and storing
      for a path that already has an entry does not grow the library. */
  lemma GetAfterUpdate(h: Host, lib: Library, path: string, progress: ReadingProgress)
    ensures GetNovelProgress(UpdateNovelProgress(h, lib, path, progress), path) == progress
    ensures FindNovel(lib.novels, path).Some? <==> |UpdateNovelProgress(h, lib, path, progress).novels| == |lib.novels|
  {
    var r := UpdateNovelProgress(h, lib, path, progress);
    match FindNovel(lib.novels, path)
    case Some(i) =>
      FindNovelIs(r.novels, path, i);
    case None =>
      FindNovelIs(r.novels, path, |lib.novels|);
  }

  /** An update never changes the progress read for a path whose entry does
      not match the updated path, wherever the two entries sit. */
  lemma UpdateLeavesOthers(h: Host, lib: Library, path: string, other: string, progress: ReadingProgress)
    requires FindNovel(lib.novels, other).Some?
    requires !SameNovelPath(lib.novels[FindNovel(lib.novels, other).value].path, path)
    ensures GetNovelProgress(UpdateNovelProgress(h, lib, path, progress), other) == GetNovelProgress(lib, other)
  {
    var r := UpdateNovelProgress(h, lib, path, progress);
    var k := FindNovel(lib.novels, other).value;
    FindNovelIs(r.novels, other, k);
  }

  /** A novel added and then updated under the same path keeps one entry,
      titled after its file, whose progress is the latest. */
  lemma UpdateTwiceExample(p1: ReadingProgress, p2: ReadingProgress)
    ensures var path := "/path/to/novel.txt";
      var once := UpdateNovelProgress(Unix, EmptyLibrary, path, p1);
      var twice := UpdateNovelProgress(Unix, once, path, p2);
      && |once.novels| == 1 && once.novels[0].title == "novel"
      && GetNovelProgress(once, path) == p1
      && |twice.novels| == 1 && GetNovelProgress(twice, path) == p2
  {
    var path := "/path/to/novel.txt";
    assert path == "/path/to" + "/" + "novel" + "." + "txt";
    FileStemOfFile("/path/to", "novel", "txt");
    var once := UpdateNovelProgress(Unix, EmptyLibrary, path, p1);
    GetAfterUpdate(Unix, EmptyLibrary, path, p1);
    GetAfterUpdate(Unix, once, path, p2);
  }

  /** A path whose segments end with `novels` and a file name has
      `novels/<file>` as its sync key. */
  lemma SyncKeyOfSegments(path: string, prefix: seq<string>, name: string)
    requires Segments(path, BothSeps) == prefix + [NovelsDir, name]
    requires name != [] && !IsNovelsSegment(name)
    ensures SyncKey(path) == Some(NovelsDir + "/" + name)
  {
    NovelsSegments();
    assert prefix + [NovelsDir, name] == (prefix + [NovelsDir]) + [name];
    RelSegmentsOfSplit(path, prefix + [NovelsDir], [name]);
  }

  /** A file directly inside a `novels` directory has `novels/<file>` as its
      sync key, whichever separator the path was written with. */
  lemma SyncKeyOfNovelFile(prefix: seq<string>, name: string, sep: char)
    requires sep in BothSeps && Clean(prefix, BothSeps)
    requires name != [] && SepFree(name, BothSeps) && !IsNovelsSegment(name)
    ensures Segments(Join(prefix + [NovelsDir, name], [sep]), BothSeps) == prefix + [NovelsDir, name]
    ensures SyncKey(Join(prefix + [NovelsDir, name], [sep])) == Some(NovelsDir + "/" + name)
  {
    NovelsSegments();
    SegmentsOfJoin(prefix + [NovelsDir, name], sep, BothSeps);
    SyncKeyOfSegments(Join(prefix + [NovelsDir, name], [sep]), prefix, name);
  }

  /** The same for a path that starts at the root. */
  lemma SyncKeyOfRootedNovelFile(prefix: seq<string>, name: string, sep: char)
    requires sep in BothSeps && Clean(prefix, BothSeps)
    requires name != [] && SepFree(name, BothSeps) && !IsNovelsSegment(name)
    ensures SyncKey([sep] + Join(prefix + [NovelsDir, name], [sep])) == Some(NovelsDir + "/" + name)
  {
    var path := Join(prefix + [NovelsDir, name], [sep]);
    SyncKeyOfNovelFile(prefix, name, sep);
    SegmentsOfConcat([], sep, path, BothSeps);
    assert [] + [sep] + path == [sep] + path;
    SyncKeyOfSegments([sep] + path, prefix, name);
  }

  /** `C:\Users\alice\.fish_reader\novels\demo.txt` and
      `/Users/alice/.fish_reader/novels/demo.txt`. */
  const DemoWindowsPath: string := Join(["C:", "Users", "alice", ".fish_reader", NovelsDir, "demo.txt"], "\\")
  const DemoUnixPath: string := "/" + Join(["Users", "alice", ".fish_reader", NovelsDir, "demo.txt"], "/")

  lemma DemoWindowsKey()
    ensures SyncKey(DemoWindowsPath) == Some(NovelsDir + "/" + "demo.txt")
  {
    assert ["C:", "Users", "alice", ".fish_reader", NovelsDir, "demo.txt"]
        == ["C:", "Users", "alice", ".fish_reader"] + [NovelsDir, "demo.txt"];
    SyncKeyOfNovelFile(["C:", "Users", "alice", ".fish_reader"], "demo.txt", '\\');
  }

  lemma DemoUnixKey()
    ensures SyncKey(DemoUnixPath) == Some(NovelsDir + "/" + "demo.txt")
  {
    assert ["Users", "alice", ".fish_reader", NovelsDir, "demo.txt"]
        == ["Users", "alice", ".fish_reader"] + [NovelsDir, "demo.txt"];
    SyncKeyOfRootedNovelFile(["Users", "alice", ".fish_reader"], "demo.txt", '/');
  }

  /** A progress entry stored under a Windows path is found from the Unix path
      to the same synchronised novel. */
  lemma CrossPlatformLookupExample(progress: ReadingProgress)
    ensures GetNovelProgress(Library([NovelInfo("demo", DemoWindowsPath, progress)]), DemoUnixPath) == progress
  {
    DemoWindowsKey();
    DemoUnixKey();
    FindNovelIs([NovelInfo("demo", DemoWindowsPath, progress)], DemoUnixPath, 0);
  }

  /** Updating under the Unix path migrates the Windows entry in place. */
  lemma CrossPlatformUpdateExample(before: ReadingProgress, progress: ReadingProgress)
    ensures var lib := Library([NovelInfo("demo", DemoWindowsPath, before)]);
      UpdateNovelProgress(Unix, lib, DemoUnixPath, progress).novels == [NovelInfo("demo", DemoUnixPath, progress)]
  {
    DemoWindowsKey();
    DemoUnixKey();
    FindNovelIs([NovelInfo("demo", DemoWindowsPath, before)], DemoUnixPath, 0);
  }

  // ---------------------------------------------------------------------------
  // Portable paths on disk, local paths in memory

  /** The library as serialized: every path in portable form. */
  function Serialized(lib: Library): (r: Library)
    ensures |r.novels| == |lib.novels|
    ensures forall i :: 0 <= i < |r.novels| ==>
      r.novels[i] == lib.novels[i].(path := PortablePath(lib.novels[i].path))
  {
    Library(seq(|lib.novels|, i requires 0 <= i < |lib.novels| =>
      lib.novels[i].(path := PortablePath(lib.novels[i].path))))
  }

  /** Serializing an already serialized library changes nothing. */
  lemma SerializedIsStable(lib: Library)
    ensures Serialized(Serialized(lib)) == Serialized(lib)
  {
    forall i | 0 <= i < |lib.novels| ensures PortablePath(PortablePath(lib.novels[i].path)) == PortablePath(lib.novels[i].path) {
      PortablePathIdempotent(lib.novels[i].path);
    }
  }

  /** One entry re-rooted in the local novels directory when its path has a
      relative part. */
  function NormalizeNovel(h: Host, novelsDir: string, n: NovelInfo): (r: NovelInfo)
    ensures r.title == n.title && r.progress == n.progress
    ensures RelSegments(n.path).None? ==> r == n
    ensures RelSegments(n.path).Some? ==> r.path == LocalNovelPath(h, novelsDir, RelSegments(n.path).value)
  {
    match RelSegments(n.path)
    case None => n
    case Some(rel) => n.(path := LocalNovelPath(h, novelsDir, rel))
  }

  /** Whether some entry's path differs between two lists of the same length:
      the `changed` flag of the normalising loop. */
  function PathChanged(before: seq<NovelInfo>, after: seq<NovelInfo>): (r: bool)
    requires |before| == |after|
    ensures r <==> exists i :: 0 <= i < |before| && after[i].path != before[i].path
    decreases |before|
  {
    if before == [] then false
    else
      var n := |before| - 1;
      var init := PathChanged(before[..n], after[..n]);
      assert forall i :: 0 <= i < n ==> before[..n][i] == before[i] && after[..n][i] == after[i];
      init || after[n].path != before[n].path
  }

  /** `normalize_novel_paths`: every entry re-rooted, and whether any path
      changed. */
  function NormalizeNovelPaths(h: Host, novelsDir: string, novels: seq<NovelInfo>): (r: (seq<NovelInfo>, bool))
    ensures |r.0| == |novels|
    ensures forall i :: 0 <= i < |novels| ==> r.0[i] == NormalizeNovel(h, novelsDir, novels[i])
    ensures r.1 <==> exists i :: 0 <= i < |novels| && r.0[i].path != novels[i].path
  {
    var all := seq(|novels|, i requires 0 <= i < |novels| => NormalizeNovel(h, novelsDir, novels[i]));
    (all, PathChanged(novels, all))
  }

  /** Normalizing is idempotent: a second pass reports no change. */
  lemma NormalizeNovelIdempotent(h: Host, novelsDir: string, n: NovelInfo)
    requires IsNovelsDir(h, novelsDir)
    ensures NormalizeNovel(h, novelsDir, NormalizeNovel(h, novelsDir, n)) == NormalizeNovel(h, novelsDir, n)
  {
    if RelSegments(n.path).Some? {
      RelSegmentsOfLocalNovelPath(h, novelsDir, RelSegments(n.path).value);
    }
  }

  lemma NormalizeTwiceUnchanged(h: Host, novelsDir: string, novels: seq<NovelInfo>)
    requires IsNovelsDir(h, novelsDir)
    ensures var once := NormalizeNovelPaths(h, novelsDir, novels).0;
      NormalizeNovelPaths(h, novelsDir, once) == (once, false)
  {
    var once := NormalizeNovelPaths(h, novelsDir, novels).0;
    var twice := NormalizeNovelPaths(h, novelsDir, once);
    forall i | 0 <= i < |novels| ensures twice.0[i] == once[i] {
      NormalizeNovelIdempotent(h, novelsDir, novels[i]);
    }
    assert twice.0 == once;
  }

  /** Normalizing does not care whether a path was first put in portable form. */
  lemma NormalizeSerialized(h: Host, novelsDir: string, lib: Library)
    ensures NormalizeNovelPaths(h, novelsDir, Serialized(lib).novels).0
         == NormalizeNovelPaths(h, novelsDir, lib.novels).0
  {
    var s := Serialized(lib).novels;
    forall i | 0 <= i < |s|
      ensures NormalizeNovel(h, novelsDir, s[i]) == NormalizeNovel(h, novelsDir, lib.novels[i])
    {
      var p := lib.novels[i].path;
      if SyncKey(p).Some? {
        SyncKeyIsPortable(p);
      }
    }
  }

  // ---------------------------------------------------------------------------
  // Saving with a rolling backup, loading with a quarantine

  /** The files of the data directory, by name. */
  type Dir = map<string, Bytes>

  const BackupSuffix: string := "backup"
  /** Seconds per backup slot: at most one backup is kept per slot. */
  const BackupInterval: nat := 600
  const BackupRetentionDays: nat := 3
  const SecondsPerDay: nat := 24 * 60 * 60

  /** Start of the backup slot holding `now`. */
  function BackupBucket(now: nat): (b: nat)
    ensures b % BackupInterval == 0 && b <= now < b + BackupInterval
  {
    now / BackupInterval * BackupInterval
  }

  /** Names of backups: `progress.json.backup.<slot>`. */
  const BackupPrefix: string := ProgressFile + "." + BackupSuffix + "."

  function BackupName(bucket: nat): string {
    BackupPrefix + Decimal(bucket)
  }

  /** Backups older than this are deleted: `now` minus the retention period,
      saturating at zero. */
  function RetentionCutoff(now: nat): (c: nat)
    ensures c <= now
    ensures now >= BackupRetentionDays * SecondsPerDay ==> now - c == BackupRetentionDays * SecondsPerDay
    ensures now < BackupRetentionDays * SecondsPerDay ==> c == 0
  {
    if now >= BackupRetentionDays * SecondsPerDay then now - BackupRetentionDays * SecondsPerDay else 0
  }

  /** A backup whose name carries a `u64` slot below the cutoff. */
  predicate IsExpiredBackup(name: string, cutoff: nat) {
    && StartsWith(name, BackupPrefix)
    && ParseU64(name[|BackupPrefix|..]).Some?
    && ParseU64(name[|BackupPrefix|..]).value < cutoff
  }

  /** `cleanup_old_backups`: exactly the expired backups are removed. */
  function CleanupOldBackups(dir: Dir, cutoff: nat): (r: Dir)
    ensures forall n :: n in r <==> n in dir && !IsExpiredBackup(n, cutoff)
    ensures forall n :: n in r ==> r[n] == dir[n]
  {
    map n | n in dir && !IsExpiredBackup(n, cutoff) :: dir[n]
  }

  /** The backup of the current slot is never old enough to be removed. */
  lemma CurrentBackupSurvives(now: nat)
    requires now < U64_LIMIT
    ensures !IsExpiredBackup(BackupName(BackupBucket(now)), RetentionCutoff(now))
  {
    var b := BackupBucket(now);
    var name := BackupName(b);
    assert name[|BackupPrefix|..] == Decimal(b);
    ParseDecimal(b);
  }

  /** The library file is never mistaken for a backup. */
  lemma ProgressFileIsNoBackup(cutoff: nat)
    ensures !IsExpiredBackup(ProgressFile, cutoff)
  {
    assert |ProgressFile| < |BackupPrefix|;
  }

  /** `create_backup_if_needed`: when the library file exists and the current
      slot has no backup yet, copy it there and remove expired backups. */
  function CreateBackupIfNeeded(dir: Dir, now: nat): (r: Dir)
    requires now < U64_LIMIT
    ensures ProgressFile !in dir || BackupName(BackupBucket(now)) in dir ==> r == dir
    ensures ProgressFile in dir <==> ProgressFile in r
    ensures ProgressFile in dir ==> r[ProgressFile] == dir[ProgressFile]
    ensures ProgressFile in dir ==> BackupName(BackupBucket(now)) in r
    ensures ProgressFile in dir && BackupName(BackupBucket(now)) !in dir ==>
      r[BackupName(BackupBucket(now))] == dir[ProgressFile]
    ensures forall n :: n in dir && n !in r ==> IsExpiredBackup(n, RetentionCutoff(now))
    ensures forall n :: n in r ==> n == BackupName(BackupBucket(now)) || (n in dir && r[n] == dir[n])
  {
    var name := BackupName(BackupBucket(now));
    if ProgressFile !in dir || name in dir then dir
    else
      CurrentBackupSurvives(now);
      ProgressFileIsNoBackup(RetentionCutoff(now));
      CleanupOldBackups(dir[name := dir[ProgressFile]], RetentionCutoff(now))
  }

  /** `Library::save`: back up the old file, then replace it with the library
      in portable form. */
  function SaveLibrary(dir: Dir, lib: Library, encode: Library -> Bytes, now: nat): (r: Dir)
    requires now < U64_LIMIT
    ensures ProgressFile in r && r[ProgressFile] == encode(Serialized(lib))
    ensures ProgressFile in dir && BackupName(BackupBucket(now)) !in dir ==>
      BackupName(BackupBucket(now)) in r && r[BackupName(BackupBucket(now))] == dir[ProgressFile]
    ensures ProgressFile !in dir || BackupName(BackupBucket(now)) in dir ==>
      r == dir[ProgressFile := encode(Serialized(lib))]
    ensures forall n :: n in r && n != ProgressFile && n != BackupName(BackupBucket(now)) ==>
      n in dir && r[n] == dir[n]
    ensures forall n :: n in dir && n !in r ==> IsExpiredBackup(n, RetentionCutoff(now))
  {
    assert |BackupName(BackupBucket(now))| > |ProgressFile|;
    CreateBackupIfNeeded(dir, now)[ProgressFile := encode(Serialized(lib))]
  }

  /** Where an unparsable library file is copied: `progress.json.corrupted.<now>`. */
  function CorruptedName(now: nat): string {
    ProgressFile + ".corrupted." + Decimal(now)
  }

  /** `Library::load`: a missing or unreadable file gives an empty library; an
      unparsable one is copied aside and gives an empty library; otherwise the
      paths are re-rooted in the local novels directory and the file is
      rewritten when that, or re-encoding, changes it. */
  function LoadLibrary(h: Host, novelsDir: string, dir: Dir, isText: Bytes -> bool,
                       decode: Bytes -> Option<Library>, encode: Library -> Bytes, now: nat): (r: (Library, Dir))
    requires now < U64_LIMIT
    ensures ProgressFile !in dir ==> r == (EmptyLibrary, dir)
    ensures ProgressFile in dir && !isText(dir[ProgressFile]) ==> r == (EmptyLibrary, dir)
    ensures ProgressFile in dir && isText(dir[ProgressFile]) && decode(dir[ProgressFile]).None? ==>
      r == (EmptyLibrary, dir[CorruptedName(now) := dir[ProgressFile]])
    ensures ProgressFile in dir && isText(dir[ProgressFile]) && decode(dir[ProgressFile]).Some? ==>
      var stored := decode(dir[ProgressFile]).value;
      && r.0 == Library(NormalizeNovelPaths(h, novelsDir, stored.novels).0)
      && ProgressFile in r.1 && r.1[ProgressFile] == encode(Serialized(r.0))
      && r.1 == if (exists i :: 0 <= i < |stored.novels| && r.0.novels[i].path != stored.novels[i].path)
                   || encode(Serialized(r.0)) != dir[ProgressFile]
                then SaveLibrary(dir, r.0, encode, now) else dir
    ensures r.1 != dir ==> ProgressFile in dir
  {
    if ProgressFile !in dir || !isText(dir[ProgressFile]) then (EmptyLibrary, dir)
    else
      var content := dir[ProgressFile];
      match decode(content)
      case None => (EmptyLibrary, dir[CorruptedName(now) := content])
      case Some(stored) =>
        var (novels, normalized) := NormalizeNovelPaths(h, novelsDir, stored.novels);
        var lib := Library(novels);
        if normalized || encode(Serialized(lib)) != content then (lib, SaveLibrary(dir, lib, encode, now))
        else (lib, dir)
  }

  /** Saving and loading again gives the saved library with its paths
      re-rooted in the local novels directory, provided the JSON codec reads
      back what it writes. */
  lemma LoadAfterSave(h: Host, novelsDir: string, dir: Dir, lib: Library, isText: Bytes -> bool,
                      decode: Bytes -> Option<Library>, encode: Library -> Bytes, now: nat, later: nat)
    requires now < U64_LIMIT && later < U64_LIMIT
    requires decode(encode(Serialized(lib))) == Some(Serialized(lib))
    requires isText(encode(Serialized(lib)))
    ensures LoadLibrary(h, novelsDir, SaveLibrary(dir, lib, encode, now), isText, decode, encode, later).0.novels
         == NormalizeNovelPaths(h, novelsDir, lib.novels).0
  {
    NormalizeSerialized(h, novelsDir, lib);
  }

  /** Loading again what a load left behind gives the same library and the
      same library file, provided the JSON codec reads back what it writes. */
  lemma LoadIsStable(h: Host, novelsDir: string, dir: Dir, isText: Bytes -> bool,
                     decode: Bytes -> Option<Library>, encode: Library -> Bytes, now: nat, later: nat)
    requires IsNovelsDir(h, novelsDir) && now < U64_LIMIT && later < U64_LIMIT
    requires ProgressFile in dir && isText(dir[ProgressFile]) && decode(dir[ProgressFile]).Some?
    requires var lib := LoadLibrary(h, novelsDir, dir, isText, decode, encode, now).0;
      decode(encode(Serialized(lib))) == Some(Serialized(lib)) && isText(encode(Serialized(lib)))
    ensures var first := LoadLibrary(h, novelsDir, dir, isText, decode, encode, now);
      var second := LoadLibrary(h, novelsDir, first.1, isText, decode, encode, later);
      && second.0 == first.0
      && ProgressFile in second.1 && second.1[ProgressFile] == first.1[ProgressFile]
  {
    var first := LoadLibrary(h, novelsDir, dir, isText, decode, encode, now);
    var stored := decode(dir[ProgressFile]).value;
    NormalizeTwiceUnchanged(h, novelsDir, stored.novels);
    NormalizeSerialized(h, novelsDir, first.0);
  }

  /** Normalizing keeps the portable form of every path. */
  lemma SerializedOfNormalized(h: Host, novelsDir: string, novels: seq<NovelInfo>)
    requires IsNovelsDir(h, novelsDir)
    ensures Serialized(Library(NormalizeNovelPaths(h, novelsDir, novels).0)) == Serialized(Library(novels))
  {
    var once := NormalizeNovelPaths(h, novelsDir, novels).0;
    forall i | 0 <= i < |novels| ensures PortablePath(once[i].path) == PortablePath(novels[i].path) {
      if RelSegments(novels[i].path).Some? {
        RelSegmentsOfLocalNovelPath(h, novelsDir, RelSegments(novels[i].path).value);
      }
    }
  }

  /** A library file already in portable form, as a save writes it, is still
      written again by every load that finds an entry with a relative part:
      the stored `novels/<rel>` is re-rooted in the local novels directory,
      which counts as a change. The rewrite puts back the same bytes, and
      makes a backup when the current slot has none. */
  lemma LoadRewritesPortableFile(h: Host, novelsDir: string, dir: Dir, isText: Bytes -> bool,
                                 decode: Bytes -> Option<Library>, encode: Library -> Bytes, now: nat,
                                 stored: Library, k: nat)
    requires IsNovelsDir(h, novelsDir) && novelsDir[0] != NovelsDir[0] && now < U64_LIMIT
    requires Serialized(stored) == stored && k < |stored.novels| && SyncKey(stored.novels[k].path).Some?
    requires ProgressFile in dir && dir[ProgressFile] == encode(stored)
    requires isText(encode(stored)) && decode(encode(stored)) == Some(stored)
    ensures var r := LoadLibrary(h, novelsDir, dir, isText, decode, encode, now);
      && r.1 == SaveLibrary(dir, r.0, encode, now)
      && r.1[ProgressFile] == dir[ProgressFile]
  {
    var r := LoadLibrary(h, novelsDir, dir, isText, decode, encode, now);
    SerializedOfNormalized(h, novelsDir, stored.novels);
    var p := stored.novels[k].path;
    assert p == SyncKey(p).value;
    assert p[0] == NovelsDir[0];
    assert r.0.novels[k].path[0] == novelsDir[0];
  }
}
