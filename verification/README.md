# fish_reader core, modelled in Dafny

fish_reader is a terminal novel reader. It keeps a library of reading
progress (`progress.json`) next to the novels, and it can synchronise that
data directory with a WebDAV server. This project models its core and proves
properties of it:

- **Sync engine** (`src/sync/sync_engine/`):
  - the two diffs that decide what to upload, download or delete;
  - the merge of two progress files;
  - scanning the data directory into a manifest of CRC-32 checksums;
  - remote paths and the path-traversal guard;
  - the upload and download runs against a server model.
- **Persistence** (`src/model/library.rs`, `src/sync/config.rs`):
  - matching a novel by path across platforms;
  - reading and storing progress;
  - portable serialisation of paths;
  - load-time normalisation;
  - rotating backups;
  - the settings file.
- **Sync triggers** (`src/app/sync_ops.rs`):
  - starting a run, with at most one at a time;
  - draining the worker's messages into the status bar.
- **Search** (`src/app/search.rs`):
  - case-insensitive search of the open novel;
  - finding the chapter that holds a line.
- **Key handling** (`src/event/mod.rs`, `src/event/reader.rs`):
  - list navigation;
  - line wrapping;
  - the status reset each key press performs;
  - the reader's scroll, page and chapter-jump keys.
- **Novel parsing** (`src/model/novel.rs`):
  - the title taken from the file stem;
  - the chapter-heading classifier;
  - chapter parsing.

## Modules

Each module models one source file or component. All files sit in this
directory.

| file | module | models |
|---|---|---|
| `wrappers.dfy` | `Wrappers` | `Option`, `Result` |
| `text.dfy` | `Text` | splitting, trimming, ASCII case folding, UTF-8 length, `u64` parsing |
| `paths.dfy` | `Paths` | sync keys, the portable path form, `safe_local_path`, `file_stem`, `extension` |
| `novel.dfy` | `NovelModel` | `Novel::new`, `is_chapter_title`, `parse_chapters` |
| `storage.dfy` | `Storage` | "read this file, fall back when it is missing or bad" |
| `config.dfy` | `WebDav` | `WebDavConfig` default, `load`, `is_configured` |
| `manifest.dfy` | `Manifest` | `SyncManifest`, `FileEntry`, `SyncMessage`, `load_local_manifest` |
| `diff.dfy` | `Diff` | `diff_for_upload`, `diff_for_download` |
| `library.dfy` | `LibraryModel` | `Library` |
| `merge.dfy` | `Merge` | `merge_novel`, `merge_library_json`, `merge_progress` |
| `io.dfy` | `SyncIo` | `remote_base`, `remote_file_path`, `scan_local_files` |
| `remote.dfy` | `WebDavStore` | the server, as `webdav_client.rs` sees it |
| `sync.dfy` | `SyncRun` | `do_sync_up` / `sync_up`, `do_sync_down` / `sync_down` |
| `sync_ops.dfy` | `SyncOps` | `trigger_sync`, `trigger_download`, `poll_sync_status` |
| `search.dfy` | `Search` | `perform_search`, `find_current_chapter_index`, `find_chapter_index` |
| `navigation.dfy` | `Navigation` | `count_physical_lines`, `navigate_list`, the reset in `handle_key` |
| `reader.dfy` | `Reader` | the scroll and chapter keys of `handle_reader_key` |

### What the model takes as parameters

Anything the program gets from a library or the operating system is a
parameter of the model:

- the JSON codecs (`serde_json`), as `encode` / `decode` function parameters;
- CRC-32;
- Unicode lower-casing;
- the display width of a string;
- whether a byte string is valid UTF-8;
- the clock, as a number of seconds.

Lemmas that need a codec to read back what it writes say so in their
`requires`.

### How the file system and the server are represented

- A data directory is a map from `/`-separated relative keys to file
  contents and modification times.
- The WebDAV server is a map from paths to bytes, plus two more parts:
  - the set of collections created so far;
  - the set of paths on which every request fails.
- A run is a method that returns:
  - the messages it sent;
  - the new data directory;
  - the new server.

### Where the model follows the code rather than the specification

- **Progress entries.** `src/model/novel.rs` shows a `ReadingProgress` with only
  a scroll offset. The library and the merge code
  (`src/sync/sync_engine/merge.rs`) read and write a bookmark list of
  `{name, position, timestamp}` as well. The model follows the merge code.
- **The merge is typed.** The model merges typed libraries instead of walking
  an untyped JSON tree. A field missing from the JSON is therefore not
  representable; the code would default it.

### Observed behaviours worth knowing

These are as written in the code. None is claimed to be a bug:

- **Chapter jump before the first chapter.** When the reading position lies
  before the first chapter, `]` jumps to the start of the second chapter.
  The first chapter is skipped, because `find_chapter_index` counts that
  position as being in chapter 0 (`Reader.NextFromBeforeFirstChapter`).
- **Zero-width lines.** `count_physical_lines` gives 0 rows for a non-empty
  line whose display width is 0, such as a line made only of combining marks.
- **Re-fetching `progress.json`.** After a download that merged
  `progress.json`, the saved manifest describes the merged file, while the
  server still holds the unmerged one. The next download therefore fetches
  `progress.json` again. Every other file converges
  (`SyncRun.PulledScansAsRemote`).
- **Re-saving on every load.** Loading re-roots each stored `novels/<file>`
  path in the local novels directory, and that counts as a change. So every
  load of a library with such an entry saves the file again, although the
  bytes written are the bytes read. The save also makes a backup when the
  current ten-minute slot has none (`LibraryModel.LoadRewritesPortableFile`).
  What a load leaves behind is stable: loading it again gives the same
  library and file contents (`LibraryModel.LoadIsStable`).
- **Keeping the latest progress.** A novel's offset is the larger of the two
  sides. Bookmarks are only ever added by a merge, never removed.

## Model

| member | source | states |
|---|---|---|
| Paths.NovelsSegmentIsCaseInsensitiveMatch | src/model/library.rs:258-272 | the `novels` segment test is exactly an ASCII case-insensitive comparison with "novels" |
| Paths.RelSegments | src/model/library.rs:258-272 | the relative part is the non-empty, `novels`-free tail after the last `novels` segment of the path split on both separators; None exactly when there is no such segment or it is the last one |
| Paths.RelSegmentsOfSplit | src/model/library.rs:258-272 | whenever a path's segments are a prefix ending in `novels` followed by a clean `novels`-free tail, that tail is the relative part |
| Paths.SyncKey | src/model/library.rs:275-281 | a sync key exists exactly when the path has a relative part, and it starts with `novels/` |
| Paths.SyncKeyIsPortable | src/model/library.rs:275-281 | a sync key has the same relative part as the original path and is its own sync key |
| Paths.PortablePath | src/model/library.rs:27-39 | a path is stored as its sync key when it has one and unchanged otherwise |
| Paths.PortablePathIdempotent | src/sync/sync_engine/merge.rs:111-118 | putting a path in portable form twice changes nothing more |
| Paths.RelSegmentsOfPortable | src/sync/sync_engine/merge.rs:100-109 | the portable form `novels/<rel>` has `rel` as its relative part again |
| Paths.LocalNovelPath | src/model/library.rs:283-296 | re-rooting a relative part yields a path inside the local novels directory |
| Paths.RelSegmentsOfLocalNovelPath | src/model/library.rs:283-296 | a re-rooted path has the same relative part, so normalisation is stable |
| Paths.SafeLocalPath | src/sync/sync_engine/io.rs:53-65 | a manifest path is rejected exactly when one of its components is a parent step, a root or a drive prefix; otherwise the result is the data directory joined with it |
| Paths.WindowsGuardIsStricter | src/sync/sync_engine/io.rs:53-65 | every path the guard rejects on Unix it also rejects on Windows |
| Paths.JoinPath | src/sync/sync_engine/io.rs:64 | the joined path starts with the directory and ends with the relative path |
| Paths.FileStem | src/model/novel.rs:24-28 | a stem exists exactly when the path has a file name, and it is a non-empty prefix of that name |
| Paths.FileNameOfFile | src/model/novel.rs:24-28 | on Unix a name holding no separator, and not `.` or `..`, is the file name of `<dir>/<name>` |
| Paths.FileStemOfFile | src/model/novel.rs:24-28 | the stem of `<dir>/<stem>.<ext>` is `<stem>` |
| Paths.Extension | src/sync/sync_engine/io.rs:114 | the file name is the stem, a dot and the extension, and the extension holds no dot; without an extension the stem is the whole name |
| Paths.ParentSegments | src/sync/sync_engine/mod.rs:103-124 | the directory segments of a key are clean and leave out the file name |
| NovelModel.NewNovel | src/model/novel.rs:23-37 | a new novel is titled by the file stem, or "未知标题" when there is none, and has no content, no chapters and the default progress |
| NovelModel.NewNovelExample | src/model/novel.rs:165-169 | `/path/to/my_novel.txt` is titled `my_novel` |
| NovelModel.Lines | src/model/novel.rs:51 | the lines of a text hold no line feed and are no more numerous than its characters |
| NovelModel.JoinLines | src/model/novel.rs:51 | for text without carriage returns, joining the lines with a line feed gives back the text, less one final line ending: each line is exactly the text between two line breaks |
| NovelModel.ChapterTitleIgnoresSurroundingSpace | src/model/novel.rs:76-77 | the classifier gives the same answer for a line and for its trimmed form |
| NovelModel.ChapterTitleOfTrimmed | src/model/novel.rs:76-140 | a trimmed line is a heading exactly when one of the five rules accepts it |
| NovelModel.IsChapterTitle | src/model/novel.rs:76-140 | a blank line (after trimming) never heads a chapter, given a lowercasing that keeps the empty string empty |
| NovelModel.NumberedHeading | src/model/novel.rs:80-93 | `第`, then characters with no keyword and no whitespace, then a keyword, is a heading |
| NovelModel.NotHeadingSpaced | src/model/novel.rs:80-93 | a `第` line with whitespace before its first keyword is not a heading under any rule |
| NovelModel.EnglishHeading | src/model/novel.rs:95-98 | a line starting with "chapter" in any ASCII case is a heading |
| NovelModel.SpecialHeading | src/model/novel.rs:100-108 | a line starting with one of the ten special names (序章 … 开篇) is a heading |
| NovelModel.DigitHeading | src/model/novel.rs:110-122 | ASCII digits followed by a final '.', at most ten characters, is a heading |
| NovelModel.ChineseNumeralHeading | src/model/novel.rs:124-137 | Chinese numerals followed by a final '、' or '.', two to ten characters, is a heading |
| NovelModel.NotHeadingByFirstChar | src/model/novel.rs:76-140 | a trimmed line whose first character begins no rule's pattern is not a heading |
| NovelModel.NumberedTitleExample | src/model/novel.rs:174 | "第一章 标题" is a heading |
| NovelModel.NumberedTitleDigitsExample | src/model/novel.rs:175 | "第100回" is a heading |
| NovelModel.EnglishTitleExample | src/model/novel.rs:176 | "Chapter 1: The Beginning" is a heading |
| NovelModel.SpecialTitleExample | src/model/novel.rs:177 | "序章" is a heading |
| NovelModel.DigitTitleExample | src/model/novel.rs:178 | "123." is a heading |
| NovelModel.ChineseNumeralTitleExample | src/model/novel.rs:179 | "一二三、" is a heading |
| NovelModel.PlainLineExample | src/model/novel.rs:180 | an ordinary sentence is not a heading |
| NovelModel.SpacedTitleExample | src/model/novel.rs:181 | "第一 章" is not a heading |
| NovelModel.CollectChapters | src/model/novel.rs:53-68 | the chapters are exactly the accepted lines, in strictly increasing line order, each titled from its own line |
| NovelModel.ParseChapters | src/model/novel.rs:48-69 | every chapter starts on a non-blank heading line and is titled by that line trimmed; starts strictly increase; every heading line starts a chapter |
| Text.TrimIdempotent | src/model/novel.rs:54 | trimming twice gives what trimming once gives |
| Text.ParseDecimal | src/model/library.rs:245-250 | the decimal rendering of a `u64` parses back to the same number |
| Storage.LoadOr | src/sync/config.rs:24-42 | a load yields the decoded file, or the fallback when the file is missing, unreadable or does not decode |
| WebDav.LoadConfig | src/sync/config.rs:24-42 | the settings are the parsed file or the defaults; settings that are configured always come from a parsed file, so without a settings file sync never starts |
| WebDav.IsConfigured | src/sync/config.rs:65-67 | the default settings never count as configured |
| WebDav.LoadSavedConfig | src/sync/config.rs:44-56 | settings saved with a codec that reads back what it writes load back unchanged |
| Manifest.LoadLocalManifest | src/sync/sync_engine/io.rs:67-76 | the local manifest is the parsed file, or the empty manifest when the file is missing, unreadable or unparsable |
| Manifest.LoadSavedManifest | src/sync/sync_engine/io.rs:78-83 | a manifest saved with a codec that reads back what it writes loads back unchanged |
| Diff.TransferWalkExact | src/sync/sync_engine/diff.rs:17-22 | the first loop emits a transfer for every key that needs one, and for no key twice |
| Diff.DeleteWalkExact | src/sync/sync_engine/diff.rs:24-28 | the second loop emits a delete for every key the other side lacks, and for no key twice |
| Diff.Reconcile | src/sync/sync_engine/diff.rs:11-53 | every action is justified by the two file lists, every needed action is present, paths are distinct, deletes come last, and the list is empty exactly when both sides agree |
| Diff.NothingWalked | src/sync/sync_engine/mod.rs:90-96 | the diff comes back empty exactly when both sides list the same files with the same hashes |
| Diff.DiffForUpload | src/sync/sync_engine/diff.rs:11-31 | an upload exactly for each local file that is new or differs in hash, a delete exactly for each file only the server has, no downloads, distinct paths, deletes last |
| Diff.DiffForDownload | src/sync/sync_engine/diff.rs:33-53 | a download exactly for each server file that is new or differs in hash, a delete exactly for each file only the local side has, no uploads, distinct paths, deletes last |
| Diff.DiffIgnoresSizeAndMtime | src/sync/sync_engine/diff.rs:17-50 | two file lists with the same hashes give the same diffs, whatever their sizes and times |
| Diff.UploadScenario | src/sync/sync_engine/mod.rs:288-321 | the upload test: the changed and the new file are uploaded, the server-only file is deleted |
| Diff.DownloadScenario | src/sync/sync_engine/mod.rs:324-356 | the download test: the changed file and the library are downloaded, the local-only file is deleted |
| LibraryModel.SameNovelPathIsEquivalence | src/model/library.rs:298-306 | path matching is reflexive, symmetric and transitive |
| LibraryModel.FindNovel | src/model/library.rs:348-354 | the lookup returns the first entry whose path matches, or none when no entry matches |
| LibraryModel.GetNovelProgress | src/model/library.rs:348-354 | the progress of the first matching entry, or the default progress when none matches |
| LibraryModel.UpdateNovelProgress | src/model/library.rs:316-337 | the first matching entry gets the new progress and the caller's path, and nothing else changes; without a match one entry titled by the file stem is appended |
| LibraryModel.GetAfterUpdate | src/model/library.rs:387-430 | progress stored for a path reads back, and the library grows exactly when no entry matched |
| LibraryModel.UpdateLeavesOthers | src/model/library.rs:316-337 | an update leaves the progress read for any path whose entry does not match the updated path unchanged, whether that entry comes before or after the updated one |
| LibraryModel.UpdateTwiceExample | src/model/library.rs:387-407 | updating the same path twice keeps one entry, titled by the file, holding the latest progress |
| LibraryModel.SyncKeyOfNovelFile | src/model/library.rs:275-281 | a file directly inside a `novels` directory has the key `novels/<file>`, whichever separator the path uses |
| LibraryModel.CrossPlatformLookupExample | src/model/library.rs:442-456 | progress stored under a Windows path is found from the Unix path of the same novel |
| LibraryModel.CrossPlatformUpdateExample | src/model/library.rs:459-480 | updating from the Unix path migrates the Windows entry in place |
| LibraryModel.Serialized | src/model/library.rs:27-39 | the serialised library has the same entries, each with its path in portable form |
| LibraryModel.SerializedIsStable | src/model/library.rs:27-39 | serialising an already serialised library changes nothing |
| LibraryModel.NormalizeNovel | src/model/library.rs:283-296 | an entry keeps its title and progress, and its path is re-rooted in the local novels directory exactly when it has a relative part |
| LibraryModel.NormalizeNovelPaths | src/model/library.rs:283-296 | every entry is normalised, and the flag is set exactly when some path changed |
| LibraryModel.NormalizeTwiceUnchanged | src/model/library.rs:283-296 | normalising the entries a second time changes no path and reports no change |
| LibraryModel.NormalizeSerialized | src/model/library.rs:483-520 | normalising gives the same paths whether or not they were first put in portable form |
| LibraryModel.BackupBucket | src/model/library.rs:208-209 | the slot is a multiple of 600 seconds and holds the current time |
| LibraryModel.RetentionCutoff | src/model/library.rs:227-228 | the cutoff lies three days before now, saturating at zero |
| LibraryModel.CleanupOldBackups | src/model/library.rs:236-256 | exactly the backups whose slot number parses below the cutoff are removed; every other file is kept unchanged |
| LibraryModel.CurrentBackupSurvives | src/model/library.rs:198-234 | the backup just made is never old enough to be removed |
| LibraryModel.ProgressFileIsNoBackup | src/model/library.rs:236-256 | cleanup never removes the library file itself |
| LibraryModel.CreateBackupIfNeeded | src/model/library.rs:198-234 | with a library file and no backup in the current slot, the file is copied there; the library file is unchanged; only expired backups disappear; nothing else is added |
| LibraryModel.SaveLibrary | src/model/library.rs:120-141 | the library file then holds the library with portable paths; the old file is backed up when the slot is free, and nothing else is written; every other file is kept unchanged unless it is an expired backup |
| LibraryModel.LoadLibrary | src/model/library.rs:67-112 | a missing or unreadable file gives an empty library and leaves the directory alone; an unparsable one is copied aside and gives an empty library; a parsed one gives the normalised entries and is saved again exactly when some path was re-rooted or its re-encoding differs from the stored bytes, so the file afterwards holds the library in portable form |
| LibraryModel.LoadIsStable | src/model/library.rs:72-82 | loading again what a load left behind gives the same library and the same library file, when the codec reads back what it writes |
| LibraryModel.LoadRewritesPortableFile | src/model/library.rs:72-82 | a file already in portable form that has an entry under `novels/` is still saved again by every load, putting back the same bytes |
| LibraryModel.LoadAfterSave | src/model/library.rs:522-547 | saving and loading again returns the saved entries with their paths re-rooted locally |
| Merge.DedupByPosition | src/sync/sync_engine/merge.rs:157-165 | one bookmark per position, the first one seen, and every position is kept |
| Merge.FirstAtIsEarliest | src/sync/sync_engine/merge.rs:157-165 | the bookmark kept for a position is the earliest one at that position |
| Merge.SortByPosition | src/sync/sync_engine/merge.rs:166 | the sorted list is a permutation of the input, in ascending position |
| Merge.InsertPermutes | src/sync/sync_engine/merge.rs:166 | inserting a bookmark into a sorted list adds exactly that bookmark |
| Merge.MergeBookmarks | src/sync/sync_engine/merge.rs:141-171 | the merged list is sorted, marks exactly the positions of either side, and holds the first bookmark found at each position, server first |
| Merge.MergeBookmarksWinner | src/sync/sync_engine/merge.rs:157-165 | at a shared position the server's bookmark wins, elsewhere the local one |
| Merge.MergeNovel | src/sync/sync_engine/merge.rs:120-174 | the server's entry with the local path, the larger of the two offsets, and bookmarks sorted and covering the positions of both sides, merged with the server's bookmarks first |
| Merge.MergeNovelExample | src/sync/sync_engine/mod.rs:360-397 | offsets 200 and 100 merge to 200, and bookmarks at 10, 20 and 30 keep the server's one at 10 |
| Merge.LastByTitle | src/sync/sync_engine/merge.rs:57-62 | the title lookup finds a local novel with that title exactly when one exists |
| Merge.LastByTitleIsLast | src/sync/sync_engine/merge.rs:57-62 | when titles repeat, the last novel with that title wins |
| Merge.LocalOnlyComplete | src/sync/sync_engine/merge.rs:82-91 | every local novel whose title the server does not know is kept |
| Merge.MergeLibraryRemoteEntry | src/sync/sync_engine/merge.rs:67-80 | each server novel, in server order, is merged with the local novel of its title when there is one and kept otherwise, with its path in portable form |
| Merge.MergeLibraryLocalTail | src/sync/sync_engine/merge.rs:82-95 | after the server's novels come the local-only ones, in local order, with their paths in portable form |
| Merge.MergeLibraryIsPortable | src/sync/sync_engine/merge.rs:93-95 | every path of the merged library is in portable form |
| Merge.MergeLibraryTitles | src/sync/sync_engine/merge.rs:38-98 | a title is in the merged library exactly when it is on either side |
| Merge.MergeLibrary | src/sync/sync_engine/merge.rs:38-98 | the merged library holds one entry per server novel followed by one per local novel whose title the server lacks; what each entry holds is stated by `Merge.MergeLibraryRemoteEntry` and `Merge.MergeLibraryLocalTail` |
| Merge.MergeLibraryExample | src/sync/sync_engine/mod.rs:400-453 | the shared novel is merged, each one-sided novel is kept, and all paths become `novels/<file>` |
| Merge.MergeProgress | src/sync/sync_engine/merge.rs:8-35 | an unparsable server copy is an error; a missing, unreadable or unparsable local file is replaced by the server copy; otherwise the merged library is written |
| Merge.MergeProgressKeepsRemoteNovels | src/sync/sync_engine/merge.rs:8-35 | after the merge the progress file knows every novel the server knows |
| SyncIo.RemoteBase | src/sync/sync_engine/io.rs:44-46 | the base is the configured path without its trailing slashes |
| SyncIo.RemoteBaseIgnoresSlashes | src/sync/sync_engine/io.rs:44-46 | any number of trailing slashes gives the same base |
| SyncIo.RemoteFilePath | src/sync/sync_engine/io.rs:48-50 | a key's remote path is the base, a slash and the key |
| SyncIo.RemoteFilePathInjective | src/sync/sync_engine/io.rs:48-50 | different keys never share a remote path |
| SyncIo.DefaultRemoteBase | src/sync/config.rs:11-21 | the default remote directory gives the base `/fish_reader` |
| SyncIo.ScanEntry | src/sync/sync_engine/io.rs:124-134 | the entry records the file's size and time; the previous entry is reused when both are unchanged, otherwise the checksum is recomputed |
| SyncIo.Scan | src/sync/sync_engine/io.rs:103-165 | one entry for exactly each tracked file: `progress.json` and the `.txt` files under `novels/` |
| SyncIo.ScanIsStable | src/sync/sync_engine/io.rs:124-130 | scanning an untouched directory again reuses every entry |
| SyncIo.ScanIgnoresUntracked | src/sync/sync_engine/io.rs:109-162 | files the scan does not track do not affect it |
| SyncIo.ScanHashesAccurate | src/sync/sync_engine/io.rs:124-134 | if the previous manifest was accurate, every checksum of the scan matches the file's contents |
| SyncIo.ScanSkipsBookkeeping | src/sync/sync_engine/io.rs:103-165 | no name starting with `progress.json.backup.`, no corrupted copy `progress.json.corrupted.<n>`, neither the local manifest nor the settings file `webdav.json` ever enters the manifest |
| WebDavStore.Mkcol | src/sync/webdav_client.rs:25-47 | creating a collection fails only on a refused path, and an existing collection counts as success |
| WebDavStore.Put | src/sync/webdav_client.rs:49-66 | a PUT replaces the file at its path and touches nothing else |
| WebDavStore.Get | src/sync/webdav_client.rs:68-85 | a GET returns the stored bytes, and a missing file is an error |
| WebDavStore.GetOptional | src/sync/sync_engine/io.rs:85-94 | the optional GET reports a missing file as absent rather than as an error |
| WebDavStore.Delete | src/sync/webdav_client.rs:109-127 | a DELETE removes the file, and a missing file counts as success |
| WebDavStore.GetAfterPut | src/sync/webdav_client.rs:49-85 | what was put reads back |
| WebDavStore.DeleteIsIdempotent | src/sync/webdav_client.rs:109-127 | a deleted file reads back as absent, and deleting it again changes nothing |
| WebDavStore.MkcolIsIdempotent | src/sync/webdav_client.rs:39-44 | creating an existing collection again changes nothing |
| SyncRun.FetchManifest | src/sync/sync_engine/io.rs:85-94 | no manifest on the server gives None; a refused request or an unparsable manifest is an error; otherwise the parsed manifest |
| SyncRun.Chain | src/sync/sync_engine/mod.rs:103-124 | one collection per directory segment of the parent |
| SyncRun.ChainEndsAtParent | src/sync/sync_engine/mod.rs:103-124 | the last collection of the chain is the one holding the file |
| SyncRun.MkcolAll | src/sync/sync_engine/mod.rs:111-120 | on success every collection exists and no file changed; it fails exactly when one of them is refused |
| SyncRun.PrepareDirs | src/sync/sync_engine/mod.rs:103-124 | after it, the parent's collection chain exists, unless an earlier upload of the run already made it |
| SyncRun.MakeRoots | src/sync/sync_engine/mod.rs:98-100 | the base and `novels/` collections exist afterwards, and it fails exactly when one of them is refused |
| SyncRun.UploadStep | src/sync/sync_engine/mod.rs:127-157 | an upload puts the file below existing collections, a delete removes it, and every server file other than the action's own path is still there with the same bytes, with none added |
| SyncRun.RunUploads | src/sync/sync_engine/mod.rs:127-157 | without a failure every upload of the list is on the server below its collections and every delete is gone; failed or not, every server file outside the actions' paths is kept unchanged and none is added; only progress notes are sent |
| SyncRun.UploadManifest | src/sync/sync_engine/mod.rs:162-167 | the published manifest has the current version and the run's time |
| SyncRun.PublishKeeps | src/sync/sync_engine/mod.rs:162-171 | uploading the manifest after the action loop keeps everything the loop did |
| SyncRun.Push | src/sync/sync_engine/mod.rs:98-171 | a complete push leaves every changed or new file uploaded, every vanished file deleted, the new manifest published and every other server file as it was; even a failed push touches no server file outside those paths |
| SyncRun.PushKeepsUntouched | src/sync/sync_engine/mod.rs:98-171 | after a complete push, the server file of any key other than the manifest that is neither changed, new nor vanished is exactly as before: still there with the same bytes, or still absent |
| SyncRun.SyncUp | src/sync/sync_engine/mod.rs:65-175 | the run sends notes then one terminal message; a failure leaves the directory alone and names a refused path or an unreadable manifest; an in-sync directory finishes with "no changes"; a complete run pushes and saves the manifest locally; no run touches a server file outside the changed, vanished and manifest paths |
| SyncRun.SecondUploadFindsNothing | src/sync/sync_engine/mod.rs:162-171 | after a complete upload the next upload finds nothing to do |
| SyncRun.Landing | src/sync/sync_engine/mod.rs:211-226 | `progress.json` is merged with the local library and any other file is written as it came, after the path-traversal check |
| SyncRun.DownloadStep | src/sync/sync_engine/mod.rs:201-241 | a download lands the server's file, a delete removes the local one, a failure changes nothing, and other keys are untouched |
| SyncRun.RunDownloads | src/sync/sync_engine/mod.rs:201-241 | without a failure every download has landed and every delete is gone; files no action names are untouched; the merge flag is set exactly when `progress.json` came down |
| SyncRun.FinalManifest | src/sync/sync_engine/mod.rs:247-266 | the saved manifest is the server's, except that a merged `progress.json` is described as it now is on disk |
| SyncRun.FinalManifestMatchesScan | src/sync/sync_engine/mod.rs:247-266 | the entry saved for a merged `progress.json` is the one the next scan computes |
| SyncRun.Pull | src/sync/sync_engine/mod.rs:201-267 | a complete pull fetches every new or changed file, deletes every vanished one, keeps the rest and saves the final manifest |
| SyncRun.PulledScansAsRemote | src/sync/sync_engine/mod.rs:247-267 | after a complete pull the next scan agrees with the server's manifest on every fetched file |
| SyncRun.PullAgainst | src/sync/sync_engine/mod.rs:186-269 | an in-sync directory finishes with "no changes"; otherwise a complete run pulls, and a failure names a refused request, an unreadable library or an unsafe path |
| SyncRun.SyncDown | src/sync/sync_engine/mod.rs:177-271 | the run sends notes then one terminal message; no manifest on the server is an error; otherwise the download runs against it |
| SyncOps.Trigger | src/app/sync_ops.rs:9-30 | nothing happens while a run is busy; without configuration only the error note is set; otherwise a fresh receiver and an in-progress status |
| SyncOps.TriggerSync | src/app/sync_ops.rs:9-29 | while busy nothing changes; without configuration only the error note is set; otherwise a fresh receiver and the status "preparing upload" |
| SyncOps.TriggerDownload | src/app/sync_ops.rs:32-52 | while busy nothing changes; without configuration only the error note is set; otherwise a fresh receiver and the status "preparing download" |
| SyncOps.TriggerIsExclusive | src/app/sync_ops.rs:10-12 | triggering again while the run is under way changes nothing |
| SyncOps.DefaultConfigRefuses | src/app/mod.rs:633-652 | with the default settings no run starts and the error note is set |
| SyncOps.StatusAfter | src/app/sync_ops.rs:58-82 | only a progress note leaves the status busy |
| SyncOps.FirstTerminal | src/app/sync_ops.rs:58-82 | the position of the first terminal message, with none before it |
| SyncOps.PollSyncStatus | src/app/sync_ops.rs:55-85 | a poll drains messages up to and including the first terminal one, which sets the final status and drops the receiver; reload happens only after a download |
| SyncOps.PollInBatches | src/app/sync_ops.rs:55-85 | polling after a first batch without a terminal message and again after the rest, even when the rest is empty (the idle poll), ends where a single poll after both ends |
| SyncOps.PollIdleKeeps | src/app/sync_ops.rs:55-58 | a poll that finds no message changes nothing and reloads nothing |
| SyncOps.RunEndsIdleForNextTrigger | src/app/mod.rs:602-631 | a whole run delivered and polled ends in its terminal status with the receiver dropped, so a new run may start |
| Search.SearchLines | src/app/search.rs:16-22 | exactly the lines whose lower-cased text contains the term, as (index, line), in line order |
| Search.RepairSelection | src/app/search.rs:24-34 | the selection is kept when still in range, otherwise the first result, and none without results |
| Search.PerformSearch | src/app/search.rs:11-40 | without a novel nothing changes; an empty query clears; otherwise the results are the matching lines and the selection is valid |
| Search.PerformSearchIdempotent | src/app/search.rs:11-40 | searching again with the same query changes nothing |
| Search.SearchExample | src/app/mod.rs:311-327 | "test" matches the second and third of the example lines, whatever their case |
| Search.FindChapterIndex | src/app/search.rs:69-82 | the last chapter of the leading run that starts at or before the line, and 0 when none does |
| Search.FindChapterIndexSorted | src/app/search.rs:59-68 | for chapters in line order, the chapter found starts at or before the line and every later one starts after it |
| Search.FindChapterIndexBoundaries | src/app/mod.rs:580-599 | chapters at 10, 20 and 30 give 0 for line 0, 1 for line 20 and 2 for line 999 |
| Search.FindCurrentChapterIndex | src/app/search.rs:47-57 | none without a novel or without chapters; otherwise the chapter of the reading position |
| Search.CurrentChapterExample | src/app/mod.rs:330-365 | chapters at 0, 10 and 20 place offsets 5, 15 and 25 in the first, second and third |
| Navigation.CountPhysicalLines | src/event/mod.rs:24-32 | one row for an empty line or a zero width, otherwise the fewest rows of that width that hold the line's display width |
| Navigation.OneRowIffFits | src/event/mod.rs:24-32 | a line of positive display width takes one row exactly when it fits in a positive width |
| Navigation.CountPhysicalLinesExamples | src/event/mod.rs:154-186 | the wrapping tests: ASCII and Chinese text, exact fits, zero width |
| Navigation.NavigateList | src/event/mod.rs:47-59 | none for an empty list; from no selection, the last entry going up and the first going down; up stops at the top; down wraps |
| Navigation.NavigateListExamples | src/event/mod.rs:189-194 | the navigation test: wrap at the bottom, stop at the top, nothing in an empty list |
| Navigation.DownSteps | src/event/mod.rs:47-59 | `k` steps down from entry `i` reach entry `(i + k) mod len` |
| Navigation.UpSteps | src/event/mod.rs:47-59 | `k` steps up from entry `i` reach `i - k`, and stop at the first entry |
| Navigation.ResetOnKey | src/event/mod.rs:69-76 | a key press clears the error note and returns a finished run's status to idle, keeping a run under way |
| Navigation.ResetKeepsRun | src/event/mod.rs:69-76 | the reset neither starts nor stops a run, and a second reset changes nothing |
| Reader.PageSize | src/event/reader.rs:33-37 | the rows of text on a screen: the height less four, never below one |
| Reader.FitForward | src/event/reader.rs:81-97 | the lines taken going down fit on the page, and the next one would not |
| Reader.FitBackward | src/event/reader.rs:58-80 | the lines taken going up fit on the page, and the next one would not |
| Reader.PageDown | src/event/reader.rs:81-97 | page down moves at least one line unless at the end, never past the last line, and shows lines that fit the page as fully as possible |
| Reader.PageUp | src/event/reader.rs:58-80 | page up moves at least one line unless at the top, and takes the most lines that fit above |
| Reader.PageDownThenUp | src/event/reader.rs:37-97 | with lines one row high, a page of at least one row (the reader clamps it so) and a full page left below, page down moves one page and page up brings it back, also when page down lands on the last page |
| Reader.PrevChapterStart | src/event/reader.rs:118-127 | `[` exists exactly when the current chapter is not the first, and goes to the previous chapter's start |
| Reader.NextChapterStart | src/event/reader.rs:128-137 | `]` exists exactly when the current chapter is not the last, and goes to the next chapter's start |
| Reader.ChapterOfStart | src/app/search.rs:69-82 | with ascending chapters, the start line of chapter `k` lies in chapter `k` |
| Reader.ChapterJumpsRoundTrip | src/event/reader.rs:118-137 | `]` then `[` returns to the start of the current chapter, and `[` then `]` likewise |
| Reader.NextFromBeforeFirstChapter | src/event/reader.rs:128-137 | before the first chapter, `]` goes to the second chapter and `[` does nothing |
| Reader.HandleScrollKey | src/event/reader.rs:28-141 | only the reading position changes: up and down by one line, bounded; page keys as above; chapter jumps, which save the progress |
| Reader.ScrollStaysOnText | src/event/reader.rs:28-141 | no scroll key takes the position past the last line |
| Reader.LineDownStopsAtLastPage | src/event/reader.rs:53-57 | line down stops once the last line reaches the bottom of the screen |

## Left out

- **Operating-system effects.** The model leaves these out:
  - real file I/O and directory walking (`walkdir`);
  - `create_dir_all`;
  - the atomic write through a temporary file and rename;
  - `SystemTime`.
  Files are maps and the clock is a parameter.
- **Threads and HTTP.**
  - The worker thread and the `mpsc` channel are not modelled as concurrency.
    The receiver holds the messages sent and not yet received.
  - HTTP and reqwest are replaced by the server model in `remote.dfy`.
  - Authentication headers and timeouts are left out.
- **Rendering.** Rendering and terminal drawing, including everything under
  `src/ui/`, are left out. The localised texts of progress notes are
  rendered from a `ProgressNote` datatype and are not modelled.
- **Key dispatch.** The dispatch of `handle_key` to the screens is left out,
  and so are the reader's other keys (`q`, `Esc`, `/`, `t`, `b`, `m`). These
  only switch screens. Only the scroll and chapter keys are modelled.
- **Bookmarks and the rest of the app.** `src/app/bookmark.rs`,
  `src/app/library_ops.rs` and the other screens are not part of this model.
- **`test_connection`.** `WebDavClient::test_connection` is left out: no sync
  path calls it.
- **`SyncStatus::is_busy`.** Its definition is not part of this model. It is
  taken to mean "a run is in progress".
- **`Novel::lines`, `Novel::line_count` and `Novel::set_content`.** Their
  definitions are not part of this model. They are called from
  `src/app/search.rs:18`, `src/event/reader.rs:30,63,85` and
  `src/app/mod.rs:315`. They are taken to be the `str::lines` of the content
  (`NovelModel.Lines`), the number of those lines, and replacing the content.
- **`WebDavClient::download_bytes_opt`.** Its definition is not part of this
  model. It is called at `src/sync/sync_engine/io.rs:87`. It is taken to give
  `None` for a file the server does not have (HTTP 404), the bytes for one it
  has, and an error for any other failure (`WebDavStore.GetOptional`).
- **Path equality.** `Path` equality is modelled as string equality. The
  separators and drive prefixes that the paths code handles are explicit.
- **Integer widths.**
  - `usize` overflow and the `u16` terminal size are left out. All counts
    are unbounded naturals.
  - The `u64` clock is bounded by a `requires now < U64_LIMIT`, since the
    source obtains it as a `u64`.
- **Write failures.**
  - A failing `save_local_manifest`, or a failing write of `progress.json`
    or `Library::save`, is not modelled. Writes to the data directory
    always succeed.
  - Read errors on a local file are modelled only as "not valid UTF-8"
    (`isText`).
  - A metadata error during the scan is left out.
- **Reloading after a download.** The library reload after
  `DownloadComplete` is the `reload` flag of `SyncOps.PollSyncStatus`. The
  directory reload itself is not modelled.
- Merge.MatchRemote: states only the length of its result. What each entry
  holds is stated by `Merge.MergeLibraryRemoteEntry`.
- Merge.MergeLibraryTailEntry: leaves out the paths of the local-only
  novels. `Merge.MergeLibraryLocalTail` states them.
