/** Path handling shared by the library and the sync engine: the portable
    "suffix after the last `novels` segment" of a path, the traversal guard
    applied before a manifest path touches the data directory, `Path::join`,
    `Path::parent` on manifest keys and `Path::file_stem`.

    OS paths are plain strings. Where the source's behaviour depends on the
    platform (which characters separate components, whether `C:` is a drive
    prefix) the functions take a `Host`. */
module Paths {
  import opened Wrappers
  import opened Text

  datatype Host = Unix | Windows

  /** Both separators, as used by the string-splitting suffix extraction. */
  const BothSeps: set<char> := {'/', '\\'}

  function HostSeps(h: Host): set<char> {
    if h == Windows then BothSeps else {'/'}
  }

  function MainSep(h: Host): (c: char)
    ensures c in HostSeps(h)
  {
    if h == Windows then '\\' else '/'
  }

  // ---------------------------------------------------------------------------
  // The `novels`-relative suffix (`novel_rel_path` / `novels_rel_path`)

  /** `seg.eq_ignore_ascii_case("novels")`, spelled out letter by letter. */
  predicate IsNovelsSegment(seg: string) {
    && |seg| == 6
    && AsciiLowerChar(seg[0]) == 'n' && AsciiLowerChar(seg[1]) == 'o'
    && AsciiLowerChar(seg[2]) == 'v' && AsciiLowerChar(seg[3]) == 'e'
    && AsciiLowerChar(seg[4]) == 'l' && AsciiLowerChar(seg[5]) == 's'
  }

  lemma NovelsSegmentIsCaseInsensitiveMatch(seg: string)
    ensures IsNovelsSegment(seg) <==> EqIgnoreAsciiCase(seg, "novels")
  {
    if EqIgnoreAsciiCase(seg, "novels") {
      assert AsciiLowerChar(seg[0]) == AsciiLowerChar('n');
      assert AsciiLowerChar(seg[1]) == AsciiLowerChar('o');
      assert AsciiLowerChar(seg[2]) == AsciiLowerChar('v');
      assert AsciiLowerChar(seg[3]) == AsciiLowerChar('e');
      assert AsciiLowerChar(seg[4]) == AsciiLowerChar('l');
      assert AsciiLowerChar(seg[5]) == AsciiLowerChar('s');
    }
  }

  predicate NoNovelsSegment(parts: seq<string>) {
    forall j :: 0 <= j < |parts| ==> !IsNovelsSegment(parts[j])
  }

  /** `rposition` of a `novels` segment. */
  function LastNovelsIndex(parts: seq<string>): (r: Option<nat>)
    ensures r.Some? ==> r.value < |parts| && IsNovelsSegment(parts[r.value])
                        && NoNovelsSegment(parts[r.value + 1..])
    ensures r.None? ==> NoNovelsSegment(parts)
  {
    if |parts| == 0 then None
    else if IsNovelsSegment(parts[|parts| - 1]) then Some(|parts| - 1)
    else
      var r := LastNovelsIndex(parts[..|parts| - 1]);
      assert r.Some? ==> parts[r.value + 1..] == parts[..|parts| - 1][r.value + 1..] + [parts[|parts| - 1]];
      r
  }

  /** The segments after the last `novels` segment (ASCII case-insensitive) of
      `path` split on '/' and '\\'; `None` when there is no such segment or it
      is the last one. */
  function RelSegments(path: string): (r: Option<seq<string>>)
    ensures r.Some? ==>
      var parts := Segments(path, BothSeps);
      && |r.value| > 0
      && Clean(r.value, BothSeps)
      && NoNovelsSegment(r.value)
      && |r.value| < |parts|
      && r.value == parts[|parts| - |r.value|..]
      && IsNovelsSegment(parts[|parts| - |r.value| - 1])
    ensures r.None? <==>
      var parts := Segments(path, BothSeps);
      NoNovelsSegment(parts) || IsNovelsSegment(parts[|parts| - 1])
  {
    var parts := Segments(path, BothSeps);
    match LastNovelsIndex(parts)
    case None => None
    case Some(k) =>
      if k + 1 >= |parts| then None else Some(parts[k + 1..])
  }

  /** When the segments of a path end with a `novels` segment followed by a
      clean, `novels`-free tail, that tail is the relative part. */
  lemma LastNovelsIndexOfSplit(prefix: seq<string>, rel: seq<string>)
    requires |prefix| > 0 && IsNovelsSegment(prefix[|prefix| - 1])
    requires NoNovelsSegment(rel)
    ensures LastNovelsIndex(prefix + rel) == Some(|prefix| - 1)
  {
    var parts := prefix + rel;
    var k := LastNovelsIndex(parts);
    assert parts[|prefix| - 1] == prefix[|prefix| - 1];
  }

  lemma RelSegmentsOfSplit(path: string, prefix: seq<string>, rel: seq<string>)
    requires Segments(path, BothSeps) == prefix + rel
    requires |prefix| > 0 && IsNovelsSegment(prefix[|prefix| - 1])
    requires |rel| > 0 && NoNovelsSegment(rel)
    ensures RelSegments(path) == Some(rel)
  {
    LastNovelsIndexOfSplit(prefix, rel);
    assert (prefix + rel)[|prefix|..] == rel;
  }

  const NovelsDir: string := "novels"

  lemma NovelsSegments()
    ensures Segments(NovelsDir, BothSeps) == [NovelsDir]
    ensures IsNovelsSegment(NovelsDir)
  {
    FirstSepOfSepFree(NovelsDir, [], BothSeps);
    assert NovelsDir + [] == NovelsDir;
  }

  /** The portable form `novels/<rel>` is its own relative part again. */
  lemma RelSegmentsOfPortable(rel: seq<string>)
    requires |rel| > 0 && Clean(rel, BothSeps) && NoNovelsSegment(rel)
    ensures RelSegments(NovelsDir + "/" + Join(rel, "/")) == Some(rel)
  {
    var j := Join(rel, "/");
    var s := NovelsDir + "/" + j;
    SegmentsOfConcat(NovelsDir, '/', j, BothSeps);
    SegmentsOfJoin(rel, '/', BothSeps);
    NovelsSegments();
    assert Segments(s, BothSeps) == [NovelsDir] + rel;
    RelSegmentsOfSplit(s, [NovelsDir], rel);
  }

  /** `novel_sync_key`: the portable `novels/<rel>` form of a path, the same
      on every platform; `None` when the path has no relative part. */
  function SyncKey(path: string): (r: Option<string>)
    ensures r.Some? <==> RelSegments(path).Some?
    ensures r.Some? ==> StartsWith(r.value, NovelsDir + "/")
  {
    match RelSegments(path)
    case None => None
    case Some(rel) => Some(NovelsDir + "/" + Join(rel, "/"))
  }

  /** A sync key has itself as its sync key. */
  lemma SyncKeyIsPortable(path: string)
    requires SyncKey(path).Some?
    ensures RelSegments(SyncKey(path).value) == RelSegments(path)
    ensures SyncKey(SyncKey(path).value) == SyncKey(path)
  {
    RelSegmentsOfPortable(RelSegments(path).value);
  }

  /** The path as written to disk and sent to the server: its sync key when it
      has one, otherwise the path unchanged (`serialize_novel_path`,
      `normalize_novel_json_path`). */
  function PortablePath(path: string): (r: string)
    ensures SyncKey(path).Some? ==> r == SyncKey(path).value
    ensures SyncKey(path).None? ==> r == path
  {
    SyncKey(path).GetOr(path)
  }

  /** Rewriting a path into portable form twice changes nothing more. */
  lemma PortablePathIdempotent(path: string)
    ensures PortablePath(PortablePath(path)) == PortablePath(path)
  {
    if SyncKey(path).Some? {
      SyncKeyIsPortable(path);
    }
  }

  /** `novels_dir.join(rel)`: a relative part re-rooted in the local novels
      directory, joined with the platform's separator. */
  function LocalNovelPath(h: Host, novelsDir: string, rel: seq<string>): (r: string)
    ensures StartsWith(r, novelsDir)
  {
    JoinPath(h, novelsDir, Join(rel, [MainSep(h)]))
  }

  /** A directory whose last component is `novels`, written without a
      trailing separator. */
  predicate IsNovelsDir(h: Host, novelsDir: string) {
    var parts := Segments(novelsDir, BothSeps);
    && |parts| > 0 && IsNovelsSegment(parts[|parts| - 1])
    && novelsDir[|novelsDir| - 1] !in HostSeps(h)
  }

  /** Re-rooting in the novels directory keeps the relative part, so a
      normalised path normalises to itself. */
  lemma RelSegmentsOfLocalNovelPath(h: Host, novelsDir: string, rel: seq<string>)
    requires IsNovelsDir(h, novelsDir)
    requires |rel| > 0 && Clean(rel, BothSeps) && NoNovelsSegment(rel)
    ensures RelSegments(LocalNovelPath(h, novelsDir, rel)) == Some(rel)
  {
    var sep := MainSep(h);
    var j := Join(rel, [sep]);
    assert LocalNovelPath(h, novelsDir, rel) == novelsDir + [sep] + j;
    SegmentsOfConcat(novelsDir, sep, j, BothSeps);
    SegmentsOfJoin(rel, sep, BothSeps);
    RelSegmentsOfSplit(novelsDir + [sep] + j, Segments(novelsDir, BothSeps), rel);
  }

  // ---------------------------------------------------------------------------
  // Traversal guard (`safe_local_path`)

  predicate IsAsciiLetter(c: char) {
    ('a' <= c <= 'z') || ('A' <= c <= 'Z')
  }

  /** A Windows drive prefix such as `C:`. */
  predicate HasDrivePrefix(s: string) {
    |s| >= 2 && IsAsciiLetter(s[0]) && s[1] == ':'
  }

  /** Some component of `rel` is a parent-directory step, a root, or a drive
      prefix (`Component::ParentDir | RootDir | Prefix`). */
  predicate IsUnsafeRel(h: Host, rel: string) {
    || (|rel| > 0 && rel[0] in HostSeps(h))
    || (h == Windows && HasDrivePrefix(rel))
    || ".." in Segments(rel, HostSeps(h))
  }

  /** `PathBuf::join` of a relative path onto a directory. */
  function JoinPath(h: Host, dir: string, rel: string): (r: string)
    ensures |r| >= |dir| + |rel| && StartsWith(r, dir)
    ensures r[|r| - |rel|..] == rel
  {
    if dir == [] || dir[|dir| - 1] in HostSeps(h) then dir + rel
    else dir + [MainSep(h)] + rel
  }

  datatype PathError = UnsafePath(rel: string)

  /** Validates a manifest path before it is joined to the data directory. */
  function SafeLocalPath(h: Host, dataDir: string, rel: string): (r: Result<string, PathError>)
    ensures r.Failure? <==> IsUnsafeRel(h, rel)
    ensures r.Failure? ==> r.error == UnsafePath(rel)
    ensures r.Success? ==> r.value == JoinPath(h, dataDir, rel)
  {
    if IsUnsafeRel(h, rel) then Failure(UnsafePath(rel))
    else Success(JoinPath(h, dataDir, rel))
  }

  /** Splitting on a coarser separator set: every coarse segment that holds no
      finer separator is also a fine segment. */
  lemma {:induction false} SegmentRefines(s: string, coarse: set<char>, fine: set<char>, w: string)
    requires coarse <= fine
    requires w in Segments(s, coarse) && SepFree(w, fine)
    ensures w in Segments(s, fine)
    decreases |s|
  {
    var i1 := FirstSep(s, coarse);
    var head := if i1 == 0 then [] else [s[..i1]];
    var tail := if i1 == |s| then [] else Segments(s[i1 + 1..], coarse);
    assert Segments(s, coarse) == head + tail;
    if w in head {
      FirstSepAt(s, i1, fine);
    } else {
      assert w in tail;
      var rest := s[i1 + 1..];
      SegmentRefines(rest, coarse, fine, w);
      assert s == s[..i1] + [s[i1]] + rest;
      SegmentsOfConcat(s[..i1], s[i1], rest, fine);
    }
  }

  /** A manifest path the Windows guard accepts is also accepted on Unix: the
      Windows check is the stricter of the two. */
  lemma WindowsGuardIsStricter(rel: string)
    ensures IsUnsafeRel(Unix, rel) ==> IsUnsafeRel(Windows, rel)
  {
    if ".." in Segments(rel, {'/'}) {
      assert SepFree("..", BothSeps);
      SegmentRefines(rel, {'/'}, BothSeps, "..");
    }
  }

  // ---------------------------------------------------------------------------
  // `Path::parent` on '/'-separated manifest keys

  /** The directory segments of a manifest key: every segment but the file name. */
  function ParentSegments(key: string): (r: seq<string>)
    ensures Clean(r, {'/'})
    ensures |r| < |Segments(key, {'/'})| || r == []
  {
    var parts := Segments(key, {'/'});
    if |parts| == 0 then [] else parts[..|parts| - 1]
  }

  // ---------------------------------------------------------------------------
  // `Path::file_name` / `Path::file_stem`

  /** The last normal component of `path`: `.` components are skipped, and a
      trailing `..`, a bare root or a bare drive prefix has no file name. */
  function FileName(h: Host, path: string): (r: Option<string>)
    ensures r.Some? ==> r.value != [] && r.value != ".." && r.value != "."
    ensures r.Some? ==> SepFree(r.value, HostSeps(h))
  {
    var body := if h == Windows && HasDrivePrefix(path) then path[2..] else path;
    var parts := NonDot(Segments(body, HostSeps(h)));
    if |parts| == 0 || parts[|parts| - 1] == ".." then None
    else Some(parts[|parts| - 1])
  }

  function NonDot(parts: seq<string>): (r: seq<string>)
    requires forall k :: 0 <= k < |parts| ==> parts[k] != []
    ensures forall k :: 0 <= k < |r| ==> r[k] != "." && r[k] in parts
  {
    if |parts| == 0 then []
    else if parts[0] == "." then NonDot(parts[1..])
    else [parts[0]] + NonDot(parts[1..])
  }

  /** Index of the last '.' of `name`, if any. */
  function LastDot(name: string): (r: Option<nat>)
    ensures r.Some? ==> r.value < |name| && name[r.value] == '.'
                        && forall j :: r.value < j < |name| ==> name[j] != '.'
    ensures r.None? ==> forall j :: 0 <= j < |name| ==> name[j] != '.'
  {
    if |name| == 0 then None
    else if name[|name| - 1] == '.' then Some(|name| - 1)
    else LastDot(name[..|name| - 1])
  }

  /** `Path::file_stem`: the file name without its final extension; a name
      whose only dot is the leading one (`.txt`) is its own stem. */
  function FileStem(h: Host, path: string): (r: Option<string>)
    ensures r.Some? <==> FileName(h, path).Some?
    ensures r.Some? ==> StartsWith(FileName(h, path).value, r.value) && r.value != []
  {
    match FileName(h, path)
    case None => None
    case Some(name) =>
      match LastDot(name)
      case None => Some(name)
      case Some(i) => if i == 0 then Some(name) else Some(name[..i])
  }

  lemma NonDotSnoc(parts: seq<string>, name: string)
    requires forall k :: 0 <= k < |parts| ==> parts[k] != []
    requires name != [] && name != "."
    ensures NonDot(parts + [name]) == NonDot(parts) + [name]
  {
    if |parts| > 0 {
      assert (parts + [name])[1..] == parts[1..] + [name];
      NonDotSnoc(parts[1..], name);
    }
  }

  lemma LastDotAt(name: string, i: nat)
    requires i < |name| && name[i] == '.'
    requires forall j :: i < j < |name| ==> name[j] != '.'
    ensures LastDot(name) == Some(i)
  {
  }

  /** On Unix, a name holding no '/' is the file name of `<dir>/<name>`. */
  lemma FileNameOfFile(dir: string, name: string)
    requires name != [] && name != "." && name != ".." && SepFree(name, {'/'})
    ensures FileName(Unix, dir + ['/'] + name) == Some(name)
  {
    SegmentsOfConcat(dir, '/', name, {'/'});
    FirstSepOfSepFree(name, [], {'/'});
    assert name + [] == name;
    assert Segments(name, {'/'}) == [name];
    NonDotSnoc(Segments(dir, {'/'}), name);
  }

  /** On Unix, the stem of `<dir>/<stem>.<ext>` is `<stem>` when neither part
      holds a dot or a separator. */
  lemma FileStemOfFile(dir: string, stem: string, ext: string)
    requires stem != [] && SepFree(stem, {'/', '.'}) && SepFree(ext, {'/', '.'})
    ensures FileStem(Unix, dir + "/" + stem + "." + ext) == Some(stem)
  {
    var name := stem + "." + ext;
    forall j | 0 <= j < |name| ensures name[j] != '/' && (j > |stem| ==> name[j] != '.') {
      if j < |stem| { assert name[j] == stem[j]; }
      else if j > |stem| { assert name[j] == ext[j - |stem| - 1]; }
    }
    assert dir + "/" + stem + "." + ext == dir + ['/'] + name;
    assert name[0] == stem[0] && stem[0] != '.';
    assert name != "." && name != "..";
    assert SepFree(name, {'/'});
    FileNameOfFile(dir, name);
    LastDotAt(name, |stem|);
    assert name[..|stem|] == stem;
  }

  /** `Path::extension`: what follows the last dot of the file name, when that
      dot is not the name's first character. */
  function Extension(h: Host, path: string): (r: Option<string>)
    ensures r.Some? ==> FileName(h, path).Some? && FileStem(h, path).Some?
    ensures r.Some? ==> FileName(h, path).value == FileStem(h, path).value + "." + r.value
    ensures r.Some? ==> '.' !in r.value
    ensures r.None? && FileName(h, path).Some? ==> FileStem(h, path) == FileName(h, path)
  {
    match FileName(h, path)
    case None => None
    case Some(name) =>
      match LastDot(name)
      case None => None
      case Some(i) =>
        if i == 0 then None
        else
          assert name == name[..i] + "." + name[i + 1..];
          Some(name[i + 1..])
  }
}
