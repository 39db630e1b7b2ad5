/** Merging the library downloaded from the server into the local one
    (src/sync/sync_engine/merge.rs). Novels are matched by title; a matched
    novel keeps the larger scroll offset and the union of both bookmark
    lists, one bookmark per position with the server's winning; every path
    is written in portable form.

    The source works on untyped JSON; here both libraries are typed, so a
    missing field cannot occur (the source reads it as 0 or an empty list). */
module Merge {
  import opened Wrappers
  import opened Text
  import opened Paths
  import opened NovelModel
  import opened LibraryModel
  import opened Storage
  import opened Manifest

  // ---------------------------------------------------------------------------
  // Bookmarks

  /** The positions the bookmarks mark. */
  function Positions(bms: seq<Bookmark>): set<nat>
    decreases |bms|
  {
    if bms == [] then {} else Positions(bms[..|bms| - 1]) + {bms[|bms| - 1].position}
  }

  lemma PositionsSnoc(bms: seq<Bookmark>, b: Bookmark)
    ensures Positions(bms + [b]) == Positions(bms) + {b.position}
  {
    assert (bms + [b])[..|bms|] == bms;
  }

  lemma {:induction false} PositionsIndex(bms: seq<Bookmark>, pos: nat)
    ensures pos in Positions(bms) <==> exists i :: 0 <= i < |bms| && bms[i].position == pos
    decreases |bms|
  {
    if bms != [] {
      var init := bms[..|bms| - 1];
      PositionsIndex(init, pos);
      if pos in Positions(init) {
        var i :| 0 <= i < |init| && init[i].position == pos;
        assert bms[i] == init[i];
      }
      if exists i :: 0 <= i < |bms| && bms[i].position == pos {
        var i :| 0 <= i < |bms| && bms[i].position == pos;
        if i < |init| { assert init[i] == bms[i]; }
      }
    }
  }

  lemma {:induction false} PositionsConcat(a: seq<Bookmark>, b: seq<Bookmark>)
    ensures Positions(a + b) == Positions(a) + Positions(b)
    decreases |b|
  {
    if b == [] {
      assert a + b == a;
    } else {
      var init := b[..|b| - 1];
      var last := b[|b| - 1];
      PositionsConcat(a, init);
      assert a + b == (a + init) + [last];
      PositionsSnoc(a + init, last);
    }
  }

  /** The first bookmark of `bms` at position `pos`: the one the source's
      `seen_positions` loop keeps. */
  function FirstAt(bms: seq<Bookmark>, pos: nat): (r: Option<Bookmark>)
    ensures r.Some? <==> pos in Positions(bms)
    ensures r.Some? ==> r.value in bms && r.value.position == pos
    decreases |bms|
  {
    if bms == [] then None
    else
      var init := bms[..|bms| - 1];
      var last := bms[|bms| - 1];
      if pos in Positions(init) then FirstAt(init, pos)
      else if last.position == pos then Some(last)
      else None
  }

  lemma FirstAtSnoc(bms: seq<Bookmark>, b: Bookmark, pos: nat)
    ensures FirstAt(bms + [b], pos)
         == if pos in Positions(bms) then FirstAt(bms, pos) else if b.position == pos then Some(b) else None
  {
    assert (bms + [b])[..|bms|] == bms;
  }

  /** `FirstAt` is indeed the earliest bookmark at that position. */
  lemma {:induction false} FirstAtIsEarliest(bms: seq<Bookmark>, i: nat)
    requires i < |bms|
    requires forall j :: 0 <= j < i ==> bms[j].position != bms[i].position
    ensures FirstAt(bms, bms[i].position) == Some(bms[i])
    decreases |bms|
  {
    var init := bms[..|bms| - 1];
    var pos := bms[i].position;
    if i < |init| {
      FirstAtIsEarliest(init, i);
    } else {
      PositionsIndex(init, pos);
    }
  }

  lemma {:induction false} FirstAtConcat(a: seq<Bookmark>, b: seq<Bookmark>, pos: nat)
    ensures FirstAt(a + b, pos) == if pos in Positions(a) then FirstAt(a, pos) else FirstAt(b, pos)
    decreases |b|
  {
    if b == [] {
      assert a + b == a;
    } else {
      var init := b[..|b| - 1];
      var last := b[|b| - 1];
      FirstAtConcat(a, init, pos);
      assert a + b == (a + init) + [last];
      FirstAtSnoc(a + init, last, pos);
      PositionsConcat(a, init);
    }
  }

  predicate DistinctPositions(bms: seq<Bookmark>) {
    forall i, j :: 0 <= i < j < |bms| ==> bms[i].position != bms[j].position
  }

  /** The `seen_positions` loop: the first bookmark of each position, in order
      of first appearance. */
  function DedupByPosition(bms: seq<Bookmark>): (r: seq<Bookmark>)
    ensures DistinctPositions(r)
    ensures Positions(r) == Positions(bms)
    ensures forall i :: 0 <= i < |r| ==> FirstAt(bms, r[i].position) == Some(r[i])
    decreases |bms|
  {
    if bms == [] then []
    else
      var init := bms[..|bms| - 1];
      var b := bms[|bms| - 1];
      var r0 := DedupByPosition(init);
      assert bms == init + [b];
      if b.position in Positions(r0) then r0
      else
        PositionsSnoc(r0, b);
        PositionsIndex(r0, b.position);
        r0 + [b]
  }

  predicate SortedByPosition(bms: seq<Bookmark>) {
    forall i, j :: 0 <= i < j < |bms| ==> bms[i].position < bms[j].position
  }

  lemma SortedSnoc(s: seq<Bookmark>, b: Bookmark)
    requires SortedByPosition(s)
    requires s != [] ==> s[|s| - 1].position < b.position
    ensures SortedByPosition(s + [b])
  {
  }

  /** Places `b` into a list sorted by position that lacks its position. */
  function InsertByPosition(b: Bookmark, sorted: seq<Bookmark>): (r: seq<Bookmark>)
    requires SortedByPosition(sorted) && b.position !in Positions(sorted)
    ensures SortedByPosition(r)
    ensures |r| == |sorted| + 1
    ensures r[|r| - 1] == b || (sorted != [] && r[|r| - 1] == sorted[|sorted| - 1])
    decreases |sorted|
  {
    if sorted == [] then [b]
    else
      var init := sorted[..|sorted| - 1];
      var last := sorted[|sorted| - 1];
      if last.position < b.position then
        SortedSnoc(sorted, b);
        sorted + [b]
      else
        assert sorted == init + [last];
        PositionsSnoc(init, last);
        var r0 := InsertByPosition(b, init);
        SortedSnoc(r0, last);
        r0 + [last]
  }

  lemma {:induction false} InsertPermutes(b: Bookmark, sorted: seq<Bookmark>)
    requires SortedByPosition(sorted) && b.position !in Positions(sorted)
    ensures multiset(InsertByPosition(b, sorted)) == multiset(sorted) + multiset{b}
    decreases |sorted|
  {
    if sorted != [] {
      var init := sorted[..|sorted| - 1];
      var last := sorted[|sorted| - 1];
      assert sorted == init + [last];
      PositionsSnoc(init, last);
      if b.position <= last.position {
        InsertPermutes(b, init);
      }
    }
  }

  /** Lists holding the same bookmarks mark the same positions. */
  lemma PositionsOfPermutation(a: seq<Bookmark>, b: seq<Bookmark>)
    requires multiset(a) == multiset(b)
    ensures Positions(a) == Positions(b)
  {
    forall p ensures p in Positions(a) <==> p in Positions(b) {
      PositionsIndex(a, p);
      PositionsIndex(b, p);
      if p in Positions(a) {
        var i :| 0 <= i < |a| && a[i].position == p;
        assert a[i] in multiset(b);
      }
      if p in Positions(b) {
        var i :| 0 <= i < |b| && b[i].position == p;
        assert b[i] in multiset(a);
      }
    }
  }

  /** `sort_by_key(position)` of a list whose positions are distinct. */
  function SortByPosition(bms: seq<Bookmark>): (r: seq<Bookmark>)
    requires DistinctPositions(bms)
    ensures SortedByPosition(r)
    ensures multiset(r) == multiset(bms)
    decreases |bms|
  {
    if bms == [] then []
    else
      var init := bms[..|bms| - 1];
      var b := bms[|bms| - 1];
      assert bms == init + [b];
      var r0 := SortByPosition(init);
      PositionsOfPermutation(r0, init);
      PositionsIndex(init, b.position);
      InsertPermutes(b, r0);
      InsertByPosition(b, r0)
  }

  /** Both bookmark lists merged: one bookmark per position found on either
      side, the server's first one when it has that position and the local
      first one otherwise, sorted by position. */
  function MergeBookmarks(remote: seq<Bookmark>, local: seq<Bookmark>): (r: seq<Bookmark>)
    ensures SortedByPosition(r)
    ensures Positions(r) == Positions(remote) + Positions(local)
    ensures forall x :: x in r ==> FirstAt(remote + local, x.position) == Some(x)
  {
    var d := DedupByPosition(remote + local);
    var r := SortByPosition(d);
    PositionsOfPermutation(r, d);
    PositionsConcat(remote, local);
    MembersOfPermutation(r, d);
    r
  }

  lemma MembersOfPermutation(a: seq<Bookmark>, b: seq<Bookmark>)
    requires multiset(a) == multiset(b)
    ensures forall x :: x in a ==> x in b
  {
    forall x | x in a ensures x in b {
      assert x in multiset(b);
    }
  }

  /** Who wins a position: the server's first bookmark there, else the local one. */
  lemma MergeBookmarksWinner(remote: seq<Bookmark>, local: seq<Bookmark>, x: Bookmark)
    requires x in MergeBookmarks(remote, local)
    ensures x.position in Positions(remote) ==> FirstAt(remote, x.position) == Some(x)
    ensures x.position !in Positions(remote) ==> FirstAt(local, x.position) == Some(x)
  {
    FirstAtConcat(remote, local, x.position);
  }

  // ---------------------------------------------------------------------------
  // Novels

  function Max(a: nat, b: nat): (m: nat)
    ensures m >= a && m >= b && (m == a || m == b)
  {
    if a >= b then a else b
  }

  /** A novel known on both sides: the server's entry with the local path, the
      larger scroll offset and the merged bookmarks. */
  function MergeNovel(local: NovelInfo, remote: NovelInfo): (r: NovelInfo)
    ensures r.title == remote.title && r.path == local.path
    ensures r.progress.scrollOffset >= local.progress.scrollOffset
    ensures r.progress.scrollOffset >= remote.progress.scrollOffset
    ensures r.progress.scrollOffset == local.progress.scrollOffset
         || r.progress.scrollOffset == remote.progress.scrollOffset
    ensures SortedByPosition(r.progress.bookmarks)
    ensures Positions(r.progress.bookmarks)
         == Positions(remote.progress.bookmarks) + Positions(local.progress.bookmarks)
    ensures r.progress.bookmarks == MergeBookmarks(remote.progress.bookmarks, local.progress.bookmarks)
  {
    NovelInfo(remote.title, local.path,
      ReadingProgress(Max(local.progress.scrollOffset, remote.progress.scrollOffset),
                      MergeBookmarks(remote.progress.bookmarks, local.progress.bookmarks)))
  }

  predicate HasTitle(novels: seq<NovelInfo>, title: string) {
    exists i :: 0 <= i < |novels| && novels[i].title == title
  }

  /** The `local_map` lookup: a later novel with the same title replaces an
      earlier one, so the last one wins. */
  function LastByTitle(novels: seq<NovelInfo>, title: string): (r: Option<NovelInfo>)
    ensures r.Some? <==> HasTitle(novels, title)
    ensures r.Some? ==> r.value in novels && r.value.title == title
    decreases |novels|
  {
    if novels == [] then None
    else
      var init := novels[..|novels| - 1];
      var last := novels[|novels| - 1];
      if last.title == title then Some(last)
      else
        var r := LastByTitle(init, title);
        assert HasTitle(novels, title) ==> HasTitle(init, title) by {
          if HasTitle(novels, title) {
            var i :| 0 <= i < |novels| && novels[i].title == title;
            assert init[i] == novels[i];
          }
        }
        assert r.Some? ==> HasTitle(novels, title) by {
          if r.Some? {
            var i :| 0 <= i < |init| && init[i].title == title;
            assert novels[i] == init[i];
          }
        }
        r
  }

  lemma {:induction false} LastByTitleIsLast(novels: seq<NovelInfo>, i: nat)
    requires i < |novels|
    requires forall j :: i < j < |novels| ==> novels[j].title != novels[i].title
    ensures LastByTitle(novels, novels[i].title) == Some(novels[i])
    decreases |novels|
  {
    if i < |novels| - 1 {
      var init := novels[..|novels| - 1];
      assert init[i] == novels[i];
      LastByTitleIsLast(init, i);
    }
  }

  /** The local novels whose title the server does not know, in local order. */
  function LocalOnly(local: seq<NovelInfo>, remote: seq<NovelInfo>): (r: seq<NovelInfo>)
    ensures forall i :: 0 <= i < |r| ==> r[i] in local && !HasTitle(remote, r[i].title)
    decreases |local|
  {
    if local == [] then []
    else
      var init := local[..|local| - 1];
      var last := local[|local| - 1];
      if HasTitle(remote, last.title) then LocalOnly(init, remote)
      else LocalOnly(init, remote) + [last]
  }

  /** Every local novel the server does not know is kept. */
  lemma {:induction false} LocalOnlyComplete(local: seq<NovelInfo>, remote: seq<NovelInfo>, i: nat)
    requires i < |local| && !HasTitle(remote, local[i].title)
    ensures local[i] in LocalOnly(local, remote)
    decreases |local|
  {
    var init := local[..|local| - 1];
    if i < |init| {
      assert init[i] == local[i];
      LocalOnlyComplete(init, remote, i);
    }
  }

  /** The server's novels in the server's order, each merged with the local
      novel of the same title when there is one. */
  function MatchRemote(local: seq<NovelInfo>, remote: seq<NovelInfo>): (r: seq<NovelInfo>)
    ensures |r| == |remote|
  {
    seq(|remote|, i requires 0 <= i < |remote| =>
      match LastByTitle(local, remote[i].title)
      case Some(l) => MergeNovel(l, remote[i])
      case None => remote[i])
  }

  /** `merge_library_json`: merged server novels, then the local-only ones,
      every path in portable form. */
  function MergeLibrary(local: Library, remote: Library): (r: Library)
    ensures |r.novels| == |remote.novels| + |LocalOnly(local.novels, remote.novels)|
  {
    Library(Serialized(Library(MatchRemote(local.novels, remote.novels))).novels
          + Serialized(Library(LocalOnly(local.novels, remote.novels))).novels)
  }

  /** Every path of the merged library is already in portable form. */
  lemma MergeLibraryIsPortable(local: Library, remote: Library)
    ensures var r := MergeLibrary(local, remote).novels;
      forall i :: 0 <= i < |r| ==> PortablePath(r[i].path) == r[i].path
  {
    var matched := MatchRemote(local.novels, remote.novels);
    var tail := LocalOnly(local.novels, remote.novels);
    SerializedIsStable(Library(matched));
    SerializedIsStable(Library(tail));
  }

  /** What the merged library holds at a position taken from the server's list. */
  lemma MergeLibraryRemoteEntry(local: Library, remote: Library, i: nat)
    requires i < |remote.novels|
    ensures var r := MergeLibrary(local, remote).novels;
      i < |r| && r[i].title == remote.novels[i].title &&
      match LastByTitle(local.novels, remote.novels[i].title)
      case Some(l) =>
        r[i].path == PortablePath(l.path) &&
        r[i].progress.scrollOffset == Max(l.progress.scrollOffset, remote.novels[i].progress.scrollOffset) &&
        r[i].progress.bookmarks == MergeBookmarks(remote.novels[i].progress.bookmarks, l.progress.bookmarks)
      case None =>
        r[i] == remote.novels[i].(path := PortablePath(remote.novels[i].path))
  {
  }

  /** The novels after the server's ones are the local-only novels, in local order. */
  lemma MergeLibraryLocalTail(local: Library, remote: Library)
    ensures var r := MergeLibrary(local, remote).novels;
      |remote.novels| <= |r| &&
      r[|remote.novels|..] == Serialized(Library(LocalOnly(local.novels, remote.novels))).novels
  {
  }

  /** The novels after the server's ones are the local-only novels, paths made portable. */
  lemma MergeLibraryTailEntry(local: Library, remote: Library, j: nat)
    requires j < |LocalOnly(local.novels, remote.novels)|
    ensures var r := MergeLibrary(local, remote).novels;
      var n := LocalOnly(local.novels, remote.novels)[j];
      |remote.novels| + j < |r| && r[|remote.novels| + j].title == n.title &&
      r[|remote.novels| + j].progress == n.progress
  {
  }

  lemma MergeLibraryKeepsTitle(local: Library, remote: Library, title: string)
    requires HasTitle(local.novels, title) || HasTitle(remote.novels, title)
    ensures HasTitle(MergeLibrary(local, remote).novels, title)
  {
    var r := MergeLibrary(local, remote).novels;
    var m := |remote.novels|;
    if HasTitle(remote.novels, title) {
      var i :| 0 <= i < m && remote.novels[i].title == title;
      MergeLibraryRemoteEntry(local, remote, i);
      assert r[i].title == title;
    } else {
      var i :| 0 <= i < |local.novels| && local.novels[i].title == title;
      LocalOnlyComplete(local.novels, remote.novels, i);
      var tail := LocalOnly(local.novels, remote.novels);
      var j :| 0 <= j < |tail| && tail[j] == local.novels[i];
      MergeLibraryTailEntry(local, remote, j);
      assert r[m + j].title == title;
    }
  }

  lemma MergeLibraryAddsNoTitle(local: Library, remote: Library, k: nat)
    requires k < |MergeLibrary(local, remote).novels|
    ensures HasTitle(local.novels, MergeLibrary(local, remote).novels[k].title)
         || HasTitle(remote.novels, MergeLibrary(local, remote).novels[k].title)
  {
    var m := |remote.novels|;
    if k < m {
      MergeLibraryRemoteEntry(local, remote, k);
    } else {
      var tail := LocalOnly(local.novels, remote.novels);
      MergeLibraryTailEntry(local, remote, k - m);
      var i :| 0 <= i < |local.novels| && local.novels[i] == tail[k - m];
    }
  }

  /** No novel is lost and none appears from nowhere: a title is in the merged
      library exactly when it is on either side. */
  lemma MergeLibraryTitles(local: Library, remote: Library, title: string)
    ensures HasTitle(MergeLibrary(local, remote).novels, title)
        <==> HasTitle(local.novels, title) || HasTitle(remote.novels, title)
  {
    var r := MergeLibrary(local, remote).novels;
    if HasTitle(local.novels, title) || HasTitle(remote.novels, title) {
      MergeLibraryKeepsTitle(local, remote, title);
    }
    if HasTitle(r, title) {
      var k :| 0 <= k < |r| && r[k].title == title;
      MergeLibraryAddsNoTitle(local, remote, k);
    }
  }

  // ---------------------------------------------------------------------------
  // progress.json

  /** `merge_progress`: the new contents of the local progress file after the
      server's copy `remoteBytes` arrived. `local` is the file's current
      contents when it exists; `isText` stands for a successful UTF-8 read. */
  function MergeProgress(local: Option<Bytes>, remoteBytes: Bytes, isText: Bytes -> bool,
                         decode: Bytes -> Option<Library>, encode: Library -> Bytes): (r: Result<Bytes, SyncError>)
    ensures r.Failure? <==> decode(remoteBytes).None?
    ensures r.Failure? ==> r.error == ProgressUnreadable
    ensures r.Success? && (local.None? || !isText(local.value) || decode(local.value).None?) ==>
      r.value == remoteBytes
    ensures r.Success? && local.Some? && isText(local.value) && decode(local.value).Some? ==>
      r.value == encode(MergeLibrary(decode(local.value).value, decode(remoteBytes).value))
  {
    match decode(remoteBytes)
    case None => Failure(ProgressUnreadable)
    case Some(remote) =>
      if local.None? then Success(remoteBytes)
      else if !isText(local.value) then Success(remoteBytes)
      else match decode(local.value)
        case None => Success(remoteBytes)
        case Some(lib) => Success(encode(MergeLibrary(lib, remote)))
  }

  /** After a successful merge the progress file knows every novel the server
      knows, provided the codec reads back what it writes. */
  lemma MergeProgressKeepsRemoteNovels(local: Option<Bytes>, remoteBytes: Bytes, isText: Bytes -> bool,
                                       decode: Bytes -> Option<Library>, encode: Library -> Bytes, title: string)
    requires forall lib :: decode(encode(lib)) == Some(lib)
    requires decode(remoteBytes).Some? && HasTitle(decode(remoteBytes).value.novels, title)
    ensures var r := MergeProgress(local, remoteBytes, isText, decode, encode);
      r.Success? && decode(r.value).Some? && HasTitle(decode(r.value).value.novels, title)
  {
    var remote := decode(remoteBytes).value;
    if local.Some? && isText(local.value) && decode(local.value).Some? {
      MergeLibraryTitles(decode(local.value).value, remote, title);
    }
  }

  // ---------------------------------------------------------------------------
  // The merge examples of src/sync/sync_engine/mod.rs

  /** `/<host>/.fish_reader/novels/<name>`, the absolute paths of the examples. */
  function FishPath(host: string, name: string): string {
    "/" + Join([host, ".fish_reader", NovelsDir, name], "/")
  }

  lemma FishPathIsPortable(host: string, name: string)
    requires host != [] && SepFree(host, BothSeps)
    requires name != [] && SepFree(name, BothSeps) && !IsNovelsSegment(name)
    ensures PortablePath(FishPath(host, name)) == NovelsDir + "/" + name
  {
    assert [host, ".fish_reader", NovelsDir, name] == [host, ".fish_reader"] + [NovelsDir, name];
    SyncKeyOfRootedNovelFile([host, ".fish_reader"], name, '/');
  }

  const R10: Bookmark := Bookmark("r10", 10, 9)
  const R30: Bookmark := Bookmark("r30", 30, 3)
  const L10: Bookmark := Bookmark("l10", 10, 1)
  const L20: Bookmark := Bookmark("l20", 20, 2)

  lemma DedupExample()
    ensures DedupByPosition([R10, R30] + [L10, L20]) == [R10, R30, L20]
  {
    var both := [R10, R30] + [L10, L20];
    assert both[..3] == [R10, R30, L10];
    assert [R10, R30, L10][..2] == [R10, R30];
    assert [R10, R30][..1] == [R10];
    assert [R10][..0] == [];
    assert DedupByPosition([R10]) == [R10];
    assert Positions([R10]) == {10};
    assert DedupByPosition([R10, R30]) == [R10, R30];
    PositionsSnoc([R10], R30);
    assert DedupByPosition([R10, R30, L10]) == [R10, R30];
  }

  lemma InsertExample()
    ensures Positions([R10]) == {10} && Positions([R10, R30]) == {10, 30}
    ensures InsertByPosition(R30, [R10]) == [R10, R30]
    ensures InsertByPosition(L20, [R10, R30]) == [R10, L20, R30]
  {
    assert [R10][..0] == [];
    assert [R10, R30][..1] == [R10];
    assert InsertByPosition(L20, [R10]) == [R10, L20];
  }

  lemma SortExample()
    ensures SortByPosition([R10, R30, L20]) == [R10, L20, R30]
  {
    InsertExample();
    assert [R10][..0] == [];
    assert SortByPosition([R10]) == [R10];
    assert [R10, R30][..1] == [R10];
    assert SortByPosition([R10, R30]) == [R10, R30];
    assert [R10, R30, L20][..2] == [R10, R30];
  }

  /** Larger offset wins, bookmarks are one per position and sorted, the
      server's bookmark at a shared position wins, the path becomes portable. */
  lemma MergeNovelExample()
    ensures var m := MergeNovel(NovelInfo("A", FishPath("local", "A.txt"), ReadingProgress(200, [L10, L20])),
                                NovelInfo("A", FishPath("remote", "A.txt"), ReadingProgress(100, [R10, R30])));
      && PortablePath(m.path) == NovelsDir + "/" + "A.txt"
      && m.progress.scrollOffset == 200
      && m.progress.bookmarks == [R10, L20, R30]
  {
    FishPathIsPortable("local", "A.txt");
    DedupExample();
    SortExample();
  }

  /** The example's local paths become `novels/<file>`. */
  lemma LocalExamplePaths()
    ensures PortablePath(FishPath("local", "A.txt")) == NovelsDir + "/" + "A.txt"
    ensures PortablePath(FishPath("local", "L-only.txt")) == NovelsDir + "/" + "L-only.txt"
  {
    FishPathIsPortable("local", "A.txt");
    FishPathIsPortable("local", "L-only.txt");
  }

  /** The example's server-only path becomes `novels/<file>`. */
  lemma RemoteExamplePath()
    ensures PortablePath(FishPath("remote", "R-only.txt")) == NovelsDir + "/" + "R-only.txt"
  {
    FishPathIsPortable("remote", "R-only.txt");
  }

  /** The common novel is merged, each one-sided novel is kept, all paths
      become portable. */
  lemma MergeLibraryExample()
    ensures var r := MergeLibrary(
        Library([NovelInfo("A", FishPath("local", "A.txt"), ReadingProgress(8, [])),
                 NovelInfo("L-only", FishPath("local", "L-only.txt"), ReadingProgress(1, []))]),
        Library([NovelInfo("A", FishPath("remote", "A.txt"), ReadingProgress(5, [])),
                 NovelInfo("R-only", FishPath("remote", "R-only.txt"), ReadingProgress(2, []))])).novels;
      r == [NovelInfo("A", NovelsDir + "/" + "A.txt", ReadingProgress(8, [])),
            NovelInfo("R-only", NovelsDir + "/" + "R-only.txt", ReadingProgress(2, [])),
            NovelInfo("L-only", NovelsDir + "/" + "L-only.txt", ReadingProgress(1, []))]
  {
    var a := NovelInfo("A", FishPath("local", "A.txt"), ReadingProgress(8, []));
    var l := NovelInfo("L-only", FishPath("local", "L-only.txt"), ReadingProgress(1, []));
    var ra := NovelInfo("A", FishPath("remote", "A.txt"), ReadingProgress(5, []));
    var rr := NovelInfo("R-only", FishPath("remote", "R-only.txt"), ReadingProgress(2, []));
    LocalExamplePaths();
    RemoteExamplePath();
    LibraryExampleShape(a, l, ra, rr);
  }

  lemma LibraryExampleParts(a: NovelInfo, l: NovelInfo, ra: NovelInfo, rr: NovelInfo)
    requires a.title == ra.title == "A" && l.title == "L-only" && rr.title == "R-only"
    ensures LastByTitle([a, l], ra.title) == Some(a)
    ensures LastByTitle([a, l], rr.title) == None
    ensures LocalOnly([a, l], [ra, rr]) == [l]
  {
    assert [a, l][..1] == [a];
    assert [a][..0] == [];
    assert HasTitle([ra, rr], a.title) by { assert [ra, rr][0].title == a.title; }
    assert LocalOnly([a], [ra, rr]) == [];
    assert !HasTitle([ra, rr], l.title);
  }

  /** The shape of the example's merge, whatever the paths. */
  lemma LibraryExampleShape(a: NovelInfo, l: NovelInfo, ra: NovelInfo, rr: NovelInfo)
    requires a.title == ra.title == "A" && l.title == "L-only" && rr.title == "R-only"
    requires a.progress.bookmarks == [] && ra.progress.bookmarks == []
    ensures MergeLibrary(Library([a, l]), Library([ra, rr])).novels
         == [NovelInfo("A", PortablePath(a.path), ReadingProgress(Max(a.progress.scrollOffset, ra.progress.scrollOffset), [])),
             rr.(path := PortablePath(rr.path)),
             l.(path := PortablePath(l.path))]
  {
    MatchExample(a, l, ra, rr);
    var m := NovelInfo("A", a.path, ReadingProgress(Max(a.progress.scrollOffset, ra.progress.scrollOffset), []));
    SerializedPair(m, rr);
    SerializedOne(l);
  }

  lemma SerializedPair(x: NovelInfo, y: NovelInfo)
    ensures Serialized(Library([x, y])).novels == [x.(path := PortablePath(x.path)), y.(path := PortablePath(y.path))]
  {
  }

  lemma SerializedOne(x: NovelInfo)
    ensures Serialized(Library([x])).novels == [x.(path := PortablePath(x.path))]
  {
  }

  lemma MatchExample(a: NovelInfo, l: NovelInfo, ra: NovelInfo, rr: NovelInfo)
    requires a.title == ra.title == "A" && l.title == "L-only" && rr.title == "R-only"
    requires a.progress.bookmarks == [] && ra.progress.bookmarks == []
    ensures MatchRemote([a, l], [ra, rr])
         == [NovelInfo("A", a.path, ReadingProgress(Max(a.progress.scrollOffset, ra.progress.scrollOffset), [])), rr]
    ensures LocalOnly([a, l], [ra, rr]) == [l]
  {
    LibraryExampleParts(a, l, ra, rr);
    assert MergeBookmarks([], []) == [];
  }
}
