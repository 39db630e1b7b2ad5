/** Comparing two manifests (src/sync/sync_engine/diff.rs). A file needs to
    travel when the receiving side lacks it or holds a different hash; a file
    only the receiving side has is deleted there. Only hashes are compared.

    The source walks hash maps, whose iteration order is unspecified; each
    walk here takes that order as a sequence listing every key once, and the
    contracts hold for every such order. */
module Diff {
  import opened Manifest

  datatype DiffAction = Upload(path: string) | Delete(path: string) | Download(path: string)

  /** `order` lists every key of `keys` exactly once. */
  predicate Enumerates(order: seq<string>, keys: set<string>) {
    && (forall i :: 0 <= i < |order| ==> order[i] in keys)
    && (forall p :: p in keys ==> p in order)
    && (forall i, j :: 0 <= i < j < |order| ==> order[i] != order[j])
  }

  /** `p` is on this side and the other side lacks it or holds another hash. */
  predicate NeedsTransfer(p: string, mine: Files, theirs: Files) {
    p in mine && (p !in theirs || theirs[p].hash != mine[p].hash)
  }

  /** Both sides list the same files with the same hashes. */
  predicate InSync(a: Files, b: Files) {
    a.Keys == b.Keys && forall p :: p in a ==> a[p].hash == b[p].hash
  }

  /** No path occurs in two actions. */
  predicate DistinctPaths(actions: seq<DiffAction>) {
    forall i, j :: 0 <= i < j < |actions| ==> actions[i].path != actions[j].path
  }

  /** Every Delete comes after every transfer. */
  predicate DeletesLast(actions: seq<DiffAction>) {
    forall i, j :: 0 <= i < j < |actions| && actions[i].Delete? ==> actions[j].Delete?
  }

  function Transfer(upload: bool, p: string): (a: DiffAction)
    ensures a.path == p && !a.Delete?
  {
    if upload then Upload(p) else Download(p)
  }

  /** The first loop of either direction: a transfer of every key of `mine`
      that needs one, in iteration order. */
  function TransferWalk(order: seq<string>, mine: Files, theirs: Files, upload: bool): (r: seq<DiffAction>)
    ensures forall i :: 0 <= i < |r| ==> r[i] == Transfer(upload, r[i].path) && NeedsTransfer(r[i].path, mine, theirs)
    decreases |order|
  {
    if order == [] then []
    else
      var last := order[|order| - 1];
      var r0 := TransferWalk(order[..|order| - 1], mine, theirs, upload);
      if NeedsTransfer(last, mine, theirs) then r0 + [Transfer(upload, last)] else r0
  }

  /** The second loop of either direction: a Delete of every key of `theirs`
      that `mine` lacks, in iteration order. */
  function DeleteWalk(order: seq<string>, mine: Files, theirs: Files): (r: seq<DiffAction>)
    requires forall i :: 0 <= i < |order| ==> order[i] in theirs
    ensures forall i :: 0 <= i < |r| ==> r[i] == Delete(r[i].path) && r[i].path in theirs && r[i].path !in mine
    decreases |order|
  {
    if order == [] then []
    else
      var last := order[|order| - 1];
      var r0 := DeleteWalk(order[..|order| - 1], mine, theirs);
      if last !in mine then r0 + [Delete(last)] else r0
  }

  /** Every key that needs a transfer gets one, and each key at most once. */
  lemma {:induction false} TransferWalkExact(order: seq<string>, mine: Files, theirs: Files, upload: bool)
    requires forall i, j :: 0 <= i < j < |order| ==> order[i] != order[j]
    ensures var r := TransferWalk(order, mine, theirs, upload);
      && (forall i :: 0 <= i < |r| ==> r[i].path in order)
      && (forall p :: p in order && NeedsTransfer(p, mine, theirs) ==> Transfer(upload, p) in r)
      && DistinctPaths(r)
    decreases |order|
  {
    if order != [] {
      var init := order[..|order| - 1];
      var last := order[|order| - 1];
      TransferWalkExact(init, mine, theirs, upload);
      assert order == init + [last];
    }
  }

  lemma {:induction false} DeleteWalkExact(order: seq<string>, mine: Files, theirs: Files)
    requires forall i :: 0 <= i < |order| ==> order[i] in theirs
    requires forall i, j :: 0 <= i < j < |order| ==> order[i] != order[j]
    ensures var r := DeleteWalk(order, mine, theirs);
      && (forall i :: 0 <= i < |r| ==> r[i].path in order)
      && (forall p :: p in order && p !in mine ==> Delete(p) in r)
      && DistinctPaths(r)
    decreases |order|
  {
    if order != [] {
      var init := order[..|order| - 1];
      var last := order[|order| - 1];
      DeleteWalkExact(init, mine, theirs);
      assert order == init + [last];
    }
  }

  /** The shape shared by both directions: the walk over `mine` producing
      transfers, then the walk over `theirs` producing Deletes. */
  function Reconcile(mine: Files, theirs: Files, mineOrder: seq<string>, theirsOrder: seq<string>, upload: bool)
    : (actions: seq<DiffAction>)
    requires Enumerates(mineOrder, mine.Keys) && Enumerates(theirsOrder, theirs.Keys)
    ensures forall i :: 0 <= i < |actions| ==>
      if actions[i].Delete? then actions[i].path in theirs && actions[i].path !in mine
      else actions[i] == Transfer(upload, actions[i].path) && NeedsTransfer(actions[i].path, mine, theirs)
    ensures forall p :: NeedsTransfer(p, mine, theirs) ==> Transfer(upload, p) in actions
    ensures forall p :: p in theirs && p !in mine ==> Delete(p) in actions
    ensures DistinctPaths(actions) && DeletesLast(actions)
    ensures actions == [] <==> InSync(mine, theirs)
  {
    var transfers := TransferWalk(mineOrder, mine, theirs, upload);
    var deletes := DeleteWalk(theirsOrder, mine, theirs);
    TransferWalkExact(mineOrder, mine, theirs, upload);
    DeleteWalkExact(theirsOrder, mine, theirs);
    TransfersThenDeletes(transfers, deletes, mine, theirs, upload);
    NothingWalked(mine, theirs, mineOrder, theirsOrder, transfers, deletes);
    transfers + deletes
  }

  /** Gluing the two walks keeps each action's meaning and the paths distinct. */
  lemma TransfersThenDeletes(transfers: seq<DiffAction>, deletes: seq<DiffAction>, mine: Files, theirs: Files, upload: bool)
    requires forall i :: 0 <= i < |transfers| ==> transfers[i] == Transfer(upload, transfers[i].path) && NeedsTransfer(transfers[i].path, mine, theirs)
    requires forall i :: 0 <= i < |deletes| ==> deletes[i] == Delete(deletes[i].path) && deletes[i].path in theirs && deletes[i].path !in mine
    requires DistinctPaths(transfers) && DistinctPaths(deletes)
    ensures var actions := transfers + deletes;
      && (forall i :: 0 <= i < |actions| ==>
           if actions[i].Delete? then actions[i].path in theirs && actions[i].path !in mine
           else actions[i] == Transfer(upload, actions[i].path) && NeedsTransfer(actions[i].path, mine, theirs))
      && DistinctPaths(actions) && DeletesLast(actions)
  {
    var actions := transfers + deletes;
    forall i | 0 <= i < |actions|
      ensures if actions[i].Delete? then actions[i].path in theirs && actions[i].path !in mine
              else actions[i] == Transfer(upload, actions[i].path) && NeedsTransfer(actions[i].path, mine, theirs)
    {
      if i >= |transfers| { assert actions[i] == deletes[i - |transfers|]; }
    }
    forall i, j | 0 <= i < j < |actions| ensures actions[i].path != actions[j].path {
      if j < |transfers| {
        assert actions[i] == transfers[i] && actions[j] == transfers[j];
      } else if i >= |transfers| {
        assert actions[i] == deletes[i - |transfers|] && actions[j] == deletes[j - |transfers|];
      }
    }
  }

  /** Both walks come back empty exactly when the two sides are in sync. */
  lemma NothingWalked(mine: Files, theirs: Files, mineOrder: seq<string>, theirsOrder: seq<string>,
                      transfers: seq<DiffAction>, deletes: seq<DiffAction>)
    requires Enumerates(mineOrder, mine.Keys) && Enumerates(theirsOrder, theirs.Keys)
    requires forall i :: 0 <= i < |transfers| ==> NeedsTransfer(transfers[i].path, mine, theirs)
    requires forall p :: p in mineOrder && NeedsTransfer(p, mine, theirs) ==> Transfer(true, p) in transfers || Transfer(false, p) in transfers
    requires forall i :: 0 <= i < |deletes| ==> deletes[i].path in theirs && deletes[i].path !in mine
    requires forall p :: p in theirsOrder && p !in mine ==> Delete(p) in deletes
    ensures transfers + deletes == [] <==> InSync(mine, theirs)
  {
    if transfers + deletes == [] {
      forall p | p in mine ensures p in theirs && mine[p].hash == theirs[p].hash {
        assert p in mineOrder;
      }
      forall p | p in theirs ensures p in mine {
        assert p in theirsOrder;
      }
    }
    if transfers != [] {
      assert NeedsTransfer(transfers[0].path, mine, theirs);
    }
    if deletes != [] {
      assert deletes[0].path in theirs;
    }
  }

  /** `diff_for_upload`: an Upload of every local file the server lacks or
      holds with another hash, then a Delete of every file only the server has. */
  function DiffForUpload(local: Files, remote: Files, localOrder: seq<string>, remoteOrder: seq<string>)
    : (actions: seq<DiffAction>)
    requires Enumerates(localOrder, local.Keys) && Enumerates(remoteOrder, remote.Keys)
    ensures forall p :: Upload(p) in actions <==> NeedsTransfer(p, local, remote)
    ensures forall p :: Delete(p) in actions <==> p in remote && p !in local
    ensures forall i :: 0 <= i < |actions| ==> !actions[i].Download?
    ensures DistinctPaths(actions) && DeletesLast(actions)
    ensures actions == [] <==> InSync(local, remote)
  {
    Reconcile(local, remote, localOrder, remoteOrder, true)
  }

  /** `diff_for_download`, the mirror image: a Download of every server file
      the local side lacks or holds with another hash, then a Delete of every
      file only the local side has. */
  function DiffForDownload(local: Files, remote: Files, localOrder: seq<string>, remoteOrder: seq<string>)
    : (actions: seq<DiffAction>)
    requires Enumerates(localOrder, local.Keys) && Enumerates(remoteOrder, remote.Keys)
    ensures forall p :: Download(p) in actions <==> NeedsTransfer(p, remote, local)
    ensures forall p :: Delete(p) in actions <==> p in local && p !in remote
    ensures forall i :: 0 <= i < |actions| ==> !actions[i].Upload?
    ensures DistinctPaths(actions) && DeletesLast(actions)
    ensures actions == [] <==> InSync(remote, local)
  {
    Reconcile(remote, local, remoteOrder, localOrder, false)
  }

  // ---------------------------------------------------------------------------
  // Only hashes matter

  /** The part of a manifest that the comparison looks at. */
  function Hashes(m: Files): (r: map<string, nat>)
    ensures r.Keys == m.Keys
    ensures forall p :: p in m ==> r[p] == m[p].hash
  {
    map p | p in m :: m[p].hash
  }

  lemma {:induction false} TransferWalkHashesOnly(order: seq<string>, mine: Files, theirs: Files, mine2: Files, theirs2: Files, upload: bool)
    requires Hashes(mine) == Hashes(mine2) && Hashes(theirs) == Hashes(theirs2)
    ensures TransferWalk(order, mine, theirs, upload) == TransferWalk(order, mine2, theirs2, upload)
    decreases |order|
  {
    if order != [] {
      var last := order[|order| - 1];
      TransferWalkHashesOnly(order[..|order| - 1], mine, theirs, mine2, theirs2, upload);
      assert last in mine <==> last in Hashes(mine);
      assert last in theirs <==> last in Hashes(theirs);
      assert NeedsTransfer(last, mine, theirs) == NeedsTransfer(last, mine2, theirs2);
    }
  }

  lemma {:induction false} DeleteWalkHashesOnly(order: seq<string>, mine: Files, theirs: Files, mine2: Files, theirs2: Files)
    requires forall i :: 0 <= i < |order| ==> order[i] in theirs
    requires Hashes(mine) == Hashes(mine2) && Hashes(theirs) == Hashes(theirs2)
    ensures forall i :: 0 <= i < |order| ==> order[i] in theirs2
    ensures DeleteWalk(order, mine, theirs) == DeleteWalk(order, mine2, theirs2)
    decreases |order|
  {
    assert theirs.Keys == theirs2.Keys && mine.Keys == mine2.Keys;
    if order != [] {
      DeleteWalkHashesOnly(order[..|order| - 1], mine, theirs, mine2, theirs2);
    }
  }

  /** Sizes and modification times never influence either comparison. */
  lemma DiffIgnoresSizeAndMtime(local: Files, remote: Files, local2: Files, remote2: Files,
                                localOrder: seq<string>, remoteOrder: seq<string>)
    requires Enumerates(localOrder, local.Keys) && Enumerates(remoteOrder, remote.Keys)
    requires Hashes(local) == Hashes(local2) && Hashes(remote) == Hashes(remote2)
    ensures Enumerates(localOrder, local2.Keys) && Enumerates(remoteOrder, remote2.Keys)
    ensures DiffForUpload(local, remote, localOrder, remoteOrder) == DiffForUpload(local2, remote2, localOrder, remoteOrder)
    ensures DiffForDownload(local, remote, localOrder, remoteOrder) == DiffForDownload(local2, remote2, localOrder, remoteOrder)
  {
    assert local.Keys == Hashes(local).Keys == local2.Keys;
    assert remote.Keys == Hashes(remote).Keys == remote2.Keys;
    TransferWalkHashesOnly(localOrder, local, remote, local2, remote2, true);
    DeleteWalkHashesOnly(remoteOrder, local, remote, local2, remote2);
    TransferWalkHashesOnly(remoteOrder, remote, local, remote2, local2, false);
    DeleteWalkHashesOnly(localOrder, remote, local, remote2, local2);
  }

  // ---------------------------------------------------------------------------
  // The scenarios of src/sync/sync_engine/mod.rs

  function Entry(hash: nat): FileEntry {
    FileEntry(hash, 1, 1)
  }

  /** Upload: one file unchanged, one changed, one only local, one only remote. */
  lemma UploadScenario(localOrder: seq<string>, remoteOrder: seq<string>)
    requires Enumerates(localOrder, {"novels/same.txt", "novels/changed.txt", "progress.json"})
    requires Enumerates(remoteOrder, {"novels/same.txt", "novels/changed.txt", "novels/removed.txt"})
    ensures var local := map["novels/same.txt" := Entry(10), "novels/changed.txt" := Entry(20), "progress.json" := Entry(30)];
      var remote := map["novels/same.txt" := Entry(10), "novels/changed.txt" := Entry(99), "novels/removed.txt" := Entry(40)];
      var actions := DiffForUpload(local, remote, localOrder, remoteOrder);
      && (forall p :: Upload(p) in actions <==> p == "novels/changed.txt" || p == "progress.json")
      && (forall p :: Delete(p) in actions <==> p == "novels/removed.txt")
  {
  }

  /** Download: the mirror scenario, with the library only on the server. */
  lemma DownloadScenario(localOrder: seq<string>, remoteOrder: seq<string>)
    requires Enumerates(localOrder, {"novels/same.txt", "novels/changed.txt", "novels/local_only.txt"})
    requires Enumerates(remoteOrder, {"novels/same.txt", "novels/changed.txt", "progress.json"})
    ensures var local := map["novels/same.txt" := Entry(10), "novels/changed.txt" := Entry(20), "novels/local_only.txt" := Entry(30)];
      var remote := map["novels/same.txt" := Entry(10), "novels/changed.txt" := Entry(99), "progress.json" := Entry(40)];
      var actions := DiffForDownload(local, remote, localOrder, remoteOrder);
      && (forall p :: Download(p) in actions <==> p == "novels/changed.txt" || p == "progress.json")
      && (forall p :: Delete(p) in actions <==> p == "novels/local_only.txt")
  {
  }
}
