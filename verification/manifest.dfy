/** The sync manifest (src/sync/sync_engine/mod.rs): for every synchronised
    file its content hash, size and modification time, keyed by the file's
    '/'-separated path relative to the data directory; the messages a sync run
    reports; and loading the local copy of the manifest. */
module Manifest {
  import opened Wrappers
  import opened Storage

  /** `FileEntry`: a CRC-32 of the contents, the byte size and the mtime in
      seconds. */
  datatype FileEntry = FileEntry(hash: nat, size: nat, mtime: nat)

  type Files = map<string, FileEntry>

  datatype SyncManifest = SyncManifest(version: nat, lastSync: nat, files: Files)

  /** The manifest format version written by this program. */
  const ManifestVersion: nat := 1

  /** `SyncManifest::new`: the manifest of a store that was never synchronised. */
  const EmptyManifest: SyncManifest := SyncManifest(ManifestVersion, 0, map[])

  /** Name of the manifest, both in the data directory and on the server. */
  const LocalManifestName: string := "sync_manifest.json"
  const RemoteManifestName: string := "manifest.json"

  /** The status-bar notes of a sync run; the text they carry is rendered from
      these by the user interface and is not modelled. */
  datatype ProgressNote =
    | Scanning                                  // scanning local files
    | FetchingManifest                          // fetching the remote manifest
    | NoChanges                                 // nothing to synchronise
    | Uploading(index: nat, total: nat, name: string)
    | Downloading(index: nat, total: nat, name: string)
    | Deleting(index: nat, total: nat, name: string)

  /** Why a sync run stopped. */
  datatype SyncError =
    | RequestFailed(path: string)               // a WebDAV request failed
    | ManifestUnreadable                        // the remote manifest did not parse
    | NoRemoteData                              // download with no remote manifest
    | ProgressUnreadable                        // the downloaded library did not parse
    | UnsafePath(rel: string)                   // a manifest path escapes the data directory
    | LocalFileMissing(rel: string)             // a scanned file vanished before upload

  /** `SyncMessage`, sent from the sync worker to the user interface. */
  datatype SyncMessage =
    | Progress(note: ProgressNote)
    | UploadComplete
    | DownloadComplete
    | Failed(error: SyncError)
  {
    predicate IsTerminal() {
      !Progress?
    }
  }

  /** `load_local_manifest`: the saved manifest, or the empty one when the file
      is missing, unreadable or does not parse. */
  function LoadLocalManifest(f: Stored, decode: Bytes -> Option<SyncManifest>): (m: SyncManifest)
    ensures m == EmptyManifest || (f.Present? && decode(f.bytes) == Some(m))
    ensures !f.Present? || decode(f.bytes).None? ==> m == EmptyManifest
    ensures f.Present? && decode(f.bytes).Some? ==> m == decode(f.bytes).value
  {
    LoadOr(f, decode, EmptyManifest)
  }

  /** A manifest saved with an encoder the decoder inverts loads back unchanged. */
  lemma LoadSavedManifest(m: SyncManifest, encode: SyncManifest -> Bytes, decode: Bytes -> Option<SyncManifest>)
    requires decode(encode(m)) == Some(m)
    ensures LoadLocalManifest(Present(encode(m)), decode) == m
  {
    LoadSaved(m, encode, decode, EmptyManifest);
  }
}
