/** The WebDAV server as the sync engine sees it (src/sync/webdav_client.rs):
    files by path, the collections created so far, and the paths on which
    every request fails (a transport error or an unexpected status). The HTTP
    exchange itself is not modelled; each request is one total function of
    the server state. */
module WebDavStore {
  import opened Wrappers
  import opened Storage
  import opened Manifest

  datatype Server = Server(files: map<string, Bytes>, dirs: set<string>, broken: set<string>)

  /** `mkcol`: creating a collection that already exists answers 405, which the
      client accepts, so the request succeeds either way. */
  function Mkcol(s: Server, path: string): (r: Result<Server, SyncError>)
    ensures r.Failure? <==> path in s.broken
    ensures r.Failure? ==> r.error == RequestFailed(path)
    ensures r.Success? ==> path in r.value.dirs && r.value.files == s.files && r.value.broken == s.broken
    ensures r.Success? ==> r.value.dirs - {path} == s.dirs - {path}
  {
    if path in s.broken then Failure(RequestFailed(path))
    else Success(s.(dirs := s.dirs + {path}))
  }

  /** `upload_bytes`: a PUT replaces the file at `path`. */
  function Put(s: Server, path: string, data: Bytes): (r: Result<Server, SyncError>)
    ensures r.Failure? <==> path in s.broken
    ensures r.Failure? ==> r.error == RequestFailed(path)
    ensures r.Success? ==> path in r.value.files && r.value.files[path] == data
    ensures r.Success? ==> r.value.files - {path} == s.files - {path}
    ensures r.Success? ==> r.value.dirs == s.dirs && r.value.broken == s.broken
  {
    if path in s.broken then Failure(RequestFailed(path))
    else Success(s.(files := s.files[path := data]))
  }

  /** `download_bytes`: a GET of a missing file is an error like any other
      failed request. */
  function Get(s: Server, path: string): (r: Result<Bytes, SyncError>)
    ensures r.Success? <==> path !in s.broken && path in s.files
    ensures r.Success? ==> r.value == s.files[path]
    ensures r.Failure? ==> r.error == RequestFailed(path)
  {
    if path in s.broken || path !in s.files then Failure(RequestFailed(path))
    else Success(s.files[path])
  }

  /** `download_bytes_opt`: like `Get`, except that a missing file is `None`
      rather than an error. */
  function GetOptional(s: Server, path: string): (r: Result<Option<Bytes>, SyncError>)
    ensures r.Failure? <==> path in s.broken
    ensures r.Failure? ==> r.error == RequestFailed(path)
    ensures r == Success(None) <==> path !in s.broken && path !in s.files
    ensures r.Success? && r.value.Some? ==> path in s.files && r.value.value == s.files[path]
  {
    if path in s.broken then Failure(RequestFailed(path))
    else if path !in s.files then Success(None)
    else Success(Some(s.files[path]))
  }

  /** `delete`: removing a file that is not there answers 404, which the
      client accepts. */
  function Delete(s: Server, path: string): (r: Result<Server, SyncError>)
    ensures r.Failure? <==> path in s.broken
    ensures r.Failure? ==> r.error == RequestFailed(path)
    ensures r.Success? ==> path !in r.value.files
    ensures r.Success? ==> r.value.files - {path} == s.files - {path}
    ensures r.Success? ==> r.value.dirs == s.dirs && r.value.broken == s.broken
  {
    if path in s.broken then Failure(RequestFailed(path))
    else Success(s.(files := s.files - {path}))
  }

  /** What was put can be read back. */
  lemma GetAfterPut(s: Server, path: string, data: Bytes)
    requires Put(s, path, data).Success?
    ensures Get(Put(s, path, data).value, path) == Success(data)
    ensures GetOptional(Put(s, path, data).value, path) == Success(Some(data))
  {
  }

  /** A deleted file reads back as absent, and deleting twice changes nothing more. */
  lemma DeleteIsIdempotent(s: Server, path: string)
    requires Delete(s, path).Success?
    ensures GetOptional(Delete(s, path).value, path) == Success(None)
    ensures Delete(Delete(s, path).value, path) == Delete(s, path)
  {
  }

  /** Creating an existing collection again changes nothing. */
  lemma MkcolIsIdempotent(s: Server, path: string)
    requires Mkcol(s, path).Success?
    ensures Mkcol(Mkcol(s, path).value, path) == Mkcol(s, path)
  {
  }
}
