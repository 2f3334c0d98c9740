/** The decision logic of the download pass that refreshes the cached copy
    of the list.

    The file system, the HTTP request and the clock are inputs: the cached
    file is an optional `LocalFile` whose `age` is the time since its last
    modification, the fetch is a `Fetch` value, and whether the final write
    succeeds is a flag. The write itself is returned as a value.
 */
module Cache {
  import opened Wrappers
  import opened Matchers

  /** Go's `os.FileMode`: type bits above, permission bits in the low nine. */
  type FileMode = bv32

  /** `os.ModePerm`, octal 0777: the permission bits of a mode. */
  const ModePerm: FileMode := 0x1FF

  /** Octal 0644: owner read/write, group and others read. Used for a new file. */
  const DefaultPerm: FileMode := 0x1A4

  /** `http.StatusOK`. */
  const StatusOK: int := 200

  /** The cached file as `os.Stat` and `os.ReadFile` see it. */
  datatype LocalFile = LocalFile(content: string, mode: FileMode, age: int)

  /** What the GET request produced. */
  datatype Fetch =
    | TransportFailed(reason: string)
      /** A response arrived; `body` is `None` when reading it failed. */
    | Responded(status: int, body: Option<string>)

  /** The errors a download pass reports. */
  datatype DownloadError =
    | RequestFailed(reason: string)
    | BadStatus(code: int)
    | ReadFailed
    | WriteFailed

  /** A write of `data` to the cached file, creating it with `perm` if absent. */
  datatype Write = Write(data: string, perm: FileMode)

  /** What one download pass did: the write it attempted, if any, and the error it returned, if any. */
  datatype Outcome = Outcome(write: Option<Write>, err: Option<DownloadError>)

  /** The staleness gate: a download is needed when the file is absent or
      at least `maxAge` old. */
  function NeedsDownload(file: Option<LocalFile>, maxAge: int): (r: bool)
    ensures r <==> file.None? || file.value.age >= maxAge
  {
    !(file.Some? && file.value.age < maxAge)
  }

  /** The gate stated from the other side: a present file younger than
      `maxAge` is fresh and is kept. */
  lemma NeedsDownloadIff(file: Option<LocalFile>, maxAge: int)
    ensures NeedsDownload(file, maxAge) <==> file.None? || file.value.age >= maxAge
    ensures !NeedsDownload(file, maxAge) <==> file.Some? && file.value.age < maxAge
  {
  }

  /** The permission bits to write with: those of the existing file, or 0644 for a new one. */
  function Permissions(file: Option<LocalFile>): (perm: FileMode)
    ensures perm & !ModePerm == 0
    ensures file.Some? ==> perm == file.value.mode & ModePerm
    ensures file.None? ==> perm == DefaultPerm
  {
    match file
    case None => DefaultPerm
    case Some(f) => f.mode & ModePerm
  }

  /** The payload filter, where an absent filter leaves the payload as it is. */
  function Filtered(filter: Option<DataFilterFunc>, data: string): (out: string)
    ensures filter.None? ==> out == data
    ensures filter.Some? ==> out == filter.value(data)
  {
    match filter
    case None => data
    case Some(f) => f(data)
  }

  /** One download pass. */
  function Download(file: Option<LocalFile>, maxAge: int, fetch: Fetch,
                    filter: Option<DataFilterFunc>, writeOk: bool): (o: Outcome)
    // a fresh file means no fetch, no write and no error
    ensures !NeedsDownload(file, maxAge) ==> o == Outcome(None, None)
    // nothing is written unless the fetch succeeded with status 200 and a readable body
    ensures o.write.Some? ==>
      && NeedsDownload(file, maxAge)
      && fetch.Responded? && fetch.status == StatusOK && fetch.body.Some?
      && o.write.value == Write(Filtered(filter, fetch.body.value), Permissions(file))
    ensures NeedsDownload(file, maxAge) && fetch.Responded? && fetch.status == StatusOK && fetch.body.Some? ==>
      o.write.Some?
    // each failure is reported as its own error
    ensures NeedsDownload(file, maxAge) && fetch.TransportFailed? ==>
      o.err == Some(RequestFailed(fetch.reason))
    ensures NeedsDownload(file, maxAge) && fetch.Responded? && fetch.status != StatusOK ==>
      o.err == Some(BadStatus(fetch.status))
    ensures NeedsDownload(file, maxAge) && fetch == Responded(StatusOK, None) ==>
      o.err == Some(ReadFailed)
    ensures o.write.Some? ==> (o.err.None? <==> writeOk) && (o.err.Some? ==> o.err.value == WriteFailed)
    // success means the cache was fresh, or the new payload was written
    ensures o.err.None? <==> !NeedsDownload(file, maxAge) || (o.write.Some? && writeOk)
  {
    if !NeedsDownload(file, maxAge) then
      Outcome(None, None)
    else
      match fetch
      case TransportFailed(reason) => Outcome(None, Some(RequestFailed(reason)))
      case Responded(status, body) =>
        if status != StatusOK then
          Outcome(None, Some(BadStatus(status)))
        else if body.None? then
          Outcome(None, Some(ReadFailed))
        else
          var w := Write(Filtered(filter, body.value), Permissions(file));
          Outcome(Some(w), if writeOk then None else Some(WriteFailed))
  }

  /** A fresh cache is never fetched: the pass does not depend on what the
      request would have returned, nor on whether a write would succeed. */
  lemma FreshCacheIgnoresFetch(file: Option<LocalFile>, maxAge: int, fetch1: Fetch, fetch2: Fetch,
                               filter: Option<DataFilterFunc>, writeOk1: bool, writeOk2: bool)
    requires !NeedsDownload(file, maxAge)
    ensures Download(file, maxAge, fetch1, filter, writeOk1) == Download(file, maxAge, fetch2, filter, writeOk2)
  {
  }

  /** The cached file after a pass that succeeded: the old file when it was
      fresh, otherwise the written payload. An overwritten file keeps its
      mode, as `os.WriteFile` only applies the permission when it creates
      the file; a new file gets exactly the chosen permission. */
  function Refresh(file: Option<LocalFile>, maxAge: int, fetch: Fetch,
                   filter: Option<DataFilterFunc>, writeOk: bool): (r: Result<LocalFile, DownloadError>)
    ensures r.Failure? <==> Download(file, maxAge, fetch, filter, writeOk).err.Some?
    ensures r.Failure? ==> r.error == Download(file, maxAge, fetch, filter, writeOk).err.value
    ensures r.Success? && !NeedsDownload(file, maxAge) ==> file == Some(r.value)
    ensures r.Success? && NeedsDownload(file, maxAge) ==>
      && fetch.Responded? && fetch.status == StatusOK && fetch.body.Some?
      && r.value.content == Filtered(filter, fetch.body.value)
      && r.value.age == 0
    // an existing file keeps its mode; a created one gets 0644
    ensures r.Success? && file.Some? ==> r.value.mode == file.value.mode
    ensures r.Success? && file.None? ==> r.value.mode == DefaultPerm
  {
    var o := Download(file, maxAge, fetch, filter, writeOk);
    if o.err.Some? then
      Failure(o.err.value)
    else if !NeedsDownload(file, maxAge) then
      Success(file.value)
    else
      assert o.write.Some?;
      var w := o.write.value;
      var mode := if file.Some? then file.value.mode else w.perm;
      Success(LocalFile(w.data, mode, 0))
  }

  /** After a successful pass the file's permission bits are the ones the
      write was issued with: preserved on overwrite, 0644 on creation. */
  lemma RefreshPermissionBits(file: Option<LocalFile>, maxAge: int, fetch: Fetch,
                              filter: Option<DataFilterFunc>, writeOk: bool)
    requires Refresh(file, maxAge, fetch, filter, writeOk).Success?
    ensures Refresh(file, maxAge, fetch, filter, writeOk).value.mode & ModePerm == Permissions(file)
  {
    assert DefaultPerm & ModePerm == DefaultPerm;
  }

  /** A rejected status writes nothing and leaves the cached file as it was. */
  lemma BadStatusWritesNothing(file: Option<LocalFile>, maxAge: int, status: int, body: Option<string>,
                               filter: Option<DataFilterFunc>, writeOk: bool)
    requires NeedsDownload(file, maxAge) && status != StatusOK
    ensures Download(file, maxAge, Responded(status, body), filter, writeOk) == Outcome(None, Some(BadStatus(status)))
    ensures Refresh(file, maxAge, Responded(status, body), filter, writeOk) == Failure(BadStatus(status))
  {
  }
}
