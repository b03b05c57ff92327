/**
 The staleness decision of `Command.download`. The remote `last-modified` and
 `content-length` headers and the local file's modification time and size are
 abstract integers (seconds and bytes); the HTTP request and the copy loop are
 outside the model.
 */
module Fetcher {

  /** The cached copy in the data directory. */
  datatype LocalFile = Absent | Present(mtime: int, size: nat)

  /** What the server reports about the source. */
  datatype RemoteMeta = RemoteMeta(lastModified: int, size: nat)

  /** The cached copy is at least as new as the remote one and has its size. */
  predicate UpToDate(local: LocalFile, remote: RemoteMeta) {
    local.Present? && local.mtime >= remote.lastModified && local.size == remote.size
  }

  /** Whether `download` fetches the body. */
  function NeedsDownload(local: LocalFile, remote: RemoteMeta, force: bool): (download: bool)
    ensures !download <==> !force && UpToDate(local, remote)
    ensures force || local.Absent? ==> download
  {
    if local.Present? && !force then
      !(local.mtime >= remote.lastModified && local.size == remote.size)
    else
      true
  }

  datatype Fetched = Fetched(downloaded: bool, local: LocalFile)

  /** `download(url, path, force)`: its return value and the cached copy afterwards.
      A download writes the whole body at time `now`. */
  function Download(local: LocalFile, remote: RemoteMeta, force: bool, now: int): (r: Fetched)
    ensures r.downloaded == NeedsDownload(local, remote, force)
    ensures r.downloaded ==> r.local == Present(now, remote.size)
    ensures !r.downloaded ==> r.local == local && UpToDate(local, remote)
  {
    if NeedsDownload(local, remote, force) then Fetched(true, Present(now, remote.size))
    else Fetched(false, local)
  }

  /** When the clock is not behind the server, whatever `download` did leaves the
      cached copy up to date. */
  lemma DownloadLeavesUpToDate(local: LocalFile, remote: RemoteMeta, force: bool, now: int)
    requires now >= remote.lastModified
    ensures UpToDate(Download(local, remote, force, now).local, remote)
  {
  }

  /** A second, unforced download of an unchanged source fetches nothing. */
  lemma SecondDownloadIsNoOp(local: LocalFile, remote: RemoteMeta, force: bool, now: int, later: int)
    requires now >= remote.lastModified
    ensures var first := Download(local, remote, force, now);
            Download(first.local, remote, false, later) == Fetched(false, first.local)
  {
    DownloadLeavesUpToDate(local, remote, force, now);
  }

  /** A cached copy older than the server's copy is fetched again. */
  lemma StaleCopyIsFetched(mtime: int, size: nat, remote: RemoteMeta, now: int)
    requires mtime < remote.lastModified
    ensures Download(Present(mtime, size), remote, false, now).downloaded
  {
  }
}
