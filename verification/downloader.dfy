/** `HttpDownloader`: staging a release archive under a name derived from
    its version, skipping the transfer when that file is already there. The
    HTTP transfer is the `fetch` oracle from a URL to a byte source. */
module Downloader {
  import opened Wrappers
  import opened Errors
  import opened FileSystem
  import opened Releases

  type Fetch = string -> Source

  /** The staged archive's file name. */
  function StagingName(version: string): string {
    "vuetorrent-" + version + ".zip"
  }

  /** Where the archive for `version` is staged beneath `dir`. */
  function StagingPath(dir: Path, version: string): Path {
    Join(dir, StagingName(version))
  }

  /** `HttpDownloader.Download`. The path returned on success is the staging
      path, which depends only on the version and the directory. */
  function Download(fs: FS, release: VueTorrentRelease, dir: Path, fetch: Fetch): (r: Effect<Path>)
    ensures r.err.None? ==> r.value == StagingPath(dir, release.version)
    ensures r.err.Some? ==> r.value == ""
    ensures Exists(fs, StagingPath(dir, release.version)) ==> r == Effect(StagingPath(dir, release.version), None, fs)
    ensures var p := StagingPath(dir, release.version);
      !Exists(fs, p) && CreateFile(fs, p).err.Some? ==> r == Effect("", CreateFile(fs, p).err, fs)
    ensures var p := StagingPath(dir, release.version);
      var src := fetch(release.downloadUrl);
      !Exists(fs, p) && CreateFile(fs, p).err.None? ==>
        && (r.err.None? <==> src.Complete?)
        && p in r.fs.files
        && (src.Complete? ==> r.fs.files[p] == src.content)
        && (src.OpenFailed? ==> r.err == Some(src.openErr) && r.fs.files[p] == "")
        && (src.CopyFailed? ==> r.err == Some(src.copyErr) && r.fs.files[p] == src.partial)
  {
    var p := StagingPath(dir, release.version);
    if Exists(fs, p) then Effect(p, None, fs)
    else
      var created := CreateFile(fs, p);
      if created.err.Some? then Effect("", created.err, created.fs)
      else
        var filled := Fill(created.fs, p, fetch(release.downloadUrl));
        if filled.err.Some? then Effect("", filled.err, filled.fs)
        else Effect(p, None, filled.fs)
  }

  /** The download changes nothing but the staging path. */
  lemma DownloadFrame(fs: FS, release: VueTorrentRelease, dir: Path, fetch: Fetch)
    ensures forall q :: q != StagingPath(dir, release.version) ==> SameAt(fs, Download(fs, release, dir, fetch).fs, q)
  {
  }

  /** A failed download either changed nothing (the file could not be
      created) or left the created file behind, so the next attempt for the
      same version, whatever its URL or transfer, takes the skip branch. */
  lemma RetryAfterFailureSkips(fs: FS, release: VueTorrentRelease, dir: Path, fetch: Fetch,
                               release': VueTorrentRelease, fetch': Fetch)
    requires Download(fs, release, dir, fetch).err.Some?
    requires release'.version == release.version
    ensures var failed := Download(fs, release, dir, fetch);
      var p := StagingPath(dir, release.version);
      && (CreateFile(fs, p).err.None? ==> p in failed.fs.files)
      && (CreateFile(fs, p).err.Some? ==> failed.fs == fs)
      && (p in failed.fs.files ==> Download(failed.fs, release', dir, fetch') == Effect(p, None, failed.fs))
  {
  }

  /** Two releases of the same version are staged at the same place. */
  lemma StagingIgnoresUrl(fs: FS, a: VueTorrentRelease, b: VueTorrentRelease, dir: Path, fetchA: Fetch, fetchB: Fetch)
    requires a.version == b.version
    requires Download(fs, a, dir, fetchA).err.None? && Download(fs, b, dir, fetchB).err.None?
    ensures Download(fs, a, dir, fetchA).value == Download(fs, b, dir, fetchB).value
  {
  }

  lemma DownloadKeepsDisjoint(fs: FS, release: VueTorrentRelease, dir: Path, fetch: Fetch)
    requires Disjoint(fs)
    ensures Disjoint(Download(fs, release, dir, fetch).fs)
  {
    CreateAndFillKeepDisjoint(fs, StagingPath(dir, release.version), fetch(release.downloadUrl));
  }
}
