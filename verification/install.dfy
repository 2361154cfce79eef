/** `InstallCommand.Execute`: resolve the requested release, download it to
    the temporary directory, and unzip it into the install directory,
    stopping at the first error. */
module Install {
  import opened Wrappers
  import opened Errors
  import opened Strings
  import opened FileSystem
  import GitHub
  import opened Releases
  import opened Unzipper
  import opened Downloader
  import opened Manager

  /** The command's flags; the API key only configures the client. */
  datatype InstallCommand = InstallCommand(version: string, directory: Path)

  /** The collaborators a run uses: the release host, `os.TempDir()`, the
      HTTP transfer and the archive reader. */
  datatype Env = Env(client: GitHub.Client, tempDir: Path, fetch: Fetch, decode: Decoder)

  /** A manager operation the command invoked. */
  datatype Call =
    | GetLatest
    | GetByTag(tag: string)
    | DownloadTo(release: VueTorrentRelease, dir: Path)
    | UnzipInto(filePath: Path, dir: Path, version: string)

  /** The command's error, the filesystem afterwards, and the operations it
      invoked, in order. */
  datatype Run = Run(err: Option<Error>, fs: FS, calls: seq<Call>)

  /** The lookup a version selector leads to: the latest release for the
      empty selector, otherwise the selector's tag. */
  function ResolveCall(version: string): Call {
    if version == "" then GetLatest else GetByTag(MakeTagName(version))
  }

  /** What the host answers to one of the two lookups. */
  function Lookup(client: GitHub.Client, call: Call): Returned<VueTorrentRelease>
    requires call.GetLatest? || call.GetByTag?
  {
    if call.GetLatest? then GetLatestVuetorrentRelease(client)
    else GetVuetorrentRelease(client, call.tag)
  }

  /** The release a version selector resolves to: the answer to the lookup
      `ResolveCall` picks. */
  function Resolve(client: GitHub.Client, version: string): (r: Returned<VueTorrentRelease>)
    ensures version == "" ==> r == GetLatestVuetorrentRelease(client)
    ensures version != "" ==> r == GetVuetorrentRelease(client, MakeTagName(version))
  {
    Lookup(client, ResolveCall(version))
  }

  /** The calls of a run that reaches the end: one lookup, one download of
      the resolved release, one unzip of the staged file with the resolved
      version as the marker value. */
  function FullRun(cmd: InstallCommand, env: Env, release: VueTorrentRelease): seq<Call> {
    [ ResolveCall(cmd.version),
      DownloadTo(release, env.tempDir),
      UnzipInto(StagingPath(env.tempDir, release.version), cmd.directory, release.version) ]
  }

  function Execute(cmd: InstallCommand, env: Env, fs: FS): (r: Run)
    ensures var release := Resolve(env.client, cmd.version);
      && 1 <= |r.calls| <= 3
      && r.calls == FullRun(cmd, env, release.value)[..|r.calls|]
      && (release.err.Some? ==> r == Run(release.err, fs, [ResolveCall(cmd.version)]))
      && (r.err.None? ==> r.calls == FullRun(cmd, env, release.value))
  {
    var resolveCall := ResolveCall(cmd.version);
    var release := Resolve(env.client, cmd.version);
    if release.err.Some? then Run(release.err, fs, [resolveCall])
    else
      var rel := release.value;
      var downloaded := Download(fs, rel, env.tempDir, env.fetch);
      var calls := [resolveCall, DownloadTo(rel, env.tempDir)];
      if downloaded.err.Some? then Run(downloaded.err, downloaded.fs, calls)
      else
        var unzipped := Manager.Unzip(downloaded.fs, downloaded.value, cmd.directory, rel.version, env.decode);
        Run(unzipped.err, unzipped.fs, calls + [UnzipInto(downloaded.value, cmd.directory, rel.version)])
  }

  /** A failed download ends the run before `Unzip`: its error is returned
      and nothing but the staging path has changed. */
  lemma DownloadFailureStops(cmd: InstallCommand, env: Env, fs: FS)
    requires Resolve(env.client, cmd.version).err.None?
    requires Download(fs, Resolve(env.client, cmd.version).value, env.tempDir, env.fetch).err.Some?
    ensures var release := Resolve(env.client, cmd.version).value;
      var r := Execute(cmd, env, fs);
      && r.err == Download(fs, release, env.tempDir, env.fetch).err
      && |r.calls| == 2
      && forall q :: q != StagingPath(env.tempDir, release.version) ==> SameAt(fs, r.fs, q)
  {
    DownloadFrame(fs, Resolve(env.client, cmd.version).value, env.tempDir, env.fetch);
  }

  /** Once downloaded, the run's outcome is `Unzip`'s, unchanged. */
  lemma UnzipOutcomeReturned(cmd: InstallCommand, env: Env, fs: FS)
    requires Resolve(env.client, cmd.version).err.None?
    requires Download(fs, Resolve(env.client, cmd.version).value, env.tempDir, env.fetch).err.None?
    ensures var release := Resolve(env.client, cmd.version).value;
      var downloaded := Download(fs, release, env.tempDir, env.fetch);
      var unzipped := Manager.Unzip(downloaded.fs, StagingPath(env.tempDir, release.version), cmd.directory, release.version, env.decode);
      var r := Execute(cmd, env, fs);
      r.err == unzipped.err && r.fs == unzipped.fs
  {
  }

  /** A version given without "v" is looked up as "v" + version, and a host
      that answers with the tag it was asked for yields that very version. */
  lemma ExplicitVersionRoundTrip(client: GitHub.Client, version: string)
    requires version != "" && !("v" <= version)
    requires client.releaseByTag(MakeTagName(version)).err.None?
    requires client.releaseByTag(MakeTagName(version)).value.tagName == MakeTagName(version)
    ensures ResolveCall(version) == GetByTag("v" + version)
    ensures Resolve(client, version).err.None? && Resolve(client, version).value.version == version
  {
    TagNameRoundTrip(version);
  }

  /** A completed install from an archive without its own marker records
      the resolved version, which reads back through `GetVersion`. */
  lemma InstallRecordsVersion(cmd: InstallCommand, env: Env, fs: FS)
    requires Execute(cmd, env, fs).err.None?
    requires var release := Resolve(env.client, cmd.version).value;
      var downloaded := Download(fs, release, env.tempDir, env.fetch);
      var es := EntriesRead(downloaded.fs, downloaded.value, cmd.directory, env.decode);
      forall i :: 0 <= i < |es| ==> Stripped(es[i]) != MarkerName
    ensures GetVersion(Execute(cmd, env, fs).fs, cmd.directory)
      == Returned(Resolve(env.client, cmd.version).value.version, None)
  {
    var release := Resolve(env.client, cmd.version).value;
    var downloaded := Download(fs, release, env.tempDir, env.fetch);
    UnzipWritesMarker(downloaded.fs, downloaded.value, cmd.directory, release.version, env.decode);
  }

  /** A completed install leaves every file of the release archive that no
      later entry overwrites in the install directory, with its bytes. */
  lemma InstallExtractsFiles(cmd: InstallCommand, env: Env, fs: FS, i: nat)
    requires Execute(cmd, env, fs).err.None?
    requires var release := Resolve(env.client, cmd.version).value;
      var downloaded := Download(fs, release, env.tempDir, env.fetch);
      var es := EntriesRead(downloaded.fs, downloaded.value, cmd.directory, env.decode);
      && i < |es| && Stripped(es[i]) != "" && !es[i].isDir
      && forall j :: i < j < |es| ==> !WritesFile(cmd.directory, es[j], Target(cmd.directory, es[i]))
    ensures var release := Resolve(env.client, cmd.version).value;
      var downloaded := Download(fs, release, env.tempDir, env.fetch);
      var es := EntriesRead(downloaded.fs, downloaded.value, cmd.directory, env.decode);
      var r := Execute(cmd, env, fs);
      && es[i].data.Complete?
      && Target(cmd.directory, es[i]) in r.fs.files
      && r.fs.files[Target(cmd.directory, es[i])] == es[i].data.content
  {
    var release := Resolve(env.client, cmd.version).value;
    var downloaded := Download(fs, release, env.tempDir, env.fetch);
    UnzipExtractsFiles(downloaded.fs, downloaded.value, cmd.directory, release.version, env.decode, i);
  }

  /** A failed run never loses an installation that can be moved aside: it
      is either still in place, or (when `Unzip` failed) intact at its backup
      path. The staging file is assumed to lie outside the install directory
      and not to be the backup path itself. */
  lemma FailedInstallKeepsPreviousVersion(cmd: InstallCommand, env: Env, fs: FS)
    requires CanBackUp(fs, cmd.directory)
    requires var staged := StagingPath(env.tempDir, Resolve(env.client, cmd.version).value.version);
      && !Within(staged, cmd.directory)
      && staged != BackupDir(cmd.directory, GetVersion(fs, cmd.directory).value)
    requires Execute(cmd, env, fs).err.Some?
    ensures var r := Execute(cmd, env, fs);
      || Moved(fs, cmd.directory, r.fs, cmd.directory)
      || Moved(fs, cmd.directory, r.fs, BackupDir(cmd.directory, GetVersion(fs, cmd.directory).value))
  {
    var dir := cmd.directory;
    var r := Execute(cmd, env, fs);
    var release := Resolve(env.client, cmd.version);
    if release.err.None? {
      var rel := release.value;
      var staged := StagingPath(env.tempDir, rel.version);
      var downloaded := Download(fs, rel, env.tempDir, env.fetch);
      DownloadFrame(fs, rel, env.tempDir, env.fetch);
      assert Moved(fs, dir, downloaded.fs, dir) by {
        forall s | Subpath(s)
          ensures Corresponds(fs, dir + s, downloaded.fs, dir + s)
        {
          WithinBySubpath(dir, s);
          assert SameAt(fs, downloaded.fs, dir + s);
        }
      }
      if downloaded.err.None? {
        var unzipped := Manager.Unzip(downloaded.fs, downloaded.value, dir, rel.version, env.decode);
        var b := BackupDir(dir, GetVersion(fs, dir).value);
        CanBackUpFrame(fs, downloaded.fs, dir, staged);
        UnzipKeepsBackupOnFailure(downloaded.fs, downloaded.value, dir, rel.version, env.decode);
        assert Moved(fs, dir, r.fs, b) by {
          forall s | Subpath(s)
            ensures Corresponds(fs, dir + s, r.fs, b + s)
          {
            assert Corresponds(fs, dir + s, downloaded.fs, dir + s);
            assert Corresponds(downloaded.fs, dir + s, unzipped.fs, b + s);
          }
        }
      }
    } else {
      assert Moved(fs, dir, r.fs, dir);
    }
  }

  /** A run never makes a path both a file and a directory. */
  lemma InstallKeepsDisjoint(cmd: InstallCommand, env: Env, fs: FS)
    requires Disjoint(fs)
    ensures Disjoint(Execute(cmd, env, fs).fs)
  {
    var release := Resolve(env.client, cmd.version);
    if release.err.None? {
      var downloaded := Download(fs, release.value, env.tempDir, env.fetch);
      DownloadKeepsDisjoint(fs, release.value, env.tempDir, env.fetch);
      Manager.UnzipKeepsDisjoint(downloaded.fs, downloaded.value, cmd.directory, release.value.version, env.decode);
    }
  }
}
