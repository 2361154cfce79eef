# VueTorrent installer: release resolution and install pipeline in Dafny

This project models the core of `vt-manager`, a command-line installer for
the VueTorrent web UI. The `install` command picks a release from GitHub:
the latest one, or the one tagged with the requested version. It downloads
that release's `vuetorrent.zip` to the temporary directory. It then
extracts the archive into the install directory. Before extracting, it
moves the previous installation aside to `<dir>-<previous version>`. After
extracting, it writes the `version.txt` marker if the archive had none. It
deletes the moved-aside copy only when every step succeeded.

The model is functional. The filesystem is an immutable value: a map from
path to file content plus a set of directory paths. Every operation that
touches it takes a filesystem and returns a Go-style `(value, error)` pair
together with the filesystem afterwards. Outside collaborators become
parameters:

- the GitHub client is an oracle. It holds the release list (or an error)
  and a lookup from tag to release (or error);
- the HTTP transfer is a function from URL to a byte source. The source
  may fail to open, fail part-way, or complete;
- the zip reader is a function from file content to an optional sequence of
  `(name, isDir, bytes)` entries;
- `os.TempDir()` is a path parameter.

Modules:

- `Wrappers`, `Errors`, `Strings`: options, the error values, Go's
  `(T, error)` pair, and `strings.CutPrefix`.
- `FileSystem`: the `os` calls used by the installer (`Stat`, `MkdirAll`,
  `Create`/`OpenFile`, `WriteFile`, `Rename`, `RemoveAll`, `filepath.Dir`,
  `filepath.Join`), plus frame and invariant lemmas about them.
- `GitHub`: the upstream `Asset`/`Release` shapes and the client oracle.
- `Releases`: release conversion, `MakeTagName`, and the three lookups.
- `Unzipper`: the entry loop and `DefaultUnzipper.Unzip`.
- `Downloader`: `HttpDownloader.Download`.
- `Manager`: `GetVersion`, `backupPreviousVersion`, and `vtManager.Unzip`.
- `Install`: `InstallCommand.Execute`.
- `Examples`: the expectations of the repository's tests.

The entry loop is defined once, in `Unzipper.ExtractAll`. It is parameterised
by what a failed directory creation does: `DefaultUnzipper` returns the
error, while `vtManager.Unzip` ignores it.

`Install.Execute` returns the manager calls it made, in order. This trace is
how the model states "one resolve, one download, one unzip, in that order".

### Behaviour worth noting

- There is no "already up to date" comparison before downloading: an
  install always downloads (or reuses the staged file) and extracts.
- The marker is skipped when the archive itself contained a
  `version.txt` entry. It is not skipped when a marker already existed on
  disk.
- A release without a `vuetorrent.zip` asset yields an empty download URL.
  That is not an error.
- A marker-write failure in `vtManager.Unzip` is returned as an error.
- The error of `os.Rename` is ignored. When anything other than a regular
  file replaceable by a regular file is already at the backup path (any
  directory, even an empty one, which Go's `os.Rename` refuses with
  `EEXIST`), the installation stays where it is. The backup is still
  reported as made, and extraction overwrites the installation in place
  (`Manager.BackupRefused`, `Examples.EmptyBackupDirRefusesRename`).
  A successful `Unzip` then still removes the backup path, because the
  backup error is nil, so whatever already sat at `<dir>-<version>`, such
  as a stale backup from an earlier failed run, is deleted
  (`Manager.UnzipRemovesBackupOnSuccess`).
- Both unzip functions create the output directory only when `os.Open`
  reports that it does not exist. An output path beneath a regular file
  gets "not a directory" instead, so it is not created and extraction
  goes ahead (`Examples.OutputBehindFileIsNotCreated`).

## Model

| member | source | states |
|---|---|---|
| `Strings.CutPrefix` | app/vuetorrent/vt_manager.go:40 | exactly one leading occurrence of the prefix is removed (prefix + result gives back the input); an input without the prefix is returned unchanged |
| `Releases.ArchiveUrl` | app/vuetorrent/vt_manager.go:42-48 | the URL is that of the first asset named exactly `vuetorrent.zip`, and `""` when no asset has that name |
| `Releases.Convert` | app/vuetorrent/vt_manager.go:39-54 | the version is the tag with one leading `"v"` removed ("1.2" and "V1.2" pass through); the URL is the first `vuetorrent.zip` asset's, or `""` |
| `Releases.MakeTagName` | app/vuetorrent/vt_manager.go:201-207 | every tag produced starts with `"v"` |
| `Releases.TagNameRoundTrip` | app/vuetorrent/vt_manager.go:201-207 | removing the `"v"` from the tag of a version that lacks one gives back that version |
| `Releases.TagNameIdempotent` | app/vuetorrent/vt_manager.go:202-203 | a version already starting with `"v"` is its own tag, so tagging twice equals tagging once |
| `Releases.GetVuetorrentRelease` | app/vuetorrent/vt_manager.go:56-65 | a lookup error comes back unchanged beside the zero release; otherwise the converted release, with no error |
| `Releases.GetLatestVuetorrentRelease` | app/vuetorrent/vt_manager.go:67-77 | a client error comes back beside the zero release; an empty list is an explicit error; otherwise element 0 converted, with no sorting |
| `Releases.ConvertAll` | app/vuetorrent/vt_manager.go:85-90 | same length as the upstream list, and element i is the conversion of upstream element i |
| `Releases.GetAllReleases` | app/vuetorrent/vt_manager.go:79-93 | on a client error, the empty list with that error; otherwise the conversions, in the client's order, with no error |
| `Releases.LatestIsFirstOfAll` | app/vuetorrent/vt_manager.go:67-93 | the latest release equals element 0 of all releases, and both report the same client error |
| `FileSystem.RenameMoves` | app/vuetorrent/vt_manager.go:234 | when Go's `os.Rename` accepts the rename (destination absent, or a file replacing a file; any directory at the destination refuses it), the old tree reappears path for path under the new name, nothing remains under the old name, and every other path is unchanged |
| `FileSystem.RemoveAllClears` | app/vuetorrent/vt_manager.go:194 | the removed tree is gone and nothing outside it changes |
| `FileSystem.RenameKeepsDisjoint` | app/vuetorrent/vt_manager.go:234 | renaming never makes a path both a file and a directory |
| `Unzipper.ExtractEntry` | app/vuetorrent/unzipper.go:44-70 | a directory entry writes no file, and with failures ignored never errs; with failures propagated, its success means its path is a directory; a file entry's success means its bytes were complete and exactly its target file was set to them; nothing is ever removed |
| `Unzipper.ExtractAll` | app/vuetorrent/unzipper.go:36-73 | the entry loop, shared with vt_manager.go:144-180: it never removes a directory or a file, and a marker flag once set stays set |
| `Unzipper.Unzip` | app/vuetorrent/unzipper.go:19-74 | the output directory is created exactly when `os.Open` would report it missing (then it exists afterwards, whatever else fails); otherwise nothing is created, and a reader error returns with the filesystem unchanged; a success leaves the output directory in place unless an ancestor is a regular file |
| `Unzipper.UnzipMaterializes` | app/vuetorrent/unzipper.go:19-74 | a nil return means the archive was read and every entry with a non-empty stripped name exists at its target: a directory entry as a directory, a file entry as a file |
| `Unzipper.ExtractAllAppend` | app/vuetorrent/unzipper.go:36-73 | entries are processed in archive order: a run over `a + b` is the run over `a`, which stops everything at its first error, then the run over `b` from the state it left |
| `Unzipper.SkipsTopDir` | app/vuetorrent/unzipper.go:37-40 | an entry whose stripped name is empty (the top-level `vuetorrent/` entry) produces nothing |
| `Unzipper.ExtractAllSeesMarker` | app/vuetorrent/vt_manager.go:143-153 | after a successful loop, the marker flag is set exactly when some entry's stripped name is `version.txt` |
| `Unzipper.ExtractAllStaysInside` | app/vuetorrent/unzipper.go:42 | every path written is the output directory joined with a stripped name, so nothing changes except the output directory, the paths inside it, and the paths that are string prefixes of its name (its ancestors among them), even on error |
| `Unzipper.ExtractAllFileFrame` | app/vuetorrent/unzipper.go:44-58 | a file's content changes only through file entries whose target is that file; directory entries write no file |
| `Unzipper.LastWriteWins` | app/vuetorrent/unzipper.go:51-70 | on success, a file entry that no later entry overwrites leaves exactly its bytes at its target path (truncate-overwrite, so the later duplicate wins) |
| `Unzipper.StrictSuccessMaterializes` | app/vuetorrent/unzipper.go:44-70 | when the loop returns nil, every directory entry's path is a directory and every file entry's path is a file |
| `Unzipper.ExtractAllKeepsDisjoint` | app/vuetorrent/unzipper.go:36-71 | the loop never makes a path both a file and a directory |
| `Unzipper.UnzipKeepsDisjoint` | app/vuetorrent/unzipper.go:19-74 | the default unzipper never makes a path both a file and a directory |
| `Downloader.Download` | app/vuetorrent/downloader.go:18-45 | success returns the staging path, which depends only on version and directory, never on the URL; an existing staging path is returned with no fetch and no change; a failed `os.Create` returns `""` and its error with no change; after a successful create, the call succeeds exactly when the transfer completes, and the file holds the fetched bytes, nothing (open failure) or the partial bytes (copy failure), with the transfer's error; every error returns `""` |
| `Downloader.DownloadFrame` | app/vuetorrent/downloader.go:19-44 | the download changes no path other than the staging path |
| `Downloader.RetryAfterFailureSkips` | app/vuetorrent/downloader.go:27-42 | a failed creation changes nothing; a failed fetch or copy leaves the created file, so the next download of that version takes the skip branch |
| `Downloader.StagingIgnoresUrl` | app/vuetorrent/downloader.go:19-20 | two releases with the same version are staged at the same path, whatever their URLs |
| `Downloader.DownloadKeepsDisjoint` | app/vuetorrent/downloader.go:18-45 | the download never makes a path both a file and a directory |
| `Manager.GetVersion` | app/vuetorrent/vt_manager.go:209-222 | no error exactly when the marker is a readable file, and then its whole content verbatim; otherwise `"unknown"` with an error |
| `Manager.BackupPreviousVersion` | app/vuetorrent/vt_manager.go:224-238 | nil error exactly when the directory existed (the outer `os.Stat` error is returned), with the path `dir + "-" + version`, where a missing marker gives `"unknown"`; otherwise `""`, an error, and no change |
| `Manager.BackupMovesTree` | app/vuetorrent/vt_manager.go:224-238 | when the rename to the backup path is accepted (nothing is there, or both are regular files), the previous installation reappears intact at the backup path, nothing is left at the directory, and nothing else changes |
| `Manager.BackupRefused` | app/vuetorrent/vt_manager.go:224-238 | when the rename to the backup path is refused (any directory there, even an empty one, or a directory to be moved onto a file), the backup is still reported with a nil error but nothing moved, and the directory is extracted over as it stands |
| `Manager.Unzip` | app/vuetorrent/vt_manager.go:124-199 | fails exactly when reading the archive or an entry fails, or, for an archive without its own `version.txt`, when writing the marker fails, returning that error; backing up, recreating the directory and removing the backup never fail the call; a success that wrote the marker leaves it holding exactly the given version |
| `Manager.AfterBackupStaysInside` | app/vuetorrent/vt_manager.go:129-191 | recreating the directory, extracting and writing the marker change nothing except the install directory, the paths inside it, and the paths that are string prefixes of its name (its ancestors among them) |
| `Manager.UnzipKeepsBackupOnFailure` | app/vuetorrent/vt_manager.go:124-199 | when the installation could be moved aside, every error return (unreadable archive, failed entry, failed marker write) leaves the previous installation intact at its backup path |
| `Manager.UnzipRemovesBackupOnSuccess` | app/vuetorrent/vt_manager.go:193-196 | after full success over an existing installation, nothing remains at the backup path |
| `Manager.UnzipFrame` | app/vuetorrent/vt_manager.go:124-199 | nothing changes except the install directory, the paths inside it, the paths that are string prefixes of its name (its ancestors among them), and the backup path's tree; with no previous installation, no removal happens at all |
| `Manager.UnzipWritesMarker` | app/vuetorrent/vt_manager.go:182-191 | when no stripped entry name is `version.txt`, a successful unzip leaves a marker that reads back as exactly the given version |
| `Manager.UnzipKeepsArchiveMarker` | app/vuetorrent/vt_manager.go:143-191 | when the archive has its own `version.txt`, no marker is written: the last archive entry for that path supplies what the marker reads |
| `Manager.UnzipExtractsFiles` | app/vuetorrent/vt_manager.go:143-196 | after a successful unzip, each file entry with a non-empty stripped name that no later entry overwrites is a file at `dir` joined with that name, holding exactly the entry's bytes; the marker write and the backup removal leave it alone |
| `Manager.UnzipKeepsDisjoint` | app/vuetorrent/vt_manager.go:124-199 | unzipping never makes a path both a file and a directory |
| `Install.Resolve` | app/cmd/install.go:22-37 | the empty selector resolves through the latest-release lookup, any other through the lookup of its tag `MakeTagName(version)`; this is the lookup `ResolveCall` records |
| `Install.Execute` | app/cmd/install.go:16-54 | the first call is the lookup the selector picks (latest for `""`, else the tag `MakeTagName(version)`); a resolution error is returned before any download, with the filesystem unchanged; the calls are always a prefix of resolve, download to the temporary directory, and unzip with the release's version; with no error, all three were made, in that order |
| `Install.DownloadFailureStops` | app/cmd/install.go:40-44 | a download error is returned after exactly the resolve and download calls, before `Unzip`, and no path other than the staging path has changed; so the install directory is untouched unless the staging path lies inside it |
| `Install.UnzipOutcomeReturned` | app/cmd/install.go:47-51 | after a download, the command's error and filesystem are exactly those of `Unzip` on the staged file, with the resolved version as the marker value |
| `Install.ExplicitVersionRoundTrip` | app/cmd/install.go:29-37 | a version without `"v"` is queried as `"v" + version`, and a host that echoes the tag yields that very version |
| `Install.InstallRecordsVersion` | app/cmd/install.go:16-54 | a completed install from an archive without its own marker reads back, through `GetVersion`, as the resolved version |
| `Install.InstallExtractsFiles` | app/cmd/install.go:40-53 | after a successful install, each file of the downloaded release archive that no later entry overwrites is in the install directory with exactly its bytes |
| `Install.FailedInstallKeepsPreviousVersion` | app/cmd/install.go:16-54 | a failed run never loses an installation that can be moved aside: it is either still in place or intact at its backup path |
| `Install.InstallKeepsDisjoint` | app/cmd/install.go:16-54 | a run never makes a path both a file and a directory |
| `Examples.AllReleasesInHostOrder` | app/vuetorrent/vt_manager_test.go:30-47 | the test mock's three releases convert to 1.1.3, 1.1.2, 1.1.1 with their URLs, in order |
| `Examples.LatestIsFirstListed` | app/vuetorrent/vt_manager_test.go:49-63 | the mock's latest release is 1.1.3 |
| `Examples.SelectorCases` | app/vuetorrent/vt_manager_test.go:99-119 | selector "1.1.1" resolves to version 1.1.1; "0.0.0" fails with the host's "tag v0.0.0 not found" and the zero release; "" resolves to 1.1.3 |
| `Examples.StagingFileName` | app/vuetorrent/downloader_test.go:37-40 | version 1.2 is staged as `vuetorrent-1.2.zip` |
| `Examples.EmptyBackupDirRefusesRename` | app/vuetorrent/vt_manager.go:224-238 | with an empty directory already at `/opt/vt-1.0`, the backup of `/opt/vt` (marker `1.0`) is refused, yet reported as `/opt/vt-1.0` with a nil error and no change |
| `Examples.OutputBehindFileIsNotCreated` | app/vuetorrent/unzipper.go:22-35 | with `/f` a regular file, unzipping an empty archive into `/f/out` creates nothing and returns no error |

## Left out

- HTTP requests, auth headers and JSON decoding of the GitHub client
  (`app/github/gihub_client.go:31-97`) are left out. Only the `Asset`/`Release` shapes are kept. The
  client is an oracle, because the network cannot be modelled.
- Zip container decoding, byte streaming (`io.Copy`), file modes and
  permissions are left out. The archive is a decoder oracle. Each entry's
  bytes are a `Source` that may fail to open or fail part-way.
- Permission-based failures are left out. Operations fail only because of
  the filesystem's shape: a missing parent, a file where a directory is
  needed, or the reverse. The only `os.Open` error besides "not exist"
  (unzipper.go:22, vt_manager.go:129) is therefore "not a directory", for a
  path beneath a regular file. Both unzip functions skip `os.MkdirAll`
  for it, as the code does. After a "not exist" result that `os.MkdirAll`
  cannot fail in the model, so the abort at unzipper.go:25-27 is never
  taken.
- `filepath.Clean`/`Join` normalisation is left out: joining is plain
  concatenation with `/`. So `..` in entry names is not resolved. A
  directory entry's trailing `/` also stays in its path. `MkdirAll` still
  creates the path without the slash, as an ancestor. The lemmas about
  entry targets describe Go only for stripped entry names that
  `filepath.Clean` leaves unchanged (no `..` or `.` element, no doubled
  `/`). The code does not check this, and the five frame properties below
  are false in Go without it.
- `Unzipper.ExtractAllStaysInside`: does not hold in Go for an entry such as
  `vuetorrent/../x`, which `filepath.Join` resolves to a path outside the
  output directory.
- `Manager.AfterBackupStaysInside`: does not hold in Go for an entry name
  with `..` that resolves outside the install directory.
- `Manager.UnzipKeepsBackupOnFailure`: does not hold in Go for an entry
  resolving into the backup path, such as `vuetorrent/../vt-1.0/index.html`
  extracted into `/opt/vt` with backup `/opt/vt-1.0`.
- `Manager.UnzipFrame`: does not hold in Go for an entry name with `..`
  that resolves outside the install directory.
- `Install.FailedInstallKeepsPreviousVersion`: does not hold in Go for an
  archive entry with `..` that resolves into the backup path.
- `os.Rename` (vt_manager.go:234) follows Go's `os.Rename` on Unix. Any
  directory already at the destination is refused (`EEXIST`), as is a
  directory moved onto a file or into itself. A missing parent of the
  destination is not checked, which can only matter when the marker's
  content contains `/`. Its error is ignored, as in the code.
- The install directory and `os.TempDir()` are assumed clean: no trailing
  `/`, no `.` or `..` element, no doubled `/`. The code passes the install
  directory to `os.Stat`, `os.Rename` and `fmt.Sprintf` uncleaned
  (vt_manager.go:225-234). With `-d /opt/vt/`, Go's backup path is
  `/opt/vt/-1.0`, inside the directory, so the rename fails and no backup
  is made. The model compares raw strings instead, so
  `Manager.BackupPreviousVersion` reports a missing directory there.
- `Manager.BackupMovesTree`: does not hold in Go for an install directory
  with a trailing `/`, where the backup path lies inside it and the rename
  is refused.
- `Manager.UnzipKeepsBackupOnFailure`: does not hold in Go for an install
  directory with a trailing `/`. No backup is made, and a failed
  extraction has overwritten the installation in place.
- `Install.FailedInstallKeepsPreviousVersion`: does not hold in Go for an
  install directory with a trailing `/`, for the same reason.
- `os.RemoveAll` (vt_manager.go:194) is assumed to succeed. The ignored
  `os.MkdirAll` calls (vt_manager.go:133, 156) are computed, but their
  errors are dropped, as in the code.
- The `fmt.Sprintf` at vt_manager.go:232 is modelled as concatenation.
  This assumes no `%` occurs in the path.
- `vtManager.Download` (vt_manager.go:95-122) is not modelled separately. It
  is line for line the same as `HttpDownloader.Download`, which is
  modelled once as `Downloader.Download` and used by `Install.Execute`.
- `Releases.GetLatestVuetorrentRelease`: on an empty release list the code
  indexes out of range and panics. The model returns the explicit error
  `EmptyReleaseList` instead.
- `Install.FailedInstallKeepsPreviousVersion`: assumes the staging file
  lies outside the install directory and is not the backup path, and that the
  rename to the backup path is accepted. The code checks neither; when the
  rename is refused the failed extraction has overwritten the installation
  in place (`Manager.BackupRefused`).
- Logging, CLI flag parsing (`app/main.go`), the API key, and the `info`,
  `list` and `revision` commands are output-only and left out. `info.go`
  calls `GetInstalledVersion`, which is not part of this model.
- The test-only APIs `Install` and `GetReleaseForVersion` are not modelled.
  Neither are the test helpers. The tests are used only as concrete
  expected values in `Examples`.
- `defer ... Close()` has no observable effect in the model and is left
  out. There is no concurrency.
- A concrete end-to-end install scenario over literal paths is not proved.
  The general lemmas state its outcome for all inputs: the release's files
  are in place (`Install.InstallExtractsFiles`), the marker reads back the
  resolved version (`Install.InstallRecordsVersion`), and no backup remains
  (`Manager.UnzipRemovesBackupOnSuccess`).
