/** The install-directory side of `vtManager`: reading the version marker,
    moving the previous installation aside, and `Unzip`, which extracts a
    release over it, writes the marker if the archive had none, and deletes
    the backup only once everything succeeded. */
module Manager {
  import opened Wrappers
  import opened Errors
  import opened FileSystem
  import opened Unzipper

  /** What `GetVersion` reports when the marker cannot be read. */
  const Unknown := "unknown"

  function MarkerPath(dir: Path): Path {
    Join(dir, MarkerName)
  }

  /** `GetVersion`: the marker file's whole content, or "unknown" with an
      error when it is missing or is not a readable file. */
  function GetVersion(fs: FS, dir: Path): (r: Returned<string>)
    ensures r.err.None? <==> MarkerPath(dir) in fs.files
    ensures r.err.None? ==> r.value == fs.files[MarkerPath(dir)]
    ensures r.err.Some? ==> r.value == Unknown
  {
    var p := MarkerPath(dir);
    if !Exists(fs, p) then Returned(Unknown, Some(NotExist(p)))
    else if p !in fs.files then Returned(Unknown, Some(IsDirectory(p)))
    else Returned(fs.files[p], None)
  }

  /** Where the installation of `version` in `dir` is moved aside. */
  function BackupDir(dir: Path, version: string): Path {
    dir + "-" + version
  }

  /** `backupPreviousVersion`. The error returned is that of the first
      `os.Stat(dir)`, since the one from `GetVersion` is shadowed: it is nil
      exactly when `dir` existed. */
  function BackupPreviousVersion(fs: FS, dir: Path): (r: Effect<Path>)
    ensures r.err.None? <==> Exists(fs, dir)
    ensures r.err.None? ==> r.value == BackupDir(dir, GetVersion(fs, dir).value)
    ensures r.err.Some? ==> r == Effect("", Some(NotExist(dir)), fs)
  {
    if Exists(fs, dir) then
      var b := BackupDir(dir, GetVersion(fs, dir).value);
      Effect(b, None, Rename(fs, dir, b))
    else Effect("", Some(NotExist(dir)), fs)
  }

  /** There is a previous installation and `os.Rename` accepts moving it to
      its backup path: nothing is there yet, or both are regular files. */
  predicate CanBackUp(fs: FS, dir: Path) {
    Exists(fs, dir) && RenameSucceeds(fs, dir, BackupDir(dir, GetVersion(fs, dir).value))
  }

  /** The marker lies outside every backup of its directory. */
  lemma MarkerOutsideBackup(dir: Path, version: string)
    ensures !Within(MarkerPath(dir), BackupDir(dir, version))
  {
    if Within(MarkerPath(dir), BackupDir(dir, version)) {
      BackupUnrelated(dir, version, MarkerPath(dir));
    }
  }

  /** A change at a single path outside `dir` and its backup path neither
      alters the recorded version nor whether the installation can be moved
      aside. */
  lemma CanBackUpFrame(fs: FS, fs': FS, dir: Path, p: Path)
    requires forall q :: q != p ==> SameAt(fs, fs', q)
    requires !Within(p, dir) && p != BackupDir(dir, GetVersion(fs, dir).value)
    ensures GetVersion(fs', dir) == GetVersion(fs, dir)
    ensures CanBackUp(fs', dir) <==> CanBackUp(fs, dir)
  {
    assert MarkerPath(dir) != p by {
      WithinBySubpath(dir, "/" + MarkerName);
      assert dir + ("/" + MarkerName) == MarkerPath(dir);
    }
    assert SameAt(fs, fs', MarkerPath(dir));
    var b := BackupDir(dir, GetVersion(fs, dir).value);
    assert Within(dir, dir);
    assert SameAt(fs, fs', dir) && SameAt(fs, fs', b);
  }

  /** The previous installation reappears intact at the backup path, nothing
      is left at `dir`, and every path outside both trees is as it was. */
  lemma BackupMovesTree(fs: FS, dir: Path)
    requires CanBackUp(fs, dir)
    ensures var r := BackupPreviousVersion(fs, dir);
      && Moved(fs, dir, r.fs, r.value)
      && (forall q :: Within(q, dir) ==> !Exists(r.fs, q))
      && (forall q :: !Within(q, dir) && !Within(q, r.value) ==> SameAt(fs, r.fs, q))
  {
    var b := BackupDir(dir, GetVersion(fs, dir).value);
    RenameMoves(fs, dir, b);
    forall q | Within(q, dir)
      ensures !Within(q, b)
    {
      if Within(q, b) {
        BackupUnrelated(dir, GetVersion(fs, dir).value, q);
      }
    }
  }

  /** When the backup path is already taken by something the rename cannot
      replace, the ignored `os.Rename` error leaves the installation where it
      is, yet the backup is reported as made: extraction then overwrites the
      installation in place. */
  lemma BackupRefused(fs: FS, dir: Path)
    requires Exists(fs, dir) && !CanBackUp(fs, dir)
    ensures BackupPreviousVersion(fs, dir) == Effect(BackupDir(dir, GetVersion(fs, dir).value), None, fs)
    ensures ReadyForExtraction(fs, dir) == fs
  {
  }

  /** The filesystem once the previous version is moved aside and `dir` is
      recreated when `os.Open` finds it missing; a failure of that
      `os.MkdirAll` is ignored. */
  function ReadyForExtraction(fs: FS, dir: Path): FS {
    var moved := BackupPreviousVersion(fs, dir).fs;
    if OpenNotExist(moved, dir) then MkdirAll(moved, dir).fs else moved
  }

  /** The entries the archive reader yields once the directory is ready. */
  function EntriesRead(fs: FS, filePath: Path, dir: Path, decode: Decoder): Archive {
    OpenArchive(ReadyForExtraction(fs, dir), filePath, decode).value
  }

  /** Everything up to the end of the entry loop: its value is the loop's
      marker flag, its error the reader's or the loop's. */
  function Extracted(fs: FS, filePath: Path, dir: Path, decode: Decoder): Effect<bool> {
    var ready := ReadyForExtraction(fs, dir);
    var archive := OpenArchive(ready, filePath, decode);
    if archive.err.Some? then Effect(false, archive.err, ready)
    else ExtractAll(ready, dir, archive.value, Ignore, false)
  }

  /** `vtManager.Unzip`. It fails exactly when reading the archive or an
      entry fails, or, for an archive without its own "version.txt", when
      writing the marker fails; that first error is returned. Moving the
      old installation aside, recreating the directory and removing the
      backup never fail the call. A success that wrote the marker leaves it
      reading as `version`. */
  function Unzip(fs: FS, filePath: Path, dir: Path, version: string, decode: Decoder): (r: Effect<()>)
    ensures var x := Extracted(fs, filePath, dir, decode);
      && (x.err.Some? ==> r.err == x.err)
      && (x.err.None? && x.value ==> r.err.None?)
      && (x.err.None? && !x.value ==> r.err == WriteFile(x.fs, MarkerPath(dir), version).err)
    ensures !Extracted(fs, filePath, dir, decode).value && r.err.None? ==>
      MarkerPath(dir) in r.fs.files && r.fs.files[MarkerPath(dir)] == version
  {
    MarkerOutsideBackup(dir, GetVersion(fs, dir).value);
    var backup := BackupPreviousVersion(fs, dir);
    var extracted := Extracted(fs, filePath, dir, decode);
    if extracted.err.Some? then Effect((), extracted.err, extracted.fs)
    else
      var marked :=
        if extracted.value then Effect((), None, extracted.fs)
        else WriteFile(extracted.fs, MarkerPath(dir), version);
      if marked.err.Some? then marked
      else if backup.err.None? then Effect((), None, RemoveAll(marked.fs, backup.value))
      else marked
  }

  /** From the moved-aside state to the end of `Unzip` before the backup is
      removed, only prefixes of `dir` and paths inside it change. */
  lemma AfterBackupStaysInside(fs: FS, filePath: Path, dir: Path, version: string, decode: Decoder)
    ensures var moved := BackupPreviousVersion(fs, dir).fs;
      var extracted := Extracted(fs, filePath, dir, decode);
      && SameOutside(moved, extracted.fs, dir)
      && SameOutside(moved, WriteFile(extracted.fs, MarkerPath(dir), version).fs, dir)
  {
    var moved := BackupPreviousVersion(fs, dir).fs;
    var ready := ReadyForExtraction(fs, dir);
    MkdirAllAlong(moved, dir, dir);
    assert SameOutside(moved, ready, dir);
    var archive := OpenArchive(ready, filePath, decode);
    var extracted := Extracted(fs, filePath, dir, decode);
    if archive.err.None? {
      ExtractAllStaysInside(ready, dir, archive.value, Ignore, false);
    }
    assert SameOutside(moved, extracted.fs, dir);
    WriteFileAlong(extracted.fs, MarkerPath(dir), version);
    AlongJoinIsInside(extracted.fs, WriteFile(extracted.fs, MarkerPath(dir), version).fs, dir, MarkerName);
  }

  /** When the previous installation could be moved aside, every error
      `Unzip` returns leaves it intact at its backup path. */
  lemma UnzipKeepsBackupOnFailure(fs: FS, filePath: Path, dir: Path, version: string, decode: Decoder)
    requires CanBackUp(fs, dir)
    requires Unzip(fs, filePath, dir, version, decode).err.Some?
    ensures Moved(fs, dir, Unzip(fs, filePath, dir, version, decode).fs, BackupDir(dir, GetVersion(fs, dir).value))
  {
    var v := GetVersion(fs, dir).value;
    var b := BackupDir(dir, v);
    var moved := BackupPreviousVersion(fs, dir).fs;
    var r := Unzip(fs, filePath, dir, version, decode);
    BackupMovesTree(fs, dir);
    AfterBackupStaysInside(fs, filePath, dir, version, decode);
    assert SameOutside(moved, r.fs, dir);
    forall s | Subpath(s)
      ensures Corresponds(fs, dir + s, r.fs, b + s)
    {
      WithinBySubpath(b, s);
      BackupUnrelated(dir, v, b + s);
      assert SameAt(moved, r.fs, b + s);
    }
  }

  /** A successful `Unzip` over an existing installation deletes its backup. */
  lemma UnzipRemovesBackupOnSuccess(fs: FS, filePath: Path, dir: Path, version: string, decode: Decoder)
    requires Exists(fs, dir)
    requires Unzip(fs, filePath, dir, version, decode).err.None?
    ensures var b := BackupDir(dir, GetVersion(fs, dir).value);
      forall q :: Within(q, b) ==> !Exists(Unzip(fs, filePath, dir, version, decode).fs, q)
  {
  }

  /** `Unzip` changes nothing outside `dir` and, when there was a previous
      installation, its backup path; in particular, with no previous
      installation it deletes nothing. */
  lemma UnzipFrame(fs: FS, filePath: Path, dir: Path, version: string, decode: Decoder)
    ensures var r := Unzip(fs, filePath, dir, version, decode);
      var b := BackupDir(dir, GetVersion(fs, dir).value);
      forall q :: Unrelated(q, dir) && (Exists(fs, dir) ==> !Within(q, b)) ==> SameAt(fs, r.fs, q)
  {
    var b := BackupDir(dir, GetVersion(fs, dir).value);
    var moved := BackupPreviousVersion(fs, dir).fs;
    var r := Unzip(fs, filePath, dir, version, decode);
    AfterBackupStaysInside(fs, filePath, dir, version, decode);
    if CanBackUp(fs, dir) {
      BackupMovesTree(fs, dir);
    }
    forall q | Unrelated(q, dir) && (Exists(fs, dir) ==> !Within(q, b))
      ensures SameAt(fs, r.fs, q)
    {
      assert !Within(q, dir);
      assert SameAt(fs, moved, q);
    }
  }

  /** When no entry strips to "version.txt", a successful `Unzip` leaves a
      marker that reads back as exactly the version it was given. */
  lemma UnzipWritesMarker(fs: FS, filePath: Path, dir: Path, version: string, decode: Decoder)
    requires Unzip(fs, filePath, dir, version, decode).err.None?
    requires var es := EntriesRead(fs, filePath, dir, decode);
      forall i :: 0 <= i < |es| ==> Stripped(es[i]) != MarkerName
    ensures GetVersion(Unzip(fs, filePath, dir, version, decode).fs, dir) == Returned(version, None)
  {
    var ready := ReadyForExtraction(fs, dir);
    var es := EntriesRead(fs, filePath, dir, decode);
    ExtractAllSeesMarker(ready, dir, es, Ignore, false);
    var m := MarkerPath(dir);
    var v := GetVersion(fs, dir).value;
    if Within(m, BackupDir(dir, v)) {
      BackupUnrelated(dir, v, m);
    }
  }

  /** When the archive has its own "version.txt", `Unzip` writes no marker:
      the last entry writing that path supplies what the marker reads. */
  lemma UnzipKeepsArchiveMarker(fs: FS, filePath: Path, dir: Path, version: string, decode: Decoder, i: nat)
    requires Unzip(fs, filePath, dir, version, decode).err.None?
    requires var es := EntriesRead(fs, filePath, dir, decode);
      && i < |es| && Stripped(es[i]) == MarkerName && !es[i].isDir
      && forall j :: i < j < |es| ==> !WritesFile(dir, es[j], MarkerPath(dir))
    ensures var es := EntriesRead(fs, filePath, dir, decode);
      es[i].data.Complete?
      && GetVersion(Unzip(fs, filePath, dir, version, decode).fs, dir) == Returned(es[i].data.content, None)
  {
    var ready := ReadyForExtraction(fs, dir);
    var es := EntriesRead(fs, filePath, dir, decode);
    ExtractAllSeesMarker(ready, dir, es, Ignore, false);
    LastWriteWins(ready, dir, es, Ignore, false, i);
    var m := MarkerPath(dir);
    var v := GetVersion(fs, dir).value;
    if Within(m, BackupDir(dir, v)) {
      BackupUnrelated(dir, v, m);
    }
  }

  /** A successful `Unzip` leaves every file entry that no later entry
      overwrites at its target inside `dir`, holding exactly its bytes:
      neither the marker write nor the backup removal disturbs it. */
  lemma UnzipExtractsFiles(fs: FS, filePath: Path, dir: Path, version: string, decode: Decoder, i: nat)
    requires Unzip(fs, filePath, dir, version, decode).err.None?
    requires var es := EntriesRead(fs, filePath, dir, decode);
      && i < |es| && Stripped(es[i]) != "" && !es[i].isDir
      && forall j :: i < j < |es| ==> !WritesFile(dir, es[j], Target(dir, es[i]))
    ensures var es := EntriesRead(fs, filePath, dir, decode);
      var r := Unzip(fs, filePath, dir, version, decode);
      && es[i].data.Complete?
      && Target(dir, es[i]) in r.fs.files
      && r.fs.files[Target(dir, es[i])] == es[i].data.content
  {
    var ready := ReadyForExtraction(fs, dir);
    var es := EntriesRead(fs, filePath, dir, decode);
    var t := Target(dir, es[i]);
    LastWriteWins(ready, dir, es, Ignore, false, i);
    ExtractAllSeesMarker(ready, dir, es, Ignore, false);
    if t == MarkerPath(dir) {
      JoinNameInjective(dir, Stripped(es[i]), MarkerName);
    }
    var v := GetVersion(fs, dir).value;
    if Within(t, BackupDir(dir, v)) {
      BackupUnrelated(dir, v, t);
    }
  }

  /** `Unzip` never makes a path both a file and a directory. */
  lemma UnzipKeepsDisjoint(fs: FS, filePath: Path, dir: Path, version: string, decode: Decoder)
    requires Disjoint(fs)
    ensures Disjoint(Unzip(fs, filePath, dir, version, decode).fs)
  {
    var backup := BackupPreviousVersion(fs, dir);
    if Exists(fs, dir) {
      RenameKeepsDisjoint(fs, dir, backup.value);
    }
    MkdirAllKeepsDisjoint(backup.fs, dir);
    var ready := ReadyForExtraction(fs, dir);
    var archive := OpenArchive(ready, filePath, decode);
    ExtractAllKeepsDisjoint(ready, dir, archive.value, Ignore, false);
    var extracted := Extracted(fs, filePath, dir, decode);
    WriteFileKeepsDisjoint(extracted.fs, MarkerPath(dir), version);
    RemoveAllKeepsDisjoint(WriteFile(extracted.fs, MarkerPath(dir), version).fs, backup.value);
    RemoveAllKeepsDisjoint(extracted.fs, backup.value);
  }
}
