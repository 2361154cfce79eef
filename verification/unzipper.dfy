/** `DefaultUnzipper`: extracting a release archive into a directory. The
    entry loop is shared with the manager's own extraction, which differs
    only in ignoring failures to create directories. */
module Unzipper {
  import opened Wrappers
  import opened Errors
  import opened Strings
  import opened FileSystem

  /** One archive member: its name, whether it is a directory, and its bytes. */
  datatype Entry = Entry(name: string, isDir: bool, data: Source)

  type Archive = seq<Entry>

  /** The reading of an archive file: its entries, or `None` when the bytes
      are not a zip container. */
  type Decoder = Content -> Option<Archive>

  /** The top-level directory every release archive wraps its files in. */
  const TopDir := "vuetorrent/"

  /** The marker file recording the installed version. */
  const MarkerName := "version.txt"

  /** What a failed `os.MkdirAll` for a directory entry does to the loop. */
  datatype DirFailure = Propagate | Ignore

  /** The entry's name with one leading "vuetorrent/" removed. */
  function Stripped(e: Entry): string {
    CutPrefix(e.name, TopDir)
  }

  /** Where the entry is written beneath `out`. */
  function Target(out: Path, e: Entry): Path {
    Join(out, Stripped(e))
  }

  /** The entry produces a regular file at `q`. */
  predicate WritesFile(out: Path, e: Entry, q: Path) {
    Stripped(e) != "" && !e.isDir && Target(out, e) == q
  }

  /** `zip.OpenReader(filePath)`. */
  function OpenArchive(fs: FS, filePath: Path, decode: Decoder): Returned<Archive> {
    if filePath in fs.dirs then Returned([], Some(IsDirectory(filePath)))
    else if filePath !in fs.files then Returned([], Some(NotExist(filePath)))
    else match decode(fs.files[filePath])
      case None => Returned([], Some(NotZip(filePath)))
      case Some(entries) => Returned(entries, None)
  }

  /** One pass of the loop body for an entry whose stripped name is not empty:
      a directory is created; a file gets its parent directories, is created
      or truncated, and receives the entry's bytes. */
  function ExtractEntry(fs: FS, out: Path, e: Entry, onDirFailure: DirFailure): (r: Effect<()>)
    ensures e.isDir ==> r.fs.files == fs.files
    ensures e.isDir && onDirFailure == Ignore ==> r.err.None?
    ensures e.isDir && onDirFailure == Propagate && r.err.None? ==> Target(out, e) in r.fs.dirs
    ensures !e.isDir && r.err.None? ==>
      e.data.Complete? && r.fs.files == fs.files[Target(out, e) := e.data.content]
    ensures fs.dirs <= r.fs.dirs && fs.files.Keys <= r.fs.files.Keys
  {
    var p := Target(out, e);
    if e.isDir then
      var made := MkdirAll(fs, p);
      if onDirFailure == Ignore then Effect((), None, made.fs) else made
    else
      var parent := MkdirAll(fs, Dir(p));
      if parent.err.Some? then parent
      else
        var created := CreateFile(parent.fs, p);
        if created.err.Some? then created
        else Fill(created.fs, p, e.data)
  }

  /** The entry loop, in archive order, stopping at the first error. `seen`
      is the loop's flag recording whether an entry stripped to the marker's
      name; it is the returned value. The loop never removes a directory or
      a file, and never clears the flag. */
  function ExtractAll(fs: FS, out: Path, es: Archive, onDirFailure: DirFailure, seen: bool): (r: Effect<bool>)
    ensures fs.dirs <= r.fs.dirs && fs.files.Keys <= r.fs.files.Keys
    ensures seen ==> r.value
    decreases |es|
  {
    if |es| == 0 then Effect(seen, None, fs)
    else
      var name := Stripped(es[0]);
      if name == "" then ExtractAll(fs, out, es[1..], onDirFailure, seen)
      else
        var seen' := seen || name == MarkerName;
        var step := ExtractEntry(fs, out, es[0], onDirFailure);
        if step.err.Some? then Effect(seen', step.err, step.fs)
        else ExtractAll(step.fs, out, es[1..], onDirFailure, seen')
  }

  /** `DefaultUnzipper.Unzip`. The output directory is created only when
      `os.Open` reports that it does not exist; that `os.MkdirAll` then
      cannot fail for any reason the model has (permissions are not
      modelled). An output path beneath a regular file is left alone and
      extraction goes ahead. */
  function Unzip(fs: FS, filePath: Path, out: Path, decode: Decoder): (r: Effect<()>)
    ensures OpenNotExist(fs, out) ==> out in r.fs.dirs
    ensures !OpenNotExist(fs, out) && OpenArchive(fs, filePath, decode).err.Some?
      ==> r == Effect((), OpenArchive(fs, filePath, decode).err, fs)
    ensures r.err.None? && Ancestry(out) !! fs.files.Keys ==> Exists(r.fs, out)
  {
    var prepared := Prepared(fs, out);
    var archive := OpenArchive(prepared, filePath, decode);
    if archive.err.Some? then Effect((), archive.err, prepared)
    else
      var extracted := ExtractAll(prepared, out, archive.value, Propagate, false);
      Effect((), extracted.err, extracted.fs)
  }

  /** The filesystem `DefaultUnzipper.Unzip` extracts into: `out` is created
      first when `os.Open` reports it missing. */
  function Prepared(fs: FS, out: Path): FS {
    if OpenNotExist(fs, out) then MkdirAll(fs, out).fs else fs
  }

  /** A successful `DefaultUnzipper.Unzip` read the archive and created
      every entry but the skipped top-level one: each directory entry as a
      directory and each file entry as a file. */
  lemma UnzipMaterializes(fs: FS, filePath: Path, out: Path, decode: Decoder, i: nat)
    requires Unzip(fs, filePath, out, decode).err.None?
    ensures OpenArchive(Prepared(fs, out), filePath, decode).err.None?
    ensures var es := OpenArchive(Prepared(fs, out), filePath, decode).value;
      i < |es| && Stripped(es[i]) != "" ==>
        if es[i].isDir then Target(out, es[i]) in Unzip(fs, filePath, out, decode).fs.dirs
        else Target(out, es[i]) in Unzip(fs, filePath, out, decode).fs.files
  {
    var es := OpenArchive(Prepared(fs, out), filePath, decode).value;
    if i < |es| && Stripped(es[i]) != "" {
      StrictSuccessMaterializes(Prepared(fs, out), out, es, false, i);
    }
  }

  // ---- The entry loop ----

  /** Splitting the archive: the loop over `a + b` is the loop over `a`,
      and, only if that succeeded, the loop over `b` from where it left off. */
  lemma {:induction false} ExtractAllAppend(fs: FS, out: Path, a: Archive, b: Archive, onDirFailure: DirFailure, seen: bool)
    ensures ExtractAll(fs, out, a + b, onDirFailure, seen) ==
      var first := ExtractAll(fs, out, a, onDirFailure, seen);
      if first.err.Some? then first else ExtractAll(first.fs, out, b, onDirFailure, first.value)
    decreases |a|
  {
    if |a| == 0 {
      assert a + b == b;
    } else {
      assert (a + b)[0] == a[0];
      assert (a + b)[1..] == a[1..] + b;
      var name := Stripped(a[0]);
      if name == "" {
        ExtractAllAppend(fs, out, a[1..], b, onDirFailure, seen);
      } else {
        var step := ExtractEntry(fs, out, a[0], onDirFailure);
        if step.err.None? {
          ExtractAllAppend(step.fs, out, a[1..], b, onDirFailure, seen || name == MarkerName);
        }
      }
    }
  }

  /** An entry that strips to the empty name (the top-level directory
      itself) produces nothing. */
  lemma SkipsTopDir(fs: FS, out: Path, e: Entry, rest: Archive, onDirFailure: DirFailure, seen: bool)
    requires Stripped(e) == ""
    ensures ExtractAll(fs, out, [e] + rest, onDirFailure, seen) == ExtractAll(fs, out, rest, onDirFailure, seen)
  {
    assert ([e] + rest)[1..] == rest;
  }

  /** On success the flag records exactly whether some entry stripped to the
      marker's name. */
  lemma {:induction false} ExtractAllSeesMarker(fs: FS, out: Path, es: Archive, onDirFailure: DirFailure, seen: bool)
    requires ExtractAll(fs, out, es, onDirFailure, seen).err.None?
    ensures ExtractAll(fs, out, es, onDirFailure, seen).value
      <==> seen || exists i :: 0 <= i < |es| && Stripped(es[i]) == MarkerName
    decreases |es|
  {
    if |es| > 0 {
      var name := Stripped(es[0]);
      var seen' := if name == "" then seen else seen || name == MarkerName;
      var next := if name == "" then fs else ExtractEntry(fs, out, es[0], onDirFailure).fs;
      ExtractAllSeesMarker(next, out, es[1..], onDirFailure, seen');
      if exists i :: 0 <= i < |es| && Stripped(es[i]) == MarkerName {
        var i :| 0 <= i < |es| && Stripped(es[i]) == MarkerName;
        if i > 0 {
          assert es[1..][i - 1] == es[i];
        }
      }
      if exists i :: 0 <= i < |es[1..]| && Stripped(es[1..][i]) == MarkerName {
        var i :| 0 <= i < |es[1..]| && Stripped(es[1..][i]) == MarkerName;
        assert es[i + 1] == es[1..][i];
      }
    }
  }

  /** The loop touches nothing but prefixes of `out` and paths inside it. */
  lemma {:induction false} ExtractAllStaysInside(fs: FS, out: Path, es: Archive, onDirFailure: DirFailure, seen: bool)
    ensures SameOutside(fs, ExtractAll(fs, out, es, onDirFailure, seen).fs, out)
    decreases |es|
  {
    if |es| > 0 {
      var name := Stripped(es[0]);
      if name == "" {
        ExtractAllStaysInside(fs, out, es[1..], onDirFailure, seen);
      } else {
        var step := ExtractEntry(fs, out, es[0], onDirFailure);
        ExtractEntryAlong(fs, out, es[0], onDirFailure);
        AlongJoinIsInside(fs, step.fs, out, name);
        if step.err.None? {
          ExtractAllStaysInside(step.fs, out, es[1..], onDirFailure, seen || name == MarkerName);
        }
      }
    }
  }

  lemma ExtractEntryAlong(fs: FS, out: Path, e: Entry, onDirFailure: DirFailure)
    ensures ChangedOnlyAlong(fs, ExtractEntry(fs, out, e, onDirFailure).fs, Target(out, e))
  {
    var p := Target(out, e);
    if e.isDir {
      MkdirAllAlong(fs, p, p);
    } else {
      DirOfJoin(out, Stripped(e));
      MkdirAllAlong(fs, Dir(p), p);
      var parent := MkdirAll(fs, Dir(p));
      if parent.err.None? {
        var created := CreateFile(parent.fs, p);
        if created.err.None? {
          FillAlong(created.fs, p, e.data);
        }
      }
    }
  }

  /** A file's contents change only through entries that write it. */
  lemma {:induction false} ExtractAllFileFrame(fs: FS, out: Path, es: Archive, onDirFailure: DirFailure, seen: bool, q: Path)
    requires forall i :: 0 <= i < |es| ==> !WritesFile(out, es[i], q)
    ensures var r := ExtractAll(fs, out, es, onDirFailure, seen);
      (q in fs.files <==> q in r.fs.files) && (q in fs.files ==> r.fs.files[q] == fs.files[q])
    decreases |es|
  {
    if |es| > 0 {
      var name := Stripped(es[0]);
      assert forall i :: 0 <= i < |es[1..]| ==> !WritesFile(out, es[1..][i], q) by {
        forall i | 0 <= i < |es[1..]| ensures !WritesFile(out, es[1..][i], q) {
          assert es[1..][i] == es[i + 1];
        }
      }
      assert !WritesFile(out, es[0], q);
      if name == "" {
        ExtractAllFileFrame(fs, out, es[1..], onDirFailure, seen, q);
      } else {
        var step := ExtractEntry(fs, out, es[0], onDirFailure);
        if step.err.None? {
          ExtractAllFileFrame(step.fs, out, es[1..], onDirFailure, seen || name == MarkerName, q);
        }
      }
    }
  }

  /** On success, a file entry that no later entry overwrites leaves its
      bytes at its target: for duplicate paths the last entry wins. */
  lemma {:induction false} LastWriteWins(fs: FS, out: Path, es: Archive, onDirFailure: DirFailure, seen: bool, i: nat)
    requires ExtractAll(fs, out, es, onDirFailure, seen).err.None?
    requires i < |es| && Stripped(es[i]) != "" && !es[i].isDir
    requires forall j :: i < j < |es| ==> !WritesFile(out, es[j], Target(out, es[i]))
    ensures es[i].data.Complete?
    ensures var r := ExtractAll(fs, out, es, onDirFailure, seen);
      Target(out, es[i]) in r.fs.files && r.fs.files[Target(out, es[i])] == es[i].data.content
    decreases |es|
  {
    var name := Stripped(es[0]);
    var seen' := if name == "" then seen else seen || name == MarkerName;
    var next := if name == "" then fs else ExtractEntry(fs, out, es[0], onDirFailure).fs;
    assert ExtractAll(fs, out, es, onDirFailure, seen) == ExtractAll(next, out, es[1..], onDirFailure, seen');
    if i == 0 {
      var p := Target(out, es[0]);
      assert forall j :: 0 <= j < |es[1..]| ==> !WritesFile(out, es[1..][j], p) by {
        forall j | 0 <= j < |es[1..]| ensures !WritesFile(out, es[1..][j], p) {
          assert es[1..][j] == es[j + 1];
        }
      }
      ExtractAllFileFrame(next, out, es[1..], onDirFailure, seen', p);
    } else {
      assert forall j :: i - 1 < j < |es[1..]| ==> !WritesFile(out, es[1..][j], Target(out, es[1..][i - 1])) by {
        forall j | i - 1 < j < |es[1..]| ensures !WritesFile(out, es[1..][j], Target(out, es[1..][i - 1])) {
          assert es[1..][j] == es[j + 1];
        }
      }
      LastWriteWins(next, out, es[1..], onDirFailure, seen', i - 1);
    }
  }

  /** When directory failures propagate, a successful loop has created every
      directory entry and every file entry. */
  lemma {:induction false} StrictSuccessMaterializes(fs: FS, out: Path, es: Archive, seen: bool, i: nat)
    requires ExtractAll(fs, out, es, Propagate, seen).err.None?
    requires i < |es| && Stripped(es[i]) != ""
    ensures es[i].isDir ==> Target(out, es[i]) in ExtractAll(fs, out, es, Propagate, seen).fs.dirs
    ensures !es[i].isDir ==> Target(out, es[i]) in ExtractAll(fs, out, es, Propagate, seen).fs.files
    decreases |es|
  {
    var name := Stripped(es[0]);
    var seen' := if name == "" then seen else seen || name == MarkerName;
    var next := if name == "" then fs else ExtractEntry(fs, out, es[0], Propagate).fs;
    if i > 0 {
      assert es[1..][i - 1] == es[i];
      StrictSuccessMaterializes(next, out, es[1..], seen', i - 1);
    }
  }

  /** The loop never makes a path both a file and a directory. */
  lemma {:induction false} ExtractAllKeepsDisjoint(fs: FS, out: Path, es: Archive, onDirFailure: DirFailure, seen: bool)
    requires Disjoint(fs)
    ensures Disjoint(ExtractAll(fs, out, es, onDirFailure, seen).fs)
    decreases |es|
  {
    if |es| > 0 {
      var name := Stripped(es[0]);
      if name == "" {
        ExtractAllKeepsDisjoint(fs, out, es[1..], onDirFailure, seen);
      } else {
        var e := es[0];
        var p := Target(out, e);
        var step := ExtractEntry(fs, out, e, onDirFailure);
        if e.isDir {
          MkdirAllKeepsDisjoint(fs, p);
        } else {
          MkdirAllKeepsDisjoint(fs, Dir(p));
          var parent := MkdirAll(fs, Dir(p));
          CreateAndFillKeepDisjoint(parent.fs, p, e.data);
        }
        if step.err.None? {
          ExtractAllKeepsDisjoint(step.fs, out, es[1..], onDirFailure, seen || name == MarkerName);
        }
      }
    }
  }

  lemma UnzipKeepsDisjoint(fs: FS, filePath: Path, out: Path, decode: Decoder)
    requires Disjoint(fs)
    ensures Disjoint(Unzip(fs, filePath, out, decode).fs)
  {
    var prepared := Prepared(fs, out);
    MkdirAllKeepsDisjoint(fs, out);
    var archive := OpenArchive(prepared, filePath, decode);
    ExtractAllKeepsDisjoint(prepared, out, archive.value, Propagate, false);
  }
}
