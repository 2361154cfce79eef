/** The part of Go's `os` and `path/filepath` packages the installer uses,
    over an immutable filesystem value. Paths are plain strings; joining is
    concatenation with a separator and no cleaning. */
module FileSystem {
  import opened Wrappers
  import opened Errors

  type Path = string

  /** The bytes of a file, one character per byte. */
  type Content = string

  /** A filesystem: the regular files with their contents, and the directories. */
  datatype FS = FS(files: map<Path, Content>, dirs: set<Path>)

  /** The result of an operation that may change the filesystem: a Go
      `(T, error)` pair together with the filesystem afterwards. */
  datatype Effect<+T> = Effect(value: T, err: Option<Error>, fs: FS)

  /** A stream of bytes that may fail: opening it (`http.Get`, `zip.File.Open`)
      or copying it out (`io.Copy`, which leaves the bytes copied so far). */
  datatype Source =
    | OpenFailed(openErr: Error)
    | CopyFailed(partial: Content, copyErr: Error)
    | Complete(content: Content)

  /** `os.Stat(p)` succeeds. */
  predicate Exists(fs: FS, p: Path) {
    p in fs.files || p in fs.dirs
  }

  /** `filepath.Join(dir, name)`, without the cleaning step. */
  function Join(dir: Path, name: string): Path {
    dir + "/" + name
  }

  /** `p` is `d` itself or lies inside the tree rooted at `d`. */
  predicate Within(p: Path, d: Path) {
    d <= p && (|p| == |d| || p[|d|] == '/')
  }

  /** `s` is what follows a directory name in a path within it. */
  predicate Subpath(s: string) {
    s == "" || s[0] == '/'
  }

  /** `p`, lying within `src`, moved to the same place within `dst`. */
  function Rebase(p: Path, src: Path, dst: Path): Path
    requires src <= p
  {
    dst + p[|src|..]
  }

  lemma RebaseInjective(src: Path, dst: Path)
    ensures forall p1, p2 :: src <= p1 && src <= p2 && Rebase(p1, src, dst) == Rebase(p2, src, dst) ==> p1 == p2
  {
    forall p1, p2 | src <= p1 && src <= p2 && Rebase(p1, src, dst) == Rebase(p2, src, dst)
      ensures p1 == p2
    {
      assert p1[|src|..] == Rebase(p1, src, dst)[|dst|..];
      assert p2[|src|..] == Rebase(p2, src, dst)[|dst|..];
      assert p1 == p1[..|src|] + p1[|src|..];
      assert p2 == p2[..|src|] + p2[|src|..];
    }
  }

  /** The directories `os.MkdirAll(p)` makes sure exist: every proper
      ancestor named by a separator in `p`, and `p` itself. */
  function Ancestry(p: Path): (s: set<Path>)
    ensures p in s
    ensures forall a :: a in s ==> a <= p
  {
    (set i | 0 < i < |p| && p[i] == '/' :: p[..i]) + {p}
  }

  /** `filepath.Dir(p)`: everything before the last separator, "/" when
      that separator is the leading one, or "." when there is none. The
      result is not cleaned, so a doubled separator before the last element
      stays in it. */
  function Dir(p: Path): (d: Path)
    ensures '/' in p ==> d <= p
  {
    var before := BeforeLastSeparator(p);
    if before == "" then "/" else before
  }

  /** Everything before the last separator, or "." when there is none. */
  function BeforeLastSeparator(p: Path): (d: Path)
    ensures '/' in p ==> d <= p
    ensures '/' in p && d == "" ==> p[0] == '/'
  {
    if |p| == 0 then "."
    else if p[|p| - 1] == '/' then p[..|p| - 1]
    else
      assert '/' in p ==> '/' in p[..|p| - 1] by {
        if '/' in p {
          var i :| 0 <= i < |p| && p[i] == '/';
          assert p[..|p| - 1][i] == '/';
        }
      }
      BeforeLastSeparator(p[..|p| - 1])
  }

  /** `os.Open(p)` fails with an error that `os.IsNotExist` accepts: nothing
      is at `p`, and no ancestor named in `p` is a regular file (that would
      be "not a directory" instead). */
  predicate OpenNotExist(fs: FS, p: Path) {
    !Exists(fs, p) && Ancestry(p) !! fs.files.Keys
  }

  /** `os.MkdirAll(p, perm)`: fails, creating nothing, when `p` or one of its
      ancestors is a regular file. */
  function MkdirAll(fs: FS, p: Path): Effect<()> {
    if Ancestry(p) !! fs.files.Keys then Effect((), None, fs.(dirs := fs.dirs + Ancestry(p)))
    else Effect((), Some(NotDirectory(p)), fs)
  }

  /** `os.OpenFile(p, O_WRONLY|O_CREATE|O_TRUNC, mode)` and `os.Create(p)`:
      leaves an empty file at `p`. */
  function CreateFile(fs: FS, p: Path): Effect<()> {
    if p in fs.dirs then Effect((), Some(IsDirectory(p)), fs)
    else if Dir(p) !in fs.dirs then Effect((), Some(NotExist(p)), fs)
    else Effect((), None, fs.(files := fs.files[p := ""]))
  }

  /** Copies `src` into the freshly created file `p`. */
  function Fill(fs: FS, p: Path, src: Source): Effect<()> {
    match src
    case OpenFailed(e) => Effect((), Some(e), fs)
    case CopyFailed(partial, e) => Effect((), Some(e), fs.(files := fs.files[p := partial]))
    case Complete(c) => Effect((), None, fs.(files := fs.files[p := c]))
  }

  /** `os.WriteFile(p, c, perm)`. */
  function WriteFile(fs: FS, p: Path, c: Content): Effect<()> {
    var created := CreateFile(fs, p);
    if created.err.Some? then created else Fill(created.fs, p, Complete(c))
  }

  /** Go's `os.Rename` accepts moving an existing `src` to `dst`: `dst` is
      not inside `src`, and it is either absent or a file replaced by a
      file. Any directory already at `dst`, even an empty one, is refused
      before `rename(2)` is reached; `rename(2)` itself refuses a directory
      moved onto a file. */
  predicate RenameSucceeds(fs: FS, src: Path, dst: Path) {
    && !Within(dst, src)
    && (!Exists(fs, dst) || (src in fs.files && dst in fs.files))
  }

  /** `os.Rename(src, dst)`: when the system accepts it, the tree at `src`
      replaces whatever was at `dst`; otherwise nothing changes. */
  function Rename(fs: FS, src: Path, dst: Path): FS {
    if !RenameSucceeds(fs, src, dst) then fs
    else
      RebaseInjective(src, dst);
      FS(
        (map p | p in fs.files && !Within(p, src) && !Within(p, dst) :: fs.files[p])
        + (map p | p in fs.files && Within(p, src) :: Rebase(p, src, dst) := fs.files[p]),
        (set d | d in fs.dirs && !Within(d, src) && !Within(d, dst))
        + (set d | d in fs.dirs && Within(d, src) :: Rebase(d, src, dst)))
  }

  /** `os.RemoveAll(p)`, taken to succeed. */
  function RemoveAll(fs: FS, p: Path): FS {
    FS(map q | q in fs.files && !Within(q, p) :: fs.files[q],
       set d | d in fs.dirs && !Within(d, p))
  }

  /** No path is both a regular file and a directory. */
  predicate Disjoint(fs: FS) {
    fs.files.Keys !! fs.dirs
  }

  // ---- Comparing filesystems path by path ----

  /** Path `p` of `fs` and path `q` of `fs'` hold the same thing. */
  ghost predicate Corresponds(fs: FS, p: Path, fs': FS, q: Path) {
    && (p in fs.files <==> q in fs'.files)
    && (p in fs.files ==> fs.files[p] == fs'.files[q])
    && (p in fs.dirs <==> q in fs'.dirs)
  }

  ghost predicate SameAt(fs: FS, fs': FS, q: Path) {
    Corresponds(fs, q, fs', q)
  }

  /** The tree at `src` in `fs` reappears, path for path, at `dst` in `fs'`. */
  ghost predicate Moved(fs: FS, src: Path, fs': FS, dst: Path) {
    forall s :: Subpath(s) ==> Corresponds(fs, src + s, fs', dst + s)
  }

  /** `fs'` differs from `fs` at most at prefixes of `p`. */
  ghost predicate ChangedOnlyAlong(fs: FS, fs': FS, p: Path) {
    forall q :: !(q <= p) ==> SameAt(fs, fs', q)
  }

  /** `q` is neither a prefix of `d` nor inside it: nothing done beneath `d`
      touches `q`. */
  predicate Unrelated(q: Path, d: Path) {
    !(q <= d) && !(d + "/" <= q)
  }

  ghost predicate SameOutside(fs: FS, fs': FS, d: Path) {
    forall q :: Unrelated(q, d) ==> SameAt(fs, fs', q)
  }

  // ---- Facts about paths ----

  lemma PrefixTransitive(a: Path, b: Path, c: Path)
    requires a <= b && b <= c
    ensures a <= c
  {
    assert c[..|b|][..|a|] == c[..|a|];
  }

  lemma WithinBySubpath(d: Path, s: string)
    requires Subpath(s)
    ensures Within(d + s, d) && (d + s)[|d|..] == s
  {
    assert (d + s)[..|d|] == d;
  }

  lemma SubpathOfWithin(p: Path, d: Path)
    requires Within(p, d)
    ensures Subpath(p[|d|..]) && p == d + p[|d|..]
  {
    assert p == p[..|d|] + p[|d|..];
  }

  /** Everything a join beneath `out` can name is a prefix of `out` or lies
      inside it. */
  lemma JoinRelated(out: Path, name: string, a: Path)
    requires a <= Join(out, name)
    ensures !Unrelated(a, out)
  {
    var p := Join(out, name);
    assert p[..|out|] == out;
    if |a| <= |out| {
      assert a == p[..|a|] == out[..|a|];
    } else {
      assert a[..|out| + 1] == p[..|out| + 1] == out + "/";
    }
  }

  lemma AlongJoinIsInside(fs: FS, fs': FS, out: Path, name: string)
    requires ChangedOnlyAlong(fs, fs', Join(out, name))
    ensures SameOutside(fs, fs', out)
  {
    forall q | Unrelated(q, out)
      ensures SameAt(fs, fs', q)
    {
      if q <= Join(out, name) {
        JoinRelated(out, name, q);
      }
    }
  }

  /** Distinct names joined onto one directory give distinct paths. */
  lemma JoinNameInjective(out: Path, a: string, b: string)
    requires Join(out, a) == Join(out, b)
    ensures a == b
  {
    assert Join(out, a)[|out| + 1..] == a;
    assert Join(out, b)[|out| + 1..] == b;
  }

  lemma DirOfJoin(out: Path, name: string)
    ensures Dir(Join(out, name)) <= Join(out, name)
  {
    assert Join(out, name)[|out|] == '/';
  }

  /** The tree `d + "-" + v` where a backup goes never meets the tree at `d`. */
  lemma BackupUnrelated(d: Path, v: string, q: Path)
    requires Within(q, d + "-" + v)
    ensures Unrelated(q, d)
  {
    var b := d + "-" + v;
    assert q[..|b|] == b;
    assert q[|d|] == b[|d|] == '-';
  }

  // ---- Frames of the primitive operations ----

  lemma MkdirAllAlong(fs: FS, x: Path, p: Path)
    requires x <= p
    ensures ChangedOnlyAlong(fs, MkdirAll(fs, x).fs, p)
  {
    forall q | !(q <= p)
      ensures SameAt(fs, MkdirAll(fs, x).fs, q)
    {
      if q in Ancestry(x) {
        PrefixTransitive(q, x, p);
      }
    }
  }

  lemma FillAlong(fs: FS, p: Path, src: Source)
    ensures ChangedOnlyAlong(fs, Fill(fs, p, src).fs, p)
  {
  }

  lemma WriteFileAlong(fs: FS, p: Path, c: Content)
    ensures ChangedOnlyAlong(fs, WriteFile(fs, p, c).fs, p)
  {
  }

  /** After an accepted `os.Rename(src, dst)` the old tree is found at
      `dst`, nothing is left at `src` (when the two trees are apart), and
      every other path is as it was. */
  lemma RenameMoves(fs: FS, src: Path, dst: Path)
    requires RenameSucceeds(fs, src, dst)
    ensures Moved(fs, src, Rename(fs, src, dst), dst)
    ensures forall q :: !Within(q, src) && !Within(q, dst) ==> SameAt(fs, Rename(fs, src, dst), q)
    ensures forall q :: Within(q, src) && !Within(q, dst) ==> !Exists(Rename(fs, src, dst), q)
  {
    var fs' := Rename(fs, src, dst);
    RebaseInjective(src, dst);
    forall s | Subpath(s)
      ensures Corresponds(fs, src + s, fs', dst + s)
    {
      var p, q := src + s, dst + s;
      WithinBySubpath(src, s);
      WithinBySubpath(dst, s);
      assert Rebase(p, src, dst) == q;
      if q in fs'.files {
        var p' :| p' in fs.files && Within(p', src) && Rebase(p', src, dst) == q;
        assert p' == p;
      }
      if q in fs'.dirs {
        var p' :| p' in fs.dirs && Within(p', src) && Rebase(p', src, dst) == q;
        assert p' == p;
      }
    }
    forall q | !Within(q, src) && !Within(q, dst)
      ensures SameAt(fs, fs', q)
    {
      forall p | Within(p, src)
        ensures Rebase(p, src, dst) != q
      {
        SubpathOfWithin(p, src);
        WithinBySubpath(dst, p[|src|..]);
      }
    }
    forall q | Within(q, src) && !Within(q, dst)
      ensures !Exists(fs', q)
    {
      forall p | Within(p, src)
        ensures Rebase(p, src, dst) != q
      {
        SubpathOfWithin(p, src);
        WithinBySubpath(dst, p[|src|..]);
      }
    }
  }

  /** `os.RemoveAll(p)` clears the tree at `p` and nothing else. */
  lemma RemoveAllClears(fs: FS, p: Path)
    ensures forall q :: Within(q, p) ==> !Exists(RemoveAll(fs, p), q)
    ensures forall q :: !Within(q, p) ==> SameAt(fs, RemoveAll(fs, p), q)
  {
  }

  // ---- The invariant that files and directories never share a path ----

  lemma MkdirAllKeepsDisjoint(fs: FS, p: Path)
    requires Disjoint(fs)
    ensures Disjoint(MkdirAll(fs, p).fs)
  {
  }

  /** Creating a file and filling it keeps files and directories apart. */
  lemma CreateAndFillKeepDisjoint(fs: FS, p: Path, src: Source)
    requires Disjoint(fs)
    ensures Disjoint(CreateFile(fs, p).fs)
    ensures CreateFile(fs, p).err.None? ==> Disjoint(Fill(CreateFile(fs, p).fs, p, src).fs)
  {
  }

  lemma WriteFileKeepsDisjoint(fs: FS, p: Path, c: Content)
    requires Disjoint(fs)
    ensures Disjoint(WriteFile(fs, p, c).fs)
  {
  }

  lemma RenameKeepsDisjoint(fs: FS, src: Path, dst: Path)
    requires Disjoint(fs)
    ensures Disjoint(Rename(fs, src, dst))
  {
    var fs' := Rename(fs, src, dst);
    if RenameSucceeds(fs, src, dst) {
      RebaseInjective(src, dst);
      forall q | q in fs'.files
        ensures q !in fs'.dirs
      {
        if q in fs.files && !Within(q, src) && !Within(q, dst) {
          forall d | d in fs.dirs && Within(d, src)
            ensures Rebase(d, src, dst) != q
          {
            SubpathOfWithin(d, src);
            WithinBySubpath(dst, d[|src|..]);
          }
        } else {
          var p :| p in fs.files && Within(p, src) && Rebase(p, src, dst) == q;
          SubpathOfWithin(p, src);
          WithinBySubpath(dst, p[|src|..]);
        }
      }
    }
  }

  lemma RemoveAllKeepsDisjoint(fs: FS, p: Path)
    requires Disjoint(fs)
    ensures Disjoint(RemoveAll(fs, p))
  {
  }
}
