/** The expectations of the repository's own tests, restated over the model:
    the mock release host of the manager tests and the staging name of the
    downloader tests; and two concrete scenarios of the install directory. */
module Examples {
  import opened Wrappers
  import opened Errors
  import opened FileSystem
  import GitHub
  import opened Releases
  import opened Unzipper
  import opened Downloader
  import opened Manager
  import opened Install

  const Url113 := "http://localhost:9876/dw/vuetorrent-113.zip"
  const Url112 := "http://localhost:9876/dw/vuetorrent-112.zip"
  const Url111 := "http://localhost:9876/dw/vuetorrent-111.zip"
  const UrlByTag := "http://localhost:9876/dw/vuetorrent.zip"

  function Published(tag: string, url: string): GitHub.Release {
    GitHub.Release(tag, [GitHub.Asset(ArchiveAssetName, url)])
  }

  /** The tests' mock host: three releases, newest first, and a by-tag
      lookup that knows every tag but "v0.0.0". */
  function MockClient(): GitHub.Client {
    GitHub.Client(
      Returned([Published("v1.1.3", Url113), Published("v1.1.2", Url112), Published("v1.1.1", Url111)], None),
      (tag: string) =>
        if tag == "v0.0.0" then Returned(GitHub.Release("", []), Some(Remote("tag v0.0.0 not found")))
        else Returned(Published(tag, UrlByTag), None))
  }

  lemma AllReleasesInHostOrder()
    ensures GetAllReleases(MockClient()) == Returned(
      [VueTorrentRelease("1.1.3", Url113), VueTorrentRelease("1.1.2", Url112), VueTorrentRelease("1.1.1", Url111)],
      None)
  {
    var listed := MockClient().releases.value;
    var all := GetAllReleases(MockClient()).value;
    assert "v" <= "v1.1.3" && "v" <= "v1.1.2" && "v" <= "v1.1.1";
    assert all[0] == Convert(listed[0]) == VueTorrentRelease("1.1.3", Url113);
    assert all[1] == Convert(listed[1]) == VueTorrentRelease("1.1.2", Url112);
    assert all[2] == Convert(listed[2]) == VueTorrentRelease("1.1.1", Url111);
    assert |all| == 3;
    assert all == [VueTorrentRelease("1.1.3", Url113), VueTorrentRelease("1.1.2", Url112), VueTorrentRelease("1.1.1", Url111)];
    assert GetAllReleases(MockClient()).err == None;
  }

  lemma LatestIsFirstListed()
    ensures GetLatestVuetorrentRelease(MockClient()) == Returned(VueTorrentRelease("1.1.3", Url113), None)
  {
    assert "v" <= "v1.1.3";
  }

  /** The selector cases of the manager tests. */
  lemma SelectorCases()
    ensures Resolve(MockClient(), "1.1.1") == Returned(VueTorrentRelease("1.1.1", UrlByTag), None)
    ensures Resolve(MockClient(), "0.0.0") == Returned(ZeroRelease, Some(Remote("tag v0.0.0 not found")))
    ensures Resolve(MockClient(), "") == Returned(VueTorrentRelease("1.1.3", Url113), None)
  {
    assert "v"[0] != "1.1.1"[0] && "v"[0] != "0.0.0"[0];
    assert MakeTagName("1.1.1") == "v1.1.1";
    assert MakeTagName("0.0.0") == "v0.0.0";
    assert "v" <= "v1.1.1" && "v" <= "v1.1.3";
  }

  lemma StagingFileName()
    ensures StagingName("1.2") == "vuetorrent-1.2.zip"
    ensures StagingPath("/tmp", "1.2") == "/tmp/vuetorrent-1.2.zip"
  {
  }

  /** An output path beneath a regular file: `os.Open` reports "not a
      directory" rather than "does not exist", so no directory is created,
      and an archive without entries still unzips without error. */
  lemma OutputBehindFileIsNotCreated()
    ensures var fs := FS(map["/f" := "", "/a.zip" := "PK"], {"/"});
      Unzipper.Unzip(fs, "/a.zip", "/f/out", (c: Content) => Some([])) == Effect((), None, fs)
  {
    var fs := FS(map["/f" := "", "/a.zip" := "PK"], {"/"});
    assert "/f/out"[2] == '/' && "/f/out"[..2] == "/f";
    assert "/f" in Ancestry("/f/out");
    assert !OpenNotExist(fs, "/f/out");
  }

  /** An empty directory already at the backup path: Go's `os.Rename`
      refuses any existing directory as its destination, so the backup is
      reported as made while the installation has not moved. */
  lemma EmptyBackupDirRefusesRename()
    ensures var fs := FS(map["/opt/vt/version.txt" := "1.0"], {"/opt", "/opt/vt", "/opt/vt-1.0"});
      && !CanBackUp(fs, "/opt/vt")
      && BackupPreviousVersion(fs, "/opt/vt") == Effect("/opt/vt-1.0", None, fs)
  {
    var fs := FS(map["/opt/vt/version.txt" := "1.0"], {"/opt", "/opt/vt", "/opt/vt-1.0"});
    assert MarkerPath("/opt/vt") == "/opt/vt/version.txt";
    assert GetVersion(fs, "/opt/vt").value == "1.0";
    assert BackupDir("/opt/vt", "1.0") == "/opt/vt-1.0";
    assert "/opt/vt-1.0" in fs.dirs;
  }
}
