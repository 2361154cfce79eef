/** Turning upstream releases into installable VueTorrent releases, and
    the three ways of asking the host for them. */
module Releases {
  import opened Wrappers
  import opened Errors
  import opened Strings
  import GitHub

  /** A release as the installer sees it: the version without its "v", and
      the archive's URL ("" when the release has no such asset). */
  datatype VueTorrentRelease = VueTorrentRelease(version: string, downloadUrl: string)

  /** Go's zero `VueTorrentRelease{}`, returned beside every error. */
  const ZeroRelease := VueTorrentRelease("", "")

  /** The asset name that identifies the packaged web UI. */
  const ArchiveAssetName := "vuetorrent.zip"

  /** Asset `i` is the first one carrying the archive's name. */
  ghost predicate IsFirstArchive(assets: seq<GitHub.Asset>, i: int) {
    && 0 <= i < |assets|
    && assets[i].name == ArchiveAssetName
    && forall j :: 0 <= j < i ==> assets[j].name != ArchiveAssetName
  }

  /** The URL the conversion takes from a release's assets. */
  function ArchiveUrl(assets: seq<GitHub.Asset>): (url: string)
    ensures forall i :: IsFirstArchive(assets, i) ==> url == assets[i].downloadUrl
    ensures (forall i :: 0 <= i < |assets| ==> assets[i].name != ArchiveAssetName) ==> url == ""
  {
    if |assets| == 0 then ""
    else if assets[0].name == ArchiveAssetName then assets[0].downloadUrl
    else
      assert forall i :: IsFirstArchive(assets, i) ==> IsFirstArchive(assets[1..], i - 1);
      ArchiveUrl(assets[1..])
  }

  /** `convertToVuetorrentRelease`. */
  function Convert(r: GitHub.Release): (v: VueTorrentRelease)
    ensures "v" <= r.tagName ==> "v" + v.version == r.tagName
    ensures !("v" <= r.tagName) ==> v.version == r.tagName
    ensures forall i :: IsFirstArchive(r.assets, i) ==> v.downloadUrl == r.assets[i].downloadUrl
    ensures (forall i :: 0 <= i < |r.assets| ==> r.assets[i].name != ArchiveAssetName) ==> v.downloadUrl == ""
  {
    VueTorrentRelease(CutPrefix(r.tagName, "v"), ArchiveUrl(r.assets))
  }

  /** `MakeTagName`: the tag under which a version is published. */
  function MakeTagName(version: string): (tag: string)
    ensures "v" <= tag
  {
    if "v" <= version then version else "v" + version
  }

  /** A version given without its "v" survives the trip to a tag and back
      through the conversion's prefix removal. */
  lemma TagNameRoundTrip(version: string)
    requires !("v" <= version)
    ensures CutPrefix(MakeTagName(version), "v") == version
  {
    CutPrefixOfConcat("v", version);
  }

  /** A tag already carrying its "v" is left alone, so tagging twice is
      tagging once. */
  lemma TagNameIdempotent(version: string)
    ensures "v" <= version ==> MakeTagName(version) == version
    ensures MakeTagName(MakeTagName(version)) == MakeTagName(version)
  {
  }

  /** `GetVuetorrentRelease`: look the tag up and convert it; a lookup error
      comes back unchanged beside the zero release. */
  function GetVuetorrentRelease(client: GitHub.Client, tag: string): (r: Returned<VueTorrentRelease>)
    ensures r.err == client.releaseByTag(tag).err
    ensures r.err.Some? ==> r.value == ZeroRelease
    ensures r.err.None? ==> r.value == Convert(client.releaseByTag(tag).value)
  {
    var found := client.releaseByTag(tag);
    if found.err.Some? then Returned(ZeroRelease, found.err)
    else Returned(Convert(found.value), None)
  }

  /** `GetLatestVuetorrentRelease`: the host's first release, unsorted. The
      empty list, where Go indexes out of range and panics, is an explicit
      error here. */
  function GetLatestVuetorrentRelease(client: GitHub.Client): (r: Returned<VueTorrentRelease>)
    ensures client.releases.err.Some? ==> r == Returned(ZeroRelease, client.releases.err)
    ensures client.releases.err.None? && |client.releases.value| == 0
      ==> r == Returned(ZeroRelease, Some(EmptyReleaseList))
    ensures client.releases.err.None? && |client.releases.value| > 0
      ==> r == Returned(Convert(client.releases.value[0]), None)
  {
    var listed := client.releases;
    if listed.err.Some? then Returned(ZeroRelease, listed.err)
    else if |listed.value| == 0 then Returned(ZeroRelease, Some(EmptyReleaseList))
    else Returned(Convert(listed.value[0]), None)
  }

  /** The conversion of every release, in the host's order. */
  function ConvertAll(rs: seq<GitHub.Release>): (vs: seq<VueTorrentRelease>)
    ensures |vs| == |rs|
    ensures forall i :: 0 <= i < |rs| ==> vs[i] == Convert(rs[i])
  {
    if |rs| == 0 then [] else [Convert(rs[0])] + ConvertAll(rs[1..])
  }

  /** `GetAllReleases`: every release converted, or the empty list beside
      the client's error. */
  function GetAllReleases(client: GitHub.Client): (r: Returned<seq<VueTorrentRelease>>)
    ensures r.err == client.releases.err
    ensures r.err.Some? ==> r.value == []
    ensures r.err.None? ==> |r.value| == |client.releases.value|
    ensures r.err.None? ==> forall i :: 0 <= i < |r.value| ==> r.value[i] == Convert(client.releases.value[i])
  {
    var listed := client.releases;
    if listed.err.Some? then Returned([], listed.err)
    else Returned(ConvertAll(listed.value), None)
  }

  /** The latest release is the first of all releases, and both report the
      same client error. */
  lemma LatestIsFirstOfAll(client: GitHub.Client)
    ensures var all := GetAllReleases(client);
      var latest := GetLatestVuetorrentRelease(client);
      && (all.err.Some? ==> latest.err == all.err)
      && (all.err.None? && |all.value| > 0 ==> latest == Returned(all.value[0], None))
      && (all.err.None? && |all.value| == 0 ==> latest.err == Some(EmptyReleaseList))
  {
  }
}
