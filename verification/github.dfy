/** The release host's data shapes and its client, reduced to an oracle. */
module GitHub {
  import opened Errors

  /** One downloadable file attached to a release. */
  datatype Asset = Asset(name: string, downloadUrl: string)

  /** One upstream release: its tag (conventionally "v"-prefixed) and assets. */
  datatype Release = Release(tagName: string, assets: seq<Asset>)

  /** `github.Client`: the list of all releases, as the host orders them, and
      the lookup of one release by its exact tag; either may fail. */
  datatype Client = Client(
    releases: Returned<seq<Release>>,
    releaseByTag: string -> Returned<Release>)
}
