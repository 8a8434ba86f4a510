/**
 Release selection of GithubUpdater: given the release list of a GitHub
 repository, already deserialized, decide whether an update exists and
 which downloadable asset to use.
 */
module GithubUpdater {
  import opened Wrappers
  import opened Text
  import opened Versions

  /** One file attached to a release. */
  datatype Asset = Asset(browserDownloadUrl: string)

  /**
   One release of the feed (RootObject). `assets` is None when the payload
   carried null. `draft` is part of the payload but is never consulted.
   */
  datatype GithubRelease = GithubRelease(
    tagName: string,
    prerelease: bool,
    draft: bool,
    body: string,
    assets: Option<seq<Asset>>)

  /** The stability channel of a package; a prerelease becomes a beta. */
  datatype PackageVersionClass = Release | Beta

  datatype PackageVersionInfo = PackageVersionInfo(
    classification: PackageVersionClass,
    name: string,
    sourceUrl: string,
    targetFilename: string,
    versionStr: string,
    requiredVersionStr: string,
    description: string)

  datatype CheckForUpdateResult = CheckForUpdateResult(
    isUpdateAvailable: bool,
    availableVersion: Option<string>,
    package: Option<PackageVersionInfo>)

  /**
   The shape every result has: an update implies a package, and a package
   comes with the available version it describes.
   */
  predicate Consistent(res: CheckForUpdateResult) {
    && (res.isUpdateAvailable ==> res.package.Some?)
    && (res.package.Some? <==> res.availableVersion.Some?)
    && (res.package.Some? ==> res.availableVersion.value == res.package.value.versionStr)
  }

  /** The result returned when no release qualifies. */
  const NoUpdate := CheckForUpdateResult(false, None, None)

  /** The application version every package built here declares it needs. */
  const RequiredVersionStr := "1.0.0"

  /** What the caller asks for: the installed version and the names to look for and copy. */
  datatype Criteria = Criteria(
    minVersion: Version,
    assetFilename: string,
    packageName: string,
    targetFilename: string)

  /** The asset list of a release, a null list read as empty. */
  function AssetsOf(r: GithubRelease): seq<Asset> {
    match r.assets
    case None => []
    case Some(a) => a
  }

  /** The asset's file name equals the requested name, ignoring case. */
  predicate AssetMatches(a: Asset, assetFilename: string) {
    EqualsOrdinalIgnoreCase(assetFilename, GetFileName(a.browserDownloadUrl))
  }

  /** `i` is the position of the first asset whose file name is the requested one. */
  predicate IsFirstMatchingAsset(assets: seq<Asset>, assetFilename: string, i: int) {
    && 0 <= i < |assets|
    && AssetMatches(assets[i], assetFilename)
    && forall j :: 0 <= j < i ==> !AssetMatches(assets[j], assetFilename)
  }

  /**
   A release qualifies when its tag is a version no lower than the minimum
   and at least one of its assets carries the requested file name.
   */
  predicate Eligible(r: GithubRelease, c: Criteria) {
    match TryParse(r.tagName)
    case None => false
    case Some(v) =>
      && !Less(v, c.minVersion)
      && exists i :: 0 <= i < |AssetsOf(r)| && AssetMatches(AssetsOf(r)[i], c.assetFilename)
  }

  /** `k` is the position of the first qualifying release of `rs`. */
  predicate IsFirstEligible(rs: seq<GithubRelease>, c: Criteria, k: int) {
    && 0 <= k < |rs|
    && Eligible(rs[k], c)
    && forall j :: 0 <= j < k ==> !Eligible(rs[j], c)
  }

  /** The first asset with the requested file name (FirstOrDefault), as a position. */
  function FindAsset(assets: seq<Asset>, assetFilename: string): (i: Option<nat>)
    ensures i.Some? ==> IsFirstMatchingAsset(assets, assetFilename, i.value)
    ensures i.None? <==> forall j :: 0 <= j < |assets| ==> !AssetMatches(assets[j], assetFilename)
  {
    if |assets| == 0 then None
    else if AssetMatches(assets[0], assetFilename) then Some(0)
    else
      match FindAsset(assets[1..], assetFilename)
      case None => None
      case Some(i) =>
        assert forall j :: 1 <= j <= i + 1 ==> assets[j] == assets[1..][j - 1];
        Some(i + 1)
  }

  /**
   The per-release overload: None (null) when the tag is not a version,
   the version is below the minimum, or no asset matches; otherwise the
   result built from the release and its first matching asset.
   */
  function CheckRelease(r: GithubRelease, c: Criteria): (res: Option<CheckForUpdateResult>)
    ensures res.Some? <==> Eligible(r, c)
    ensures res.Some? ==> res.value.package.Some? && Consistent(res.value)
    ensures res.Some? ==>
      var v := TryParse(r.tagName).value;
      var p := res.value.package.value;
      && !Less(v, c.minVersion)
      && (res.value.isUpdateAvailable <==> Greater(v, c.minVersion))
      && res.value.availableVersion == Some(ToString(v))
      && (p.classification == Beta <==> r.prerelease)
      && p.name == c.packageName
      && p.targetFilename == c.targetFilename
      && p.versionStr == ToString(v)
      && p.requiredVersionStr == RequiredVersionStr
      && p.description == r.body
    ensures res.Some? ==>
      exists i :: IsFirstMatchingAsset(AssetsOf(r), c.assetFilename, i)
             && res.value.package.value.sourceUrl == AssetsOf(r)[i].browserDownloadUrl
  {
    match TryParse(r.tagName)
    case None => None
    case Some(version) =>
      if Less(version, c.minVersion) then None
      else
        match FindAsset(AssetsOf(r), c.assetFilename)
        case None => None
        case Some(i) =>
          var asset := AssetsOf(r)[i];
          assert IsFirstMatchingAsset(AssetsOf(r), c.assetFilename, i);
          Some(CheckForUpdateResult(
            Greater(version, c.minVersion),
            Some(ToString(version)),
            Some(PackageVersionInfo(
              if r.prerelease then Beta else Release,
              c.packageName,
              asset.browserDownloadUrl,
              c.targetFilename,
              ToString(version),
              RequiredVersionStr,
              r.body))))
  }

  /** The releases that are not prereleases, in their original order (Where(!prerelease)). */
  function WithoutPrereleases(rs: seq<GithubRelease>): (out: seq<GithubRelease>)
    ensures |out| <= |rs|
    ensures forall i :: 0 <= i < |out| ==> !out[i].prerelease
    ensures forall r :: r in out <==> r in rs && !r.prerelease
  {
    if |rs| == 0 then []
    else
      var rest := WithoutPrereleases(rs[1..]);
      assert forall r :: r in rs <==> r == rs[0] || r in rs[1..];
      if rs[0].prerelease then rest else [rs[0]] + rest
  }

  /** The first non-null per-release result, scanning in list order (Select(...).FirstOrDefault). */
  function FirstResult(rs: seq<GithubRelease>, c: Criteria): (res: Option<CheckForUpdateResult>)
    ensures res.None? <==> forall j :: 0 <= j < |rs| ==> !Eligible(rs[j], c)
    ensures res.Some? ==> res.value.package.Some? && Consistent(res.value)
  {
    if |rs| == 0 then None
    else
      match CheckRelease(rs[0], c)
      case Some(x) => Some(x)
      case None =>
        var rest := FirstResult(rs[1..], c);
        assert forall j :: 1 <= j < |rs| ==> rs[j] == rs[1..][j - 1];
        rest
  }

  /** The releases the list overload scans: all of them, or only the stable ones. */
  function Candidates(rs: seq<GithubRelease>, includePrerelease: bool): (out: seq<GithubRelease>)
    ensures forall r :: r in out <==> r in rs && (includePrerelease || !r.prerelease)
  {
    if includePrerelease then rs else WithoutPrereleases(rs)
  }

  /** The list overload: drop prereleases unless they are wanted, then take the first result. */
  function CheckReleases(rs: seq<GithubRelease>, c: Criteria, includePrerelease: bool): (res: Option<CheckForUpdateResult>)
    ensures res.None? <==> forall r :: r in rs && (includePrerelease || !r.prerelease) ==> !Eligible(r, c)
    ensures res.Some? ==> res.value.package.Some? && Consistent(res.value)
  {
    var cands := Candidates(rs, includePrerelease);
    assert forall r :: r in cands <==> exists j :: 0 <= j < |cands| && cands[j] == r;
    FirstResult(cands, c)
  }

  /**
   The public entry point after the feed has been fetched and deserialized:
   a null from the list overload becomes a result with no update.
   */
  function CheckForUpdate(rs: seq<GithubRelease>, c: Criteria, includePrerelease: bool): (res: CheckForUpdateResult)
    ensures Consistent(res)
    ensures res.package.None? ==> res == NoUpdate
  {
    match CheckReleases(rs, c, includePrerelease)
    case Some(found) => found
    case None => NoUpdate
  }
}
