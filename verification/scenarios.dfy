/** Worked examples of release selection on small, concrete feeds. */
module Scenarios {
  import opened Wrappers
  import opened Text
  import opened Versions
  import opened GithubUpdater
  import opened UpdaterProperties

  const V200 := Version(2, 0, Some(0), None)
  const V150 := Version(1, 5, Some(0), None)
  const V100 := Version(1, 0, Some(0), None)

  const Dir := "https://example.com/dl"
  const Url200 := Dir + "/" + "app-2.0.0.zip"
  const Url150 := Dir + "/" + "app-1.5.0.zip"

  const Release200 := GithubRelease("2.0.0", false, false, "two", Some([Asset(Url200)]))
  const Release150 := GithubRelease("1.5.0", false, false, "one-five", Some([Asset(Url150)]))

  /** Two releases that publish their asset under the same, unversioned name. */
  const UrlApp := Dir + "/" + "app.zip"
  const Plain150 := GithubRelease("1.5.0", false, false, "one-five", Some([Asset(UrlApp)]))
  const Plain200 := GithubRelease("2.0.0", false, false, "two", Some([Asset(UrlApp)]))

  lemma PrintsAs(v: Version, major: char, minor: char, build: char)
    requires IsDigit(major) && IsDigit(minor) && IsDigit(build)
    requires v == Version(DigitValue(major), DigitValue(minor), Some(DigitValue(build)), None)
    ensures ToString(v) == [major, '.', minor, '.', build]
  {
    assert NatToDecimal(v.major) == [major];
    assert NatToDecimal(v.minor) == [minor];
    assert NatToDecimal(v.build.value) == [build];
    assert ComponentStrings(v) == [[major], [minor], [build]];
    assert JoinWith([[build]], '.') == [build];
    assert JoinWith([[minor], [build]], '.') == [minor, '.', build];
  }

  lemma TagsParse()
    ensures TryParse("2.0.0") == Some(V200)
    ensures TryParse("1.5.0") == Some(V150)
  {
    PrintsAs(V200, '2', '0', '0');
    ParseToString(V200);
    PrintsAs(V150, '1', '5', '0');
    ParseToString(V150);
  }

  /** An asset matches the name it was published under, in any letter case. */
  lemma MatchesOwnName(dir: string, name: string, requested: string)
    requires '/' !in name
    requires UpperAscii(requested) == UpperAscii(name)
    ensures AssetMatches(Asset(dir + "/" + name), requested)
  {
    FileNameOfJoinedPath(dir, name);
    IgnoreCaseMeansSameUpper(requested, name);
  }

  /** File-name matching ignores case: "App-Setup.EXE" is the asset "app-setup.exe". */
  lemma CaseInsensitiveAssetName()
    ensures AssetMatches(Asset(Dir + "/" + "App-Setup.EXE"), "app-setup.exe")
  {
    assert UpperAscii("app-setup.exe") == "APP-SETUP.EXE";
    assert UpperAscii("App-Setup.EXE") == "APP-SETUP.EXE";
    MatchesOwnName(Dir, "App-Setup.EXE", "app-setup.exe");
  }

  lemma Asset200Matches()
    ensures AssetMatches(Asset(Url200), "app-2.0.0.zip")
  {
    MatchesOwnName(Dir, "app-2.0.0.zip", "app-2.0.0.zip");
  }

  lemma Asset150Matches()
    ensures AssetMatches(Asset(Url150), "app-1.5.0.zip")
  {
    MatchesOwnName(Dir, "app-1.5.0.zip", "app-1.5.0.zip");
  }

  /** Names that differ in a character other than letter case do not match. */
  lemma DifferentNameNoMatch(dir: string, name: string, requested: string, i: int)
    requires '/' !in name
    requires 0 <= i < |name| == |requested|
    requires ToUpperAscii(name[i]) != ToUpperAscii(requested[i])
    ensures !AssetMatches(Asset(dir + "/" + name), requested)
  {
    FileNameOfJoinedPath(dir, name);
    IgnoreCaseMeansSameUpper(requested, name);
    assert UpperAscii(requested)[i] != UpperAscii(name)[i];
  }

  /** The whole last path segment must match: "my-app.zip" is not the asset "app.zip". */
  lemma SuffixIsNotAMatch()
    ensures !AssetMatches(Asset("d" + "/" + "my-app.zip"), "app.zip")
  {
    FileNameOfJoinedPath("d", "my-app.zip");
  }

  lemma AssetNamesDiffer()
    ensures !AssetMatches(Asset(Url200), "app-1.5.0.zip")
  {
    DifferentNameNoMatch(Dir, "app-2.0.0.zip", "app-1.5.0.zip", 4);
  }

  /** The first qualifying candidate, when newer than the minimum, is announced as an update. */
  lemma AnnouncesFirstEligible(rs: seq<GithubRelease>, c: Criteria, k: int, v: Version)
    requires IsFirstEligible(Candidates(rs, false), c, k)
    requires TryParse(Candidates(rs, false)[k].tagName) == Some(v)
    requires Greater(v, c.minVersion)
    ensures CheckForUpdate(rs, c, false).isUpdateAvailable
    ensures CheckForUpdate(rs, c, false).availableVersion == Some(ToString(v))
  {
    SelectsFirstEligible(rs, c, false, k);
  }

  lemma Release200Eligible(c: Criteria)
    requires c.minVersion == V100 && c.assetFilename == "app-2.0.0.zip"
    ensures Eligible(Release200, c)
  {
    TagsParse();
    Asset200Matches();
    assert AssetsOf(Release200)[0] == Asset(Url200);
  }

  lemma Release150Eligible(c: Criteria)
    requires c.minVersion == V100 && c.assetFilename == "app-1.5.0.zip"
    ensures Eligible(Release150, c)
  {
    TagsParse();
    Asset150Matches();
    assert AssetsOf(Release150)[0] == Asset(Url150);
  }

  lemma Release200NotEligible(c: Criteria)
    requires c.assetFilename == "app-1.5.0.zip"
    ensures !Eligible(Release200, c)
  {
    AssetNamesDiffer();
    assert AssetsOf(Release200) == [Asset(Url200)];
  }

  lemma StableFeed()
    ensures Candidates([Release200, Release150], false) == [Release200, Release150]
  {
    WithoutPrereleasesKeepsStable([Release200, Release150]);
  }

  /**
   Both releases exceed 1.0.0; the first one in feed order whose asset matches is chosen.
   The feed is newest first here, as GitHub lists releases, so this is also the newest.
   */
  lemma FirstInOrderChosen()
    ensures var res := CheckForUpdate([Release200, Release150], Criteria(V100, "app-2.0.0.zip", "App", "app.zip"), false);
      res.isUpdateAvailable && res.availableVersion == Some("2.0.0")
  {
    var rs := [Release200, Release150];
    var c := Criteria(V100, "app-2.0.0.zip", "App", "app.zip");
    Release200Eligible(c);
    StableFeed();
    TagsParse();
    PrintsAs(V200, '2', '0', '0');
    AnnouncesFirstEligible(rs, c, 0, V200);
  }

  /** A release whose asset does not match is skipped in favour of the next one. */
  lemma MismatchedAssetSkipped()
    ensures var res := CheckForUpdate([Release200, Release150], Criteria(V100, "app-1.5.0.zip", "App", "app.zip"), false);
      res.isUpdateAvailable && res.availableVersion == Some("1.5.0")
  {
    var rs := [Release200, Release150];
    var c := Criteria(V100, "app-1.5.0.zip", "App", "app.zip");
    Release150Eligible(c);
    Release200NotEligible(c);
    StableFeed();
    TagsParse();
    PrintsAs(V150, '1', '5', '0');
    AnnouncesFirstEligible(rs, c, 1, V150);
  }

  /** With 3.0.0 installed, neither release qualifies. */
  lemma NothingNewerThanInstalled()
    ensures CheckForUpdate([Release200, Release150], Criteria(Version(3, 0, Some(0), None), "app-2.0.0.zip", "App", "app.zip"), false) == NoUpdate
  {
    TagsParse();
    NothingAtOrAboveMinimum([Release200, Release150], Criteria(Version(3, 0, Some(0), None), "app-2.0.0.zip", "App", "app.zip"), false);
  }

  lemma AppAssetMatches()
    ensures AssetMatches(Asset(UrlApp), "app.zip")
  {
    MatchesOwnName(Dir, "app.zip", "app.zip");
  }

  lemma Plain150Eligible(c: Criteria)
    requires c.minVersion == V100 && c.assetFilename == "app.zip"
    ensures Eligible(Plain150, c)
  {
    TagsParse();
    AppAssetMatches();
    assert AssetsOf(Plain150)[0] == Asset(UrlApp);
  }

  lemma Plain200Eligible(c: Criteria)
    requires c.minVersion == V100 && c.assetFilename == "app.zip"
    ensures Eligible(Plain200, c)
  {
    TagsParse();
    AppAssetMatches();
    assert AssetsOf(Plain200)[0] == Asset(UrlApp);
  }

  lemma AscendingStableFeed()
    ensures Candidates([Plain150, Plain200], false) == [Plain150, Plain200]
  {
    WithoutPrereleasesKeepsStable([Plain150, Plain200]);
  }

  /**
   Selection relies on feed order, not on version order: in a feed listed oldest
   first, where 1.5.0 and 2.0.0 both qualify, 1.5.0 is announced.
   */
  lemma AscendingFeedPicksOlder()
    ensures Eligible(Plain200, Criteria(V100, "app.zip", "App", "app.zip"))
    ensures var res := CheckForUpdate([Plain150, Plain200], Criteria(V100, "app.zip", "App", "app.zip"), false);
      res.isUpdateAvailable && res.availableVersion == Some("1.5.0")
  {
    var rs := [Plain150, Plain200];
    var c := Criteria(V100, "app.zip", "App", "app.zip");
    Plain150Eligible(c);
    Plain200Eligible(c);
    AscendingStableFeed();
    TagsParse();
    PrintsAs(V150, '1', '5', '0');
    AnnouncesFirstEligible(rs, c, 0, V150);
  }
}
