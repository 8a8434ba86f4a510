/**
 What release selection promises its callers: which release is chosen,
 which asset it points at, and how the result is filled in.
 */
module UpdaterProperties {
  import opened Wrappers
  import opened Text
  import opened Versions
  import opened GithubUpdater

  /** Dropping prereleases from a concatenation drops them from each part. */
  lemma {:induction false} WithoutPrereleasesAppend(a: seq<GithubRelease>, b: seq<GithubRelease>)
    ensures WithoutPrereleases(a + b) == WithoutPrereleases(a) + WithoutPrereleases(b)
  {
    if |a| == 0 {
      assert a + b == b;
    } else {
      assert (a + b)[0] == a[0];
      assert (a + b)[1..] == a[1..] + b;
      WithoutPrereleasesAppend(a[1..], b);
    }
  }

  /** A list without prereleases is left as it is, so the filter is idempotent. */
  lemma {:induction false} WithoutPrereleasesKeepsStable(rs: seq<GithubRelease>)
    requires forall i :: 0 <= i < |rs| ==> !rs[i].prerelease
    ensures WithoutPrereleases(rs) == rs
  {
    if |rs| > 0 {
      WithoutPrereleasesKeepsStable(rs[1..]);
      assert rs == [rs[0]] + rs[1..];
    }
  }

  lemma CandidatesAppend(a: seq<GithubRelease>, b: seq<GithubRelease>, includePrerelease: bool)
    ensures Candidates(a + b, includePrerelease) == Candidates(a, includePrerelease) + Candidates(b, includePrerelease)
  {
    WithoutPrereleasesAppend(a, b);
  }

  /** Scanning a concatenation finds the first part's result, or else the second part's. */
  lemma {:induction false} FirstResultAppend(a: seq<GithubRelease>, b: seq<GithubRelease>, c: Criteria)
    ensures FirstResult(a + b, c) == if FirstResult(a, c).Some? then FirstResult(a, c) else FirstResult(b, c)
  {
    if |a| == 0 {
      assert a + b == b;
    } else {
      assert (a + b)[0] == a[0];
      assert (a + b)[1..] == a[1..] + b;
      FirstResultAppend(a[1..], b, c);
    }
  }

  /**
   First match wins: the scan returns the result of the earliest qualifying
   release, whatever comes after it.
   */
  lemma {:induction false} FirstMatchWins(rs: seq<GithubRelease>, c: Criteria, k: int)
    requires IsFirstEligible(rs, c, k)
    ensures FirstResult(rs, c) == CheckRelease(rs[k], c)
    ensures FirstResult(rs, c).Some?
  {
    if k > 0 {
      assert !Eligible(rs[0], c);
      assert IsFirstEligible(rs[1..], c, k - 1) by {
        assert forall j :: 0 <= j < k - 1 ==> rs[1..][j] == rs[j + 1];
      }
      FirstMatchWins(rs[1..], c, k - 1);
    }
  }

  /** One step of the scan: the head's result if it has one, else the scan of the rest. */
  lemma FirstResultStep(rs: seq<GithubRelease>, c: Criteria)
    requires |rs| > 0
    ensures FirstResult(rs, c) == if CheckRelease(rs[0], c).Some? then CheckRelease(rs[0], c) else FirstResult(rs[1..], c)
  {
  }

  /** Whenever the scan returns a result, it is that of the earliest qualifying release. */
  lemma {:induction false} SelectedRelease(rs: seq<GithubRelease>, c: Criteria) returns (k: int)
    requires FirstResult(rs, c).Some?
    ensures IsFirstEligible(rs, c, k)
    ensures FirstResult(rs, c) == CheckRelease(rs[k], c)
  {
    FirstResultStep(rs, c);
    if CheckRelease(rs[0], c).Some? {
      k := 0;
    } else {
      var k' := SelectedRelease(rs[1..], c);
      k := k' + 1;
      assert rs[k] == rs[1..][k'];
      assert forall j :: 1 <= j < k ==> rs[j] == rs[1..][j - 1];
    }
  }

  /**
   The entry point returns the result built from the first qualifying
   candidate: the earliest one in feed order, with every earlier one
   disqualified.
   */
  lemma SelectsFirstEligible(rs: seq<GithubRelease>, c: Criteria, includePrerelease: bool, k: int)
    requires IsFirstEligible(Candidates(rs, includePrerelease), c, k)
    ensures Some(CheckForUpdate(rs, c, includePrerelease)) == CheckRelease(Candidates(rs, includePrerelease)[k], c)
  {
    FirstMatchWins(Candidates(rs, includePrerelease), c, k);
  }

  /** No package is reported exactly when no candidate qualifies. */
  lemma NoUpdateIffNoneEligible(rs: seq<GithubRelease>, c: Criteria, includePrerelease: bool)
    ensures CheckForUpdate(rs, c, includePrerelease) == NoUpdate
        <==> forall j :: 0 <= j < |Candidates(rs, includePrerelease)| ==> !Eligible(Candidates(rs, includePrerelease)[j], c)
  {
  }

  /** An empty feed reports no update and no package. */
  lemma EmptyFeedNoUpdate(c: Criteria, includePrerelease: bool)
    ensures CheckForUpdate([], c, includePrerelease) == NoUpdate
  {
    assert WithoutPrereleases([]) == [];
  }

  /**
   A release found first is never displaced by anything after it, however
   high the later versions are.
   */
  lemma LaterReleasesNeverDisplace(a: seq<GithubRelease>, b: seq<GithubRelease>, c: Criteria, includePrerelease: bool)
    requires CheckForUpdate(a, c, includePrerelease).package.Some?
    ensures CheckForUpdate(a + b, c, includePrerelease) == CheckForUpdate(a, c, includePrerelease)
  {
    CandidatesAppend(a, b, includePrerelease);
    FirstResultAppend(Candidates(a, includePrerelease), Candidates(b, includePrerelease), c);
  }

  /** When prereleases are not wanted, the reported package is never a beta. */
  lemma PrereleaseNeverSelected(rs: seq<GithubRelease>, c: Criteria)
    ensures CheckForUpdate(rs, c, false).package.Some? ==>
      CheckForUpdate(rs, c, false).package.value.classification == Release
  {
    var cands := Candidates(rs, false);
    if FirstResult(cands, c).Some? {
      var k := SelectedRelease(cands, c);
      assert !cands[k].prerelease;
    }
  }

  /**
   When prereleases are wanted the list is scanned unfiltered: the first
   qualifying release is chosen even if it is a prerelease, and is then
   reported as a beta.
   */
  lemma PrereleaseSelectedWhenIncluded(rs: seq<GithubRelease>, c: Criteria, k: int)
    requires IsFirstEligible(rs, c, k)
    requires rs[k].prerelease
    ensures CheckForUpdate(rs, c, true).package.value.classification == Beta
  {
    SelectsFirstEligible(rs, c, true, k);
  }

  /** A release that does not qualify can be removed without changing the outcome. */
  lemma IneligibleReleaseIgnored(a: seq<GithubRelease>, r: GithubRelease, b: seq<GithubRelease>, c: Criteria, includePrerelease: bool)
    requires !Eligible(r, c)
    ensures CheckForUpdate(a + [r] + b, c, includePrerelease) == CheckForUpdate(a + b, c, includePrerelease)
  {
    var ca, cr, cb := Candidates(a, includePrerelease), Candidates([r], includePrerelease), Candidates(b, includePrerelease);
    CandidatesAppend(a + [r], b, includePrerelease);
    CandidatesAppend(a, [r], includePrerelease);
    CandidatesAppend(a, b, includePrerelease);
    FirstResultAppend(ca + cr, cb, c);
    FirstResultAppend(ca, cr, c);
    FirstResultAppend(ca, cb, c);
    if includePrerelease || !r.prerelease {
      assert cr == [r];
    } else {
      assert cr == [];
    }
    assert FirstResult(cr, c).None?;
    assert FirstResult(Candidates(a + [r] + b, includePrerelease), c) == FirstResult(Candidates(a + b, includePrerelease), c);
  }

  /** A release whose tag is not a version is never chosen, whatever its assets. */
  lemma UnparsableTagIgnored(a: seq<GithubRelease>, r: GithubRelease, b: seq<GithubRelease>, c: Criteria, includePrerelease: bool)
    requires TryParse(r.tagName).None?
    ensures CheckForUpdate(a + [r] + b, c, includePrerelease) == CheckForUpdate(a + b, c, includePrerelease)
  {
    IneligibleReleaseIgnored(a, r, b, c, includePrerelease);
  }

  /** The tag "not-a-version" is one such tag. */
  lemma NotAVersionIgnored(a: seq<GithubRelease>, r: GithubRelease, b: seq<GithubRelease>, c: Criteria, includePrerelease: bool)
    requires r.tagName == "not-a-version"
    ensures CheckForUpdate(a + [r] + b, c, includePrerelease) == CheckForUpdate(a + b, c, includePrerelease)
  {
    DotlessTagDoesNotParse(r.tagName);
    UnparsableTagIgnored(a, r, b, c, includePrerelease);
  }

  /** A release with a null or empty asset list is never chosen. */
  lemma AssetlessReleaseIgnored(a: seq<GithubRelease>, r: GithubRelease, b: seq<GithubRelease>, c: Criteria, includePrerelease: bool)
    requires r.assets == None || r.assets == Some([])
    ensures CheckForUpdate(a + [r] + b, c, includePrerelease) == CheckForUpdate(a + b, c, includePrerelease)
  {
    IneligibleReleaseIgnored(a, r, b, c, includePrerelease);
  }

  /**
   The reported version reads back as a version no lower than the minimum,
   and an update is announced exactly when it is strictly higher.
   */
  lemma ReportedVersion(rs: seq<GithubRelease>, c: Criteria, includePrerelease: bool)
    ensures var res := CheckForUpdate(rs, c, includePrerelease);
      res.package.Some? ==>
        var v := TryParse(res.package.value.versionStr);
        && v.Some?
        && !Less(v.value, c.minVersion)
        && (res.isUpdateAvailable <==> Greater(v.value, c.minVersion))
  {
    var cands := Candidates(rs, includePrerelease);
    if FirstResult(cands, c).Some? {
      var k := SelectedRelease(cands, c);
      ParseToString(TryParse(cands[k].tagName).value);
    }
  }

  /** When no tag is a version at or above the minimum, there is no update and no package. */
  lemma NothingAtOrAboveMinimum(rs: seq<GithubRelease>, c: Criteria, includePrerelease: bool)
    requires forall r :: r in rs ==> TryParse(r.tagName).None? || Less(TryParse(r.tagName).value, c.minVersion)
    ensures CheckForUpdate(rs, c, includePrerelease) == NoUpdate
  {
    var cands := Candidates(rs, includePrerelease);
    forall j | 0 <= j < |cands|
      ensures !Eligible(cands[j], c)
    {
      assert cands[j] in rs;
    }
  }

  /**
   A first qualifying release whose version equals the minimum still yields
   a package and an available version, but no update.
   */
  lemma EqualVersionReportedWithoutUpdate(rs: seq<GithubRelease>, c: Criteria, includePrerelease: bool, k: int)
    requires IsFirstEligible(Candidates(rs, includePrerelease), c, k)
    requires TryParse(Candidates(rs, includePrerelease)[k].tagName) == Some(c.minVersion)
    ensures var res := CheckForUpdate(rs, c, includePrerelease);
      && res.package.Some?
      && res.availableVersion == Some(ToString(c.minVersion))
      && !res.isUpdateAvailable
  {
    SelectsFirstEligible(rs, c, includePrerelease, k);
    LessIsStrictTotalOrder(c.minVersion, c.minVersion, c.minVersion);
  }

  /** At most one position is the first matching asset. */
  lemma FirstMatchingAssetUnique(assets: seq<Asset>, assetFilename: string, i: int, j: int)
    requires IsFirstMatchingAsset(assets, assetFilename, i)
    requires IsFirstMatchingAsset(assets, assetFilename, j)
    ensures i == j
  {
  }

  /** A qualifying release is reported with the URL of its first asset carrying the requested name. */
  lemma FirstMatchingAssetUsed(r: GithubRelease, c: Criteria, i: int)
    requires Eligible(r, c)
    requires IsFirstMatchingAsset(AssetsOf(r), c.assetFilename, i)
    ensures CheckRelease(r, c).value.package.value.sourceUrl == AssetsOf(r)[i].browserDownloadUrl
  {
    var i' :| IsFirstMatchingAsset(AssetsOf(r), c.assetFilename, i')
          && CheckRelease(r, c).value.package.value.sourceUrl == AssetsOf(r)[i'].browserDownloadUrl;
    FirstMatchingAssetUnique(AssetsOf(r), c.assetFilename, i, i');
  }

  /** The reported download URL names the requested file, up to case. */
  lemma SourceUrlNamesRequestedFile(rs: seq<GithubRelease>, c: Criteria, includePrerelease: bool)
    ensures var res := CheckForUpdate(rs, c, includePrerelease);
      res.package.Some? ==>
        UpperAscii(GetFileName(res.package.value.sourceUrl)) == UpperAscii(c.assetFilename)
  {
    var res := CheckForUpdate(rs, c, includePrerelease);
    var cands := Candidates(rs, includePrerelease);
    if FirstResult(cands, c).Some? {
      var k := SelectedRelease(cands, c);
      var i :| IsFirstMatchingAsset(AssetsOf(cands[k]), c.assetFilename, i)
            && res.package.value.sourceUrl == AssetsOf(cands[k])[i].browserDownloadUrl;
      IgnoreCaseMeansSameUpper(c.assetFilename, GetFileName(res.package.value.sourceUrl));
    }
  }

  /**
   The package copies the caller's names verbatim, the release body as its
   description, a fixed required version, and marks prereleases as betas.
   */
  lemma PackageFields(rs: seq<GithubRelease>, c: Criteria, includePrerelease: bool, k: int)
    requires IsFirstEligible(Candidates(rs, includePrerelease), c, k)
    ensures var r := Candidates(rs, includePrerelease)[k];
      var res := CheckForUpdate(rs, c, includePrerelease);
      var p := res.package.value;
      && res.package.Some?
      && p.name == c.packageName
      && p.targetFilename == c.targetFilename
      && p.description == r.body
      && p.requiredVersionStr == "1.0.0"
      && (p.classification == Beta <==> r.prerelease)
      && p.versionStr == ToString(TryParse(r.tagName).value)
      && res.availableVersion == Some(p.versionStr)
  {
    SelectsFirstEligible(rs, c, includePrerelease, k);
  }

  /** Replacing a release by one with the same prerelease flag and the same per-release result changes nothing. */
  lemma ReplaceEquivalentRelease(a: seq<GithubRelease>, r: GithubRelease, r': GithubRelease, b: seq<GithubRelease>,
                                 c: Criteria, includePrerelease: bool)
    requires r.prerelease == r'.prerelease
    requires CheckRelease(r, c) == CheckRelease(r', c)
    ensures CheckForUpdate(a + [r] + b, c, includePrerelease) == CheckForUpdate(a + [r'] + b, c, includePrerelease)
  {
    var ca, cb := Candidates(a, includePrerelease), Candidates(b, includePrerelease);
    var cr, cr' := Candidates([r], includePrerelease), Candidates([r'], includePrerelease);
    CandidatesAppend(a + [r], b, includePrerelease);
    CandidatesAppend(a, [r], includePrerelease);
    CandidatesAppend(a + [r'], b, includePrerelease);
    CandidatesAppend(a, [r'], includePrerelease);
    FirstResultAppend(ca + cr, cb, c);
    FirstResultAppend(ca, cr, c);
    FirstResultAppend(ca + cr', cb, c);
    FirstResultAppend(ca, cr', c);
    assert FirstResult(cr, c) == FirstResult(cr', c);
  }

  /** The draft flag is never consulted: changing it on any release changes nothing. */
  lemma DraftFlagIgnored(rs: seq<GithubRelease>, c: Criteria, includePrerelease: bool, i: int, draft: bool)
    requires 0 <= i < |rs|
    ensures CheckForUpdate(rs[i := rs[i].(draft := draft)], c, includePrerelease) == CheckForUpdate(rs, c, includePrerelease)
  {
    var a, b := rs[..i], rs[i + 1..];
    assert rs == a + [rs[i]] + b;
    assert rs[i := rs[i].(draft := draft)] == a + [rs[i].(draft := draft)] + b;
    ReplaceEquivalentRelease(a, rs[i], rs[i].(draft := draft), b, c, includePrerelease);
  }
}
