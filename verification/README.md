# GithubUpdater release selection, in Dafny

This project models how Emby's `GithubUpdater` decides whether a newer
release exists on a GitHub repository and which downloadable asset to use.
The input is the release list, already fetched and deserialized, plus the
caller's parameters. These are the installed version (`minVersion`), whether
prereleases are wanted, the asset file name to look for, and the package
and target file names to copy into the result.

The decision works as follows:

1. Unless prereleases are wanted, drop them and keep the order of the rest.
2. Scan the releases in feed order.
3. Skip a release whose `tag_name` is not a `System.Version`, or whose version is below `minVersion`.
4. Skip a release that has no asset whose file name equals the requested file name, ignoring case. The file name is the whole last path segment of the download URL, not just a suffix of it.
5. The first release that survives gives the result. Its package carries the URL of its first matching asset.
6. An update is announced only when that version is strictly above `minVersion`.
7. When no release survives, the result is "no update".

Modules:

- `Wrappers` (wrappers.dfy): `Option`, which stands in for C# `null`.
- `Text` (text.dfy): simplified .NET helpers, with a partner lemma for each.
  - Decimal digits, with a printing/reading round trip.
  - Splitting at a dot, with a split/join round trip in both directions.
  - Ordinal case-insensitive equality on ASCII.
  - `Path.GetFileName` with `/` as the separator.
- `Versions` (versions.dfy): the part of `System.Version` that is used.
  - `TryParse`, `CompareTo` with `<` and `>`, and `ToString`.
  - The ordering is proved to be a strict total order.
  - `TryParse` is proved to read back whatever `ToString` prints.
- `GithubUpdater` (github_updater.dfy): the release and asset records, and the result record.
  - The per-release overload is `CheckRelease`.
  - The list overload is `CheckReleases`, built from `WithoutPrereleases` and `FirstResult`.
  - The null fallback of the public method is `CheckForUpdate`.
  - Eligibility is also stated declaratively (`Eligible`, `IsFirstEligible`), separately from the code that computes it.
- `UpdaterProperties` (updater_properties.dfy): what callers can rely on, over all inputs.
- `Scenarios` (scenarios.dfy): small concrete feeds worked through.

The per-release parameters (`minVersion`, `assetFilename`, `packageName`,
`targetFilename`) are grouped into one `Criteria` value. The source passes
them one by one.

The feed order is taken as given. Selection is "first qualifying release in
feed order", not "highest qualifying version". `LaterReleasesNeverDisplace`
proves that a later release with a higher version never replaces an earlier
match. The result is only the newest update if the registry lists releases
newest first.

Drafts are not filtered. The release payload has a `draft` flag, and one
might expect drafts to be ineligible, but the code never reads the flag.
The model carries `draft`, and `DraftFlagIgnored` proves it has no effect.

## Model

| member | source | states |
|---|---|---|
| Text.NatToDecimal | MediaBrowser.Common.Implementations/Updates/GithubUpdater.cs:102 | a version component prints as a non-empty canonical digit string (no leading zero) whose decimal value is the component |
| Text.SplitOn | MediaBrowser.Common.Implementations/Updates/GithubUpdater.cs:83 | splitting a tag at dots gives at least one piece, no piece contains a dot, and joining the pieces with dots gives back the tag |
| Text.SplitJoin | MediaBrowser.Common.Implementations/Updates/GithubUpdater.cs:83 | splitting undoes joining when no piece contains the separator |
| Text.IgnoreCaseMeansSameUpper | MediaBrowser.Common.Implementations/Updates/GithubUpdater.cs:93 | EqualsOrdinalIgnoreCase, the OrdinalIgnoreCase equality, holds exactly when the two upper-cased strings are identical |
| Text.IgnoreCaseEquivalence | MediaBrowser.Common.Implementations/Updates/GithubUpdater.cs:93 | comparing file names ignoring case is reflexive, symmetric and transitive |
| Text.FileNameStart | MediaBrowser.Common.Implementations/Updates/GithubUpdater.cs:93 | the file name starts just after a '/' (or at 0) and no '/' follows that point |
| Text.FileNameIsLastSegment | MediaBrowser.Common.Implementations/Updates/GithubUpdater.cs:93 | GetFileName, the Path.GetFileName call, gives the longest suffix of the URL that contains no '/' |
| Text.FileNameOfJoinedPath | MediaBrowser.Common.Implementations/Updates/GithubUpdater.cs:93 | the file name of `dir/name` is `name` whenever `name` has no '/' |
| Versions.Stored | MediaBrowser.Common.Implementations/Updates/GithubUpdater.cs:88 | an undefined build or revision is stored as -1, and only an undefined one is |
| Versions.Compare | MediaBrowser.Common.Implementations/Updates/GithubUpdater.cs:88 | Version.CompareTo yields -1, 0 or 1, and 0 exactly when the two versions are equal |
| Versions.LessIsLexicographic | MediaBrowser.Common.Implementations/Updates/GithubUpdater.cs:88 | `Less`, the `version < minVersion` test, holds exactly when the components (major, minor, build, revision, undefined as -1) are lexicographically smaller |
| Versions.CompareAntisymmetric | MediaBrowser.Common.Implementations/Updates/GithubUpdater.cs:88 | swapping the operands negates CompareTo, and CompareTo is zero exactly on equal versions |
| Versions.LessIsStrictTotalOrder | MediaBrowser.Common.Implementations/Updates/GithubUpdater.cs:88-103 | the `<` used against the minimum is irreflexive, transitive, asymmetric and total |
| Versions.GreaterIsCompareAbove | MediaBrowser.Common.Implementations/Updates/GithubUpdater.cs:103 | `Greater`, the `version > minVersion` test (defined by .NET as `minVersion < version`), holds exactly when CompareTo returns 1 |
| Versions.ShorterVersionSortsFirst | MediaBrowser.Common.Implementations/Updates/GithubUpdater.cs:88 | a version without a build sorts below the same version with build 0 (1.0 < 1.0.0) |
| Versions.ParseComponentOfDecimal | MediaBrowser.Common.Implementations/Updates/GithubUpdater.cs:83 | a component printed in decimal by ToString is read back as the same number |
| Versions.ParseComponentRejects | MediaBrowser.Common.Implementations/Updates/GithubUpdater.cs:83 | the empty string, a string with a non-digit, and a value above Int32.MaxValue are refused as components |
| Versions.TryParse | MediaBrowser.Common.Implementations/Updates/GithubUpdater.cs:83 | a successfully parsed tag is always a well-formed System.Version (components in Int32 range, revision only with a build) |
| Versions.ToStringShape | MediaBrowser.Common.Implementations/Updates/GithubUpdater.cs:102-110 | ToString prints exactly the defined components (two, three with a build, four with a revision), each a non-empty digit run, separated by dots |
| Versions.ParseToString | MediaBrowser.Common.Implementations/Updates/GithubUpdater.cs:102-110 | the version string written into the result parses back to the very version that was matched |
| Versions.ToStringInjective | MediaBrowser.Common.Implementations/Updates/GithubUpdater.cs:102-110 | distinct versions are reported under distinct version strings |
| Versions.TryParseReadsPieces | MediaBrowser.Common.Implementations/Updates/GithubUpdater.cs:83 | a parsed tag splits at its dots into exactly as many pieces as the version has defined components, and each piece is a non-empty digit run whose decimal value is that component; conversely, every tag of two to four in-range digit runs parses |
| Versions.FiveComponentsRejected | MediaBrowser.Common.Implementations/Updates/GithubUpdater.cs:83 | "1.2.3.4.5" has more components than a System.Version holds and does not parse |
| Versions.LetterPrefixRejected | MediaBrowser.Common.Implementations/Updates/GithubUpdater.cs:83 | a tag with a leading "v", such as "v1.2", does not parse |
| Versions.EmptyComponentRejected | MediaBrowser.Common.Implementations/Updates/GithubUpdater.cs:83 | a tag with an empty component, such as "1..2", does not parse |
| Versions.LeadingZeroAccepted | MediaBrowser.Common.Implementations/Updates/GithubUpdater.cs:83 | leading zeros are read as part of the number: "01.2" parses as 1.2 |
| Versions.DotlessTagDoesNotParse | MediaBrowser.Common.Implementations/Updates/GithubUpdater.cs:82-86 | a tag with no dot, such as "not-a-version", is never a version |
| GithubUpdater.FindAsset | MediaBrowser.Common.Implementations/Updates/GithubUpdater.cs:93-98 | the position found is the first asset whose file name matches; none is found exactly when no asset matches |
| GithubUpdater.CheckRelease | MediaBrowser.Common.Implementations/Updates/GithubUpdater.cs:80-115 | a release yields a result exactly when it is eligible; that result announces an update iff its version is above the minimum, and copies each package field from the release, its first matching asset and the caller |
| GithubUpdater.WithoutPrereleases | MediaBrowser.Common.Implementations/Updates/GithubUpdater.cs:69-72 | the filtered list holds no prerelease, keeps every stable release of the input, and adds nothing |
| GithubUpdater.Candidates | MediaBrowser.Common.Implementations/Updates/GithubUpdater.cs:69-72 | the scanned releases are exactly the input's releases, minus the prereleases when they are not wanted |
| GithubUpdater.FirstResult | MediaBrowser.Common.Implementations/Updates/GithubUpdater.cs:77 | the scan finds nothing exactly when no release of the list is eligible; what it finds is a well-formed result with a package |
| GithubUpdater.CheckReleases | MediaBrowser.Common.Implementations/Updates/GithubUpdater.cs:67-78 | the list overload returns null exactly when no release of the input (no stable release, when prereleases are not wanted) is eligible; otherwise a well-formed result with a package |
| GithubUpdater.CheckForUpdate | MediaBrowser.Common.Implementations/Updates/GithubUpdater.cs:58-63 | the returned result is never null: an update implies a package, a package comes with its available version, and without a package it is the plain "no update" |
| UpdaterProperties.WithoutPrereleasesAppend | MediaBrowser.Common.Implementations/Updates/GithubUpdater.cs:69-72 | filtering distributes over concatenation, so the stable releases keep their relative order |
| UpdaterProperties.WithoutPrereleasesKeepsStable | MediaBrowser.Common.Implementations/Updates/GithubUpdater.cs:69-72 | a list with no prerelease passes the filter unchanged, so filtering twice is filtering once |
| UpdaterProperties.FirstResultAppend | MediaBrowser.Common.Implementations/Updates/GithubUpdater.cs:77 | scanning a concatenation gives the first part's result, or else the second part's |
| UpdaterProperties.FirstMatchWins | MediaBrowser.Common.Implementations/Updates/GithubUpdater.cs:77 | the scan returns the result of the earliest eligible release |
| UpdaterProperties.SelectedRelease | MediaBrowser.Common.Implementations/Updates/GithubUpdater.cs:77 | any result of the scan comes from a release that is eligible while every earlier one is not |
| UpdaterProperties.SelectsFirstEligible | MediaBrowser.Common.Implementations/Updates/GithubUpdater.cs:58-78 | the public result is the per-release result of the first eligible candidate after prerelease filtering |
| UpdaterProperties.NoUpdateIffNoneEligible | MediaBrowser.Common.Implementations/Updates/GithubUpdater.cs:58-63 | the result is "no update" exactly when no candidate is eligible |
| UpdaterProperties.EmptyFeedNoUpdate | MediaBrowser.Common.Implementations/Updates/GithubUpdater.cs:60-63 | an empty release list gives "no update", without a package and without an error |
| UpdaterProperties.LaterReleasesNeverDisplace | MediaBrowser.Common.Implementations/Updates/GithubUpdater.cs:77 | releases appended after a list that already yields a package never change the result, however high their versions |
| UpdaterProperties.PrereleaseNeverSelected | MediaBrowser.Common.Implementations/Updates/GithubUpdater.cs:69-72 | without prereleases wanted, a reported package is never classified Beta, so it never comes from a prerelease |
| UpdaterProperties.PrereleaseSelectedWhenIncluded | MediaBrowser.Common.Implementations/Updates/GithubUpdater.cs:69-72 | with prereleases wanted the list is scanned unfiltered, so an eligible prerelease found first is reported as Beta |
| UpdaterProperties.IneligibleReleaseIgnored | MediaBrowser.Common.Implementations/Updates/GithubUpdater.cs:80-98 | removing an ineligible release from anywhere in the feed does not change the result |
| UpdaterProperties.UnparsableTagIgnored | MediaBrowser.Common.Implementations/Updates/GithubUpdater.cs:82-86 | a release whose tag is not a version is never selected, whatever its assets |
| UpdaterProperties.NotAVersionIgnored | MediaBrowser.Common.Implementations/Updates/GithubUpdater.cs:82-86 | a release tagged "not-a-version" is never selected |
| UpdaterProperties.AssetlessReleaseIgnored | MediaBrowser.Common.Implementations/Updates/GithubUpdater.cs:93-98 | a release with a null or empty asset list is never selected |
| UpdaterProperties.ReportedVersion | MediaBrowser.Common.Implementations/Updates/GithubUpdater.cs:88-103 | a reported version reads back as a version at or above the minimum, and an update is announced iff it is strictly above |
| UpdaterProperties.NothingAtOrAboveMinimum | MediaBrowser.Common.Implementations/Updates/GithubUpdater.cs:88-91 | when no tag is a version at or above the minimum, the result is "no update" with no package |
| UpdaterProperties.EqualVersionReportedWithoutUpdate | MediaBrowser.Common.Implementations/Updates/GithubUpdater.cs:100-103 | a first match equal to the minimum still gives a package and an available version, but no update |
| UpdaterProperties.FirstMatchingAssetUsed | MediaBrowser.Common.Implementations/Updates/GithubUpdater.cs:93-108 | the download URL is that of the first asset, in list order, whose file name matches |
| UpdaterProperties.SourceUrlNamesRequestedFile | MediaBrowser.Common.Implementations/Updates/GithubUpdater.cs:93-108 | the last path segment of the reported download URL equals the requested file name, ignoring case |
| UpdaterProperties.PackageFields | MediaBrowser.Common.Implementations/Updates/GithubUpdater.cs:100-114 | the package is Beta iff the release is a prerelease; it has the caller's names verbatim, the body as description, "1.0.0" as required version, and the version string also reported as available |
| UpdaterProperties.ReplaceEquivalentRelease | MediaBrowser.Common.Implementations/Updates/GithubUpdater.cs:67-78 | only a release's prerelease flag and its per-release outcome influence the list result |
| UpdaterProperties.DraftFlagIgnored | MediaBrowser.Common.Implementations/Updates/GithubUpdater.cs:185 | changing the draft flag of any release never changes the result |
| Scenarios.CaseInsensitiveAssetName | MediaBrowser.Common.Implementations/Updates/GithubUpdater.cs:93 | an asset at `.../App-Setup.EXE` matches the requested name "app-setup.exe" |
| Scenarios.SuffixIsNotAMatch | MediaBrowser.Common.Implementations/Updates/GithubUpdater.cs:93 | an asset at `d/my-app.zip` does not match the requested name "app.zip": the whole segment must match |
| Scenarios.FirstInOrderChosen | MediaBrowser.Common.Implementations/Updates/GithubUpdater.cs:77 | with releases 2.0.0 and 1.5.0 above 1.0.0, asking for the 2.0.0 asset reports an update to "2.0.0" |
| Scenarios.AscendingFeedPicksOlder | MediaBrowser.Common.Implementations/Updates/GithubUpdater.cs:77 | in a feed listed oldest first where 1.5.0 and 2.0.0 both publish "app.zip" and both qualify, "1.5.0" is announced: selection follows feed order, not version order |
| Scenarios.MismatchedAssetSkipped | MediaBrowser.Common.Implementations/Updates/GithubUpdater.cs:93-98 | asking for the 1.5.0 asset skips release 2.0.0 and reports "1.5.0" |
| Scenarios.NothingNewerThanInstalled | MediaBrowser.Common.Implementations/Updates/GithubUpdater.cs:88-91 | with 3.0.0 installed neither release qualifies and the result is "no update" |

## Left out

- The public asynchronous `CheckForUpdateResult` (GithubUpdater.cs:28-56) is left out. Building the URL, the HTTP GET, the user agent, cancellation and JSON deserialization are I/O or calls into other components. `CheckForUpdate` starts from the deserialized list and models only the null fallback.
- The cache options built at GithubUpdater.cs:32-45 are never passed to the request. A fresh options object is sent instead. This is transport behaviour and is not modelled.
- A null release array, a null entry in the release array, a null entry in the asset list, and null strings are not modelled. In C# these throw, or compare as null. A null release entry, for instance, throws a NullReferenceException at `i.prerelease` (GithubUpdater.cs:71) or at `obj.tag_name` (GithubUpdater.cs:83). Dafny sequences and strings are never null. A null `assets` list is modelled, as `None`.
- `minVersion` is taken to be non-null. With a null minimum, `version > minVersion` throws in .NET.
- Versions.TryParse: does not accept the surrounding whitespace or leading sign that Int32.TryParse tolerates. This includes `-` on a zero component: .NET reads `"-0"` as 0 and so parses `"1.-0"` as 1.0, while the model refuses it. It accepts only 2–4 dot-separated runs of ASCII digits, with the Int32 bound enforced.
- Text.GetFileName: treats only `/` as a separator. The Windows separators `\` and `:` are not handled, nor is the invalid-path-character exception of the .NET Framework.
- Text.EqualsOrdinalIgnoreCase: folds only the ASCII letters. Full Unicode upper-casing is not modelled.
- The unused payload fields are left out: every `RootObject` and `Asset` field other than `tag_name`, `prerelease`, `draft`, `body`, `assets` and `browser_download_url`, and the `Uploader` and `Author` records.
- The commented-out idea of filtering tags by suffixes such as "-beta" (GithubUpdater.cs:74-75) is not implemented in the source, so it is not modelled.
- `PackageVersionClass`, `PackageVersionInfo` and `CheckForUpdateResult` are declared in MediaBrowser.Model.Updates, which is not part of this model. Only the members that are set here are modelled. For `PackageVersionClass` that is `Release` and `Beta`.
