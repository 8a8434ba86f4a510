/**
 The part of System.Version that release selection uses: a version of two to
 four components, TryParse, the CompareTo ordering with its `<` and `>`
 operators, and ToString.
 */
module Versions {
  import opened Wrappers
  import opened Text

  /** Int32.MaxValue: the largest value a version component can hold. */
  const MaxComponent: nat := 0x7FFF_FFFF

  /**
   Major and minor are always present; build and revision may be undefined
   (System.Version stores -1 for them). A revision is only ever defined
   together with a build.
   */
  datatype Version = Version(major: nat, minor: nat, build: Option<nat>, revision: Option<nat>)

  predicate InRange(o: Option<nat>) {
    o.None? || o.value <= MaxComponent
  }

  /** The shapes System.Version can take. */
  predicate Valid(v: Version) {
    && v.major <= MaxComponent
    && v.minor <= MaxComponent
    && InRange(v.build)
    && InRange(v.revision)
    && (v.revision.Some? ==> v.build.Some?)
  }

  /** A component as System.Version stores it: undefined is -1. */
  function Stored(o: Option<nat>): (x: int)
    ensures x >= -1
    ensures x == -1 <==> o.None?
  {
    match o
    case None => -1
    case Some(n) => n
  }

  function CompareInt(a: int, b: int): int {
    if a < b then -1 else if a > b then 1 else 0
  }

  /**
   Version.CompareTo: major, then minor, then build, then revision, with an
   undefined component stored as -1, so that 1.0 sorts before 1.0.0.
   */
  function Compare(a: Version, b: Version): (c: int)
    ensures -1 <= c <= 1
    ensures c == 0 <==> a == b
  {
    assert Stored(a.build) == Stored(b.build) ==> a.build == b.build;
    assert Stored(a.revision) == Stored(b.revision) ==> a.revision == b.revision;
    if a.major != b.major then CompareInt(a.major, b.major)
    else if a.minor != b.minor then CompareInt(a.minor, b.minor)
    else if Stored(a.build) != Stored(b.build) then CompareInt(Stored(a.build), Stored(b.build))
    else CompareInt(Stored(a.revision), Stored(b.revision))
  }

  /** `v1 < v2` on System.Version. */
  predicate Less(a: Version, b: Version) {
    Compare(a, b) < 0
  }

  /** `v1 > v2` on System.Version, which the library defines as `v2 < v1`. */
  predicate Greater(a: Version, b: Version) {
    Less(b, a)
  }

  /** `>` is the same as CompareTo returning 1. */
  lemma GreaterIsCompareAbove(a: Version, b: Version)
    ensures Greater(a, b) <==> Compare(a, b) > 0
  {
    CompareAntisymmetric(a, b);
  }

  /** CompareTo is antisymmetric and is zero exactly on equal versions. */
  lemma CompareAntisymmetric(a: Version, b: Version)
    ensures Compare(a, b) == -Compare(b, a)
    ensures Compare(a, b) == 0 <==> a == b
  {
    if Stored(a.build) == Stored(b.build) {
      assert a.build == b.build;
    }
    if Stored(a.revision) == Stored(b.revision) {
      assert a.revision == b.revision;
    }
  }

  /** The ordering is strict, transitive and total. */
  lemma LessIsStrictTotalOrder(a: Version, b: Version, c: Version)
    ensures !Less(a, a)
    ensures Less(a, b) && Less(b, c) ==> Less(a, c)
    ensures a == b || Less(a, b) || Less(b, a)
    ensures Less(a, b) ==> !Less(b, a)
  {
    CompareAntisymmetric(a, b);
  }

  /** The four components in comparison order, an undefined one as -1. */
  function Key(v: Version): seq<int> {
    [v.major, v.minor, Stored(v.build), Stored(v.revision)]
  }

  /** `x` is lexicographically below `y`: they agree up to some position, where `x` is smaller. */
  predicate LexLess(x: seq<int>, y: seq<int>) {
    exists k :: 0 <= k < |x| && k < |y| && x[..k] == y[..k] && x[k] < y[k]
  }

  /** `<` on versions is the lexicographic order of their components. */
  lemma LessIsLexicographic(a: Version, b: Version)
    ensures Less(a, b) <==> LexLess(Key(a), Key(b))
  {
    var x, y := Key(a), Key(b);
    if Less(a, b) {
      var k := if a.major != b.major then 0
        else if a.minor != b.minor then 1
        else if Stored(a.build) != Stored(b.build) then 2
        else 3;
      assert x[..k] == y[..k];
    }
    if LexLess(x, y) {
      var k :| 0 <= k < |x| && k < |y| && x[..k] == y[..k] && x[k] < y[k];
      assert forall j :: 0 <= j < k ==> x[j] == x[..k][j] == y[..k][j] == y[j];
      assert x[0] == a.major && y[0] == b.major && x[1] == a.minor && y[1] == b.minor;
      assert x[2] == Stored(a.build) && y[2] == Stored(b.build);
      assert x[3] == Stored(a.revision) && y[3] == Stored(b.revision);
    }
  }

  /** A missing build number sorts before a build of zero: 1.0 < 1.0.0. */
  lemma ShorterVersionSortsFirst(major: nat, minor: nat)
    ensures Less(Version(major, minor, None, None), Version(major, minor, Some(0), None))
  {
  }

  /** The decimal strings of the components ToString prints, in order. */
  function ComponentStrings(v: Version): (parts: seq<string>)
    ensures 2 <= |parts| <= 4
  {
    [NatToDecimal(v.major), NatToDecimal(v.minor)]
    + (match v.build
       case None => []
       case Some(b) =>
         [NatToDecimal(b)] + (match v.revision case None => [] case Some(r) => [NatToDecimal(r)]))
  }

  /**
   Version.ToString(): the defined components joined with dots. When the
   build is undefined only major.minor is printed.
   */
  function ToString(v: Version): string {
    JoinWith(ComponentStrings(v), '.')
  }

  /**
   ToString prints exactly the defined components, each as a non-empty run
   of digits, separated by dots.
   */
  lemma ToStringShape(v: Version)
    ensures var parts := SplitOn(ToString(v), '.');
      && |parts| == FieldCount(v)
      && forall i :: 0 <= i < |parts| ==> |parts[i]| >= 1 && AllDigits(parts[i])
  {
    var parts := ComponentStrings(v);
    assert forall i :: 0 <= i < |parts| ==> |parts[i]| >= 1 && AllDigits(parts[i]) && '.' !in parts[i];
    SplitJoin(parts, '.');
  }

  /** How many components ToString prints: two, three with a build, four with a revision too. */
  function FieldCount(v: Version): nat {
    if v.build.None? then 2 else if v.revision.None? then 3 else 4
  }

  /** One component of a version string: a non-empty run of digits that fits in an Int32. */
  function ParseComponent(s: string): (r: Option<nat>)
    ensures r.Some? <==> |s| >= 1 && AllDigits(s) && DecimalValue(s) <= MaxComponent
    ensures r.Some? ==> r.value == DecimalValue(s)
  {
    if |s| >= 1 && AllDigits(s) && DecimalValue(s) <= MaxComponent then Some(DecimalValue(s)) else None
  }

  /** A component printed by ToString is read back as the same number. */
  lemma ParseComponentOfDecimal(n: nat)
    requires n <= MaxComponent
    ensures ParseComponent(NatToDecimal(n)) == Some(n)
  {
  }

  /** The empty string, a string with a non-digit, and a value above Int32.MaxValue are refused. */
  lemma ParseComponentRejects(s: string, i: int)
    ensures ParseComponent("") == None
    ensures 0 <= i < |s| && !IsDigit(s[i]) ==> ParseComponent(s) == None
    ensures AllDigits(s) && DecimalValue(s) > MaxComponent ==> ParseComponent(s) == None
    ensures ParseComponent(NatToDecimal(MaxComponent + 1)) == None
  {
  }

  /**
   Version.TryParse: two to four dot-separated components, each a
   non-negative Int32 written in decimal. None stands for `false`.
   */
  function TryParse(s: string): (r: Option<Version>)
    ensures r.Some? ==> Valid(r.value)
  {
    var parts := SplitOn(s, '.');
    if |parts| < 2 || |parts| > 4 then None
    else
      var major := ParseComponent(parts[0]);
      var minor := ParseComponent(parts[1]);
      var build := if |parts| >= 3 then ParseComponent(parts[2]) else None;
      var revision := if |parts| == 4 then ParseComponent(parts[3]) else None;
      if major.None? || minor.None? then None
      else if |parts| >= 3 && build.None? then None
      else if |parts| == 4 && revision.None? then None
      else Some(Version(major.value, minor.value, build, revision))
  }

  /** Every valid version is read back from the string ToString prints. */
  lemma {:induction false} ParseToString(v: Version)
    requires Valid(v)
    ensures TryParse(ToString(v)) == Some(v)
  {
    var parts := ComponentStrings(v);
    forall i | 0 <= i < |parts|
      ensures '.' !in parts[i]
    {
      assert AllDigits(parts[i]);
    }
    SplitJoin(parts, '.');
  }

  /** Distinct valid versions print differently. */
  lemma ToStringInjective(a: Version, b: Version)
    requires Valid(a) && Valid(b)
    requires ToString(a) == ToString(b)
    ensures a == b
  {
    ParseToString(a);
    ParseToString(b);
  }

  /**
   What TryParse reads. A parsed tag splits at its dots into as many pieces
   as the version has defined components. Each piece is a non-empty run of
   digits whose decimal value is the matching component, so leading zeros
   are allowed. Conversely, a tag of two to four pieces, each an in-range
   digit run, always parses.
   */
  lemma TryParseReadsPieces(s: string)
    ensures TryParse(s).Some? ==>
      var v := TryParse(s).value;
      var parts := SplitOn(s, '.');
      && |parts| == FieldCount(v)
      && forall i :: 0 <= i < |parts| ==>
           |parts[i]| >= 1 && AllDigits(parts[i]) && DecimalValue(parts[i]) == Key(v)[i]
    ensures var parts := SplitOn(s, '.');
      (2 <= |parts| <= 4 && forall i :: 0 <= i < |parts| ==> ParseComponent(parts[i]).Some?)
        ==> TryParse(s).Some?
  {
  }

  /** Five components are more than a version holds. */
  lemma FiveComponentsRejected()
    ensures TryParse("1.2.3.4.5") == None
  {
  }

  /** A leading letter, as in "v1.2", is not a digit. */
  lemma LetterPrefixRejected()
    ensures TryParse("v1.2") == None
  {
  }

  /** An empty component between two dots is refused. */
  lemma EmptyComponentRejected()
    ensures TryParse("1..2") == None
  {
  }

  /** Leading zeros are read as part of the decimal value. */
  lemma LeadingZeroAccepted()
    ensures TryParse("01.2") == Some(Version(1, 2, None, None))
  {
    assert "01.2"[1..] == "1.2" && "1.2"[1..] == ".2" && ".2"[1..] == "2" && "2"[1..] == "";
    assert SplitOn("2", '.') == ["2"];
    assert SplitOn(".2", '.') == ["", "2"];
    assert ["", "2"][1..] == ["2"] && ['1'] + "" == "1";
    assert SplitOn("1.2", '.') == ["1", "2"];
    assert ["1", "2"][1..] == ["2"] && ['0'] + "1" == "01";
    assert SplitOn("01.2", '.') == ["01", "2"];
    assert "01"[..1] == "0" && "0"[..0] == "";
    assert DecimalValue("01") == 1;
  }

  /** A tag with no dot is never a version, e.g. "not-a-version". */
  lemma {:induction false} DotlessTagDoesNotParse(s: string)
    requires '.' !in s
    ensures TryParse(s) == None
  {
    SplitJoin([s], '.');
  }
}
