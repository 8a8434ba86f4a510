/**
 Simplified models of the .NET string and path helpers that the release
 selection calls: decimal digit strings (as read and printed by
 System.Version), splitting at a separator, ordinal case-insensitive
 equality restricted to ASCII, and Path.GetFileName with '/' as the only
 directory separator.
 */
module Text {

  /** An ASCII decimal digit. */
  predicate IsDigit(c: char) {
    '0' <= c <= '9'
  }

  predicate AllDigits(s: string) {
    forall i :: 0 <= i < |s| ==> IsDigit(s[i])
  }

  function DigitValue(c: char): (d: nat)
    requires IsDigit(c)
    ensures d < 10
  {
    c as int - '0' as int
  }

  function DigitChar(d: nat): (c: char)
    requires d < 10
    ensures IsDigit(c) && DigitValue(c) == d
  {
    ('0' as int + d) as char
  }

  /** The value of a string of decimal digits, most significant first; leading zeros are allowed. */
  function DecimalValue(s: string): nat
    requires AllDigits(s)
  {
    if |s| == 0 then 0 else DecimalValue(s[..|s| - 1]) * 10 + DigitValue(s[|s| - 1])
  }

  /** The canonical decimal form of `n`, as Int32.ToString prints a non-negative value. */
  function NatToDecimal(n: nat): (s: string)
    ensures |s| >= 1 && AllDigits(s)
    ensures DecimalValue(s) == n
    ensures s[0] == '0' ==> s == "0"
  {
    if n < 10 then [DigitChar(n)]
    else
      var prefix := NatToDecimal(n / 10);
      var s := prefix + [DigitChar(n % 10)];
      assert s[..|s| - 1] == prefix;
      s
  }

  /** Joins `parts` with `sep` between neighbours (String.Join with a one-character separator). */
  function JoinWith(parts: seq<string>, sep: char): string
    requires |parts| >= 1
  {
    if |parts| == 1 then parts[0] else parts[0] + [sep] + JoinWith(parts[1..], sep)
  }

  /** String.Split at every occurrence of `sep`; empty pieces are kept. */
  function SplitOn(s: string, sep: char): (parts: seq<string>)
    ensures |parts| >= 1
    ensures forall i :: 0 <= i < |parts| ==> sep !in parts[i]
    ensures JoinWith(parts, sep) == s
  {
    if |s| == 0 then [""]
    else
      var rest := SplitOn(s[1..], sep);
      if s[0] == sep then
        assert ([""] + rest)[1..] == rest;
        [""] + rest
      else
        var parts := [[s[0]] + rest[0]] + rest[1..];
        assert parts[1..] == rest[1..];
        assert forall i :: 1 <= i < |parts| ==> parts[i] == rest[i];
        parts
  }

  lemma {:induction false} SplitPrefix(a: string, tail: string, sep: char)
    requires sep !in a
    ensures SplitOn(a + tail, sep) == [a + SplitOn(tail, sep)[0]] + SplitOn(tail, sep)[1..]
  {
    if |a| == 0 {
      assert a + tail == tail;
      assert a + SplitOn(tail, sep)[0] == SplitOn(tail, sep)[0];
      assert SplitOn(tail, sep) == [SplitOn(tail, sep)[0]] + SplitOn(tail, sep)[1..];
    } else {
      var t := SplitOn(tail, sep);
      assert (a + tail)[0] == a[0] && (a + tail)[1..] == a[1..] + tail;
      SplitPrefix(a[1..], tail, sep);
      var rest := SplitOn(a[1..] + tail, sep);
      assert rest[0] == a[1..] + t[0] && rest[1..] == t[1..];
      assert [a[0]] + (a[1..] + t[0]) == a + t[0];
    }
  }

  /** Splitting undoes joining when no part contains the separator. */
  lemma {:induction false} SplitJoin(parts: seq<string>, sep: char)
    requires |parts| >= 1
    requires forall i :: 0 <= i < |parts| ==> sep !in parts[i]
    ensures SplitOn(JoinWith(parts, sep), sep) == parts
  {
    if |parts| == 1 {
      SplitPrefix(parts[0], "", sep);
      assert parts[0] + "" == parts[0];
    } else {
      var rest := JoinWith(parts[1..], sep);
      SplitJoin(parts[1..], sep);
      assert parts[0] + [sep] + rest == parts[0] + ([sep] + rest);
      SplitPrefix(parts[0], [sep] + rest, sep);
      assert ([sep] + rest)[0] == sep && ([sep] + rest)[1..] == rest;
      var s := SplitOn([sep] + rest, sep);
      assert s == [""] + SplitOn(rest, sep);
      assert s[0] == "" && s[1..] == parts[1..];
      assert parts[0] + "" == parts[0];
      assert parts == [parts[0]] + parts[1..];
    }
  }

  /** Upper-case mapping restricted to the ASCII letters. */
  function ToUpperAscii(c: char): char {
    if 'a' <= c <= 'z' then (c as int - 32) as char else c
  }

  function UpperAscii(s: string): (u: string)
    ensures |u| == |s|
    ensures forall i :: 0 <= i < |s| ==> u[i] == ToUpperAscii(s[i])
  {
    seq(|s|, i requires 0 <= i < |s| => ToUpperAscii(s[i]))
  }

  /**
   String.Equals(a, b, StringComparison.OrdinalIgnoreCase): equal lengths
   and, position by position, characters that agree once upper-cased.
   */
  function EqualsOrdinalIgnoreCase(a: string, b: string): bool {
    |a| == |b| && (|a| == 0 || (ToUpperAscii(a[0]) == ToUpperAscii(b[0]) && EqualsOrdinalIgnoreCase(a[1..], b[1..])))
  }

  /** Two strings are equal ignoring case exactly when their upper-cased forms are identical. */
  lemma {:induction false} IgnoreCaseMeansSameUpper(a: string, b: string)
    ensures EqualsOrdinalIgnoreCase(a, b) <==> UpperAscii(a) == UpperAscii(b)
  {
    if |a| == |b| && |a| > 0 {
      IgnoreCaseMeansSameUpper(a[1..], b[1..]);
      assert UpperAscii(a) == [ToUpperAscii(a[0])] + UpperAscii(a[1..]);
      assert UpperAscii(b) == [ToUpperAscii(b[0])] + UpperAscii(b[1..]);
    } else if |a| != |b| {
      assert |UpperAscii(a)| != |UpperAscii(b)|;
    }
  }

  /** Ignoring case is an equivalence relation on strings. */
  lemma IgnoreCaseEquivalence(a: string, b: string, c: string)
    ensures EqualsOrdinalIgnoreCase(a, a)
    ensures EqualsOrdinalIgnoreCase(a, b) ==> EqualsOrdinalIgnoreCase(b, a)
    ensures EqualsOrdinalIgnoreCase(a, b) && EqualsOrdinalIgnoreCase(b, c) ==> EqualsOrdinalIgnoreCase(a, c)
  {
    IgnoreCaseMeansSameUpper(a, a);
    IgnoreCaseMeansSameUpper(a, b);
    IgnoreCaseMeansSameUpper(b, a);
    IgnoreCaseMeansSameUpper(b, c);
    IgnoreCaseMeansSameUpper(a, c);
  }

  /**
   Where the last path segment of `path` starts: just after the last '/',
   or 0 when there is none.
   */
  function FileNameStart(path: string): (k: nat)
    ensures k <= |path|
    ensures forall i :: k <= i < |path| ==> path[i] != '/'
    ensures k == 0 || path[k - 1] == '/'
  {
    if |path| == 0 then 0
    else if path[|path| - 1] == '/' then |path|
    else FileNameStart(path[..|path| - 1])
  }

  /**
   Path.GetFileName: the last path segment of `path`, that is everything
   after the last '/', or the whole string when it has none.
   */
  function GetFileName(path: string): string {
    path[FileNameStart(path)..]
  }

  /** The file name is the longest suffix of the path without a '/'. */
  lemma FileNameIsLastSegment(path: string)
    ensures '/' !in GetFileName(path)
    ensures |GetFileName(path)| <= |path|
    ensures path[|path| - |GetFileName(path)|..] == GetFileName(path)
    ensures |GetFileName(path)| == |path| || path[|path| - |GetFileName(path)| - 1] == '/'
  {
    var k := FileNameStart(path);
    assert forall i :: 0 <= i < |path| - k ==> GetFileName(path)[i] == path[k + i];
  }

  /** A name appended after a directory and a '/' is recovered by GetFileName. */
  lemma FileNameOfJoinedPath(dir: string, name: string)
    requires '/' !in name
    ensures GetFileName(dir + "/" + name) == name
  {
    var path := dir + "/" + name;
    var start := |path| - |name|;
    assert path[start - 1] == '/';
    assert forall k :: start <= k < |path| ==> path[k] == name[k - start];
    assert path[start..] == name;
  }
}
