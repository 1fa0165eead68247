/** `parseVersion` (scripts/update-appcast.js): the regular expression
    `(?:desktop-)?v?(\d+)\.(\d+)\.(\d+)(?:-([a-zA-Z0-9.]+))?`, unanchored, written out as a
    scanner that looks for the leftmost `digits.digits.digits` run of the tag. */
module VersionParser {
  import opened Wrappers
  import opened Digits

  /** What `parseVersion` returns on a match. */
  datatype ParsedVersion = ParsedVersion(
    major: nat,
    minor: nat,
    patch: nat,
    prerelease: string,   // '' when the tag has no `-suffix`
    originalTag: string)

  /** The character class `[a-zA-Z0-9.]` of the prerelease group. */
  predicate IsPrereleaseChar(c: char) {
    'a' <= c <= 'z' || 'A' <= c <= 'Z' || IsDigit(c) || c == '.'
  }

  /** Length of the digit run from position i on: what a greedy `\d+` consumes there. */
  function DigitRun(s: string, i: nat): (n: nat)
    requires i <= |s|
    ensures i + n <= |s|
    decreases |s| - i
  {
    if i < |s| && IsDigit(s[i]) then 1 + DigitRun(s, i + 1) else 0
  }

  /** The digit run is all digits and stops at the end or at a non-digit. */
  lemma {:induction false} DigitRunMaximal(s: string, i: nat)
    requires i <= |s|
    ensures DigitsBetween(s, i, i + DigitRun(s, i))
    ensures i + DigitRun(s, i) == |s| || !IsDigit(s[i + DigitRun(s, i)])
    decreases |s| - i
  {
    if i < |s| && IsDigit(s[i]) {
      DigitRunMaximal(s, i + 1);
    }
  }

  /** Length of the `[a-zA-Z0-9.]` run from position i on: what the greedy prerelease
      group consumes there. */
  function PrereleaseRun(s: string, i: nat): (n: nat)
    requires i <= |s|
    ensures i + n <= |s|
    decreases |s| - i
  {
    if i < |s| && IsPrereleaseChar(s[i]) then 1 + PrereleaseRun(s, i + 1) else 0
  }

  /** The prerelease run is all class characters and stops at the end or at a character
      outside the class. */
  lemma {:induction false} PrereleaseRunMaximal(s: string, i: nat)
    requires i <= |s|
    ensures forall k :: i <= k < i + PrereleaseRun(s, i) ==> IsPrereleaseChar(s[k])
    ensures i + PrereleaseRun(s, i) == |s| || !IsPrereleaseChar(s[i + PrereleaseRun(s, i)])
    decreases |s| - i
  {
    if i < |s| && IsPrereleaseChar(s[i]) {
      PrereleaseRunMaximal(s, i + 1);
    }
  }

  /** Where the three digit runs of `(\d+)\.(\d+)\.(\d+)` end when that core matches at q:
      the two dots and the end of the patch digits. */
  datatype Triple = Triple(dot1: nat, dot2: nat, end: nat)

  function TripleAt(s: string, q: nat): (r: Option<Triple>)
    requires q <= |s|
    ensures r.Some? ==>
      && q < r.value.dot1 && r.value.dot1 + 1 < r.value.dot2 && r.value.dot2 + 1 < r.value.end <= |s|
      && s[r.value.dot1] == '.' && s[r.value.dot2] == '.'
  {
    var j := q + DigitRun(s, q);
    if j == q || j == |s| || s[j] != '.' then None
    else
      var k := j + 1 + DigitRun(s, j + 1);
      if k == j + 1 || k == |s| || s[k] != '.' then None
      else
        var e := k + 1 + DigitRun(s, k + 1);
        if e == k + 1 then None else Some(Triple(j, k, e))
  }

  predicate DigitsBetween(s: string, lo: nat, hi: nat)
    requires lo <= hi <= |s|
  {
    forall x :: lo <= x < hi ==> IsDigit(s[x])
  }

  /** The three runs a triple spans are maximal runs of digits. */
  lemma TripleDigits(s: string, q: nat)
    requires q <= |s| && TripleAt(s, q).Some?
    ensures var t := TripleAt(s, q).value;
      && DigitsBetween(s, q, t.dot1) && DigitsBetween(s, t.dot1 + 1, t.dot2)
      && DigitsBetween(s, t.dot2 + 1, t.end) && (t.end == |s| || !IsDigit(s[t.end]))
      && AllDigits(s[q..t.dot1]) && AllDigits(s[t.dot1 + 1..t.dot2]) && AllDigits(s[t.dot2 + 1..t.end])
  {
    var t := TripleAt(s, q).value;
    DigitRunMaximal(s, q);
    DigitRunMaximal(s, t.dot1 + 1);
    DigitRunMaximal(s, t.dot2 + 1);
    DigitsSlice(s, q, t.dot1);
    DigitsSlice(s, t.dot1 + 1, t.dot2);
    DigitsSlice(s, t.dot2 + 1, t.end);
  }

  lemma DigitsSlice(s: string, lo: nat, hi: nat)
    requires lo <= hi <= |s| && DigitsBetween(s, lo, hi)
    ensures AllDigits(s[lo..hi])
  {
    var t := s[lo..hi];
    forall k | 0 <= k < |t| ensures IsDigit(t[k]) {
      assert t[k] == s[lo + k];
    }
  }

  /** A run that starts at i, is all digits and ends where the digits stop is the greedy one. */
  lemma DigitRunIs(s: string, i: nat, m: nat)
    requires i <= m <= |s| && DigitsBetween(s, i, m)
    requires m == |s| || !IsDigit(s[m])
    ensures DigitRun(s, i) == m - i
  {
    DigitRunMaximal(s, i);
  }

  /** The same for a run of prerelease characters. */
  lemma PrereleaseRunIs(s: string, i: nat, m: nat)
    requires i <= m <= |s|
    requires forall x :: i <= x < m ==> IsPrereleaseChar(s[x])
    requires m == |s| || !IsPrereleaseChar(s[m])
    ensures PrereleaseRun(s, i) == m - i
  {
    PrereleaseRunMaximal(s, i);
  }

  /** Digits from q to j, a dot, digits to k, a dot, digits to e: the shape of a
      `digits.digits.digits` run that begins at q. */
  predicate TripleShape(s: string, q: nat, j: nat, k: nat, e: nat)
  {
    && q < j && j + 1 < k && k + 1 < e <= |s|
    && s[j] == '.' && s[k] == '.'
    && DigitsBetween(s, q, j) && DigitsBetween(s, j + 1, k) && DigitsBetween(s, k + 1, e)
  }

  /** `s` holds a `digits.digits.digits` run that begins at q: the reference reading of
      `(\d+)\.(\d+)\.(\d+)` matching at q. */
  ghost predicate HasTripleAt(s: string, q: nat)
  {
    exists j: nat, k: nat, e: nat :: TripleShape(s, q, j, k, e)
  }

  /** The scanner finds a triple at q exactly when one begins there. */
  lemma TripleAtIff(s: string, q: nat)
    requires q <= |s|
    ensures TripleAt(s, q).Some? <==> HasTripleAt(s, q)
  {
    if TripleAt(s, q).Some? {
      var t := TripleAt(s, q).value;
      TripleDigits(s, q);
      assert TripleShape(s, q, t.dot1, t.dot2, t.end);
    }
    if HasTripleAt(s, q) {
      var j: nat, k: nat, e: nat :| TripleShape(s, q, j, k, e);
      DigitRunIs(s, q, j);
      DigitRunIs(s, j + 1, k);
      assert IsDigit(s[k + 1]);
    }
  }

  /** The first position at or after i where a triple begins. */
  function LeftmostTriple(s: string, i: nat): (r: Option<nat>)
    requires i <= |s|
    ensures r.Some? ==> i <= r.value <= |s| && TripleAt(s, r.value).Some?
    decreases |s| - i
  {
    if TripleAt(s, i).Some? then Some(i)
    else if i == |s| then None
    else LeftmostTriple(s, i + 1)
  }

  /** No triple begins between i and the position found, nor anywhere from i on when none
      is found. */
  lemma {:induction false} LeftmostTripleFirst(s: string, i: nat)
    requires i <= |s|
    ensures forall x :: i <= x <= |s| && (LeftmostTriple(s, i).None? || x < LeftmostTriple(s, i).value) ==>
      TripleAt(s, x).None?
    decreases |s| - i
  {
    if TripleAt(s, i).None? && i < |s| {
      LeftmostTripleFirst(s, i + 1);
    }
  }

  /** A position where a triple begins, with none between i and it, is the leftmost one
      from i on. */
  lemma {:induction false} LeftmostTripleIs(s: string, i: nat, q: nat)
    requires i <= q <= |s| && TripleAt(s, q).Some?
    requires forall x: nat :: i <= x < q ==> TripleAt(s, x).None?
    ensures LeftmostTriple(s, i) == Some(q)
    decreases q - i
  {
    if i < q {
      LeftmostTripleIs(s, i + 1, q);
    }
  }

  /** The optional group `(?:-([a-zA-Z0-9.]+))?` after the patch digits, which end at e:
      the greedy run of class characters after a `-` at e, or '' when the group does not
      match. */
  function PrereleaseAfter(s: string, e: nat): (pre: string)
    requires e <= |s|
    ensures forall c :: c in pre ==> IsPrereleaseChar(c)
    ensures pre == "" <==> !(e + 1 < |s| && s[e] == '-' && IsPrereleaseChar(s[e + 1]))
  {
    PrereleaseRunMaximal(s, if e < |s| then e + 1 else |s|);
    var pre := if e < |s| && s[e] == '-' then s[e + 1..e + 1 + PrereleaseRun(s, e + 1)] else "";
    assert forall k :: 0 <= k < |pre| ==> IsPrereleaseChar(pre[k]);
    pre
  }

  /** The captures of a match whose first digit run begins at q and whose runs end as t
      says: the numbers of the three runs, the prerelease group and the tag itself. */
  function CaptureAt(s: string, q: nat, t: Triple): (v: ParsedVersion)
    requires q <= |s| && TripleAt(s, q) == Some(t)
    ensures v.originalTag == s
  {
    TripleDigits(s, q);
    ParsedVersion(
      Value(s[q..t.dot1]),
      Value(s[t.dot1 + 1..t.dot2]),
      Value(s[t.dot2 + 1..t.end]),
      PrereleaseAfter(s, t.end),
      s)
  }

  /** `parseVersion(versionString)`: None where the source returns null. */
  function ParseVersion(tag: string): (r: Option<ParsedVersion>)
    ensures r.Some? ==> r.value.originalTag == tag
  {
    match LeftmostTriple(tag, 0)
    case None => None
    case Some(q) => Some(CaptureAt(tag, q, TripleAt(tag, q).value))
  }

  /** Parsing fails exactly when the tag holds no `digits.digits.digits` run anywhere. */
  lemma ParseFailsIffNoTriple(tag: string)
    ensures ParseVersion(tag).None? <==> forall q: nat :: q <= |tag| ==> !HasTripleAt(tag, q)
  {
    LeftmostTripleFirst(tag, 0);
    forall q: nat | q <= |tag| {
      TripleAtIff(tag, q);
    }
  }

  /** The optional prefixes the pattern allows before the major digits. */
  predicate IsOptionalPrefix(prefix: string) {
    prefix == "desktop-v" || prefix == "desktop-" || prefix == "v" || prefix == ""
  }

  /** The whole pattern `(?:desktop-)?v?(\d+)\.(\d+)\.(\d+)` matches at p, consuming
      `prefix` before the major digits. */
  ghost predicate PatternMatchesAt(s: string, p: nat, prefix: string)
  {
    && IsOptionalPrefix(prefix)
    && p + |prefix| <= |s|
    && s[p..p + |prefix|] == prefix
    && HasTripleAt(s, p + |prefix|)
  }

  lemma PrefixHasNoDigit(prefix: string)
    requires IsOptionalPrefix(prefix)
    ensures forall k :: 0 <= k < |prefix| ==> !IsDigit(prefix[k])
  {
    if prefix == "desktop-v" {
      assert forall k :: 0 <= k < 9 ==> prefix[k] in {'d', 'e', 's', 'k', 't', 'o', 'p', '-', 'v'};
    } else if prefix == "desktop-" {
      assert forall k :: 0 <= k < 8 ==> prefix[k] in {'d', 'e', 's', 'k', 't', 'o', 'p', '-'};
    }
  }

  /** No triple begins on a character that is not a digit. */
  lemma NoTripleAtNonDigit(s: string, x: nat)
    requires x < |s| && !IsDigit(s[x])
    ensures TripleAt(s, x).None?
  {
  }

  /** A triple at x would be a match of the pattern with the empty prefix at x. */
  lemma NoEarlierTriple(s: string, x: nat, p: nat)
    requires x < p
    requires forall p': nat, prefix' :: p' < p ==> !PatternMatchesAt(s, p', prefix')
    ensures x <= |s| ==> TripleAt(s, x).None?
  {
    if x <= |s| {
      assert !PatternMatchesAt(s, x, "");
      assert s[x..x] == "";
      TripleAtIff(s, x);
    }
  }

  /** The regular expression reports its leftmost match. Whatever optional prefix that
      match consumes, its captures are those of the leftmost triple: the prefixes hold
      no digit, and a triple further left would itself be an earlier match. */
  lemma LeftmostMatchCaptures(s: string, p: nat, prefix: string)
    requires PatternMatchesAt(s, p, prefix)
    requires forall p': nat, prefix' :: p' < p ==> !PatternMatchesAt(s, p', prefix')
    ensures TripleAt(s, p + |prefix|).Some? && ParseVersion(s) == Some(CaptureAt(s, p + |prefix|, TripleAt(s, p + |prefix|).value))
  {
    var q := p + |prefix|;
    TripleAtIff(s, q);
    forall x: nat | x < q ensures TripleAt(s, x).None? {
      if x < p {
        NoEarlierTriple(s, x, p);
      } else {
        assert s[p..q][x - p] == s[x];
        NoTripleAtNonDigit(s, x);
      }
    }
    LeftmostTripleIs(s, 0, q);
  }

  /** `versionNumber`: `major.minor.patch`, then `-prerelease` when there is one. */
  function VersionNumber(v: ParsedVersion): string
  {
    Show(v.major) + "." + Show(v.minor) + "." + Show(v.patch) + Suffix(v.prerelease)
  }

  function Suffix(prerelease: string): string {
    if prerelease != "" then "-" + prerelease else ""
  }

  /** A numeral followed by something that does not start with a digit is exactly what
      the greedy `\d+` consumes. */
  lemma NumeralAt(tag: string, i: nat, num: string, rest: string)
    requires i <= |tag| && tag[i..] == num + rest
    requires |num| > 0 && AllDigits(num) && (rest == [] || !IsDigit(rest[0]))
    ensures i + |num| <= |tag| && DigitRun(tag, i) == |num|
    ensures tag[i..i + |num|] == num && tag[i + |num|..] == rest
  {
    var m := i + |num|;
    forall k | i <= k < m ensures IsDigit(tag[k]) {
      assert tag[k] == (num + rest)[k - i];
    }
    assert tag[m..] == (num + rest)[|num|..];
    assert m == |tag| || tag[m] == rest[0];
    DigitRunIs(tag, i, m);
  }

  /** A numeral followed by a dot: the digit run stops at the dot. */
  lemma NumeralThenDot(tag: string, i: nat, num: string, after: string)
    requires i <= |tag| && tag[i..] == num + ("." + after)
    requires |num| > 0 && AllDigits(num)
    ensures i + |num| < |tag| && DigitRun(tag, i) == |num|
    ensures tag[i..i + |num|] == num && tag[i + |num|] == '.' && tag[i + |num| + 1..] == after
  {
    var m := i + |num|;
    NumeralAt(tag, i, num, "." + after);
    assert tag[m] == tag[m..][0];
    assert tag[m + 1..] == tag[m..][1..];
  }

  /** TripleAt read off the lengths of the three greedy digit runs. */
  lemma TripleFromRuns(s: string, q: nat, t: Triple)
    requires q < t.dot1 < |s| && t.dot1 + 1 < t.dot2 < |s| && t.dot2 + 1 < t.end <= |s|
    requires s[t.dot1] == '.' && s[t.dot2] == '.'
    requires DigitRun(s, q) == t.dot1 - q
    requires DigitRun(s, t.dot1 + 1) == t.dot2 - t.dot1 - 1
    requires DigitRun(s, t.dot2 + 1) == t.end - t.dot2 - 1
    ensures TripleAt(s, q) == Some(t)
  {
  }

  /** The minor and patch numerals of a formatted version, from the minor's first digit:
      each digit run stops where its numeral does. */
  lemma FormattedTail(tag: string, j: nat, k: nat, e: nat, s2: string, s3: string, rest: string)
    requires AllDigits(s2) && AllDigits(s3) && |s2| > 0 && |s3| > 0
    requires rest == [] || !IsDigit(rest[0])
    requires k == j + 1 + |s2| && e == k + 1 + |s3|
    requires j + 1 <= |tag| && tag[j + 1..] == s2 + ("." + (s3 + rest))
    ensures e <= |tag| && tag[k] == '.'
    ensures DigitRun(tag, j + 1) == k - j - 1 && DigitRun(tag, k + 1) == e - k - 1
    ensures tag[j + 1..k] == s2 && tag[k + 1..e] == s3 && tag[e..] == rest
  {
    NumeralThenDot(tag, j + 1, s2, s3 + rest);
    NumeralAt(tag, k + 1, s3, rest);
  }

  /** The positions in a formatted version: the three numerals end exactly at the dots
      and at the end of the patch numeral. */
  lemma FormattedTriple(tag: string, q: nat, s1: string, s2: string, s3: string, rest: string)
      returns (t: Triple)
    requires AllDigits(s1) && AllDigits(s2) && AllDigits(s3)
    requires |s1| > 0 && |s2| > 0 && |s3| > 0
    requires rest == [] || rest[0] == '-'
    requires q <= |tag| && tag[q..] == s1 + ("." + (s2 + ("." + (s3 + rest))))
    ensures q < t.dot1 < t.dot2 < t.end <= |tag| && tag[t.dot1] == '.' && tag[t.dot2] == '.'
    ensures DigitRun(tag, q) == t.dot1 - q && DigitRun(tag, t.dot1 + 1) == t.dot2 - t.dot1 - 1
    ensures DigitRun(tag, t.dot2 + 1) == t.end - t.dot2 - 1
    ensures tag[q..t.dot1] == s1 && tag[t.dot1 + 1..t.dot2] == s2 && tag[t.dot2 + 1..t.end] == s3
    ensures tag[t.end..] == rest
  {
    var j := q + |s1|;
    var k := j + 1 + |s2|;
    t := Triple(j, k, k + 1 + |s3|);
    NumeralThenDot(tag, q, s1, s2 + ("." + (s3 + rest)));
    FormattedTail(tag, t.dot1, t.dot2, t.end, s2, s3, rest);
  }

  /** The captures at the start of a formatted version are the parts it was made from. */
  lemma CaptureOfFormatted(tag: string, q: nat, major: nat, minor: nat, patch: nat, prerelease: string)
    requires forall c :: c in prerelease ==> IsPrereleaseChar(c)
    requires q <= |tag|
    requires tag[q..] == Show(major) + ("." + (Show(minor) + ("." + (Show(patch) + Suffix(prerelease)))))
    ensures TripleAt(tag, q).Some?
    ensures CaptureAt(tag, q, TripleAt(tag, q).value) == ParsedVersion(major, minor, patch, prerelease, tag)
  {
    ShowIsNumeral(major);
    ShowIsNumeral(minor);
    ShowIsNumeral(patch);
    var t := FormattedTriple(tag, q, Show(major), Show(minor), Show(patch), Suffix(prerelease));
    CaptureOfPositions(tag, q, t, major, minor, patch, prerelease);
  }

  /** The same read off the positions of the dots and the digit runs. */
  lemma CaptureOfPositions(tag: string, q: nat, t: Triple, major: nat, minor: nat, patch: nat, prerelease: string)
    requires forall c :: c in prerelease ==> IsPrereleaseChar(c)
    requires q < t.dot1 < t.dot2 < t.end <= |tag| && tag[t.dot1] == '.' && tag[t.dot2] == '.'
    requires DigitRun(tag, q) == t.dot1 - q && DigitRun(tag, t.dot1 + 1) == t.dot2 - t.dot1 - 1
    requires DigitRun(tag, t.dot2 + 1) == t.end - t.dot2 - 1
    requires tag[q..t.dot1] == Show(major) && tag[t.dot1 + 1..t.dot2] == Show(minor)
    requires tag[t.dot2 + 1..t.end] == Show(patch) && tag[t.end..] == Suffix(prerelease)
    ensures TripleAt(tag, q) == Some(t)
    ensures CaptureAt(tag, q, t) == ParsedVersion(major, minor, patch, prerelease, tag)
  {
    TripleFromRuns(tag, q, t);
    CaptureMajor(tag, q, t, major);
    CaptureMinor(tag, q, t, minor);
    CapturePatch(tag, q, t, patch);
    CapturePrerelease(tag, q, t, prerelease);
  }

  lemma CaptureMajor(tag: string, q: nat, t: Triple, major: nat)
    requires q <= |tag| && TripleAt(tag, q) == Some(t) && tag[q..t.dot1] == Show(major)
    ensures CaptureAt(tag, q, t).major == major
  {
    ValueOfShow(major);
  }

  lemma CaptureMinor(tag: string, q: nat, t: Triple, minor: nat)
    requires q <= |tag| && TripleAt(tag, q) == Some(t) && tag[t.dot1 + 1..t.dot2] == Show(minor)
    ensures CaptureAt(tag, q, t).minor == minor
  {
    ValueOfShow(minor);
  }

  lemma CapturePatch(tag: string, q: nat, t: Triple, patch: nat)
    requires q <= |tag| && TripleAt(tag, q) == Some(t) && tag[t.dot2 + 1..t.end] == Show(patch)
    ensures CaptureAt(tag, q, t).patch == patch
  {
    ValueOfShow(patch);
  }

  lemma CapturePrerelease(tag: string, q: nat, t: Triple, prerelease: string)
    requires forall c :: c in prerelease ==> IsPrereleaseChar(c)
    requires q <= |tag| && TripleAt(tag, q) == Some(t) && tag[t.end..] == Suffix(prerelease)
    ensures CaptureAt(tag, q, t).prerelease == prerelease
  {
    PrereleaseOfSuffix(tag, t.end, prerelease);
  }

  /** A `-prerelease` suffix at the end of the tag is captured whole. */
  lemma PrereleaseOfSuffix(tag: string, e: nat, prerelease: string)
    requires forall c :: c in prerelease ==> IsPrereleaseChar(c)
    requires e <= |tag| && tag[e..] == Suffix(prerelease)
    ensures PrereleaseAfter(tag, e) == prerelease
  {
    if prerelease != "" {
      assert tag[e] == '-';
      assert tag[e + 1..] == prerelease;
      forall x | e + 1 <= x < |tag| ensures IsPrereleaseChar(tag[x]) {
        assert tag[x] == prerelease[x - e - 1];
      }
      PrereleaseRunIs(tag, e + 1, |tag|);
    }
  }

  /** Formatting then parsing: a tag made of an optional prefix, three numerals without
      leading zeros and an optional `-prerelease` parses back to exactly those parts, and
      its version string is the tag with the prefix removed. */
  lemma ParseVersionRoundTrip(prefix: string, major: nat, minor: nat, patch: nat, prerelease: string)
    requires IsOptionalPrefix(prefix)
    requires forall c :: c in prerelease ==> IsPrereleaseChar(c)
    ensures var tag := prefix + VersionNumber(ParsedVersion(major, minor, patch, prerelease, ""));
      && ParseVersion(tag) == Some(ParsedVersion(major, minor, patch, prerelease, tag))
      && VersionNumber(ParseVersion(tag).value) == tag[|prefix|..]
  {
    var body := VersionNumber(ParsedVersion(major, minor, patch, prerelease, ""));
    var tag := prefix + body;
    var q := |prefix|;
    assert tag[q..] == body;
    assert body == Show(major) + ("." + (Show(minor) + ("." + (Show(patch) + Suffix(prerelease)))));
    CaptureOfFormatted(tag, q, major, minor, patch, prerelease);
    PrefixHasNoDigit(prefix);
    forall x: nat | x < q ensures TripleAt(tag, x).None? {
      assert tag[x] == prefix[x];
      NoTripleAtNonDigit(tag, x);
    }
    LeftmostTripleIs(tag, 0, q);
  }
}
