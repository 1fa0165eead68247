/** `compareVersions` (scripts/update-appcast.js): the descending comparator the release
    list is sorted with, over JavaScript numbers (an integer or NaN). */
module VersionComparator {
  import opened Digits
  import opened VersionParser

  /** A JavaScript number as this comparator produces it: an integer or NaN. */
  datatype JsNumber = Finite(n: int) | NaN

  /** `x !== y`: NaN differs from every number, itself included. */
  predicate StrictlyDiffer(x: JsNumber, y: JsNumber) {
    x.NaN? || y.NaN? || x.n != y.n
  }

  /** `x - y`: NaN as soon as either side is NaN. */
  function Minus(x: JsNumber, y: JsNumber): (r: JsNumber)
    ensures r.NaN? <==> x.NaN? || y.NaN?
  {
    if x.NaN? || y.NaN? then NaN else Finite(x.n - y.n)
  }

  /** Unary minus. */
  function Negate(x: JsNumber): (r: JsNumber)
    ensures r.NaN? <==> x.NaN?
    ensures r.Finite? ==> r.n + x.n == 0
  {
    if x.NaN? then NaN else Finite(-x.n)
  }

  /** What `Array.prototype.sort` makes of a comparator result (ECMA-262 section 23.1.3.30,
      SortCompare): NaN counts as +0, so as a tie. */
  function SortCompare(x: JsNumber): (r: int)
    ensures x.NaN? ==> r == 0
    ensures x.Finite? ==> r == x.n
  {
    if x.NaN? then 0 else x.n
  }

  lemma SortCompareNegate(x: JsNumber)
    ensures SortCompare(Negate(x)) == -SortCompare(x)
  {
  }

  /** `s.split('.')`: the pieces between the dots, in order, with an empty piece before a
      leading dot, after a trailing dot and between two adjacent dots. */
  function Split(s: string): (parts: seq<string>)
    ensures |parts| >= 1
  {
    if s == [] then [[]]
    else
      var rest := Split(s[1..]);
      if s[0] == '.' then [[]] + rest
      else [[s[0]] + rest[0]] + rest[1..]
  }

  /** `parts.join('.')`, the inverse of Split. */
  function Join(parts: seq<string>): string
    requires |parts| >= 1
  {
    if |parts| == 1 then parts[0] else parts[0] + "." + Join(parts[1..])
  }

  predicate NoDot(part: string) {
    forall k :: 0 <= k < |part| ==> part[k] != '.'
  }

  /** Splitting loses nothing: the pieces hold no dot and joining them gives the string back. */
  lemma {:induction false} SplitJoin(s: string)
    ensures Join(Split(s)) == s
    ensures forall i :: 0 <= i < |Split(s)| ==> NoDot(Split(s)[i])
  {
    if s != [] {
      SplitJoin(s[1..]);
      var rest := Split(s[1..]);
      if s[0] == '.' {
        assert Split(s)[1..] == rest;
      } else {
        var head := [s[0]] + rest[0];
        assert Split(s) == [head] + rest[1..];
        if |rest| > 1 {
          assert Join(rest) == rest[0] + "." + Join(rest[1..]);
          assert Join(Split(s)) == head + "." + Join(rest[1..]);
        }
        forall k | 0 <= k < |head| ensures head[k] != '.' {
          if k > 0 {
            assert head[k] == rest[0][k - 1];
          }
        }
        forall i | 1 <= i < |Split(s)| ensures NoDot(Split(s)[i]) {
          assert Split(s)[i] == rest[i];
        }
      }
    }
  }

  /** The pieces of a string that holds no dot: the string itself. */
  lemma {:induction false} SplitNoDot(s: string)
    requires NoDot(s)
    ensures Split(s) == [s]
  {
    if s != [] {
      assert forall k :: 0 <= k < |s[1..]| ==> s[1..][k] == s[k + 1];
      SplitNoDot(s[1..]);
      assert [s[0]] + s[1..] == s;
    }
  }

  /** The pieces of `head.rest` for a head without a dot: head, then the pieces of rest. */
  lemma {:induction false} SplitAtDot(head: string, rest: string)
    requires NoDot(head)
    ensures Split(head + "." + rest) == [head] + Split(rest)
  {
    if head == [] {
      assert head + "." + rest == ['.'] + rest;
      assert (head + "." + rest)[1..] == rest;
    } else {
      var s := head + "." + rest;
      assert s[1..] == head[1..] + "." + rest;
      SplitAtDot(head[1..], rest);
      assert [s[0]] + head[1..] == head;
    }
  }

  /** The longest run of decimal digits at the start of s. */
  function LeadingDigits(s: string): (d: string)
    ensures |d| <= |s| && d == s[..|d|]
    ensures |d| == |s| || !IsDigit(s[|d|])
  {
    if s != [] && IsDigit(s[0]) then [s[0]] + LeadingDigits(s[1..]) else []
  }

  lemma {:induction false} LeadingDigitsAreDigits(s: string)
    ensures AllDigits(LeadingDigits(s))
  {
    if s != [] && IsDigit(s[0]) {
      LeadingDigitsAreDigits(s[1..]);
      var d := LeadingDigits(s[1..]);
      assert forall k :: 0 < k < |[s[0]] + d| ==> ([s[0]] + d)[k] == d[k - 1];
    }
  }

  /** `parseInt(token, 10)` (ECMA-262 section 19.2.5) for a token of the prerelease
      character class: the value of its leading decimal digits, or NaN when it does not
      start with a digit. Such a token has no white space and no sign to skip. */
  function ParseIntToken(token: string): (r: JsNumber)
    ensures r.NaN? <==> token == [] || !IsDigit(token[0])
    ensures r.Finite? ==> r.n >= 0
  {
    var d := LeadingDigits(token);
    LeadingDigitsAreDigits(token);
    if d == [] then NaN else Finite(Value(d))
  }

  /** A numeral followed by anything that does not begin with a digit parses to the
      numeral's value. */
  lemma ParseIntOfNumeral(num: string, rest: string)
    requires |num| > 0 && AllDigits(num) && (rest == [] || !IsDigit(rest[0]))
    ensures ParseIntToken(num + rest) == Finite(Value(num))
  {
    LeadingDigitsOf(num, rest);
  }

  lemma {:induction false} LeadingDigitsOf(num: string, rest: string)
    requires AllDigits(num) && (rest == [] || !IsDigit(rest[0]))
    ensures LeadingDigits(num + rest) == num
  {
    if num != [] {
      assert (num + rest)[1..] == num[1..] + rest;
      LeadingDigitsOf(num[1..], rest);
      assert [num[0]] + num[1..] == num;
    } else {
      assert num + rest == rest;
    }
  }

  /** `aParts[i] ? parseInt(aParts[i], 10) : 0`: a missing or empty piece counts as 0. */
  function PartValue(parts: seq<string>, i: nat): (r: JsNumber)
    ensures i >= |parts| || parts[i] == [] ==> r == Finite(0)
    ensures r.NaN? <==> i < |parts| && parts[i] != [] && !IsDigit(parts[i][0])
    ensures r.Finite? ==> r.n >= 0
  {
    if i < |parts| && parts[i] != [] then ParseIntToken(parts[i]) else Finite(0)
  }

  function Max(x: nat, y: nat): nat {
    if x < y then y else x
  }

  /** The loop over the prerelease pieces from position i on: the first position whose
      values differ (or are NaN) decides with `bVal - aVal`; past the longer list, 0. */
  function CompareParts(aParts: seq<string>, bParts: seq<string>, i: nat): JsNumber
    decreases Max(|aParts|, |bParts|) - i
  {
    if i >= Max(|aParts|, |bParts|) then Finite(0)
    else
      var aVal := PartValue(aParts, i);
      var bVal := PartValue(bParts, i);
      if StrictlyDiffer(aVal, bVal) then Minus(bVal, aVal)
      else CompareParts(aParts, bParts, i + 1)
  }

  /** Lines 37-48: a stable release (empty prerelease) before a prerelease, then the
      prerelease pieces. */
  function ComparePrerelease(aPre: string, bPre: string): JsNumber
  {
    if aPre == "" && bPre != "" then Finite(-1)
    else if aPre != "" && bPre == "" then Finite(1)
    else if aPre != "" && bPre != "" then CompareParts(Split(aPre), Split(bPre), 0)
    else Finite(0)
  }

  /** The comparator: negative when a is newer and sorts first. */
  function Compare(a: ParsedVersion, b: ParsedVersion): JsNumber
  {
    if a.major != b.major then Finite(b.major - a.major)
    else if a.minor != b.minor then Finite(b.minor - a.minor)
    else if a.patch != b.patch then Finite(b.patch - a.patch)
    else ComparePrerelease(a.prerelease, b.prerelease)
  }

  /** `compareVersions(a, b)`, with its loop over the prerelease pieces. */
  method CompareVersions(a: ParsedVersion, b: ParsedVersion) returns (r: JsNumber)
    ensures r == Compare(a, b)
  {
    if a.major != b.major { return Finite(b.major - a.major); }
    if a.minor != b.minor { return Finite(b.minor - a.minor); }
    if a.patch != b.patch { return Finite(b.patch - a.patch); }
    if a.prerelease == "" && b.prerelease != "" { return Finite(-1); }
    if a.prerelease != "" && b.prerelease == "" { return Finite(1); }
    if a.prerelease != "" && b.prerelease != "" {
      var aParts := Split(a.prerelease);
      var bParts := Split(b.prerelease);
      var i := 0;
      while i < Max(|aParts|, |bParts|)
        invariant i <= Max(|aParts|, |bParts|)
        invariant CompareParts(aParts, bParts, i) == Compare(a, b)
        decreases Max(|aParts|, |bParts|) - i
      {
        var aVal := PartValue(aParts, i);
        var bVal := PartValue(bParts, i);
        if StrictlyDiffer(aVal, bVal) {
          return Minus(bVal, aVal);
        }
        i := i + 1;
      }
    }
    return Finite(0);
  }

  // ---------------------------------------------------------------------------------
  // Antisymmetry

  lemma {:induction false} ComparePartsAntisymmetric(aParts: seq<string>, bParts: seq<string>, i: nat)
    ensures CompareParts(bParts, aParts, i) == Negate(CompareParts(aParts, bParts, i))
    decreases Max(|aParts|, |bParts|) - i
  {
    if i < Max(|aParts|, |bParts|) {
      ComparePartsAntisymmetric(aParts, bParts, i + 1);
    }
  }

  /** Swapping the arguments negates the result (NaN stays NaN), so the sort sees
      opposite signs, and a version ties with itself. */
  lemma CompareAntisymmetric(a: ParsedVersion, b: ParsedVersion)
    ensures Compare(b, a) == Negate(Compare(a, b))
    ensures SortCompare(Compare(b, a)) == -SortCompare(Compare(a, b))
    ensures SortCompare(Compare(a, a)) == 0
  {
    ComparePartsAntisymmetric(Split(a.prerelease), Split(b.prerelease), 0);
    ComparePartsAntisymmetric(Split(a.prerelease), Split(a.prerelease), 0);
    SortCompareNegate(Compare(a, b));
    SortCompareNegate(Compare(a, a));
  }

  // ---------------------------------------------------------------------------------
  // The numeric fields decide first

  predicate SameTriple(a: ParsedVersion, b: ParsedVersion) {
    a.major == b.major && a.minor == b.minor && a.patch == b.patch
  }

  /** `major.minor.patch` of a is lexicographically larger than that of b. */
  predicate NewerTriple(a: ParsedVersion, b: ParsedVersion) {
    a.major > b.major
    || (a.major == b.major && a.minor > b.minor)
    || (a.major == b.major && a.minor == b.minor && a.patch > b.patch)
  }

  /** When the numeric fields differ, the larger triple sorts first, whatever the
      prereleases; when they agree, only the prereleases decide. */
  lemma CompareTriples(a: ParsedVersion, b: ParsedVersion)
    ensures !SameTriple(a, b) ==> Compare(a, b).Finite?
    ensures SortCompare(Compare(a, b)) < 0 <==>
      NewerTriple(a, b) || (SameTriple(a, b) && SortCompare(ComparePrerelease(a.prerelease, b.prerelease)) < 0)
    ensures SortCompare(Compare(a, b)) > 0 <==>
      NewerTriple(b, a) || (SameTriple(a, b) && SortCompare(ComparePrerelease(a.prerelease, b.prerelease)) > 0)
    ensures SameTriple(a, b) ==> Compare(a, b) == ComparePrerelease(a.prerelease, b.prerelease)
  {
  }

  /** With equal numeric fields, a stable release sorts before any prerelease, and two
      stable releases tie. */
  lemma StableBeforePrerelease(a: ParsedVersion, b: ParsedVersion)
    requires SameTriple(a, b)
    ensures a.prerelease == "" && b.prerelease != "" ==> Compare(a, b) == Finite(-1)
    ensures a.prerelease != "" && b.prerelease == "" ==> Compare(a, b) == Finite(1)
    ensures a.prerelease == "" && b.prerelease == "" ==> Compare(a, b) == Finite(0)
  {
  }

  // ---------------------------------------------------------------------------------
  // Numeric prerelease pieces: a zero-filled lexicographic comparison, larger first

  /** Every piece is empty or starts with a digit, so every piece has a numeric value. */
  predicate NumericParts(parts: seq<string>) {
    forall i :: 0 <= i < |parts| ==> parts[i] == [] || IsDigit(parts[i][0])
  }

  /** The number a piece stands for, 0 for a missing or empty piece. */
  function Num(parts: seq<string>, i: nat): (v: int)
    requires NumericParts(parts)
    ensures v >= 0 && PartValue(parts, i) == Finite(v)
  {
    if i < |parts| && parts[i] != [] then ParseIntToken(parts[i]).n else 0
  }

  /** The pieces agree in value at every position from i to below k. */
  predicate AgreeBetween(aParts: seq<string>, bParts: seq<string>, i: nat, k: nat)
    requires NumericParts(aParts) && NumericParts(bParts)
  {
    forall m :: i <= m < k ==> Num(aParts, m) == Num(bParts, m)
  }

  /** One step of the loop over numeric pieces, valid at every position. */
  lemma CompareNumericStep(aParts: seq<string>, bParts: seq<string>, i: nat)
    requires NumericParts(aParts) && NumericParts(bParts)
    ensures CompareParts(aParts, bParts, i) ==
      if Num(aParts, i) != Num(bParts, i) then Finite(Num(bParts, i) - Num(aParts, i))
      else CompareParts(aParts, bParts, i + 1)
  {
  }

  /** Zero-fill: over numeric pieces the comparison from i is 0 exactly when the pieces
      agree up to the longer list, missing pieces counting as 0. */
  lemma {:induction false} NumericPartsTie(aParts: seq<string>, bParts: seq<string>, i: nat)
    requires NumericParts(aParts) && NumericParts(bParts)
    ensures CompareParts(aParts, bParts, i).Finite?
    ensures CompareParts(aParts, bParts, i) == Finite(0) <==>
      AgreeBetween(aParts, bParts, i, Max(|aParts|, |bParts|))
    decreases Max(|aParts|, |bParts|) - i
  {
    CompareNumericStep(aParts, bParts, i);
    if i < Max(|aParts|, |bParts|) {
      NumericPartsTie(aParts, bParts, i + 1);
    }
  }

  /** Otherwise the first position k where the pieces differ decides, larger value first,
      whatever the pieces after k hold. */
  lemma {:induction false} NumericPartsFirstDifference(aParts: seq<string>, bParts: seq<string>, i: nat, k: nat)
    requires i <= k
    requires forall m :: i <= m < k ==> PartValue(aParts, m).Finite? && PartValue(aParts, m) == PartValue(bParts, m)
    requires PartValue(aParts, k).Finite? && PartValue(bParts, k).Finite?
    requires PartValue(aParts, k) != PartValue(bParts, k)
    ensures CompareParts(aParts, bParts, i) == Finite(PartValue(bParts, k).n - PartValue(aParts, k).n)
    decreases k - i
  {
    if i < k {
      NumericPartsFirstDifference(aParts, bParts, i + 1, k);
    }
  }

  /** Transitivity of the numeric comparison from position i on, as the sort sees it. */
  lemma {:induction false} CompareNumericTransitive(aParts: seq<string>, bParts: seq<string>, cParts: seq<string>, i: nat)
    requires NumericParts(aParts) && NumericParts(bParts) && NumericParts(cParts)
    requires SortCompare(CompareParts(aParts, bParts, i)) <= 0
    requires SortCompare(CompareParts(bParts, cParts, i)) <= 0
    ensures SortCompare(CompareParts(aParts, cParts, i)) <= 0
    decreases Max(Max(|aParts|, |bParts|), |cParts|) - i
  {
    CompareNumericStep(aParts, bParts, i);
    CompareNumericStep(bParts, cParts, i);
    CompareNumericStep(aParts, cParts, i);
    if Num(aParts, i) == Num(bParts, i) && Num(bParts, i) == Num(cParts, i) {
      if i < Max(Max(|aParts|, |bParts|), |cParts|) {
        CompareNumericTransitive(aParts, bParts, cParts, i + 1);
      }
    }
  }

  /** A missing piece counts as 0: `1` ties with `1.0`. */
  lemma MissingPieceIsZero()
    ensures ComparePrerelease("1", "1.0") == Finite(0)
  {
    SplitNoDot("1");
    SplitNoDot("0");
    SplitAtDot("1", "0");
    assert "1" + "." + "0" == "1.0";
    assert Split("1.0") == ["1", "0"];
    ParseIntOfNumeral("1", "");
    ParseIntOfNumeral("0", "");
    assert "1" + "" == "1" && "0" + "" == "0";
  }

  /** Pieces compare as numbers, not as text: `1.10` sorts before `1.2`. */
  lemma PiecesCompareAsNumbers()
    ensures ComparePrerelease("1.10", "1.2") == Finite(-8)
  {
    SplitNoDot("2");
    SplitNoDot("10");
    SplitAtDot("1", "2");
    SplitAtDot("1", "10");
    assert "1" + "." + "2" == "1.2" && "1" + "." + "10" == "1.10";
    ExampleTokenValues();
    var a, b := ["1", "10"], ["1", "2"];
    assert CompareParts(a, b, 0) == CompareParts(a, b, 1);
  }

  /** The first differing piece decides even when later pieces are not numbers:
      `2.x` sorts before `1.x`. */
  lemma LaterPiecesIgnored()
    ensures ComparePrerelease("1.x", "2.x") == Finite(1)
  {
    SplitNoDot("x");
    SplitAtDot("1", "x");
    SplitAtDot("2", "x");
    assert "1" + "." + "x" == "1.x" && "2" + "." + "x" == "2.x";
    ExampleTokenValues();
    NumericPartsFirstDifference(["1", "x"], ["2", "x"], 0, 0);
  }

  lemma ExampleTokenValues()
    ensures ParseIntToken("1") == Finite(1) && ParseIntToken("2") == Finite(2)
    ensures ParseIntToken("10") == Finite(10)
  {
    ParseIntOfNumeral("1", "");
    ParseIntOfNumeral("2", "");
    ParseIntOfNumeral("10", "");
    assert "1" + "" == "1" && "2" + "" == "2" && "10" + "" == "10";
    assert Value("10") == 10 by {
      assert "10"[..1] == "1";
    }
  }

  // ---------------------------------------------------------------------------------
  // Pieces that start with a letter parse to NaN and end the comparison in a tie

  /** At the first position where a piece does not start with a digit, the comparison
      ends with NaN, which the sort reads as a tie. */
  lemma {:induction false} NaNEndsComparison(aParts: seq<string>, bParts: seq<string>, i: nat, k: nat)
    requires i <= k < Max(|aParts|, |bParts|)
    requires forall m :: i <= m < k ==> !StrictlyDiffer(PartValue(aParts, m), PartValue(bParts, m))
    requires PartValue(aParts, k).NaN? || PartValue(bParts, k).NaN?
    ensures CompareParts(aParts, bParts, i) == NaN
    ensures SortCompare(CompareParts(aParts, bParts, i)) == 0
    decreases k - i
  {
    var aVal, bVal := PartValue(aParts, i), PartValue(bParts, i);
    assert CompareParts(aParts, bParts, i) ==
      if StrictlyDiffer(aVal, bVal) then Minus(bVal, aVal) else CompareParts(aParts, bParts, i + 1);
    if i < k {
      assert !StrictlyDiffer(aVal, bVal);
      NaNEndsComparison(aParts, bParts, i + 1, k);
    }
  }

  /** The prerelease starts with a piece that begins with a letter, as in `dev.1`. */
  predicate LetterLed(prerelease: string) {
    var first := Split(prerelease)[0];
    first != [] && !IsDigit(first[0])
  }

  /** Two prereleases of the same numeric version tie as soon as either begins with a
      letter: `dev.1` and `dev.2`, `beta.10` and `beta.2` keep their input order. */
  lemma LetterLedPrereleasesTie(a: ParsedVersion, b: ParsedVersion)
    requires SameTriple(a, b) && a.prerelease != "" && b.prerelease != ""
    requires LetterLed(a.prerelease) || LetterLed(b.prerelease)
    ensures Compare(a, b) == NaN && SortCompare(Compare(a, b)) == 0
  {
    NaNEndsComparison(Split(a.prerelease), Split(b.prerelease), 0, 0);
  }

  // ---------------------------------------------------------------------------------
  // Consistency within a uniform collection of versions

  /** Every prerelease piece of v is empty or starts with a digit. */
  predicate NumericPrerelease(v: ParsedVersion) {
    NumericParts(Split(v.prerelease))
  }

  /** v is stable or its prerelease starts with a letter-led piece. */
  predicate LetterLedOrStable(v: ParsedVersion) {
    v.prerelease == "" || LetterLed(v.prerelease)
  }

  /** Among versions whose prereleases are all numeric, or all letter-led, the order the
      sort sees is transitive. */
  lemma CompareTransitive(a: ParsedVersion, b: ParsedVersion, c: ParsedVersion)
    requires (NumericPrerelease(a) && NumericPrerelease(b) && NumericPrerelease(c))
          || (LetterLedOrStable(a) && LetterLedOrStable(b) && LetterLedOrStable(c))
    requires SortCompare(Compare(a, b)) <= 0 && SortCompare(Compare(b, c)) <= 0
    ensures SortCompare(Compare(a, c)) <= 0
  {
    CompareTriples(a, b);
    CompareTriples(b, c);
    CompareTriples(a, c);
    if SameTriple(a, b) && SameTriple(b, c) && a.prerelease != "" {
      assert b.prerelease != "" && c.prerelease != "";
      if NumericPrerelease(a) && NumericPrerelease(b) && NumericPrerelease(c) {
        CompareNumericTransitive(Split(a.prerelease), Split(b.prerelease), Split(c.prerelease), 0);
      } else {
        LetterLedPrereleasesTie(a, c);
      }
    }
  }

  /** Mixing the two kinds breaks transitivity: `1.0.0-1` ties with `1.0.0-x`, which ties
      with `1.0.0-2`, yet `1.0.0-2` sorts before `1.0.0-1`. */
  lemma MixedPrereleasesNotTransitive()
    ensures var a := ParsedVersion(1, 0, 0, "1", "1.0.0-1");
            var b := ParsedVersion(1, 0, 0, "x", "1.0.0-x");
            var c := ParsedVersion(1, 0, 0, "2", "1.0.0-2");
      SortCompare(Compare(a, b)) == 0 && SortCompare(Compare(b, c)) == 0 && SortCompare(Compare(a, c)) > 0
  {
    var a := ParsedVersion(1, 0, 0, "1", "1.0.0-1");
    var b := ParsedVersion(1, 0, 0, "x", "1.0.0-x");
    var c := ParsedVersion(1, 0, 0, "2", "1.0.0-2");
    SplitNoDot("1");
    SplitNoDot("x");
    SplitNoDot("2");
    LetterLedPrereleasesTie(a, b);
    LetterLedPrereleasesTie(b, c);
    ParseIntOfNumeral("1", "");
    ParseIntOfNumeral("2", "");
    assert "1" + "" == "1" && "2" + "" == "2";
  }
}
