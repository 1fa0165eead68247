/** `updateAppcast` (scripts/update-appcast.js) without its file and XML plumbing: sort the
    releases newest first, turn each into a Sparkle appcast item and assemble the feed
    document. */
module Appcast {
  import opened Wrappers
  import opened Digits
  import opened VersionParser
  import opened VersionComparator
  import opened StableSort

  const GITHUB_REPO := "klarity-app/updates"
  const WEBSITE := "https://www.klarity.app"
  const SPARKLE_NAMESPACE := "http://www.andymatuschak.org/xml-namespaces/sparkle"
  const CHANNEL_TITLE := "Klarity App Updates"
  const CHANNEL_DESCRIPTION := "Most recent updates to Klarity"
  const BUILD_NUMBER_WIDTH := 5

  /** The fields of a GitHub release record that the feed reads. */
  datatype Asset = Asset(size: nat)
  datatype Release = Release(tagName: string, publishedAt: string, htmlUrl: string, assets: seq<Asset>)

  /** An appcast `<item>` and its `<enclosure>` attributes. */
  datatype Enclosure = Enclosure(url: string, sparkleVersion: string, edSignature: string, length: nat)
  datatype Item = Item(
    title: string,
    link: string,
    sparkleVersion: string,
    shortVersionString: string,
    releaseNotesLink: string,
    pubDate: string,
    enclosure: Enclosure)

  /** The `<rss>` document with its single `<channel>`. */
  datatype Channel = Channel(title: string, description: string, language: string, link: string, items: seq<Item>)
  datatype Rss = Rss(version: string, xmlnsSparkle: string, channel: Channel)

  /** The run stops when the sort comparator dereferences a null version. */
  datatype Abort = ComparatorThrew

  // ---------------------------------------------------------------------------------
  // Sorting the releases

  /** The comparator handed to `releases.sort`: both tags parsed, then compareVersions,
      with NaN read as a tie. An unparsable tag makes the source throw; UpdateAppcast stops
      before sorting in exactly the cases where that happens, so the 0 here is never used. */
  function CompareReleases(x: Release, y: Release): int
  {
    match (ParseVersion(x.tagName), ParseVersion(y.tagName))
    case (Some(a), Some(b)) => SortCompare(Compare(a, b))
    case _ => 0
  }

  predicate AllTagsParse(rs: seq<Release>) {
    forall r | r in rs :: ParseVersion(r.tagName).Some?
  }

  /** Sorting two or more releases compares every one of them at least once, so a single
      unparsable tag makes the comparator throw; one release is never compared. */
  predicate Aborts(rs: seq<Release>) {
    |rs| >= 2 && !AllTagsParse(rs)
  }

  // ---------------------------------------------------------------------------------
  // One item per release

  /** `sparkleVersion`: `releases.length - index` in decimal, left-padded with '0' to five
      characters. */
  function BuildNumber(count: nat, index: nat): string
    requires index < count
  {
    PadStart(Show(count - index), BUILD_NUMBER_WIDTH, '0')
  }

  /** The build number is a numeral of at least five digits that denotes
      `count - index`, and the unpadded numeral is its tail. */
  lemma BuildNumberValue(count: nat, index: nat)
    requires index < count
    ensures AllDigits(BuildNumber(count, index))
    ensures Value(BuildNumber(count, index)) == count - index
    ensures |BuildNumber(count, index)| >= BUILD_NUMBER_WIDTH
    ensures BuildNumber(count, index)[|BuildNumber(count, index)| - |Show(count - index)|..] == Show(count - index)
  {
    var s := Show(count - index);
    ValueOfShow(count - index);
    if |s| < BUILD_NUMBER_WIDTH {
      ValueIgnoresLeadingZeros(BUILD_NUMBER_WIDTH - |s|, s);
    }
  }

  function DownloadUrl(v: ParsedVersion): string {
    "https://github.com/" + GITHUB_REPO + "/releases/download/" + v.originalTag
      + "/klarity-" + VersionNumber(v) + "-macos.zip"
  }

  /** `release.assets[0]?.size || 0`. */
  function AssetLength(assets: seq<Asset>): nat {
    if |assets| > 0 then assets[0].size else 0
  }

  /** `process.env.SPARKLE_SIGNATURE || ''`: the variable when it is set, else ''. */
  function Signature(signatureEnv: Option<string>): string {
    if signatureEnv.Some? then signatureEnv.value else ""
  }

  /** The item the loop body builds for the release at sorted position index, whose tag
      parsed to v. The date formatting is a parameter. */
  function MakeItem(r: Release, v: ParsedVersion, count: nat, index: nat,
                    signatureEnv: Option<string>, toUtcString: string -> string): Item
    requires index < count
  {
    var versionNumber := VersionNumber(v);
    var sparkleVersion := BuildNumber(count, index);
    Item(
      "Version " + versionNumber,
      WEBSITE,
      sparkleVersion,
      versionNumber,
      r.htmlUrl,
      toUtcString(r.publishedAt),
      Enclosure(DownloadUrl(v), sparkleVersion, Signature(signatureEnv), AssetLength(r.assets)))
  }

  /** What the loop body does at position index: nothing when the tag does not parse
      (the early `return`), otherwise the item it pushes. */
  function ItemFor(rs: seq<Release>, index: nat, signatureEnv: Option<string>, toUtcString: string -> string): Option<Item>
    requires index < |rs|
  {
    match ParseVersion(rs[index].tagName)
    case None => None
    case Some(v) => Some(MakeItem(rs[index], v, |rs|, index, signatureEnv, toUtcString))
  }

  /** The loop body's outcome at every position, in order. */
  function Candidates(rs: seq<Release>, signatureEnv: Option<string>, toUtcString: string -> string): (c: seq<Option<Item>>)
    ensures |c| == |rs|
  {
    seq(|rs|, k requires 0 <= k < |rs| => ItemFor(rs, k, signatureEnv, toUtcString))
  }

  /** The present entries of os, in order. */
  function Present<T>(os: seq<Option<T>>): seq<T>
  {
    if os == [] then []
    else Present(os[..|os| - 1]) + match os[|os| - 1] case None => [] case Some(x) => [x]
  }

  /** The items `releases.forEach` pushes: one per release whose tag parses, in order. */
  function FeedItems(rs: seq<Release>, signatureEnv: Option<string>, toUtcString: string -> string): seq<Item> {
    Present(Candidates(rs, signatureEnv, toUtcString))
  }

  /** `releases.forEach(...)`: builds and pushes the item of every release whose tag parses. */
  method CollectItems(releases: array<Release>, signatureEnv: Option<string>, toUtcString: string -> string)
      returns (items: seq<Item>)
    ensures items == FeedItems(releases[..], signatureEnv, toUtcString)
  {
    items := [];
    for index := 0 to releases.Length
      invariant items == Present(Candidates(releases[..], signatureEnv, toUtcString)[..index])
    {
      assert Candidates(releases[..], signatureEnv, toUtcString)[..index + 1][..index] ==
        Candidates(releases[..], signatureEnv, toUtcString)[..index];
      var release := releases[index];
      var parsedVersion := ParseVersion(release.tagName);
      if parsedVersion.None? {
        continue;
      }
      var newItem := MakeItem(release, parsedVersion.value, releases.Length, index, signatureEnv, toUtcString);
      items := items + [newItem];
    }
    assert Candidates(releases[..], signatureEnv, toUtcString)[..releases.Length] ==
      Candidates(releases[..], signatureEnv, toUtcString);
  }

  // ---------------------------------------------------------------------------------
  // The document and the whole run

  /** The `appcast` literal: fixed RSS and channel metadata around the items. */
  function Document(items: seq<Item>): Rss {
    Rss("2.0", SPARKLE_NAMESPACE,
      Channel(CHANNEL_TITLE, CHANNEL_DESCRIPTION, "en", WEBSITE, items))
  }

  /** What a run produces from the fetched releases: the comparator's failure, or the
      document built from the releases sorted newest first. */
  function Feed(rs: seq<Release>, signatureEnv: Option<string>, toUtcString: string -> string): Result<Rss, Abort> {
    if Aborts(rs) then Failure(ComparatorThrew)
    else Success(Document(FeedItems(SortBy(rs, CompareReleases), signatureEnv, toUtcString)))
  }

  /** `updateAppcast(releases)`: sorts `releases` in place, then builds the items and the
      document. When the comparator would throw, nothing is built and the array is left
      as it was. */
  method UpdateAppcast(releases: array<Release>, signatureEnv: Option<string>, toUtcString: string -> string)
      returns (r: Result<Rss, Abort>)
    modifies releases
    ensures r == Feed(old(releases[..]), signatureEnv, toUtcString)
    ensures r.Failure? ==> releases[..] == old(releases[..])
    ensures r.Success? ==> releases[..] == SortBy(old(releases[..]), CompareReleases)
  {
    if releases.Length >= 2 && !AllTagsParse(releases[..]) {
      return Failure(ComparatorThrew);
    }
    InsertionSort(releases, CompareReleases);
    var items := CollectItems(releases, signatureEnv, toUtcString);
    r := Success(Document(items));
  }

  // ---------------------------------------------------------------------------------
  // Properties of the items

  /** Skipping drops exactly the absent entries: all are kept just when none is absent. */
  lemma {:induction false} PresentCount<T>(os: seq<Option<T>>)
    ensures |Present(os)| <= |os|
    ensures |Present(os)| == |os| <==> forall k :: 0 <= k < |os| ==> os[k].Some?
  {
    if os != [] {
      PresentCount(os[..|os| - 1]);
    }
  }

  /** When no entry is absent, the kept entries are all of them, position by position. */
  lemma {:induction false} PresentAll<T>(os: seq<Option<T>>)
    requires forall k :: 0 <= k < |os| ==> os[k].Some?
    ensures |Present(os)| == |os|
    ensures forall k :: 0 <= k < |os| ==> Present(os)[k] == os[k].value
  {
    if os != [] {
      PresentAll(os[..|os| - 1]);
    }
  }

  /** The loop body pushes an item exactly when the tag parses; the item is built from
      that release and position. */
  lemma ItemForParses(rs: seq<Release>, index: nat, signatureEnv: Option<string>, toUtcString: string -> string)
    requires index < |rs|
    ensures ItemFor(rs, index, signatureEnv, toUtcString).Some? <==> ParseVersion(rs[index].tagName).Some?
    ensures ItemFor(rs, index, signatureEnv, toUtcString).Some? ==>
      ItemFor(rs, index, signatureEnv, toUtcString).value ==
        MakeItem(rs[index], ParseVersion(rs[index].tagName).value, |rs|, index, signatureEnv, toUtcString)
  {
  }

  /** Every entry of the outcomes is present exactly when every tag parses. */
  lemma AllTagsParseIff(rs: seq<Release>, signatureEnv: Option<string>, toUtcString: string -> string)
    ensures AllTagsParse(rs) <==>
      forall k :: 0 <= k < |rs| ==> Candidates(rs, signatureEnv, toUtcString)[k].Some?
  {
    var c := Candidates(rs, signatureEnv, toUtcString);
    forall k | 0 <= k < |rs| ensures c[k].Some? <==> ParseVersion(rs[k].tagName).Some? {
      ItemForParses(rs, k, signatureEnv, toUtcString);
    }
    if !AllTagsParse(rs) {
      var r :| r in rs && ParseVersion(r.tagName).None?;
      var k :| 0 <= k < |rs| && rs[k] == r;
      assert c[k].None?;
    }
  }

  /** There is one item per release exactly when every tag parses; the releases skipped
      are those whose tag does not. */
  lemma FeedItemsCount(rs: seq<Release>, signatureEnv: Option<string>, toUtcString: string -> string)
    ensures |FeedItems(rs, signatureEnv, toUtcString)| <= |rs|
    ensures |FeedItems(rs, signatureEnv, toUtcString)| == |rs| <==> AllTagsParse(rs)
  {
    PresentCount(Candidates(rs, signatureEnv, toUtcString));
    AllTagsParseIff(rs, signatureEnv, toUtcString);
  }

  /** When every tag parses, item k is built from release k at position k. */
  lemma FeedItemsAllParse(rs: seq<Release>, signatureEnv: Option<string>, toUtcString: string -> string)
    requires AllTagsParse(rs)
    ensures |FeedItems(rs, signatureEnv, toUtcString)| == |rs|
    ensures forall k :: 0 <= k < |rs| ==> ParseVersion(rs[k].tagName).Some?
    ensures forall k :: 0 <= k < |rs| ==>
      FeedItems(rs, signatureEnv, toUtcString)[k] ==
        MakeItem(rs[k], ParseVersion(rs[k].tagName).value, |rs|, k, signatureEnv, toUtcString)
  {
    var c := Candidates(rs, signatureEnv, toUtcString);
    AllTagsParseIff(rs, signatureEnv, toUtcString);
    PresentAll(c);
    forall k | 0 <= k < |rs|
      ensures ParseVersion(rs[k].tagName).Some?
      ensures c[k].value == MakeItem(rs[k], ParseVersion(rs[k].tagName).value, |rs|, k, signatureEnv, toUtcString)
    {
      ItemForParses(rs, k, signatureEnv, toUtcString);
    }
  }

  /** The items follow the releases one for one, and their build numbers count down from
      the number of releases to 1; item and enclosure carry the same one. */
  lemma FeedBuildNumbers(rs: seq<Release>, signatureEnv: Option<string>, toUtcString: string -> string)
    requires AllTagsParse(rs)
    ensures var items := FeedItems(rs, signatureEnv, toUtcString);
      && |items| == |rs|
      && (forall k :: 0 <= k < |items| ==>
            && AllDigits(items[k].sparkleVersion)
            && Value(items[k].sparkleVersion) == |rs| - k
            && |items[k].sparkleVersion| >= BUILD_NUMBER_WIDTH
            && items[k].enclosure.sparkleVersion == items[k].sparkleVersion)
      && (|items| > 0 ==> Value(items[0].sparkleVersion) == |rs| && Value(items[|items| - 1].sparkleVersion) == 1)
  {
    var items := FeedItems(rs, signatureEnv, toUtcString);
    FeedItemsAllParse(rs, signatureEnv, toUtcString);
    forall k | 0 <= k < |items|
      ensures AllDigits(items[k].sparkleVersion) && Value(items[k].sparkleVersion) == |rs| - k
      ensures |items[k].sparkleVersion| >= BUILD_NUMBER_WIDTH
      ensures items[k].enclosure.sparkleVersion == items[k].sparkleVersion
    {
      assert items[k].sparkleVersion == BuildNumber(|rs|, k);
      BuildNumberValue(|rs|, k);
    }
  }

  /** The fields of an item: its title and short version are the display string of the
      parsed tag, its link is the website, its download URL names the original tag, and
      a release without assets gets length 0. */
  lemma ItemFields(r: Release, v: ParsedVersion, count: nat, index: nat,
                   signatureEnv: Option<string>, toUtcString: string -> string)
    requires index < count
    ensures var item := MakeItem(r, v, count, index, signatureEnv, toUtcString);
      && item.title == "Version " + item.shortVersionString
      && item.shortVersionString == VersionNumber(v)
      && item.link == WEBSITE
      && item.releaseNotesLink == r.htmlUrl
      && item.enclosure.url == "https://github.com/" + GITHUB_REPO + "/releases/download/" + v.originalTag
           + "/klarity-" + item.shortVersionString + "-macos.zip"
      && item.enclosure.sparkleVersion == item.sparkleVersion
      && item.enclosure.edSignature == (if signatureEnv.Some? then signatureEnv.value else "")
      && (r.assets == [] ==> item.enclosure.length == 0)
      && (r.assets != [] ==> item.enclosure.length == r.assets[0].size)
  {
  }

  /** For a tag `prefix` + `major.minor.patch[-prerelease]` whose numbers have no leading
      zeros, the display string is the tag without its prefix, and so are the title and
      the file name in the download URL. */
  lemma ItemOfCanonicalTag(r: Release, prefix: string, major: nat, minor: nat, patch: nat, prerelease: string,
                           count: nat, index: nat, signatureEnv: Option<string>, toUtcString: string -> string)
    requires IsOptionalPrefix(prefix)
    requires forall c :: c in prerelease ==> IsPrereleaseChar(c)
    requires r.tagName == prefix + VersionNumber(ParsedVersion(major, minor, patch, prerelease, ""))
    requires index < count
    ensures ParseVersion(r.tagName).Some?
    ensures var item := MakeItem(r, ParseVersion(r.tagName).value, count, index, signatureEnv, toUtcString);
      var display := r.tagName[|prefix|..];
      && item.shortVersionString == display
      && item.title == "Version " + display
      && item.enclosure.url == "https://github.com/" + GITHUB_REPO + "/releases/download/" + r.tagName
           + "/klarity-" + display + "-macos.zip"
  {
    ParseVersionRoundTrip(prefix, major, minor, patch, prerelease);
  }

  // ---------------------------------------------------------------------------------
  // Properties of the order

  /** Every tag parses and all prereleases are numeric (`rc.1` is not; `1`, `2.0` are). */
  predicate NumericReleases(rs: seq<Release>) {
    forall r | r in rs :: ParseVersion(r.tagName).Some? && NumericPrerelease(ParseVersion(r.tagName).value)
  }

  /** Every tag parses and every prerelease starts with a letter, as in `dev.1`. */
  predicate LetterLedReleases(rs: seq<Release>) {
    forall r | r in rs :: ParseVersion(r.tagName).Some? && LetterLedOrStable(ParseVersion(r.tagName).value)
  }

  function Elements(rs: seq<Release>): set<Release> {
    set r | r in rs
  }

  /** On such release lists the comparator is consistent. */
  lemma CompareReleasesConsistent(rs: seq<Release>)
    requires NumericReleases(rs) || LetterLedReleases(rs)
    ensures Consistent(CompareReleases, Elements(rs))
  {
    CompareReleasesFlips(rs);
    CompareReleasesChains(rs);
  }

  lemma CompareReleasesFlips(rs: seq<Release>)
    requires NumericReleases(rs) || LetterLedReleases(rs)
    ensures forall x, y | x in Elements(rs) && y in Elements(rs) :: CompareReleases(x, y) < 0 <==> CompareReleases(y, x) > 0
  {
    forall x, y | x in Elements(rs) && y in Elements(rs)
      ensures CompareReleases(x, y) < 0 <==> CompareReleases(y, x) > 0
    {
      CompareAntisymmetric(ParseVersion(x.tagName).value, ParseVersion(y.tagName).value);
    }
  }

  lemma CompareReleasesChains(rs: seq<Release>)
    requires NumericReleases(rs) || LetterLedReleases(rs)
    ensures forall x, y, z | x in Elements(rs) && y in Elements(rs) && z in Elements(rs) ::
      CompareReleases(x, y) <= 0 && CompareReleases(y, z) <= 0 ==> CompareReleases(x, z) <= 0
  {
    forall x, y, z | x in Elements(rs) && y in Elements(rs) && z in Elements(rs) && CompareReleases(x, y) <= 0 && CompareReleases(y, z) <= 0
      ensures CompareReleases(x, z) <= 0
    {
      CompareTransitive(ParseVersion(x.tagName).value, ParseVersion(y.tagName).value, ParseVersion(z.tagName).value);
    }
  }

  /** On such release lists a successful run lists the releases newest first, and
      releases whose versions tie keep their input order. */
  lemma SortedNewestFirst(rs: seq<Release>)
    requires NumericReleases(rs) || LetterLedReleases(rs)
    ensures var sorted := SortBy(rs, CompareReleases);
      && multiset(sorted) == multiset(rs)
      && Sorted(sorted, CompareReleases)
      && forall c | c in rs :: Ties(sorted, c, CompareReleases) == Ties(rs, c, CompareReleases)
  {
    var S := Elements(rs);
    CompareReleasesConsistent(rs);
    assert Within(rs, S);
    SortByPermutes(rs, CompareReleases);
    SortBySorted(rs, CompareReleases, S);
    forall c | c in rs ensures Ties(SortBy(rs, CompareReleases), c, CompareReleases) == Ties(rs, c, CompareReleases) {
      SortByStable(rs, c, CompareReleases, S);
    }
  }

  /** The comparator on two releases whose tags parse to a and b. */
  lemma CompareReleasesOf(x: Release, y: Release, a: ParsedVersion, b: ParsedVersion)
    requires ParseVersion(x.tagName) == Some(a) && ParseVersion(y.tagName) == Some(b)
    ensures CompareReleases(x, y) == SortCompare(Compare(a, b))
  {
  }

  /** The tag `v<major>.<minor>.<patch>[-prerelease]`. */
  function VTag(major: nat, minor: nat, patch: nat, prerelease: string): string {
    "v" + VersionNumber(ParsedVersion(major, minor, patch, prerelease, ""))
  }

  /** The tags of the example below, spelled out. */
  lemma ExampleTags()
    ensures VTag(1, 2, 0, "") == "v1.2.0" && VTag(1, 1, 9, "") == "v1.1.9"
    ensures VTag(1, 2, 0, "beta.2") == "v1.2.0-beta.2" && VTag(1, 2, 0, "beta.10") == "v1.2.0-beta.10"
  {
    assert Show(0) == "0" && Show(1) == "1" && Show(2) == "2" && Show(9) == "9";
  }

  /** Such a tag parses back to its parts. */
  lemma VTagParses(tag: string, major: nat, minor: nat, patch: nat, prerelease: string)
    requires forall c :: c in prerelease ==> IsPrereleaseChar(c)
    requires tag == VTag(major, minor, patch, prerelease)
    ensures ParseVersion(tag) == Some(ParsedVersion(major, minor, patch, prerelease, tag))
  {
    ParseVersionRoundTrip("v", major, minor, patch, prerelease);
  }

  /** Releases in input order: a stable release, an older one, then two prereleases of
      the stable one's version whose first pieces begin with a letter, as in `v1.2.0`,
      `v1.1.9`, `v1.2.0-beta.2`, `v1.2.0-beta.10` (see ExampleTags). The sort lists the
      stable release, then the two prereleases in input order, since they tie, then the
      older release: `beta.2` stays ahead of `beta.10`. */
  lemma LetterLedPrereleasesKeepOrder(r0: Release, r1: Release, r2: Release, r3: Release,
                                      v0: ParsedVersion, v1: ParsedVersion, v2: ParsedVersion, v3: ParsedVersion)
    requires ParseVersion(r0.tagName) == Some(v0) && ParseVersion(r1.tagName) == Some(v1)
    requires ParseVersion(r2.tagName) == Some(v2) && ParseVersion(r3.tagName) == Some(v3)
    requires v0.prerelease == "" && NewerTriple(v0, v1)
    requires SameTriple(v0, v2) && SameTriple(v0, v3) && v2.prerelease != "" && v3.prerelease != ""
    requires LetterLed(v2.prerelease) && LetterLed(v3.prerelease)
    ensures SortBy([r0, r1, r2, r3], CompareReleases) == [r0, r2, r3, r1]
  {
    CompareTriples(v0, v1);
    CompareTriples(v1, v2);
    CompareTriples(v0, v2);
    CompareTriples(v1, v3);
    LetterLedPrereleasesTie(v2, v3);
    CompareReleasesOf(r0, r1, v0, v1);
    CompareReleasesOf(r1, r2, v1, v2);
    CompareReleasesOf(r0, r2, v0, v2);
    CompareReleasesOf(r1, r3, v1, v3);
    CompareReleasesOf(r2, r3, v2, v3);
    SortExampleSteps(r0, r1, r2, r3, CompareReleases);
  }

  /** The example's tags meet those conditions. */
  lemma ExampleVersions()
    ensures var v0, v1 := ParsedVersion(1, 2, 0, "", ""), ParsedVersion(1, 1, 9, "", "");
      var v2, v3 := ParsedVersion(1, 2, 0, "beta.2", ""), ParsedVersion(1, 2, 0, "beta.10", "");
      && NewerTriple(v0, v1) && SameTriple(v0, v2) && SameTriple(v0, v3)
      && LetterLed(v2.prerelease) && LetterLed(v3.prerelease)
  {
    BetaIsLetterLed("2");
    BetaIsLetterLed("10");
    assert "beta" + "." + "2" == "beta.2" && "beta" + "." + "10" == "beta.10";
  }

  /** A prerelease `beta.<n>` leads with a letter, whatever follows the dot. */
  lemma BetaIsLetterLed(n: string)
    ensures LetterLed("beta" + "." + n)
  {
    SplitAtDot("beta", n);
  }

  /** `beta.<n>` for a numeral n lies in the prerelease character class. */
  lemma BetaChars(n: string)
    requires AllDigits(n)
    ensures forall c :: c in "beta" + "." + n ==> IsPrereleaseChar(c)
  {
    forall c | c in "beta" + "." + n ensures IsPrereleaseChar(c) {
      var k :| 0 <= k < |"beta" + "." + n| && ("beta" + "." + n)[k] == c;
      if k >= 5 {
        assert c == n[k - 5];
      }
    }
  }

  /** The insertions the sort performs on the example, from the comparator's answers. */
  lemma SortExampleSteps<T>(r0: T, r1: T, r2: T, r3: T, cmp: (T, T) -> int)
    requires cmp(r0, r1) < 0 && cmp(r1, r2) > 0 && cmp(r0, r2) < 0
    requires cmp(r1, r3) > 0 && cmp(r2, r3) == 0
    ensures SortBy([r0, r1, r2, r3], cmp) == [r0, r2, r3, r1]
  {
    assert [r0, r1, r2, r3][..3] == [r0, r1, r2];
    assert [r0, r1, r2][..2] == [r0, r1] && [r0, r2, r1][..2] == [r0, r2];
    assert [r0, r1][..1] == [r0] && [r0, r2][..1] == [r0];
    assert [r0][..0] == [];
    assert SortBy([r0], cmp) == Insert([], r0, cmp) == [r0];
    assert SortBy([r0, r1], cmp) == Insert([r0], r1, cmp) == [r0, r1];
    assert Insert([r0], r2, cmp) == [r0, r2];
    assert SortBy([r0, r1, r2], cmp) == Insert([r0, r1], r2, cmp) == [r0, r2, r1];
    assert Insert([r0, r2], r3, cmp) == [r0, r2, r3];
    assert SortBy([r0, r1, r2, r3], cmp) == Insert([r0, r2, r1], r3, cmp) == [r0, r2, r3, r1];
  }

  /** The example itself: releases tagged `v1.2.0`, `v1.1.9`, `v1.2.0-beta.2` and
      `v1.2.0-beta.10`, in that input order, sort to `v1.2.0`, `v1.2.0-beta.2`,
      `v1.2.0-beta.10`, `v1.1.9`. */
  lemma ExampleReleasesSort(r0: Release, r1: Release, r2: Release, r3: Release)
    requires r0.tagName == VTag(1, 2, 0, "") && r1.tagName == VTag(1, 1, 9, "")
    requires r2.tagName == VTag(1, 2, 0, "beta.2") && r3.tagName == VTag(1, 2, 0, "beta.10")
    ensures SortBy([r0, r1, r2, r3], CompareReleases) == [r0, r2, r3, r1]
  {
    BetaChars("2");
    BetaChars("10");
    assert "beta" + "." + "2" == "beta.2" && "beta" + "." + "10" == "beta.10";
    VTagParses(r0.tagName, 1, 2, 0, "");
    VTagParses(r1.tagName, 1, 1, 9, "");
    VTagParses(r2.tagName, 1, 2, 0, "beta.2");
    VTagParses(r3.tagName, 1, 2, 0, "beta.10");
    ExampleVersions();
    LetterLedPrereleasesKeepOrder(r0, r1, r2, r3,
      ParsedVersion(1, 2, 0, "", r0.tagName), ParsedVersion(1, 1, 9, "", r1.tagName),
      ParsedVersion(1, 2, 0, "beta.2", r2.tagName), ParsedVersion(1, 2, 0, "beta.10", r3.tagName));
  }

  /** A successful run over releases whose tags all parse has one item per release, in
      sorted order. */
  lemma FeedOfParsedReleases(rs: seq<Release>, signatureEnv: Option<string>, toUtcString: string -> string)
    requires AllTagsParse(rs)
    ensures Feed(rs, signatureEnv, toUtcString).Success?
    ensures var sorted := SortBy(rs, CompareReleases);
      var items := Feed(rs, signatureEnv, toUtcString).value.channel.items;
      && |sorted| == |items| == |rs|
      && forall k :: 0 <= k < |items| ==>
           && ParseVersion(sorted[k].tagName).Some?
           && items[k] == MakeItem(sorted[k], ParseVersion(sorted[k].tagName).value, |rs|, k, signatureEnv, toUtcString)
  {
    var sorted := SortBy(rs, CompareReleases);
    SortByPermutes(rs, CompareReleases);
    assert |sorted| == |rs| by {
      assert |multiset(sorted)| == |multiset(rs)|;
    }
    forall r | r in sorted ensures ParseVersion(r.tagName).Some? {
      assert r in multiset(rs);
    }
    FeedItemsAllParse(sorted, signatureEnv, toUtcString);
  }

  /** With two or more releases, one unparsable tag stops the run; a lone unparsable
      release is skipped and the feed has no items. */
  lemma FeedOfUnparsable(rs: seq<Release>, signatureEnv: Option<string>, toUtcString: string -> string)
    requires exists r :: r in rs && ParseVersion(r.tagName).None?
    ensures |rs| >= 2 ==> Feed(rs, signatureEnv, toUtcString) == Failure(ComparatorThrew)
    ensures |rs| == 1 ==> Feed(rs, signatureEnv, toUtcString) == Success(Document([]))
  {
    if |rs| == 1 {
      assert rs[..0] == [];
      assert SortBy(rs, CompareReleases) == Insert([], rs[0], CompareReleases) == rs;
      assert ParseVersion(rs[0].tagName).None?;
      ItemForParses(rs, 0, signatureEnv, toUtcString);
      var c := Candidates(rs, signatureEnv, toUtcString);
      assert c[..0] == [];
      assert FeedItems(rs, signatureEnv, toUtcString) == Present(c[..0]) == [];
    }
  }
}
