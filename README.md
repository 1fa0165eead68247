# Klarity appcast generator, modelled in Dafny

The klarity-app/updates repository publishes a Sparkle appcast (`appcast.xml`) for the
Klarity macOS app. Its script `scripts/update-appcast.js` fetches the GitHub releases,
sorts them newest first, turns each into an appcast `<item>` and writes the RSS document.
This project models the logic of that script, not its I/O:

- `wrappers.dfy`: `Option` and `Result`.
- `digits.dfy`: decimal numerals, as `parseInt(s, 10)` reads them and as
  `Number.prototype.toString()` and `String.prototype.padStart` write them.
- `version_parser.dfy`: `parseVersion`. The unanchored regular expression
  `(?:desktop-)?v?(\d+)\.(\d+)\.(\d+)(?:-([a-zA-Z0-9.]+))?` is a scanner that looks for the
  leftmost `digits.digits.digits` run of the tag. It returns `None` where the script returns
  `null`.
- `version_comparator.dfy`: `compareVersions`, over JavaScript numbers (an integer or NaN),
  with `split('.')` and `parseInt` written out. It also models how `Array.prototype.sort`
  reads the result: NaN counts as a tie.
- `stable_sort.dfy`: the in-place `releases.sort(...)`, modelled as a stable insertion
  sort on an array. Its specification is the function `SortBy`, with proofs that it
  permutes, sorts and is stable.
- `appcast.dfy`: the `forEach` loop that builds the items, the document literal and the
  whole run. `Feed` is the specification and `UpdateAppcast` is the method that sorts in
  place.

Two behaviours of the code are worth knowing, and the model follows the code in both:

- **Unparsable tags.** The skip branch and its warning at `scripts/update-appcast.js:66-69`
  suggest that releases whose tag does not parse are meant to be skipped. With two or more
  releases, however, the sort comparator at `:58-61` runs first and reads `.major` of the
  `null` that `parseVersion` returns, so the run stops with an exception. Only a lone
  release is never compared; it reaches the `forEach` loop and is skipped there
  (`Appcast.FeedOfUnparsable`).
- **Letter-led prereleases.** Semantic-version order would put `v1.2.0-beta.10` before
  `v1.2.0-beta.2`. The code ties them instead: `parseInt('beta', 10)` is NaN (`:43-45`), so
  the comparator returns NaN, which the sort reads as a tie. `beta.2` and `beta.10`
  therefore keep their input order (`VersionComparator.LetterLedPrereleasesTie`,
  `Appcast.ExampleReleasesSort`).

## Model

| member | source | states |
|---|---|---|
| VersionParser.DigitRunMaximal | scripts/update-appcast.js:20 | a greedy `\d+` takes only digits and stops at the end of the tag or at a non-digit |
| VersionParser.PrereleaseRunMaximal | scripts/update-appcast.js:20 | the greedy `[a-zA-Z0-9.]+` takes only class characters and stops at the end or at the first character outside the class |
| VersionParser.TripleAtIff | scripts/update-appcast.js:20 | TripleAt, the scanner for `(\d+)\.(\d+)\.(\d+)`, finds a match at a position exactly when a digits-dot-digits-dot-digits run begins there |
| VersionParser.LeftmostTriple | scripts/update-appcast.js:20 | a position it reports lies in the tag and has a triple |
| VersionParser.LeftmostTripleFirst | scripts/update-appcast.js:20-21 | no triple begins before the reported position, and none at all when nothing is reported |
| VersionParser.LeftmostTripleIs | scripts/update-appcast.js:20 | a triple position with no triple before it is the one reported |
| VersionParser.PrereleaseAfter | scripts/update-appcast.js:20-28 | the prerelease holds only class characters, and it is `''` exactly when no `-` followed by a class character comes after the patch digits |
| VersionParser.ParseVersion | scripts/update-appcast.js:18-31 | a successful parse keeps the whole tag as `originalTag` |
| VersionParser.ParseFailsIffNoTriple | scripts/update-appcast.js:20-21 | `parseVersion` returns null exactly when the tag holds no `digits.digits.digits` run anywhere |
| VersionParser.LeftmostMatchCaptures | scripts/update-appcast.js:20-30 | whatever optional prefix (`desktop-`, `v`, both or neither) the leftmost regex match takes, the captures are CaptureAt (lines 23-30) of the leftmost triple |
| VersionParser.PrereleaseOfSuffix | scripts/update-appcast.js:20-28 | a `-prerelease` suffix at the end of the tag is captured whole |
| VersionParser.ParseVersionRoundTrip | scripts/update-appcast.js:18-71 | a tag made of an optional prefix, canonical numerals and an optional prerelease parses back to exactly those parts, and its display string VersionNumber (line 71) is the tag without the prefix |
| Digits.ShowIsNumeral | scripts/update-appcast.js:71-72 | `n.toString()` is all digits and starts with `0` only for zero |
| Digits.ValueOfShow | scripts/update-appcast.js:25-27 | `parseInt` of Show(n), the model of `n.toString()` at lines 71-72, is n |
| Digits.ShowOfValue | scripts/update-appcast.js:71 | a numeral without leading zeros is the `toString()` of its `parseInt` value |
| Digits.PadStart | scripts/update-appcast.js:72 | `padStart(width)` has length max(length, width) |
| Digits.PadStartContents | scripts/update-appcast.js:72 | the padded string ends with the input and everything before it is the fill |
| Digits.ValueIgnoresLeadingZeros | scripts/update-appcast.js:72 | leading zeros do not change a numeral's value |
| VersionComparator.Minus | scripts/update-appcast.js:34-45 | JavaScript subtraction is NaN exactly when an operand is NaN |
| VersionComparator.SortCompareNegate | scripts/update-appcast.js:58-62 | SortCompare (how the sort reads a comparator result, NaN as a tie) commutes with negation: a negated result reads as the opposite sign, and NaN stays a tie |
| VersionComparator.SplitJoin | scripts/update-appcast.js:40-41 | Split, the model of `split('.')`: the pieces hold no dot, and joining them with `.` gives the string back |
| VersionComparator.SplitNoDot | scripts/update-appcast.js:40-41 | a string without a dot splits into itself |
| VersionComparator.SplitAtDot | scripts/update-appcast.js:40-41 | `head.rest` splits into head followed by the pieces of rest |
| VersionComparator.LeadingDigits | scripts/update-appcast.js:43-44 | the longest digit prefix of a token, which stops at the end or at a non-digit |
| VersionComparator.ParseIntToken | scripts/update-appcast.js:43-44 | `parseInt(token, 10)` is NaN exactly when the token does not start with a digit, and is never negative otherwise |
| VersionComparator.ParseIntOfNumeral | scripts/update-appcast.js:43-44 | a numeral followed by a non-digit parses to the numeral's value |
| VersionComparator.PartValue | scripts/update-appcast.js:43-44 | a missing or empty piece counts as 0; a piece is NaN exactly when it is present, non-empty and does not start with a digit; every other value is non-negative |
| VersionComparator.CompareVersions | scripts/update-appcast.js:33-49 | the method with its piece loop returns Compare(a, b), the comparator function the property lemmas below are about |
| VersionComparator.ComparePartsAntisymmetric | scripts/update-appcast.js:42-46 | swapping the piece lists negates the result of the piece loop |
| VersionComparator.CompareAntisymmetric | scripts/update-appcast.js:33-49 | swapping the versions negates the result (NaN stays NaN), so the sort sees opposite signs, and every version ties with itself |
| VersionComparator.CompareTriples | scripts/update-appcast.js:34-36 | the larger `major.minor.patch` sorts first whatever the prereleases; with equal triples only the prereleases decide |
| VersionComparator.StableBeforePrerelease | scripts/update-appcast.js:37-48 | with equal triples a stable release sorts before a prerelease (-1 and 1), and two stable releases tie |
| VersionComparator.NumericPartsTie | scripts/update-appcast.js:39-48 | over numeric pieces the result is 0 exactly when all pieces agree up to the longer list, with missing pieces counted as 0 |
| VersionComparator.NumericPartsFirstDifference | scripts/update-appcast.js:42-45 | when the pieces agree as numbers up to position k and differ there, that piece decides, the larger value first, whatever the later pieces hold |
| VersionComparator.LaterPiecesIgnored | scripts/update-appcast.js:42-45 | prerelease `2.x` sorts before `1.x`: the first differing piece decides before the letter piece is read |
| VersionComparator.CompareNumericTransitive | scripts/update-appcast.js:42-46 | the comparison over numeric pieces is transitive as the sort sees it |
| VersionComparator.MissingPieceIsZero | scripts/update-appcast.js:42-44 | prerelease `1` ties with `1.0` |
| VersionComparator.PiecesCompareAsNumbers | scripts/update-appcast.js:42-45 | prerelease `1.10` sorts before `1.2` (result -8) |
| VersionComparator.ExampleTokenValues | scripts/update-appcast.js:43-44 | `parseInt` reads `1`, `2` and `10` as 1, 2 and 10 |
| VersionComparator.NaNEndsComparison | scripts/update-appcast.js:43-45 | at the first piece that does not start with a digit the loop returns NaN, which the sort reads as a tie |
| VersionComparator.LetterLedPrereleasesTie | scripts/update-appcast.js:39-45 | two prereleases of the same triple tie when either starts with a letter-led piece (`beta.2` and `beta.10`) |
| VersionComparator.CompareTransitive | scripts/update-appcast.js:33-49 | among versions whose prereleases are all numeric, or all letter-led, the order the sort sees is transitive |
| VersionComparator.MixedPrereleasesNotTransitive | scripts/update-appcast.js:33-49 | mixing the kinds breaks transitivity: `1.0.0-1` ties with `1.0.0-x`, which ties with `1.0.0-2`, yet `1.0.0-2` sorts first |
| StableSort.InsertPermutes | scripts/update-appcast.js:58-62 | one insertion adds exactly the inserted element |
| StableSort.SortByPermutes | scripts/update-appcast.js:58-62 | sorting permutes the releases |
| StableSort.InsertSorted | scripts/update-appcast.js:58-62 | under a consistent comparator, inserting into a sorted list keeps it sorted |
| StableSort.SortBySorted | scripts/update-appcast.js:58-62 | under a consistent comparator no element sorts after a later one |
| StableSort.InsertTies | scripts/update-appcast.js:58-62 | an insertion places the new element behind the elements it ties with |
| StableSort.SortByStable | scripts/update-appcast.js:58-62 | stability: elements that tie keep their input order |
| StableSort.InsertAt | scripts/update-appcast.js:58 | insertion puts the element behind the last earlier element that does not sort after it |
| StableSort.InsertInPlace | scripts/update-appcast.js:58-62 | shifting in place leaves the array prefix equal to the insertion and the rest untouched |
| StableSort.InsertionSort | scripts/update-appcast.js:58-62 | the in-place sort leaves the array equal to SortBy (the stable sorted order) of its old contents |
| Appcast.BuildNumberValue | scripts/update-appcast.js:72 | BuildNumber, `(length - index).toString().padStart(5, '0')`, is a numeral of at least five digits that denotes length - index and ends with the unpadded numeral |
| Appcast.PresentCount | scripts/update-appcast.js:64-89 | skipping never adds items, and keeps all of them exactly when none is skipped |
| Appcast.PresentAll | scripts/update-appcast.js:64-89 | when nothing is skipped, item k is outcome k |
| Appcast.Candidates | scripts/update-appcast.js:64 | the loop has one outcome per release |
| Appcast.AllTagsParseIff | scripts/update-appcast.js:64-69 | every position yields an item exactly when every tag parses |
| Appcast.FeedItemsCount | scripts/update-appcast.js:64-90 | there are never more items than releases, and one per release exactly when every tag parses |
| Appcast.FeedItemsAllParse | scripts/update-appcast.js:64-90 | when every tag parses, item k is built from release k at position k |
| Appcast.FeedBuildNumbers | scripts/update-appcast.js:72-85 | the build numbers count down from the number of releases to 1, with at least five digits each, and the enclosure repeats the item's |
| Appcast.ItemFields | scripts/update-appcast.js:71-87 | of MakeItem, the item built at lines 71-87 with DownloadUrl (line 76), Signature (line 86) and AssetLength (line 87): title is `Version ` + display string; short version is the display string; link is the website; the notes link is `html_url`; the URL names the original tag; the signature falls back to `''`; the length is the first asset's size or 0 |
| Appcast.ItemOfCanonicalTag | scripts/update-appcast.js:71-81 | for a canonical tag the display string, the title and the file name in the URL are the tag without its prefix |
| Appcast.CollectItems | scripts/update-appcast.js:64-90 | the `forEach` loop pushes exactly the items of the parsing releases, in order |
| Appcast.UpdateAppcast | scripts/update-appcast.js:56-106 | the run yields Feed of the old array: the comparator's failure, or Document (lines 92-106) around the items of the sorted releases; on success the array is sorted in place; on failure nothing is built |
| Appcast.CompareReleasesFlips | scripts/update-appcast.js:58-62 | on uniform release lists, swapping the arguments flips the comparator's sign |
| Appcast.CompareReleasesChains | scripts/update-appcast.js:58-62 | on uniform release lists, "sorts no later than" is transitive |
| Appcast.CompareReleasesConsistent | scripts/update-appcast.js:58-62 | on release lists whose prereleases are all numeric, or all letter-led, CompareReleases (the comparator at lines 58-62) is consistent |
| Appcast.SortedNewestFirst | scripts/update-appcast.js:58-62 | on such lists the sorted releases are a permutation of the input, newest first, and releases that tie keep their input order |
| Appcast.ExampleTags | scripts/update-appcast.js:71 | the example's tags spell `v1.2.0`, `v1.1.9`, `v1.2.0-beta.2` and `v1.2.0-beta.10` |
| Appcast.VTagParses | scripts/update-appcast.js:18-31 | a `v`-prefixed canonical tag parses back to its parts |
| Appcast.BetaChars | scripts/update-appcast.js:20 | `beta.<n>` for a numeral n lies in the prerelease character class |
| Appcast.ExampleVersions | scripts/update-appcast.js:34-45 | the example versions meet the example's conditions: 1.2.0 is newer than 1.1.9, and both betas share 1.2.0 and start with a letter |
| Appcast.BetaIsLetterLed | scripts/update-appcast.js:40-44 | `beta.<n>` starts with a letter-led piece |
| Appcast.SortExampleSteps | scripts/update-appcast.js:58 | the insertions the stable sort performs on four elements, from the comparator's answers |
| Appcast.ExampleReleasesSort | scripts/update-appcast.js:58-62 | releases tagged `v1.2.0`, `v1.1.9`, `v1.2.0-beta.2`, `v1.2.0-beta.10`, in that input order, sort to `v1.2.0`, `v1.2.0-beta.2`, `v1.2.0-beta.10`, `v1.1.9` |
| Appcast.LetterLedPrereleasesKeepOrder | scripts/update-appcast.js:37-62 | a stable release, an older one, then two letter-led prereleases of the stable one's version (as in `v1.2.0, v1.1.9, v1.2.0-beta.2, v1.2.0-beta.10`) sort to the stable release, the two prereleases in input order, then the older release |
| Appcast.FeedOfParsedReleases | scripts/update-appcast.js:58-106 | when every tag parses the run succeeds with one item per release, item k built from sorted release k at position k |
| Appcast.FeedOfUnparsable | scripts/update-appcast.js:58-69 | an unparsable tag stops a run over two or more releases; a lone unparsable release gives a feed without items |

## Left out

- `getReleases` (the GitHub API request, its token and `per_page=100`) is not modelled. The releases are an input.
- Reading the template and writing `appcast.xml` (the `fs` and `xml2js` calls) are not modelled. The item carries only the fields the loop sets. Template content copied into each item and never overwritten is not modelled.
- The `JSON.parse(JSON.stringify(...))` deep copy is not modelled. Each item is a fresh value.
- `new Date(published_at).toUTCString()` is not modelled. It is the function parameter `toUtcString`.
- Environment access is not modelled. `process.env.SPARKLE_SIGNATURE` is an `Option<string>` parameter.
- `console.warn`, `console.log`, `main`, `process.exit` and the catch block are not modelled. A thrown comparator is the `Failure(ComparatorThrew)` result.
- JavaScript numbers are modelled as unbounded integers. `parseInt` of a numeral beyond 2^53 rounds in JavaScript and does not here.
- `parseInt` steps that skip white space and a sign are not modelled. A token of the prerelease class contains neither.
- Asset sizes are naturals, so `size || 0` differs from `size` only when `size` is absent.
- Appcast.UpdateAppcast: on an abort the array is left as it was. In the script the engine may already have reordered part of it before the comparator throws, and that partial order is not modelled.
- Appcast.Aborts: assumes that sorting two or more elements calls the comparator on every element at least once. Every comparison sort does this, but the engine's algorithm is not modelled.
- StableSort.InsertionSort: `Array.prototype.sort` is modelled by a stable insertion sort. With a consistent comparator, a stable sorted order is unique, so any stable engine sort agrees; this uniqueness is not proved here. With an inconsistent comparator (`MixedPrereleasesNotTransitive`), the language leaves the order to the implementation, and the model fixes the insertion-sort order.
- Appcast.SortedNewestFirst: proved only for release lists whose prereleases are all numeric or all letter-led. Mixed lists can lack a consistent order (MixedPrereleasesNotTransitive), and lists on which the comparator happens to be consistent without being uniform are not covered.
- Appcast.CompareReleasesConsistent: the same restriction as SortedNewestFirst.
