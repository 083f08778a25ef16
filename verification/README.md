# Sitemap subset generator — verified model of the classify, group and truncate pipeline

The service takes a sitemap, sorts its URLs into content types by looking at
their paths, keeps the first `subsetSize` URLs of each content type and writes
the survivors to a new sitemap. This project models that pipeline in Dafny and
proves what it promises.

- `classifier.dfy`, module `Classifier`: `determineContentType`. The pathname is
  split on `/` and the empty pieces are dropped. The segments are scanned left to
  right. A segment matches when its lower-cased form is one of `locations`,
  `doctors`, `conditions-and-treatments`, `forms`, `about`, or ends in `s` and is
  one of them once that `s` is removed. The first match wins and gives the
  lower-cased segment itself. With no match the label is the first segment as
  written, or `other` when there is none.
- `subset.dfy`, module `SubsetBuilder`: the reference definition of grouping
  (first-seen key order, one group per content type) and of truncation with
  `slice(0, subsetSize)`, and the lemmas about them. It is generic in the
  labelling function.
- `route.dfy`, module `GenerateSubsetRoute`: the POST handler as methods with
  loops. `GroupByContentType` fills the dictionary in place. `TakeSubsets` cuts
  each group and appends it to the output. `GenerateSubset` returns the counts
  the handler reports. Each method is proved equal to the reference definition.
- `wrappers.dfy`: an `Option` type.

The platform URL parser (`new URL(url).pathname`) is a parameter
`pathname: string -> Option<string>`. `None` stands for the parser throwing,
which fails the whole request with the catch-all error.

The handler does not validate `subsetSize`. A limit of 0 succeeds with an
empty sitemap (`ZeroLimitKeepsNothing`). A negative limit drops that many URLs
from the end of each group, as `slice(0, end)` does (`Kept`).

## Model

| member | source | states |
|---|---|---|
| `Classifier.Lower` | app/api/generate-subset/route.ts:21 | `toLowerCase` keeps the length, turns each upper-case letter `A`-`Z` into its own lower-case letter (code point + 32) and changes nothing else |
| `Classifier.LowerIsLowerCase` | app/api/generate-subset/route.ts:21 | lower-casing keeps the length, leaves no upper-case letter and is idempotent |
| `Classifier.Split` | app/api/generate-subset/route.ts:15 | `split('/')` gives at least one piece, and no piece contains a slash |
| `Classifier.JoinSplit` | app/api/generate-subset/route.ts:15 | joining the pieces with `/` gives back the pathname |
| `Classifier.SplitJoin` | app/api/generate-subset/route.ts:15 | splitting a join of slash-free pieces gives back the pieces |
| `Classifier.SplitAtSeparator` | app/api/generate-subset/route.ts:15 | splitting `a + "/" + b` splits `a` and `b` independently |
| `Classifier.NonEmpty` | app/api/generate-subset/route.ts:15 | `filter(Boolean)` keeps exactly the non-empty pieces, none added |
| `Classifier.NonEmptyConcat` | app/api/generate-subset/route.ts:15 | `filter(Boolean)` distributes over concatenation |
| `Classifier.Segments` | app/api/generate-subset/route.ts:15 | every segment is non-empty and slash-free |
| `Classifier.SegmentsOfCanonicalPath` | app/api/generate-subset/route.ts:15 | a list of non-empty slash-free segments is recovered from `"/s1/s2/..."` |
| `Classifier.SplitOfCanonicalPath` | app/api/generate-subset/route.ts:15 | splitting `"/s1/s2/..."` with slash-free segments gives an empty piece followed by the segments |
| `Classifier.SegmentsIgnoreLeadingSlash` | app/api/generate-subset/route.ts:15 | a leading slash does not change the segments |
| `Classifier.SegmentsIgnoreTrailingSlash` | app/api/generate-subset/route.ts:15 | a trailing slash does not change the segments |
| `Classifier.SegmentsIgnoreDoubledSlash` | app/api/generate-subset/route.ts:15 | a doubled slash gives the same segments as a single one |
| `Classifier.SegmentsOfExtension` | app/api/generate-subset/route.ts:15 | the segments of `a + "/" + b` are those of `a` followed by those of `b` |
| `Classifier.MatchIgnoresCase` | app/api/generate-subset/route.ts:21-26 | two segments equal up to ASCII case either both match or both do not |
| `Classifier.MatchIffMatchingForm` | app/api/generate-subset/route.ts:18-28 | a segment matches if and only if its lower-cased form is one of the ten forms "indicator" or "indicator + s"; a singular such as `doctor` does not match |
| `Classifier.MatchingFormIff` | app/api/generate-subset/route.ts:22-26 | on an already lower-cased segment, the indicator test and the trailing-`s` test together accept exactly the ten matching forms |
| `Classifier.FirstMatch` | app/api/generate-subset/route.ts:20-29 | the result is the index of a matching segment with no matching segment before it, or none when no segment matches |
| `Classifier.DetermineContentType` | app/api/generate-subset/route.ts:13-33 | the label is the lower-cased first matching segment; with no match, the first segment in its original case, or `other` when there are no segments |
| `Classifier.MatchedLabel` | app/api/generate-subset/route.ts:21-28 | when some segment matches, the label is lower-case and is one of the ten matching forms (the segment, not the indicator) |
| `Classifier.LaterSegmentsIgnored` | app/api/generate-subset/route.ts:20-29 | once a segment of `a` matches, appending any `"/" + b` leaves the label unchanged |
| `Classifier.LabelOfSegments` | app/api/generate-subset/route.ts:15-32 | two pathnames with the same segments get the same label |
| `Classifier.LabelIgnoresEmptySegments` | app/api/generate-subset/route.ts:15-32 | leading, trailing and doubled slashes never change the label |
| `Classifier.ExampleMatchingSegments` | app/api/generate-subset/route.ts:21-26 | `about` matches, and so does `Abouts`, with a capital and one trailing `s` |
| `Classifier.ExampleUnmatchedSegments` | app/api/generate-subset/route.ts:21-26 | the singular `doctor` does not match, nor do `Team`, `Blog`, `blog` or `post-1` |
| `Classifier.ExampleFirstMatchWins` | app/api/generate-subset/route.ts:20-24 | `/about/team/jane` is labelled `about` |
| `Classifier.ExamplePluralSegment` | app/api/generate-subset/route.ts:25-28 | `/Blog/Abouts` is labelled `abouts`, the lower-cased segment, not `about` |
| `Classifier.ExampleFallbackKeepsCase` | app/api/generate-subset/route.ts:25-32 | `/Team/doctor` is labelled `Team`: `doctor` does not match and the fallback keeps the case |
| `Classifier.ExampleFirstSegmentFallback` | app/api/generate-subset/route.ts:31-32 | `/blog/post-1` is labelled `blog` |
| `Classifier.ExampleNoSegments` | app/api/generate-subset/route.ts:32 | a pathname made only of slashes is labelled `other` |
| `SubsetBuilder.Kept` | app/api/generate-subset/route.ts:67 | `slice(0, end)` on `n` elements keeps `min(n, end)` for `end >= 0` and `max(0, n + end)` for `end < 0`: never more than `n`, never more than `end`, never fewer than `n + end`, and each bound is met exactly |
| `SubsetBuilder.Slice` | app/api/generate-subset/route.ts:67 | `slice(0, end)` is a prefix of the array, of `Kept(length, end)` elements |
| `SubsetBuilder.KeyOrder` | app/api/generate-subset/route.ts:55-62 | the dictionary keys have no duplicates and are exactly the content types of the input URLs |
| `SubsetBuilder.GroupOf` | app/api/generate-subset/route.ts:56-61 | every URL of a group has the group's content type, and a group is no longer than the input |
| `SubsetBuilder.Grouped` | app/api/generate-subset/route.ts:55-62 | the dictionary's keys are exactly the content types seen, and each key holds the URLs of that type in input order |
| `SubsetBuilder.KeyOrderStep` | app/api/generate-subset/route.ts:58-60 | one more URL appends its content type to the key order unless the type was already seen |
| `SubsetBuilder.GroupOfStep` | app/api/generate-subset/route.ts:61 | one more URL is pushed onto the group of its own content type and no other |
| `SubsetBuilder.PushStep` | app/api/generate-subset/route.ts:56-62 | one iteration of the grouping loop keeps the dictionary equal to the grouping of the URLs seen so far |
| `SubsetBuilder.PushSeenKey` | app/api/generate-subset/route.ts:61 | a URL of a type already seen is appended to that type's group; the keys are unchanged and the state is the grouping of one more URL |
| `SubsetBuilder.PushNewKey` | app/api/generate-subset/route.ts:58-61 | a URL of a new type gets a new key, placed last, whose group holds just that URL; the state is the grouping of one more URL |
| `SubsetBuilder.NewKeyHasEmptyGroup` | app/api/generate-subset/route.ts:58-60 | a content type not yet seen has an empty group, which is why the handler creates it |
| `SubsetBuilder.GroupedAtEnd` | app/api/generate-subset/route.ts:55-62 | after the last URL the dictionary is the complete grouping |
| `SubsetBuilder.SameGrouping` | app/api/generate-subset/route.ts:55-62 | a dictionary with the same keys and groups as the grouping is the grouping |
| `SubsetBuilder.KeyOrderGrowsByAppending` | app/api/generate-subset/route.ts:58-60 | the key order of any prefix of the input is a prefix of the final key order (first-seen order) |
| `SubsetBuilder.GroupMultiplicity` | app/api/generate-subset/route.ts:55-62 | a group holds each URL of its content type exactly as often as the input, and no other URL |
| `SubsetBuilder.GroupPreservesOrder` | app/api/generate-subset/route.ts:61 | every group is a subsequence of the input: input order is kept |
| `SubsetBuilder.GroupNonEmptyIffKey` | app/api/generate-subset/route.ts:58-61 | a content type has a non-empty group if and only if it is a key |
| `SubsetBuilder.FlattenMultiplicity` | app/api/generate-subset/route.ts:55-62 | the groups of distinct keys together hold each URL whose type is among them exactly as often as the input |
| `SubsetBuilder.GroupsPartitionInput` | app/api/generate-subset/route.ts:55-62 | the groups together are a permutation of the input, and their sizes sum to the input length |
| `SubsetBuilder.GroupOfConcat` | app/api/generate-subset/route.ts:68 | picking one content type distributes over concatenation |
| `SubsetBuilder.GroupOfUniform` | app/api/generate-subset/route.ts:67 | picking a type from a list of one type gives all of it or nothing |
| `SubsetBuilder.TakeEachProjection` | app/api/generate-subset/route.ts:66-68 | in the concatenated slices of distinct keys, the URLs of type `k` are the slice of `k`'s group when `k` is among the keys, else none |
| `SubsetBuilder.SubsetProjection` | app/api/generate-subset/route.ts:65-68 | the URLs of each content type in the output are exactly the first `Kept(size, limit)` URLs of its group |
| `SubsetBuilder.TakeEachLength` | app/api/generate-subset/route.ts:66-68 | the output length is the sum of what each group keeps |
| `SubsetBuilder.SumKeptAtMostLimitEach` | app/api/generate-subset/route.ts:67 | for a non-negative limit, the groups keep at most `limit` times the number of keys |
| `SubsetBuilder.TakeEachWithinGroups` | app/api/generate-subset/route.ts:67-68 | the cut groups are a sub-multiset of the whole groups and no longer than them |
| `SubsetBuilder.SubsetBounds` | app/api/generate-subset/route.ts:65-70 | the output length is the sum of the kept sizes, at most the input length, at most `limit` per content type, and no URL occurs more often than in the input |
| `SubsetBuilder.EveryContentTypeKept` | app/api/generate-subset/route.ts:65-68 | for a limit of at least 1, a content type occurs in the output if and only if it occurs in the input |
| `SubsetBuilder.TakeEachWholeGroups` | app/api/generate-subset/route.ts:67 | a limit at least the input length cuts no group |
| `SubsetBuilder.NoTruncation` | app/api/generate-subset/route.ts:65-68 | a limit at least the input length keeps every group whole: the output is a permutation of the input |
| `SubsetBuilder.ZeroLimitKeepsNothing` | app/api/generate-subset/route.ts:67 | a limit of 0 gives an empty output |
| `SubsetBuilder.ExampleKeys` | app/api/generate-subset/route.ts:55-62 | three URLs, the first two of one type: the keys are the two types in first-seen order |
| `SubsetBuilder.ExampleGroup` | app/api/generate-subset/route.ts:55-62 | for three URLs, a group lists those of its type in input order |
| `SubsetBuilder.ExampleGrouping` | app/api/generate-subset/route.ts:55-62 | `[a, b, x]` with `a`, `b` of one type groups as `[a, b]` and `[x]` in that order |
| `SubsetBuilder.TakeEachOfTwo` | app/api/generate-subset/route.ts:65-68 | with two non-empty groups and limit 1, the output is the first URL of each, in key order |
| `SubsetBuilder.ExampleOnePerGroup` | app/api/generate-subset/route.ts:55-70 | `[a, b, x]` with limit 1 gives `[a, x]` |
| `GenerateSubsetRoute.LabelOfParsedUrl` | app/api/generate-subset/route.ts:57 | a URL that `new URL` accepts is labelled by `determineContentType` applied to its pathname |
| `GenerateSubsetRoute.AllParseStep` | app/api/generate-subset/route.ts:14 | the URLs seen so far all parse when the next one does too |
| `GenerateSubsetRoute.GroupByContentType` | app/api/generate-subset/route.ts:55-62 | fails exactly when some URL does not parse; otherwise the keys are the first-seen order of content types and the dictionary is the grouping |
| `GenerateSubsetRoute.TakeSubsets` | app/api/generate-subset/route.ts:65-70 | the output is each group in key order, cut with `slice(0, subsetSize)`, concatenated |
| `GenerateSubsetRoute.GenerateSubset` | app/api/generate-subset/route.ts:52-102 | fails exactly when some URL does not parse; otherwise the sitemap is the subset, `totalUrls` is the input length and `subsetSize` the output length, within the input length, within `subsetSize` per content type, and a sub-multiset of the input; empty input gives an empty success |

## Left out

- Fetching the sitemap (`fetch`, `response.text()`) is network I/O and is not modelled.
- Parsing and building the sitemap XML uses the third-party `fast-xml-parser`, whose source is not part of this model. The input is the list of `loc` strings and the output the list written to the new sitemap. The `urlset`/`url` shape check depends on that parser's output and is not modelled. A sitemap with no `<url>` entry leaves `result.urlset.url` undefined, so the check throws and the request fails with the catch-all error before any grouping. The empty-input success that `GenerateSubset` describes therefore arises only if the parser yields an empty list.
- The extraction of each entry's text (`typeof url === 'string' ? url : url.loc`) is not modelled; an entry without `loc` is not represented.
- `new URL(url).pathname` is the parameter `pathname`, including its percent-encoding and its errors.
- `toLowerCase` is modelled on ASCII letters only; Unicode case mapping (which can change a string's length) is not.
- The identifier from `Date.now()`, the directory creation and the file write are clock and filesystem effects and are not modelled. `GenerateSubset` describes the reply when the write succeeds; a failed write also gives the catch-all error.
- Logging (`console.log`, `console.error`) is not modelled.
- `GenerateSubsetRoute.GroupByContentType`: the dictionary is modelled with an explicit first-seen key order. JavaScript's `Object.entries` lists integer-like keys (a first segment such as `2023`) first in ascending order, and this is not modelled.
- `GenerateSubsetRoute.GroupByContentType`: a content type that names an `Object.prototype` member (`constructor`, `__proto__`, `toString`, ...) makes `push` throw and the request fail; the model treats it as an ordinary key.
- `GenerateSubsetRoute.GenerateSubset`: `subsetUrls.push(...groupSubset)` passes a whole group as call arguments. For a very large group the engine throws a `RangeError` and the request fails with the catch-all error; the model does not capture this limit.
- `GenerateSubsetRoute.GenerateSubset`: `subsetSize` is an integer. A fractional, `NaN` or non-numeric `subsetSize`, which `slice` converts, is not modelled.
- The retrieval route (app/sitemap/[id]/route.ts) only reads a stored file and is not part of this model; neither is the form page (app/page.tsx).
