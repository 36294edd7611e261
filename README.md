# Scrape dashboard core, modelled in Dafny

This project models the data-handling core of a scraping dashboard: a
Next.js page that loads scraped rows, lets the user pick chart axes, and,
when a single field is chosen, summarises it as a frequency table, a
histogram or a top/bottom-10 ranking; plus the helpers that turn a
language-model reply or a stored scrape record into rows.

Three source files are modelled:

- `src/app/page.tsx`:
  - the value classifier `isNumeric` and the sampled majority rule
    `fieldIsNumeric`;
  - the three chart builders `buildFrequency`, `buildHistogram` and
    `buildTopBottom`;
  - the `availableFields` memo, the `singleFieldSelected` flag and the
    display-projection memo;
  - the `applyRows` loader with its default-axis rules.
- `src/lib/api.ts`: `extractJson`, `toDataset`, `getNumericFields`,
  `coerceRow` and `coerceDatasetTypes`.
- `src/utils/dataParsing.ts`: `extractJsonFromCodeBlock`,
  `normalizePrice` and `getRowsFromRecord`.

Modules:

- `Js` describes JavaScript values, plain objects (keys in insertion order
  plus a property map), truthiness, `String(v)`, and the strip-then-parse
  `Number(String(v).replace(/[^0-9.\-]/g, ""))` that every numeric check
  uses.
- `Text` describes `trim`, `indexOf`, `split`/`join` and digit strings.
- `Sorting` describes the stable `Array.prototype.sort` as a descending
  insertion sort, both as a function and as an in-place array method
  proved equal to it.
- `Classifier`, `Frequency`, `Histogram`, `TopBottom` and `Dashboard`
  follow the page.
- `Api` and `DataParsing` follow the two helper files.

The definitions that the lemmas below are about:
- `Classifier.IsNumeric` is `isNumeric` (src/app/page.tsx:30-34).
- `Dashboard.Project` is the display-projection memo
  (src/app/page.tsx:116-182).
- `Dashboard.ApplyRows` is `applyRows` (src/app/page.tsx:188-199).
- `Dashboard.AvailableFields` is the `availableFields` memo
  (src/app/page.tsx:106-112).
- `TopBottom.RowLabel` and `TopBottom.Rank` are the label and the
  finite-value filter of `buildTopBottom` (src/app/page.tsx:93-98).
- `Frequency.GroupKey` is the key of `buildFrequency` (src/app/page.tsx:53).
- `Api.GetNumericFields` is `getNumericFields` (src/lib/api.ts:125-129).
- `DataParsing.ExtractJsonFromCodeBlock` is `extractJsonFromCodeBlock`
  (src/utils/dataParsing.ts:3-24).
- `DataParsing.GetRowsFromRecord` is `getRowsFromRecord`
  (src/utils/dataParsing.ts:33-52).

Each loop of the source is a method proved equal to a specification
function. The properties are proved about those functions:
- `CountGroups` and `BuildFrequency` follow the `forEach` of
  `buildFrequency`.
- `CountBins` and `BuildHistogram` follow the counting loop of
  `buildHistogram`.
- `FieldIsNumeric` follows the sampling loop of `fieldIsNumeric`.
- `Scan` follows the shrinking-end loop of `extractJson`.
- `MapEntries` follows the `Object.entries` loops of the coercions.
- `SortInPlace` follows the sort.

Primitives of the JavaScript engine that the model cannot see are a
`Runtime` value passed to every operation:
- `toNumber` is ECMAScript's `Number(string)`;
- `formatNumber` is `Number::toString` for finite numbers;
- `toFixed1` is `toFixed(1)`;
- `parseJson` is `JSON.parse`, where `None` means it throws.

Numbers are `Finite(real) | NaN | PosInf | NegInf`.

Where the behaviour is surprising, the model follows the code. ECMAScript
maps the empty string to 0, so after stripping:
- `isNumeric` calls any non-null text without a digit, a dot or a minus
  sign numeric ("N/A", "abc", "");
- `buildHistogram` and `buildTopBottom` count a missing value (whose
  string form "undefined" strips to "") as the number 0.

`Classifier.DigitlessStringIsNumeric` states the first of these; the
second follows from the same rule in `Js.StripParse` and is not stated as a
lemma of its own.

## Model

| member | source | states |
|---|---|---|
| Classifier.IsNumericStripped | src/app/page.tsx:30-34 | a string and its `[0-9.\-]`-stripped form are classified alike |
| Classifier.DigitlessStringIsNumeric | src/app/page.tsx:30-34 | when `Number("")` is 0, any string with no digit, dot or minus sign is numeric |
| Classifier.FieldIsNumeric | src/app/page.tsx:36-48 | the loop returns true iff the field is named, defined in some of the first 50 rows, and numeric in more than 60% of those defined values |
| Classifier.FieldIsNumericThreshold | src/app/page.tsx:47 | the `> 0.6` ratio test is exactly `5 * numeric > 3 * total` |
| Classifier.FiveSampledValues | src/app/page.tsx:40-47 | with 5 defined sampled values, 3 numeric ones are not enough and 4 are |
| Classifier.FieldIsNumericIgnoresTail | src/app/page.tsx:40 | rows after the 50th never change the verdict |
| Classifier.AbsentFieldIsNotNumeric | src/app/page.tsx:40-47 | a field whose value is undefined (absent, or present as `undefined`) in each of the first 50 rows is not numeric, whatever later rows hold |
| Frequency.GroupsMergeByText | src/app/page.tsx:53 | grouping goes through `String`: a null or missing value shares the group of the text "(empty)", and values with the same string form share a group |
| Frequency.FirstSeen | src/app/page.tsx:54-56 | the group keys are distinct and are exactly the keys of non-empty groups |
| Frequency.CountGroups | src/app/page.tsx:52-55 | the counting loop yields one count per first-seen key, equal to its group size |
| Frequency.BuildFrequency | src/app/page.tsx:50-61 | the builder equals the specification: tallies stably sorted by descending count, first 20, keyed value/count, bar chart |
| Frequency.TalliesCoverAllRows | src/app/page.tsx:52-57 | before the cut the group counts add up to the number of rows |
| Frequency.FrequencyIsTopGroups | src/app/page.tsx:56-60 | at most 20 bars, sorted by count; each bar is a group with its exact size; no omitted group is larger than a shown one; ties keep first-seen order |
| Histogram.Min | src/app/page.tsx:69 | `Math.min` returns a member no larger than any value |
| Histogram.Max | src/app/page.tsx:70 | `Math.max` returns a member no smaller than any value |
| Histogram.BinWidth | src/app/page.tsx:71 | the width is positive; `bins` widths span `max - min`, or 1 when the range is zero |
| Histogram.BinIndex | src/app/page.tsx:74-76 | the clamped floor index always names one of the bins |
| Histogram.CountBins | src/app/page.tsx:72-78 | every bin's count is the number of values whose clamped index is that bin |
| Histogram.BuildHistogram | src/app/page.tsx:63-86 | the builder equals the specification: finite stripped values, min/max range, one labelled count per bin |
| Histogram.CountsCoverAllValues | src/app/page.tsx:73-78 | every value lands in exactly one bin: the counts add up to the number of values |
| Histogram.HistogramShape | src/app/page.tsx:63-86 | bin/count bar chart; empty exactly when no value is finite, otherwise `bins` bars whose counts sum to the number of finite values |
| Histogram.ValueWithinItsBin | src/app/page.tsx:71-80 | each value lies between the lower and upper edge of the bin it is counted in |
| Histogram.OnePerBin | src/app/page.tsx:73-78 | when the j-th value falls in bin j, each of the first bins holds one value and the rest none |
| Histogram.OneToTenInTenBins | src/app/page.tsx:63-78 | the values 1..10 in 10 bins: width 0.9, each bin holds exactly one value, 10 clamped into the last |
| TopBottom.UnnamedLabelsDiffer | src/app/page.tsx:95 | rows without a name at different positions get different `#n` labels |
| TopBottom.BuildTopBottom | src/app/page.tsx:88-104 | the builder equals the specification: ranked rows stably sorted by the order, first k, keyed label/value, bar chart |
| TopBottom.RankedValuesAreFiniteValues | src/app/page.tsx:93-98 | the ranked values are exactly the histogram's finite values, in row order |
| TopBottom.FiniteRowIsRanked | src/app/page.tsx:93-98 | every row with a finite value contributes its entry |
| TopBottom.RankedEntryHasRow | src/app/page.tsx:93-98 | every ranked entry comes from some row, with that row's label and value |
| TopBottom.NegatedKeyGroups | src/app/page.tsx:99-101 | ascending order groups ties exactly as descending order does |
| TopBottom.RankingOf | src/app/page.tsx:99-102 | first k after the sort: min(k, n) entries, drawn from the input, ordered by the direction, no omitted entry beats a kept one, ties in input order |
| TopBottom.TopBottomIsRanking | src/app/page.tsx:88-104 | the result is a label/value bar chart holding that ranking |
| TopBottom.TopFiveOfExample | src/app/page.tsx:99-102 | rows a to e valued 10, 5, 8, 8, 3 rank as a, c, d, b, e: the tie between c and d keeps row order |
| Sorting.InsertSorted | src/app/page.tsx:58 | inserting into a sorted sequence keeps it sorted |
| Sorting.InsertMultiset | src/app/page.tsx:58 | inserting adds exactly the one element |
| Sorting.SortDescIsStableSort | src/app/page.tsx:58 | the sort is sorted, a permutation, and keeps equal keys in input order |
| Sorting.StableSortUnique | src/app/page.tsx:58 | there is only one stable sort of a sequence |
| Sorting.StableSortIsSortDesc | src/app/page.tsx:99-101 | any stable descending sort equals the model's sort |
| Sorting.TopOfStableSort | src/app/page.tsx:58-59 | a prefix of the stable sort is a top-n selection |
| Sorting.SortInPlace | src/app/page.tsx:99-101 | the in-place insertion sort leaves the array equal to the stable sort of its old contents |
| Dashboard.SingleFieldIsChosenAxis | src/app/page.tsx:114-125 | with exactly one axis chosen, `xField || yField` is that non-empty axis |
| Dashboard.ProjectPassesThrough | src/app/page.tsx:116-124 | without a lone axis or without rows, the loaded rows, axes and chart type are shown unchanged |
| Dashboard.NonNumericFieldGetsFrequency | src/app/page.tsx:133-142 | a lone field failing the majority rule is shown as its frequency table |
| Dashboard.NumericFieldFollowsMode | src/app/page.tsx:143-181 | a lone numeric field is shown as the mode says: 10-bin histogram, top 10 descending, bottom 10 ascending, or frequency |
| Dashboard.DerivedViewIsSmallBarChart | src/app/page.tsx:133-181 | every derived view is a bar chart of at most 20 rows, never the raw rows |
| Dashboard.EnteredFieldsAreClean | src/app/page.tsx:107-110 | every typed field is non-empty, has no comma and no white space at its ends |
| Dashboard.TypedFieldsRoundTrip | src/app/page.tsx:106-112 | typing clean names joined by commas offers exactly those names |
| Dashboard.BlankInputOffersHeaders | src/app/page.tsx:106-112 | an input of commas and white space only offers the loaded fields |
| Dashboard.NumericOptions | src/app/page.tsx:194-196 | the numeric options are exactly the headers numeric in some row |
| Dashboard.ApplyRowsDefaults | src/app/page.tsx:188-198 | rows and headers replace data and fields; chosen axes are kept; unset X becomes the first header; unset Y becomes the first header numeric in some row, or stays unset |
| Text.TrimRemovesOnlySpace | src/app/page.tsx:109 | `trim` removes white space from the two ends only |
| Text.TrimIdempotent | src/lib/api.ts:34 | trimming twice is trimming once |
| Text.KeepNumericChars | src/app/page.tsx:32 | the filter keeps exactly the digits, dots and minus signs, in order and in number |
| Text.JoinSplit | src/app/page.tsx:107-108 | joining the pieces of a split gives back the input |
| Text.SplitJoin | src/app/page.tsx:107-108 | splitting comma-free pieces joined by commas gives back the pieces |
| Text.NatToStringRoundTrip | src/app/page.tsx:95 | the row number in a `#n` label reads back as n |
| Api.ExtractJson | src/lib/api.ts:32-69 | the method equals the specification: null for empty text, then direct parse, fenced block, scan |
| Api.Scan | src/lib/api.ts:52-68 | the shrinking-end loop returns the first candidate from the longest down that is non-empty and parses |
| Api.ScanStart | src/lib/api.ts:52-55 | the scan starts at the first `{` or `[`, whichever comes first, or -1 when neither occurs |
| Api.FencedBlock | src/lib/api.ts:41-42 | a block is found exactly when the first fence of the text is closed by a later fence; it is the text from after that fence, and after a "json" tag in any case when one follows, up to the first fence after that |
| Api.TaggedBlockDropsTag | src/lib/api.ts:41-42 | "```JSON{}```" and "```{}```" both hold the block "{}": the tag, in any case, is not part of the block |
| Api.ScanDownFails | src/lib/api.ts:57-68 | the scan returns nothing exactly when no candidate down to `start + 2` parses |
| Api.ScanDownIsLongest | src/lib/api.ts:57-68 | a scan result is the parse of the longest candidate that parses |
| Api.ExtractJsonOfEmpty | src/lib/api.ts:33 | the empty text gives null |
| Api.DirectParseComesFirst | src/lib/api.ts:34-40 | a text that parses after trimming is returned as parsed |
| Api.FencedBlockComesSecond | src/lib/api.ts:41-50 | the fenced block is tried before the scan |
| Api.NoBracketNoScan | src/lib/api.ts:51-69 | text without `{` or `[` that fails the first two attempts gives null |
| Api.ToDataset | src/lib/api.ts:72-77 | every row is an element of the parsed array or the parsed value itself; a value that is not an array gives at most one row |
| Api.ToDatasetOfDataset | src/lib/api.ts:72-77 | an array is its own dataset, so shaping a dataset's rows again gives the same rows |
| Api.ExtractedObjectIsOneRow | src/lib/api.ts:72-77 | an extracted object is one row, a failed extraction none |
| Api.NumberKeys | src/lib/api.ts:128 | the kept keys are exactly the row's keys holding numbers, no more of them than keys |
| Api.NumberKeysInOrder | src/lib/api.ts:128 | the filter keeps key order: it distributes over concatenation and keeps a single key exactly when it holds a number |
| Api.NumericFieldsOfFirstRow | src/lib/api.ts:125-129 | only the first row decides the numeric fields: its keys holding numbers |
| Api.StrictIsLoose | src/lib/api.ts:154-155 | whatever the strict decimal pattern accepts the loose one accepts |
| Api.LooseAcceptsEmptyAndMinus | src/lib/api.ts:155 | the loose pattern accepts "" and "-", which the strict one rejects |
| Api.CoerceValue | src/lib/api.ts:164-180 | a string whose trimmed form matches the strict pattern becomes `Number` of that form exactly when that is not NaN; every other value, and every other string, is kept untrimmed |
| Api.CoerceCell | src/lib/api.ts:145-156 | nullish values are kept; blanks become ""; a non-blank trimmed text becomes its `Number` exactly when that is finite and the text matches the loose pattern, and stays the trimmed text otherwise |
| Api.CoerceCellKeepsText | src/lib/api.ts:145-156 | coercing a cell that stayed text again changes nothing |
| Api.CoerceValueIdempotent | src/lib/api.ts:164-180 | coercing a value twice changes nothing more |
| Api.CoercionsAgreeOnFiniteDecimals | src/lib/api.ts:141-180 | both coercions give the same number for a string that strictly coerces to a finite number |
| Api.CoercionsDifferOnBlank | src/lib/api.ts:149-152 | a blank string stays as it is under `coerceRow` and becomes "" under `coerceDatasetTypes` |
| Api.CoerceRowKeepsMinus | src/lib/api.ts:168-169 | `coerceRow` keeps a lone minus sign |
| Api.CoerceDatasetKeepsMinus | src/lib/api.ts:153-155 | with `Number("-")` NaN, `coerceDatasetTypes` keeps a lone minus sign as text although the loose pattern accepts it |
| Api.CoercionsDifferOnFraction | src/lib/api.ts:153-171 | with `Number(".5")` 0.5, `coerceRow` keeps ".5" as text while `coerceDatasetTypes` stores 0.5 |
| Api.MapEntries | src/lib/api.ts:143-157 | the entry loop gives the same keys in the same order, each value mapped |
| Api.CoerceRow | src/lib/api.ts:164-180 | same keys in the same order, each value passed through the strict coercion |
| Api.CoerceDatasetTypes | src/lib/api.ts:141-159 | one row per row, same keys in the same order, each value passed through the loose coercion |
| DataParsing.StripOpenFence | src/utils/dataParsing.ts:6 | a text starting with a fence loses exactly that fence, the whole run of ASCII letters after it, and one line break when one follows; any other text is unchanged |
| DataParsing.StripCloseFence | src/utils/dataParsing.ts:7 | a text ending with a fence loses exactly that fence and the line break before it when there is one; any other text is unchanged |
| DataParsing.FencedReplyRoundTrip | src/utils/dataParsing.ts:3-11 | a reply fenced with any letter tag gives back the parse of its body |
| DataParsing.BraceSliceRecovery | src/utils/dataParsing.ts:12-21 | prose around an object is recovered through the brace slice |
| DataParsing.NoObjectNoRecovery | src/utils/dataParsing.ts:13-22 | code without `{` that fails to parse gives null |
| DataParsing.NormalizePrice | src/utils/dataParsing.ts:26-31 | a price is produced exactly when the dashboard's `isNumeric` accepts the value, and it is the same stripped number |
| DataParsing.NormalizeIgnoresDecoration | src/utils/dataParsing.ts:28-29 | prices differing only outside `[0-9.\-]` normalise alike |
| DataParsing.FieldText | src/utils/dataParsing.ts:37-38 | a falsy property becomes "", a truthy one its string form |
| DataParsing.ProjectRows | src/utils/dataParsing.ts:36-39 | one `{name, price}` row per element in order, or a TypeError exactly when an element is null or undefined |
| DataParsing.FalsyRecordHasNoRows | src/utils/dataParsing.ts:34 | a falsy record has no rows |
| DataParsing.ParsedRowsTakePriority | src/utils/dataParsing.ts:35-40 | a non-empty `parsed_rows` array is projected one to one, whatever `model_raw` holds |
| DataParsing.UnparseableModelRawHasNoRows | src/utils/dataParsing.ts:41-42 | a `model_raw` recovering nothing gives no rows |
| DataParsing.RecoveredRowsAreProjected | src/utils/dataParsing.ts:43-51 | a recovered object's `rows` array is what gets projected |
| DataParsing.FalsyFieldsBecomeEmpty | src/utils/dataParsing.ts:37-38 | a price of 0 becomes "" |

## Left out

- Floating point: numbers are exact reals. IEEE rounding, overflow to
  infinity in arithmetic, and the digits `Number::toString` and `toFixed`
  print are not modelled; `toFixed1`, `formatNumber` and `toNumber` are
  parameters.
- `JSON.parse` is a parameter (`parseJson`). The JSON grammar is not
  modelled, so results are stated relative to what it accepts.
- `Math.min(...nums)` and `Math.max(...nums)` are modelled as the
  mathematical minimum and maximum. The engine's limit on spread arguments
  is not modelled.
- Key order of plain objects is insertion order. The rule that integer-like
  keys enumerate first in ascending order (affecting `Object.entries` in
  `buildFrequency` and the coercions) is not modelled.
- Objects are dictionaries with no prototype: a key equal to the name of
  an `Object.prototype` member (`constructor`, `toString`, `__proto__`, ...)
  is modelled as an ordinary own key, absent until set. The source's
  objects inherit those members, so for such keys the model and the
  program part:
- Frequency.CountGroups: the counts object of `buildFrequency` is modelled
  as starting empty; in the source a value "constructor" or "toString"
  reads an inherited function as its count, and "__proto__" loses its group,
  so `Frequency.TalliesCoverAllRows` holds only for data without such
  values.
- Classifier.FieldIsNumeric: a field named after an inherited member (for
  example "toString") is modelled as undefined in a row that lacks it; the
  source reads the inherited function, whose stripped text is empty and
  so numeric, so `Classifier.AbsentFieldIsNotNumeric` holds only for other
  field names.
- Api.MapEntries: writing a key "__proto__" into the fresh object is
  modelled as an ordinary property; the source drops it, so `coerceRow` and
  `coerceDatasetTypes` lose that key.
- Api.CoerceRow, Api.CoerceDatasetTypes, Api.MapEntries and
  Api.GetNumericFields take plain objects: the rows of the processed-data
  response and the first row given to `getNumericFields` are assumed to be
  objects. A null row, on which `Object.entries` and `Object.keys` throw a
  `TypeError`, and a string row, which they would read as index keys, are
  not modelled.
- Rows of the page's dataset are plain objects. A null row, which would make
  `buildFrequency` throw, is not modelled; `fieldIsNumeric`'s
  `data[i] || {}` guard is therefore implicit.
- React itself: the state setters, effects and memo caching are modelled as
  pure state transitions and pure functions of the state. All JSX
  rendering is left out.
- `handleSidebarSelect` beyond `applyRows`: unpacking the sidebar
  selection, the network fetches, error banners. So are `getProcessedData`,
  `processScrapeData`'s fetch and `authFetch`: network I/O with no logic to
  prove.
- Regular expressions are modelled as written out predicates for the
  patterns used; `\s` and `trim` use ECMAScript's white-space set.
  `extractJson`'s case-insensitive "json" tag folds ASCII letters only.
- A reply whose JSON is itself `null` and a failed extraction both come
  out of `extractJson` as `Null`, as in the source, so the lemmas cannot
  tell them apart.
