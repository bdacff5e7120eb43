# Table-of-contents reconstruction for gazette PDFs, modelled in Dafny

The application downloads issues of the Hungarian official gazette (Magyar Közlöny,
Hivatalos Értesítő). It rebuilds each issue's table of contents from the text items
of the PDF. `parsePdf` (src/utils/parse.ts) does this in three stages:

- the **segmenter** walks the text items page by page. A `record` flag is switched on by
  the item `Tartalomjegyzék` and switched off by any non-blank text item of font height 10
  other than that marker. Non-text and blank items are skipped and change nothing. Every
  other text item seen while recording is pushed onto a flat list `blocks` as
  `text + " "`. A four-digit text gets the `LINE_BREAK` sentinel appended first.
- the **assembler** groups `blocks` into `Entry {id, name, num}` records. A string without
  the sentinel that comes first or right after a sentinel string opens an entry as its
  `id`. Following strings without the sentinel are appended to its `name`. Each sentinel
  string sets its `num`, with the first sentinel removed, so a later one overwrites an
  earlier one. A first string with the sentinel makes the parser throw.
- the **filter** drops the entries whose trimmed `id` is the `HEADING` label.

The second piece is `splitRandom` (src/lib/utils.ts). It cuts a string into consecutive
chunks of random length between `min` and `max`.

Modules:

- `Wrappers` holds `Option` and `Result`.
- `Types` holds `Entry` and `DocType` (src/types.ts).
- `JsString` models the JavaScript string built-ins used: `trim`, `includes`, `replace`
  with a string pattern, and the test `/^(\d{4})$/`. `IndexOf`, the first occurrence of a
  pattern, is a helper that defines `includes` and `replace`. Each has a lemma stating its
  meaning, except the regular-expression test, which is its own definition.
- `Parse` holds the segmenter and the assembler as methods shaped like the source loops,
  the filter as the function `FilterHeading`, and `ParsePdf` chaining them. Each method is
  proved equal to a specification function: `Segment` to `SegmentBlocks`, `Assemble` to
  `AssembleSpec`, `ParsePdf` to `ParseSpec`.
- `ParseProperties` proves what those specification functions guarantee. The segmenter is
  tied to a description without state: a non-blank text item other than the marker, of
  height other than 10, is kept exactly when an earlier marker came with no such text
  item of height 10 since; no other item is ever kept. The assembler is tied to
  grouping by entry start positions, and the filter to membership and order.
- `Utils` holds `SplitRandom`, with the random length as an arbitrary choice in
  `[min, max]`.

`LINE_BREAK` and `HEADING` come from `./const`, which is not part of this model. They are
the two fields of a `Config` parameter, so every property holds for any value of them.
Where a property needs `LINE_BREAK` to be non-empty and not to start with a digit, the
lemma says so.

Behaviour of the code that the model keeps:

- **Placeholder entry.** A document without a table of contents does not give an empty
  list. `entries` starts as the placeholder `{'', '', ''}`, so when nothing is pushed the
  result is that placeholder, unless `HEADING` is `''` (`NoBlocksGivesPlaceholder`).
- **Trailing spaces.** Every pushed string keeps the space the segmenter appends. An entry
  read from an act label, its title and the year `2025` has `num == "2025 "` and an `id`
  ending in a space (`PushedStrings`, `RenderedNumber`, `OneEntryPage`).
- **Failure when the first string is a number.** The parser throws when the first pushed
  string carries the sentinel, because it writes `entries[-1].num` (`ParseFailsIff`,
  `FirstNumberFails`).
- **Tests the code does not make.** There are no chapter blocks, only one excluded height,
  no removal of entries with an empty `name`, and the four-digit test is on the untrimmed
  text.

## Model

| member | source | states |
|---|---|---|
| Parse.Segment | src/utils/parse.ts:20-48 | the page loop with its per-item callback computes exactly `SegmentBlocks`, the fold of the callback over all items of all pages in order |
| Parse.Assemble | src/utils/parse.ts:51-70 | the index-writing loop returns `Success` of the grouped entries, the one-entry placeholder for no strings, and `Failure` exactly when the first string carries the sentinel |
| Parse.ParsePdf | src/utils/parse.ts:12-74 | the whole parser computes `ParseSpec`: segment, then assemble, then filter, and the assembler's failure is passed through |
| Parse.DocTypeOf | src/utils/parse.ts:14 | the document is a Hivatalos Értesítő exactly when its title contains the phrase somewhere |
| Parse.FilterHeadingMembers | src/utils/parse.ts:73 | an entry survives the filter exactly when it was present and its trimmed id is not the heading; the filter never lengthens the list |
| Parse.EntryStartsSpec | src/utils/parse.ts:62-66 | the entry start positions are in range, strictly increasing, and include every position whose string has no sentinel and comes first or right after a sentinel string |
| ParseProperties.RecordingStep | src/utils/parse.ts:35-43 | the marker turns recording on, a height-10 content item turns it off, and any other item leaves it as it was |
| ParseProperties.SegmentRunAt | src/utils/parse.ts:27-47 | after any prefix of the items, `record` is the recording condition and `blocks` is the rendering of exactly the kept items, in order |
| ParseProperties.SegmentKeepsExactly | src/utils/parse.ts:23-47 | the blocks are the renderings of exactly the kept items of all pages, page after page |
| ParseProperties.KeptItemsAreContent | src/utils/parse.ts:8-43 | no item that fails `Parse.IsPdfTextItem` (`assertIsPdfTextItem`, an item without `str`), no blank item, marker or height-10 item is ever kept; the marker itself is not blank (`MarkerIsNotBlank`), so the blank test never hides it |
| ParseProperties.NothingBeforeMarker | src/utils/parse.ts:35-43 | until the first marker nothing is pushed and recording stays off |
| ParseProperties.StopSilencesUntilMarker | src/utils/parse.ts:39-43 | after a non-blank text item of height 10 other than the marker, nothing more is pushed until the next marker, and recording is off |
| ParseProperties.FlattenConcat | src/utils/parse.ts:23-27 | the items of the pages `p + q` are those of `p` followed by those of `q` |
| ParseProperties.RenderedNumber | src/utils/parse.ts:45-46 | `Parse.Render`: a four-digit text is pushed carrying the sentinel, and removing the first sentinel gives back the text with its trailing space when the sentinel does not start with a digit |
| ParseProperties.PushedStrings | src/utils/parse.ts:45-46 | the k-th pushed string is the k-th kept item's text followed by the sentinel and a space when it is four digits, and by one space otherwise |
| ParseProperties.GroupedText | src/utils/parse.ts:55-70 | the ids and names of the grouped entries, concatenated, are the strings without sentinel in order |
| ParseProperties.AssembledText | src/utils/parse.ts:55-70 | when the assembler succeeds, its entries' ids and names concatenate to the non-sentinel strings of `blocks`, in order |
| ParseProperties.LastNumAt | src/utils/parse.ts:56-59 | the number of a run is its last sentinel string with the first sentinel removed; later ones overwrite earlier ones |
| ParseProperties.LastNumNone | src/utils/parse.ts:65 | the number of a run without sentinel string stays empty |
| ParseProperties.AssembledNum | src/utils/parse.ts:56-59 | the number of the k-th assembled entry is the last sentinel string between its id and the next entry, with the first sentinel removed |
| ParseProperties.EntryOfNum | src/utils/parse.ts:56-59 | the number of the entry made of positions `s` to `e` is taken from its last sentinel string, with the first sentinel removed |
| ParseProperties.AssembledNumEmpty | src/utils/parse.ts:65 | the k-th assembled entry has an empty number when no sentinel string follows its id before the next entry |
| ParseProperties.OneEntryPage | src/utils/parse.ts:20-73 | a page holding the marker, an id, a title and a four-digit year gives exactly one entry, whose id, name and number each keep the segmenter's trailing space |
| ParseProperties.FilterConcat | src/utils/parse.ts:73 | `Parse.FilterHeading`: filtering a concatenation concatenates the filtered parts, so the filter keeps order |
| ParseProperties.FilterKeepsOthers | src/utils/parse.ts:73 | when no entry's trimmed id is the heading, the filter returns the list unchanged |
| ParseProperties.HeadingTokenDropped | src/utils/parse.ts:73 | an entry whose id was pushed from a text that trims to the heading never survives |
| ParseProperties.NoBlocksGivesPlaceholder | src/utils/parse.ts:51 | with nothing pushed, the result is the single placeholder entry, dropped only when the heading is empty |
| ParseProperties.NoMarkerGivesPlaceholder | src/utils/parse.ts:20-51 | a document without the marker, including one with no pages, gives that same result |
| ParseProperties.ParseFailsIff | src/utils/parse.ts:51-58 | the parser fails exactly when the first kept item is pushed as a string containing the sentinel |
| ParseProperties.FirstNumberFails | src/utils/parse.ts:45-58 | in particular it fails when the first kept item is a four-digit number |
| JsString.TrimSpec | src/utils/parse.ts:31 | `trim` gives the empty string exactly for all-white-space text, and otherwise text that neither starts nor ends with white space |
| JsString.TrimIsSlice | src/utils/parse.ts:73 | what `trim` returns is a contiguous piece of its argument |
| JsString.TrimAppendSpace | src/utils/parse.ts:46 | appending the segmenter's space never changes what `trim` returns |
| JsString.IncludesSpec | src/utils/parse.ts:56 | `includes` holds exactly when the pattern occurs at some position |
| JsString.IndexOfSpec | src/utils/parse.ts:58 | `IndexOf`, the first-occurrence search that `replace` does, returns the first occurrence, and -1 exactly when there is none |
| JsString.RemoveFirstSpec | src/utils/parse.ts:58 | `replace` with a string pattern leaves the text alone without an occurrence, and otherwise cuts out exactly the first occurrence |
| Utils.Bounds | src/lib/utils.ts:14-15 | `min` becomes at least 1 and `max` at least `min`, and each is kept when already large enough |
| Utils.SplitRandom | src/lib/utils.ts:13-28 | whatever lengths are drawn, the chunks concatenate back to the input, each has 1 to `max` characters, all but the last at least `min`, and only the empty string gives no chunk |
| Utils.SplitRandomCount | src/lib/utils.ts:16-26 | the number of chunks is at least the input length over `max`, and less than one more than the input length over `min` |
| Utils.JoinUpper | src/lib/utils.ts:19-25 | chunks of at most `max` characters cover at most their count times `max` characters |
| Utils.JoinLower | src/lib/utils.ts:19-25 | chunks of at least `min` characters, except a non-empty last one, cover more than their count minus one times `min` |

## Left out

- The PDF library calls (`getDocument`, `getPage`, `getTextContent`) are a foreign library. The model takes the pages of text items as input, and its `Item` keeps only the text, the height and `hasEOL`.
- `console.clear`, `console.log` and the debug output are I/O and are not modelled.
- `async`/`await` is not modelled: every page is taken as already delivered, in order.
- The values of `LINE_BREAK` and `HEADING` are unknown, because `./const` is not part of this model. They are parameters.
- Parse.Segment: the `$` patterns in the `replace` replacement string are not interpreted. `$1` is taken to insert the four digits, and `LINE_BREAK` is taken literally, even if it held a `$` sequence.
- Strings are sequences of code points. JavaScript's UTF-16 code units, which only matter outside the Basic Multilingual Plane, are not modelled.
- Heights are real numbers compared with `== 10`. Floating-point rounding is not modelled.
- Utils.SplitRandom: `min` and `max` are integers. A non-integer argument, for which `Math.floor(Math.random() * (max - min + 1)) + min` can give a non-integer length, is not modelled.
- Utils.SplitRandom: `Math.random` is replaced by an arbitrary choice in `[min, max]`. Which lengths it actually draws is not modelled.
- `cn` and `sleep` in src/lib/utils.ts are a class-name helper and a timer, and are not modelled.
- The rest of the repository (App.tsx, the React components, download.ts, gemini.ts, clipboard.ts, src/lib/parse.ts, magyarkozlony.ts) is fetching, rendering or presentation, and is not modelled.
- `docType` is computed (`DocTypeOf`) but, as in the source, never affects the result.
