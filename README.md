# Chronicle viewer: a Dafny model of its search, ingestion and tiling core

The chronicle viewer shows one very large timeline image as a Deep Zoom
pyramid. It lets a reader search the image's OCR text and jump to the place
where a hit sits. This project models the parts of the repository that decide
what the reader sees, and proves properties of them:

- **The text normaliser** (`normalize.dfy`). The explorer, the search worker
  and the OCR script each define the same normaliser. It is defined once here,
  over uninterpreted Unicode tables.
- **The explorer's pure helpers.** These are the context clipper and the
  suggestion DOM id (`snippet.dfy`), and the word-to-line context map
  (`wordcontext.dfy`).
- **The explorer's search session** (`explorer.dfy`). It is a class whose
  fields are the component's state and refs. The viewer is a class holding the
  set of overlays it shows.
- **The search worker** (`worker.dfy`). It has a pure message handler and a
  class over the worker's module-level state.
- **The OCR ingestion script.** It covers TSV parsing (`tsv.dfy`), line
  grouping (`ocr.dfy`), and the overrides plus the lines/words split
  (`ingest.dfy`).
- **The Deep Zoom tiling script** (`deepzoom.dfy`): level sizes, the tile grid,
  the crop rectangles and the `.dzi` descriptor.
- **The site URL helper** (`site.dfy`).

Shared material:

- `jsstring.dfy`: the JavaScript string operations the sources use (`trim`,
  `split`, `join`, `indexOf`, `slice`, decimal formatting).
- `corpus.dfy`: the OCR entry type and Fuse.js as an abstract ranking.
- `options.dfy`: an option type.

Both normalisation and search are parameters, so every property holds for
any Unicode tables and any ranking.

- The normaliser is a value of type `Unicode`. It holds NFKC, lowercase and
  the letter and number classes as functions.
- Methods and the specifications they are proved against take the normaliser
  as a function value `string -> string`.
- The explorer and the worker are built with `QueryNormalizer(u)`.

## Model

| member | source | states |
|---|---|---|
| Normalizer.ReplaceOthers | components/timeline-explorer.tsx:25 | every character that is not a letter, number or whitespace becomes one space; the length is kept |
| Normalizer.Collapse | components/timeline-explorer.tsx:26 | whitespace runs become one space: no other whitespace and no two adjacent spaces remain, and the empty string stays empty |
| Normalizer.CollapseChars | components/timeline-explorer.tsx:26 | collapsing introduces no character other than the space |
| Normalizer.NormalizeIsClean | components/timeline-explorer.tsx:21-28 | the normaliser's output holds only letters, numbers and single spaces, with no space at either end |
| Normalizer.CleanupOfClean | components/timeline-explorer.tsx:25-27 | the replace, collapse and trim steps leave clean text unchanged |
| Normalizer.LowerNfkcIsFold | components/timeline-explorer.tsx:23-24 | NFKC followed by lowercase equals folding the text character by character |
| Normalizer.NormalizeIdempotent | components/timeline-explorer.tsx:21-28 | normalising twice equals normalising once, given that NFKC-then-lowercase fixes every character it produces |
| Normalizer.AsciiIsStable | components/timeline-explorer.tsx:23-24 | the idempotence hypothesis holds for the ASCII tables, so it can be met |
| Normalizer.NormalizeEmpty | workers/search.worker.ts:29-36 | the empty input normalises to the empty string ("no query") |
| Snippet.FirstToken | components/timeline-explorer.tsx:35 | the token is the first space-separated piece with at least 2 characters; it is empty exactly when no piece is that long |
| Snippet.ClipContext | components/timeline-explorer.tsx:30-51 | text within the budget comes back unchanged; every result is at most maxLength + 6 long |
| Snippet.ClipCases | components/timeline-explorer.tsx:35-50 | over budget: truncation when there is no token or the normalised text lacks it; otherwise the window at the token's offset in the normalised text |
| Snippet.TruncatedIsPrefix | components/timeline-explorer.tsx:37 | the truncation is a prefix of the text of at most maxLength characters, not ending in whitespace, followed by "..." |
| Snippet.WindowBounds | components/timeline-explorer.tsx:46-47 | end ≤ length and end − start ≤ maxLength; when the token fits the budget, the window starts at or before it and reaches past its end |
| Snippet.WindowMarkers | components/timeline-explorer.tsx:48-50 | "..." in front exactly when start > 0 and behind exactly when end < length; the core is at most maxLength long |
| Snippet.WindowShowsSolidWord | components/timeline-explorer.tsx:46-50 | a space-free word at the window's index appears in the windowed snippet |
| Snippet.ClipShowsTokenWhenAligned | components/timeline-explorer.tsx:40-50 | for text that is its own normal form, the clipped context contains the query's token whenever the text does |
| Snippet.ClipMissesTokenWhenOffsetsShift | components/timeline-explorer.tsx:40-50 | the normalised-text offset applied to the raw text can miss the token: "a,,,,,bc" clipped to 4 around "bc" shows no "b" |
| Snippet.SuggestionDomId | components/timeline-explorer.tsx:53-55 | "suggestion-" followed by the id with every character outside [A-Za-z0-9_-] replaced by "-"; only safe characters remain |
| Snippet.DomIdInjectiveOnSafeIds | components/timeline-explorer.tsx:53-55 | ids made only of safe characters get distinct DOM ids |
| Snippet.DomIdCollision | components/timeline-explorer.tsx:53-55 | the distinct ids "1:2" and "1-2" get the same DOM id |
| Snippet.DomIdsAgree | components/timeline-explorer.tsx:53-55 | two ids of one length whose characters are replaced alike get the same DOM id |
| WordContext.BestLine | components/timeline-explorer.tsx:223-238 | the line chosen contains the word's centre (bounds included), no containing line is smaller, and a tie goes to the first; there is none exactly when no line contains the centre |
| WordContext.BestIsUnique | components/timeline-explorer.tsx:223-238 | at most one line meets that description |
| WordContext.ContextMap | components/timeline-explorer.tsx:211-246 | every key of the map is the id of some word entry |
| WordContext.WordContextMap | components/timeline-explorer.tsx:206-246 | the loop over the entries builds the context map over the line entries |
| WordContext.SelectLine | components/timeline-explorer.tsx:223-238 | the inner scan with the running smallest area selects the best line, or none exactly when no line contains the centre |
| WordContext.ContextMapOfWord | components/timeline-explorer.tsx:240-242 | a word with an unshared id is in the map exactly when it has a best line, and then maps to that line's text |
| WordContext.ContextSourceOfEntry | components/timeline-explorer.tsx:248-251 | a line uses its own text; a word uses the text of its best line, or its own text when no line contains its centre |
| WordContext.SuggestionContext | components/timeline-explorer.tsx:248-254 | the suggestion's context is at most 84 characters long |
| Explorer.MatchesOf | components/timeline-explorer.tsx:192-198 | matches are drawn from the entries, and there are none for an empty normalised query or without entries |
| Explorer.Visible | components/timeline-explorer.tsx:200 | the visible suggestions are the first at most 10 matches, and are empty only when there are no matches |
| Explorer.ActiveSuggestionIndex | components/timeline-explorer.tsx:202-203 | 0 for an empty list; otherwise an index of the list, equal to activeIndex when that is in range |
| Explorer.NextPrevWrap | components/timeline-explorer.tsx:382-391 | n moves to a + 1 and wraps len − 1 to 0; p moves to a − 1 and wraps 0 to len − 1 |
| Explorer.NextPrevInverse | components/timeline-explorer.tsx:382-391 | within [0, len), p undoes n and n undoes p |
| Explorer.ArrowDownIndex | components/timeline-explorer.tsx:429-437 | ArrowDown is the n step from the clamped active suggestion, so it stays inside the visible list and wraps from the last to the first |
| Explorer.ArrowUpIndex | components/timeline-explorer.tsx:438-445 | ArrowUp is the p step from the clamped active suggestion, so it stays inside the visible list and wraps from the first to the last |
| Explorer.ArrowInverse | components/timeline-explorer.tsx:429-445 | ArrowUp after ArrowDown, and ArrowDown after ArrowUp, land on the clamped active suggestion |
| Explorer.SyncedUrl | components/timeline-explorer.tsx:319-328 | only q changes: it is set to the normalised query when that is non-empty and removed otherwise |
| Explorer.SyncedUrlOfInSync | components/timeline-explorer.tsx:319-328 | synchronising a URL that already reflects the query changes nothing |
| Explorer.SeedQuery | components/timeline-explorer.tsx:307-312 | a deep link is read exactly when q is present and non-empty |
| Explorer.DeepLinkErasedAtMount | components/timeline-explorer.tsx:319-328 | the synchronisation that runs at mount with the empty query leaves no q to read |
| Explorer.Viewer.AddOverlay | components/timeline-explorer.tsx:282-285 | the overlay joins the viewer's overlays |
| Explorer.Viewer.RemoveOverlay | components/timeline-explorer.tsx:261 | the overlay leaves the viewer's overlays |
| Explorer.Explorer.AtMostOneOverlay | components/timeline-explorer.tsx:256-289 | under the session invariant, the viewer shows at most one overlay |
| Explorer.Explorer.Mount | components/timeline-explorer.tsx:62-70 | initial state: no entries, empty query, index 0, panel closed, no viewer or overlay; the URL has been synchronised with the empty query |
| Explorer.Explorer.ClearOverlay | components/timeline-explorer.tsx:256-265 | the active overlay is removed from the viewer and the ref cleared; nothing else changes |
| Explorer.Explorer.FocusBounds | components/timeline-explorer.tsx:267-289 | without a ready viewer nothing changes; otherwise the old overlay is replaced by exactly one new overlay at the entry's box |
| Explorer.Explorer.JumpToMatch | components/timeline-explorer.tsx:291-301 | an out-of-range index changes nothing; otherwise activeIndex becomes the index and the match is focused |
| Explorer.Explorer.AutoJump | components/timeline-explorer.tsx:330-336 | with matches and a pending deep link, jump to match 0 and disarm; otherwise nothing changes |
| Explorer.Explorer.ViewerCreated | components/timeline-explorer.tsx:79-109 | a viewer without overlays is created unless one exists |
| Explorer.Explorer.ViewerOpened | components/timeline-explorer.tsx:108 | the viewer becomes ready, and the auto-jump effect runs again |
| Explorer.Explorer.QueryChanged | components/timeline-explorer.tsx:315-336 | a new query resets activeIndex to 0, synchronises the URL and runs the auto-jump over the new matches |
| Explorer.Explorer.ReadDeepLink | components/timeline-explorer.tsx:303-313 | unless already handled, a non-empty q is read from the URL and the one-shot jump is armed |
| Explorer.Explorer.StoreEntries | components/timeline-explorer.tsx:303-336 | storing entries reads the deep link and then runs the auto-jump over the current query's matches |
| Explorer.Explorer.EntriesLoaded | components/timeline-explorer.tsx:303-336 | the whole render sequence after the entries arrive: the query, URL, pending flag and index that result |
| Explorer.Explorer.WindowKeyDown | components/timeline-explorer.tsx:362-396 | "/" outside a field opens the panel; Escape closes it and drops focus; n/p outside a field jump cyclically; other keys change nothing |
| Explorer.Explorer.SuggestionKey | components/timeline-explorer.tsx:428-450 | the arrows cycle through the visible list and do nothing when it is empty; Enter with matches jumps to the active suggestion |
| Explorer.Explorer.InputKeyDown | components/timeline-explorer.tsx:428-450 | a key in the input runs the input handler, then the window handler as typed text, where only Escape acts |
| Explorer.Explorer.InputFocused | components/timeline-explorer.tsx:425 | only the focus flag is set |
| Explorer.Explorer.BlurTimerFired | components/timeline-explorer.tsx:426 | only the focus flag is cleared |
| Explorer.Explorer.ToggleClicked | components/timeline-explorer.tsx:407-414 | the panel flips; closing drops focus and opening focuses the input |
| Explorer.Explorer.PointerDown | components/timeline-explorer.tsx:344-360 | a mousedown outside the search block closes the panel and drops focus; otherwise nothing changes |
| Explorer.Explorer.SuggestionHovered | components/timeline-explorer.tsx:477 | the hovered suggestion becomes the active one |
| Explorer.Explorer.SuggestionClicked | components/timeline-explorer.tsx:478 | the clicked suggestion becomes active and is focused |
| Explorer.DeepLinkAsWritten | components/timeline-explorer.tsx:303-328 | as written, after mount and load the query is still empty and no jump is pending, whatever the URL |
| Explorer.DeepLinkCorrected | components/timeline-explorer.tsx:303-336 | with the link read at mount, the query is the URL's q; with matches the first is jumped to, and without matches the jump stays pending |
| Worker.HitIds | workers/search.worker.ts:73-75 | at most limit ids, each the id of a corpus entry |
| Worker.Answer | workers/search.worker.ts:67-77 | the reply carries the request id; its ids are empty without an index or for an empty normalised query, and otherwise are the hits for the normalised query |
| Worker.Handle | workers/search.worker.ts:55-78 | init replaces the corpus and the index and posts nothing; a query posts exactly one reply and keeps the state; other messages change nothing |
| Worker.OneReplyPerQuery | workers/search.worker.ts:63-77 | over any message sequence, the replies' request ids are exactly those of the queries, in order |
| Worker.PostedOnlyGrows | workers/search.worker.ts:69-77 | replies already posted are never altered |
| Worker.EmptyBeforeInit | workers/search.worker.ts:67-71 | before any init, every reply is empty |
| Worker.CorpusKept | workers/search.worker.ts:58-65 | queries and other messages leave the corpus and the index alone |
| Worker.LastInitWins | workers/search.worker.ts:41-61 | after an init, the worker searches exactly that init's entries |
| Worker.ReplyIdsFromCorpus | workers/search.worker.ts:73-77 | every replied id names an entry of the current corpus, and there are at most limit of them |
| Worker.SearchWorker.constructor | workers/search.worker.ts:29-39 | the worker starts with no entries, no index and no replies, and uses the shared normaliser |
| Worker.SearchWorker.BuildIndex | workers/search.worker.ts:41-53 | the corpus and the index are replaced together |
| Worker.SearchWorker.OnMessage | workers/search.worker.ts:55-78 | the new state is the handler applied to the old state and the message |
| Tsv.SplitLines | scripts/generate-ocr.mjs:24 | splitting on LF or CRLF: the pieces between line feeds, with a CR before a line feed removed |
| Tsv.SplitLinesLossless | scripts/generate-ocr.mjs:24 | splitting loses nothing but the separators, and no line holds a line feed |
| Tsv.RecordOf | scripts/generate-ocr.mjs:28-31 | a record's keys are exactly the headers |
| Tsv.RecordValue | scripts/generate-ocr.mjs:29-31 | each header maps to its column's cell, or "" when the row is short |
| Tsv.ExtraColumnsIgnored | scripts/generate-ocr.mjs:29-31 | cells beyond the headers do not change the record |
| Tsv.FillRecord | scripts/generate-ocr.mjs:27-32 | the forEach loop fills the record |
| Tsv.Records | scripts/generate-ocr.mjs:24-26 | one record per line after the first line of the trimmed input |
| Tsv.ParseTsv | scripts/generate-ocr.mjs:23-34 | the loop over the data lines yields the records |
| Tsv.ParseRows | scripts/generate-ocr.mjs:26-33 | the map over the data lines yields one record per line, in order |
| Tsv.RecordOfLine | scripts/generate-ocr.mjs:23-34 | record i has exactly the header keys, and each header's value is its cell in data line i |
| Ocr.TagIsFilter | scripts/generate-ocr.mjs:39-45 | grouping sees exactly the rows with level 5, non-empty trimmed text and conf ≥ 20 |
| Ocr.GroupRows | scripts/generate-ocr.mjs:37-60 | the loop builds the groups: keys in first-seen order, each with its words |
| Ocr.Push | scripts/generate-ocr.mjs:48-59 | the word is appended to its key's group, which is created when absent |
| Ocr.GroupContents | scripts/generate-ocr.mjs:47-59 | a key has a group exactly when a kept row has it, and the group holds that key's words in input order |
| Ocr.GroupTaggedWellFormed | scripts/generate-ocr.mjs:47-59 | the keys in order are pairwise distinct and are exactly the keys that have a group |
| Ocr.GroupsHoldKeptRows | scripts/generate-ocr.mjs:39-59 | a group holds the words of exactly the kept rows with its key |
| Ocr.GroupsInFirstSeenOrder | scripts/generate-ocr.mjs:48-65 | groups come in the order of their keys' first kept rows |
| Ocr.SortByWordNumSpec | scripts/generate-ocr.mjs:66 | the sorted words are ordered by word number, are a permutation of the group, and keep the input order among equal word numbers |
| Ocr.LineBoxIsUnion | scripts/generate-ocr.mjs:76-86 | the line box covers every word box, and each of its edges is some word's edge |
| Ocr.LineBoxSize | scripts/generate-ocr.mjs:107 | the line box has width and height ≥ 0 when its words do |
| Ocr.Clamp01 | scripts/generate-ocr.mjs:108 | the result lies in [0, 1] and equals the input inside that range |
| Ocr.LineConfFloor | scripts/generate-ocr.mjs:108 | the mean of kept confidences (each ≥ 20) divided by 100 and clamped lies in [0.2, 1] |
| Ocr.ScanWords | scripts/generate-ocr.mjs:76-100 | the accumulator loop computes the box extremes, the confidence sum and the word entries |
| Ocr.EmitGroup | scripts/generate-ocr.mjs:65-111 | one pass of the outer loop computes the group's contribution |
| Ocr.GroupLines | scripts/generate-ocr.mjs:36-114 | groupLines yields every group's line entry, then every group's word entries |
| Ocr.WordEntriesShape | scripts/generate-ocr.mjs:88-98 | word entries exist exactly for words whose normal form has ≥ 2 characters: kind word, the line text as context, conf in [0, 1] |
| Ocr.EmitShape | scripts/generate-ocr.mjs:66-110 | a group emits a line exactly when its text and normal form are non-empty, and word entries only then; the line is `line-<key>` and covers its words |
| Ocr.LineIdInjective | scripts/generate-ocr.mjs:103 | distinct keys give distinct line ids |
| Ocr.GroupLinesShape | scripts/generate-ocr.mjs:102-113 | the output is all lines then all words; the line ids are pairwise distinct; every word entry has the line of its key |
| Ocr.LineConfidence | scripts/generate-ocr.mjs:108 | every emitted line's confidence lies in [0.2, 1] |
| Ingest.Get | scripts/generate-ocr.mjs:126-134 | a field exists exactly when the value is an object with that key |
| Ingest.OrElse | scripts/generate-ocr.mjs:128-130 | `??` keeps a present non-null field and takes the default otherwise |
| Ingest.Overrides | scripts/generate-ocr.mjs:126 | the kept items are exactly the items with string text and an array bbox, in order |
| Ingest.LoadOverrides | scripts/generate-ocr.mjs:116-136 | a missing file or a non-array gives nothing; otherwise kept item i becomes override entry i |
| Ingest.FromOverrideDefaults | scripts/generate-ocr.mjs:127-135 | the defaults: id `override-<index>`, norm from the text, context the text, conf 1, kind line unless "word" |
| Ingest.DefaultIdsDistinct | scripts/generate-ocr.mjs:128 | two overrides without ids get different default ids |
| Ingest.ToOut | scripts/generate-ocr.mjs:159 | a generated entry keeps its id, text and kind in the output |
| Ingest.OutOfKindSplits | scripts/generate-ocr.mjs:160-161 | the lines and words lists hold every output entry exactly once between them |
| Ingest.BuildIndexSplit | scripts/generate-ocr.mjs:156-161 | overrides come first; each file lists its kind's overrides, then its kind's generated entries, in order |
| Ingest.BuildIndexGenerated | scripts/generate-ocr.mjs:157-161 | the lines file ends with groupLines' line entries and the words file with its word entries, in their order |
| DeepZoom.LevelSize | scripts/generate-deepzoom.mjs:47-50 | a level is at least one pixel |
| DeepZoom.CeilDiv | scripts/generate-deepzoom.mjs:97-98 | the quotient is the least r with r·b ≥ a |
| DeepZoom.LevelSizeAtTop | scripts/generate-deepzoom.mjs:47-50 | the top level has the original size |
| DeepZoom.LevelSizeBounded | scripts/generate-deepzoom.mjs:47-50 | no level exceeds the original |
| DeepZoom.LevelSizeMonotone | scripts/generate-deepzoom.mjs:47-50 | level sizes never shrink from one level to the next |
| DeepZoom.CeilLog2 | scripts/generate-deepzoom.mjs:68 | maxLevel is the smallest k with 2^k ≥ max(width, height) |
| DeepZoom.LevelZeroIsOnePixel | scripts/generate-deepzoom.mjs:68 | level 0 is 1×1 and the top level is the full image |
| DeepZoom.CoreSizes | scripts/generate-deepzoom.mjs:97-103 | each core is between 1 and 256 wide, 256 except the last, and the last ends at the level's edge |
| DeepZoom.CoresPartition | scripts/generate-deepzoom.mjs:97-103 | each pixel lies in the core of exactly one tile |
| DeepZoom.CropInside | scripts/generate-deepzoom.mjs:105-113 | the overlap is 0 on the border and 1 inside, and every crop stays within the level |
| DeepZoom.GridLength | scripts/generate-deepzoom.mjs:100-114 | the grid issues rows × columns crops |
| DeepZoom.GridShape | scripts/generate-deepzoom.mjs:100-114 | row by row: for every tile (col, row) of the grid, the crop at position row · columns + col is that tile's |
| DeepZoom.TilesInside | scripts/generate-deepzoom.mjs:100-114 | every tile's crop rectangle lies inside the scaled level |
| DeepZoom.CutRow | scripts/generate-deepzoom.mjs:101-128 | the inner loop emits the crops of one row |
| DeepZoom.CutLevel | scripts/generate-deepzoom.mjs:77-129 | one level: its scaling, then its tile grid |
| DeepZoom.TilePyramid | scripts/generate-deepzoom.mjs:68-130 | the commands of every level from 0 to maxLevel, smallest first |
| DeepZoom.LevelTileCount | scripts/generate-deepzoom.mjs:84-114 | each level gives one scaling and rows × columns tiles |
| DeepZoom.ParseTilePathRoundTrip | scripts/generate-deepzoom.mjs:114 | a tile path `<level>/<col>_<row>.jpg` reads back as its level, column and row |
| DeepZoom.TilePathsDistinct | scripts/generate-deepzoom.mjs:114 | distinct tiles have distinct paths |
| DeepZoom.DziHeaderRendered | scripts/generate-deepzoom.mjs:52-54 | the descriptor header records TileSize 256, Overlap 1, Format jpg and the Deep Zoom 2008 namespace |
| DeepZoom.DziRoundTrip | scripts/generate-deepzoom.mjs:52-58 | the descriptor starts with that header and records the original width and height, which read back exactly |
| Site.WithProtocol | app/site.ts:5-8 | `https://` is prepended exactly when the trimmed value starts with neither `http://` nor `https://` |
| Site.StripTrailingSlashes | app/site.ts:9 | the maximal trailing run of `/` is removed, so the result does not end with `/` |
| Site.NormalizeUrlShape | app/site.ts:3-10 | the result is the trimmed value with its scheme ensured, cut before a trailing run of slashes |
| Site.NormalizeUrlOfNormal | app/site.ts:3-10 | a URL with a scheme, no surrounding whitespace and no trailing slash is unchanged |
| Site.NormalizeUrlIdempotent | app/site.ts:3-10 | normalising twice equals normalising once, when the first result keeps its scheme and does not end in whitespace |
| Site.Explicit | app/site.ts:13-16 | the explicit URL is empty exactly when all three variables are unset or empty |
| Site.GetSiteUrlPrecedence | app/site.ts:12-27 | the first non-empty of NEXT_PUBLIC_SITE_URL, SITE_URL, VERCEL_PROJECT_PRODUCTION_URL, VERCEL_URL is normalised; with none, the fallback is returned as written |
| Site.FallbackIsNormal | app/site.ts:1 | the fallback is already in normal form |
| Site.SiteUrlHasNoTrailingSlash | app/site.ts:12-27 | the site URL never ends with `/` |

## Left out

- Strings are sequences of code points. JavaScript's `length`, `slice` and `indexOf` count UTF-16 code units, and so does the replace in `suggestionDomId`, whose pattern has no `u` flag: a character outside the Basic Multilingual Plane becomes `--` there and `-` in `Snippet.SuggestionDomId`. The model does not capture this for such characters.
- NFKC, `toLowerCase`, `\p{L}` and `\p{N}` are uninterpreted tables. NFKC and lowercase are modelled character by character; the real NFKC also composes across characters. `\s` is the JavaScript whitespace set, written out.
- Fuse.js scoring (threshold, weights, location) is an abstract ranking that returns positions in the corpus. The worker's `limit` is modelled as taking the first `limit` results.
- The explorer's fetch of the entries and its error banner are not modelled. The entries arrive as the argument of `EntriesLoaded`.
- The hint card with its localStorage flag and 8-second timer is not modelled.
- DOM focus and blur calls and the JSX rendering are not modelled.
- The 120 ms blur timeout is the separate event `BlurTimerFired`.
- `window.history.replaceState` is not modelled; the URL is a map from parameter name to value.
- The OpenSeadragon viewer is reduced to a set of overlays and a ready flag: its options, its dynamic import, `imageToViewportRectangle`, `fitBoundsWithConstraints` and its `destroy` on unmount are not modelled.
- Each React effect is modelled as the event that triggers it, run in source order. Batching of state updates and render timing are not modelled.
- The explorer does not use the search worker (the explorer searches in-process), so the two are modelled separately.
- `Number()` conversion in `groupLines`, including NaN, is not modelled: rows arrive with their numeric columns already converted.
- `Ocr.Bounds` starts from the first word instead of the source's ±Infinity initial values; it gives the same result because every line has at least one word.
- `Ocr.SortByWordNum` models the in-place, stable `Array.prototype.sort` as an insertion sort on a sequence. It has the same result for the source's comparator, but update in place is not captured.
- The explorer and the worker read the entries file as well-typed entries, with string ids and integer pixel boxes (`Corpus.Entry`, `Corpus.BBox`). Override values of other types pass through ingestion (`Ingest.OutEntry` keeps `id`, `norm` and `bbox` as JSON), but what the explorer then does with them is not modelled. This includes the floating-point centre test for fractional boxes, which the doubled-integer `WordContext.ContainsCentre` matches only for integers. It also includes the exception `suggestionDomId` throws during render for a non-string id.
- `JSON.parse` is not modelled; the overrides file arrives as a parsed `Json` value, `None` standing for a missing file.
- JavaScript's truthiness of `item` in the override filter is implied by the object checks.
- File reads and writes, temp directories and the `tesseract`, `ffmpeg` and `ffprobe` subprocesses are not modelled. The tiling script's subprocess calls are modelled as the list of commands it issues.
- `getDimensions` and its error are not modelled: the image size is a parameter of at least 1×1.
- `Math.log2` on floats is replaced by the integer `DeepZoom.CeilLog2`, the smallest k with 2^k ≥ max(width, height).
- `JSON.stringify` output formatting is not modelled, and neither is the order of object keys.
- Only `app/site.ts` is modelled. The rest of `app/`, `next.config.mjs` and `scripts/prepare-assets.mjs` are static metadata, framework configuration or process spawning, and are not part of this model.

## Findings

| source | as written | input that shows it | evidently intended | confidence | as-written member | corrected member |
|---|---|---|---|---|---|---|
| components/timeline-explorer.tsx:303-328 | the URL effect runs at mount with the empty query and deletes `q`; the deep-link effect only reads the URL once entries exist, so it never sees `q` | any page URL with `?q=foo` | the query is seeded from `q` and, once matches exist, the first one is jumped to | not executed | Explorer.DeepLinkAsWritten | Explorer.DeepLinkCorrected |
