# ChapterDB chapter lookup, modelled in Dafny

This project models how Subler finds chapter markers for a movie on
ChapterDB and how the chapter-search window lets the user choose among them.

* **The web scraper** (`ChapterDBWebScraper`) does three things:
  - It reads the search page line by line. Each `<tr>` … `</tr>` row becomes
    a candidate result with an id, a title, a number of confirmations and a
    duration.
  - It keeps the candidates whose duration is within 20 seconds of the
    movie's. If none is close enough, it keeps them all.
  - It reads a result's detail page: it finds the chapter table and turns
    each row of the table into a chapter. Cells 1, 2 and 3 give the
    chapter's number, name and timestamp.
* **The search controller** (`ChapterSearch.ChapterSearchController`) is a
  state machine with three states:
  - `Idle`: no results yet;
  - `Searching`: a search task is running;
  - `Completed`: the results, with one of them selected.

  It also keeps a cache of the chapters loaded for each result id. Loads
  start lazily when a result is selected. The controller's asynchronous
  completions are modelled as explicit event methods: `SearchDone` and
  `ChaptersLoaded`.

Files:

| file | contents |
|---|---|
| `wrappers.dfy` | `Option`, Swift's `T?`, and `GetOr`, Swift's `??` |
| `numbers.dfy` | 64-bit integer types, `UInt64(String)`, `Int(String)`, `"\(n)"`, `%02d` |
| `text.dfy` | whitespace, trimming, `replacingOccurrences`, the entity decoding of chapter names |
| `patterns.dfy` | the fixed regular expressions, written as explicit leftmost-match scanners |
| `sequences.dfy` | `FilterMap`: parse every row and keep the rows that parse |
| `row_scan.dfy` | the `<tr>`/`</tr>` row scanner that both page parsers share |
| `chapter_db_web_scraper.dfy` | search-page parsing, the duration filter, detail-page parsing, the fallback helpers |
| `chapter_search_controller.dfy` | the search window's state machine and its chapter cache |

The parsers are methods with the source's loops. Each method is proved to
return a specification function of its input:

- `SearchPage` for the two search-page parsers;
- `SearchRow` for one search row;
- `DetailChapters` for the detail page;
- `RowChapter` for one detail row.

These specification functions are folds over the page's lines. The lemmas
about them state the source's rules:

- row boundaries;
- which rows yield nothing;
- the defaults;
- the positional meaning of the cells.

Where the code does something other than its evident intent, the
model follows the code:

- **Detail rows with fewer than three cells.** They are still turned into
  chapters, with timestamp 0. The source's final check, `timestamp >= 0` on
  an unsigned value, never fails; only a negative chapter number rejects a
  row (`RowChapterRejected`, `RowWithoutCells`).
- **The fallback chapter name.** `String(format: "Chapter %02d", n)` passes
  a 64-bit `Int` to `%d`, which reads a 32-bit C `int`. Only the low 32 bits
  of the number are printed, as a signed value: 2^31 prints as
  `Chapter -2147483648` and 2^32 + 1 as `Chapter 01` (`ChapterLabel`,
  `ChapterLabelNumber`).
- **A failed chapter load.** It is cached as an empty list, so that id is
  never fetched again (`LoadChapters`, `ChaptersLoaded`,
  `LoadChaptersForResult`).

## Model

| member | source | states |
|---|---|---|
| Numbers.ParseUInt64 | Classes/MetadataImporters/ChapterDBWebScraper.swift:156-158 | `UInt64(digits)` has a value exactly when the decimal value is below 2^64, and the value is the decimal value |
| Numbers.DecimalString | Classes/MetadataImporters/ChapterDBWebScraper.swift:393 | interpolating a number gives a non-empty digit string that starts with `0` only for zero |
| Numbers.ZeroPad2 | Classes/MetadataImporters/ChapterDBWebScraper.swift:364 | `%02d` of a non-negative value gives digits only: exactly two of them, or more without a leading zero |
| Numbers.LowInt32 | Classes/MetadataImporters/ChapterDBWebScraper.swift:364 | what `%d` reads from a 64-bit `Int`: the one signed 32-bit value congruent to the number modulo 2^32 |
| Numbers.LowInt32Small | Classes/MetadataImporters/ChapterDBWebScraper.swift:364 | a number that fits in 32 bits is read unchanged |
| Numbers.FormatD02 | Classes/MetadataImporters/ChapterDBWebScraper.swift:364 | `%02d` of a 32-bit value: for a non-negative value, digits, exactly two or more without a leading zero; for a negative one, a minus sign and digits without a leading zero |
| Numbers.DecimalRoundTrip | Classes/MetadataImporters/ChapterDBWebScraper.swift:393 | reading back the digits of an interpolated number gives the number |
| Numbers.ZeroPad2RoundTrip | Classes/MetadataImporters/ChapterDBWebScraper.swift:364 | the zero-padded chapter number still reads back as the number |
| Numbers.ParseIntRoundTrip | Classes/MetadataImporters/ChapterDBWebScraper.swift:323 | `Int(s)` reads back every printed 64-bit number, with or without a minus sign |
| Numbers.FormatD02RoundTrip | Classes/MetadataImporters/ChapterDBWebScraper.swift:364 | `Int` reads back exactly the value that `%02d` printed, for both signs |
| Numbers.ParseInt | Classes/MetadataImporters/ChapterDBWebScraper.swift:323 | `Int(s)`: an optional sign, then one or more digits and nothing else, with a value that fits in 64 bits; otherwise nothing. Its round trip is `ParseIntRoundTrip` |
| Text.Trim | Classes/MetadataImporters/ChapterDBWebScraper.swift:321-322 | the trimmed text is no longer than the input and neither starts nor ends with whitespace |
| Text.TrimCutsSpace | Classes/MetadataImporters/ChapterDBWebScraper.swift:321-322 | the trimmed text is one contiguous slice of the input, and everything cut off before and after it is whitespace |
| Text.TrimKeeps | Classes/MetadataImporters/ChapterDBWebScraper.swift:382 | every character of the trimmed text occurs in the untrimmed text |
| Text.TrimIdempotent | Classes/MetadataImporters/ChapterDBWebScraper.swift:321-322 | trimming twice is trimming once |
| Text.ReplaceAll | Classes/MetadataImporters/ChapterDBWebScraper.swift:333-338 | `replacingOccurrences`: occurrences found left to right without overlap are replaced. Its partner is `ReplaceAllAbsent` |
| Text.DecodeEntities | Classes/MetadataImporters/ChapterDBWebScraper.swift:333-338 | the six replacements in the source's order, each applied to the previous one's output. Its properties are `DecodeEntitiesPlain` and `DecodeEntitiesTwice` |
| Text.ReplaceAllAbsent | Classes/MetadataImporters/ChapterDBWebScraper.swift:333-338 | a replacement changes nothing in a text that lacks the first character of the pattern |
| Text.DecodeEntitiesPlain | Classes/MetadataImporters/ChapterDBWebScraper.swift:333-338 | a chapter name without `&` is unchanged by the six replacements |
| Text.DecodeEntitiesTwice | Classes/MetadataImporters/ChapterDBWebScraper.swift:333-338 | the replacements run in a fixed order, so `&amp;lt;` is decoded twice and becomes `<` |
| Patterns.ContainsIndexOf | Classes/MetadataImporters/ChapterDBWebScraper.swift:318-319 | `contains` and `range(of:)` agree: a text contains a pattern exactly when the search finds a position for it |
| Patterns.LeftmostFrom | Classes/MetadataImporters/ChapterDBWebScraper.swift:196-197 | `firstMatch`: the result is a match position with no match before it; no result means no match anywhere |
| Patterns.BrowseDigits | Classes/MetadataImporters/ChapterDBWebScraper.swift:156-157 | the id capture is a non-empty run of digits; it is absent exactly when `/browse/<digit>` occurs nowhere |
| Patterns.BrowseDigitsLeftmost | Classes/MetadataImporters/ChapterDBWebScraper.swift:156-157 | at the leftmost `/browse/<digit>` match, the id is the whole digit run after `/browse/` |
| Patterns.LinkText | Classes/MetadataImporters/ChapterDBWebScraper.swift:164-167 | the title capture is non-empty and contains no `<`; it is absent exactly when `>title</a>` occurs nowhere |
| Patterns.LinkTextLeftmost | Classes/MetadataImporters/ChapterDBWebScraper.swift:164-167 | at the leftmost `>text</a>` match, the title is all the text between the `>` and the `</a>` |
| Patterns.BadgeDigits | Classes/MetadataImporters/ChapterDBWebScraper.swift:177-180 | the confirmations capture is a non-empty run of digits; it is absent exactly when the badge pattern occurs nowhere |
| Patterns.BadgeDigitsLeftmost | Classes/MetadataImporters/ChapterDBWebScraper.swift:177-180 | at the leftmost badge match, the confirmations are the whole digit run after the `>` and any spaces |
| Patterns.FindClock | Classes/MetadataImporters/ChapterDBWebScraper.swift:196-202 | the groups are at most 99 each; they are absent exactly when the clock pattern occurs nowhere |
| Patterns.FindClockLeftmost | Classes/MetadataImporters/ChapterDBWebScraper.swift:196-197 | the groups returned are those of the leftmost match, as with `firstMatch` |
| Patterns.MillisBound | Classes/MetadataImporters/ChapterDBWebScraper.swift:204 | two-digit groups bound every clock value by 362,439,000 ms, so the `UInt64` conversion cannot trap |
| RowScan.Step | Classes/MetadataImporters/ChapterDBWebScraper.swift:104-116 | one iteration of the row loop: `<tr>` opens a fresh row, `</tr>` inside a row closes it, other lines inside a row are appended. Its properties are the lemmas below |
| RowScan.ScanAppend | Classes/MetadataImporters/ChapterDBWebScraper.swift:103-117 | scanning two pieces of a page in turn is scanning the whole page |
| RowScan.RowsGrow | Classes/MetadataImporters/ChapterDBWebScraper.swift:103-117 | rows once closed are never changed or removed; later lines only append |
| RowScan.RowsAreInner | Classes/MetadataImporters/ChapterDBWebScraper.swift:104-116 | no line of a collected row contains `<tr>` or `</tr>`: the delimiter lines are not part of the row |
| RowScan.CollectInner | Classes/MetadataImporters/ChapterDBWebScraper.swift:114-115 | inside a row, lines that neither open nor close a row are appended to it verbatim, in order |
| RowScan.ScanOneRow | Classes/MetadataImporters/ChapterDBWebScraper.swift:103-117 | outside a row, `<tr>`, a body and `</tr>` close exactly one new row holding that body |
| RowScan.RowsOfOpenRow | Classes/MetadataImporters/ChapterDBWebScraper.swift:104-112 | while no line closes a row, the closed rows stay as they are |
| RowScan.RowsOfRendered | Classes/MetadataImporters/ChapterDBWebScraper.swift:103-117 | a page of N well-formed rows scans into exactly those N row bodies, in document order |
| RowScan.UnclosedRowDropped | Classes/MetadataImporters/ChapterDBWebScraper.swift:104-106 | a row still open when the next `<tr>` arrives is discarded without a trace |
| RowScan.StrayCloseIgnored | Classes/MetadataImporters/ChapterDBWebScraper.swift:107 | a `</tr>` line outside a row is ignored |
| Sequences.FilterMapAppend | Classes/MetadataImporters/ChapterDBWebScraper.swift:110-112 | parsing the rows of two pieces gives the results of the first piece, then those of the second |
| Sequences.FilterMapAllPresent | Classes/MetadataImporters/ChapterDBWebScraper.swift:110-112 | when every row parses, there is one result per row, position by position |
| Sequences.FilterMapMembers | Classes/MetadataImporters/ChapterDBWebScraper.swift:110-112 | every result comes from some row |
| ChapterDBWebScraper.KeepWithin | Classes/MetadataImporters/ChapterDBWebScraper.swift:73-78 | the filter never makes the list longer |
| ChapterDBWebScraper.KeepWithinCounts | Classes/MetadataImporters/ChapterDBWebScraper.swift:73-78 | the filter keeps every result strictly within ±20000 ms of the target, as often as it occurs, and drops every other result |
| ChapterDBWebScraper.KeepWithinAppend | Classes/MetadataImporters/ChapterDBWebScraper.swift:73-78 | filtering distributes over concatenation, so the kept results stay in their original order |
| ChapterDBWebScraper.FilterByDuration | Classes/MetadataImporters/ChapterDBWebScraper.swift:72-87 | with target 0 the list is returned unchanged; if some result is within tolerance, exactly those are returned, and the list is non-empty; if none is, the whole list is returned |
| ChapterDBWebScraper.FirstContaining | Classes/MetadataImporters/ChapterDBWebScraper.swift:155 | `first(where:)`: the first line that contains the text, or none when no line does |
| ChapterDBWebScraper.RowConfirmations | Classes/MetadataImporters/ChapterDBWebScraper.swift:172-186 | confirmations are 1 when no badge line has a badge |
| ChapterDBWebScraper.RowConfirmationsFirst | Classes/MetadataImporters/ChapterDBWebScraper.swift:172-186 | the first line with a badge decides: its digits, or 1 when they are 2^64 or more |
| ChapterDBWebScraper.BadgeOverflowDefault | Classes/MetadataImporters/ChapterDBWebScraper.swift:172-186 | when the first badge's digits are 2^64 or more, the confirmations stay at their default of 1 |
| ChapterDBWebScraper.RowDuration | Classes/MetadataImporters/ChapterDBWebScraper.swift:189-210 | a row's duration is at most 362,439,000 ms, and 0 when no non-link cell line holds `H:MM.SS` |
| ChapterDBWebScraper.RowDurationFirst | Classes/MetadataImporters/ChapterDBWebScraper.swift:189-210 | the first cell line that is not the link line and holds `H:MM.SS` decides: its clock value in ms |
| ChapterDBWebScraper.SearchRow | Classes/MetadataImporters/ChapterDBWebScraper.swift:147-219 | what one search row yields: the id from the first `/browse/` line, the link title or "Unknown", the duration and the confirmations. Its properties are `SearchRowNothing`, `SearchRowDefaults`, `RowConfirmationsFirst` and `RowDurationFirst` |
| ChapterDBWebScraper.SearchRowNothing | Classes/MetadataImporters/ChapterDBWebScraper.swift:155-161 | a search row yields nothing if and only if one of these holds: no line mentions `/browse/`; the first such line has no `/browse/<digits>`; or the id overflows 64 bits |
| ChapterDBWebScraper.SearchRowDefaults | Classes/MetadataImporters/ChapterDBWebScraper.swift:164-218 | a parsed row has no chapters and a bounded duration. Confirmations are 1 without a badge, and also when the first badge's digits overflow 64 bits. The duration is 0 without a duration cell. The title is "Unknown" exactly when the link line has no link text or its link text is itself `Unknown` |
| ChapterDBWebScraper.SearchPage | Classes/MetadataImporters/ChapterDBWebScraper.swift:95-120 | a parsed search page: the results of its closed rows, in document order. Its properties are `SearchPageOfRendered` and `SearchResultsShape` |
| ChapterDBWebScraper.SearchPageOfRendered | Classes/MetadataImporters/ChapterDBWebScraper.swift:95-120 | a page of N well-formed rows that each parse gives N results, in document order |
| ChapterDBWebScraper.SearchResultsShape | Classes/MetadataImporters/ChapterDBWebScraper.swift:147-218 | every search result has empty chapters and a duration in 0..362,439,000 |
| ChapterDBWebScraper.FindConfirmations | Classes/MetadataImporters/ChapterDBWebScraper.swift:172-186 | the confirmations loop, which breaks at the first badge, computes `RowConfirmations` |
| ChapterDBWebScraper.FindDuration | Classes/MetadataImporters/ChapterDBWebScraper.swift:189-210 | the duration loop, which breaks at the first duration cell, computes `RowDuration` |
| ChapterDBWebScraper.ParseSearchResultFromManualRow | Classes/MetadataImporters/ChapterDBWebScraper.swift:147-219 | a row is parsed into exactly `SearchRow`, including its three ways of yielding nothing |
| ChapterDBWebScraper.ParseSearchResults | Classes/MetadataImporters/ChapterDBWebScraper.swift:95-120 | the row loop returns `SearchPage`: one parse attempt per closed row, results in document order |
| ChapterDBWebScraper.ParseSearchResultsManually | Classes/MetadataImporters/ChapterDBWebScraper.swift:122-145 | returns `SearchPage` too, so it agrees with `ParseSearchResults` on every page |
| ChapterDBWebScraper.Search | Classes/MetadataImporters/ChapterDBWebScraper.swift:57-87 | a failed fetch gives no results; otherwise the parsed page, filtered by duration |
| ChapterDBWebScraper.ParseDuration | Classes/MetadataImporters/ChapterDBWebScraper.swift:221-236 | the value is at most 362,439,000 ms, and 0 when `H:MM.SS`/`H:MMSS` matches nowhere |
| ChapterDBWebScraper.ParseDurationOfMatch | Classes/MetadataImporters/ChapterDBWebScraper.swift:221-236 | otherwise the value is the leftmost match's clock value in ms |
| ChapterDBWebScraper.TableStep | Classes/MetadataImporters/ChapterDBWebScraper.swift:264-294 | one iteration of the detail loop: a marked `<table` line opens the table, `</table>` inside it closes it for good, and other lines inside it step the row scan |
| ChapterDBWebScraper.TableScanAppend | Classes/MetadataImporters/ChapterDBWebScraper.swift:262-295 | scanning two pieces of a detail page in turn is scanning the whole page |
| ChapterDBWebScraper.TableRowsGrow | Classes/MetadataImporters/ChapterDBWebScraper.swift:262-295 | chapter-table rows once closed are never changed or removed |
| ChapterDBWebScraper.ClosedTableStays | Classes/MetadataImporters/ChapterDBWebScraper.swift:267-270 | after the table's `</table>` the scan stops: nothing changes any more |
| ChapterDBWebScraper.LinesAfterTableIgnored | Classes/MetadataImporters/ChapterDBWebScraper.swift:267-270 | lines after the end of the chapter table do not change its rows |
| ChapterDBWebScraper.NoTableYet | Classes/MetadataImporters/ChapterDBWebScraper.swift:264-266 | until a marked `<table` line appears, the scan stays in its initial state |
| ChapterDBWebScraper.InsideTable | Classes/MetadataImporters/ChapterDBWebScraper.swift:271-294 | inside the open table, lines that neither open nor close a table only drive the row scan |
| ChapterDBWebScraper.LinesBeforeTableIgnored | Classes/MetadataImporters/ChapterDBWebScraper.swift:264-266 | lines before the first marked `<table` line do not change the rows |
| ChapterDBWebScraper.TableRowsOfBody | Classes/MetadataImporters/ChapterDBWebScraper.swift:262-294 | the chapter table's rows are exactly the rows of its body, and the table is then closed |
| ChapterDBWebScraper.Cells | Classes/MetadataImporters/ChapterDBWebScraper.swift:312-313 | only lines containing both `<td` and `</td>` count as cells; there are no more cells than lines |
| ChapterDBWebScraper.CellsComplete | Classes/MetadataImporters/ChapterDBWebScraper.swift:312-313 | every cell line of the row is counted as a cell |
| ChapterDBWebScraper.CellsAppend | Classes/MetadataImporters/ChapterDBWebScraper.swift:309-313 | the cells of two pieces of a row are the first piece's, then the second's, so they keep the row's order |
| ChapterDBWebScraper.CellText | Classes/MetadataImporters/ChapterDBWebScraper.swift:318-322 | the trimmed text between a cell's first `>` and its first `</td>` |
| ChapterDBWebScraper.CellNumber | Classes/MetadataImporters/ChapterDBWebScraper.swift:316-325 | cell 1: `Int` of the cell text, or 0 |
| ChapterDBWebScraper.CellName | Classes/MetadataImporters/ChapterDBWebScraper.swift:326-341 | cell 2: the cell text with the entities decoded |
| ChapterDBWebScraper.CellTimestamp | Classes/MetadataImporters/ChapterDBWebScraper.swift:343-357 | a cell-3 timestamp is at most 362,439,000 ms, and 0 when `H:MM:SS` matches nowhere in the line |
| ChapterDBWebScraper.CellTimestampOfMatch | Classes/MetadataImporters/ChapterDBWebScraper.swift:343-357 | otherwise it is the leftmost match's clock value in ms |
| ChapterDBWebScraper.ReadFields | Classes/MetadataImporters/ChapterDBWebScraper.swift:309-360 | the timestamp read from a row is at most 362,439,000 ms |
| ChapterDBWebScraper.TimestampUnset | Classes/MetadataImporters/ChapterDBWebScraper.swift:343-357 | a row with fewer than three cells keeps timestamp 0 |
| ChapterDBWebScraper.ReadFieldsByPosition | Classes/MetadataImporters/ChapterDBWebScraper.swift:316-358 | cell 1 gives the number, cell 2 the name, cell 3 the timestamp, later cells nothing; the defaults are 0, "" and 0 |
| ChapterDBWebScraper.ChapterLabel | Classes/MetadataImporters/ChapterDBWebScraper.swift:362-366 | the fallback name, `Chapter %02d` of the number as `%d` reads it. Its property is `ChapterLabelNumber` |
| ChapterDBWebScraper.ChapterLabelNumber | Classes/MetadataImporters/ChapterDBWebScraper.swift:364 | the fallback name is "Chapter " followed by the number's low 32 bits, which read back as a signed value; a number below 2^31 appears as itself, zero padded |
| ChapterDBWebScraper.RowChapter | Classes/MetadataImporters/ChapterDBWebScraper.swift:301-375 | what one detail row yields. Its properties are `RowChapterRejected`, `RowWithoutCells` and `RowChapterFields` |
| ChapterDBWebScraper.RowChapterRejected | Classes/MetadataImporters/ChapterDBWebScraper.swift:370-374 | a detail row yields nothing if and only if its cell-1 number is negative |
| ChapterDBWebScraper.RowWithoutCells | Classes/MetadataImporters/ChapterDBWebScraper.swift:302-305 | a row without any cell line still yields `Chapter("", 0)` |
| ChapterDBWebScraper.RowChapterFields | Classes/MetadataImporters/ChapterDBWebScraper.swift:362-374 | an empty name with a positive number becomes "Chapter NN"; otherwise the name is cell 2's; the timestamp is cell 3's, or 0 |
| ChapterDBWebScraper.DetailChapters | Classes/MetadataImporters/ChapterDBWebScraper.swift:250-299 | the chapters of the first marked table's closed rows, skipping rejected rows, in document order. Its properties are the table-scan lemmas above and `ParseChapterDetails` |
| ChapterDBWebScraper.ReadCell | Classes/MetadataImporters/ChapterDBWebScraper.swift:312-358 | reading the cell with count `tdCount` updates exactly the field of that position |
| ChapterDBWebScraper.ReadCells | Classes/MetadataImporters/ChapterDBWebScraper.swift:309-360 | the cell loop computes `ReadFields` of the row's cells |
| ChapterDBWebScraper.ParseChapterFromRow | Classes/MetadataImporters/ChapterDBWebScraper.swift:301-375 | a detail row is parsed into exactly `RowChapter` |
| ChapterDBWebScraper.ReadTableLine | Classes/MetadataImporters/ChapterDBWebScraper.swift:272-293 | one line inside the chapter table advances the row scan by exactly one step, and the collected chapters stay those of the rows closed so far |
| ChapterDBWebScraper.ParseChapterDetails | Classes/MetadataImporters/ChapterDBWebScraper.swift:250-299 | the result is nil exactly when the first marked table yields no chapter; otherwise it is that table's chapters, in order |
| ChapterDBWebScraper.LoadChapters | Classes/MetadataImporters/ChapterDBWebScraper.swift:402-414 | a failed fetch and a page without chapters both give `[]` |
| ChapterDBWebScraper.ExtractTitleFromColumn | Classes/MetadataImporters/ChapterDBWebScraper.swift:377-384 | without both brackets the title is "Unknown Title". Otherwise it is a slice of the text between the first `[` and the first `]`, only whitespace is cut off on either side, it contains no `]`, and it neither starts nor ends with whitespace |
| ChapterDBWebScraper.CreateBasicChapters | Classes/MetadataImporters/ChapterDBWebScraper.swift:386-398 | exactly ten chapters, "Chapter i" at i × 600,000 ms for i = 1..10, in increasing order |
| ChapterSearch.SearchTask.constructor | Classes/ChapterSearchController.swift:118-119 | a new task runs the given query and is not cancelled |
| ChapterSearch.SearchTask.Cancel | Classes/ChapterSearchController.swift:115 | a cancelled task stays marked cancelled |
| ChapterSearch.ChapterSearchController.Valid | Classes/ChapterSearchController.swift:28-32 | in `Completed`, the selection is one of the results, with that result's chapters or the ones cached for its id. Every state-changing method keeps it |
| ChapterSearch.ChapterSearchController.constructor | Classes/ChapterSearchController.swift:41-64 | a new controller has no results and an empty cache |
| ChapterSearch.ChapterSearchController.LoadChaptersForResult | Classes/ChapterSearchController.swift:335-348 | a load starts exactly when the cache holds nothing for the id, not even an empty list |
| ChapterSearch.ChapterSearchController.ChaptersLoaded | Classes/ChapterSearchController.swift:348-373 | the cache gets `id := chapters` in any state; the selection is rebuilt with those chapters only when it has that id; the results never change; the invariant is kept |
| ChapterSearch.ChapterSearchController.SearchDone | Classes/ChapterSearchController.swift:93-106 | non-empty results give `Completed(results, results[0])` and a load of `results[0]` if it is not cached; empty results give `Idle`; the cache is unchanged |
| ChapterSearch.ChapterSearchController.SearchForResults | Classes/ChapterSearchController.swift:108-130 | a running search is cancelled, and only then; the new task for the title and duration becomes `Searching` from any state |
| ChapterSearch.ChapterSearchController.AddChapter | Classes/ChapterSearchController.swift:132-152 | see the three cases below this table |
| ChapterSearch.ChapterSearchController.CloseWindow | Classes/ChapterSearchController.swift:154-162 | a running search is cancelled; the window is always dismissed; the state and cache are unchanged |
| ChapterSearch.ChapterSearchController.TableViewSelectionDidChange | Classes/ChapterSearchController.swift:222-240 | see the two cases below this table |
| ChapterSearch.ChapterSearchController.NumberOfRows | Classes/ChapterSearchController.swift:242-266 | the results table shows the results; the chapter table shows the cached chapters of the selection, or 0 while they load; every other case shows 0 |

`AddChapter` has three cases:

- In `Completed` with cached chapters, the delegate gets one sample per
  chapter, in order, with the same timestamp and title, and the window is
  dismissed.
- In `Completed` without cached chapters, nothing happens.
- In any other state, the window is only dismissed.

`TableViewSelectionDidChange` has two cases:

- A valid row of the results table, in `Completed`, becomes the selection,
  and its load starts if the id is not cached. The results stay unchanged.
- Anything else changes nothing.

`ChapterSearchController.Valid` is the invariant that every state-changing
method keeps. It says that in `Completed` the selection is one of the
results: same title, duration, id and confirmations. Its chapters are either
that result's or the ones cached for its id.

## Left out

- **Network and text decoding.** These are left out:
  - fetching pages (`fetch`, `URLSession`);
  - the connectivity probe;
  - building and encoding URLs;
  - UTF-8 decoding.

  A page is given as its sequence of lines, and a failed fetch or decode
  as `None`.
- **Splitting a page into lines.** Splitting on `.newlines` is left out.
- **Unicode character classes.** Whitespace is space, tab, CR, LF, VT and
  FF, and digits are ASCII digits.
- **Regular expressions in general.** `String.matches` and
  `NSRegularExpression` are left out. Only the fixed patterns the scraper
  uses are modelled, as explicit matchers.
- **Asynchrony.** The background queue, the main-queue hops, the `[weak
  self]` guard and the search task's own machinery (`Runnable`,
  `RunnableTask`, `ChapterImporter`) are left out. Completions are explicit
  event methods. A task is a query with a cancelled flag. Whether a
  cancelled task still delivers its results is decided by `RunnableTask`,
  which is not part of this model.
- **The debug search.** The blocking `scraper.search` call inside
  `searchForResults` does not affect the controller's state.
- **User interface.** These are left out:
  - progress indicators, buttons, `updateUI`, cell views and
    `StringFromTime`;
  - the title parsing in `init`;
  - the delegate and presenting controller. They are weak optionals and are
    assumed present.

  `MP42TextSample` is reduced to its timestamp and title.
- **Logging.** All `print` calls are left out.
- **Index traps.** The source traps when slicing with a bad index. These
  traps are preconditions, not behaviour:
  - `ChapterDBWebScraper.ParseChapterFromRow` and
    `ChapterDBWebScraper.ParseChapterDetails` require that, on cells 1 and
    2 of each row, the first `>` comes before the first `</td>`
    (`CellsSafe`, `DetailSafe`).
  - `ChapterDBWebScraper.ExtractTitleFromColumn` requires that the first
    `]` is not before the first `[`.
- **Integer overflow in the filter.** `ChapterDBWebScraper.FilterByDuration`
  requires that `Int64(duration) + 20000` does not overflow whenever the
  filter closure runs.
