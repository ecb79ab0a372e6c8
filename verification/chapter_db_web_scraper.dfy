/**
 * The ChapterDB web scraper: the search page is turned into candidate
 * results, the candidates are narrowed by duration, and a result's detail
 * page is turned into its chapter list. Pages are given as their lines;
 * fetching and decoding them is outside the model (a failed fetch is `None`).
 */
module ChapterDBWebScraper {
  import opened Wrappers
  import opened Text
  import opened Numbers
  import opened Patterns
  import opened RowScan
  import opened Sequences

  /** A named chapter marker; the timestamp is in milliseconds. */
  datatype Chapter = Chapter(name: string, timestamp: UInt64)

  /** One candidate chapter set of the search page; `chapters` stays empty until loaded. */
  datatype ChapterResult = ChapterResult(
    title: string,
    duration: Int64,
    id: UInt64,
    confirmations: UInt64,
    chapters: seq<Chapter>)

  /** The largest duration a two-digit `H:MM.SS` or `H:MM:SS` text can denote. */
  const MAX_CLOCK_MILLIS := 362_439_000

  // ---------------------------------------------------------------------------
  // Duration filter (the tail of `search`)
  // ---------------------------------------------------------------------------

  /** The tolerance of the duration filter, in milliseconds. */
  const DELTA := 20000

  /** The filter's closure for a non-zero target: a strict ±DELTA band. */
  predicate WithinTolerance(r: ChapterResult, duration: UInt64) {
    duration - DELTA < r.duration < duration + DELTA
  }

  /** `results.filter { ... }` for a non-zero target, in the original order. */
  function KeepWithin(results: seq<ChapterResult>, duration: UInt64): (kept: seq<ChapterResult>)
    ensures |kept| <= |results|
  {
    if results == [] then []
    else
      var last := results[|results| - 1];
      KeepWithin(results[..|results| - 1], duration) + (if WithinTolerance(last, duration) then [last] else [])
  }

  /** The filter keeps each result within tolerance as often as it occurs, and no other result. */
  lemma {:induction false} KeepWithinCounts(results: seq<ChapterResult>, duration: UInt64)
    ensures forall x :: multiset(KeepWithin(results, duration))[x] == if WithinTolerance(x, duration) then multiset(results)[x] else 0
    decreases |results|
  {
    if results != [] {
      var init := results[..|results| - 1];
      var last := results[|results| - 1];
      KeepWithinCounts(init, duration);
      assert results == init + [last];
    }
  }

  /** Filtering distributes over concatenation, so relative order is kept. */
  lemma {:induction false} KeepWithinAppend(a: seq<ChapterResult>, b: seq<ChapterResult>, duration: UInt64)
    ensures KeepWithin(a + b, duration) == KeepWithin(a, duration) + KeepWithin(b, duration)
    decreases |b|
  {
    if b == [] {
      assert a + b == a;
    } else {
      var init := b[..|b| - 1];
      var last := b[|b| - 1];
      assert (a + b)[..|a + b| - 1] == a + init;
      assert (a + b)[|a + b| - 1] == last;
      KeepWithinAppend(a, init, duration);
      var tail := if WithinTolerance(last, duration) then [last] else [];
      assert KeepWithin(a + b, duration) == KeepWithin(a + init, duration) + tail;
      assert KeepWithin(b, duration) == KeepWithin(init, duration) + tail;
    }
  }

  /**
   * `Int64(duration) + delta` traps when it overflows; the closure only runs
   * for a non-zero target and at least one result.
   */
  predicate FilterDoesNotTrap(results: seq<ChapterResult>, duration: UInt64) {
    results == [] || duration == 0 || duration + DELTA < TWO_TO_THE_63
  }

  /**
   * The duration filter of `search`: a zero target keeps the list; otherwise
   * the results within tolerance, or the whole list when none is.
   */
  function FilterByDuration(results: seq<ChapterResult>, duration: UInt64): (filtered: seq<ChapterResult>)
    requires FilterDoesNotTrap(results, duration)
    ensures duration == 0 ==> filtered == results
    ensures duration > 0 && (exists x :: x in results && WithinTolerance(x, duration)) ==>
      filtered == KeepWithin(results, duration) && filtered != [] &&
      forall x :: x in filtered ==> WithinTolerance(x, duration)
    ensures (forall x :: x in results ==> !WithinTolerance(x, duration)) ==> filtered == results
  {
    var kept := KeepWithin(results, duration);
    KeepWithinCounts(results, duration);
    assert forall x :: x in results && WithinTolerance(x, duration) ==> multiset(kept)[x] > 0;
    if duration > 0 && kept != [] then kept else results
  }

  // ---------------------------------------------------------------------------
  // Search page: one result per closed row
  // ---------------------------------------------------------------------------

  /** `lines.first(where: { $0.contains(p) })`, as an index. */
  function FirstContaining(lines: seq<string>, p: string, from: nat := 0): (k: Option<nat>)
    requires from <= |lines|
    decreases |lines| - from
    ensures k.Some? ==> from <= k.value < |lines| && Contains(lines[k.value], p)
    ensures k.Some? ==> forall j :: from <= j < k.value ==> !Contains(lines[j], p)
    ensures k.None? ==> forall j :: from <= j < |lines| ==> !Contains(lines[j], p)
  {
    if from == |lines| then None
    else if Contains(lines[from], p) then Some(from)
    else FirstContaining(lines, p, from + 1)
  }

  /** A confirmations badge line. */
  predicate IsBadgeLine(line: string) {
    Contains(line, "<span") && Contains(line, "ui small label")
  }

  /** A badge line whose `>` digits `<` pattern matches. */
  predicate HasBadge(line: string) {
    IsBadgeLine(line) && BadgeDigits(line).Some?
  }

  /**
   * The confirmations of a row: from the first badge line with a matching
   * badge (1 if its digits overflow), else 1.
   */
  function RowConfirmations(lines: seq<string>): (c: UInt64)
    ensures (forall k :: 0 <= k < |lines| ==> !HasBadge(lines[k])) ==> c == 1
  {
    if lines == [] then 1
    else if HasBadge(lines[0]) then ParseUInt64(BadgeDigits(lines[0]).value).GetOr(1)
    else
      assert forall k :: 0 <= k < |lines| - 1 ==> lines[1..][k] == lines[k + 1];
      RowConfirmations(lines[1..])
  }

  /**
   * The first badge line with a matching badge decides the confirmations:
   * its digits, or 1 when they do not fit in 64 bits.
   */
  lemma {:induction false} RowConfirmationsFirst(lines: seq<string>, k: nat)
    requires k < |lines| && HasBadge(lines[k])
    requires forall j :: 0 <= j < k ==> !HasBadge(lines[j])
    ensures RowConfirmations(lines) == ParseUInt64(BadgeDigits(lines[k]).value).GetOr(1)
    ensures var d := DecimalValue(BadgeDigits(lines[k]).value);
      RowConfirmations(lines) == if d < TWO_TO_THE_64 then d else 1
    decreases k
  {
    if k > 0 {
      var rest := lines[1..];
      assert !HasBadge(lines[0]);
      assert forall j :: 0 <= j < k - 1 ==> rest[j] == lines[j + 1];
      assert rest[k - 1] == lines[k];
      RowConfirmationsFirst(rest, k - 1);
    }
  }

  /** A table-cell line: it contains both `<td` and `</td>`. */
  predicate IsCellLine(line: string) {
    Contains(line, "<td") && Contains(line, "</td>")
  }

  /** A cell line that is not the link line and holds an `H:MM.SS` duration. */
  predicate HasDuration(line: string) {
    IsCellLine(line) && !Contains(line, "/browse/") && FindClock(DottedDuration, line).Some?
  }

  /** The duration of a row, from the first cell line that has one, else 0. */
  function RowDuration(lines: seq<string>): (ms: nat)
    ensures ms <= MAX_CLOCK_MILLIS
    ensures (forall k :: 0 <= k < |lines| ==> !HasDuration(lines[k])) ==> ms == 0
  {
    if lines == [] then 0
    else if HasDuration(lines[0]) then
      var t := FindClock(DottedDuration, lines[0]).value;
      MillisBound(t);
      Millis(t)
    else
      assert forall k :: 0 <= k < |lines| - 1 ==> lines[1..][k] == lines[k + 1];
      RowDuration(lines[1..])
  }

  /** The first cell line with a duration decides the row's duration: the value of its first clock match. */
  lemma {:induction false} RowDurationFirst(lines: seq<string>, k: nat)
    requires k < |lines| && HasDuration(lines[k])
    requires forall j :: 0 <= j < k ==> !HasDuration(lines[j])
    ensures RowDuration(lines) == Millis(FindClock(DottedDuration, lines[k]).value)
    decreases k
  {
    if k > 0 {
      var rest := lines[1..];
      assert !HasDuration(lines[0]);
      assert forall j :: 0 <= j < k - 1 ==> rest[j] == lines[j + 1];
      assert rest[k - 1] == lines[k];
      RowDurationFirst(rest, k - 1);
    }
  }

  /** What one closed row of the search page yields, following `parseSearchResultFromManualRow`. */
  function SearchRow(row: seq<string>): Option<ChapterResult> {
    match FirstContaining(row, "/browse/")
    case None => None
    case Some(k) =>
      match BrowseDigits(row[k])
      case None => None
      case Some(digits) =>
        match ParseUInt64(digits)
        case None => None
        case Some(id) =>
          Some(ChapterResult(LinkText(row[k]).GetOr("Unknown"), RowDuration(row), id, RowConfirmations(row), []))
  }

  /** The results of a sequence of rows, skipping the rows that yield nothing. */
  function SearchResults(rows: seq<seq<string>>): seq<ChapterResult> {
    FilterMap(SearchRow, rows)
  }

  /**
   * A row yields nothing exactly when no line mentions `/browse/`, or the
   * first such line has no `/browse/<digits>` link, or the id does not fit
   * in 64 bits.
   */
  lemma SearchRowNothing(row: seq<string>)
    ensures SearchRow(row).None? <==>
      (forall k :: 0 <= k < |row| ==> !Contains(row[k], "/browse/")) ||
      (exists k :: 0 <= k < |row| && Contains(row[k], "/browse/") &&
        (forall j :: 0 <= j < k ==> !Contains(row[j], "/browse/")) &&
        (BrowseDigits(row[k]).None? || DecimalValue(BrowseDigits(row[k]).value) >= TWO_TO_THE_64))
  {
    var first := FirstContaining(row, "/browse/");
    if first.Some? {
      var k := first.value;
      forall k' | 0 <= k' < |row| && Contains(row[k'], "/browse/") && (forall j :: 0 <= j < k' ==> !Contains(row[j], "/browse/"))
        ensures k' == k
      {
      }
    }
  }

  /**
   * The defaults of a row that yields a result: no chapters yet, a duration
   * of at most 99:99.99, confirmations 1 without a badge, duration 0 without
   * a duration cell, and the title "Unknown" when the link line has no
   * `>title</a>`.
   */
  lemma SearchRowDefaults(row: seq<string>)
    requires SearchRow(row).Some?
    ensures SearchRow(row).value.chapters == []
    ensures SearchRow(row).value.duration <= MAX_CLOCK_MILLIS
    ensures (forall k :: 0 <= k < |row| ==> !HasBadge(row[k])) ==> SearchRow(row).value.confirmations == 1
    ensures forall k :: 0 <= k < |row| && HasBadge(row[k]) && (forall j :: 0 <= j < k ==> !HasBadge(row[j])) ==>
      (DecimalValue(BadgeDigits(row[k]).value) >= TWO_TO_THE_64 ==> SearchRow(row).value.confirmations == 1)
    ensures (forall k :: 0 <= k < |row| ==> !HasDuration(row[k])) ==> SearchRow(row).value.duration == 0
    ensures var k := FirstContaining(row, "/browse/").value;
      (SearchRow(row).value.title == "Unknown") <==> (LinkText(row[k]).None? || LinkText(row[k]) == Some("Unknown"))
  {
    BadgeOverflowDefault(row);
  }

  /** A row whose first badge overflows 64 bits keeps the default confirmations. */
  lemma BadgeOverflowDefault(row: seq<string>)
    ensures forall k :: 0 <= k < |row| && HasBadge(row[k]) && (forall j :: 0 <= j < k ==> !HasBadge(row[j])) ==>
      (DecimalValue(BadgeDigits(row[k]).value) >= TWO_TO_THE_64 ==> RowConfirmations(row) == 1)
  {
    forall k | 0 <= k < |row| && HasBadge(row[k]) && (forall j :: 0 <= j < k ==> !HasBadge(row[j]))
      ensures RowConfirmations(row) == ParseUInt64(BadgeDigits(row[k]).value).GetOr(1)
    {
      RowConfirmationsFirst(row, k);
    }
  }

  /** The parsed search page: the results of its closed rows, in document order. */
  function SearchPage(lines: seq<string>): seq<ChapterResult> {
    SearchResults(Rows(lines))
  }

  /** A page of `N` well-formed rows that each yield a result gives those `N` results, in order. */
  lemma SearchPageOfRendered(bodies: seq<seq<string>>)
    requires forall k :: 0 <= k < |bodies| ==> InnerRow(bodies[k])
    requires forall i :: 0 <= i < |bodies| ==> SearchRow(bodies[i]).Some?
    ensures |SearchPage(RenderAll(bodies))| == |bodies|
    ensures forall i :: 0 <= i < |bodies| ==> SearchPage(RenderAll(bodies))[i] == SearchRow(bodies[i]).value
  {
    RowsOfRendered(bodies);
    FilterMapAllPresent(SearchRow, bodies);
  }

  /** Every parsed search result has no chapters and a duration of at most 99:99.99. */
  lemma SearchResultsShape(rows: seq<seq<string>>)
    ensures forall r :: r in SearchResults(rows) ==> r.chapters == [] && 0 <= r.duration <= MAX_CLOCK_MILLIS
  {
    FilterMapMembers(SearchRow, rows);
    forall r | r in SearchResults(rows)
      ensures r.chapters == [] && 0 <= r.duration <= MAX_CLOCK_MILLIS
    {
      var row :| row in rows && SearchRow(row) == Some(r);
      SearchRowDefaults(row);
    }
  }

  /** The confirmations loop of `parseSearchResultFromManualRow`: the first badge line with a badge decides. */
  method FindConfirmations(rowLines: seq<string>) returns (confirmations: UInt64)
    ensures confirmations == RowConfirmations(rowLines)
  {
    confirmations := 1;
    var index := 0;
    while index < |rowLines|
      invariant 0 <= index <= |rowLines|
      invariant RowConfirmations(rowLines[index..]) == RowConfirmations(rowLines)
      invariant index == |rowLines| ==> confirmations == RowConfirmations(rowLines)
    {
      var line := rowLines[index];
      assert rowLines[index..][0] == line;
      if Contains(line, "<span") && Contains(line, "ui small label") {
        var confirmationsMatch := BadgeDigits(line);
        if confirmationsMatch.Some? {
          confirmations := ParseUInt64(confirmationsMatch.value).GetOr(1);
          return;
        }
      }
      assert rowLines[index..][1..] == rowLines[index + 1..];
      index := index + 1;
    }
  }

  /** The duration loop of `parseSearchResultFromManualRow`: the first non-link cell with a duration decides. */
  method FindDuration(rowLines: seq<string>) returns (duration: nat)
    ensures duration == RowDuration(rowLines)
  {
    duration := 0;
    var durationFound := false;
    var index := 0;
    while index < |rowLines|
      invariant 0 <= index <= |rowLines|
      invariant !durationFound
      invariant RowDuration(rowLines[index..]) == RowDuration(rowLines)
      invariant index == |rowLines| ==> duration == RowDuration(rowLines)
    {
      var line := rowLines[index];
      assert rowLines[index..][0] == line;
      if Contains(line, "<td") && Contains(line, "</td>") && !Contains(line, "/browse/") && !durationFound {
        var clock := FindClock(DottedDuration, line);
        if clock.Some? {
          duration := Millis(clock.value);
          durationFound := true;
          return;
        }
      }
      assert rowLines[index..][1..] == rowLines[index + 1..];
      index := index + 1;
    }
  }

  /** `parseSearchResultFromManualRow`. */
  method ParseSearchResultFromManualRow(rowLines: seq<string>) returns (result: Option<ChapterResult>)
    ensures result == SearchRow(rowLines)
  {
    var browseIndex := FirstContaining(rowLines, "/browse/");
    if browseIndex.None? {
      return None;
    }
    var browseLine := rowLines[browseIndex.value];
    var idMatch := BrowseDigits(browseLine);
    if idMatch.None? {
      return None;
    }
    var id := ParseUInt64(idMatch.value);
    if id.None? {
      return None;
    }
    var title := LinkText(browseLine).GetOr("Unknown");
    var confirmations := FindConfirmations(rowLines);
    var duration := FindDuration(rowLines);
    result := Some(ChapterResult(title, duration, id.value, confirmations, []));
  }

  /** `parseSearchResults`: one parse attempt per closed row, successes appended in order. */
  method ParseSearchResults(lines: seq<string>) returns (results: seq<ChapterResult>)
    ensures results == SearchPage(lines)
  {
    results := [];
    var insideRow := false;
    var currentRow: seq<string> := [];
    for i := 0 to |lines|
      invariant ScanFrom(Start, lines[..i]).insideRow == insideRow
      invariant ScanFrom(Start, lines[..i]).currentRow == currentRow
      invariant results == SearchResults(ScanFrom(Start, lines[..i]).rows)
    {
      var line := lines[i];
      assert lines[..i + 1][..i] == lines[..i];
      if Contains(line, "<tr>") {
        insideRow := true;
        currentRow := [];
      } else if Contains(line, "</tr>") && insideRow {
        insideRow := false;
        var result := ParseSearchResultFromManualRow(currentRow);
        if result.Some? {
          results := results + [result.value];
        }
      } else if insideRow {
        currentRow := currentRow + [line];
      }
    }
    assert lines[..|lines|] == lines;
  }

  /**
   * `parseSearchResultsManually`: the same loop as `parseSearchResults`, so
   * both return the same results on every page.
   */
  method ParseSearchResultsManually(lines: seq<string>) returns (results: seq<ChapterResult>)
    ensures results == SearchPage(lines)
  {
    results := [];
    var currentRow: seq<string> := [];
    var insideRow := false;
    for i := 0 to |lines|
      invariant ScanFrom(Start, lines[..i]).insideRow == insideRow
      invariant ScanFrom(Start, lines[..i]).currentRow == currentRow
      invariant results == SearchResults(ScanFrom(Start, lines[..i]).rows)
    {
      var line := lines[i];
      assert lines[..i + 1][..i] == lines[..i];
      if Contains(line, "<tr>") {
        insideRow := true;
        currentRow := [];
      } else if Contains(line, "</tr>") && insideRow {
        insideRow := false;
        var result := ParseSearchResultFromManualRow(currentRow);
        if result.Some? {
          results := results + [result.value];
        }
      } else if insideRow {
        currentRow := currentRow + [line];
      }
    }
    assert lines[..|lines|] == lines;
  }

  /**
   * `search` after the fetch: a failed fetch gives no results; otherwise the
   * parsed page, filtered by duration.
   */
  method Search(page: Option<seq<string>>, duration: UInt64) returns (results: seq<ChapterResult>)
    requires page.Some? ==> FilterDoesNotTrap(SearchPage(page.value), duration)
    ensures page.None? ==> results == []
    ensures page.Some? ==> results == FilterByDuration(SearchPage(page.value), duration)
  {
    if page.None? {
      return [];
    }
    var searchResults := ParseSearchResults(page.value);
    results := FilterByDuration(searchResults, duration);
  }

  /** `parseDuration`: `H:MM.SS` or `H:MM:SS`... as milliseconds, 0 when nothing matches. */
  function ParseDuration(line: string): (ms: nat)
    ensures ms <= MAX_CLOCK_MILLIS
    ensures (forall j :: 0 <= j <= |line| ==> !MatchesAt(Clock(OptionalDotDuration), line, j)) ==> ms == 0
  {
    match FindClock(OptionalDotDuration, line)
    case None => 0
    case Some(t) =>
      MillisBound(t);
      Millis(t)
  }

  /** `parseDuration` gives the value of the leftmost `H:MM.SS` or `H:MMSS` match. */
  lemma ParseDurationOfMatch(line: string, i: nat)
    requires i <= |line| && MatchesAt(Clock(OptionalDotDuration), line, i)
    requires forall j :: 0 <= j < i ==> !MatchesAt(Clock(OptionalDotDuration), line, j)
    ensures ParseDuration(line) == Millis(ClockAt(OptionalDotDuration, line, i).value)
  {
    FindClockLeftmost(OptionalDotDuration, line, i);
  }

  // ---------------------------------------------------------------------------
  // Detail page: the chapter table
  // ---------------------------------------------------------------------------

  /** The opening line of the chapter table. */
  predicate IsTableOpen(line: string) {
    Contains(line, "<table") && (Contains(line, "ui table") || Contains(line, "striped") || Contains(line, "fluid"))
  }

  /** `parseChapterDetails`' variables: inside the table, past its end (the `break`), and the row scan. */
  datatype TableScan = TableScan(insideTable: bool, closed: bool, rows: Scan)

  const TableStart := TableScan(false, false, Start)

  /** One iteration of `parseChapterDetails`' loop. */
  function TableStep(st: TableScan, line: string): TableScan {
    if st.closed then st
    else if IsTableOpen(line) then st.(insideTable := true)
    else if Contains(line, "</table>") && st.insideTable then st.(insideTable := false, closed := true)
    else if st.insideTable then st.(rows := Step(st.rows, line))
    else st
  }

  function TableScanFrom(st: TableScan, lines: seq<string>): TableScan
    decreases |lines|
  {
    if lines == [] then st else TableStep(TableScanFrom(st, lines[..|lines| - 1]), lines[|lines| - 1])
  }

  /** The closed rows of the chapter table. */
  function TableRows(lines: seq<string>): seq<seq<string>> {
    TableScanFrom(TableStart, lines).rows.rows
  }

  lemma {:induction false} TableScanAppend(st: TableScan, a: seq<string>, b: seq<string>)
    ensures TableScanFrom(st, a + b) == TableScanFrom(TableScanFrom(st, a), b)
    decreases |b|
  {
    if b == [] {
      assert a + b == a;
    } else {
      assert (a + b)[..|a + b| - 1] == a + b[..|b| - 1];
      TableScanAppend(st, a, b[..|b| - 1]);
    }
  }

  lemma {:induction false} TableRowsGrow(st: TableScan, lines: seq<string>)
    ensures |st.rows.rows| <= |TableScanFrom(st, lines).rows.rows|
    ensures TableScanFrom(st, lines).rows.rows[..|st.rows.rows|] == st.rows.rows
    decreases |lines|
  {
    if lines != [] {
      TableRowsGrow(st, lines[..|lines| - 1]);
    }
  }

  /** After the table's closing line nothing changes any more. */
  lemma {:induction false} ClosedTableStays(st: TableScan, lines: seq<string>)
    requires st.closed
    ensures TableScanFrom(st, lines) == st
    decreases |lines|
  {
    if lines != [] {
      ClosedTableStays(st, lines[..|lines| - 1]);
    }
  }

  /** Lines after the end of the chapter table are ignored. */
  lemma LinesAfterTableIgnored(lines: seq<string>, rest: seq<string>)
    requires TableScanFrom(TableStart, lines).closed
    ensures TableRows(lines + rest) == TableRows(lines)
  {
    TableScanAppend(TableStart, lines, rest);
    ClosedTableStays(TableScanFrom(TableStart, lines), rest);
  }

  lemma {:induction false} NoTableYet(lines: seq<string>)
    requires forall l :: l in lines ==> !IsTableOpen(l)
    ensures TableScanFrom(TableStart, lines) == TableStart
    decreases |lines|
  {
    if lines != [] {
      assert forall l :: l in lines[..|lines| - 1] ==> l in lines;
      assert lines[|lines| - 1] in lines;
      NoTableYet(lines[..|lines| - 1]);
    }
  }

  /** Lines before the first opening line of the chapter table are ignored. */
  lemma LinesBeforeTableIgnored(before: seq<string>, lines: seq<string>)
    requires forall l :: l in before ==> !IsTableOpen(l)
    ensures TableRows(before + lines) == TableRows(lines)
  {
    NoTableYet(before);
    TableScanAppend(TableStart, before, lines);
  }

  lemma {:induction false} InsideTable(st: TableScan, body: seq<string>)
    requires st.insideTable && !st.closed
    requires forall l :: l in body ==> !IsTableOpen(l) && !Contains(l, "</table>")
    ensures TableScanFrom(st, body) == TableScan(true, false, ScanFrom(st.rows, body))
    decreases |body|
  {
    if body != [] {
      assert forall l :: l in body[..|body| - 1] ==> l in body;
      assert body[|body| - 1] in body;
      InsideTable(st, body[..|body| - 1]);
    }
  }

  /**
   * Between its opening line and its closing `</table>`, the chapter table's
   * rows are exactly the rows of the row scan over its body.
   */
  lemma TableRowsOfBody(open: string, body: seq<string>, close: string)
    requires IsTableOpen(open) && !IsTableOpen(close) && Contains(close, "</table>")
    requires forall l :: l in body ==> !IsTableOpen(l) && !Contains(l, "</table>")
    ensures TableRows([open] + body + [close]) == Rows(body)
    ensures TableScanFrom(TableStart, [open] + body + [close]).closed
  {
    var inTable := TableScan(true, false, Start);
    assert TableScanFrom(TableStart, [open]) == inTable;
    TableScanAppend(TableStart, [open], body);
    InsideTable(inTable, body);
    TableScanAppend(TableStart, [open] + body, [close]);
  }

  // ---------------------------------------------------------------------------
  // Detail page: one chapter per closed row
  // ---------------------------------------------------------------------------

  /** The cell lines of a row, in order. */
  function Cells(row: seq<string>): (cells: seq<string>)
    ensures |cells| <= |row|
    ensures forall c :: c in cells ==> IsCellLine(c)
  {
    if row == [] then []
    else
      var last := row[|row| - 1];
      Cells(row[..|row| - 1]) + (if IsCellLine(last) then [last] else [])
  }

  /**
   * The first `>` of a cell line comes before its first `</td>`, so the text
   * between them can be taken; the source traps otherwise.
   */
  predicate CellBoundsOk(line: string) {
    var start := IndexOf(line, ">");
    var end := IndexOf(line, "</td>");
    start.Some? && end.Some? && start.value < end.value
  }

  /** The first two cells of a row, whose text is read, do not trap. */
  predicate CellsSafe(row: seq<string>) {
    var cells := Cells(row);
    (|cells| > 0 ==> CellBoundsOk(cells[0])) && (|cells| > 1 ==> CellBoundsOk(cells[1]))
  }

  /** The trimmed text between the first `>` and the first `</td>` (empty where the source traps). */
  function CellText(line: string): string {
    if CellBoundsOk(line) then Trim(line[IndexOf(line, ">").value + 1..IndexOf(line, "</td>").value]) else ""
  }

  /** Cell 1: the chapter number, 0 when the text is not an integer. */
  function CellNumber(line: string): Int64 {
    ParseInt(CellText(line)).GetOr(0)
  }

  /** Cell 2: the chapter name, trimmed and then entity decoded. */
  function CellName(line: string): string {
    DecodeEntities(CellText(line))
  }

  /** Cell 3: the `H:MM:SS` timestamp (fraction ignored), 0 when nothing matches. */
  function CellTimestamp(line: string): (ms: nat)
    ensures ms <= MAX_CLOCK_MILLIS
    ensures (forall j :: 0 <= j <= |line| ==> !MatchesAt(Clock(Timestamp), line, j)) ==> ms == 0
  {
    match FindClock(Timestamp, line)
    case None => 0
    case Some(t) =>
      MillisBound(t);
      Millis(t)
  }

  /** A cell-3 timestamp is the value of the leftmost `H:MM:SS` match. */
  lemma CellTimestampOfMatch(line: string, i: nat)
    requires i <= |line| && MatchesAt(Clock(Timestamp), line, i)
    requires forall j :: 0 <= j < i ==> !MatchesAt(Clock(Timestamp), line, j)
    ensures CellTimestamp(line) == Millis(ClockAt(Timestamp, line, i).value)
  {
    FindClockLeftmost(Timestamp, line, i);
  }

  /** The three values `parseChapterFromRow` reads from a row's cells. */
  datatype RowFields = RowFields(number: Int64, name: string, timestamp: nat)

  const NoFields := RowFields(0, "", 0)

  /** Reading the cell at `position` (1-based): cells 1 to 3 each set their own field. */
  function Absorb(fields: RowFields, position: nat, cell: string): RowFields {
    if position == 1 then fields.(number := CellNumber(cell))
    else if position == 2 then fields.(name := CellName(cell))
    else if position == 3 then fields.(timestamp := CellTimestamp(cell))
    else fields
  }

  /** The values read from a sequence of cells, one cell after the other. */
  function ReadFields(cells: seq<string>): (fields: RowFields)
    decreases |cells|
    ensures fields.timestamp <= MAX_CLOCK_MILLIS
  {
    if cells == [] then NoFields
    else Absorb(ReadFields(cells[..|cells| - 1]), |cells|, cells[|cells| - 1])
  }

  /**
   * Only the first three cells matter: the number is cell 1's, the name
   * cell 2's and the timestamp cell 3's, each with its default when the row
   * has fewer cells.
   */
  lemma {:induction false} ReadFieldsByPosition(cells: seq<string>)
    ensures ReadFields(cells).number == if |cells| > 0 then CellNumber(cells[0]) else 0
    ensures ReadFields(cells).name == if |cells| > 1 then CellName(cells[1]) else ""
    ensures ReadFields(cells).timestamp == if |cells| > 2 then CellTimestamp(cells[2]) else 0
    decreases |cells|
  {
    if cells != [] {
      var init := cells[..|cells| - 1];
      ReadFieldsByPosition(init);
      if |init| > 0 { assert init[0] == cells[0]; }
      if |init| > 1 { assert init[1] == cells[1]; }
      if |init| > 2 { assert init[2] == cells[2]; }
    }
  }

  /**
   * `String(format: "Chapter %02d", number)`: `%d` reads the 64-bit `Int`
   * as a 32-bit `int`, so only its low 32 bits are printed.
   */
  function ChapterLabel(number: Int64): string {
    "Chapter " + FormatD02(LowInt32(number))
  }

  /**
   * The label reads back as the chapter number's low 32 bits, taken as a
   * signed `int`: a number below 2^31 appears unchanged and zero padded,
   * 2^31 appears as -2147483648 and 2^32 + 1 as 01.
   */
  lemma ChapterLabelNumber(number: Int64)
    ensures ChapterLabel(number)[..8] == "Chapter "
    ensures ParseInt(ChapterLabel(number)[8..]) == Some(LowInt32(number))
    ensures 0 <= number < TWO_TO_THE_31 ==> ChapterLabel(number) == "Chapter " + ZeroPad2(number)
  {
    FormatD02RoundTrip(LowInt32(number));
    assert ChapterLabel(number)[8..] == FormatD02(LowInt32(number));
    if 0 <= number < TWO_TO_THE_31 {
      LowInt32Small(number);
    }
  }

  /** What one closed row of the chapter table yields, following `parseChapterFromRow`. */
  function RowChapter(row: seq<string>): Option<Chapter> {
    var fields := ReadFields(Cells(row));
    var shownName := if fields.name == [] && fields.number > 0 then ChapterLabel(fields.number) else fields.name;
    if fields.number >= 0 then Some(Chapter(shownName, fields.timestamp)) else None
  }

  /** Only a negative chapter number in cell 1 rejects a row; the timestamp test never does. */
  lemma RowChapterRejected(row: seq<string>)
    ensures RowChapter(row).None? <==> |Cells(row)| > 0 && CellNumber(Cells(row)[0]) < 0
  {
    ReadFieldsByPosition(Cells(row));
  }

  /** A row without any cell still yields a chapter: empty name, timestamp 0. */
  lemma RowWithoutCells(row: seq<string>)
    requires forall l :: l in row ==> !IsCellLine(l)
    ensures RowChapter(row) == Some(Chapter("", 0))
  {
    assert Cells(row) == [] by {
      if Cells(row) != [] {
        assert Cells(row)[0] in Cells(row);
        CellsMembers(row);
      }
    }
  }

  lemma {:induction false} CellsMembers(row: seq<string>)
    ensures forall c :: c in Cells(row) ==> c in row
    decreases |row|
  {
    if row != [] {
      CellsMembers(row[..|row| - 1]);
      assert forall c :: c in row[..|row| - 1] ==> c in row;
    }
  }

  /** Every cell line of a row is one of its cells. */
  lemma {:induction false} CellsComplete(row: seq<string>)
    ensures forall l :: l in row && IsCellLine(l) ==> l in Cells(row)
    decreases |row|
  {
    if row != [] {
      var init := row[..|row| - 1];
      CellsComplete(init);
      assert forall l :: l in row ==> l in init || l == row[|row| - 1];
    }
  }

  /** The cells of two pieces of a row are the cells of the first, then those of the second. */
  lemma {:induction false} CellsAppend(a: seq<string>, b: seq<string>)
    ensures Cells(a + b) == Cells(a) + Cells(b)
    decreases |b|
  {
    if b == [] {
      assert a + b == a;
    } else {
      assert (a + b)[..|a + b| - 1] == a + b[..|b| - 1];
      CellsAppend(a, b[..|b| - 1]);
    }
  }

  /**
   * The fields of a row's chapter: the name is cell 2's text, unless that is
   * empty and cell 1's number positive, when it is "Chapter NN"; the
   * timestamp is cell 3's, and 0 for a row with fewer than three cells.
   */
  lemma RowChapterFields(row: seq<string>)
    requires RowChapter(row).Some?
    ensures var c := Cells(row); var ch := RowChapter(row).value;
      var number := if |c| > 0 then CellNumber(c[0]) else 0;
      var name := if |c| > 1 then CellName(c[1]) else "";
      && number >= 0
      && (name == [] && number > 0 ==> ch.name == ChapterLabel(number))
      && (name != [] || number == 0 ==> ch.name == name)
      && ch.timestamp == (if |c| > 2 then CellTimestamp(c[2]) else 0)
      && ch.timestamp <= MAX_CLOCK_MILLIS
  {
    ReadFieldsByPosition(Cells(row));
  }

  /** The chapters of a sequence of rows, skipping rejected rows. */
  function RowChapters(rows: seq<seq<string>>): seq<Chapter> {
    FilterMap(RowChapter, rows)
  }

  /** The chapters collected from a detail page, possibly none. */
  function DetailChapters(lines: seq<string>): seq<Chapter> {
    RowChapters(TableRows(lines))
  }

  /** No row of the chapter table makes the cell-text extraction trap. */
  predicate DetailSafe(lines: seq<string>) {
    forall row :: row in TableRows(lines) ==> CellsSafe(row)
  }

  /** Scanning one more line of a row adds it to the cells exactly when it is a cell line. */
  lemma CellsStep(row: seq<string>, i: nat)
    requires i < |row|
    ensures Cells(row[..i + 1]) == Cells(row[..i]) + (if IsCellLine(row[i]) then [row[i]] else [])
  {
    assert row[..i + 1][..i] == row[..i];
  }

  /**
   * The body of `parseChapterFromRow`'s loop for a cell line that is the
   * row's cell number `tdCount` (1-based): cell 1 sets the number, cell 2
   * the name, cell 3 the timestamp, and later cells nothing.
   */
  method ReadCell(line: string, tdCount: nat, number: Int64, name: string, timestamp: nat)
    returns (number': Int64, name': string, timestamp': nat)
    requires tdCount == 3 ==> timestamp == 0
    ensures RowFields(number', name', timestamp') == Absorb(RowFields(number, name, timestamp), tdCount, line)
  {
    number', name', timestamp' := number, name, timestamp;
    if tdCount == 1 {
      number' := ParseInt(CellText(line)).GetOr(0);
    } else if tdCount == 2 {
      name' := DecodeEntities(CellText(line));
    } else if tdCount == 3 {
      var clock := FindClock(Timestamp, line);
      if clock.Some? {
        timestamp' := Millis(clock.value);
      }
    }
  }

  /** Before the third cell has been read, the timestamp is still unset. */
  lemma {:induction false} TimestampUnset(cells: seq<string>)
    requires |cells| < 3
    ensures ReadFields(cells).timestamp == 0
    decreases |cells|
  {
    if cells != [] {
      TimestampUnset(cells[..|cells| - 1]);
    }
  }

  /** The loop of `parseChapterFromRow`: the fields read from the row's cells. */
  method ReadCells(rowLines: seq<string>) returns (chapterNumber: Int64, chapterName: string, timestamp: nat)
    ensures RowFields(chapterNumber, chapterName, timestamp) == ReadFields(Cells(rowLines))
  {
    chapterNumber := 0;
    chapterName := "";
    timestamp := 0;
    var tdCount := 0;

    for lineIndex := 0 to |rowLines|
      invariant tdCount == |Cells(rowLines[..lineIndex])|
      invariant RowFields(chapterNumber, chapterName, timestamp) == ReadFields(Cells(rowLines[..lineIndex]))
    {
      var line := rowLines[lineIndex];
      ghost var before := Cells(rowLines[..lineIndex]);
      CellsStep(rowLines, lineIndex);
      if Contains(line, "<td") && Contains(line, "</td>") {
        assert (before + [line])[..|before|] == before;
        assert ReadFields(before + [line]) == Absorb(ReadFields(before), tdCount + 1, line);
        if tdCount == 2 {
          TimestampUnset(Cells(rowLines[..lineIndex]));
        }
        tdCount := tdCount + 1;
        chapterNumber, chapterName, timestamp := ReadCell(line, tdCount, chapterNumber, chapterName, timestamp);
        assert Cells(rowLines[..lineIndex + 1]) == before + [line];
        assert RowFields(chapterNumber, chapterName, timestamp) == ReadFields(before + [line]);
      } else {
        assert Cells(rowLines[..lineIndex + 1]) == before;
      }
    }
    assert rowLines[..|rowLines|] == rowLines;
  }

  /** `parseChapterFromRow`. */
  method ParseChapterFromRow(rowLines: seq<string>) returns (chapter: Option<Chapter>)
    requires CellsSafe(rowLines)
    ensures chapter == RowChapter(rowLines)
  {
    var chapterNumber, chapterName, timestamp := ReadCells(rowLines);
    if chapterName == [] && chapterNumber > 0 {
      chapterName := ChapterLabel(chapterNumber);
    }
    var isValid := chapterNumber >= 0 && timestamp >= 0;
    chapter := if isValid then Some(Chapter(chapterName, timestamp)) else None;
  }

  /** Scanning one more line of the detail page is one more `TableStep`. */
  lemma TableScanStep(lines: seq<string>, i: nat)
    requires i < |lines|
    ensures TableScanFrom(TableStart, lines[..i + 1]) == TableStep(TableScanFrom(TableStart, lines[..i]), lines[i])
  {
    assert lines[..i + 1][..i] == lines[..i];
  }

  /** Once the scan up to line `i` has closed the table, its rows are those of the whole page. */
  lemma TableClosedAt(lines: seq<string>, i: nat)
    requires i < |lines| && TableScanFrom(TableStart, lines[..i + 1]).closed
    ensures TableRows(lines) == TableRows(lines[..i + 1])
  {
    LinesAfterTableIgnored(lines[..i + 1], lines[i + 1..]);
    assert lines[..i + 1] + lines[i + 1..] == lines;
  }

  /** Closing one more row adds its chapter, if it yields one. */
  lemma RowChaptersSnoc(rows: seq<seq<string>>, row: seq<string>)
    ensures RowChapters(rows + [row]) == RowChapters(rows) + (if RowChapter(row).Some? then [RowChapter(row).value] else [])
  {
    assert (rows + [row])[..|rows|] == rows;
  }

  /** Every closed row of the table scanned up to line `i` is a row of the whole table. */
  lemma TableRowOfPrefix(lines: seq<string>, i: nat)
    requires i <= |lines|
    ensures forall r :: r in TableScanFrom(TableStart, lines[..i]).rows.rows ==> r in TableRows(lines)
  {
    assert lines[..i] + lines[i..] == lines;
    TableScanAppend(TableStart, lines[..i], lines[i..]);
    TableRowsGrow(TableScanFrom(TableStart, lines[..i]), lines[i..]);
    var prefixRows := TableScanFrom(TableStart, lines[..i]).rows.rows;
    forall r | r in prefixRows ensures r in TableRows(lines) {
      var k :| 0 <= k < |prefixRows| && prefixRows[k] == r;
      assert TableRows(lines)[k] == r;
    }
  }

  /**
   * The row handling of `parseChapterDetails` for one line inside the
   * table: one `Step` of the row scan, with the closed row's chapter
   * appended when it yields one.
   */
  method ReadTableLine(line: string, insideRow: bool, currentRow: seq<string>, collected: seq<Chapter>, ghost rows: Scan)
    returns (insideRow': bool, currentRow': seq<string>, collected': seq<Chapter>)
    requires rows.insideRow == insideRow && rows.currentRow == currentRow
    requires collected == RowChapters(rows.rows)
    requires ClosesRow(line) && insideRow && !OpensRow(line) ==> CellsSafe(currentRow)
    ensures Step(rows, line) == Scan(insideRow', currentRow', Step(rows, line).rows)
    ensures collected' == RowChapters(Step(rows, line).rows)
  {
    insideRow', currentRow', collected' := insideRow, currentRow, collected;
    if Contains(line, "<tr>") {
      insideRow' := true;
      currentRow' := [];
    } else if Contains(line, "</tr>") && insideRow {
      insideRow' := false;
      var chapter := ParseChapterFromRow(currentRow);
      RowChaptersSnoc(rows.rows, currentRow);
      if chapter.Some? {
        collected' := collected + [chapter.value];
      }
    } else if insideRow {
      currentRow' := currentRow + [line];
    }
  }

  /**
   * `parseChapterDetails`: the chapters of the first marked table, or
   * nothing when no chapter was collected.
   */
  method ParseChapterDetails(lines: seq<string>) returns (chapters: Option<seq<Chapter>>)
    requires DetailSafe(lines)
    ensures chapters.None? <==> DetailChapters(lines) == []
    ensures chapters.Some? ==> chapters.value == DetailChapters(lines)
  {
    var collected: seq<Chapter> := [];
    var insideTable := false;
    var insideRow := false;
    var currentRow: seq<string> := [];

    var lineIndex := 0;
    ghost var st := TableStart;
    while lineIndex < |lines|
      invariant 0 <= lineIndex <= |lines|
      invariant st == TableScanFrom(TableStart, lines[..lineIndex])
      invariant !st.closed && st.insideTable == insideTable
      invariant st.rows.insideRow == insideRow && st.rows.currentRow == currentRow
      invariant collected == RowChapters(st.rows.rows)
    {
      var line := lines[lineIndex];
      TableScanStep(lines, lineIndex);
      ghost var next := TableStep(st, line);
      if IsTableOpen(line) {
        insideTable := true;
      } else if Contains(line, "</table>") && insideTable {
        insideTable := false;
        TableClosedAt(lines, lineIndex);
        break;
      } else if insideTable {
        if ClosesRow(line) && insideRow && !OpensRow(line) {
          TableRowOfPrefix(lines, lineIndex + 1);
          assert currentRow in next.rows.rows;
        }
        insideRow, currentRow, collected := ReadTableLine(line, insideRow, currentRow, collected, st.rows);
      }
      st := next;
      lineIndex := lineIndex + 1;
    }
    if lineIndex == |lines| {
      assert lines[..|lines|] == lines;
    }
    assert collected == DetailChapters(lines);
    chapters := if collected == [] then None else Some(collected);
  }

  /**
   * `loadChapters`' background step: the page's chapters, with a failed
   * fetch and a page without chapters both mapped to the empty list.
   */
  method LoadChapters(page: Option<seq<string>>) returns (chapters: seq<Chapter>)
    requires page.Some? ==> DetailSafe(page.value)
    ensures page.None? ==> chapters == []
    ensures page.Some? ==> chapters == DetailChapters(page.value)
  {
    var details: Option<seq<Chapter>> := None;
    if page.Some? {
      details := ParseChapterDetails(page.value);
    }
    chapters := details.GetOr([]);
  }

  // ---------------------------------------------------------------------------
  // Fallback helpers
  // ---------------------------------------------------------------------------

  /** The first `]` of a column comes after its first `[`, where both exist; the source traps otherwise. */
  predicate BracketsOrdered(column: string) {
    var open := IndexOf(column, "[");
    var close := IndexOf(column, "]");
    open.Some? && close.Some? ==> open.value < close.value
  }

  /** No `]` occurs between `from` and the first `]`, trimmed or not. */
  lemma NoCloseBefore(column: string, from: nat)
    requires IndexOf(column, "]").Some? && from <= IndexOf(column, "]").value
    ensures ']' !in column[from..IndexOf(column, "]").value]
    ensures ']' !in Trim(column[from..IndexOf(column, "]").value])
  {
    var inner := column[from..IndexOf(column, "]").value];
    forall j | 0 <= j < |inner| ensures inner[j] != ']' {
      BeforeIndexOf(column, ']', from + j);
    }
    TrimKeeps(inner);
  }

  /** `extractTitleFromColumn`: the trimmed text between the first `[` and the first `]`. */
  function ExtractTitleFromColumn(column: string): (title: string)
    requires BracketsOrdered(column)
    ensures IndexOf(column, "[").None? || IndexOf(column, "]").None? ==> title == "Unknown Title"
    ensures IndexOf(column, "[").Some? && IndexOf(column, "]").Some? ==>
      ']' !in title && (title == [] || (!IsSpace(title[0]) && !IsSpace(title[|title| - 1])))
    ensures IndexOf(column, "[").Some? && IndexOf(column, "]").Some? ==>
      BetweenSpaces(column[IndexOf(column, "[").value + 1..IndexOf(column, "]").value], title)
  {
    var open := IndexOf(column, "[");
    var close := IndexOf(column, "]");
    if open.Some? && close.Some? then
      var inner := column[open.value + 1..close.value];
      NoCloseBefore(column, open.value + 1);
      TrimCutsSpace(inner);
      Trim(inner)
    else "Unknown Title"
  }

  /** The spacing of the fallback chapters: ten minutes, in milliseconds. */
  const CHAPTER_INTERVAL := 10 * 60 * 1000

  /** `createBasicChapters`: ten chapters "Chapter 1" to "Chapter 10", ten minutes apart. */
  method CreateBasicChapters() returns (chapters: seq<Chapter>)
    ensures |chapters| == 10
    ensures forall k :: 0 <= k < 10 ==>
      chapters[k] == Chapter("Chapter " + DecimalString(k + 1), (k + 1) * CHAPTER_INTERVAL)
    ensures forall j, k :: 0 <= j < k < 10 ==> chapters[j].timestamp < chapters[k].timestamp
  {
    chapters := [];
    var chapterInterval := 10 * 60 * 1000;
    for i := 1 to 11
      invariant |chapters| == i - 1
      invariant forall k :: 0 <= k < i - 1 ==>
        chapters[k] == Chapter("Chapter " + DecimalString(k + 1), (k + 1) * CHAPTER_INTERVAL)
    {
      var timestamp := i * chapterInterval;
      var chapter := Chapter("Chapter " + DecimalString(i), timestamp);
      chapters := chapters + [chapter];
    }
  }
}
