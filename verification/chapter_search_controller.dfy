/**
 * The chapter-search window's controller: a three-state machine (no
 * results, a search running, results shown with one of them selected) and
 * a cache of the chapters loaded so far, keyed by result id.
 *
 * Asynchronous completions are explicit events: `SearchDone` is the search
 * task's completion and `ChaptersLoaded` is the completion of a chapter
 * load that `LoadChaptersForResult` asked for. Where the source starts a
 * load, the model returns the id to fetch.
 */
module ChapterSearch {
  import opened Wrappers
  import opened Numbers
  import opened ChapterDBWebScraper

  /** A running search task, with the query it was started for. */
  class SearchTask {
    const title: string
    const duration: UInt64
    var cancelled: bool

    constructor (title: string, duration: UInt64)
      ensures this.title == title && this.duration == duration && !cancelled
    {
      this.title := title;
      this.duration := duration;
      cancelled := false;
    }

    /** `cancel()`. */
    method Cancel()
      modifies this
      ensures cancelled
    {
      cancelled := true;
    }
  }

  /** `ChapterSearchState`; the source's `.none` is `Idle` here. */
  datatype SearchState =
    | Idle
    | Searching(task: SearchTask)
    | Completed(results: seq<ChapterResult>, selectedResult: ChapterResult)

  /** The tables the controller is the data source of, and any other table. */
  datatype TableView = ResultsTable | ChapterTable | OtherTable

  /** The part of a text sample handed to the delegate: a timestamp and a title. */
  datatype TextSample = TextSample(timestamp: UInt64, title: string)

  /** The sample for one chapter. */
  function SampleOf(chapter: Chapter): TextSample {
    TextSample(chapter.timestamp, chapter.name)
  }

  /** Two results that agree on everything but their chapters. */
  predicate SameEntry(a: ChapterResult, b: ChapterResult) {
    a.title == b.title && a.duration == b.duration && a.id == b.id && a.confirmations == b.confirmations
  }

  class ChapterSearchController {
    const duration: UInt64
    var state: SearchState
    /** `loadedChapters`: the chapters loaded so far, by result id. */
    var loadedChapters: map<UInt64, seq<Chapter>>

    /**
     * In `Completed`, the selected result is one of the results, except
     * that its chapters may be the ones loaded for its id.
     */
    ghost predicate Valid()
      reads this
    {
      state.Completed? ==>
        exists i :: 0 <= i < |state.results| && SameEntry(state.results[i], state.selectedResult) &&
          (state.selectedResult.chapters == state.results[i].chapters ||
           (state.selectedResult.id in loadedChapters &&
            state.selectedResult.chapters == loadedChapters[state.selectedResult.id]))
    }

    /** `init`: no results and nothing loaded. */
    constructor (duration: UInt64)
      ensures this.duration == duration
      ensures state == Idle && loadedChapters == map[]
      ensures Valid()
    {
      this.duration := duration;
      state := Idle;
      loadedChapters := map[];
    }

    /**
     * `loadChaptersForResult` up to the start of the load: a load is
     * needed exactly when nothing, not even an empty list, is cached for
     * the result's id.
     */
    method LoadChaptersForResult(result: ChapterResult) returns (fetch: bool)
      ensures fetch <==> result.id !in loadedChapters
    {
      if result.id in loadedChapters {
        return false;
      }
      return true;
    }

    /**
     * The completion of a chapter load: the chapters are cached whatever
     * the state, and the selected result is rebuilt with them when it is
     * the result they were loaded for. The results are never updated.
     */
    method ChaptersLoaded(id: UInt64, chapters: seq<Chapter>)
      requires Valid()
      modifies this
      ensures Valid()
      ensures loadedChapters == old(loadedChapters)[id := chapters]
      ensures old(state).Completed? && old(state).selectedResult.id == id ==>
        state == Completed(old(state).results, old(state).selectedResult.(chapters := chapters))
      ensures !(old(state).Completed? && old(state).selectedResult.id == id) ==> state == old(state)
    {
      loadedChapters := loadedChapters[id := chapters];
      if state.Completed? && state.selectedResult.id == id {
        var selectedResult := state.selectedResult;
        var updatedResult := ChapterResult(
          selectedResult.title,
          selectedResult.duration,
          selectedResult.id,
          selectedResult.confirmations,
          chapters);
        state := Completed(state.results, updatedResult);
      }
      assert old(state).Completed? ==> old(state).results == state.results;
    }

    /**
     * `searchDone`, when its main-queue block runs: the first result is
     * selected and its chapters are requested, or the state returns to
     * `Idle` when there is no result.
     */
    method SearchDone(results: seq<ChapterResult>) returns (fetch: Option<UInt64>)
      requires Valid()
      modifies this
      ensures Valid()
      ensures loadedChapters == old(loadedChapters)
      ensures results == [] ==> state == Idle && fetch == None
      ensures results != [] ==> state == Completed(results, results[0])
      ensures results != [] ==> (fetch == Some(results[0].id) <==> results[0].id !in loadedChapters)
      ensures results != [] && fetch.None? ==> results[0].id in loadedChapters
    {
      fetch := None;
      if |results| > 0 {
        var first := results[0];
        state := Completed(results, first);
        assert SameEntry(results[0], first);
        var load := LoadChaptersForResult(first);
        if load {
          fetch := Some(first.id);
        }
      } else {
        state := Idle;
      }
    }

    /**
     * `searchForResults`: a running search is cancelled, and a new search
     * for `title` and the controller's duration becomes the running one.
     */
    method SearchForResults(title: string) returns (task: SearchTask)
      requires Valid()
      modifies this, if state.Searching? then {state.task} else {}
      ensures Valid()
      ensures fresh(task) && !task.cancelled
      ensures task.title == title && task.duration == duration
      ensures state == Searching(task)
      ensures loadedChapters == old(loadedChapters)
      ensures old(state).Searching? ==> old(state).task.cancelled
    {
      match state {
        case Idle =>
        case Completed(_, _) =>
        case Searching(running) =>
          running.Cancel();
      }
      task := new SearchTask(title, duration);
      state := Searching(task);
    }

    /**
     * `addChapter`: in `Completed` with chapters cached for the selected
     * id, one sample per cached chapter goes to the delegate and the
     * window is dismissed; in `Completed` without a cache entry nothing
     * happens at all; in any other state the window is only dismissed.
     */
    method AddChapter() returns (delivered: Option<seq<TextSample>>, dismissed: bool)
      ensures state.Completed? && state.selectedResult.id in loadedChapters ==>
        var chapters := loadedChapters[state.selectedResult.id];
        && delivered.Some? && dismissed
        && |delivered.value| == |chapters|
        && forall k :: 0 <= k < |chapters| ==>
             delivered.value[k].timestamp == chapters[k].timestamp && delivered.value[k].title == chapters[k].name
      ensures state.Completed? && state.selectedResult.id !in loadedChapters ==> delivered.None? && !dismissed
      ensures !state.Completed? ==> delivered.None? && dismissed
    {
      delivered := None;
      if state.Completed? {
        var result := state.selectedResult;
        if result.id !in loadedChapters {
          return None, false;
        }
        var chapters := loadedChapters[result.id];
        var textChapters: seq<TextSample> := [];
        for k := 0 to |chapters|
          invariant |textChapters| == k
          invariant forall j :: 0 <= j < k ==> textChapters[j] == SampleOf(chapters[j])
        {
          var sample := TextSample(chapters[k].timestamp, chapters[k].name);
          textChapters := textChapters + [sample];
        }
        delivered := Some(textChapters);
      }
      dismissed := true;
    }

    /** `closeWindow`: a running search is cancelled and the window dismissed; the state stays as it is. */
    method CloseWindow() returns (dismissed: bool)
      modifies if state.Searching? then {state.task} else {}
      ensures state == old(state) && loadedChapters == old(loadedChapters)
      ensures state.Searching? ==> state.task.cancelled
      ensures dismissed
    {
      match state {
        case Searching(task) =>
          task.Cancel();
        case Idle =>
        case Completed(_, _) =>
      }
      dismissed := true;
    }

    /**
     * `tableViewSelectionDidChange`: a valid row of the results table, in
     * `Completed`, becomes the selected result and its chapters are
     * requested; anything else changes nothing.
     */
    method TableViewSelectionDidChange(table: TableView, selectedRow: int) returns (fetch: Option<UInt64>)
      requires Valid()
      modifies this
      ensures Valid()
      ensures loadedChapters == old(loadedChapters)
      ensures table == ResultsTable && old(state).Completed? && 0 <= selectedRow < |old(state).results| ==>
        var selected := old(state).results[selectedRow];
        && state == Completed(old(state).results, selected)
        && (fetch == Some(selected.id) <==> selected.id !in loadedChapters)
        && (fetch.None? ==> selected.id in loadedChapters)
      ensures !(table == ResultsTable && old(state).Completed? && 0 <= selectedRow < |old(state).results|) ==>
        state == old(state) && fetch.None?
    {
      fetch := None;
      if table == ResultsTable {
        match state {
          case Idle =>
          case Searching(_) =>
          case Completed(results, _) =>
            if !(0 <= selectedRow < |results|) {
              return;
            }
            var selectedResult := results[selectedRow];
            state := Completed(results, selectedResult);
            assert SameEntry(results[selectedRow], selectedResult);
            var load := LoadChaptersForResult(selectedResult);
            if load {
              fetch := Some(selectedResult.id);
            }
        }
      }
    }

    /**
     * `numberOfRows(in:)`: the results table shows the results, the
     * chapter table the chapters cached for the selected id (none while
     * they are loading); everything else is empty.
     */
    function NumberOfRows(table: TableView): (rows: nat)
      reads this
      ensures table == ResultsTable && state.Completed? ==> rows == |state.results|
      ensures table == ChapterTable && state.Completed? && state.selectedResult.id in loadedChapters ==>
        rows == |loadedChapters[state.selectedResult.id]|
      ensures rows > 0 ==> state.Completed? && table != OtherTable
      ensures table == ChapterTable && rows > 0 ==> state.selectedResult.id in loadedChapters
    {
      match table
      case ResultsTable =>
        if state.Completed? then |state.results| else 0
      case ChapterTable =>
        if state.Completed? && state.selectedResult.id in loadedChapters then |loadedChapters[state.selectedResult.id]| else 0
      case OtherTable => 0
    }
  }
}
