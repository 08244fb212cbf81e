/** The analysis screen's view model: the filter state and the transitions
    of a search. The signed-in uid and whether the database query throws are
    parameters; the query itself and the summary are the repository's. */
module AnalysisViewModel {
  import opened Wrappers
  import opened Text
  import opened Clock
  import opened Entities
  import opened ScheduleDao
  import TaskDao
  import ScheduleRepository

  /** The five filter fields; the day bounds are local midnights or unset. */
  datatype Filters = Filters(startDay: Option<int>, endDay: Option<int>, keyword: string,
                             includeTask: bool, includeFree: bool)

  /** The filters as the screen opens and after `clearFilters()`. */
  const NO_FILTERS: Filters := Filters(None, None, "", true, true)

  const NOT_LOGGED_IN_TEXT: string := "尚未登入，無法查詢"
  const QUERY_FAILED_TEXT: string := "查詢失敗"

  /** `UiState`: loading flag, error text, result rows and their summary. */
  datatype UiState = UiState(loading: bool, error: Option<string>, items: seq<SlotWithTask>,
                             summary: ScheduleRepository.AnalysisSummary)

  const INITIAL_UI: UiState :=
    UiState(false, None, [], ScheduleRepository.AnalysisSummary(0, 0, 0, ScheduleRepository.ZERO_STATS))

  /** A day bound as stored by `setStartDay` / `setEndDay`. */
  function DayBound(millis: Option<int>): (r: Option<int>)
    ensures r.None? <==> millis.None?
    ensures r.Some? ==> IsLocalMidnight(r.value) && r.value <= millis.value < r.value + DAY_MS
  {
    match millis
    case None => None
    case Some(m) => Some(DayStart(m))
  }

  /** `setStartDay(millis)`: the start bound becomes the local midnight of
      the day holding `millis`, or unset; no other filter changes. */
  function SetStartDay(f: Filters, millis: Option<int>): (r: Filters)
    ensures r.startDay.None? <==> millis.None?
    ensures r.startDay.Some? ==> IsLocalMidnight(r.startDay.value) && r.startDay.value <= millis.value < r.startDay.value + DAY_MS
    ensures r.endDay == f.endDay && r.keyword == f.keyword
    ensures r.includeTask == f.includeTask && r.includeFree == f.includeFree
  {
    f.(startDay := DayBound(millis))
  }

  /** `setEndDay(millis)`: the same for the end bound. */
  function SetEndDay(f: Filters, millis: Option<int>): (r: Filters)
    ensures r.endDay.None? <==> millis.None?
    ensures r.endDay.Some? ==> IsLocalMidnight(r.endDay.value) && r.endDay.value <= millis.value < r.endDay.value + DAY_MS
    ensures r.startDay == f.startDay && r.keyword == f.keyword
    ensures r.includeTask == f.includeTask && r.includeFree == f.includeFree
  {
    f.(endDay := DayBound(millis))
  }

  /** Any instant of a day sets the same bound, and setting a bound to the
      bound already shown changes nothing. */
  lemma DayBoundIsTheDay(a: int, b: int)
    ensures DayBound(Some(a)) == DayBound(Some(b)) <==> DayStart(a) <= b < DayStart(a) + DAY_MS
    ensures DayBound(DayBound(Some(a))) == DayBound(Some(a))
  {
    if DayStart(a) <= b < DayStart(a) + DAY_MS {
      DayStartOfDay(a, b);
    }
    DayStartOfDay(a, DayStart(a));
  }

  /** `clearFilters()` */
  function ClearFilters(f: Filters): (r: Filters)
    ensures r.startDay.None? && r.endDay.None? && IsBlank(r.keyword) && r.includeTask && r.includeFree
  {
    NO_FILTERS
  }

  /** The bounds a search uses: reversed bounds are swapped. */
  function OrderedBounds(f: Filters): (r: Filters)
    ensures r.keyword == f.keyword && r.includeTask == f.includeTask && r.includeFree == f.includeFree
    ensures r.startDay.Some? && r.endDay.Some? ==> r.startDay.value <= r.endDay.value
    ensures (r.startDay, r.endDay) == (f.startDay, f.endDay) || (r.startDay, r.endDay) == (f.endDay, f.startDay)
    ensures r.startDay.None? <==> f.startDay.None?
  {
    if f.startDay.Some? && f.endDay.Some? && f.startDay.value > f.endDay.value
    then f.(startDay := f.endDay, endDay := f.startDay)
    else f
  }

  /** How the query ends: it returns rows, or it throws with an optional
      message. */
  datatype QueryRun = Returned | Threw(message: Option<string>)

  /** The screen state a search with the (already ordered) filters `g`
      leaves: loading while the query runs, then its rows and summary, or
      the failure message. */
  ghost function SearchWith(g: Filters, ui: UiState, u: int, slots: SlotTable,
                            tasks: TaskDao.TaskTable, run: QueryRun): UiState
  {
    var loading := ui.(loading := true, error := None);
    match run
    case Threw(m) => loading.(loading := false, error := Some(m.GetOr(QUERY_FAILED_TEXT)))
    case Returned =>
      var list := ScheduleRepository.QuerySlotsForAnalysis(slots, tasks, u, g.startDay, g.endDay,
                                                           TrimOrNone(g.keyword), g.includeTask, g.includeFree);
      match ScheduleRepository.SummarizeForAnalysis(list)
      case None => loading
      case Some(summary) => UiState(false, None, list, summary)
  }

  /** `runSearch()`: the filters afterwards and the screen state afterwards.
      A summary that never finishes (a slot running past its day's midnight)
      leaves the screen loading. */
  ghost function RunSearch(f: Filters, ui: UiState, uid: Option<int>, slots: SlotTable,
                           tasks: TaskDao.TaskTable, run: QueryRun): (r: (Filters, UiState))
    ensures uid.None? ==> r == (f, ui.(error := Some(NOT_LOGGED_IN_TEXT)))
    ensures uid.Some? ==> r.0 == OrderedBounds(f)
    ensures uid.Some? && run.Threw? ==>
      r.1 == ui.(loading := false, error := Some(run.message.GetOr(QUERY_FAILED_TEXT)))
    ensures uid.Some? && run.Returned? ==>
      var list := ScheduleRepository.QuerySlotsForAnalysis(slots, tasks, uid.value, r.0.startDay, r.0.endDay,
                                                           TrimOrNone(r.0.keyword), r.0.includeTask, r.0.includeFree);
      var summary := ScheduleRepository.SummarizeForAnalysis(list);
      && (summary.Some? ==> r.1 == UiState(false, None, list, summary.value))
      && (summary.None? ==> r.1 == ui.(loading := true, error := None))
  {
    match uid
    case None => (f, ui.(error := Some(NOT_LOGGED_IN_TEXT)))
    case Some(u) =>
      var g := OrderedBounds(f);
      (g, SearchWith(g, ui, u, slots, tasks, run))
  }

  /** A successful search shows exactly the rows the repository query returns
      for the ordered bounds, the trimmed keyword and the type boxes, with
      totals that add up: total = task + free, and every row an active slot
      of the user. */
  lemma SearchShowsQuery(f: Filters, ui: UiState, uid: int, slots: SlotTable, tasks: TaskDao.TaskTable)
    ensures var r := RunSearch(f, ui, Some(uid), slots, tasks, Returned).1;
      var g := OrderedBounds(f);
      var list := ScheduleRepository.QuerySlotsForAnalysis(slots, tasks, uid, g.startDay, g.endDay,
                                                           TrimOrNone(g.keyword), g.includeTask, g.includeFree);
      && (ScheduleRepository.SummarizeForAnalysis(list).Some? ==>
            && r == UiState(false, None, list, ScheduleRepository.SummarizeForAnalysis(list).value)
            && r.summary.totalMs == r.summary.taskMs + r.summary.freeMs)
      && (ScheduleRepository.SummarizeForAnalysis(list).None? ==> r.loading && r.error.None? && r.items == ui.items)
      && (forall i :: 0 <= i < |r.items| ==> r.items[i] in ui.items || (r.items[i].slot in slots.Values && r.items[i].slot.ownerUid == uid))
  {
    var g := OrderedBounds(f);
    var list := ScheduleRepository.QuerySlotsForAnalysis(slots, tasks, uid, g.startDay, g.endDay,
                                                         TrimOrNone(g.keyword), g.includeTask, g.includeFree);
    ScheduleRepository.SummarizeTotals(list, ScheduleRepository.Whole);
    QueryRowsAreTheUsers(slots, tasks, uid, g.startDay, g.endDay, TrimOrNone(g.keyword), g.includeTask, g.includeFree);
  }

  /** Every row the analysis query returns is a slot of the table owned by
      the user. */
  lemma QueryRowsAreTheUsers(slots: SlotTable, tasks: TaskDao.TaskTable, uid: int, startDay: Option<int>,
                             endDay: Option<int>, keyword: Option<string>, includeTask: bool, includeFree: bool)
    ensures var list := ScheduleRepository.QuerySlotsForAnalysis(slots, tasks, uid, startDay, endDay, keyword,
                                                                 includeTask, includeFree);
      forall i :: 0 <= i < |list| ==> list[i].slot in slots.Values && list[i].slot.ownerUid == uid
  {
  }

  /** Once both days are set, the order in which the user picked them does
      not matter: a search with the two bounds exchanged has the same
      outcome. (With one day set, exchanging turns a lower bound into an
      upper one, which is a different search.) */
  lemma SwappedBoundsSameSearch(f: Filters, ui: UiState, uid: Option<int>, slots: SlotTable,
                                tasks: TaskDao.TaskTable, run: QueryRun)
    requires uid.Some? && f.startDay.Some? && f.endDay.Some?
    ensures var h := f.(startDay := f.endDay, endDay := f.startDay);
      RunSearch(h, ui, uid, slots, tasks, run) == RunSearch(f, ui, uid, slots, tasks, run)
  {
    var h := f.(startDay := f.endDay, endDay := f.startDay);
    var g := OrderedBounds(f);
    if f.startDay.value > f.endDay.value {
      assert g == h;
      assert OrderedBounds(h) == h;
    } else if f.startDay.value == f.endDay.value {
      assert h == f;
    } else {
      assert g == f;
      assert OrderedBounds(h) == f;
    }
    assert RunSearch(h, ui, uid, slots, tasks, run) == (g, SearchWith(g, ui, uid.value, slots, tasks, run));
  }

  /** Without a user, a search only shows the "not logged in" error: the
      filters, the loading flag and the rows on screen stay as they were. */
  lemma SignedOutSearchChangesNothingElse(f: Filters, ui: UiState, slots: SlotTable,
                                          tasks: TaskDao.TaskTable, run: QueryRun)
    ensures var r := RunSearch(f, ui, None, slots, tasks, run);
      && r.0 == f && r.1.error == Some(NOT_LOGGED_IN_TEXT)
      && r.1.loading == ui.loading && r.1.items == ui.items && r.1.summary == ui.summary
  {
  }

  /** After `clearFilters()` a search asks for everything of the user:
      unbounded days, no keyword and both kinds of slot. */
  lemma ClearedSearchIsUnfiltered(f: Filters, ui: UiState, uid: int, slots: SlotTable, tasks: TaskDao.TaskTable)
    ensures var g := OrderedBounds(ClearFilters(f));
      && g.startDay.None? && g.endDay.None? && TrimOrNone(g.keyword).None?
      && ScheduleRepository.TypeFlags(g.includeTask, g.includeFree) == (1, 1)
  {
    assert IsBlank(ClearFilters(f).keyword);
  }
}
