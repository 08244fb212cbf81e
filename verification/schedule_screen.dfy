/** The pure helpers of the schedule screen: the timeline geometry, the
    "HH:mm" visual transformation of the time fields, the split of the task
    list into scheduled and unscheduled tasks, the month grid and the rule
    that enables the dialog's save button. */
module ScheduleScreen {
  import opened Wrappers
  import opened Text
  import opened Clock
  import opened Entities
  import opened TimeUtil
  import TimeInput
  import TimeOptions
  import ScheduleRepository

  // ---------------------------------------------------------------------
  // Timeline
  // ---------------------------------------------------------------------

  const DAY_MINUTES: int := 24 * 60

  /** Kotlin's `x.coerceIn(lo, hi)`. */
  function CoerceIn(x: int, lo: int, hi: int): (r: int)
    requires lo <= hi
    ensures lo <= r <= hi
    ensures lo <= x <= hi ==> r == x
    ensures x < lo ==> r == lo
    ensures x > hi ==> r == hi
  {
    if x < lo then lo else if x > hi then hi else x
  }

  /** `minutesFromDayStart(day0, timeMillis)`: whole minutes since `day0`,
      clamped to the day. */
  function MinutesFromDayStart(day0: int, timeMillis: int): (r: int)
    ensures 0 <= r <= DAY_MINUTES
    ensures day0 <= timeMillis <= day0 + DAY_MS ==> r == (timeMillis - day0) / MIN_MS
    ensures timeMillis <= day0 ==> r == 0
    ensures timeMillis >= day0 + DAY_MS ==> r == DAY_MINUTES
  {
    var diff := CoerceIn(timeMillis - day0, 0, DAY_MS);
    ToInt32(diff / MIN_MS)
  }

  /** Later instants are never drawn higher up. */
  lemma MinutesMonotone(day0: int, a: int, b: int)
    requires a <= b
    ensures MinutesFromDayStart(day0, a) <= MinutesFromDayStart(day0, b)
  {
    var da, db := CoerceIn(a - day0, 0, DAY_MS), CoerceIn(b - day0, 0, DAY_MS);
    assert da <= db;
    assert da / MIN_MS <= db / MIN_MS;
  }

  /** A block of the day timeline: first minute row and height in minutes. */
  datatype Block = Block(safeStart: int, durMin: int)

  /** The clamping of one slot on the timeline. */
  function TimelineBlock(day0: int, s: Slot): (b: Block)
    ensures 0 <= b.safeStart <= DAY_MINUTES
    ensures b.durMin >= 1 && b.safeStart + b.durMin <= DAY_MINUTES + 1
    ensures b.safeStart == MinutesFromDayStart(day0, s.startTimeMillis)
    ensures MinutesFromDayStart(day0, s.endTimeMillis) > b.safeStart ==>
      b.safeStart + b.durMin == MinutesFromDayStart(day0, s.endTimeMillis)
  {
    var startMin := MinutesFromDayStart(day0, s.startTimeMillis);
    var endMin := MinutesFromDayStart(day0, s.endTimeMillis);
    var safeStart := CoerceIn(startMin, 0, DAY_MINUTES);
    var clampedEnd := CoerceIn(endMin, 0, DAY_MINUTES);
    var safeEnd := if clampedEnd < safeStart + 1 then safeStart + 1 else clampedEnd;
    Block(safeStart, safeEnd - safeStart)
  }

  /** Two slots that do not overlap, each spanning at least one minute row,
      are drawn as blocks that do not overlap either. */
  lemma BlocksDoNotOverlap(day0: int, a: Slot, b: Slot)
    requires a.endTimeMillis <= b.startTimeMillis
    requires MinutesFromDayStart(day0, a.endTimeMillis) > MinutesFromDayStart(day0, a.startTimeMillis)
    ensures TimelineBlock(day0, a).safeStart + TimelineBlock(day0, a).durMin <= TimelineBlock(day0, b).safeStart
  {
    MinutesMonotone(day0, a.endTimeMillis, b.startTimeMillis);
  }

  // ---------------------------------------------------------------------
  // HhmmVisualTransformation
  // ---------------------------------------------------------------------

  /** `filter(text)`: the characters in order, with ':' written before the
      one at index 2. */
  function HhmmTransform(raw: string): (out: string)
    ensures |out| == if |raw| >= 3 then |raw| + 1 else |raw|
    decreases |raw|
  {
    if |raw| == 0 then []
    else
      var i := |raw| - 1;
      HhmmTransform(raw[..i]) + (if i == 2 then ":" else "") + [raw[i]]
  }

  /** The transformation is the display form of the digits: a colon is
      inserted before index 2 exactly when there are three characters or
      more. */
  lemma {:induction false} HhmmIsDisplay(raw: string)
    ensures HhmmTransform(raw) == TimeInput.DigitsToDisplay(raw)
    decreases |raw|
  {
    if |raw| > 0 {
      var i := |raw| - 1;
      HhmmIsDisplay(raw[..i]);
      if i > 2 {
        assert raw[..i][..2] == raw[..2];
        assert raw[..i][2..] + [raw[i]] == raw[2..];
      } else if i == 2 {
        assert raw[..i] == raw[..2];
      } else {
        assert raw[..i] + [raw[i]] == raw;
      }
    }
  }

  /** `originalToTransformed(offset)` */
  function OriginalToTransformed(offset: int): int {
    if offset <= 2 then offset else offset + 1
  }

  /** `transformedToOriginal(offset)` */
  function TransformedToOriginal(offset: int): int {
    if offset <= 2 then offset else if offset == 3 then 2 else offset - 1
  }

  /** The two cursor mappings: mapping forward and back is the identity, and
      the back mapping sends the colon's own position to the character
      before it. */
  lemma CursorMappingRoundTrip(o: int, t: int)
    ensures TransformedToOriginal(OriginalToTransformed(o)) == o
    ensures t != 3 ==> OriginalToTransformed(TransformedToOriginal(t)) == t
    ensures OriginalToTransformed(TransformedToOriginal(3)) == 2
  {
  }

  /** The forward mapping keeps the cursor after the same characters: the
      transformed text before the mapped cursor is the transformation of the
      original text before the cursor (so offset 2 stays in front of the
      colon, and the end of the text maps to the end). */
  lemma {:induction false} CursorKeepsPrefix(raw: string, o: int)
    requires 0 <= o <= |raw|
    ensures OriginalToTransformed(o) <= |HhmmTransform(raw)|
    ensures HhmmTransform(raw)[..OriginalToTransformed(o)] == HhmmTransform(raw[..o])
  {
    HhmmIsDisplay(raw);
    HhmmIsDisplay(raw[..o]);
    var p := raw[..o];
    if |raw| > 2 {
      if o <= 2 {
        assert (raw[..2] + ":" + raw[2..])[..o] == p;
      } else {
        assert p[..2] == raw[..2] && p[2..] == raw[2..o];
        assert (raw[..2] + ":" + raw[2..])[..o + 1] == raw[..2] + ":" + raw[2..o];
      }
    }
  }

  // ---------------------------------------------------------------------
  // TasksPanel
  // ---------------------------------------------------------------------

  /** `scheduledCountByTaskId`: slots per linked task id, built slot by slot. */
  function ScheduledCounts(slots: seq<SlotWithTask>): (m: map<string, int>)
    decreases |slots|
  {
    if |slots| == 0 then map[]
    else
      var m := ScheduledCounts(slots[..|slots| - 1]);
      match slots[|slots| - 1].slot.localTaskId
      case None => m
      case Some(id) => m[id := CountOf(m, id) + 1]
  }

  /** `m[id] ?: 0` */
  function CountOf(m: map<string, int>, id: string): int {
    if id in m then m[id] else 0
  }

  /** Positions of the slots linked to task `id`. */
  function Links(slots: seq<SlotWithTask>, id: string): set<int> {
    set i | 0 <= i < |slots| && slots[i].slot.localTaskId == Some(id)
  }

  /** The count map holds, for every task id, the number of slots linked to it. */
  lemma {:induction false} CountsAreLinks(slots: seq<SlotWithTask>, id: string)
    ensures CountOf(ScheduledCounts(slots), id) == |Links(slots, id)|
    decreases |slots|
  {
    if |slots| > 0 {
      var n := |slots| - 1;
      var pre := slots[..n];
      CountsAreLinks(pre, id);
      if slots[n].slot.localTaskId == Some(id) {
        assert Links(slots, id) == Links(pre, id) + {n};
      } else {
        assert Links(slots, id) == Links(pre, id);
      }
    }
  }

  /** `tasks.partition { count > 0 }`. */
  function Partition(tasks: seq<Task>, counts: map<string, int>): (r: (seq<Task>, seq<Task>))
    ensures multiset(r.0) + multiset(r.1) == multiset(tasks)
    ensures forall x :: x in r.0 ==> CountOf(counts, x.localId) > 0
    ensures forall x :: x in r.1 ==> CountOf(counts, x.localId) <= 0
    decreases |tasks|
  {
    if |tasks| == 0 then ([], [])
    else
      var n := |tasks| - 1;
      var p := Partition(tasks[..n], counts);
      assert tasks == tasks[..n] + [tasks[n]];
      if CountOf(counts, tasks[n].localId) > 0 then (p.0 + [tasks[n]], p.1)
      else (p.0, p.1 + [tasks[n]])
  }

  /** The panel's two lists: scheduled first, unscheduled second. */
  function TasksPanel(tasks: seq<Task>, slots: seq<SlotWithTask>): (r: (seq<Task>, seq<Task>))
    ensures multiset(r.0) + multiset(r.1) == multiset(tasks)
  {
    Partition(tasks, ScheduledCounts(slots))
  }

  /** A task is listed as scheduled exactly when some slot links to it, and
      its badge shows the number of such slots. */
  lemma ScheduledIffLinked(tasks: seq<Task>, slots: seq<SlotWithTask>, x: Task)
    requires x in tasks
    ensures x in TasksPanel(tasks, slots).0 <==>
      exists i :: 0 <= i < |slots| && slots[i].slot.localTaskId == Some(x.localId)
    ensures x in TasksPanel(tasks, slots).0 ==>
      CountOf(ScheduledCounts(slots), x.localId) == |Links(slots, x.localId)| >= 1
  {
    var r := TasksPanel(tasks, slots);
    CountsAreLinks(slots, x.localId);
    assert x in multiset(tasks);
    assert x in r.0 || x in r.1 by {
      assert x in multiset(r.0) + multiset(r.1);
    }
    if exists i :: 0 <= i < |slots| && slots[i].slot.localTaskId == Some(x.localId) {
      var i :| 0 <= i < |slots| && slots[i].slot.localTaskId == Some(x.localId);
      assert i in Links(slots, x.localId);
    }
    if x in r.0 {
      var L := Links(slots, x.localId);
      assert L != {};
      var i :| i in L;
    }
  }

  // ---------------------------------------------------------------------
  // Month grid
  // ---------------------------------------------------------------------

  datatype DayCell = DayCell(millis: int, dayText: string)
  datatype MonthModel = MonthModel(title: string, cells: seq<Option<DayCell>>)

  /** `Calendar.DAY_OF_WEEK` of a day count: 1 = Sunday ... 7 = Saturday;
      1970-01-01 was a Thursday. */
  function DayOfWeek(days: int): (w: int)
    ensures 1 <= w <= 7
  {
    (days + 4) % 7 + 1
  }

  /** Local midnight of a day count. */
  function MidnightOf(days: int): (m: int)
    ensures IsLocalMidnight(m)
  {
    MulDiv(DAY_MS, days);
    days * DAY_MS - ZONE_OFFSET_MS
  }

  /** `while (cells.size % 7 != 0) cells.add(null)`: the fewest blanks
      that complete the last week. */
  function PadToWeeks(cells: seq<Option<DayCell>>): (r: seq<Option<DayCell>>)
    ensures |r| % 7 == 0 && |cells| <= |r| < |cells| + 7
    ensures r[..|cells|] == cells
    ensures forall i :: |cells| <= i < |r| ==> r[i].None?
  {
    var rest := |cells| % 7;
    if rest == 0 then cells
    else
      DivModUnique(|cells| + (7 - rest), 7, |cells| / 7 + 1, 0);
      cells + seq(7 - rest, _ => None)
  }

  /** `count` blank cells. */
  function Blanks(count: int): (r: seq<Option<DayCell>>)
    ensures |r| == if count < 0 then 0 else count
  {
    if count <= 0 then [] else seq(count, _ => None)
  }

  /** One cell per day of a month whose first day has day count `first`. */
  function DayCells(first: int, n: nat): (r: seq<Option<DayCell>>)
    ensures |r| == n
  {
    seq(n, i requires 0 <= i < n => Some(DayCell(MidnightOf(first + i), NatToString(i + 1))))
  }

  /** `buildMonthModel(anchorMillis)`: the month of the anchor's local date,
      blanks up to its first weekday (Sunday first), one cell per day at
      local midnight, blanks to complete the last week. */
  function BuildMonthModel(anchorMillis: int): (r: MonthModel)
  {
    var t := ToLocal(anchorMillis);
    var cells := MonthCells(DaysFromCivil(Date(t.year, t.month, 1)), MonthLength(t.year, t.month));
    MonthModel(IntToString(t.year) + "年" + IntToString(t.month) + "月", cells)
  }

  /** The cells of a month of `n` days whose first day has day count `first`. */
  function MonthCells(first: int, n: nat): seq<Option<DayCell>> {
    PadToWeeks(Blanks(DayOfWeek(first) - 1) + DayCells(first, n))
  }

  /** With `DayOfWeek(first) - 1` leading blanks, day `d` lands in the column
      of its weekday. */
  lemma ColumnIsWeekday(first: int, d: int)
    ensures (DayOfWeek(first) - 1 + d - 1) % 7 == DayOfWeek(first + d - 1) - 1
  {
    var j := (first + 4) % 7 + d - 1;
    DivModUnique(first + d + 3, 7, (first + 4) / 7 + j / 7, j % 7);
  }

  /** The grid of a month: whole weeks; blanks before day 1 and after the
      last day; day `d` at index `lead + d - 1` (so in the column of its
      weekday, by `ColumnIsWeekday`), holding the local midnight of its day
      count and its number as text. */
  lemma MonthLayout(first: int, n: nat)
    ensures var lead := DayOfWeek(first) - 1;
      var cells := MonthCells(first, n);
      && |cells| % 7 == 0 && lead + n <= |cells| < lead + n + 7
      && (forall i :: 0 <= i < lead ==> cells[i].None?)
      && (forall i :: lead + n <= i < |cells| ==> cells[i].None?)
      && (forall d :: 1 <= d <= n ==>
            cells[lead + d - 1] == Some(DayCell(MidnightOf(first + d - 1), NatToString(d))))
  {
    var lead := DayOfWeek(first) - 1;
    var pre := Blanks(lead) + DayCells(first, n);
    var cells := MonthCells(first, n);
    forall i | 0 <= i < |pre|
      ensures cells[i] == pre[i]
    {
      assert cells[..|pre|][i] == pre[i];
    }
  }

  /** The model shows the anchor's own local month, titled with its year and
      month number, laid out from that month's first day. */
  lemma MonthOfAnchor(anchorMillis: int)
    ensures var t := ToLocal(anchorMillis);
      && BuildMonthModel(anchorMillis).cells == MonthCells(DaysFromCivil(Date(t.year, t.month, 1)), MonthLength(t.year, t.month))
      && BuildMonthModel(anchorMillis).title == IntToString(t.year) + "年" + IntToString(t.month) + "月"
  {
  }

  /** Consecutive days of a month have consecutive day counts. */
  lemma DaysOfMonth(y: int, m: int, d: int)
    requires 1 <= m <= 12 && 1 <= d <= MonthLength(y, m)
    ensures DaysFromCivil(Date(y, m, d)) == DaysFromCivil(Date(y, m, 1)) + d - 1
  {
  }

  /** The cell of day `d` holds an instant whose local date is day `d` of the
      month (its day count is the first's plus `d - 1`, by `DaysOfMonth`). */
  lemma DayCellDate(y: int, m: int, d: int)
    requires ValidDate(Date(y, m, d))
    ensures DateOf(ToLocal(MidnightOf(DaysFromCivil(Date(y, m, d))))) == Date(y, m, d)
  {
    var k := DaysFromCivil(Date(y, m, d));
    MulDiv(DAY_MS, k);
    assert MidnightOf(k) + ZONE_OFFSET_MS == DAY_MS * k;
    CivilFromDaysFromCivil(Date(y, m, d));
  }

  // ---------------------------------------------------------------------
  // Slot dialog: timeError
  // ---------------------------------------------------------------------

  /** The dialog's step rule. */
  const DIALOG_STEP: Option<int> := Some(30)

  /** Which message `timeError` shows; `None` enables "save". */
  datatype TimeError = StartInvalid | EndInvalid | EndNotAfterStart

  /** `timeError` for the start and end text fields. */
  function DialogTimeError(startText: string, endText: string): (r: Option<TimeError>)
    ensures r.None? <==>
      && |startText| >= 3 && |endText| >= 3
      && TimeInput.DigitsToOffsetMillis(startText, DIALOG_STEP).Some?
      && TimeInput.DigitsToOffsetMillis(endText, DIALOG_STEP).Some?
      && TimeInput.DigitsToOffsetMillis(endText, DIALOG_STEP).value > TimeInput.DigitsToOffsetMillis(startText, DIALOG_STEP).value
    ensures r == Some(StartInvalid) <==> TimeInput.DigitsToOffsetMillis(startText, DIALOG_STEP).None?
  {
    var startOff := TimeInput.DigitsToOffsetMillis(startText, DIALOG_STEP);
    var endOff := TimeInput.DigitsToOffsetMillis(endText, DIALOG_STEP);
    if |startText| < 3 || startOff.None? then Some(StartInvalid)
    else if |endText| < 3 || endOff.None? then Some(EndInvalid)
    else if endOff.value <= startOff.value then Some(EndNotAfterStart)
    else None
  }

  /** When "save" is enabled, the times the fields stand for, placed on the
      dialog's day, pass the time rules of `saveSlot`: the end is after the
      start and on the same day. */
  lemma SaveEnabledPassesTimeRules(date0: int, startText: string, endText: string, slot: Slot)
    requires IsLocalMidnight(date0) && DialogTimeError(startText, endText).None?
    requires slot.startTimeMillis == TimeOptions.AbsoluteMillis(date0, TimeInput.DigitsToOffsetMillis(startText, DIALOG_STEP).value)
    requires slot.endTimeMillis == TimeOptions.AbsoluteMillis(date0, TimeInput.DigitsToOffsetMillis(endText, DIALOG_STEP).value)
    ensures ScheduleRepository.Validate(slot) != Some(ScheduleRepository.EndNotAfterStart)
    ensures ScheduleRepository.Validate(slot) != Some(ScheduleRepository.CrossesDay)
  {
    TimeOptions.OffsetStaysOnDay(date0, TimeInput.DigitsToOffsetMillis(startText, DIALOG_STEP).value);
  }
}
