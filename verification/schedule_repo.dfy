/** `ScheduleRepository`: saving a slot, the quick free-gap scan, the 4x3
    time-bucket statistics and the analysis summary. The push/pull
    reconciliation lives in `ScheduleSync`. */
module ScheduleRepository {
  import opened Wrappers
  import opened Text
  import opened Clock
  import opened Entities
  import opened Rows
  import opened ScheduleDao
  import TaskDao

  function Max(a: int, b: int): int {
    if a >= b then a else b
  }

  function Min(a: int, b: int): int {
    if a <= b then a else b
  }

  // ---------------------------------------------------------------------
  // querySlotsForAnalysis
  // ---------------------------------------------------------------------

  /** `keyword?.trim().orEmpty()`, with a blank result read as "no keyword". */
  function NormalizeKeyword(keyword: Option<string>): (r: Option<string>)
    ensures r.None? <==> keyword.None? || IsBlank(keyword.value)
    ensures r.Some? ==> r.value != [] && r.value == Trim(keyword.value)
  {
    if keyword.None? then None
    else
      var k := Trim(keyword.value);
      if k == [] then None else Some(k)
  }

  /** The `(taskFlag, freeFlag)` pair handed to the query: with neither box
      ticked both kinds are listed. */
  function TypeFlags(includeTask: bool, includeFree: bool): (r: (int, int))
    ensures !includeTask && !includeFree ==> r == (1, 1)
    ensures includeTask || includeFree ==> r == (if includeTask then 1 else 0, if includeFree then 1 else 0)
  {
    (if includeTask || (!includeTask && !includeFree) then 1 else 0,
     if includeFree || (!includeTask && !includeFree) then 1 else 0)
  }

  /** Whatever the boxes, the flags never filter out every slot kind at once:
      a slot passes exactly when its kind is ticked, or when nothing is. */
  lemma TypeFlagsMeaning(includeTask: bool, includeFree: bool, s: Slot)
    ensures TypeHit(s, TypeFlags(includeTask, includeFree).0, TypeFlags(includeTask, includeFree).1) <==>
      (!includeTask && !includeFree) || (includeTask && s.localTaskId.Some?) || (includeFree && s.localTaskId.None?)
  {
  }

  /** `querySlotsForAnalysis(...)` */
  ghost function QuerySlotsForAnalysis(slots: SlotTable, tasks: TaskDao.TaskTable, uid: int,
                                       startDate: Option<int>, endDate: Option<int>, keyword: Option<string>,
                                       includeTask: bool, includeFree: bool): (r: seq<SlotWithTask>)
    ensures SortedBy(r, JoinedByDateThenStart)
    ensures var kw, flags := NormalizeKeyword(keyword), TypeFlags(includeTask, includeFree);
      forall i :: 0 <= i < |r| ==>
        r[i].slot in slots.Values && AnalysisKeep(tasks, uid, startDate, endDate, kw, flags.0, flags.1, r[i].slot)
    ensures var kw, flags := NormalizeKeyword(keyword), TypeFlags(includeTask, includeFree);
      forall k :: k in slots && AnalysisKeep(tasks, uid, startDate, endDate, kw, flags.0, flags.1, slots[k]) ==>
        exists i :: 0 <= i < |r| && r[i].slot == slots[k]
  {
    var flags := TypeFlags(includeTask, includeFree);
    QuerySlotsWithTaskForAnalysis(slots, tasks, uid, startDate, endDate, NormalizeKeyword(keyword), flags.0, flags.1)
  }

  /** A blank keyword filters nothing: the query equals the one without it. */
  lemma BlankKeywordIsNoKeyword(slots: SlotTable, tasks: TaskDao.TaskTable, uid: int,
                                startDate: Option<int>, endDate: Option<int>, keyword: string,
                                includeTask: bool, includeFree: bool)
    requires IsBlank(keyword)
    ensures QuerySlotsForAnalysis(slots, tasks, uid, startDate, endDate, Some(keyword), includeTask, includeFree)
         == QuerySlotsForAnalysis(slots, tasks, uid, startDate, endDate, None, includeTask, includeFree)
  {
  }

  /** Leaving both boxes empty lists the same rows as ticking both. */
  lemma NoBoxIsBothBoxes(slots: SlotTable, tasks: TaskDao.TaskTable, uid: int,
                         startDate: Option<int>, endDate: Option<int>, keyword: Option<string>)
    ensures QuerySlotsForAnalysis(slots, tasks, uid, startDate, endDate, keyword, false, false)
         == QuerySlotsForAnalysis(slots, tasks, uid, startDate, endDate, keyword, true, true)
  {
  }

  // ---------------------------------------------------------------------
  // saveSlot
  // ---------------------------------------------------------------------

  /** Why `saveSlot` refused a slot (the three user-facing error messages). */
  datatype SaveError = EndNotAfterStart | CrossesDay | MissingTitle

  /** The three results of `saveSlot`, and `Threw`: the DAO write raised
      `SQLiteConstraintException` because the slot links a task row that does
      not exist; `saveSlot` does not catch it, so it reaches the caller. */
  datatype SaveSlotResult = Success | Error(reason: SaveError) | Conflict(conflictSlot: Slot) | Threw

  /** What `saveSlot` returns, together with the slot table afterwards. */
  datatype Saved = Saved(result: SaveSlotResult, slots: SlotTable)

  /** The validation steps 1, 3 and 4 of `saveSlot`, first failure wins. */
  function Validate(slot: Slot): (r: Option<SaveError>)
    ensures r == Some(EndNotAfterStart) <==> slot.endTimeMillis <= slot.startTimeMillis
    ensures r == Some(CrossesDay) <==>
      slot.startTimeMillis < slot.endTimeMillis && slot.endTimeMillis > DayStart(slot.startTimeMillis) + DAY_MS
    ensures r == Some(MissingTitle) <==>
      && slot.startTimeMillis < slot.endTimeMillis <= DayStart(slot.startTimeMillis) + DAY_MS
      && slot.localTaskId.None? && (slot.customTitle.None? || IsBlank(slot.customTitle.value))
    ensures r.None? <==>
      && slot.startTimeMillis < slot.endTimeMillis <= DayStart(slot.startTimeMillis) + DAY_MS
      && (slot.localTaskId.Some? || (slot.customTitle.Some? && !IsBlank(slot.customTitle.value)))
  {
    if slot.endTimeMillis <= slot.startTimeMillis then Some(EndNotAfterStart)
    else
      var normalizedDate := DayStart(slot.startTimeMillis);
      if slot.startTimeMillis < normalizedDate || slot.endTimeMillis > normalizedDate + DAY_MS then Some(CrossesDay)
      else if slot.localTaskId.None? && Trim(slot.customTitle.GetOr([])) == [] then Some(MissingTitle)
      else None
  }

  /** An end exactly at the next local midnight is accepted. */
  lemma EndAtMidnightAccepted(slot: Slot)
    requires slot.startTimeMillis < slot.endTimeMillis == DayStart(slot.startTimeMillis) + DAY_MS
    requires slot.localTaskId.Some?
    ensures Validate(slot).None?
  {
  }

  /** The id excluded from the conflict check: -1 for a new slot, else itself. */
  function ExcludeId(slot: Slot): int {
    if slot.slotId == 0 then -1 else slot.slotId
  }

  /** Step 6: PendingCreate for a slot never inserted or never uploaded,
      PendingUpdate otherwise. */
  function PendingState(slot: Slot): (r: int)
    ensures r == PENDING_CREATE <==> slot.slotId == 0 || slot.serverSlotId.None?
    ensures r == PENDING_UPDATE <==> slot.slotId != 0 && slot.serverSlotId.Some?
  {
    if slot.slotId == 0 then PENDING_CREATE
    else if slot.serverSlotId.None? then PENDING_CREATE
    else PENDING_UPDATE
  }

  /** The row `saveSlot` writes for a valid slot: its day normalised to the
      start's local midnight, stamped `now`; `rowId` is the id of a new row. */
  function Stored(slot: Slot, now: int, rowId: int): (r: Slot)
    ensures r.slotId == (if slot.slotId == 0 then rowId else slot.slotId)
    ensures r.dateMillis == DayStart(slot.startTimeMillis) && r.updatedTimeMillis == now
    ensures r.createdTimeMillis == (if slot.slotId == 0 then now else slot.createdTimeMillis)
    ensures r.syncState == PendingState(slot)
    ensures r == slot.(slotId := r.slotId, dateMillis := r.dateMillis, updatedTimeMillis := now,
                       createdTimeMillis := r.createdTimeMillis, syncState := r.syncState)
  {
    var finalSlot := slot.(dateMillis := DayStart(slot.startTimeMillis), updatedTimeMillis := now);
    if finalSlot.slotId == 0 then finalSlot.(slotId := rowId, createdTimeMillis := now, syncState := PendingState(slot))
    else finalSlot.(syncState := PendingState(slot))
  }

  /** `saveSlot(slot)`: validate, look for a conflict on the normalised day,
      then insert (slotId 0, new row `rowId`) or update in place; `taskIds`
      are the keys of `tasks`, against which the write checks the link. */
  ghost function SaveSlot(t: SlotTable, taskIds: set<string>, slot: Slot, now: int, rowId: int): (o: Saved)
    requires rowId !in t
    ensures o.result.Error? <==> Validate(slot).Some?
    ensures o.result.Error? ==> o.result.reason == Validate(slot).value && o.slots == t
    ensures o.result.Conflict? <==>
      Validate(slot).None? &&
      AnyConflict(t, slot.ownerUid, DayStart(slot.startTimeMillis), slot.startTimeMillis, slot.endTimeMillis, ExcludeId(slot))
    ensures o.result.Conflict? ==>
      o.slots == t &&
      Some(o.result.conflictSlot) ==
        FindFirstConflict(t, slot.ownerUid, DayStart(slot.startTimeMillis), slot.startTimeMillis, slot.endTimeMillis, ExcludeId(slot))
    ensures o.result.Threw? <==>
      Validate(slot).None? &&
      !AnyConflict(t, slot.ownerUid, DayStart(slot.startTimeMillis), slot.startTimeMillis, slot.endTimeMillis, ExcludeId(slot)) &&
      !LinkResolves(slot, taskIds) && (slot.slotId == 0 || slot.slotId in t)
    ensures o.result.Threw? ==> o.slots == t
    ensures o.result.Success? && slot.slotId == 0 ==>
      o.slots.Keys == t.Keys + {rowId} && o.slots[rowId] == Stored(slot, now, rowId) &&
      forall k :: k in t ==> o.slots[k] == t[k]
    ensures o.result.Success? && slot.slotId != 0 ==>
      o.slots.Keys == t.Keys &&
      (slot.slotId in t ==> o.slots[slot.slotId] == Stored(slot, now, rowId)) &&
      forall k :: k in t && k != slot.slotId ==> o.slots[k] == t[k]
  {
    match Validate(slot)
    case Some(e) => Saved(Error(e), t)
    case None =>
      var date := DayStart(slot.startTimeMillis);
      match FindFirstConflict(t, slot.ownerUid, date, slot.startTimeMillis, slot.endTimeMillis, ExcludeId(slot))
      case Some(c) => Saved(Conflict(c), t)
      case None =>
        var row := Stored(slot, now, rowId);
        var written := if slot.slotId == 0 then ScheduleDao.Insert(t, taskIds, row.(slotId := 0), rowId)
                       else ScheduleDao.Update(t, taskIds, row);
        match written
        case None => Saved(Threw, t)
        case Some(u) => Saved(Success, u)
  }

  /** A save never breaks the foreign key: a table whose links all name task
      rows keeps that property, whatever the verdict. */
  lemma SaveSlotKeepsLinksResolved(t: SlotTable, taskIds: set<string>, slot: Slot, now: int, rowId: int)
    requires rowId !in t && LinksResolve(t, taskIds)
    ensures LinksResolve(SaveSlot(t, taskIds, slot, now, rowId).slots, taskIds)
  {
  }

  /** Saving keeps the table keyed by `slotId` with positive ids. */
  lemma SaveSlotKeepsKeys(t: SlotTable, taskIds: set<string>, slot: Slot, now: int, rowId: int)
    requires rowId !in t && rowId > 0
    requires WellKeyed(t) && PositiveIds(t)
    ensures WellKeyed(SaveSlot(t, taskIds, slot, now, rowId).slots) && PositiveIds(SaveSlot(t, taskIds, slot, now, rowId).slots)
  {
  }

  /** The point of the conflict check: saving never makes two active slots of
      one owner and day overlap. */
  lemma {:induction false} SaveSlotKeepsNoOverlap(t: SlotTable, taskIds: set<string>, slot: Slot, now: int, rowId: int)
    requires rowId !in t
    requires WellKeyed(t) && PositiveIds(t) && NoOverlap(t)
    ensures NoOverlap(SaveSlot(t, taskIds, slot, now, rowId).slots)
  {
    var o := SaveSlot(t, taskIds, slot, now, rowId);
    if o.result.Success? {
      var n := Stored(slot, now, rowId);
      assert !AnyConflict(t, n.ownerUid, n.dateMillis, n.startTimeMillis, n.endTimeMillis, ExcludeId(slot));
      assert forall k :: k in o.slots && k != n.slotId ==> k in t && o.slots[k] == t[k];
      assert n.slotId in o.slots ==> o.slots[n.slotId] == n;
      WriteKeepsNoOverlap(t, o.slots, n, ExcludeId(slot));
    }
  }

  /** Writing a row `n` that conflicts with no other row (every row but `n`'s
      own is looked at) keeps `NoOverlap`. */
  lemma WriteKeepsNoOverlap(t: SlotTable, r: SlotTable, n: Slot, ex: int)
    requires WellKeyed(t) && NoOverlap(t)
    requires forall k :: k in t && k != n.slotId ==> k != ex
    requires !AnyConflict(t, n.ownerUid, n.dateMillis, n.startTimeMillis, n.endTimeMillis, ex)
    requires forall k :: k in r && k != n.slotId ==> k in t && r[k] == t[k]
    requires n.slotId in r ==> r[n.slotId] == n
    ensures NoOverlap(r)
  {
    var id := n.slotId;
    forall k | k in t && k != id
      ensures !(OnDay(n.ownerUid, n.dateMillis, t[k]) && Overlaps(t[k], n.startTimeMillis, n.endTimeMillis))
    {
      assert t[k].slotId == k != ex;
      assert !ConflictFilter(n.ownerUid, n.dateMillis, n.startTimeMillis, n.endTimeMillis, ex)(t[k]);
    }
    forall a, b | a in r && b in r && a != b && OnDay(r[a].ownerUid, r[a].dateMillis, r[b]) && IsActiveSlot(r[a])
      ensures !Overlaps(r[a], r[b].startTimeMillis, r[b].endTimeMillis)
    {
      if a == id {
        assert r[a] == n && r[b] == t[b];
      } else if b == id {
        assert r[b] == n && r[a] == t[a];
        assert OnDay(n.ownerUid, n.dateMillis, t[a]);
      } else {
        assert r[a] == t[a] && r[b] == t[b];
      }
    }
  }

  // ---------------------------------------------------------------------
  // findFirstFreeGapOneHour
  // ---------------------------------------------------------------------

  /** `alignUp(value, step)`: round up to a multiple of `step` with the JVM
      remainder. A negative non-multiple goes one step further than the next
      multiple, because the remainder is then negative. */
  function AlignUp(value: int, step: int): (r: int)
    requires step != 0
    ensures step > 0 ==> r % step == 0 && value <= r
    ensures step > 0 && value >= 0 ==> r < value + step
    ensures step > 0 && value % step == 0 ==> r == value
  {
    var mod := KRem(value, step);
    if step > 0 then
      AlignUpFacts(value, step);
      if mod == 0 then value else value + (step - mod)
    else
      if mod == 0 then value else value + (step - mod)
  }

  /** The arithmetic behind `AlignUp` with a positive step. */
  lemma AlignUpFacts(value: int, step: int)
    requires step > 0
    ensures var mod := KRem(value, step);
      var r := if mod == 0 then value else value + (step - mod);
      r % step == 0 && value <= r && (value >= 0 ==> r < value + step) && (value % step == 0 ==> r == value)
  {
    var mod := KRem(value, step);
    var q := KDiv(value, step);
    KRemZero(value, step);
    if mod != 0 {
      assert value + (step - mod) == step * (q + 1) by {
        assert value == step * q + mod;
      }
      MulDiv(step, q + 1);
    }
  }

  /** What `findFirstFreeGapOneHour` does: a one-hour gap, none, or the
      `ArithmeticException` of `alignUp` with a zero step. */
  datatype GapOutcome = Gap(start: int, end: int) | NoGap | DivisionByZero

  /** The check after the loop. */
  function LastChance(current: int, endLimit: int, dayEnd: int): (r: GapOutcome)
    ensures r.Gap? <==> current <= endLimit && dayEnd - current >= HOUR_MS
    ensures r.Gap? ==> r == Gap(current, current + HOUR_MS)
    ensures !r.DivisionByZero?
  {
    if current <= endLimit && dayEnd - current >= HOUR_MS then Gap(current, current + HOUR_MS) else NoGap
  }

  /** The cursor loop over the day's slots, in start order. */
  function ScanGaps(slots: seq<Slot>, current: int, endLimit: int, step: int, dayEnd: int): (r: GapOutcome)
    ensures r.DivisionByZero? ==> step == 0 && |slots| > 0
    decreases |slots|
  {
    if |slots| == 0 then LastChance(current, endLimit, dayEnd)
    else
      var s := slots[0];
      if s.startTimeMillis - current >= HOUR_MS then Gap(current, current + HOUR_MS)
      else if step == 0 then DivisionByZero
      else
        var next := AlignUp(Max(current, s.endTimeMillis), step);
        if next > endLimit then LastChance(next, endLimit, dayEnd)
        else ScanGaps(slots[1..], next, endLimit, step, dayEnd)
  }

  /** `findFirstFreeGapOneHour` on the slots `getSlotsByDate` returned. */
  function FreeGap(dateMillis: int, slots: seq<Slot>, stepMinutes: int): (r: GapOutcome)
    ensures r.DivisionByZero? ==> stepMinutes == 0 && |slots| > 0
  {
    ScanGaps(slots, dateMillis + 8 * HOUR_MS, dateMillis + 22 * HOUR_MS, stepMinutes * MIN_MS, dateMillis + DAY_MS)
  }

  /** `findFirstFreeGapOneHour(uid, dateMillis, stepMinutes)`: only a zero
      step can throw, and with a positive step a gap found is an hour between
      08:00 and 22:00 that no active slot of that owner and day touches. */
  ghost function FindFirstFreeGapOneHour(t: SlotTable, uid: int, dateMillis: int, stepMinutes: int): (r: GapOutcome)
    ensures r.DivisionByZero? ==> stepMinutes == 0
    ensures stepMinutes > 0 && r.Gap? ==>
      && r.end == r.start + HOUR_MS
      && dateMillis + 8 * HOUR_MS <= r.start <= dateMillis + 22 * HOUR_MS
      && r.end <= dateMillis + DAY_MS
      && forall s :: s in t.Values && OnDay(uid, dateMillis, s) ==> !Overlaps(s, r.start, r.end)
  {
    if stepMinutes > 0 then
      DayGapIsFree(t, uid, dateMillis, stepMinutes);
      FreeGap(dateMillis, GetSlotsByDate(t, uid, dateMillis), stepMinutes)
    else FreeGap(dateMillis, GetSlotsByDate(t, uid, dateMillis), stepMinutes)
  }

  /** A gap the scan finds in the day's slots meets no active slot of the
      table on that day. */
  lemma DayGapIsFree(t: SlotTable, uid: int, dateMillis: int, stepMinutes: int)
    requires stepMinutes > 0
    ensures var r := FreeGap(dateMillis, GetSlotsByDate(t, uid, dateMillis), stepMinutes);
      r.Gap? ==>
        && r.end == r.start + HOUR_MS
        && dateMillis + 8 * HOUR_MS <= r.start <= dateMillis + 22 * HOUR_MS
        && r.end <= dateMillis + DAY_MS
        && forall s :: s in t.Values && OnDay(uid, dateMillis, s) ==> !Overlaps(s, r.start, r.end)
  {
    var slots := GetSlotsByDate(t, uid, dateMillis);
    FreeGapIsFree(dateMillis, slots, stepMinutes);
    var r := FreeGap(dateMillis, slots, stepMinutes);
    if r.Gap? {
      forall s | s in t.Values && OnDay(uid, dateMillis, s) ensures !Overlaps(s, r.start, r.end) {
        var i :| 0 <= i < |slots| && slots[i] == s;
      }
    }
  }

  /** The scan only returns a free hour between the cursor and the end limit. */
  lemma {:induction false} ScanGapsSound(slots: seq<Slot>, current: int, endLimit: int, step: int, dayEnd: int)
    requires step > 0
    requires SortedBy(slots, ByStart)
    requires current <= endLimit && endLimit + HOUR_MS <= dayEnd
    ensures var r := ScanGaps(slots, current, endLimit, step, dayEnd);
      r.Gap? ==>
        && r.end == r.start + HOUR_MS
        && current <= r.start <= endLimit
        && r.end <= dayEnd
        && forall i :: 0 <= i < |slots| ==> !Overlaps(slots[i], r.start, r.end)
    decreases |slots|
  {
    if |slots| > 0 {
      var s := slots[0];
      var r := ScanGaps(slots, current, endLimit, step, dayEnd);
      if s.startTimeMillis - current >= HOUR_MS {
        forall i | 0 <= i < |slots| ensures !Overlaps(slots[i], r.start, r.end) {
          assert i == 0 || ByStart(slots[0], slots[i]);
        }
      } else {
        var next := AlignUp(Max(current, s.endTimeMillis), step);
        if next <= endLimit {
          ScanGapsSound(slots[1..], next, endLimit, step, dayEnd);
          if r.Gap? {
            forall i | 0 <= i < |slots| ensures !Overlaps(slots[i], r.start, r.end) {
              if i > 0 {
                assert slots[i] == slots[1..][i - 1];
              }
            }
          }
        }
      }
    }
  }

  /** A returned gap starts between 08:00 and 22:00, lasts one hour, ends by
      midnight and meets none of the day's slots. */
  lemma FreeGapIsFree(dateMillis: int, slots: seq<Slot>, stepMinutes: int)
    requires stepMinutes > 0
    requires SortedBy(slots, ByStart)
    ensures var r := FreeGap(dateMillis, slots, stepMinutes);
      r.Gap? ==>
        && r.end == r.start + HOUR_MS
        && dateMillis + 8 * HOUR_MS <= r.start <= dateMillis + 22 * HOUR_MS
        && r.end <= dateMillis + DAY_MS
        && forall i :: 0 <= i < |slots| ==> !Overlaps(slots[i], r.start, r.end)
  {
    ScanGapsSound(slots, dateMillis + 8 * HOUR_MS, dateMillis + 22 * HOUR_MS, stepMinutes * MIN_MS, dateMillis + DAY_MS);
  }

  /** A day holding only 08:00-09:30 gets the gap 09:30-10:30 with the
      default step of 30 minutes. */
  lemma FreeGapAfterMorningSlot(dateMillis: int, s: Slot)
    requires IsLocalMidnight(dateMillis)
    requires s.startTimeMillis == dateMillis + 8 * HOUR_MS && s.endTimeMillis == dateMillis + 9 * HOUR_MS + 30 * MIN_MS
    ensures FreeGap(dateMillis, [s], 30) == Gap(dateMillis + 9 * HOUR_MS + 30 * MIN_MS, dateMillis + 10 * HOUR_MS + 30 * MIN_MS)
  {
    var v := dateMillis + 9 * HOUR_MS + 30 * MIN_MS;
    var k := (dateMillis + ZONE_OFFSET_MS) / DAY_MS;
    assert dateMillis + ZONE_OFFSET_MS == DAY_MS * k;
    assert v == (30 * MIN_MS) * (48 * k + 3);
    MulDiv(30 * MIN_MS, 48 * k + 3);
    assert AlignUp(Max(dateMillis + 8 * HOUR_MS, s.endTimeMillis), 30 * MIN_MS) == v;
    assert [s][1..] == [];
    assert ScanGaps([], v, dateMillis + 22 * HOUR_MS, 30 * MIN_MS, dateMillis + DAY_MS) == Gap(v, v + HOUR_MS);
  }

  // ---------------------------------------------------------------------
  // The 4x3 statistics
  // ---------------------------------------------------------------------

  /** Sleep 00-06, Morning 06-12, Afternoon 12-18, Evening 18-24. */
  datatype TimeBucket4 = Sleep | Morning | Afternoon | Evening

  /** Total, task and free milliseconds of one bucket. */
  datatype BucketStats = BucketStats(total: int, task: int, free: int)

  /** `ScheduleStats4x3`, its twelve fields grouped by bucket. */
  datatype Stats4x3 = Stats4x3(sleep: BucketStats, morning: BucketStats, afternoon: BucketStats, evening: BucketStats)

  const ZERO_BUCKET: BucketStats := BucketStats(0, 0, 0)

  /** `ScheduleStats4x3()`: every field 0. */
  const ZERO_STATS: Stats4x3 := Stats4x3(ZERO_BUCKET, ZERO_BUCKET, ZERO_BUCKET, ZERO_BUCKET)

  function BucketOf(st: Stats4x3, b: TimeBucket4): BucketStats {
    match b
    case Sleep => st.sleep
    case Morning => st.morning
    case Afternoon => st.afternoon
    case Evening => st.evening
  }

  /** The local `inc` of `add`: the duration goes to the total and to exactly
      one of task and free. */
  function Inc(b: BucketStats, dur: int, isTask: bool): (r: BucketStats)
    ensures r.total == b.total + dur
    ensures r.task + r.free == b.task + b.free + dur
    ensures isTask ==> r.free == b.free
    ensures !isTask ==> r.task == b.task
  {
    if isTask then BucketStats(b.total + dur, b.task + dur, b.free)
    else BucketStats(b.total + dur, b.task, b.free + dur)
  }

  /** `ScheduleStats4x3.add(bucket, dur, isTask)`: only that bucket changes. */
  function Add(st: Stats4x3, bucket: TimeBucket4, dur: int, isTask: bool): (r: Stats4x3)
    ensures BucketOf(r, bucket) == Inc(BucketOf(st, bucket), dur, isTask)
    ensures forall b :: b != bucket ==> BucketOf(r, b) == BucketOf(st, b)
  {
    match bucket
    case Sleep => st.(sleep := Inc(st.sleep, dur, isTask))
    case Morning => st.(morning := Inc(st.morning, dur, isTask))
    case Afternoon => st.(afternoon := Inc(st.afternoon, dur, isTask))
    case Evening => st.(evening := Inc(st.evening, dur, isTask))
  }

  /** Which column a figure counts: the total, the part credited to tasks,
      or the part credited to free time. */
  datatype Part = Whole | TaskPart | FreePart

  /** The share of a duration `d` that column `p` receives from a task
      segment (`isTask`) or a free one. */
  function Credit(p: Part, isTask: bool, d: int): int {
    match p
    case Whole => d
    case TaskPart => if isTask then d else 0
    case FreePart => if isTask then 0 else d
  }

  /** One column of a bucket. */
  function Column(b: BucketStats, p: Part): int {
    match p
    case Whole => b.total
    case TaskPart => b.task
    case FreePart => b.free
  }

  /** A column summed over the four buckets. */
  function PartTotal(st: Stats4x3, p: Part): int {
    Column(st.sleep, p) + Column(st.morning, p) + Column(st.afternoon, p) + Column(st.evening, p)
  }

  /** A bucket's total is its task part plus its free part. */
  predicate BucketBalanced(b: BucketStats) {
    b.total == b.task + b.free
  }

  /** Every bucket is balanced. */
  predicate Balanced(st: Stats4x3) {
    BucketBalanced(st.sleep) && BucketBalanced(st.morning) && BucketBalanced(st.afternoon) && BucketBalanced(st.evening)
  }

  /** Adding a duration credits it to the bucket's column as `Credit` says
      and keeps every bucket balanced. */
  lemma AddCredits(st: Stats4x3, bucket: TimeBucket4, dur: int, isTask: bool, p: Part)
    ensures Column(BucketOf(Add(st, bucket, dur, isTask), bucket), p) == Column(BucketOf(st, bucket), p) + Credit(p, isTask, dur)
    ensures PartTotal(Add(st, bucket, dur, isTask), p) == PartTotal(st, p) + Credit(p, isTask, dur)
    ensures Balanced(st) ==> Balanced(Add(st, bucket, dur, isTask))
  {
  }

  /** `mergeStats(a, b)`: field by field sum. */
  function MergeStats(a: Stats4x3, b: Stats4x3): (r: Stats4x3)
    ensures forall k, p :: Column(BucketOf(r, k), p) == Column(BucketOf(a, k), p) + Column(BucketOf(b, k), p)
    ensures forall p :: PartTotal(r, p) == PartTotal(a, p) + PartTotal(b, p)
    ensures Balanced(a) && Balanced(b) ==> Balanced(r)
  {
    Stats4x3(
      BucketStats(a.sleep.total + b.sleep.total, a.sleep.task + b.sleep.task, a.sleep.free + b.sleep.free),
      BucketStats(a.morning.total + b.morning.total, a.morning.task + b.morning.task, a.morning.free + b.morning.free),
      BucketStats(a.afternoon.total + b.afternoon.total, a.afternoon.task + b.afternoon.task, a.afternoon.free + b.afternoon.free),
      BucketStats(a.evening.total + b.evening.total, a.evening.task + b.evening.task, a.evening.free + b.evening.free))
  }

  /** Merging is a commutative monoid with the empty statistics as unit. */
  lemma MergeStatsMonoid(a: Stats4x3, b: Stats4x3, c: Stats4x3)
    ensures MergeStats(a, ZERO_STATS) == a && MergeStats(ZERO_STATS, a) == a
    ensures MergeStats(a, b) == MergeStats(b, a)
    ensures MergeStats(MergeStats(a, b), c) == MergeStats(a, MergeStats(b, c))
  {
  }

  /** The bucket of instant `t` on the day anchored at `date`. */
  function BucketAt(date: int, t: int): (b: TimeBucket4)
    ensures b == Sleep <==> t < date + 6 * HOUR_MS
    ensures b == Morning <==> date + 6 * HOUR_MS <= t < date + 12 * HOUR_MS
    ensures b == Afternoon <==> date + 12 * HOUR_MS <= t < date + 18 * HOUR_MS
    ensures b == Evening <==> date + 18 * HOUR_MS <= t
  {
    if t < date + 6 * HOUR_MS then Sleep
    else if t < date + 12 * HOUR_MS then Morning
    else if t < date + 18 * HOUR_MS then Afternoon
    else Evening
  }

  /** The first bucket boundary after `cur` (b4 = next midnight once past b3). */
  function NextBoundary(date: int, cur: int): (r: int)
    ensures r <= date + DAY_MS
    ensures cur < date + DAY_MS ==> cur < r
  {
    if cur < date + 6 * HOUR_MS then date + 6 * HOUR_MS
    else if cur < date + 12 * HOUR_MS then date + 12 * HOUR_MS
    else if cur < date + 18 * HOUR_MS then date + 18 * HOUR_MS
    else date + 24 * HOUR_MS
  }

  /** Every instant of a segment `[cur, nextBoundary)` falls in `cur`'s bucket. */
  lemma SegmentInOneBucket(date: int, cur: int, x: int)
    requires cur <= x < NextBoundary(date, cur)
    ensures BucketAt(date, x) == BucketAt(date, cur)
  {
  }

  /** One pass of the inner `while`: the cursor's next value. */
  function StepCursor(date: int, cur: int, e: int): int {
    Min(e, NextBoundary(date, cur))
  }

  /** The cursor after `n` passes. */
  function CursorAfter(date: int, cur: int, e: int, n: nat): int
    decreases n
  {
    if n == 0 then cur else CursorAfter(date, StepCursor(date, cur, e), e, n - 1)
  }

  /** A slot ending after the next midnight keeps the inner loop running
      forever: the cursor sticks at `date + 24h` and never reaches the end. */
  lemma {:induction false} CursorNeverReachesEnd(date: int, cur: int, e: int, n: nat)
    requires cur < e && e > date + DAY_MS
    ensures CursorAfter(date, cur, e, n) < e
    decreases n
  {
    if n > 0 {
      assert StepCursor(date, cur, e) == NextBoundary(date, cur) <= date + DAY_MS;
      CursorNeverReachesEnd(date, StepCursor(date, cur, e), e, n - 1);
    }
  }

  /** The inner `while (cur < e)` for one slot; `None` when it never ends
      (see `CursorNeverReachesEnd`). */
  function Walk(date: int, cur: int, e: int, isTask: bool, st: Stats4x3): (r: Option<Stats4x3>)
    ensures r.None? <==> cur < e && e > date + DAY_MS
    decreases if e <= date + DAY_MS then e - cur else 0
  {
    if cur >= e then Some(st)
    else if e > date + DAY_MS then None
    else
      var segEnd := Min(e, NextBoundary(date, cur));
      Walk(date, segEnd, e, isTask, Add(st, BucketAt(date, cur), segEnd - cur, isTask))
  }

  /** How much of `[cur, e)` lies in bucket `k` of the day at `date`; the
      sleep bucket reaches back before midnight and the evening bucket
      forward past it, as `bucket(t)` has them. */
  function Portion(date: int, k: TimeBucket4, cur: int, e: int): int {
    match k
    case Sleep => Max(0, Min(e, date + 6 * HOUR_MS) - cur)
    case Morning => Max(0, Min(e, date + 12 * HOUR_MS) - Max(cur, date + 6 * HOUR_MS))
    case Afternoon => Max(0, Min(e, date + 18 * HOUR_MS) - Max(cur, date + 12 * HOUR_MS))
    case Evening => Max(0, e - Max(cur, date + 18 * HOUR_MS))
  }

  /** The four buckets cut every interval without gap or overlap. */
  lemma PortionsCover(date: int, cur: int, e: int)
    requires cur <= e
    ensures Portion(date, Sleep, cur, e) + Portion(date, Morning, cur, e)
          + Portion(date, Afternoon, cur, e) + Portion(date, Evening, cur, e) == e - cur
  {
  }

  /** The first segment of a walk lies in `cur`'s bucket alone. */
  lemma PortionSplit(date: int, k: TimeBucket4, cur: int, e: int)
    requires cur < e <= date + DAY_MS
    ensures var segEnd := Min(e, NextBoundary(date, cur));
      Portion(date, k, cur, e) == (if k == BucketAt(date, cur) then segEnd - cur else 0) + Portion(date, k, segEnd, e)
  {
  }

  /** The walk gives bucket `k` exactly the part of `[cur, e)` inside it,
      in the task or the free column. */
  lemma {:induction false} WalkBucket(date: int, cur: int, e: int, isTask: bool, st: Stats4x3, k: TimeBucket4, p: Part)
    requires cur <= e <= date + DAY_MS
    ensures Walk(date, cur, e, isTask, st).Some?
    ensures Column(BucketOf(Walk(date, cur, e, isTask, st).value, k), p)
         == Column(BucketOf(st, k), p) + Credit(p, isTask, Portion(date, k, cur, e))
    decreases e - cur
  {
    if cur < e {
      var segEnd := Min(e, NextBoundary(date, cur));
      var b := BucketAt(date, cur);
      var st' := Add(st, b, segEnd - cur, isTask);
      assert Walk(date, cur, e, isTask, st) == Walk(date, segEnd, e, isTask, st');
      AddCredits(st, b, segEnd - cur, isTask, p);
      PortionSplit(date, k, cur, e);
      WalkBucket(date, segEnd, e, isTask, st', k, p);
    }
  }

  /** The walk cuts `[cur, e)` into pieces that add up to `e - cur`. */
  lemma {:induction false} WalkConserves(date: int, cur: int, e: int, isTask: bool, st: Stats4x3, p: Part)
    requires cur <= e <= date + DAY_MS
    ensures Walk(date, cur, e, isTask, st).Some?
    ensures PartTotal(Walk(date, cur, e, isTask, st).value, p) == PartTotal(st, p) + Credit(p, isTask, e - cur)
    decreases e - cur
  {
    if cur < e {
      var segEnd := Min(e, NextBoundary(date, cur));
      var st' := Add(st, BucketAt(date, cur), segEnd - cur, isTask);
      assert Walk(date, cur, e, isTask, st) == Walk(date, segEnd, e, isTask, st');
      AddCredits(st, BucketAt(date, cur), segEnd - cur, isTask, p);
      WalkConserves(date, segEnd, e, isTask, st', p);
    }
  }

  /** The walk keeps every bucket balanced. */
  lemma {:induction false} WalkBalanced(date: int, cur: int, e: int, isTask: bool, st: Stats4x3)
    requires cur <= e <= date + DAY_MS && Balanced(st)
    ensures Walk(date, cur, e, isTask, st).Some?
    ensures Balanced(Walk(date, cur, e, isTask, st).value)
    decreases e - cur
  {
    if cur < e {
      var segEnd := Min(e, NextBoundary(date, cur));
      var st' := Add(st, BucketAt(date, cur), segEnd - cur, isTask);
      assert Walk(date, cur, e, isTask, st) == Walk(date, segEnd, e, isTask, st');
      AddCredits(st, BucketAt(date, cur), segEnd - cur, isTask, Whole);
      WalkBalanced(date, segEnd, e, isTask, st');
    }
  }

  /** Milliseconds a joined slot contributes: `(end - start).coerceAtLeast(0)`. */
  function Dur(x: SlotWithTask): nat {
    if x.slot.endTimeMillis > x.slot.startTimeMillis then x.slot.endTimeMillis - x.slot.startTimeMillis else 0
  }

  /** The share of a slot's duration that column `p` counts. */
  function Share(x: SlotWithTask, p: Part): int {
    Credit(p, x.slot.localTaskId.Some?, Dur(x))
  }

  /** Column `p` summed over the slots. */
  function Sum(xs: seq<SlotWithTask>, p: Part): int
    decreases |xs|
  {
    if |xs| == 0 then 0 else Sum(xs[..|xs| - 1], p) + Share(xs[|xs| - 1], p)
  }

  /** Each slot's duration is credited to task or to free. */
  lemma {:induction false} SumSplits(slots: seq<SlotWithTask>)
    ensures Sum(slots, Whole) == Sum(slots, TaskPart) + Sum(slots, FreePart)
    decreases |slots|
  {
    if |slots| > 0 {
      SumSplits(slots[..|slots| - 1]);
    }
  }

  /** A slot whose 4x3 walk terminates: empty, or ending by its day's midnight. */
  predicate FitsDay(date: int, x: SlotWithTask) {
    x.slot.endTimeMillis <= x.slot.startTimeMillis || x.slot.endTimeMillis <= date + DAY_MS
  }

  /** One pass of the outer `for`: an empty slot is skipped, any other is
      walked from its start to its end. */
  function StepSlot(date: int, x: SlotWithTask, st: Stats4x3): Option<Stats4x3> {
    if x.slot.endTimeMillis <= x.slot.startTimeMillis then Some(st)
    else Walk(date, x.slot.startTimeMillis, x.slot.endTimeMillis, x.slot.localTaskId.Some?, st)
  }

  /** `calculate4x3Stats(dateMillis, slots)`: the outer `for` run over the
      slots in order from the empty statistics; `None` when it never returns. */
  function Calculate4x3Stats(dateMillis: int, slots: seq<SlotWithTask>): (r: Option<Stats4x3>)
    ensures r.Some? ==> Balanced(r.value)
    ensures r.Some? ==> forall i :: 0 <= i < |slots| ==> FitsDay(dateMillis, slots[i])
    decreases |slots|
  {
    if |slots| == 0 then Some(ZERO_STATS)
    else
      match Calculate4x3Stats(dateMillis, slots[..|slots| - 1])
      case None => None
      case Some(st) =>
        StepSlotBalanced(dateMillis, slots[|slots| - 1], st);
        StepSlot(dateMillis, slots[|slots| - 1], st)
  }

  /** One pass of the outer `for` keeps the buckets balanced, and returns
      only for a slot that fits its day. */
  lemma StepSlotBalanced(date: int, x: SlotWithTask, st: Stats4x3)
    requires Balanced(st)
    ensures var r := StepSlot(date, x, st);
      r.Some? ==> Balanced(r.value) && FitsDay(date, x)
  {
    if x.slot.startTimeMillis < x.slot.endTimeMillis <= date + DAY_MS {
      WalkBalanced(date, x.slot.startTimeMillis, x.slot.endTimeMillis, x.slot.localTaskId.Some?, st);
    }
  }

  /** The statistics exist exactly when every slot fits its day. */
  lemma {:induction false} Calculate4x3StatsDefined(dateMillis: int, slots: seq<SlotWithTask>)
    ensures Calculate4x3Stats(dateMillis, slots).Some? <==> forall i :: 0 <= i < |slots| ==> FitsDay(dateMillis, slots[i])
    decreases |slots|
  {
    if |slots| > 0 {
      var init := slots[..|slots| - 1];
      var x := slots[|slots| - 1];
      assert forall i :: 0 <= i < |init| ==> init[i] == slots[i];
      Calculate4x3StatsDefined(dateMillis, init);
      match Calculate4x3Stats(dateMillis, init)
      case None =>
      case Some(st) =>
        assert Calculate4x3Stats(dateMillis, slots) == StepSlot(dateMillis, x, st);
        assert StepSlot(dateMillis, x, st).Some? <==> FitsDay(dateMillis, x);
    }
  }

  /** Each column of the statistics, over all four buckets, is that column
      summed over the slots, and every bucket stays balanced. */
  lemma {:induction false} Calculate4x3StatsTotals(dateMillis: int, slots: seq<SlotWithTask>, p: Part)
    ensures var r := Calculate4x3Stats(dateMillis, slots);
      r.Some? ==> PartTotal(r.value, p) == Sum(slots, p) && Balanced(r.value)
    decreases |slots|
  {
    if |slots| > 0 {
      var init := slots[..|slots| - 1];
      var x := slots[|slots| - 1];
      Calculate4x3StatsTotals(dateMillis, init, p);
      var prev := Calculate4x3Stats(dateMillis, init);
      assert Sum(slots, p) == Sum(init, p) + Share(x, p);
      if prev.Some? {
        assert Calculate4x3Stats(dateMillis, slots) == StepSlot(dateMillis, x, prev.value);
        if x.slot.startTimeMillis < x.slot.endTimeMillis <= dateMillis + DAY_MS {
          WalkConserves(dateMillis, x.slot.startTimeMillis, x.slot.endTimeMillis, x.slot.localTaskId.Some?, prev.value, p);
          WalkBalanced(dateMillis, x.slot.startTimeMillis, x.slot.endTimeMillis, x.slot.localTaskId.Some?, prev.value);
        }
      }
    }
  }

  /** Column `p` of bucket `k` credited by one slot. */
  function SlotPortion(date: int, x: SlotWithTask, k: TimeBucket4, p: Part): int {
    if x.slot.endTimeMillis <= x.slot.startTimeMillis then 0
    else Credit(p, x.slot.localTaskId.Some?, Portion(date, k, x.slot.startTimeMillis, x.slot.endTimeMillis))
  }

  /** Column `p` of bucket `k` credited by all the slots. */
  function BucketSum(date: int, xs: seq<SlotWithTask>, k: TimeBucket4, p: Part): int
    decreases |xs|
  {
    if |xs| == 0 then 0 else BucketSum(date, xs[..|xs| - 1], k, p) + SlotPortion(date, xs[|xs| - 1], k, p)
  }

  /** Every cell of the 4x3 table holds the time the slots spend in that
      bucket, in that column. */
  lemma {:induction false} Calculate4x3StatsBuckets(dateMillis: int, slots: seq<SlotWithTask>, k: TimeBucket4, p: Part)
    ensures var r := Calculate4x3Stats(dateMillis, slots);
      r.Some? ==> Column(BucketOf(r.value, k), p) == BucketSum(dateMillis, slots, k, p)
    decreases |slots|
  {
    if |slots| > 0 {
      var init := slots[..|slots| - 1];
      var x := slots[|slots| - 1];
      Calculate4x3StatsBuckets(dateMillis, init, k, p);
      var prev := Calculate4x3Stats(dateMillis, init);
      if prev.Some? && x.slot.startTimeMillis < x.slot.endTimeMillis <= dateMillis + DAY_MS {
        WalkBucket(dateMillis, x.slot.startTimeMillis, x.slot.endTimeMillis, x.slot.localTaskId.Some?, prev.value, k, p);
      }
    }
  }

  /** A task slot 05:00-07:00 puts one hour in Sleep and one in Morning. */
  lemma SlotAcrossSixOClock(dateMillis: int, x: SlotWithTask)
    requires x.slot.startTimeMillis == dateMillis + 5 * HOUR_MS && x.slot.endTimeMillis == dateMillis + 7 * HOUR_MS
    requires x.slot.localTaskId.Some?
    ensures Calculate4x3Stats(dateMillis, [x]).Some?
    ensures Calculate4x3Stats(dateMillis, [x]).value.sleep == BucketStats(HOUR_MS, HOUR_MS, 0)
    ensures Calculate4x3Stats(dateMillis, [x]).value.morning == BucketStats(HOUR_MS, HOUR_MS, 0)
    ensures Calculate4x3Stats(dateMillis, [x]).value.afternoon == ZERO_BUCKET
    ensures Calculate4x3Stats(dateMillis, [x]).value.evening == ZERO_BUCKET
  {
    assert [x][..0] == [];
    WalkAcrossSix(dateMillis, ZERO_STATS);
    var st1 := Add(ZERO_STATS, Sleep, HOUR_MS, true);
    var st2 := Add(st1, Morning, HOUR_MS, true);
    assert st1 == ZERO_STATS.(sleep := BucketStats(HOUR_MS, HOUR_MS, 0));
    assert st2 == st1.(morning := BucketStats(HOUR_MS, HOUR_MS, 0));
    assert StepSlot(dateMillis, x, ZERO_STATS) == Some(st2);
    assert Calculate4x3Stats(dateMillis, [x]) == Some(st2);
  }

  /** The two segments of a task walk from 05:00 to 07:00. */
  lemma WalkAcrossSix(date: int, st: Stats4x3)
    ensures Walk(date, date + 5 * HOUR_MS, date + 7 * HOUR_MS, true, st)
         == Some(Add(Add(st, Sleep, HOUR_MS, true), Morning, HOUR_MS, true))
  {
    var st1 := Add(st, Sleep, HOUR_MS, true);
    var st2 := Add(st1, Morning, HOUR_MS, true);
    assert Walk(date, date + 7 * HOUR_MS, date + 7 * HOUR_MS, true, st2) == Some(st2);
    assert Walk(date, date + 6 * HOUR_MS, date + 7 * HOUR_MS, true, st1) == Some(st2);
  }

  // ---------------------------------------------------------------------
  // summarizeForAnalysis
  // ---------------------------------------------------------------------

  datatype AnalysisSummary = AnalysisSummary(totalMs: int, taskMs: int, freeMs: int, stats4x3: Stats4x3)

  /** `totalMs`, `taskMs` or `freeMs`. */
  function Figure(a: AnalysisSummary, p: Part): int {
    match p
    case Whole => a.totalMs
    case TaskPart => a.taskMs
    case FreePart => a.freeMs
  }

  /** One entry of `groupBy { it.slot.dateMillis }`. */
  datatype Group = Group(day: int, members: seq<SlotWithTask>)

  /** Adds one slot to a `groupBy` result: appended to the group of its day,
      or a new group at the end (the map keeps first-seen order). */
  function AddToGroups(gs: seq<Group>, x: SlotWithTask): (r: seq<Group>)
    ensures |r| == |gs| || |r| == |gs| + 1
    decreases |gs|
  {
    if |gs| == 0 then [Group(x.slot.dateMillis, [x])]
    else if gs[0].day == x.slot.dateMillis then [gs[0].(members := gs[0].members + [x])] + gs[1..]
    else [gs[0]] + AddToGroups(gs[1..], x)
  }

  /** `slots.groupBy { it.slot.dateMillis }` */
  function GroupByDate(slots: seq<SlotWithTask>): seq<Group>
    decreases |slots|
  {
    if |slots| == 0 then [] else AddToGroups(GroupByDate(slots[..|slots| - 1]), slots[|slots| - 1])
  }

  /** Every member of a group has the group's day. */
  predicate GroupsKeyed(gs: seq<Group>) {
    forall i, j :: 0 <= i < |gs| && 0 <= j < |gs[i].members| ==> gs[i].members[j].slot.dateMillis == gs[i].day
  }

  /** No two groups share a day. */
  predicate GroupsDistinct(gs: seq<Group>) {
    forall i, j :: 0 <= i < j < |gs| ==> gs[i].day != gs[j].day
  }

  /** Column `p` summed over all groups. */
  function GroupsSum(gs: seq<Group>, p: Part): int
    decreases |gs|
  {
    if |gs| == 0 then 0 else Sum(gs[0].members, p) + GroupsSum(gs[1..], p)
  }

  /** Slots of all groups, group by group. */
  function Flatten(gs: seq<Group>): seq<SlotWithTask>
    decreases |gs|
  {
    if |gs| == 0 then [] else gs[0].members + Flatten(gs[1..])
  }

  lemma {:induction false} AddToGroupsKeyed(gs: seq<Group>, x: SlotWithTask)
    requires GroupsKeyed(gs) && GroupsDistinct(gs)
    ensures GroupsKeyed(AddToGroups(gs, x)) && GroupsDistinct(AddToGroups(gs, x))
    ensures forall i :: 0 <= i < |AddToGroups(gs, x)| ==>
      AddToGroups(gs, x)[i].day == x.slot.dateMillis || exists j :: 0 <= j < |gs| && gs[j].day == AddToGroups(gs, x)[i].day
    decreases |gs|
  {
    var r := AddToGroups(gs, x);
    if |gs| > 0 && gs[0].day != x.slot.dateMillis {
      var rest := gs[1..];
      assert forall i :: 0 <= i < |rest| ==> rest[i] == gs[i + 1];
      AddToGroupsKeyed(rest, x);
      assert forall i :: 0 < i < |r| ==> r[i] == AddToGroups(rest, x)[i - 1];
      forall i | 0 < i < |r| ensures r[i].day != r[0].day {
        var d := AddToGroups(rest, x)[i - 1].day;
        if d != x.slot.dateMillis {
          var j :| 0 <= j < |rest| && rest[j].day == d;
        }
      }
    } else if |gs| > 0 {
      assert forall i :: 0 < i < |r| ==> r[i] == gs[i];
    }
  }

  lemma {:induction false} AddToGroupsSum(gs: seq<Group>, x: SlotWithTask, p: Part)
    ensures GroupsSum(AddToGroups(gs, x), p) == GroupsSum(gs, p) + Share(x, p)
    decreases |gs|
  {
    var r := AddToGroups(gs, x);
    if |gs| == 0 {
      assert r[1..] == [];
      assert [x][..0] == [];
      assert Sum([x], p) == Share(x, p);
    } else if gs[0].day == x.slot.dateMillis {
      assert r[1..] == gs[1..];
      assert (gs[0].members + [x])[..|gs[0].members|] == gs[0].members;
    } else {
      assert r[1..] == AddToGroups(gs[1..], x);
      AddToGroupsSum(gs[1..], x, p);
    }
  }

  lemma {:induction false} AddToGroupsFlatten(gs: seq<Group>, x: SlotWithTask)
    ensures multiset(Flatten(AddToGroups(gs, x))) == multiset(Flatten(gs)) + multiset{x}
    decreases |gs|
  {
    var r := AddToGroups(gs, x);
    if |gs| == 0 {
      assert r[1..] == [];
      assert Flatten(r) == [x] + Flatten(r[1..]);
    } else if gs[0].day == x.slot.dateMillis {
      assert r[1..] == gs[1..];
      assert Flatten(r) == gs[0].members + [x] + Flatten(gs[1..]);
    } else {
      assert r[1..] == AddToGroups(gs[1..], x);
      AddToGroupsFlatten(gs[1..], x);
    }
  }

  /** `groupBy` puts every slot in the one group of its day: groups are keyed
      by day, days are distinct, and nothing is lost or duplicated. */
  lemma {:induction false} GroupByDateShape(slots: seq<SlotWithTask>)
    ensures GroupsKeyed(GroupByDate(slots)) && GroupsDistinct(GroupByDate(slots))
    ensures multiset(Flatten(GroupByDate(slots))) == multiset(slots)
    decreases |slots|
  {
    if |slots| > 0 {
      var init := slots[..|slots| - 1];
      var x := slots[|slots| - 1];
      GroupByDateShape(init);
      AddToGroupsKeyed(GroupByDate(init), x);
      AddToGroupsFlatten(GroupByDate(init), x);
      assert slots == init + [x];
    }
  }

  /** Sums over the groups are sums over the slots. */
  lemma {:induction false} GroupByDateSum(slots: seq<SlotWithTask>, p: Part)
    ensures GroupsSum(GroupByDate(slots), p) == Sum(slots, p)
    decreases |slots|
  {
    if |slots| > 0 {
      var init := slots[..|slots| - 1];
      GroupByDateSum(init, p);
      AddToGroupsSum(GroupByDate(init), slots[|slots| - 1], p);
    }
  }

  /** The body of `for ((day0, daySlots) in grouped)`. */
  function AddGroup(acc: AnalysisSummary, g: Group): Option<AnalysisSummary> {
    match Calculate4x3Stats(g.day, g.members)
    case None => None
    case Some(st) =>
      Some(AnalysisSummary(
        acc.totalMs + Sum(g.members, Whole),
        acc.taskMs + Sum(g.members, TaskPart),
        acc.freeMs + Sum(g.members, FreePart),
        MergeStats(acc.stats4x3, st)))
  }

  /** The loop over the groups, in order, from all-zero figures. */
  function SummarizeGroups(gs: seq<Group>): Option<AnalysisSummary>
    decreases |gs|
  {
    if |gs| == 0 then Some(AnalysisSummary(0, 0, 0, ZERO_STATS))
    else
      match SummarizeGroups(gs[..|gs| - 1])
      case None => None
      case Some(acc) => AddGroup(acc, gs[|gs| - 1])
  }

  /** `summarizeForAnalysis(slots)`; `None` when `calculate4x3Stats` would
      never return for one of the days. */
  function SummarizeForAnalysis(slots: seq<SlotWithTask>): (r: Option<AnalysisSummary>)
    ensures r.Some? ==>
      && r.value.totalMs == Sum(slots, Whole)
      && r.value.taskMs == Sum(slots, TaskPart)
      && r.value.freeMs == Sum(slots, FreePart)
      && r.value.totalMs == r.value.taskMs + r.value.freeMs
  {
    var gs := GroupByDate(slots);
    SummarizeGroupsTotals(gs, Whole);
    SummarizeGroupsTotals(gs, TaskPart);
    SummarizeGroupsTotals(gs, FreePart);
    GroupByDateSum(slots, Whole);
    GroupByDateSum(slots, TaskPart);
    GroupByDateSum(slots, FreePart);
    SumSplits(slots);
    SummarizeGroups(gs)
  }

  /** Every slot of every group fits the group's day. */
  predicate GroupsFit(gs: seq<Group>) {
    forall i, j :: 0 <= i < |gs| && 0 <= j < |gs[i].members| ==> FitsDay(gs[i].day, gs[i].members[j])
  }

  /** Every slot of one group fits the group's day. */
  predicate GroupFits(g: Group) {
    forall j :: 0 <= j < |g.members| ==> FitsDay(g.day, g.members[j])
  }

  lemma {:induction false} GroupsSumSnoc(gs: seq<Group>, g: Group, p: Part)
    ensures GroupsSum(gs + [g], p) == GroupsSum(gs, p) + Sum(g.members, p)
    decreases |gs|
  {
    if |gs| == 0 {
      assert (gs + [g])[1..] == [];
    } else {
      assert (gs + [g])[1..] == gs[1..] + [g];
      GroupsSumSnoc(gs[1..], g, p);
    }
  }

  lemma {:induction false} SummarizeGroupsDefined(gs: seq<Group>)
    ensures SummarizeGroups(gs).Some? <==> GroupsFit(gs)
    decreases |gs|
  {
    if |gs| > 0 {
      var init := gs[..|gs| - 1];
      var g := gs[|gs| - 1];
      SummarizeGroupsDefined(init);
      Calculate4x3StatsDefined(g.day, g.members);
      GroupsFitSnoc(gs);
      match SummarizeGroups(init)
      case None =>
      case Some(acc) =>
        assert SummarizeGroups(gs) == AddGroup(acc, g);
        assert AddGroup(acc, g).Some? <==> Calculate4x3Stats(g.day, g.members).Some?;
    }
  }

  /** A non-empty run of groups fits exactly when its front does and every
      slot of the last group fits that group's day. */
  lemma GroupsFitSnoc(gs: seq<Group>)
    requires |gs| > 0
    ensures GroupsFit(gs) <==>
      GroupsFit(gs[..|gs| - 1]) && GroupFits(gs[|gs| - 1])
  {
    var init := gs[..|gs| - 1];
    assert forall i :: 0 <= i < |init| ==> init[i] == gs[i];
  }

  lemma {:induction false} SummarizeGroupsTotals(gs: seq<Group>, p: Part)
    ensures var r := SummarizeGroups(gs);
      r.Some? ==>
        && Figure(r.value, p) == GroupsSum(gs, p)
        && PartTotal(r.value.stats4x3, p) == GroupsSum(gs, p)
        && Balanced(r.value.stats4x3)
    decreases |gs|
  {
    if |gs| > 0 {
      var init := gs[..|gs| - 1];
      var g := gs[|gs| - 1];
      assert gs == init + [g];
      SummarizeGroupsTotals(init, p);
      GroupsSumSnoc(init, g, p);
      match SummarizeGroups(init)
      case None =>
      case Some(acc) =>
        assert SummarizeGroups(gs) == AddGroup(acc, g);
        AddGroupTotals(acc, g, p);
    }
  }

  /** One group adds its column sum to the figure and to the table, and
      keeps the table balanced. */
  lemma AddGroupTotals(acc: AnalysisSummary, g: Group, p: Part)
    requires Balanced(acc.stats4x3)
    ensures var r := AddGroup(acc, g);
      r.Some? ==>
        && Figure(r.value, p) == Figure(acc, p) + Sum(g.members, p)
        && PartTotal(r.value.stats4x3, p) == PartTotal(acc.stats4x3, p) + Sum(g.members, p)
        && Balanced(r.value.stats4x3)
  {
    match Calculate4x3Stats(g.day, g.members)
    case None =>
    case Some(st) =>
      Calculate4x3StatsTotals(g.day, g.members, p);
  }

  /** The groups all fit their day exactly when every slot fits its own. */
  lemma FitsEverySlot(slots: seq<SlotWithTask>)
    ensures GroupsFit(GroupByDate(slots)) <==> forall i :: 0 <= i < |slots| ==> FitsDay(slots[i].slot.dateMillis, slots[i])
  {
    var gs := GroupByDate(slots);
    GroupByDateShape(slots);
    var flat := Flatten(gs);
    FlattenMembers(gs);
    if GroupsFit(gs) {
      forall i | 0 <= i < |slots| ensures FitsDay(slots[i].slot.dateMillis, slots[i]) {
        assert slots[i] in multiset(slots);
        assert slots[i] in multiset(flat);
        var a, b :| 0 <= a < |gs| && 0 <= b < |gs[a].members| && gs[a].members[b] == slots[i];
      }
    }
    if forall i :: 0 <= i < |slots| ==> FitsDay(slots[i].slot.dateMillis, slots[i]) {
      forall a, b | 0 <= a < |gs| && 0 <= b < |gs[a].members| ensures FitsDay(gs[a].day, gs[a].members[b]) {
        var y := gs[a].members[b];
        assert y in multiset(flat);
        assert y in multiset(slots);
        var i :| 0 <= i < |slots| && slots[i] == y;
      }
    }
  }

  /** Membership in the flattened groups is membership in some group. */
  lemma {:induction false} FlattenMembers(gs: seq<Group>)
    ensures forall y :: y in multiset(Flatten(gs)) <==>
      exists a, b :: 0 <= a < |gs| && 0 <= b < |gs[a].members| && gs[a].members[b] == y
    decreases |gs|
  {
    if |gs| > 0 {
      FlattenMembers(gs[1..]);
      forall y ensures y in multiset(Flatten(gs)) <==>
        exists a, b :: 0 <= a < |gs| && 0 <= b < |gs[a].members| && gs[a].members[b] == y
      {
        assert Flatten(gs) == gs[0].members + Flatten(gs[1..]);
        if y in multiset(gs[0].members) {
          assert y in gs[0].members;
          var b :| 0 <= b < |gs[0].members| && gs[0].members[b] == y;
        } else if y in multiset(Flatten(gs[1..])) {
          var a, b :| 0 <= a < |gs[1..]| && 0 <= b < |gs[1..][a].members| && gs[1..][a].members[b] == y;
          assert gs[a + 1] == gs[1..][a];
        }
        if exists a, b :: 0 <= a < |gs| && 0 <= b < |gs[a].members| && gs[a].members[b] == y {
          var a, b :| 0 <= a < |gs| && 0 <= b < |gs[a].members| && gs[a].members[b] == y;
          if a == 0 {
            assert y in gs[0].members;
          } else {
            assert gs[1..][a - 1] == gs[a];
          }
        }
      }
    }
  }

  /** The summary exists exactly when every slot ends by its own day's
      midnight (or is empty). */
  lemma SummarizeDefined(slots: seq<SlotWithTask>)
    ensures SummarizeForAnalysis(slots).Some? <==> forall i :: 0 <= i < |slots| ==> FitsDay(slots[i].slot.dateMillis, slots[i])
  {
    SummarizeGroupsDefined(GroupByDate(slots));
    FitsEverySlot(slots);
  }

  /** `totalMs`, `taskMs` and `freeMs` are the slot durations summed, the 4x3
      table carries the same three figures, and total = task + free. */
  lemma SummarizeTotals(slots: seq<SlotWithTask>, p: Part)
    ensures var r := SummarizeForAnalysis(slots);
      r.Some? ==>
        && Figure(r.value, p) == Sum(slots, p)
        && PartTotal(r.value.stats4x3, p) == Figure(r.value, p)
        && r.value.totalMs == r.value.taskMs + r.value.freeMs
        && Balanced(r.value.stats4x3)
  {
    var gs := GroupByDate(slots);
    SummarizeGroupsTotals(gs, p);
    SummarizeGroupsTotals(gs, Whole);
    SummarizeGroupsTotals(gs, TaskPart);
    SummarizeGroupsTotals(gs, FreePart);
    GroupByDateSum(slots, p);
    GroupByDateSum(slots, Whole);
    GroupByDateSum(slots, TaskPart);
    GroupByDateSum(slots, FreePart);
    SumSplits(slots);
  }
}
