/** `ScheduleDao`: queries and writes on `schedule_slots`, plus the
    `ON DELETE SET NULL` rule of its foreign key into `tasks`. The table is a
    map from `slotId` to row. */
module ScheduleDao {
  import opened Wrappers
  import opened Text
  import opened Entities
  import opened Rows
  import TaskDao

  type SlotTable = map<int, Slot>

  predicate WellKeyed(t: SlotTable) {
    forall k :: k in t ==> t[k].slotId == k
  }

  /** Row ids SQLite hands out are positive. */
  predicate PositiveIds(t: SlotTable) {
    forall k :: k in t ==> k > 0
  }

  /** An active slot of `uid` on the day anchored at `date`. */
  predicate OnDay(uid: int, date: int, s: Slot) {
    s.ownerUid == uid && s.dateMillis == date && IsActiveSlot(s)
  }

  /** Half-open overlap of `[s.start, s.end)` with `[newStart, newEnd)`. */
  predicate Overlaps(s: Slot, newStart: int, newEnd: int) {
    s.startTimeMillis < newEnd && newStart < s.endTimeMillis
  }

  /** The WHERE clause of `findFirstConflict`. */
  predicate ConflictsWith(uid: int, date: int, newStart: int, newEnd: int, excludeSlotId: int, s: Slot) {
    OnDay(uid, date, s) && Overlaps(s, newStart, newEnd) && s.slotId != excludeSlotId
  }

  /** No two active slots of the same owner and day intersect. */
  predicate NoOverlap(t: SlotTable) {
    forall a, b :: a in t && b in t && a != b && OnDay(t[a].ownerUid, t[a].dateMillis, t[b]) && IsActiveSlot(t[a]) ==>
      !Overlaps(t[a], t[b].startTimeMillis, t[b].endTimeMillis)
  }

  /** `ORDER BY startTimeMillis ASC` */
  predicate ByStart(a: Slot, b: Slot) {
    a.startTimeMillis <= b.startTimeMillis
  }

  /** `ORDER BY s.startTimeMillis ASC` on joined rows. */
  predicate JoinedByStart(a: SlotWithTask, b: SlotWithTask) {
    a.slot.startTimeMillis <= b.slot.startTimeMillis
  }

  /** `ORDER BY s.dateMillis ASC, s.startTimeMillis ASC` */
  predicate ByDateThenStart(a: Slot, b: Slot) {
    a.dateMillis < b.dateMillis || (a.dateMillis == b.dateMillis && a.startTimeMillis <= b.startTimeMillis)
  }

  predicate JoinedByDateThenStart(a: SlotWithTask, b: SlotWithTask) {
    ByDateThenStart(a.slot, b.slot)
  }

  lemma ByStartIsPreorder()
    ensures TotalPreorder(ByStart)
  {
  }

  lemma ByDateThenStartIsPreorder()
    ensures TotalPreorder(ByDateThenStart)
  {
  }

  lemma JoinedByStartIsPreorder()
    ensures TotalPreorder(JoinedByStart)
  {
  }

  lemma JoinedByDateThenStartIsPreorder()
    ensures TotalPreorder(JoinedByDateThenStart)
  {
  }

  /** `getSlotsByDate(uid, date)` */
  ghost function GetSlotsByDate(t: SlotTable, uid: int, date: int): (r: seq<Slot>)
    ensures SortedBy(r, ByStart)
    ensures forall s :: s in r <==> s in t.Values && s.ownerUid == uid && s.dateMillis == date && s.deletedTimeMillis.None?
    ensures |r| == Count(t, s => OnDay(uid, date, s))
  {
    ByStartIsPreorder();
    SelectMembers(t, s => OnDay(uid, date, s), ByStart);
    Select(t, s => OnDay(uid, date, s), ByStart)
  }

  /** The WHERE clause of `findFirstConflict` as a filter. */
  function ConflictFilter(uid: int, date: int, newStart: int, newEnd: int, excludeSlotId: int): Slot -> bool {
    (s: Slot) => ConflictsWith(uid, date, newStart, newEnd, excludeSlotId, s)
  }

  /** Some active slot of the owner and day, other than `excludeSlotId`,
      overlaps `[newStart, newEnd)`. */
  predicate AnyConflict(t: SlotTable, uid: int, date: int, newStart: int, newEnd: int, excludeSlotId: int) {
    Any(t, ConflictFilter(uid, date, newStart, newEnd, excludeSlotId))
  }

  /** `findFirstConflict(...)`: the earliest-starting active slot of the owner and
      day that overlaps `[newStart, newEnd)`, other than `excludeSlotId`. */
  ghost function FindFirstConflict(t: SlotTable, uid: int, date: int, newStart: int, newEnd: int,
                                   excludeSlotId: int): (r: Option<Slot>)
    ensures r.None? <==> !AnyConflict(t, uid, date, newStart, newEnd, excludeSlotId)
    ensures r.Some? ==> r.value in t.Values && ConflictsWith(uid, date, newStart, newEnd, excludeSlotId, r.value)
    ensures r.Some? ==> forall k :: k in t && ConflictsWith(uid, date, newStart, newEnd, excludeSlotId, t[k]) ==>
                          r.value.startTimeMillis <= t[k].startTimeMillis
  {
    ByStartIsPreorder();
    var keep := ConflictFilter(uid, date, newStart, newEnd, excludeSlotId);
    var cs := Select(t, keep, ByStart);
    SelectEmpty(t, keep, ByStart);
    if |cs| == 0 then None
    else
      SelectRowIsKept(t, keep, ByStart, 0);
      assert forall k :: k in t && keep(t[k]) ==> ByStart(cs[0], t[k]) by {
        forall k | k in t && keep(t[k]) ensures ByStart(cs[0], t[k]) {
          SelectFirstLeast(t, keep, ByStart, k);
        }
      }
      Some(cs[0])
  }

  /** The task a slot links to, if that row exists (`LEFT JOIN tasks t ON
      s.localTaskId = t.localId`). */
  function LinkedTask(s: Slot, tasks: TaskDao.TaskTable): (r: Option<Task>)
    ensures r.None? <==> s.localTaskId.None? || s.localTaskId.value !in tasks
    ensures r.Some? ==> r.value == tasks[s.localTaskId.value]
  {
    if s.localTaskId.Some? && s.localTaskId.value in tasks then Some(tasks[s.localTaskId.value]) else None
  }

  /** One joined row. */
  function Join(s: Slot, tasks: TaskDao.TaskTable): (r: SlotWithTask)
    ensures r.slot == s
    ensures r.taskTitle.None? <==> LinkedTask(s, tasks).None?
    ensures r.taskTitle.Some? ==> r.taskTitle.value == LinkedTask(s, tasks).value.title
    ensures r.taskQuadrant.Some? <==> r.taskTitle.Some?
    ensures r.taskQuadrant.Some? ==> r.taskQuadrant.value == LinkedTask(s, tasks).value.quadrant
  {
    match LinkedTask(s, tasks)
    case Some(x) => SlotWithTask(s, Some(x.title), Some(x.quadrant))
    case None => SlotWithTask(s, None, None)
  }

  /** Every slot row joined with its task, under the slot's key. */
  function JoinTable(slots: SlotTable, tasks: TaskDao.TaskTable): (r: map<int, SlotWithTask>)
    ensures r.Keys == slots.Keys
    ensures forall k :: k in slots ==> r[k] == Join(slots[k], tasks)
  {
    map k | k in slots :: Join(slots[k], tasks)
  }

  /** A joined row is the join of one of the slots. */
  lemma JoinedRow(slots: SlotTable, tasks: TaskDao.TaskTable, v: SlotWithTask)
    requires v in JoinTable(slots, tasks).Values
    ensures v == Join(v.slot, tasks) && v.slot in slots.Values
  {
    var jt := JoinTable(slots, tasks);
    KeyOfValue(jt, v);
    forall k | k in jt && jt[k] == v ensures v == Join(v.slot, tasks) && v.slot in slots.Values {
      assert slots[k] in slots.Values;
    }
  }

  /** Listing a filtered join: each entry joins a slot the filter keeps, and
      every kept slot is listed. */
  lemma SelectJoined(slots: SlotTable, tasks: TaskDao.TaskTable, keep: Slot -> bool,
                     le: (SlotWithTask, SlotWithTask) -> bool)
    requires TotalPreorder(le)
    ensures var r := Select(JoinTable(slots, tasks), (j: SlotWithTask) => keep(j.slot), le);
      && (forall i :: 0 <= i < |r| ==> r[i] == Join(r[i].slot, tasks) && r[i].slot in slots.Values && keep(r[i].slot))
      && (forall k :: k in slots && keep(slots[k]) ==> exists i :: 0 <= i < |r| && r[i].slot == slots[k])
  {
    var jt := JoinTable(slots, tasks);
    var jkeep := (j: SlotWithTask) => keep(j.slot);
    var r := Select(jt, jkeep, le);
    forall i | 0 <= i < |r| ensures r[i] == Join(r[i].slot, tasks) && r[i].slot in slots.Values && keep(r[i].slot) {
      SelectRowIsKept(jt, jkeep, le, i);
      JoinedRow(slots, tasks, r[i]);
    }
    forall k | k in slots && keep(slots[k]) ensures exists i :: 0 <= i < |r| && r[i].slot == slots[k] {
      SelectHasRow(jt, jkeep, le, k);
      var i :| 0 <= i < |r| && r[i] == jt[k];
      assert r[i].slot == slots[k];
    }
  }

  /** `observeSlotsWithTask(uid, date)`: the day's active slots joined with
      their task's title and quadrant, by start time; the title is null exactly
      when no task row matches. */
  ghost function ObserveSlotsWithTask(slots: SlotTable, tasks: TaskDao.TaskTable, uid: int, date: int): (r: seq<SlotWithTask>)
    ensures SortedBy(r, JoinedByStart)
    ensures forall i :: 0 <= i < |r| ==> OnDay(uid, date, r[i].slot) && r[i].slot in slots.Values
    ensures forall k :: k in slots && OnDay(uid, date, slots[k]) ==> exists i :: 0 <= i < |r| && r[i].slot == slots[k]
    ensures forall i :: 0 <= i < |r| ==>
      (r[i].taskTitle.None? <==> r[i].slot.localTaskId.None? || r[i].slot.localTaskId.value !in tasks)
    ensures forall i :: 0 <= i < |r| ==> r[i] == Join(r[i].slot, tasks)
  {
    JoinedByStartIsPreorder();
    var keep := s => OnDay(uid, date, s);
    SelectJoined(slots, tasks, keep, JoinedByStart);
    Select(JoinTable(slots, tasks), (j: SlotWithTask) => keep(j.slot), JoinedByStart)
  }

  /** The keyword filter of the analysis query: task title, task detail or the
      slot's own title contains the keyword; a null or empty keyword keeps all. */
  predicate KeywordHit(s: Slot, tasks: TaskDao.TaskTable, keyword: Option<string>) {
    || keyword.None?
    || keyword.value == []
    || (LinkedTask(s, tasks).Some? && Contains(LinkedTask(s, tasks).value.title, keyword.value))
    || (LinkedTask(s, tasks).Some? && Contains(LinkedTask(s, tasks).value.detail, keyword.value))
    || (s.customTitle.Some? && Contains(s.customTitle.value, keyword.value))
  }

  /** The type filter: linked slots pass when `includeTask = 1`, free ones when
      `includeFree = 1`. */
  predicate TypeHit(s: Slot, includeTask: int, includeFree: int) {
    (includeTask == 1 && s.localTaskId.Some?) || (includeFree == 1 && s.localTaskId.None?)
  }

  /** The whole WHERE clause of `querySlotsWithTaskForAnalysis`. */
  predicate AnalysisKeep(tasks: TaskDao.TaskTable, uid: int, startDate: Option<int>, endDate: Option<int>,
                         keyword: Option<string>, includeTask: int, includeFree: int, s: Slot) {
    && s.ownerUid == uid
    && IsActiveSlot(s)
    && (startDate.None? || s.dateMillis >= startDate.value)
    && (endDate.None? || s.dateMillis <= endDate.value)
    && KeywordHit(s, tasks, keyword)
    && TypeHit(s, includeTask, includeFree)
  }

  /** `querySlotsWithTaskForAnalysis(...)` */
  ghost function QuerySlotsWithTaskForAnalysis(slots: SlotTable, tasks: TaskDao.TaskTable, uid: int,
                                               startDate: Option<int>, endDate: Option<int>, keyword: Option<string>,
                                               includeTask: int, includeFree: int): (r: seq<SlotWithTask>)
    ensures SortedBy(r, JoinedByDateThenStart)
    ensures forall i :: 0 <= i < |r| ==>
              r[i] == Join(r[i].slot, tasks) && r[i].slot in slots.Values &&
              AnalysisKeep(tasks, uid, startDate, endDate, keyword, includeTask, includeFree, r[i].slot)
    ensures forall k :: k in slots && AnalysisKeep(tasks, uid, startDate, endDate, keyword, includeTask, includeFree, slots[k]) ==>
              exists i :: 0 <= i < |r| && r[i].slot == slots[k]
  {
    JoinedByDateThenStartIsPreorder();
    var keep := s => AnalysisKeep(tasks, uid, startDate, endDate, keyword, includeTask, includeFree, s);
    SelectJoined(slots, tasks, keep, JoinedByDateThenStart);
    Select(JoinTable(slots, tasks), (j: SlotWithTask) => keep(j.slot), JoinedByDateThenStart)
  }

  /** `softDeleteById(uid, slotId, now)`: only an active slot of that owner is
      touched; it gets the delete stamp and PendingDelete. */
  function SoftDeleteById(t: SlotTable, uid: int, slotId: int, now: int): (r: SlotTable)
    ensures r.Keys == t.Keys
    ensures forall k :: k in t && k != slotId ==> r[k] == t[k]
    ensures slotId in t && t[slotId].ownerUid == uid && IsActiveSlot(t[slotId]) ==>
      r[slotId] == t[slotId].(deletedTimeMillis := Some(now), updatedTimeMillis := now, syncState := PENDING_DELETE)
    ensures !(slotId in t && t[slotId].ownerUid == uid && IsActiveSlot(t[slotId])) ==> r == t
    ensures WellKeyed(t) ==> WellKeyed(r)
  {
    if slotId in t && t[slotId].ownerUid == uid && t[slotId].deletedTimeMillis.None? then
      t[slotId := t[slotId].(deletedTimeMillis := Some(now), updatedTimeMillis := now, syncState := PENDING_DELETE)]
    else t
  }

  /** Repeating a soft delete changes nothing, whatever the second `now`. */
  lemma SoftDeleteIdempotent(t: SlotTable, uid: int, slotId: int, now: int, later: int)
    ensures SoftDeleteById(SoftDeleteById(t, uid, slotId, now), uid, slotId, later) == SoftDeleteById(t, uid, slotId, now)
  {
  }

  /** The rows `detachTaskFromSlots` rewrites. */
  predicate Detaches(uid: int, localTaskId: string, s: Slot) {
    s.ownerUid == uid && s.localTaskId == Some(localTaskId) && IsActiveSlot(s)
  }

  /** `detachTaskFromSlots(uid, localTaskId, taskTitle, now)`: unlinks the owner's
      active slots from the task and fills a null title (`COALESCE`). */
  function DetachTaskFromSlots(t: SlotTable, uid: int, localTaskId: string, taskTitle: string, now: int): (r: SlotTable)
    ensures r.Keys == t.Keys
    ensures forall k :: k in t && !Detaches(uid, localTaskId, t[k]) ==> r[k] == t[k]
    ensures forall k :: k in t && Detaches(uid, localTaskId, t[k]) ==>
      && r[k].localTaskId.None?
      && r[k].customTitle == (if t[k].customTitle.Some? then t[k].customTitle else Some(taskTitle))
      && r[k].updatedTimeMillis == now
      && r[k] == t[k].(localTaskId := None, customTitle := r[k].customTitle, updatedTimeMillis := now)
    ensures WellKeyed(t) ==> WellKeyed(r)
  {
    map k | k in t ::
      if Detaches(uid, localTaskId, t[k]) then
        t[k].(localTaskId := None,
              customTitle := Some(t[k].customTitle.GetOr(taskTitle)),
              updatedTimeMillis := now)
      else t[k]
  }

  /** After a detach no active slot of that owner still names the task. */
  lemma DetachLeavesNoLink(t: SlotTable, uid: int, localTaskId: string, taskTitle: string, now: int)
    ensures forall k :: k in DetachTaskFromSlots(t, uid, localTaskId, taskTitle, now) ==>
      !Detaches(uid, localTaskId, DetachTaskFromSlots(t, uid, localTaskId, taskTitle, now)[k])
  {
  }

  /** `ForeignKey(onDelete = SET_NULL)`: removing task row `localTaskId` nulls
      the link of every slot pointing at it, of any owner and deleted or not. */
  function OnTaskRowDeleted(t: SlotTable, localTaskId: string): (r: SlotTable)
    ensures r.Keys == t.Keys
    ensures forall k :: k in t ==> r[k].localTaskId != Some(localTaskId)
    ensures forall k :: k in t && t[k].localTaskId != Some(localTaskId) ==> r[k] == t[k]
    ensures forall k :: k in t && t[k].localTaskId == Some(localTaskId) ==> r[k] == t[k].(localTaskId := None)
    ensures WellKeyed(t) ==> WellKeyed(r)
  {
    OnTaskRowsDeleted(t, {localTaskId})
  }

  /** The slot names one of the task rows in `ids`. */
  predicate LinkedToAny(s: Slot, ids: set<string>) {
    s.localTaskId.Some? && s.localTaskId.value in ids
  }

  /** The same rule for every task row one statement removes. */
  function OnTaskRowsDeleted(t: SlotTable, gone: set<string>): (r: SlotTable)
    ensures r.Keys == t.Keys
    ensures forall k :: k in t ==> !LinkedToAny(r[k], gone)
    ensures forall k :: k in t && !LinkedToAny(t[k], gone) ==> r[k] == t[k]
    ensures forall k :: k in t && LinkedToAny(t[k], gone) ==> r[k] == t[k].(localTaskId := None)
    ensures WellKeyed(t) ==> WellKeyed(r)
  {
    map k | k in t :: if LinkedToAny(t[k], gone) then t[k].(localTaskId := None) else t[k]
  }

  /** The `SET NULL` action keeps the foreign key: when every link named a
      row of `ids` and the rows `gone` are removed, every link left names a
      row that remains. */
  lemma SetNullKeepsLinksResolved(t: SlotTable, ids: set<string>, gone: set<string>, remaining: set<string>)
    requires LinksResolve(t, ids) && ids - gone <= remaining
    ensures LinksResolve(OnTaskRowsDeleted(t, gone), remaining)
  {
  }

  /** `after` differs from `before` only in links that were cleared: no slot
      appears, disappears or gains a link. */
  predicate OnlyUnlinks(before: SlotTable, after: SlotTable) {
    && after.Keys == before.Keys
    && forall k :: k in before ==> after[k] == before[k] || after[k] == before[k].(localTaskId := None)
  }

  /** The foreign key action never does more than clear links, and clearing
      links twice is clearing them once. */
  lemma OnlyUnlinksSteps(a: SlotTable, b: SlotTable, c: SlotTable, gone: set<string>)
    ensures OnlyUnlinks(a, OnTaskRowsDeleted(a, gone))
    ensures OnlyUnlinks(a, b) && OnlyUnlinks(b, c) ==> OnlyUnlinks(a, c)
  {
  }

  /** The child side of the foreign key: a row may be written only when it
      links no task or a task whose row exists (`taskIds` is the key set of
      `tasks`). Room opens the database with foreign keys enforced, so a
      write that breaks this throws `SQLiteConstraintException`. */
  predicate LinkResolves(s: Slot, taskIds: set<string>) {
    s.localTaskId.None? || s.localTaskId.value in taskIds
  }

  /** Every row of the table satisfies the foreign key. */
  predicate LinksResolve(t: SlotTable, taskIds: set<string>) {
    forall k :: k in t ==> LinkResolves(t[k], taskIds)
  }

  /** `insert(slot)` with `OnConflictStrategy.ABORT`: a new row (slotId 0) gets the
      row id SQLite allocates, `rowId`; an explicit id already present aborts,
      and so does a link to a task row that does not exist (`None`: the call
      throws and the table is unchanged). */
  function Insert(t: SlotTable, taskIds: set<string>, s: Slot, rowId: int): (r: Option<SlotTable>)
    requires rowId !in t
    ensures r.None? <==> (s.slotId != 0 && s.slotId in t) || !LinkResolves(s, taskIds)
    ensures r.Some? ==> var id := if s.slotId == 0 then rowId else s.slotId;
      && id in r.value && r.value[id] == s.(slotId := id)
      && r.value.Keys == t.Keys + {id}
      && forall k :: k in t ==> r.value[k] == t[k]
    ensures r.Some? && WellKeyed(t) ==> WellKeyed(r.value)
    ensures r.Some? && LinksResolve(t, taskIds) ==> LinksResolve(r.value, taskIds)
  {
    if s.slotId != 0 && s.slotId in t then None
    else if !LinkResolves(s, taskIds) then None
    else if s.slotId == 0 then Some(t[rowId := s.(slotId := rowId)])
    else Some(t[s.slotId := s])
  }

  /** `update(slot)`: rewrites the row with that primary key; no row, no
      effect. Rewriting a row with a link to a missing task throws (`None`). */
  function Update(t: SlotTable, taskIds: set<string>, s: Slot): (r: Option<SlotTable>)
    ensures r.None? <==> s.slotId in t && !LinkResolves(s, taskIds)
    ensures r.Some? ==> r.value.Keys == t.Keys
    ensures r.Some? && s.slotId in t ==> r.value[s.slotId] == s
    ensures r.Some? ==> forall k :: k in t && k != s.slotId ==> r.value[k] == t[k]
    ensures s.slotId !in t ==> r == Some(t)
    ensures r.Some? && WellKeyed(t) ==> WellKeyed(r.value)
    ensures r.Some? && LinksResolve(t, taskIds) ==> LinksResolve(r.value, taskIds)
  {
    if s.slotId !in t then Some(t)
    else if !LinkResolves(s, taskIds) then None
    else Some(t[s.slotId := s])
  }

  /** `upsert(slot)` as the sync code uses it: replace by `slotId`, and a slot
      without an id (0) becomes a new row under `rowId`. The written row must
      satisfy the foreign key, else the call throws (`None`). */
  function Upsert(t: SlotTable, taskIds: set<string>, s: Slot, rowId: int): (r: Option<SlotTable>)
    requires rowId !in t
    ensures r.None? <==> !LinkResolves(s, taskIds)
    ensures r.Some? ==> var id := if s.slotId == 0 then rowId else s.slotId;
      id in r.value && r.value[id] == s.(slotId := id) && r.value.Keys == t.Keys + {id} &&
      forall k :: k in t && k != id ==> r.value[k] == t[k]
    ensures r.Some? && WellKeyed(t) ==> WellKeyed(r.value)
    ensures r.Some? && LinksResolve(t, taskIds) ==> LinksResolve(r.value, taskIds)
  {
    if !LinkResolves(s, taskIds) then None
    else if s.slotId == 0 then Some(t[rowId := s.(slotId := rowId)])
    else Some(t[s.slotId := s])
  }

  /** `findBySlotId(id)` */
  function FindBySlotId(t: SlotTable, slotId: int): (r: Option<Slot>)
    ensures r.None? <==> slotId !in t
    ensures r.Some? ==> r.value == t[slotId]
  {
    if slotId in t then Some(t[slotId]) else None
  }

  /** `findByServerSlotId(id)`: some row carrying that server id, if any. */
  ghost function FindByServerSlotId(t: SlotTable, serverSlotId: int): (r: Option<Slot>)
    ensures r.None? <==> forall k :: k in t ==> t[k].serverSlotId != Some(serverSlotId)
    ensures r.Some? ==> r.value in t.Values && r.value.serverSlotId == Some(serverSlotId)
    ensures r.Some? && WellKeyed(t) ==> r.value.slotId in t && t[r.value.slotId] == r.value
  {
    if exists k :: k in t && t[k].serverSlotId == Some(serverSlotId) then
      var k :| k in t && t[k].serverSlotId == Some(serverSlotId);
      Some(t[k])
    else None
  }

  /** `getPending(uid)` as the sync code uses it: the owner's slots whose
      `syncState` is not Synced. */
  ghost function GetPending(t: SlotTable, uid: int): (r: seq<Slot>)
    ensures forall s :: s in r <==> s in t.Values && s.ownerUid == uid && s.syncState != SYNCED
    ensures |r| == 0 <==> !HasPending(t, uid)
  {
    ByStartIsPreorder();
    SelectMembers(t, PendingOf(uid), ByStart);
    SelectEmpty(t, PendingOf(uid), ByStart);
    Select(t, PendingOf(uid), ByStart)
  }

  /** The filter `getPending(uid)` is read as. */
  function PendingOf(uid: int): Slot -> bool {
    (s: Slot) => s.ownerUid == uid && s.syncState != SYNCED
  }

  predicate HasPending(t: SlotTable, uid: int) {
    Any(t, PendingOf(uid))
  }

  /** Soft deletes and detaches never create an overlap. */
  lemma SoftDeleteKeepsNoOverlap(t: SlotTable, uid: int, slotId: int, now: int)
    requires NoOverlap(t)
    ensures NoOverlap(SoftDeleteById(t, uid, slotId, now))
  {
  }

  lemma DetachKeepsNoOverlap(t: SlotTable, uid: int, localTaskId: string, taskTitle: string, now: int)
    requires NoOverlap(t)
    ensures NoOverlap(DetachTaskFromSlots(t, uid, localTaskId, taskTitle, now))
  {
    var r := DetachTaskFromSlots(t, uid, localTaskId, taskTitle, now);
    forall a, b | a in r && b in r && a != b && OnDay(r[a].ownerUid, r[a].dateMillis, r[b]) && IsActiveSlot(r[a])
      ensures !Overlaps(r[a], r[b].startTimeMillis, r[b].endTimeMillis)
    {
      assert OnDay(t[a].ownerUid, t[a].dateMillis, t[b]);
    }
  }
}
