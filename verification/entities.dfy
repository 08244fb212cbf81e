/** The two Room tables' rows (`tasks`, `schedule_slots`), the pending-action
    enum stored in `tasks.pendingAction`, the `syncState` codes of a slot, and
    the join row produced by the slot queries. */
module Entities {
  import opened Wrappers

  /** `PendingAction`; `NoAction` is the source's NONE. */
  datatype PendingAction = NoAction | Create | Update | Delete

  /** The integer stored in the column. */
  function Code(a: PendingAction): int {
    match a
    case NoAction => 0
    case Create => 1
    case Update => 2
    case Delete => 3
  }

  /** `PendingAction.from(code)`: the first entry with that code, else NONE. */
  function From(code: int): (a: PendingAction)
    ensures 0 <= code <= 3 ==> Code(a) == code
    ensures !(0 <= code <= 3) ==> a == NoAction
  {
    if code == 1 then Create
    else if code == 2 then Update
    else if code == 3 then Delete
    else NoAction
  }

  /** Decoding inverts encoding: every enum value survives a trip through
      its stored code. */
  lemma FromCode(a: PendingAction)
    ensures From(Code(a)) == a
  {
  }

  /** A stored code decodes to an action exactly when it is that action's
      code. */
  lemma FromIsCode(code: int, a: PendingAction)
    ensures From(code) == a <==> code == Code(a) || (a == NoAction && !(1 <= code <= 3))
  {
  }

  /** `TaskEntity`: one row of `tasks`, keyed by `localId` (a client UUID). */
  datatype Task = Task(
    localId: string,
    userUid: int,
    serverTid: Option<int>,
    title: string,
    detail: string,
    dueTimeMillis: Option<int>,
    tag: string,
    quadrant: int,
    progress: int,
    createdTimeMillis: Option<int>,
    updatedTimeMillis: Option<int>,
    deletedTimeMillis: Option<int>,
    pendingAction: int,
    localUpdatedMillis: int)

  /** `TaskEntity(...)` called without `localId`, `pendingAction` and
      `localUpdatedMillis`: the defaults are a fresh UUID (`freshId`), NONE and
      the current time. */
  function NewTask(freshId: string, now: int, userUid: int, serverTid: Option<int>,
                   title: string, detail: string, dueTimeMillis: Option<int>, tag: string,
                   quadrant: int, progress: int, createdTimeMillis: Option<int>,
                   updatedTimeMillis: Option<int>, deletedTimeMillis: Option<int>): (t: Task)
    ensures t.localId == freshId
    ensures From(t.pendingAction) == NoAction && t.pendingAction == 0
    ensures t.localUpdatedMillis == now
    ensures t.userUid == userUid && t.serverTid == serverTid && t.title == title
    ensures t.deletedTimeMillis == deletedTimeMillis
  {
    Task(freshId, userUid, serverTid, title, detail, dueTimeMillis, tag, quadrant, progress,
         createdTimeMillis, updatedTimeMillis, deletedTimeMillis, Code(NoAction), now)
  }

  /** `syncState` codes of a schedule slot. */
  const SYNCED: int := 0
  const PENDING_CREATE: int := 1
  const PENDING_UPDATE: int := 2
  const PENDING_DELETE: int := 3

  /** `ScheduleSlotEntity`: one row of `schedule_slots`. `slotId` 0 means
      "not inserted yet"; Room then lets SQLite pick the row id. */
  datatype Slot = Slot(
    slotId: int,
    ownerUid: int,
    dateMillis: int,
    startTimeMillis: int,
    endTimeMillis: int,
    localTaskId: Option<string>,
    customTitle: Option<string>,
    note: Option<string>,
    serverSlotId: Option<int>,
    syncState: int,
    createdTimeMillis: int,
    updatedTimeMillis: int,
    deletedTimeMillis: Option<int>)

  /** `ScheduleSlotEntity(...)` with every defaulted column left out. */
  function NewSlot(now: int, ownerUid: int, dateMillis: int, startTimeMillis: int, endTimeMillis: int,
                   localTaskId: Option<string>, customTitle: Option<string>, note: Option<string>): (s: Slot)
    ensures s.slotId == 0
    ensures s.syncState == SYNCED
    ensures s.serverSlotId == None && s.deletedTimeMillis == None
    ensures s.createdTimeMillis == now && s.updatedTimeMillis == now
    ensures s.ownerUid == ownerUid && s.dateMillis == dateMillis
    ensures s.startTimeMillis == startTimeMillis && s.endTimeMillis == endTimeMillis
    ensures s.localTaskId == localTaskId && s.customTitle == customTitle && s.note == note
  {
    Slot(0, ownerUid, dateMillis, startTimeMillis, endTimeMillis, localTaskId, customTitle, note,
         None, SYNCED, now, now, None)
  }

  predicate IsActiveSlot(s: Slot) {
    s.deletedTimeMillis.None?
  }

  /** `ScheduleSlotWithTask`: a slot joined with its task's title and quadrant. */
  datatype SlotWithTask = SlotWithTask(slot: Slot, taskTitle: Option<string>, taskQuadrant: Option<int>)
}
