# AllinOne offline-first data layer in Dafny

This project models the data layer of the AllinOne Android app ("personal
note-taking": tasks plus a day schedule of time slots), and the small pure
helpers its screens use. Each piece is written as pure functions over
immutable records, and the properties the code promises are proved about
them.

- **Tables as maps.** The Room tables become maps of records:
  `TaskDao.TaskTable` (tasks keyed by `localId`) and `ScheduleDao.SlotTable`
  (slots keyed by `slotId`).
- **Foreign key.** `schedule_slots.localTaskId` references `tasks.localId`
  with `ON DELETE SET NULL`, and Room enforces it. Both sides are modelled.
  - Parent side: the task `upsert` is `INSERT OR REPLACE`, which deletes a
    row whose key it takes before inserting. `TasksRepository.Db` pairs the
    two tables, so each task write also states what it does to the slots.
  - Child side: a slot write whose link names no task row throws
    `SQLiteConstraintException`. The slot writes (`ScheduleDao.Insert`,
    `Update`, `Upsert`) take the key set of `tasks` and fail on such a link.
    `saveSlot` and the schedule pull pass that failure on.
- **Queries and writes.** Every `@Query` is a filter, optionally followed by
  an order (`Rows.Select`). Every write is a function from the old table to
  the new one.
- **Untied row order.** SQL leaves the order of rows with equal sort keys
  open. The listing of a map is therefore a `ghost` choice. Every operation
  that consumes an ordered query result is ghost for the same reason
  (`ScheduleRepository.SaveSlot`, the free-gap scan, the pulls, the
  analysis query).
- **Parameters.** The clock (`now`), fresh UUIDs and the server's responses
  are parameters. So are the row ids SQLite allocates for new slots:
  - `saveSlot` takes the id of the row it may add (`rowId`);
  - the schedule pull takes the value of the table's AUTOINCREMENT counter
    (`next`, above every row id). Each row the pull adds takes that id and
    moves the counter on by one.

Modules follow the source files:

| module | models |
|---|---|
| `Entities` | `TaskEntity`, `PendingAction`, `ScheduleSlotEntity`, the join record |
| `Dtos` | the wire records of the task and schedule sync |
| `Rows` | SQL `SELECT … WHERE … ORDER BY`, `COUNT(*)` over a map |
| `TaskDao`, `ScheduleDao` | every query and write of the two DAOs |
| `TasksRepository` | task create/edit/delete state machine, push, pull, `syncOnce`, day ranges |
| `ScheduleRepository` | `saveSlot`, the free-gap scan, the 4x3 statistics, the analysis summary |
| `ScheduleSync` | the schedule push/pull reconciliation of `ScheduleRepository` |
| `TaskMapper`, `ScheduleSyncMapper`, `TimeUtil` | the wire/time codec |
| `TimeInput`, `TimeOptions` | the HHmm text parser and the time-option helpers |
| `AnalysisScreen` | `computeTimeBuckets` |
| `ScheduleScreen` | timeline clamping, HHmm visual transformation, tasks panel, month grid, dialog time rule |
| `ScheduleViewModel` | the slot dialog state machine |
| `AnalysisViewModel` | the analysis filters and `runSearch` |
| `TasksScreen` | chip toggling, the task filter, progress captions, the checkbox rule |
| `Clock`, `Text`, `Wrappers` | JVM arithmetic, Kotlin string helpers, `Option`/`Result` |

**Time.** The device zone is fixed at UTC+8 (Asia/Taipei), with no daylight
saving. `Clock.DayStart` plays the role of every `Calendar` "set the time to
00:00". The calendar is proleptic Gregorian, as in `java.time`.

**Kotlin integer semantics.** JVM `/` and `%` truncate toward zero. They are
modelled explicitly (`Clock.KDiv`, `Clock.KRem`) wherever an operand can be
negative. `Long.toInt()` is `Clock.ToInt32`.

Three behaviours of the code are modelled as written:

- `computeTimeBuckets` reads the time of day on the UTC clock.
- `calculate4x3Stats` loops forever on a slot that ends after its day's
  midnight. That case is modelled as `None`, and the loop that never ends
  is proved separately.
- Saving an edited slot through the view model resets its creation time to
  the current time.

## Model

| member | source | states |
|---|---|---|
| Entities.From | app/src/main/java/com/example/allinone/data/local/entities/TaskEntity.kt:29-37 | codes 0..3 decode to NONE, CREATE, UPDATE, DELETE; any other code decodes to NONE |
| Entities.FromCode | app/src/main/java/com/example/allinone/data/local/entities/TaskEntity.kt:29-37 | every action survives the trip through its stored code |
| Entities.NewTask | app/src/main/java/com/example/allinone/data/local/entities/TaskEntity.kt:8-26 | a task built without the defaulted columns gets the fresh id, action NONE and the current time as local update stamp |
| Entities.NewSlot | app/src/main/java/com/example/allinone/data/local/entities/ScheduleSlotEntity.kt:20-39 | a slot built without the defaulted columns has slotId 0, no server id, sync state 0 (Synced), no delete stamp, created = updated = now |
| Rows.Listing | app/src/main/java/com/example/allinone/data/local/TaskDao.kt:10-15 | one entry per key of the table, and a row is listed exactly when it is stored |
| Rows.SelectMembers | app/src/main/java/com/example/allinone/data/local/ScheduleDao.kt:16-21 | a `SELECT … WHERE … ORDER BY` lists exactly the rows the WHERE clause keeps, sorted by the order |
| Rows.SelectFirstLeast | app/src/main/java/com/example/allinone/data/local/ScheduleDao.kt:32-33 | the first row of an ordered listing comes no later than any kept row, which is what `ORDER BY … LIMIT 1` returns |
| Rows.CountMonotone | app/src/main/java/com/example/allinone/data/local/TaskDao.kt:38-53 | a stronger WHERE clause never counts more rows |
| TaskDao.ObserveActive | app/src/main/java/com/example/allinone/data/local/TaskDao.kt:10-15 | the owner's rows without a delete stamp, newest local change first |
| TaskDao.ObserveSearch | app/src/main/java/com/example/allinone/data/local/TaskDao.kt:17-27 | the active rows whose title, detail or tag contains the query, in the same order |
| TaskDao.SearchWithinActive | app/src/main/java/com/example/allinone/data/local/TaskDao.kt:10-27 | every search hit is listed by `observeActive`, and an empty query finds every active row |
| TaskDao.ObserveTasksByDueDay | app/src/main/java/com/example/allinone/data/local/TaskDao.kt:29-36 | rows of any owner without a delete stamp, with a due time inside the inclusive range, earliest due first |
| TaskDao.TodoCountAtMostTotal | app/src/main/java/com/example/allinone/data/local/TaskDao.kt:38-53 | for one owner and range, the not-done count never exceeds the total count |
| TaskDao.ActiveCountAtMostListed | app/src/main/java/com/example/allinone/data/local/TaskDao.kt:56-61 | the active count is the number of rows `observeActive` lists minus the done ones (progress 2); it equals the listed number exactly when no active row is done |
| TaskDao.GetPending | app/src/main/java/com/example/allinone/data/local/TaskDao.kt:63-68 | every row of the owner with a non-zero pending code, soft-deleted ones included, oldest local change first |
| TaskDao.Upsert | app/src/main/java/com/example/allinone/data/local/TaskDao.kt:70-71 | the row is stored under its localId and every other key is unchanged |
| TaskDao.UpsertAllLastWins | app/src/main/java/com/example/allinone/data/local/TaskDao.kt:73-74 | the row stored under a key is the last one written under it |
| TaskDao.UpsertAllKeepsUnnamed | app/src/main/java/com/example/allinone/data/local/TaskDao.kt:73-74 | a key no written row names keeps its old row |
| TaskDao.UpsertAllKeys | app/src/main/java/com/example/allinone/data/local/TaskDao.kt:73-74 | the keys afterwards are the old keys and those of the written rows, no more and no fewer |
| TaskDao.HardDeleteByLocalId | app/src/main/java/com/example/allinone/data/local/TaskDao.kt:76-77 | exactly that key is removed |
| TaskDao.HardDeleteByServerTid | app/src/main/java/com/example/allinone/data/local/TaskDao.kt:79-80 | exactly the rows carrying that server id are removed |
| TaskDao.FindByServerTid | app/src/main/java/com/example/allinone/data/local/TaskDao.kt:82-83 | some row carrying that server id, and nothing exactly when no row carries it |
| TaskDao.FindByLocalId | app/src/main/java/com/example/allinone/data/local/TaskDao.kt:85-86 | the row stored under that key, if any |
| TaskDao.ClearOtherUsers | app/src/main/java/com/example/allinone/data/local/TaskDao.kt:90-91 | exactly the rows of other users are removed |
| ScheduleDao.GetSlotsByDate | app/src/main/java/com/example/allinone/data/local/ScheduleDao.kt:16-21 | exactly the owner's active slots of that day, by start time |
| ScheduleDao.FindFirstConflict | app/src/main/java/com/example/allinone/data/local/ScheduleDao.kt:24-41 | the earliest-starting active slot of the owner and day, other than the excluded id, whose half-open interval overlaps the new one; nothing exactly when there is no such slot |
| ScheduleDao.ObserveSlotsWithTask | app/src/main/java/com/example/allinone/data/local/ScheduleDao.kt:44-55 | the day's active slots of the user by start time, and every one of them listed; each row is the slot joined with its linked task row's title and quadrant, both null exactly when no task row carries its link |
| ScheduleDao.SelectJoined | app/src/main/java/com/example/allinone/data/local/ScheduleDao.kt:44-55 | each joined row is the join of a kept slot, and every kept slot is listed |
| ScheduleDao.QuerySlotsWithTaskForAnalysis | app/src/main/java/com/example/allinone/data/local/ScheduleDao.kt:60-91 | the owner's active slots within the inclusive day bounds (a missing bound is no bound), matching the keyword in task title, task detail or slot title, of a ticked kind, ordered by day then start |
| ScheduleDao.SoftDeleteById | app/src/main/java/com/example/allinone/data/local/ScheduleDao.kt:94-101 | only an active slot of that owner changes: delete and update stamps become now, sync state 3; every other row is unchanged |
| ScheduleDao.SoftDeleteIdempotent | app/src/main/java/com/example/allinone/data/local/ScheduleDao.kt:94-101 | repeating the soft delete changes nothing, whatever the second clock value |
| ScheduleDao.DetachTaskFromSlots | app/src/main/java/com/example/allinone/data/local/ScheduleDao.kt:103-118 | only the owner's active slots linked to the task change: the link is cleared, a null title becomes the task's title, a set title is kept |
| ScheduleDao.DetachLeavesNoLink | app/src/main/java/com/example/allinone/data/local/ScheduleDao.kt:103-118 | after a detach no active slot of that owner names the task |
| ScheduleDao.OnTaskRowDeleted | app/src/main/java/com/example/allinone/data/local/entities/ScheduleSlotEntity.kt:8-13 | removing a task row clears the link of every slot that names it, of any owner, and touches nothing else |
| ScheduleDao.OnTaskRowsDeleted | app/src/main/java/com/example/allinone/data/local/entities/ScheduleSlotEntity.kt:8-13 | removing several task rows at once clears exactly the links that name one of them; no slot is added, removed or otherwise changed |
| ScheduleDao.OnlyUnlinksSteps | app/src/main/java/com/example/allinone/data/local/entities/ScheduleSlotEntity.kt:8-13 | the foreign key action only ever clears links, and a run of such actions still only clears links |
| ScheduleDao.Insert | app/src/main/java/com/example/allinone/data/local/ScheduleDao.kt:10-11 | a slot with id 0 becomes a new row under the allocated id; an explicit id already present, or a link to a task row that does not exist, aborts and leaves the table unchanged; a table whose links all name task rows keeps that property |
| ScheduleDao.Update | app/src/main/java/com/example/allinone/data/local/ScheduleDao.kt:13-14 | the row with that key is replaced; with no such row nothing changes; rewriting a row with a link to a missing task row fails and changes nothing |
| ScheduleDao.Upsert | app/src/main/java/com/example/allinone/data/repo/ScheduleRepository.kt:374-395 | the slot replaces the row under its own id, or becomes a new row under the allocated id when its id is 0; a link to a missing task row fails and changes nothing |
| ScheduleDao.SetNullKeepsLinksResolved | app/src/main/java/com/example/allinone/data/local/entities/ScheduleSlotEntity.kt:7-14 | when task rows are removed, the `SET NULL` action leaves every slot link naming a task row that remains |
| ScheduleDao.SoftDeleteKeepsNoOverlap | app/src/main/java/com/example/allinone/data/local/ScheduleDao.kt:94-101 | a soft delete never makes two active slots of one owner and day overlap |
| ScheduleDao.DetachKeepsNoOverlap | app/src/main/java/com/example/allinone/data/local/ScheduleDao.kt:103-118 | a detach never makes two active slots of one owner and day overlap |
| TasksRepository.CreateLocalTask | app/src/main/java/com/example/allinone/data/repo/TasksRepository.kt:20-45 | without a user nothing changes; otherwise exactly one new row under the fresh id, queued CREATE, without server id or delete stamp |
| TasksRepository.CreatedTaskIsPending | app/src/main/java/com/example/allinone/data/repo/TasksRepository.kt:20-45 | a created task is among the user's pending rows and is pushed as a new task that is not deleted |
| TasksRepository.UpdateLocalTask | app/src/main/java/com/example/allinone/data/repo/TasksRepository.kt:47-74 | an unknown id changes nothing; otherwise the content is overwritten (even under a queued delete), CREATE and DELETE stay, anything else becomes UPDATE, the local update stamp is untouched |
| TasksRepository.EditKeepsQueue | app/src/main/java/com/example/allinone/data/repo/TasksRepository.kt:57-61 | an edit never clears a queued action, and an edit of a synced row queues an update |
| TasksRepository.MarkDelete | app/src/main/java/com/example/allinone/data/repo/TasksRepository.kt:76-94 | an unknown id changes nothing; a queued create is removed outright; any other row gets a delete stamp and DELETE |
| TasksRepository.MarkDeleteLeavesTombstone | app/src/main/java/com/example/allinone/data/repo/TasksRepository.kt:76-94 | after a delete, a row carrying the deleted id can only be the queued-delete tombstone of a task that was not a pending create |
| TasksRepository.MarkDeleteHides | app/src/main/java/com/example/allinone/data/repo/TasksRepository.kt:76-94 | after a delete the row is in no active list of any user |
| TasksRepository.MarkDeletePendingIff | app/src/main/java/com/example/allinone/data/repo/TasksRepository.kt:76-94 | the deleted row is left out of the pending rows exactly when it was a queued create |
| TasksRepository.MarkDeletePushesDelete | app/src/main/java/com/example/allinone/data/repo/TasksRepository.kt:76-94 | a deleted task the server knew about stays in the table and is pushed with the deleted flag set |
| TasksRepository.Replaced | app/src/main/java/com/example/allinone/data/local/TaskDao.kt:70-80 | the task rows SQLite deletes in a write of one key: the rows gone afterwards, and the row under that key if there was one, since REPLACE deletes it first |
| TasksRepository.DbUpsert | app/src/main/java/com/example/allinone/data/local/TaskDao.kt:70-71 | the task side is the table upsert; the slots of a row it replaces lose their link |
| TasksRepository.DbHardDeleteByLocalId | app/src/main/java/com/example/allinone/data/local/TaskDao.kt:76-77 | the task side is the table delete; the slots of the removed row lose their link |
| TasksRepository.DbHardDeleteByServerTid | app/src/main/java/com/example/allinone/data/local/TaskDao.kt:79-80 | the task side is the table delete; the slots of every removed row lose their link |
| TasksRepository.DbClearOtherUsers | app/src/main/java/com/example/allinone/data/local/TaskDao.kt:90-91 | the task side is the table delete; the slots of every removed task, whoever owns the slot, lose their link |
| TasksRepository.DbWritesKeepForeignKey | app/src/main/java/com/example/allinone/data/local/entities/ScheduleSlotEntity.kt:7-14 | an upsert, either hard delete or the clearing of other users' tasks keeps every slot link naming a task row |
| TasksRepository.CreateLocalTaskDb | app/src/main/java/com/example/allinone/data/repo/TasksRepository.kt:20-45 | the task side is `CreateLocalTask`; a create under an id not yet taken touches no slot |
| TasksRepository.UpdateLocalTaskDb | app/src/main/java/com/example/allinone/data/repo/TasksRepository.kt:47-74 | the task side is `UpdateLocalTask`; the edit of an existing task clears the links of its slots, because the REPLACE deletes the row first |
| TasksRepository.EditUnlinksSlots | app/src/main/java/com/example/allinone/data/repo/TasksRepository.kt:62-73 | after an edit the task is still there, yet every slot that named it names nothing; other slots are unchanged |
| TasksRepository.EditBreaksLinks | app/src/main/java/com/example/allinone/data/repo/TasksRepository.kt:62-73 | whenever a slot names the edited task, the edit leaves a slot whose task still exists without its link |
| TasksRepository.UpdateLocalTaskKeepingLinks | app/src/main/java/com/example/allinone/data/repo/TasksRepository.kt:47-74 | the corrected edit, an update in place: the same task table, and every slot link intact |
| TasksRepository.MarkDeleteDb | app/src/main/java/com/example/allinone/data/repo/TasksRepository.kt:76-94 | the task side is `MarkDelete`; both the hard delete and the tombstone REPLACE clear the links of the slots of the task |
| TasksRepository.MarkDeleteUnlinksSlots | app/src/main/java/com/example/allinone/data/repo/TasksRepository.kt:76-94 | whichever path a delete takes, no slot names the task afterwards and no other slot changes |
| TasksRepository.PushResultsEffect | app/src/main/java/com/example/allinone/data/repo/TasksRepository.kt:112-126 | the result loop adds no rows; a row left is untouched or was named by a result and is now synced; a row left keeps its server id if it had one; a row without a server id that no result names stays unchanged (a row with one can go with a deleted row sharing its server id) |
| TasksRepository.ApplyPushResult | app/src/main/java/com/example/allinone/data/repo/TasksRepository.kt:112-126 | a result naming no local row changes nothing; for a queued DELETE the row is removed and only rows are removed, never changed, and every other row without a server id stays; otherwise only that row changes: server id from the result when given, the server's update time parsed, action NONE and the local stamp now |
| TasksRepository.ApplyPushResultDb | app/src/main/java/com/example/allinone/data/repo/TasksRepository.kt:112-126 | the task side is `ApplyPushResult`; the slots of every row removed, and of the row named when it stays as a synced row, lose their link |
| TasksRepository.ApplyPushResultsDb | app/src/main/java/com/example/allinone/data/repo/TasksRepository.kt:112-126 | the task side of the loop is `ApplyPushResults` |
| TasksRepository.PushResultsUnlink | app/src/main/java/com/example/allinone/data/repo/TasksRepository.kt:112-126 | the loop only clears links; a slot whose task a result names, or whose task the loop removes, names nothing afterwards |
| TasksRepository.PushResultStepShrinks | app/src/main/java/com/example/allinone/data/repo/TasksRepository.kt:112-126 | one result never adds a task row |
| TasksRepository.UnlinkStep | app/src/main/java/com/example/allinone/data/repo/TasksRepository.kt:120-125 | one more write that removes or replaces the rows it drops and the row a result names keeps the loop's slot facts: links only cleared, and cleared for every named or removed task |
| TasksRepository.PushPending | app/src/main/java/com/example/allinone/data/repo/TasksRepository.kt:102-127 | without a user it fails; with nothing pending it sends nothing and changes nothing; otherwise it sends every pending row in queue order and applies the answers |
| TasksRepository.PulledTaskEffect | app/src/main/java/com/example/allinone/data/repo/TasksRepository.kt:136-144 | a server delete removes the row with that server id; any other item rewrites that row under its own local id, or adds one under a fresh id |
| TasksRepository.ApplyPulledTaskDb | app/src/main/java/com/example/allinone/data/repo/TasksRepository.kt:136-144 | the task side is `ApplyPulledTask` |
| TasksRepository.PulledTaskUnlinks | app/src/main/java/com/example/allinone/data/repo/TasksRepository.kt:136-144 | an item that finds a local row with its server id, deleted on the server or not, clears the links of the slots of that row; one that finds none touches no slot unless its fresh id was taken |
| TasksRepository.ApplyPulledTasksDb | app/src/main/java/com/example/allinone/data/repo/TasksRepository.kt:130-145 | the task side of the pull loop is `ApplyPulledTasks` |
| TasksRepository.PullOnlyUnlinks | app/src/main/java/com/example/allinone/data/repo/TasksRepository.kt:130-145 | a pull never adds or removes a slot, never links one, and changes nothing of a slot but its link |
| TasksRepository.PullIncremental | app/src/main/java/com/example/allinone/data/repo/TasksRepository.kt:129-145 | the watermark defaults to 1970-01-01T00:00:00Z, the server time is stored before any item is applied, then the items are applied in order |
| TasksRepository.PullNoDuplicate | app/src/main/java/com/example/allinone/data/repo/TasksRepository.kt:136-144 | a server id with at most one local row before a pull has at most one after it |
| TasksRepository.AtMostOneRowCount | app/src/main/java/com/example/allinone/data/repo/TasksRepository.kt:136-144 | "at most one row" is a row count of at most one |
| TasksRepository.SyncOnce | app/src/main/java/com/example/allinone/data/repo/TasksRepository.kt:96-100 | the push runs to completion first and the pull starts from the table it left |
| TasksRepository.DayRangeIsTheDay | app/src/main/java/com/example/allinone/data/repo/TasksRepository.kt:171-198 | the range is inclusive, ends one millisecond before the next midnight, and holds an instant exactly when it falls on the same local day |
| TasksRepository.ObserveTasks | app/src/main/java/com/example/allinone/data/repo/TasksRepository.kt:147-151 | without a user it throws; a blank trimmed query lists all active rows, any other searches with the trimmed query |
| ScheduleRepository.TypeFlagsMeaning | app/src/main/java/com/example/allinone/data/repo/ScheduleRepository.kt:48-49 | a slot passes the type flags exactly when its kind is ticked, or when neither box is |
| ScheduleRepository.QuerySlotsForAnalysis | app/src/main/java/com/example/allinone/data/repo/ScheduleRepository.kt:36-59 | exactly the rows the DAO's analysis WHERE clause keeps, with the keyword trimmed (blank read as none) and the type flags normalised (no box read as both), ordered by day then start |
| ScheduleRepository.BlankKeywordIsNoKeyword | app/src/main/java/com/example/allinone/data/repo/ScheduleRepository.kt:44-45 | a blank keyword lists the same rows as no keyword |
| ScheduleRepository.NoBoxIsBothBoxes | app/src/main/java/com/example/allinone/data/repo/ScheduleRepository.kt:48-49 | no box ticked lists the same rows as both ticked |
| ScheduleRepository.Validate | app/src/main/java/com/example/allinone/data/repo/ScheduleRepository.kt:67-86 | an error exactly when the end is not after the start, the end passes the next local midnight, or an unlinked slot has a blank title; the first failing rule is the one reported |
| ScheduleRepository.EndAtMidnightAccepted | app/src/main/java/com/example/allinone/data/repo/ScheduleRepository.kt:72-78 | an end exactly at the next local midnight passes the time rules |
| ScheduleRepository.PendingState | app/src/main/java/com/example/allinone/data/repo/ScheduleRepository.kt:109-113 | PendingCreate for a slot never inserted or never uploaded, PendingUpdate otherwise |
| ScheduleRepository.Stored | app/src/main/java/com/example/allinone/data/repo/ScheduleRepository.kt:89-92 | the written row has its day set to the start's local midnight and its update stamp set to now |
| ScheduleRepository.SaveSlot | app/src/main/java/com/example/allinone/data/repo/ScheduleRepository.kt:65-129 | an invalid slot gives its error and writes nothing; a conflicting active slot is returned and nothing is written; a valid slot whose link names no task row makes the write throw, with nothing written; otherwise a new slot is inserted under the new id (created = now) or an existing one updated in place, with its pending state |
| ScheduleRepository.SaveSlotKeepsLinksResolved | app/src/main/java/com/example/allinone/data/repo/ScheduleRepository.kt:65-129 | whatever the verdict, a save keeps every slot link naming a task row |
| ScheduleRepository.SaveSlotKeepsKeys | app/src/main/java/com/example/allinone/data/repo/ScheduleRepository.kt:115-126 | saving keeps every row under its own positive id |
| ScheduleRepository.SaveSlotKeepsNoOverlap | app/src/main/java/com/example/allinone/data/repo/ScheduleRepository.kt:95-106 | saving never makes two active slots of one owner and day overlap |
| ScheduleRepository.WriteKeepsNoOverlap | app/src/main/java/com/example/allinone/data/repo/ScheduleRepository.kt:95-129 | writing a row that conflicts with no other row keeps every pair of active slots of one owner and day apart |
| ScheduleRepository.AlignUpFacts | app/src/main/java/com/example/allinone/data/repo/ScheduleRepository.kt:312-315 | with a positive step and a non-negative value, the result is the least multiple of the step at or above the value |
| ScheduleRepository.AlignUp | app/src/main/java/com/example/allinone/data/repo/ScheduleRepository.kt:312-315 | for a positive step: a multiple of the step, never below the value, below value + step when the value is non-negative, and the value itself when it is already a multiple; a zero step, which throws, is left to the scan, which reports it before aligning |
| ScheduleRepository.DayGapIsFree | app/src/main/java/com/example/allinone/data/repo/ScheduleRepository.kt:139-166 | a gap the scan finds in the day's slots is one hour between 08:00 and 22:00, ending by midnight and meeting no active slot of the table on that day |
| ScheduleRepository.FindFirstFreeGapOneHour | app/src/main/java/com/example/allinone/data/repo/ScheduleRepository.kt:139-166 | only a zero step throws; with a positive step a gap found is one hour starting between 08:00 and 22:00, ending by midnight and meeting no active slot of that owner and day |
| ScheduleRepository.ScanGapsSound | app/src/main/java/com/example/allinone/data/repo/ScheduleRepository.kt:149-160 | the cursor loop only returns a free hour between the cursor and the latest start |
| ScheduleRepository.FreeGapAfterMorningSlot | app/src/main/java/com/example/allinone/data/repo/ScheduleRepository.kt:139-166 | a day holding only 08:00-09:30 gets the gap 09:30-10:30 |
| ScheduleRepository.Inc | app/src/main/java/com/example/allinone/data/repo/ScheduleRepository.kt:185-187 | the duration goes to the total and to exactly one of task and free |
| ScheduleRepository.Add | app/src/main/java/com/example/allinone/data/repo/ScheduleRepository.kt:184-207 | only the named bucket changes |
| ScheduleRepository.AddCredits | app/src/main/java/com/example/allinone/data/repo/ScheduleRepository.kt:184-207 | adding credits the duration to the bucket's total and to the task or free column, and keeps every bucket balanced (total = task + free) |
| ScheduleRepository.MergeStatsMonoid | app/src/main/java/com/example/allinone/data/repo/ScheduleRepository.kt:281-295 | merging is field-by-field addition: commutative, associative, with the empty statistics as unit |
| ScheduleRepository.SegmentInOneBucket | app/src/main/java/com/example/allinone/data/repo/ScheduleRepository.kt:216-244 | every instant of a walk segment falls in the bucket of its start |
| ScheduleRepository.CursorNeverReachesEnd | app/src/main/java/com/example/allinone/data/repo/ScheduleRepository.kt:231-244 | for a slot ending after the next midnight the cursor sticks at that midnight and never reaches the end |
| ScheduleRepository.WalkBucket | app/src/main/java/com/example/allinone/data/repo/ScheduleRepository.kt:231-244 | the walk gives each bucket exactly the part of the slot lying in it, in the task or free column |
| ScheduleRepository.WalkConserves | app/src/main/java/com/example/allinone/data/repo/ScheduleRepository.kt:231-244 | within the day the walk ends, and its pieces add up to the slot's length in every column |
| ScheduleRepository.WalkBalanced | app/src/main/java/com/example/allinone/data/repo/ScheduleRepository.kt:231-244 | within the day the walk ends and keeps every bucket's total equal to its task part plus its free part |
| ScheduleRepository.Calculate4x3Stats | app/src/main/java/com/example/allinone/data/repo/ScheduleRepository.kt:210-248 | when the loop returns, every bucket's total is its task plus its free time, and every slot ended by the day's midnight (or was empty) |
| ScheduleRepository.Calculate4x3StatsDefined | app/src/main/java/com/example/allinone/data/repo/ScheduleRepository.kt:210-248 | the statistics exist (the loop ends) exactly when every non-empty slot ends by its day's midnight |
| ScheduleRepository.Calculate4x3StatsTotals | app/src/main/java/com/example/allinone/data/repo/ScheduleRepository.kt:210-248 | each column over the four buckets is that column summed over the slots, empty slots skipped, and total = task + free in every bucket |
| ScheduleRepository.Calculate4x3StatsBuckets | app/src/main/java/com/example/allinone/data/repo/ScheduleRepository.kt:210-248 | every cell of the 4x3 table is the time the slots spend in that bucket, in that column |
| ScheduleRepository.SlotAcrossSixOClock | app/src/main/java/com/example/allinone/data/repo/ScheduleRepository.kt:216-244 | a task slot from 05:00 to 07:00 puts one hour in Sleep and one in Morning |
| ScheduleRepository.GroupByDateShape | app/src/main/java/com/example/allinone/data/repo/ScheduleRepository.kt:262 | grouping puts every slot in the one group of its day, with distinct days and nothing lost or duplicated |
| ScheduleRepository.GroupByDateSum | app/src/main/java/com/example/allinone/data/repo/ScheduleRepository.kt:262 | sums over the groups are sums over the slots |
| ScheduleRepository.SummarizeDefined | app/src/main/java/com/example/allinone/data/repo/ScheduleRepository.kt:260-279 | the summary exists exactly when every non-empty slot ends by its day's midnight |
| ScheduleRepository.SummarizeTotals | app/src/main/java/com/example/allinone/data/repo/ScheduleRepository.kt:260-279 | totalMs, taskMs and freeMs are the clamped durations summed, the 4x3 table carries the same figures, and total = task + free |
| ScheduleRepository.SummarizeForAnalysis | app/src/main/java/com/example/allinone/data/repo/ScheduleRepository.kt:260-279 | when it returns, totalMs, taskMs and freeMs are the clamped slot durations summed over all slots, over linked slots and over free slots, and totalMs = taskMs + freeMs |
| ScheduleSync.OpsAreKnown | app/src/main/java/com/example/allinone/data/repo/ScheduleRepository.kt:333-338 | sync state 1 is "create", 3 is "delete", any other state is "update" |
| ScheduleSync.Settled | app/src/main/java/com/example/allinone/data/repo/ScheduleRepository.kt:348-365 | the written-back row is synced under the same id; a queued delete or a deletion the server reports keeps its delete stamp or gets now, with update time now; otherwise the server's id replaces the local one when given and the update time is the server's, parsed; nothing else changes |
| ScheduleSync.ApplyPushResult | app/src/main/java/com/example/allinone/data/repo/ScheduleRepository.kt:345-366 | a result naming no local row changes nothing; otherwise only that row changes, to its settled form, and the keys stay the same |
| ScheduleSync.PushResultsFrame | app/src/main/java/com/example/allinone/data/repo/ScheduleRepository.kt:345-367 | rows no result names keep their values; named rows end up synced; a named row queued as a delete ends with a delete stamp; no row loses its delete stamp or its server id |
| ScheduleSync.PushPending | app/src/main/java/com/example/allinone/data/repo/ScheduleRepository.kt:327-368 | without a user it fails; with nothing pending it sends nothing and changes nothing; otherwise it sends the pending slots with their operations and applies the answers |
| ScheduleSync.PushedItemsArePending | app/src/main/java/com/example/allinone/data/repo/ScheduleRepository.kt:329-340 | every item sent is a pending slot of the user, announced with the operation its sync state calls for |
| ScheduleSync.PulledSlotEffect | app/src/main/java/com/example/allinone/data/repo/ScheduleRepository.kt:374-395 | the write throws exactly when the row it writes links a missing task row (for a live item, the item's own link); otherwise a server delete soft-deletes the row carrying that server id and nothing else, and any other item replaces that row under its own slot id or adds a new row under the allocated id |
| ScheduleSync.ApplyPulledSlot | app/src/main/java/com/example/allinone/data/repo/ScheduleRepository.kt:374-395 | the write throws exactly when the row written links a missing task row (the existing row's link for a server delete, the item's own for a live item); a server delete of an unknown slot changes nothing; a successful write keeps the table keyed and adds at most the new row id |
| ScheduleSync.ApplyPulledSlots | app/src/main/java/com/example/allinone/data/repo/ScheduleRepository.kt:374-395 | the table stays keyed by slotId; while the loop runs, every row id lies below the AUTOINCREMENT counter, which never goes back |
| ScheduleSync.PullIncremental | app/src/main/java/com/example/allinone/data/repo/ScheduleRepository.kt:371-398 | the server's time is returned as the new watermark exactly when no write threw, the table stays keyed by slotId, and an empty answer changes nothing |
| ScheduleSync.PullKeepsRows | app/src/main/java/com/example/allinone/data/repo/ScheduleRepository.kt:374-395 | a pull never removes a row, whether or not it stops early |
| ScheduleSync.PullStopsOnDanglingLink | app/src/main/java/com/example/allinone/data/repo/ScheduleRepository.kt:374-395 | on a table whose links all name task rows, a pull stops early exactly when some live item links a task row that does not exist here, and the links still all name task rows afterwards |
| TaskMapper.ToEntity | app/src/main/java/com/example/allinone/data/mapper/TaskMapper.kt:12-29 | the given local id or else the fresh one, server id = tid, content copied, action NONE, each optional time present exactly when its text is, and then the parse of that text |
| TaskMapper.ToPushItem | app/src/main/java/com/example/allinone/data/mapper/TaskMapper.kt:32-45 | local and server ids and content copied, each optional time present exactly when the column is, the due time through `normalizeToLocalStartOfDay` and the update time through `millisToServerIso`, deleted exactly when stamped or queued DELETE |
| TaskMapper.PulledTaskPushesBack | app/src/main/java/com/example/allinone/data/mapper/TaskMapper.kt:12-45 | a pulled task pushed back names the same server task, carries its content and is a deletion exactly when the server had deleted it |
| TaskMapper.UpdatedTimeSurvivesPullAndPush | app/src/main/java/com/example/allinone/data/mapper/TaskMapper.kt:24-42 | for any ISO parser that rejects text containing a space, as `OffsetDateTime.parse` does, a server update time in the server format comes back character for character |
| ScheduleSyncMapper.ToSchedulePushItem | app/src/main/java/com/example/allinone/data/mapper/ScheduleSyncMapper.kt:10-22 | the operation verbatim, client id = slotId, server id and texts copied, the three times through the UTC conversion |
| ScheduleSyncMapper.ToEntity | app/src/main/java/com/example/allinone/data/mapper/ScheduleSyncMapper.kt:26-42 | slotId = the given id or 0, state Synced, server id and texts copied, times shifted by +8 h, delete stamp present exactly when the DTO has one and then equal to `parseServerTimeToMillis` of its text, update time parsed the same way |
| ScheduleSyncMapper.ToEntityKeepsShape | app/src/main/java/com/example/allinone/data/mapper/ScheduleSyncMapper.kt:30-32 | the shift keeps the duration, the order of start and end, and the start's offset from the date |
| ScheduleSyncMapper.PulledSlotPushesBack | app/src/main/java/com/example/allinone/data/mapper/ScheduleSyncMapper.kt:10-42 | with a conversion that undoes the +8 h shift, a pulled slot pushed back sends the server's own times and content |
| TimeUtil.UtcFixIsShift | app/src/main/java/com/example/allinone/data/mapper/TimeUtil.kt:32-36 | the correction adds eight hours; it is injective, monotone and keeps differences |
| TimeUtil.DaysFromCivilFromDays | app/src/main/java/com/example/allinone/data/mapper/TimeUtil.kt:11-12 | counting the days to the date of a day number gives the number back |
| TimeUtil.CivilFromDaysFromCivil | app/src/main/java/com/example/allinone/data/mapper/TimeUtil.kt:11-12 | a valid date is the date of its own day count |
| TimeUtil.FromLocalToLocal | app/src/main/java/com/example/allinone/data/mapper/TimeUtil.kt:23-25 | reading an instant on the UTC+8 wall clock and converting back gives the instant |
| TimeUtil.ToLocalFromLocal | app/src/main/java/com/example/allinone/data/mapper/TimeUtil.kt:23-25 | two valid wall-clock times of one instant are equal |
| TimeUtil.ParsePattern | app/src/main/java/com/example/allinone/data/mapper/TimeUtil.kt:11-12 | a result only for text of the shape `yyyy-MM-dd HH:mm:ss.SSS` whose fields form a valid date-time of years 1 to 9999 |
| TimeUtil.ParseServerTimeToMillis | app/src/main/java/com/example/allinone/data/mapper/TimeUtil.kt:15-30 | the ISO parse when it succeeds, else the pattern parse read in UTC+8, else now; it never fails |
| TimeUtil.ParseFormatLocal | app/src/main/java/com/example/allinone/data/mapper/TimeUtil.kt:11-12 | the pattern parser reads back exactly the fields the formatter wrote |
| TimeUtil.MillisToServerIso | app/src/main/java/com/example/allinone/data/mapper/TimeUtil.kt:39-40 | within years 1 to 9999, the text is 23 characters with a space at index 10, and the pattern parser reads it back as the instant's UTC+8 wall-clock time |
| TimeUtil.ServerIsoRoundTrip | app/src/main/java/com/example/allinone/data/mapper/TimeUtil.kt:15-40 | for any ISO parser that rejects text containing a space, as `OffsetDateTime.parse` does, and within years 1 to 9999, `parseServerTimeToMillis` of what `millisToServerIso` wrote gives back the instant |
| TimeUtil.NormalizeKeepsDate | app/src/main/java/com/example/allinone/data/mapper/TimeUtil.kt:43-51 | the result is the same local date at 15:59:59.999, not the start of the day |
| TimeUtil.FirstDayOnTheWire | app/src/main/java/com/example/allinone/data/mapper/TimeUtil.kt:39-40 | instants of the first local day after the epoch are written with the date 1970-01-01 |
| Text.TrimOrNone | app/src/main/java/com/example/allinone/ui/schedule/ScheduleViewModel.kt:154-155 | nothing exactly for blank text, otherwise the trimmed text, which is not blank |
| Text.TrimOfTrimmed | app/src/main/java/com/example/allinone/ui/schedule/ScheduleViewModel.kt:154-155 | trimming leaves a text unchanged exactly when it neither starts nor ends with whitespace |
| TimeInput.ToDigits | app/src/main/java/com/example/allinone/ui/schedule/TimeInput.kt:8 | only digits, at most four, the first digits of the input in order |
| TimeInput.ToDigitsIdempotent | app/src/main/java/com/example/allinone/ui/schedule/TimeInput.kt:8 | cleaning clean text changes nothing |
| TimeInput.DisplayKeepsDigits | app/src/main/java/com/example/allinone/ui/schedule/TimeInput.kt:11-16 | removing the colon from the display form of digits gives the digits back |
| TimeInput.DigitsToOffsetMillis | app/src/main/java/com/example/allinone/ui/schedule/TimeInput.kt:23-50 | nothing for fewer than three characters; an accepted time is a whole minute of the day, its minute field on the step, at most 23:30 with the 30-minute step, and for digits it is (hh*60+mm)*60000 with hh <= 23 and mm <= 59 read from the text left-padded to four |
| TimeInput.AcceptedIsMinuteOfDay | app/src/main/java/com/example/allinone/ui/schedule/TimeInput.kt:27-49 | an accepted time is a whole minute of the day whose minute field is the one read from the left-padded text |
| TimeInput.ExtraCharactersIgnored | app/src/main/java/com/example/allinone/ui/schedule/TimeInput.kt:27-29 | characters after the fourth do not change the result |
| TimeInput.FourDigitsRead | app/src/main/java/com/example/allinone/ui/schedule/TimeInput.kt:27-29 | four digits are read as exactly their hour and minute fields |
| TimeInput.NoStepAcceptsEveryMinute | app/src/main/java/com/example/allinone/ui/schedule/TimeInput.kt:23-50 | without a step rule every time from 00:00 to 23:59 is accepted |
| TimeInput.HalfHourStepAccepts | app/src/main/java/com/example/allinone/ui/schedule/TimeInput.kt:35-47 | with the 30-minute step, four digits are accepted exactly on the hour and half hour from 00:00 to 23:30 |
| TimeInput.ThreeDigitsAreHmm | app/src/main/java/com/example/allinone/ui/schedule/TimeInput.kt:27 | three digits read as one hour digit and two minute digits |
| TimeOptions.Offsets | app/src/main/java/com/example/allinone/ui/schedule/TimeOptions.kt:24-36 | under the source's requirement, the list starts at 0, goes up by exactly one step, stays below a day, has `DAY_MS / step` entries and holds every multiple of the step below a day |
| TimeOptions.LabelFields | app/src/main/java/com/example/allinone/ui/schedule/TimeOptions.kt:39-43 | the label is the two-digit hour count, a colon and the two-digit minute within the hour |
| TimeOptions.OffsetRoundTrips | app/src/main/java/com/example/allinone/ui/schedule/TimeOptions.kt:46-53 | the offset and absolute conversions undo each other in both directions |
| TimeOptions.OffsetStaysOnDay | app/src/main/java/com/example/allinone/ui/schedule/TimeOptions.kt:46-48 | an offset within a day, from a local midnight, lands on that day |
| TimeOptions.LabelReadsBack | app/src/main/java/com/example/allinone/ui/schedule/TimeOptions.kt:24-43 | every option's label, with its colon removed, is read back by the time parser as the same offset |
| AnalysisScreen.TimeInDayIsMod | app/src/main/java/com/example/allinone/ui/analysis/AnalysisScreen.kt:573-574 | the double JVM remainder is the non-negative remainder by a day |
| AnalysisScreen.BucketOf | app/src/main/java/com/example/allinone/ui/analysis/AnalysisScreen.kt:580-588 | hours 0-5 give 0, 6-11 give 1, 12-17 give 2, the rest give 3 |
| AnalysisScreen.WalkProgress | app/src/main/java/com/example/allinone/ui/analysis/AnalysisScreen.kt:599-605 | each pass moves the cursor strictly forward and never past the end, so the loop ends |
| AnalysisScreen.WalkIsRange | app/src/main/java/com/example/allinone/ui/analysis/AnalysisScreen.kt:598-605 | the walk appends each band from the cursor's to the one holding the end's last millisecond, once each |
| AnalysisScreen.BandStep | app/src/main/java/com/example/allinone/ui/analysis/AnalysisScreen.kt:600-604 | one loop pass: a boundary still before the end opens the next band; otherwise the end's last millisecond lies in the current band |
| AnalysisScreen.BucketsBetween | app/src/main/java/com/example/allinone/ui/analysis/AnalysisScreen.kt:578-607 | on two times of day, the result is exactly the run of bands from the start's band to the band of the millisecond before the end, and just the start's band when the end is not after the start |
| AnalysisScreen.ComputeTimeBuckets | app/src/main/java/com/example/allinone/ui/analysis/AnalysisScreen.kt:572-608 | never empty, strictly increasing bands in 0..3 from the start's band to the end's, and only the start's band when the end's time of day is not after the start's |
| AnalysisScreen.BucketExamples | app/src/main/java/com/example/allinone/ui/analysis/AnalysisScreen.kt:572-608 | a slot 08:00-09:30 touches band 1; one 05:00-13:00 touches 0, 1 and 2 |
| ScheduleScreen.MinutesFromDayStart | app/src/main/java/com/example/allinone/ui/schedule/ScheduleScreen.kt:869-872 | a value in 0..1440: the whole minutes since the day start for an instant of that day, 0 before it and 1440 after |
| ScheduleScreen.MinutesMonotone | app/src/main/java/com/example/allinone/ui/schedule/ScheduleScreen.kt:869-872 | a later instant is never drawn higher up |
| ScheduleScreen.TimelineBlock | app/src/main/java/com/example/allinone/ui/schedule/ScheduleScreen.kt:592-597 | the block starts in 0..1440 and lasts at least one minute |
| ScheduleScreen.BlocksDoNotOverlap | app/src/main/java/com/example/allinone/ui/schedule/ScheduleScreen.kt:592-597 | non-overlapping slots of the day, each spanning a minute row, are drawn as non-overlapping blocks |
| ScheduleScreen.HhmmIsDisplay | app/src/main/java/com/example/allinone/ui/schedule/ScheduleScreen.kt:1054-1061 | the transformation inserts ':' before index 2 exactly when there are three characters or more, the same text as `digitsToDisplay` |
| ScheduleScreen.CursorMappingRoundTrip | app/src/main/java/com/example/allinone/ui/schedule/ScheduleScreen.kt:1063-1072 | mapping a cursor forward and back is the identity; the colon's own position maps back to the character before it |
| ScheduleScreen.CursorKeepsPrefix | app/src/main/java/com/example/allinone/ui/schedule/ScheduleScreen.kt:1063-1065 | the shown text before the mapped cursor is the transformation of the typed text before the cursor |
| ScheduleScreen.CountsAreLinks | app/src/main/java/com/example/allinone/ui/schedule/ScheduleScreen.kt:427-434 | the count map holds, for every task id, the number of slots linked to it |
| ScheduleScreen.Partition | app/src/main/java/com/example/allinone/ui/schedule/ScheduleScreen.kt:436-438 | the two parts together are the tasks as a multiset, and a task lands in the first exactly when the test holds |
| ScheduleScreen.ScheduledIffLinked | app/src/main/java/com/example/allinone/ui/schedule/ScheduleScreen.kt:427-438 | a task is listed as scheduled exactly when some slot links to it, and its badge counts those slots |
| ScheduleScreen.PadToWeeks | app/src/main/java/com/example/allinone/ui/schedule/ScheduleScreen.kt:854 | the fewest blanks that make the grid whole weeks |
| ScheduleScreen.MonthLayout | app/src/main/java/com/example/allinone/ui/schedule/ScheduleScreen.kt:838-856 | the grid is whole weeks: blanks before day 1, day d at index lead+d-1 holding that day's local midnight and the text of d, blanks after the last day |
| ScheduleScreen.ColumnIsWeekday | app/src/main/java/com/example/allinone/ui/schedule/ScheduleScreen.kt:838-843 | with the leading blanks, each day lands in the column of its weekday, Sunday first |
| ScheduleScreen.MonthOfAnchor | app/src/main/java/com/example/allinone/ui/schedule/ScheduleScreen.kt:829-857 | the model shows the anchor's own local month, titled with its year and month number |
| ScheduleScreen.DayCellDate | app/src/main/java/com/example/allinone/ui/schedule/ScheduleScreen.kt:845-852 | the cell of day d holds an instant whose local date is day d of that month |
| ScheduleScreen.DialogTimeError | app/src/main/java/com/example/allinone/ui/schedule/ScheduleScreen.kt:933-941 | no error exactly when both fields have three characters or more, both parse with the dialog's step and the end is after the start; the start is flagged exactly when it does not parse |
| ScheduleScreen.SaveEnabledPassesTimeRules | app/src/main/java/com/example/allinone/ui/schedule/ScheduleScreen.kt:1027 | when save is enabled, the two times on the dialog's day pass the time rules of `saveSlot` |
| ScheduleViewModel.DraftToEntityAsWritten | app/src/main/java/com/example/allinone/ui/schedule/ScheduleViewModel.kt:147-156 | ids and times copied, title and note trimmed with blanks as null, and every other column at its default: no server id, Synced, created = updated = now |
| ScheduleViewModel.DraftToEntity | app/src/main/java/com/example/allinone/ui/schedule/ScheduleViewModel.kt:137-156 | the corrected conversion: ids, times and task link copied, title and note trimmed with blanks as null, the draft's server id kept, Synced, created = updated = now |
| ScheduleViewModel.ConversionsDifferInServerIdOnly | app/src/main/java/com/example/allinone/ui/schedule/ScheduleViewModel.kt:147-156 | the two conversions agree on every column but the server id, and agree fully exactly when the draft has none |
| ScheduleViewModel.UpdateDraftLaws | app/src/main/java/com/example/allinone/ui/schedule/ScheduleViewModel.kt:166-173 | Hidden is left alone; an edit that changes nothing changes nothing; two edits are one edit by their composition |
| ScheduleViewModel.CloseSlotDialog | app/src/main/java/com/example/allinone/ui/schedule/ScheduleViewModel.kt:162-164 | the dialog is hidden |
| ScheduleViewModel.OpenCreateFreeSlotDialog | app/src/main/java/com/example/allinone/ui/schedule/ScheduleViewModel.kt:175-193 | without a user the dialog is unchanged and "not logged in" is shown; otherwise a new, unlinked 08:00-09:00 draft of the user on the selected day |
| ScheduleViewModel.FreeSlotDraftNeedsTitle | app/src/main/java/com/example/allinone/ui/schedule/ScheduleViewModel.kt:175-193 | that draft cannot be saved as it opens: its times pass, but it has neither a task nor a title |
| ScheduleViewModel.OpenCreateTaskSlotDialog | app/src/main/java/com/example/allinone/ui/schedule/ScheduleViewModel.kt:195-222 | without a user nothing opens; otherwise a new draft linked to the task with the hint as title, in the first free hour or else 08:00-09:00 |
| ScheduleViewModel.TaskSlotInGapSaves | app/src/main/java/com/example/allinone/ui/schedule/ScheduleViewModel.kt:195-222 | when a free hour was found and the task's row exists, saving that draft unchanged succeeds |
| ScheduleViewModel.OpenEditSlotDialog | app/src/main/java/com/example/allinone/ui/schedule/ScheduleViewModel.kt:224-238 | the slot's ids, times and link; its title or else the task's or else empty; its note or else empty |
| ScheduleViewModel.EditDraftRoundTrip | app/src/main/java/com/example/allinone/ui/schedule/ScheduleViewModel.kt:224-238 | opening a slot and converting back as written gives the same ids, times and link, the title and note when trimmed and non-empty, and always no server id |
| ScheduleViewModel.EditDraftRoundTripCorrected | app/src/main/java/com/example/allinone/ui/schedule/ScheduleViewModel.kt:224-238 | with the corrected conversion the round trip also gives back the server id |
| ScheduleViewModel.SaveConverted | app/src/main/java/com/example/allinone/ui/schedule/ScheduleViewModel.kt:240-262 | once the draft is converted, the table changes only with the "saved" message, shown exactly when the dialog closes |
| ScheduleViewModel.SaveDraft | app/src/main/java/com/example/allinone/ui/schedule/ScheduleViewModel.kt:240-262 | the save with the conversion as written: with no open dialog nothing happens; the table changes only together with the "saved" message, which is shown exactly when an open dialog closes |
| ScheduleViewModel.SaveDraftCorrected | app/src/main/java/com/example/allinone/ui/schedule/ScheduleViewModel.kt:240-262 | the save with the corrected conversion, with the same guarantees |
| ScheduleViewModel.CorrectedSaveSameVerdict | app/src/main/java/com/example/allinone/ui/schedule/ScheduleViewModel.kt:240-262 | the correction changes only the stored row: dialog and message are those of the save as written |
| ScheduleViewModel.SameSaveVerdict | app/src/main/java/com/example/allinone/data/repo/ScheduleRepository.kt:65-129 | two rows that differ only in their server id get the same verdict from `saveSlot`, a throw included |
| ScheduleViewModel.SaveDraftFollowsSaveSlot | app/src/main/java/com/example/allinone/ui/schedule/ScheduleViewModel.kt:240-262 | for the draft converted as written, success closes the dialog and shows "saved"; an error keeps the dialog and the table and shows the reason; a conflict keeps the table and shows the conflicting slot; a write that throws changes nothing |
| ScheduleViewModel.EditAfterTaskRowGone | app/src/main/java/com/example/allinone/ui/schedule/ScheduleViewModel.kt:240-262 | a slot opened for editing whose task row has gone since: saving the draft, which still names the task, throws, and nothing is saved or shown |
| ScheduleViewModel.EditOfUploadedSlotAsWritten | app/src/main/java/com/example/allinone/ui/schedule/ScheduleViewModel.kt:137-156 | with the conversion as written, a saved edit of an uploaded slot loses its server id and is pushed as "create" |
| ScheduleViewModel.LoneSlotEditSaves | app/src/main/java/com/example/allinone/ui/schedule/ScheduleViewModel.kt:240-262 | an edit of a lone uploaded slot whose task row exists is saved by both conversions, so the loss above does happen |
| ScheduleViewModel.EditOfUploadedSlot | app/src/main/java/com/example/allinone/ui/schedule/ScheduleViewModel.kt:137-156 | with the corrected conversion the edit keeps its server id and is pushed as "update" |
| AnalysisViewModel.DayBound | app/src/main/java/com/example/allinone/ui/analysis/AnalysisViewModel.kt:37-38 | no bound for no day, otherwise the local midnight of the picked day |
| AnalysisViewModel.SetStartDay | app/src/main/java/com/example/allinone/ui/analysis/AnalysisViewModel.kt:37 | the start bound is unset exactly when no day is given, otherwise the local midnight of the day holding the instant; every other filter is kept |
| AnalysisViewModel.SetEndDay | app/src/main/java/com/example/allinone/ui/analysis/AnalysisViewModel.kt:38 | the same for the end bound, keeping every other filter |
| AnalysisViewModel.DayBoundIsTheDay | app/src/main/java/com/example/allinone/ui/analysis/AnalysisViewModel.kt:119-128 | every instant of a day sets the same bound, and setting the bound already shown changes nothing |
| AnalysisViewModel.ClearFilters | app/src/main/java/com/example/allinone/ui/analysis/AnalysisViewModel.kt:43-49 | no day bounds, an empty keyword, both kinds ticked |
| AnalysisViewModel.OrderedBounds | app/src/main/java/com/example/allinone/ui/analysis/AnalysisViewModel.kt:85-91 | reversed bounds are swapped, so the start is never after the end |
| AnalysisViewModel.RunSearch | app/src/main/java/com/example/allinone/ui/analysis/AnalysisViewModel.kt:72-114 | without a user only the error changes; otherwise the bounds are stored in order, and the state holds the repository's rows for those bounds with their summary, stays loading when the summary never finishes, or shows the failure message with the old rows |
| AnalysisViewModel.SearchShowsQuery | app/src/main/java/com/example/allinone/ui/analysis/AnalysisViewModel.kt:95-106 | a successful search shows exactly the repository's rows for the ordered bounds with the summary of those rows, and totals with total = task + free; every row shown is new and a slot of the user, or was already shown |
| AnalysisViewModel.QueryRowsAreTheUsers | app/src/main/java/com/example/allinone/data/repo/ScheduleRepository.kt:36-59 | every row the analysis query returns is a slot of the table owned by the user |
| AnalysisViewModel.SwappedBoundsSameSearch | app/src/main/java/com/example/allinone/ui/analysis/AnalysisViewModel.kt:85-91 | with both days set, exchanging them gives the same search outcome |
| AnalysisViewModel.SignedOutSearchChangesNothingElse | app/src/main/java/com/example/allinone/ui/analysis/AnalysisViewModel.kt:74-78 | without a user, only the "not logged in" error is shown; filters, loading flag and rows stay |
| AnalysisViewModel.ClearedSearchIsUnfiltered | app/src/main/java/com/example/allinone/ui/analysis/AnalysisViewModel.kt:43-49 | after clearing, a search asks for all the user's slots: no bounds, no keyword, both kinds |
| TasksScreen.Toggle | app/src/main/java/com/example/allinone/ui/tasks/TasksScreen.kt:92 | the chip's value flips membership and no other value changes |
| TasksScreen.ToggleTwice | app/src/main/java/com/example/allinone/ui/tasks/TasksScreen.kt:92 | tapping a chip twice restores the selection |
| TasksScreen.FilterCounts | app/src/main/java/com/example/allinone/ui/tasks/TasksScreen.kt:114-119 | every copy of a shown task is kept and every copy of a hidden one dropped |
| TasksScreen.FilterKeepsOrder | app/src/main/java/com/example/allinone/ui/tasks/TasksScreen.kt:114-119 | filtering a concatenation is the concatenation of the filtered parts, so order is kept |
| TasksScreen.FilterKeepsAll | app/src/main/java/com/example/allinone/ui/tasks/TasksScreen.kt:114-119 | the filter returns the whole list exactly when every task is shown |
| TasksScreen.InitialSelectionShowsValid | app/src/main/java/com/example/allinone/ui/tasks/TasksScreen.kt:41-42 | with the opening chips the whole list is shown exactly when every task has quadrant 0..4 and progress 0..2 |
| TasksScreen.ProgressCaptions | app/src/main/java/com/example/allinone/ui/tasks/TasksScreen.kt:265-275 | a card's status is the caption of the chip selecting it (anything outside 0..2 reads "not yet"), and its tag is that caption capitalised |
| TasksScreen.CheckboxSetsOnlyProgress | app/src/main/java/com/example/allinone/ui/tasks/TasksScreen.kt:137-147 | ticking sets progress 2 and unticking 1; only progress, update stamp and queued action change |
| TasksScreen.CheckboxEditDb | app/src/main/java/com/example/allinone/ui/tasks/TasksScreen.kt:137-147 | the task side is `CheckboxEdit`; no slot is added or removed |
| TasksScreen.CheckboxUnlinksSlots | app/src/main/java/com/example/allinone/ui/tasks/TasksScreen.kt:137-147 | ticking or unticking a stored task leaves it in the table but clears the link of every slot that named it; other slots are unchanged |

## Left out

- Compose rendering, navigation, colours, Canvas geometry and click throttling: these are not data logic.
- Floating point (`msToHours`, percentages, charts): not modelled.
- The network clients, `TokenStore`, Room, WorkManager, coroutines and flows: the user id, watermark, clock, server responses, fresh UUIDs and allocated row ids are parameters; a flow is the query it re-runs.
- SQL `LIKE`: read as plain substring containment. SQLite also folds ASCII case and treats `%` and `_` in the keyword as wildcards.
- `Text.Trim` and `isDigit`: whitespace is the six characters space, tab, line feed, carriage return, vertical tab (U+000B) and form feed (U+000C), and digits are `0` to `9`. Kotlin also treats U+001C to U+001F and the Unicode space separators as whitespace, and accepts other Unicode digits.
- ScheduleViewModel.SaveDraft: when `saveSlot` throws, the exception leaves the coroutine started by `viewModelScope.launch` uncaught. The model states only that nothing is saved, shown or closed, and does not follow the exception further. The same holds for `SaveDraftCorrected` and `SaveConverted`.
- ScheduleSync.ApplyPushResult: the push writes back rows under their own ids with the links they already have. The foreign key admits those links (`TasksRepository.DbWritesKeepForeignKey`, `ScheduleRepository.SaveSlotKeepsLinksResolved`), so the write is not checked again.
- Time zone: fixed at UTC+8 without daylight saving; `Calendar` and `java.time` are replaced by `Clock.DayStart` and the proleptic Gregorian calendar of `TimeUtil`.
- TimeUtil.ParseServerTimeToMillis: the ISO-8601 `OffsetDateTime.parse` is a parameter, and the pattern parser covers years 1 to 9999 only; the round-trip lemmas assume of that parameter only that it rejects text containing a space, which holds of `ISO_OFFSET_DATE_TIME` (no space in its layout, case-insensitive, signed years of more than four digits).
- ScheduleSyncMapper.ToSchedulePushItem: `TaipeiMillisFixToUtcMillis` is defined nowhere in the repository, so it is an uninterpreted parameter.
- The schedule DAO calls of the sync code (`getPending`, `findBySlotId`, `findByServerSlotId`, `upsert`) and `pushScheduleChanges`/`pullScheduleChanges` are declared nowhere; they are modelled as map operations (lookup, replace by `slotId`).
- ScheduleRepository.Validate: the three Chinese error messages are reason codes (`EndNotAfterStart`, `CrossesDay`, `MissingTitle`).
- ScheduleRepository.softDeleteSlot (lines 131-133) only forwards to the DAO; it is `ScheduleDao.SoftDeleteById`.
- ScheduleRepository.observeSlotsWithTask (lines 27-34) only forwards to the DAO; it is `ScheduleDao.ObserveSlotsWithTask`.
- Every `now` within one operation is one value, although the code reads the clock several times.
- The view model's 3x3 statistics flow calls functions that do not exist in the repository; it is not modelled.
- The view model's `selectDay`, month navigation, `setMode` and `deleteSlot`, and the day/week helpers of the screen: they are Calendar plumbing or forwarding calls.
- `toLabel`, `formatDate`, `formatHm`, `formatYmd`: `SimpleDateFormat` display helpers.
- TimeInput.DigitsToOffsetMillis: requires a non-zero step; a zero step throws in the source.
- ScheduleViewModel.OpenCreateTaskSlotDialog: the gap scan uses the default step of 30 minutes, the only value the caller passes.
- The dialog's handler that suggests an end time after a start is typed, and the text-field editing of the dialog: UI wiring around the modelled parser.
- Messages other than "not logged in", "saved" and the save failures are not modelled.
- The DTO files are mirrored as records only (`Dtos`); they hold no behaviour.
- JVM `Long` overflow is not modelled: integers are unbounded, so `alignUp` near `Long.MAX_VALUE` (ScheduleRepository.kt lines 312-315), the day and bucket arithmetic, and day ends such as `dayStart + 86_400_000 - 1` never wrap as they would on the JVM. Only `Long.toInt()` is modelled as a wrap (`Clock.ToInt32`).
- TasksRepository.UpdateLocalTask: states the task table only; what the same write does to the slot table is `TasksRepository.UpdateLocalTaskDb` and `TasksRepository.EditUnlinksSlots`.
- TasksRepository.MarkDelete: states the task table only; the slot side is `TasksRepository.MarkDeleteDb` and `TasksRepository.MarkDeleteUnlinksSlots`.
- TasksRepository.PushResultsEffect: states the task table only; the slot side is `TasksRepository.PushResultsUnlink`.
- TasksRepository.PulledTaskEffect: states the task table only; the slot side is `TasksRepository.PulledTaskUnlinks`.
- TasksScreen.CheckboxSetsOnlyProgress: states the task table only; the slot side is `TasksScreen.CheckboxUnlinksSlots`.
- TasksRepository.PullOnlyUnlinks: over a whole pull it states only that links are cleared and never set; which links each item clears is stated per item by `TasksRepository.PulledTaskUnlinks`.
- TasksRepository.CreateLocalTaskDb: states the slot side only for an id not yet taken, which a fresh UUID is.
- TasksRepository.SyncOnce: the store it runs on holds the task table only; the slot side of the same writes is `TasksRepository.ApplyPushResultsDb` and `TasksRepository.ApplyPulledTasksDb`.
- ScheduleRepository.FindFirstFreeGapOneHour: states that a gap found is free, not that it is the earliest free step-aligned hour, nor when the scan reports no gap.

## Findings

| source | as written | input that shows it | evidently intended | confidence | as-written member | corrected member |
|---|---|---|---|---|---|---|
| app/src/main/java/com/example/allinone/ui/schedule/ScheduleViewModel.kt:137-156 | `SlotDraft` has no `serverSlotId`, and `toEntity()` leaves it at its default `null`; the slot opened by `openEditSlotDialog` (224-238) therefore saves with no server id and `saveSlot` queues it as PendingCreate | a slot with `serverSlotId = Some(42)`, slotId 7, alone on its day, opened for editing and saved unchanged | the edit keeps the server id and is pushed as an update of server slot 42 | medium, not executed | ScheduleViewModel.EditOfUploadedSlotAsWritten | ScheduleViewModel.EditOfUploadedSlot |
| app/src/main/java/com/example/allinone/data/local/TaskDao.kt:70-71 | `upsert` is `@Insert(onConflict = REPLACE)`, which SQLite runs as a delete of the row holding the key followed by an insert; with the `SET_NULL` foreign key of `schedule_slots` (ScheduleSlotEntity.kt lines 8-13), every write of an existing task (edit, checkbox, soft delete, push acknowledgement, pulled update) clears the task link of its slots | a task `T` and a slot whose `localTaskId` is `T`; the user edits the title of `T` or ticks its checkbox | the slot still names `T`, which is still in the table | medium, not executed | TasksRepository.EditBreaksLinks | TasksRepository.UpdateLocalTaskKeepingLinks |
