/** `TasksRepository`: local task edits that queue a pending action, the push
    of pending rows and the pull of server changes. The token store's user id
    and sync watermark are plain state; the server's answers, fresh UUIDs and
    the clock are parameters. */
module TasksRepository {
  import opened Wrappers
  import opened Text
  import opened Clock
  import opened Entities
  import opened Dtos
  import opened TimeUtil
  import opened TaskDao
  import TaskMapper
  import ScheduleDao

  /** The task table and the two token-store values the repository reads. */
  datatype Store = Store(tasks: TaskTable, uid: Option<int>, lastSyncIso: Option<string>)

  // ---------------------------------------------------------------------
  // Local edits
  // ---------------------------------------------------------------------

  /** `createLocalTask(...)`: `freshId` is the UUID the new row draws. */
  function CreateLocalTask(t: TaskTable, uid: Option<int>, freshId: string, now: int,
                           title: string, detail: string, tag: string, quadrant: int,
                           progress: int, dueTimeMillis: Option<int>): (r: TaskTable)
    ensures uid.None? ==> r == t
    ensures uid.Some? ==>
      && freshId in r && r.Keys == t.Keys + {freshId}
      && (forall k :: k in t && k != freshId ==> r[k] == t[k])
      && var x := r[freshId];
         && x.localId == freshId && x.userUid == uid.value && x.serverTid.None?
         && x.deletedTimeMillis.None? && From(x.pendingAction) == Create
         && x.title == title && x.detail == detail && x.tag == tag && x.quadrant == quadrant
         && x.progress == progress && x.dueTimeMillis == dueTimeMillis
         && x.createdTimeMillis == Some(now) && x.updatedTimeMillis == Some(now)
         && x.localUpdatedMillis == now
    ensures WellKeyed(t) ==> WellKeyed(r)
  {
    match uid
    case None => t
    case Some(u) =>
      Upsert(t, Task(freshId, u, None, title, detail, dueTimeMillis, tag, quadrant, progress,
                     Some(now), Some(now), None, Code(Create), now))
  }

  /** A created task is queued: it is among the user's pending rows and is
      pushed as a new, not deleted task. */
  lemma CreatedTaskIsPending(t: TaskTable, uid: int, freshId: string, now: int,
                             title: string, detail: string, tag: string, quadrant: int,
                             progress: int, dueTimeMillis: Option<int>)
    ensures var r := CreateLocalTask(t, Some(uid), freshId, now, title, detail, tag, quadrant, progress, dueTimeMillis);
      && r[freshId] in GetPending(r, uid)
      && TaskMapper.ToPushItem(r[freshId]).serverTid.None?
      && !TaskMapper.ToPushItem(r[freshId]).isDeleted
  {
    var r := CreateLocalTask(t, Some(uid), freshId, now, title, detail, tag, quadrant, progress, dueTimeMillis);
    assert r[freshId] in r.Values;
  }

  /** The action a content edit leaves queued. */
  function NextActionOnEdit(code: int): (a: PendingAction)
    ensures From(code) == Create ==> a == Create
    ensures From(code) == Delete ==> a == Delete
    ensures From(code) == NoAction || From(code) == Update ==> a == Update
  {
    match From(code)
    case Create => Create
    case Delete => Delete
    case _ => Update
  }

  /** `updateLocalTask(...)`: the content is overwritten whatever the queued
      action, a queued delete included. */
  function UpdateLocalTask(t: TaskTable, localId: string, title: string, detail: string, tag: string,
                           quadrant: int, progress: int, dueTimeMillis: Option<int>, now: int): (r: TaskTable)
    requires WellKeyed(t)
    ensures WellKeyed(r) && r.Keys == t.Keys
    ensures localId !in t ==> r == t
    ensures forall k :: k in t && k != localId ==> r[k] == t[k]
    ensures localId in t ==>
      var old_, x := t[localId], r[localId];
      && x.title == title && x.detail == detail && x.tag == tag && x.quadrant == quadrant
      && x.progress == progress && x.dueTimeMillis == dueTimeMillis
      && x.updatedTimeMillis == Some(now)
      && From(x.pendingAction) == NextActionOnEdit(old_.pendingAction)
      && x == old_.(title := title, detail := detail, tag := tag, quadrant := quadrant, progress := progress,
                    dueTimeMillis := dueTimeMillis, pendingAction := x.pendingAction, updatedTimeMillis := Some(now))
  {
    match FindByLocalId(t, localId)
    case None => t
    case Some(old_) =>
      Upsert(t, old_.(title := title, detail := detail, tag := tag, quadrant := quadrant,
                      progress := progress, dueTimeMillis := dueTimeMillis,
                      pendingAction := Code(NextActionOnEdit(old_.pendingAction)),
                      updatedTimeMillis := Some(now)))
  }

  /** Editing never clears a queued action: a row that was pending stays
      pending, a queued create or delete stays exactly that, and an edit of a
      synced row queues an update. */
  lemma EditKeepsQueue(t: TaskTable, localId: string, title: string, detail: string, tag: string,
                       quadrant: int, progress: int, dueTimeMillis: Option<int>, now: int)
    requires WellKeyed(t) && localId in t
    ensures var x := UpdateLocalTask(t, localId, title, detail, tag, quadrant, progress, dueTimeMillis, now)[localId];
      && x.pendingAction != 0
      && (From(t[localId].pendingAction) == Delete <==> From(x.pendingAction) == Delete)
      && (From(t[localId].pendingAction) == Create <==> From(x.pendingAction) == Create)
      && x.localUpdatedMillis == t[localId].localUpdatedMillis
      && x.deletedTimeMillis == t[localId].deletedTimeMillis
  {
  }

  /** `markDelete(localId)`: a row never pushed is removed outright; any other
      row is soft-deleted and queued as a delete. */
  function MarkDelete(t: TaskTable, localId: string, now: int): (r: TaskTable)
    requires WellKeyed(t)
    ensures WellKeyed(r)
    ensures localId !in t ==> r == t
    ensures localId in t && From(t[localId].pendingAction) == Create ==> r == t - {localId}
    ensures localId in t && From(t[localId].pendingAction) != Create ==>
      && r.Keys == t.Keys && (forall k :: k in t && k != localId ==> r[k] == t[k])
      && r[localId] == t[localId].(deletedTimeMillis := Some(now), pendingAction := Code(Delete),
                                   localUpdatedMillis := now, updatedTimeMillis := Some(now))
  {
    match FindByLocalId(t, localId)
    case None => t
    case Some(old_) =>
      if From(old_.pendingAction) == Create then HardDeleteByLocalId(t, localId)
      else
        Upsert(t, old_.(deletedTimeMillis := Some(now), pendingAction := Code(Delete),
                        localUpdatedMillis := now, updatedTimeMillis := Some(now)))
  }

  /** After `markDelete` no row of the table carries the deleted id unless
      it is the tombstone of a task the server already knew about. */
  lemma MarkDeleteLeavesTombstone(t: TaskTable, localId: string, now: int, x: Task)
    requires WellKeyed(t) && localId in t
    requires x in MarkDelete(t, localId, now).Values && x.localId == localId
    ensures x.deletedTimeMillis.Some? && From(t[localId].pendingAction) != Create
    ensures x.pendingAction == Code(Delete)
  {
    var r := MarkDelete(t, localId, now);
    var k :| k in r && r[k] == x;
  }

  /** After `markDelete` the row is gone from every screen list. */
  lemma MarkDeleteHides(t: TaskTable, localId: string, now: int, uid: int)
    requires WellKeyed(t) && localId in t
    ensures forall x :: x in ObserveActive(MarkDelete(t, localId, now), uid) ==> x.localId != localId
  {
    var r := MarkDelete(t, localId, now);
    forall x | x in ObserveActive(r, uid) ensures x.localId != localId {
      if x.localId == localId {
        MarkDeleteLeavesTombstone(t, localId, now, x);
      }
    }
  }

  /** The deleted row is left out of the pending rows exactly when it was a
      queued create. */
  lemma MarkDeletePendingIff(t: TaskTable, localId: string, now: int, uid: int)
    requires WellKeyed(t) && localId in t && t[localId].userUid == uid
    ensures From(t[localId].pendingAction) == Create <==>
      forall x :: x in GetPending(MarkDelete(t, localId, now), uid) ==> x.localId != localId
  {
    var r := MarkDelete(t, localId, now);
    if From(t[localId].pendingAction) == Create {
      forall x | x in GetPending(r, uid) ensures x.localId != localId {
        if x.localId == localId {
          MarkDeleteLeavesTombstone(t, localId, now, x);
        }
      }
    } else {
      assert r[localId] in r.Values;
      assert r[localId] in GetPending(r, uid);
    }
  }

  /** A task the server knew about is pushed as a deletion. */
  lemma MarkDeletePushesDelete(t: TaskTable, localId: string, now: int)
    requires WellKeyed(t) && localId in t && From(t[localId].pendingAction) != Create
    ensures localId in MarkDelete(t, localId, now)
    ensures TaskMapper.ToPushItem(MarkDelete(t, localId, now)[localId]).isDeleted
  {
  }

  // ---------------------------------------------------------------------
  // pushPending
  // ---------------------------------------------------------------------

  /** One iteration of the result loop of `pushPending`. A queued delete is
      removed, through its server id when it has one (which removes every row
      carrying that id); anything else is marked synced. */
  function ApplyPushResult(t: TaskTable, r: PushResult, env: TimeEnv): (u: TaskTable)
    requires WellKeyed(t)
    ensures WellKeyed(u)
    ensures r.clientLocalId !in t ==> u == t
    ensures r.clientLocalId in t && From(t[r.clientLocalId].pendingAction) == Delete ==>
      && r.clientLocalId !in u
      && (forall k :: k in u ==> k in t && u[k] == t[k])
      && (forall k :: k in t && t[k].serverTid.None? && k != r.clientLocalId ==> k in u)
    ensures r.clientLocalId in t && From(t[r.clientLocalId].pendingAction) != Delete ==>
      var local := t[r.clientLocalId];
      && r.clientLocalId in u
      && u == t[r.clientLocalId := u[r.clientLocalId]]
      && u[r.clientLocalId] == local.(serverTid := u[r.clientLocalId].serverTid,
                                      updatedTimeMillis := Some(ParseServerTimeToMillis(r.updatedTime, env)),
                                      pendingAction := 0, localUpdatedMillis := env.now)
      && u[r.clientLocalId].serverTid == (if r.serverTid.Some? then r.serverTid else local.serverTid)
  {
    match FindByLocalId(t, r.clientLocalId)
    case None => t
    case Some(local) =>
      if From(local.pendingAction) == Delete then
        match local.serverTid
        case Some(tid) => HardDeleteByServerTid(t, tid)
        case None => HardDeleteByLocalId(t, local.localId)
      else
        Upsert(t, local.(serverTid := if r.serverTid.Some? then r.serverTid else local.serverTid,
                         updatedTimeMillis := Some(ParseServerTimeToMillis(r.updatedTime, env)),
                         pendingAction := Code(NoAction), localUpdatedMillis := env.now))
  }

  /** The result loop, in response order. */
  function ApplyPushResults(t: TaskTable, rs: seq<PushResult>, env: TimeEnv): (u: TaskTable)
    requires WellKeyed(t)
    ensures WellKeyed(u)
    decreases |rs|
  {
    if |rs| == 0 then t
    else ApplyPushResult(ApplyPushResults(t, rs[..|rs| - 1], env), rs[|rs| - 1], env)
  }

  /** Some result names `localId`. */
  predicate Named(rs: seq<PushResult>, localId: string) {
    exists i :: 0 <= i < |rs| && rs[i].clientLocalId == localId
  }

  lemma NamedSnoc(rs: seq<PushResult>, k: string)
    requires |rs| > 0
    ensures Named(rs, k) <==> Named(rs[..|rs| - 1], k) || rs[|rs| - 1].clientLocalId == k
  {
    var pre := rs[..|rs| - 1];
    if Named(pre, k) {
      var i :| 0 <= i < |pre| && pre[i].clientLocalId == k;
      assert rs[i] == pre[i];
    }
    if Named(rs, k) {
      var i :| 0 <= i < |rs| && rs[i].clientLocalId == k;
      if i < |pre| {
        assert pre[i] == rs[i];
      }
    }
  }

  /** What the result loop leaves: no new rows; every row left is either
      untouched or was named by a result and is now synced; a row without a
      server id that no result names is still there, still pending if it was;
      a row left keeps its server id if it had one. */
  lemma {:induction false} PushResultsEffect(t: TaskTable, rs: seq<PushResult>, env: TimeEnv)
    requires WellKeyed(t)
    ensures var u := ApplyPushResults(t, rs, env);
      && (forall k :: k in u ==> k in t && (u[k] == t[k] || (Named(rs, k) && u[k].pendingAction == 0)))
      && (forall k :: k in t && !Named(rs, k) && t[k].serverTid.None? ==> k in u && u[k] == t[k])
      && (forall k :: k in t && k in u && t[k].serverTid.Some? ==> u[k].serverTid.Some?)
    decreases |rs|
  {
    if |rs| > 0 {
      var pre := rs[..|rs| - 1];
      PushResultsEffect(t, pre, env);
      forall k | true {
        NamedSnoc(rs, k);
      }
    }
  }

  /** Why `pushPending` can stop early. */
  datatype PushOutcome =
    | NotLoggedIn                                   // `error("not logged in")`
    | NothingPending                                // no pending rows: no call
    | Pushed(items: seq<PushItem>, tasks: TaskTable)

  /** The request body: every pending row as a push item, in queue order. */
  function PushItems(pending: seq<Task>): (items: seq<PushItem>)
    ensures |items| == |pending|
    ensures forall i :: 0 <= i < |pending| ==> items[i] == TaskMapper.ToPushItem(pending[i])
  {
    seq(|pending|, i requires 0 <= i < |pending| => TaskMapper.ToPushItem(pending[i]))
  }

  /** `pushPending()`: `resp` is the server's answer to the items. */
  ghost function PushPending(t: TaskTable, uid: Option<int>, resp: PushResponse, env: TimeEnv): (o: PushOutcome)
    requires WellKeyed(t)
    ensures uid.None? <==> o.NotLoggedIn?
    ensures o.NothingPending? <==> uid.Some? && !HasPending(t, uid.value)
    ensures o.Pushed? ==> o.items == PushItems(GetPending(t, uid.value))
    ensures o.Pushed? ==> o.tasks == ApplyPushResults(t, resp.results, env)
  {
    match uid
    case None => NotLoggedIn
    case Some(u) =>
      var pending := GetPending(t, u);
      if |pending| == 0 then NothingPending
      else Pushed(PushItems(pending), ApplyPushResults(t, resp.results, env))
  }

  // ---------------------------------------------------------------------
  // pullIncremental
  // ---------------------------------------------------------------------

  /** The watermark used before the first sync. */
  const EPOCH_ISO: string := "1970-01-01T00:00:00Z"

  /** `getLastSyncIso() ?: "1970-01-01T00:00:00Z"` */
  function Since(lastSyncIso: Option<string>): (s: string)
    ensures lastSyncIso.None? ==> s == EPOCH_ISO
    ensures lastSyncIso.Some? ==> s == lastSyncIso.value
  {
    lastSyncIso.GetOr(EPOCH_ISO)
  }

  /** One iteration of the loop of `pullIncremental`; `freshId` is the UUID
      a task new to this device gets. */
  ghost function ApplyPulledTask(t: TaskTable, dto: TaskDto, freshId: string, env: TimeEnv): (u: TaskTable)
    requires WellKeyed(t)
    ensures WellKeyed(u)
  {
    var existing := FindByServerTid(t, dto.tid);
    if dto.deletedTime.Some? then
      match existing
      case None => t
      case Some(e) => HardDeleteByLocalId(t, e.localId)
    else
      Upsert(t, TaskMapper.ToEntity(dto, MapOpt(existing, (e: Task) => e.localId), freshId, env))
  }

  /** What one pulled task does: a server delete removes the row carrying
      that server id (nothing when there is none); anything else rewrites
      that row under its own local id, or adds a row under `freshId`. */
  lemma PulledTaskEffect(t: TaskTable, dto: TaskDto, freshId: string, env: TimeEnv)
    requires WellKeyed(t)
    ensures var u := ApplyPulledTask(t, dto, freshId, env);
      var existing := FindByServerTid(t, dto.tid);
      && (dto.deletedTime.Some? && existing.None? ==> u == t)
      && (dto.deletedTime.Some? && existing.Some? ==> u == t - {existing.value.localId})
      && (dto.deletedTime.None? && existing.Some? ==>
            u == t[existing.value.localId := TaskMapper.ToEntity(dto, Some(existing.value.localId), freshId, env)])
      && (dto.deletedTime.None? && existing.None? ==>
            u == t[freshId := TaskMapper.ToEntity(dto, None, freshId, env)])
  {
  }

  /** The loop, in response order; `freshIds[i]` is the UUID item `i` would
      draw. */
  ghost function ApplyPulledTasks(t: TaskTable, items: seq<TaskDto>, freshIds: seq<string>, env: TimeEnv): (u: TaskTable)
    requires WellKeyed(t) && |freshIds| == |items|
    ensures WellKeyed(u)
    decreases |items|
  {
    if |items| == 0 then t
    else
      var n := |items| - 1;
      ApplyPulledTask(ApplyPulledTasks(t, items[..n], freshIds[..n], env), items[n], freshIds[n], env)
  }

  /** `pullIncremental()` as the sequence of store states it passes through:
      the first write stores the server's time as the new watermark, before
      any item is applied; each later state follows one more item. `since` is
      the watermark the request was made with. */
  ghost function PullIncremental(s: Store, resp: PullResponse, freshIds: seq<string>, env: TimeEnv): (r: (string, seq<Store>))
    requires WellKeyed(s.tasks) && |freshIds| == |resp.items|
    ensures r.0 == Since(s.lastSyncIso)
    ensures |r.1| == |resp.items| + 1
    ensures r.1[0] == s.(lastSyncIso := Some(resp.serverTime))
    ensures forall i :: 0 <= i < |r.1| ==> r.1[i].lastSyncIso == Some(resp.serverTime) && r.1[i].uid == s.uid
    ensures forall i :: 0 <= i < |r.1| ==> r.1[i].tasks == ApplyPulledTasks(s.tasks, resp.items[..i], freshIds[..i], env)
  {
    var states := seq(|resp.items| + 1, i requires 0 <= i <= |resp.items| =>
      s.(lastSyncIso := Some(resp.serverTime), tasks := ApplyPulledTasks(s.tasks, resp.items[..i], freshIds[..i], env)));
    assert resp.items[..0] == [] && freshIds[..0] == [];
    (Since(s.lastSyncIso), states)
  }

  /** At most one local row carries server id `tid`. */
  ghost predicate AtMostOneRow(t: TaskTable, tid: int) {
    forall a, b :: a in t && b in t && t[a].serverTid == Some(tid) && t[b].serverTid == Some(tid) ==> a == b
  }

  /** One pulled item never gives a server id a second row. */
  lemma PulledTaskNoDuplicate(t: TaskTable, dto: TaskDto, freshId: string, env: TimeEnv, tid: int)
    requires WellKeyed(t) && AtMostOneRow(t, tid)
    ensures AtMostOneRow(ApplyPulledTask(t, dto, freshId, env), tid)
  {
    PulledTaskEffect(t, dto, freshId, env);
  }

  /** A pull never duplicates a task: a server id with at most one local row
      before has at most one after. */
  lemma {:induction false} PullNoDuplicate(t: TaskTable, items: seq<TaskDto>, freshIds: seq<string>, env: TimeEnv, tid: int)
    requires WellKeyed(t) && |freshIds| == |items| && AtMostOneRow(t, tid)
    ensures AtMostOneRow(ApplyPulledTasks(t, items, freshIds, env), tid)
    decreases |items|
  {
    if |items| > 0 {
      var n := |items| - 1;
      PullNoDuplicate(t, items[..n], freshIds[..n], env, tid);
      PulledTaskNoDuplicate(ApplyPulledTasks(t, items[..n], freshIds[..n], env), items[n], freshIds[n], env, tid);
    }
  }

  /** "At most one row" is "a row count of at most one". */
  lemma AtMostOneRowCount(t: TaskTable, tid: int)
    ensures AtMostOneRow(t, tid) <==> ServerTidCount(t, tid) <= 1
  {
    var keep := (x: Task) => x.serverTid == Some(tid);
    var r := Rows.Restrict(t, keep);
    if AtMostOneRow(t, tid) && r.Keys != {} {
      var a :| a in r.Keys;
      assert r.Keys <= {a};
      Rows.CardSubset(r.Keys, {a});
    }
    if !AtMostOneRow(t, tid) {
      var a, b :| a in t && b in t && t[a].serverTid == Some(tid) && t[b].serverTid == Some(tid) && a != b;
      assert {a, b} <= r.Keys;
      Rows.CardSubset({a, b}, r.Keys);
    }
  }

  // ---------------------------------------------------------------------
  // Task writes seen from the slot table
  // ---------------------------------------------------------------------

  /** The task table together with `schedule_slots`, whose `localTaskId`
      references `tasks.localId` with `ON DELETE SET NULL`. */
  datatype Db = Db(tasks: TaskTable, slots: ScheduleDao.SlotTable)

  /** The task rows SQLite deleted when a write of row `key` took `t` to `u`:
      the rows that are gone, and the row under `key` when there was one, since
      `INSERT OR REPLACE` deletes a row whose key it takes before inserting. */
  function Replaced(t: TaskTable, u: TaskTable, key: string): (gone: set<string>)
    ensures forall k :: k in gone <==> k in t && (k !in u || k == key)
  {
    (t.Keys - u.Keys) + (if key in t then {key} else {})
  }

  /** `dao.upsert(task)` with its foreign key action. */
  function DbUpsert(db: Db, x: Task): (r: Db)
    ensures r.tasks == Upsert(db.tasks, x)
    ensures r.slots == ScheduleDao.OnTaskRowsDeleted(db.slots, Replaced(db.tasks, r.tasks, x.localId))
  {
    Db(Upsert(db.tasks, x),
       ScheduleDao.OnTaskRowsDeleted(db.slots, if x.localId in db.tasks then {x.localId} else {}))
  }

  /** `dao.hardDeleteByLocalId(localId)` with its foreign key action. */
  function DbHardDeleteByLocalId(db: Db, localId: string): (r: Db)
    ensures r.tasks == HardDeleteByLocalId(db.tasks, localId)
    ensures r.slots == ScheduleDao.OnTaskRowsDeleted(db.slots, Replaced(db.tasks, r.tasks, localId))
  {
    Db(HardDeleteByLocalId(db.tasks, localId),
       ScheduleDao.OnTaskRowsDeleted(db.slots, if localId in db.tasks then {localId} else {}))
  }

  /** `dao.hardDeleteByServerTid(serverTid)` with its foreign key action. */
  function DbHardDeleteByServerTid(db: Db, serverTid: int): (r: Db)
    ensures r.tasks == HardDeleteByServerTid(db.tasks, serverTid)
    ensures r.slots == ScheduleDao.OnTaskRowsDeleted(db.slots, db.tasks.Keys - r.tasks.Keys)
  {
    var u := HardDeleteByServerTid(db.tasks, serverTid);
    Db(u, ScheduleDao.OnTaskRowsDeleted(db.slots, set k | k in db.tasks && db.tasks[k].serverTid == Some(serverTid)))
  }

  /** `dao.clearOtherUsers(uid)` with its foreign key action: the slots of
      every removed task, whoever owns the slot, lose their link. */
  function DbClearOtherUsers(db: Db, uid: int): (r: Db)
    ensures r.tasks == ClearOtherUsers(db.tasks, uid)
    ensures r.slots == ScheduleDao.OnTaskRowsDeleted(db.slots, db.tasks.Keys - r.tasks.Keys)
  {
    var u := ClearOtherUsers(db.tasks, uid);
    Db(u, ScheduleDao.OnTaskRowsDeleted(db.slots, set k | k in db.tasks && db.tasks[k].userUid != uid))
  }

  /** The foreign key holds: every slot link names a task row. */
  predicate ForeignKeyHolds(db: Db) {
    ScheduleDao.LinksResolve(db.slots, db.tasks.Keys)
  }

  /** The `SET NULL` action keeps the foreign key through every task write:
      a link to a row that goes is cleared, and every other link names a row
      that is still there. */
  lemma DbWritesKeepForeignKey(db: Db, x: Task, localId: string, serverTid: int, uid: int)
    requires ForeignKeyHolds(db)
    ensures ForeignKeyHolds(DbUpsert(db, x))
    ensures ForeignKeyHolds(DbHardDeleteByLocalId(db, localId))
    ensures ForeignKeyHolds(DbHardDeleteByServerTid(db, serverTid))
    ensures ForeignKeyHolds(DbClearOtherUsers(db, uid))
  {
    var r := DbUpsert(db, x);
    ScheduleDao.SetNullKeepsLinksResolved(db.slots, db.tasks.Keys, Replaced(db.tasks, r.tasks, x.localId), r.tasks.Keys);
    r := DbHardDeleteByLocalId(db, localId);
    ScheduleDao.SetNullKeepsLinksResolved(db.slots, db.tasks.Keys, Replaced(db.tasks, r.tasks, localId), r.tasks.Keys);
    r := DbHardDeleteByServerTid(db, serverTid);
    ScheduleDao.SetNullKeepsLinksResolved(db.slots, db.tasks.Keys, db.tasks.Keys - r.tasks.Keys, r.tasks.Keys);
    r := DbClearOtherUsers(db, uid);
    ScheduleDao.SetNullKeepsLinksResolved(db.slots, db.tasks.Keys, db.tasks.Keys - r.tasks.Keys, r.tasks.Keys);
  }

  /** `createLocalTask(...)` on the database. */
  function CreateLocalTaskDb(db: Db, uid: Option<int>, freshId: string, now: int,
                             title: string, detail: string, tag: string, quadrant: int,
                             progress: int, dueTimeMillis: Option<int>): (r: Db)
    ensures r.tasks == CreateLocalTask(db.tasks, uid, freshId, now, title, detail, tag, quadrant, progress, dueTimeMillis)
    ensures uid.None? || freshId !in db.tasks ==> r.slots == db.slots
  {
    match uid
    case None => db
    case Some(u) =>
      DbUpsert(db, Task(freshId, u, None, title, detail, dueTimeMillis, tag, quadrant, progress,
                        Some(now), Some(now), None, Code(Create), now))
  }

  /** `updateLocalTask(...)` on the database: the REPLACE of an existing row
      clears the link of every slot of that task, although the task stays. */
  function UpdateLocalTaskDb(db: Db, localId: string, title: string, detail: string, tag: string,
                             quadrant: int, progress: int, dueTimeMillis: Option<int>, now: int): (r: Db)
    requires WellKeyed(db.tasks)
    ensures r.tasks == UpdateLocalTask(db.tasks, localId, title, detail, tag, quadrant, progress, dueTimeMillis, now)
    ensures r.slots == ScheduleDao.OnTaskRowsDeleted(db.slots, Replaced(db.tasks, r.tasks, localId))
  {
    match FindByLocalId(db.tasks, localId)
    case None => db
    case Some(old_) =>
      DbUpsert(db, old_.(title := title, detail := detail, tag := tag, quadrant := quadrant,
                         progress := progress, dueTimeMillis := dueTimeMillis,
                         pendingAction := Code(NextActionOnEdit(old_.pendingAction)),
                         updatedTimeMillis := Some(now)))
  }

  /** Editing a task unlinks its slots: every slot that named the task names
      nothing afterwards, while the task itself is still there; every other
      slot is unchanged. */
  lemma EditUnlinksSlots(db: Db, localId: string, title: string, detail: string, tag: string,
                         quadrant: int, progress: int, dueTimeMillis: Option<int>, now: int)
    requires WellKeyed(db.tasks) && localId in db.tasks
    ensures var r := UpdateLocalTaskDb(db, localId, title, detail, tag, quadrant, progress, dueTimeMillis, now);
      && localId in r.tasks && r.slots.Keys == db.slots.Keys
      && (forall k :: k in db.slots && db.slots[k].localTaskId == Some(localId) ==> r.slots[k].localTaskId.None?)
      && (forall k :: k in db.slots && db.slots[k].localTaskId != Some(localId) ==> r.slots[k] == db.slots[k])
  {
    var r := UpdateLocalTaskDb(db, localId, title, detail, tag, quadrant, progress, dueTimeMillis, now);
    assert Replaced(db.tasks, r.tasks, localId) == {localId};
  }

  /** Every slot that names a task still in the table names it as before. */
  predicate LinksIntact(before: Db, after: Db) {
    forall k :: k in before.slots && k in after.slots && ScheduleDao.LinkedToAny(before.slots[k], after.tasks.Keys) ==>
      after.slots[k].localTaskId == before.slots[k].localTaskId
  }

  /** The edit as written breaks the links of any database where a slot names
      the edited task. */
  lemma EditBreaksLinks(db: Db, localId: string, title: string, detail: string, tag: string,
                        quadrant: int, progress: int, dueTimeMillis: Option<int>, now: int, slotId: int)
    requires WellKeyed(db.tasks) && localId in db.tasks
    requires slotId in db.slots && db.slots[slotId].localTaskId == Some(localId)
    ensures !LinksIntact(db, UpdateLocalTaskDb(db, localId, title, detail, tag, quadrant, progress, dueTimeMillis, now))
  {
    var r := UpdateLocalTaskDb(db, localId, title, detail, tag, quadrant, progress, dueTimeMillis, now);
    EditUnlinksSlots(db, localId, title, detail, tag, quadrant, progress, dueTimeMillis, now);
    assert ScheduleDao.LinkedToAny(db.slots[slotId], r.tasks.Keys);
  }

  /** The edit as evidently intended: an `UPDATE` of the row in place, which
      fires no delete action, so the slot table is left alone. */
  function UpdateLocalTaskKeepingLinks(db: Db, localId: string, title: string, detail: string, tag: string,
                                       quadrant: int, progress: int, dueTimeMillis: Option<int>, now: int): (r: Db)
    requires WellKeyed(db.tasks)
    ensures r.tasks == UpdateLocalTask(db.tasks, localId, title, detail, tag, quadrant, progress, dueTimeMillis, now)
    ensures LinksIntact(db, r) && r.slots == db.slots
  {
    Db(UpdateLocalTask(db.tasks, localId, title, detail, tag, quadrant, progress, dueTimeMillis, now), db.slots)
  }

  /** `markDelete(localId)` on the database: both the hard delete of a queued
      create and the REPLACE of the tombstone clear the links of the task's
      slots. */
  function MarkDeleteDb(db: Db, localId: string, now: int): (r: Db)
    requires WellKeyed(db.tasks)
    ensures r.tasks == MarkDelete(db.tasks, localId, now)
    ensures r.slots == ScheduleDao.OnTaskRowsDeleted(db.slots, Replaced(db.tasks, r.tasks, localId))
  {
    match FindByLocalId(db.tasks, localId)
    case None => db
    case Some(old_) =>
      if From(old_.pendingAction) == Create then DbHardDeleteByLocalId(db, localId)
      else
        DbUpsert(db, old_.(deletedTimeMillis := Some(now), pendingAction := Code(Delete),
                           localUpdatedMillis := now, updatedTimeMillis := Some(now)))
  }

  /** Whichever way a task is deleted, no slot names it afterwards and no
      other slot changes. */
  lemma MarkDeleteUnlinksSlots(db: Db, localId: string, now: int)
    requires WellKeyed(db.tasks) && localId in db.tasks
    ensures var r := MarkDeleteDb(db, localId, now);
      && r.slots.Keys == db.slots.Keys
      && (forall k :: k in db.slots && db.slots[k].localTaskId == Some(localId) ==> r.slots[k].localTaskId.None?)
      && (forall k :: k in db.slots && db.slots[k].localTaskId != Some(localId) ==> r.slots[k] == db.slots[k])
  {
    var r := MarkDeleteDb(db, localId, now);
    assert Replaced(db.tasks, r.tasks, localId) == {localId};
  }

  /** One iteration of the result loop of `pushPending` on the database. */
  function ApplyPushResultDb(db: Db, r: PushResult, env: TimeEnv): (u: Db)
    requires WellKeyed(db.tasks)
    ensures u.tasks == ApplyPushResult(db.tasks, r, env)
    ensures u.slots == ScheduleDao.OnTaskRowsDeleted(db.slots, Replaced(db.tasks, u.tasks, r.clientLocalId))
  {
    match FindByLocalId(db.tasks, r.clientLocalId)
    case None => db
    case Some(local) =>
      if From(local.pendingAction) == Delete then
        match local.serverTid
        case Some(tid) => DbHardDeleteByServerTid(db, tid)
        case None => DbHardDeleteByLocalId(db, local.localId)
      else
        DbUpsert(db, local.(serverTid := if r.serverTid.Some? then r.serverTid else local.serverTid,
                            updatedTimeMillis := Some(ParseServerTimeToMillis(r.updatedTime, env)),
                            pendingAction := Code(NoAction), localUpdatedMillis := env.now))
  }

  /** The result loop on the database, in response order. */
  function ApplyPushResultsDb(db: Db, rs: seq<PushResult>, env: TimeEnv): (u: Db)
    requires WellKeyed(db.tasks)
    ensures u.tasks == ApplyPushResults(db.tasks, rs, env)
    decreases |rs|
  {
    if |rs| == 0 then db
    else ApplyPushResultDb(ApplyPushResultsDb(db, rs[..|rs| - 1], env), rs[|rs| - 1], env)
  }

  /** What the result loop `rs` has done to the slots of `db0` by the time it
      reaches `u`: links are only ever cleared, no task row is added, and a
      slot whose task is gone or was named by a result names nothing. */
  ghost predicate PushUnlinked(db0: Db, u: Db, rs: seq<PushResult>) {
    && ScheduleDao.OnlyUnlinks(db0.slots, u.slots)
    && u.tasks.Keys <= db0.tasks.Keys
    && (forall k :: k in db0.slots && ScheduleDao.LinkedToAny(db0.slots[k], db0.tasks.Keys - u.tasks.Keys) ==>
          u.slots[k].localTaskId.None?)
    && (forall k :: (k in db0.slots && ScheduleDao.LinkedToAny(db0.slots[k], db0.tasks.Keys) &&
                     Named(rs, db0.slots[k].localTaskId.value)) ==> u.slots[k].localTaskId.None?)
  }

  /** The slot side of the result loop: links are only ever cleared; a slot
      whose task a result names, or whose task the loop removes, names nothing
      afterwards, even when the task stays as a synced row. */
  lemma {:induction false} PushResultsUnlink(db: Db, rs: seq<PushResult>, env: TimeEnv)
    requires WellKeyed(db.tasks)
    ensures PushUnlinked(db, ApplyPushResultsDb(db, rs, env), rs)
    decreases |rs|
  {
    if |rs| > 0 {
      var pre, last := rs[..|rs| - 1], rs[|rs| - 1];
      PushResultsUnlink(db, pre, env);
      var mid := ApplyPushResultsDb(db, pre, env);
      var u := ApplyPushResultDb(mid, last, env);
      PushResultStepShrinks(mid, last, env);
      UnlinkStep(db, mid, u, pre, last, Replaced(mid.tasks, u.tasks, last.clientLocalId));
      assert pre + [last] == rs;
    }
  }

  /** `PushUnlinked` survives one more write that removes or replaces the
      task rows `gone`, among them every row it drops and the row the result
      names. */
  lemma UnlinkStep(db0: Db, mid: Db, u: Db, pre: seq<PushResult>, last: PushResult, gone: set<string>)
    requires PushUnlinked(db0, mid, pre)
    requires u.slots == ScheduleDao.OnTaskRowsDeleted(mid.slots, gone)
    requires u.tasks.Keys <= mid.tasks.Keys
    requires forall k :: k in mid.tasks && (k !in u.tasks || k == last.clientLocalId) ==> k in gone
    ensures PushUnlinked(db0, u, pre + [last])
  {
    var rs := pre + [last];
    ScheduleDao.OnlyUnlinksSteps(db0.slots, mid.slots, u.slots, gone);
    ScheduleDao.OnlyUnlinksSteps(mid.slots, mid.slots, mid.slots, gone);
    forall k | k in db0.slots && ScheduleDao.LinkedToAny(db0.slots[k], db0.tasks.Keys - u.tasks.Keys)
      ensures u.slots[k].localTaskId.None?
    {
      var id := db0.slots[k].localTaskId.value;
      if id in mid.tasks {
        assert id in gone;
      }
    }
    assert rs[..|rs| - 1] == pre;
    forall k | k in db0.slots && ScheduleDao.LinkedToAny(db0.slots[k], db0.tasks.Keys) && Named(rs, db0.slots[k].localTaskId.value)
      ensures u.slots[k].localTaskId.None?
    {
      var id := db0.slots[k].localTaskId.value;
      NamedSnoc(rs, id);
      if id in mid.tasks && !Named(pre, id) {
        assert id == last.clientLocalId;
        assert id in gone;
      }
    }
  }

  /** One result never adds a task row. */
  lemma PushResultStepShrinks(db: Db, r: PushResult, env: TimeEnv)
    requires WellKeyed(db.tasks)
    ensures ApplyPushResultDb(db, r, env).tasks.Keys <= db.tasks.Keys
  {
  }

  /** One pulled item on the database. */
  ghost function ApplyPulledTaskDb(db: Db, dto: TaskDto, freshId: string, env: TimeEnv): (u: Db)
    requires WellKeyed(db.tasks)
    ensures u.tasks == ApplyPulledTask(db.tasks, dto, freshId, env)
  {
    var existing := FindByServerTid(db.tasks, dto.tid);
    if dto.deletedTime.Some? then
      match existing
      case None => db
      case Some(e) => DbHardDeleteByLocalId(db, e.localId)
    else
      DbUpsert(db, TaskMapper.ToEntity(dto, MapOpt(existing, (e: Task) => e.localId), freshId, env))
  }

  /** A pulled item that finds a local row with its server id, deleted on the
      server or not, clears the links of every slot of that row; one that
      finds none touches no slot unless its fresh id was already taken. */
  lemma PulledTaskUnlinks(db: Db, dto: TaskDto, freshId: string, env: TimeEnv)
    requires WellKeyed(db.tasks)
    ensures var u := ApplyPulledTaskDb(db, dto, freshId, env);
      var existing := FindByServerTid(db.tasks, dto.tid);
      && (existing.Some? ==> u.slots == ScheduleDao.OnTaskRowsDeleted(db.slots, {existing.value.localId}))
      && (existing.None? && (dto.deletedTime.Some? || freshId !in db.tasks) ==> u.slots == db.slots)
      && (existing.None? && dto.deletedTime.None? && freshId in db.tasks ==>
            u.slots == ScheduleDao.OnTaskRowsDeleted(db.slots, {freshId}))
  {
    var existing := FindByServerTid(db.tasks, dto.tid);
    if existing.None? && (dto.deletedTime.Some? || freshId !in db.tasks) {
      var u := ApplyPulledTaskDb(db, dto, freshId, env);
      assert u.slots == ScheduleDao.OnTaskRowsDeleted(db.slots, {});
    }
  }

  /** The pull loop on the database. */
  ghost function ApplyPulledTasksDb(db: Db, items: seq<TaskDto>, freshIds: seq<string>, env: TimeEnv): (u: Db)
    requires WellKeyed(db.tasks) && |freshIds| == |items|
    ensures u.tasks == ApplyPulledTasks(db.tasks, items, freshIds, env)
    decreases |items|
  {
    if |items| == 0 then db
    else
      var n := |items| - 1;
      ApplyPulledTaskDb(ApplyPulledTasksDb(db, items[..n], freshIds[..n], env), items[n], freshIds[n], env)
  }

  /** A pull never links a slot to a task, never adds or removes a slot and
      never changes anything of a slot but its link. */
  lemma {:induction false} PullOnlyUnlinks(db: Db, items: seq<TaskDto>, freshIds: seq<string>, env: TimeEnv)
    requires WellKeyed(db.tasks) && |freshIds| == |items|
    ensures ScheduleDao.OnlyUnlinks(db.slots, ApplyPulledTasksDb(db, items, freshIds, env).slots)
    decreases |items|
  {
    if |items| > 0 {
      var n := |items| - 1;
      var mid := ApplyPulledTasksDb(db, items[..n], freshIds[..n], env);
      PullOnlyUnlinks(db, items[..n], freshIds[..n], env);
      PulledTaskUnlinks(mid, items[n], freshIds[n], env);
      var u := ApplyPulledTaskDb(mid, items[n], freshIds[n], env);
      var existing := FindByServerTid(mid.tasks, items[n].tid);
      var gone := if existing.Some? then {existing.value.localId}
                  else if items[n].deletedTime.None? && freshIds[n] in mid.tasks then {freshIds[n]} else {};
      assert u.slots == ScheduleDao.OnTaskRowsDeleted(mid.slots, gone);
      ScheduleDao.OnlyUnlinksSteps(mid.slots, mid.slots, mid.slots, gone);
      ScheduleDao.OnlyUnlinksSteps(db.slots, mid.slots, u.slots, gone);
    }
  }

  // ---------------------------------------------------------------------
  // syncOnce
  // ---------------------------------------------------------------------

  datatype SyncOutcome =
    | SyncNotLoggedIn                               // push threw; no pull
    | Synced(push: PushOutcome, since: string, states: seq<Store>)

  /** `syncOnce()`: the push runs to completion first and the pull starts
      from the table the push left. */
  ghost function SyncOnce(s: Store, pushResp: PushResponse, pullResp: PullResponse,
                          freshIds: seq<string>, env: TimeEnv): (o: SyncOutcome)
    requires WellKeyed(s.tasks) && |freshIds| == |pullResp.items|
    ensures s.uid.None? <==> o.SyncNotLoggedIn?
    ensures o.Synced? ==>
      && o.push == PushPending(s.tasks, s.uid, pushResp, env)
      && |o.states| > 0
      && o.states[0].tasks == (if o.push.Pushed? then o.push.tasks else s.tasks)
      && o.states[0].lastSyncIso == Some(pullResp.serverTime)
  {
    var push := PushPending(s.tasks, s.uid, pushResp, env);
    if push.NotLoggedIn? then SyncNotLoggedIn
    else
      var afterPush := if push.Pushed? then push.tasks else s.tasks;
      var pull := PullIncremental(s.(tasks := afterPush), pullResp, freshIds, env);
      Synced(push, pull.0, pull.1)
  }

  // ---------------------------------------------------------------------
  // Day ranges
  // ---------------------------------------------------------------------

  /** `todayRangeMillis(now)` and `dayRangeMillis(any)`: the local day of the
      instant as an inclusive millisecond range. */
  function DayRangeMillis(anyMillis: int): (r: (int, int))
    ensures IsLocalMidnight(r.0)
    ensures r.0 <= anyMillis <= r.1 && r.1 == r.0 + DAY_MS - 1
  {
    var start := DayStart(anyMillis);
    (start, start + DAY_MS - 1)
  }

  /** An instant lies in the range exactly when it falls on the same local
      day. */
  lemma DayRangeIsTheDay(anyMillis: int, m: int)
    ensures DayRangeMillis(anyMillis).0 <= m <= DayRangeMillis(anyMillis).1 <==> DayStart(m) == DayStart(anyMillis)
  {
    if DayRangeMillis(anyMillis).0 <= m <= DayRangeMillis(anyMillis).1 {
      DayStartOfDay(anyMillis, m);
    }
  }

  /** `observeTasks(query)`: the trimmed query picks search or the full
      active list; without a user it throws. */
  ghost function ObserveTasks(t: TaskTable, uid: Option<int>, query: string): (r: Option<seq<Task>>)
    ensures r.None? <==> uid.None?
    ensures r.Some? && IsBlank(query) ==> r.value == ObserveActive(t, uid.value)
    ensures r.Some? && !IsBlank(query) ==> r.value == ObserveSearch(t, uid.value, Trim(query))
  {
    match uid
    case None => None
    case Some(u) =>
      var q := Trim(query);
      if q == [] then Some(ObserveActive(t, u)) else Some(ObserveSearch(t, u, q))
  }
}
