/** The sync half of `ScheduleRepository`: sending pending slots and applying
    the server's push results, and applying a pull. The DAO calls the code
    makes here (`getPending`, `findBySlotId`, `findByServerSlotId`, `upsert`)
    are the map operations of `ScheduleDao`; the server's answers are
    parameters. */
module ScheduleSync {
  import opened Wrappers
  import opened Entities
  import opened Dtos
  import opened TimeUtil
  import opened ScheduleDao
  import ScheduleSyncMapper

  /** The operation name pushed for a `syncState`. */
  function OpOf(syncState: int): (op: string)
    ensures syncState == PENDING_CREATE ==> op == "create"
    ensures syncState == PENDING_DELETE ==> op == "delete"
    ensures syncState != PENDING_CREATE && syncState != PENDING_DELETE ==> op == "update"
  {
    if syncState == 1 then "create"
    else if syncState == 2 then "update"
    else if syncState == 3 then "delete"
    else "update"
  }

  /** Every pushed slot is announced as exactly one of the three operations. */
  lemma OpsAreKnown(syncState: int)
    ensures OpOf(syncState) in {"create", "update", "delete"}
    ensures OpOf(syncState) == "delete" <==> syncState == PENDING_DELETE
  {
  }

  /** The row a push result writes back for `local`. */
  function Settled(local: Slot, r: ScheduleSyncPushResult, env: TimeEnv): (s: Slot)
    ensures s.syncState == SYNCED && s.slotId == local.slotId
    ensures local.syncState == PENDING_DELETE || r.deleted ==>
      && s == local.(deletedTimeMillis := s.deletedTimeMillis, syncState := SYNCED, updatedTimeMillis := env.now)
      && s.deletedTimeMillis == (if local.deletedTimeMillis.Some? then local.deletedTimeMillis else Some(env.now))
    ensures !(local.syncState == PENDING_DELETE || r.deleted) ==>
      && s == local.(serverSlotId := s.serverSlotId, syncState := SYNCED, updatedTimeMillis := s.updatedTimeMillis)
      && s.serverSlotId == (if r.serverSlotId.Some? then r.serverSlotId else local.serverSlotId)
      && s.updatedTimeMillis == ParseServerTimeToMillis(r.updatedTime, env)
  {
    if local.syncState == 3 || r.deleted then
      local.(deletedTimeMillis := if local.deletedTimeMillis.Some? then local.deletedTimeMillis else Some(env.now),
             syncState := 0, updatedTimeMillis := env.now)
    else
      local.(serverSlotId := if r.serverSlotId.Some? then r.serverSlotId else local.serverSlotId,
             syncState := 0, updatedTimeMillis := ParseServerTimeToMillis(r.updatedTime, env))
  }

  /** One iteration of the result loop of `pushPending`: a result naming no
      local row is skipped. The `upsert` rewrites the row under its own id
      with the task link it already has, which the foreign key admits. */
  ghost function ApplyPushResult(t: SlotTable, r: ScheduleSyncPushResult, env: TimeEnv): (u: SlotTable)
    requires WellKeyed(t) && PositiveIds(t)
    ensures WellKeyed(u) && PositiveIds(u) && u.Keys == t.Keys
    ensures r.clientSlotId !in t ==> u == t
    ensures r.clientSlotId in t ==> u == t[r.clientSlotId := Settled(t[r.clientSlotId], r, env)]
  {
    match FindBySlotId(t, r.clientSlotId)
    case None => t
    case Some(local) => t[local.slotId := Settled(local, r, env)]
  }

  /** The result loop of `pushPending`, in response order. */
  ghost function ApplyPushResults(t: SlotTable, rs: seq<ScheduleSyncPushResult>, env: TimeEnv): (u: SlotTable)
    requires WellKeyed(t) && PositiveIds(t)
    ensures WellKeyed(u) && PositiveIds(u) && u.Keys == t.Keys
    decreases |rs|
  {
    if |rs| == 0 then t
    else ApplyPushResult(ApplyPushResults(t, rs[..|rs| - 1], env), rs[|rs| - 1], env)
  }

  /** `clientSlotId` is named by some result. */
  predicate Named(rs: seq<ScheduleSyncPushResult>, id: int) {
    exists i :: 0 <= i < |rs| && rs[i].clientSlotId == id
  }

  /** Naming in a longer response: the shorter one or its last result. */
  lemma NamedSnoc(rs: seq<ScheduleSyncPushResult>, k: int)
    requires |rs| > 0
    ensures Named(rs, k) <==> Named(rs[..|rs| - 1], k) || rs[|rs| - 1].clientSlotId == k
  {
    var pre := rs[..|rs| - 1];
    if Named(pre, k) {
      var i :| 0 <= i < |pre| && pre[i].clientSlotId == k;
      assert rs[i] == pre[i];
    }
    if Named(rs, k) {
      var i :| 0 <= i < |rs| && rs[i].clientSlotId == k;
      if i < |pre| {
        assert pre[i] == rs[i];
      }
    }
  }

  /** Rows no result names are left as they were; rows some result names end
      up synced, and a row queued as a delete ends with a delete stamp. No
      row loses its delete stamp or its server id. */
  lemma {:induction false} PushResultsFrame(t: SlotTable, rs: seq<ScheduleSyncPushResult>, env: TimeEnv, k: int)
    requires WellKeyed(t) && PositiveIds(t) && k in t
    ensures var u := ApplyPushResults(t, rs, env);
      && (!Named(rs, k) ==> u[k] == t[k])
      && (Named(rs, k) ==> u[k].syncState == SYNCED)
      && (Named(rs, k) && t[k].syncState == PENDING_DELETE ==> u[k].deletedTimeMillis.Some?)
      && (t[k].deletedTimeMillis.Some? ==> u[k].deletedTimeMillis.Some?)
      && (t[k].serverSlotId.Some? ==> u[k].serverSlotId.Some?)
    decreases |rs|
  {
    if |rs| > 0 {
      var pre := rs[..|rs| - 1];
      PushResultsFrame(t, pre, env, k);
      NamedSnoc(rs, k);
      var mid := ApplyPushResults(t, pre, env);
      if rs[|rs| - 1].clientSlotId == k && !Named(pre, k) {
        assert mid[k] == t[k];
      }
    }
  }

  /** Why `pushPending` can stop early. */
  datatype PushOutcome =
    | NotLoggedIn                                   // `error("not logged in")`
    | NothingPending                                // no pending rows: no call
    | Pushed(items: seq<ScheduleSyncPushItem>, table: SlotTable)

  /** The request body: each pending slot with its operation name. */
  function PushItems(pending: seq<Slot>, toUtc: int -> int): (items: seq<ScheduleSyncPushItem>)
    ensures |items| == |pending|
    ensures forall i :: 0 <= i < |pending| ==>
      items[i] == ScheduleSyncMapper.ToSchedulePushItem(pending[i], OpOf(pending[i].syncState), toUtc)
  {
    seq(|pending|, i requires 0 <= i < |pending| =>
      ScheduleSyncMapper.ToSchedulePushItem(pending[i], OpOf(pending[i].syncState), toUtc))
  }

  /** `pushPending()`: `resp` is the server's answer to `items`; `toUtc`
      stands for the undefined `TaipeiMillisFixToUtcMillis`. */
  ghost function PushPending(t: SlotTable, uid: Option<int>, resp: ScheduleSyncPushResponse,
                             env: TimeEnv, toUtc: int -> int): (o: PushOutcome)
    requires WellKeyed(t) && PositiveIds(t)
    ensures uid.None? <==> o.NotLoggedIn?
    ensures o.NothingPending? <==> uid.Some? && !HasPending(t, uid.value)
    ensures o.Pushed? ==> o.items == PushItems(GetPending(t, uid.value), toUtc)
    ensures o.Pushed? ==> o.table == ApplyPushResults(t, resp.results, env)
  {
    match uid
    case None => NotLoggedIn
    case Some(u) =>
      var pending := GetPending(t, u);
      if |pending| == 0 then NothingPending
      else Pushed(PushItems(pending, toUtc), ApplyPushResults(t, resp.results, env))
  }

  /** Every item sent is a pending slot of the user, announced with the
      operation its sync state calls for. */
  lemma PushedItemsArePending(t: SlotTable, uid: int, toUtc: int -> int, i: int)
    requires 0 <= i < |GetPending(t, uid)|
    ensures var s := GetPending(t, uid)[i];
      var p := PushItems(GetPending(t, uid), toUtc)[i];
      && s in t.Values && s.ownerUid == uid && s.syncState != SYNCED
      && p.clientSlotId == s.slotId && p.op == OpOf(s.syncState)
  {
    var pending := GetPending(t, uid);
    assert pending[i] in pending;
  }

  // ---------------------------------------------------------------------
  // pullIncremental
  // ---------------------------------------------------------------------

  /** One iteration of the loop of `pullIncremental`. `taskIds` are the keys
      of `tasks`, and `rowId` is the id SQLite gives the row the item adds,
      if it adds one. `None`: the `upsert` threw, because the row it writes
      links a task row that does not exist. */
  ghost function ApplyPulledSlot(t: SlotTable, taskIds: set<string>, dto: ScheduleSyncSlotDto, env: TimeEnv,
                                 rowId: int): (u: Option<SlotTable>)
    requires WellKeyed(t) && rowId !in t
    ensures u.Some? ==> WellKeyed(u.value) && u.value.Keys <= t.Keys + {rowId}
    ensures var existing := FindByServerSlotId(t, dto.serverSlotId);
      && (u.None? <==>
            if dto.deletedTime.Some? then existing.Some? && !LinkResolves(existing.value, taskIds)
            else Dangles(dto, taskIds))
      && (dto.deletedTime.Some? && existing.None? ==> u == Some(t))
  {
    var existing := FindByServerSlotId(t, dto.serverSlotId);
    if dto.deletedTime.Some? then
      match existing
      case None => Some(t)
      case Some(e) =>
        Upsert(t, taskIds, e.(deletedTimeMillis := Some(ParseServerTimeToMillis(dto.deletedTime.value, env)),
                              syncState := 0, updatedTimeMillis := env.now), rowId)
    else
      var entity := ScheduleSyncMapper.ToEntity(dto, MapOpt(existing, (e: Slot) => e.slotId), env);
      Upsert(t, taskIds, if existing.Some? then entity.(slotId := existing.value.slotId) else entity, rowId)
  }

  /** A pulled live item whose task link names no task row here: the server
      hands out the other device's link as it is. */
  predicate Dangles(dto: ScheduleSyncSlotDto, taskIds: set<string>) {
    dto.deletedTime.None? && dto.localTaskId.Some? && dto.localTaskId.value !in taskIds
  }

  /** What one pulled slot does to the table. A server delete soft-deletes
      the row carrying that server id and touches nothing else (nothing at
      all when there is none); any other item replaces that row in place,
      under its own `slotId`, or adds one new row under `rowId`. The write
      throws exactly when the row it writes links a missing task: for a live
      item, the item's own link. */
  lemma PulledSlotEffect(t: SlotTable, taskIds: set<string>, dto: ScheduleSyncSlotDto, env: TimeEnv, rowId: int)
    requires WellKeyed(t) && PositiveIds(t) && rowId !in t
    ensures var u := ApplyPulledSlot(t, taskIds, dto, env, rowId);
      var existing := FindByServerSlotId(t, dto.serverSlotId);
      && (u.None? <==>
            if dto.deletedTime.Some? then existing.Some? && !LinkResolves(existing.value, taskIds)
            else Dangles(dto, taskIds))
      && (dto.deletedTime.Some? && existing.None? ==> u == Some(t))
      && (u.Some? && dto.deletedTime.Some? && existing.Some? ==>
            var k := existing.value.slotId;
            && u.value.Keys == t.Keys && u.value[k].deletedTimeMillis.Some? && u.value[k].syncState == SYNCED
            && u.value[k] == t[k].(deletedTimeMillis := u.value[k].deletedTimeMillis, syncState := SYNCED,
                                   updatedTimeMillis := env.now)
            && forall j :: j in t && j != k ==> u.value[j] == t[j])
      && (u.Some? && dto.deletedTime.None? && existing.Some? ==>
            var k := existing.value.slotId;
            && u.value.Keys == t.Keys && u.value[k] == ScheduleSyncMapper.ToEntity(dto, Some(k), env)
            && forall j :: j in t && j != k ==> u.value[j] == t[j])
      && (u.Some? && dto.deletedTime.None? ==>
            (exists k :: k in u.value && u.value[k].serverSlotId == Some(dto.serverSlotId)
                         && u.value[k].syncState == SYNCED && u.value[k].deletedTimeMillis.None?))
      && (u.Some? && dto.deletedTime.None? && existing.None? ==>
            && u.value.Keys == t.Keys + {rowId} && u.value[rowId] == ScheduleSyncMapper.ToEntity(dto, None, env).(slotId := rowId)
            && forall j :: j in t ==> u.value[j] == t[j])
  {
    var existing := FindByServerSlotId(t, dto.serverSlotId);
    var u := ApplyPulledSlot(t, taskIds, dto, env, rowId);
    if dto.deletedTime.None? {
      if existing.Some? {
        var k := existing.value.slotId;
        assert k > 0;
        if u.Some? {
          assert u.value[k].serverSlotId == Some(dto.serverSlotId);
        }
      } else if u.Some? {
        assert u.value[rowId].serverSlotId == Some(dto.serverSlotId);
      }
    } else if existing.Some? {
      assert existing.value.slotId > 0;
    }
  }

  /** Where the loop of `pullIncremental` stands: running, with `next` the
      id SQLite's AUTOINCREMENT counter gives the next new row, or stopped by
      an `upsert` that threw, keeping the rows written before it (the loop
      runs outside any transaction). */
  datatype PullRun = Running(slots: SlotTable, next: int) | Threw(slots: SlotTable)

  /** Every row id lies below the counter. */
  predicate Below(t: SlotTable, next: int) {
    forall k :: k in t ==> k < next
  }

  /** The loop of `pullIncremental`, in response order, from the counter
      value `next`; an item that adds a row takes the counter's id and moves
      it on by one. */
  ghost function ApplyPulledSlots(t: SlotTable, taskIds: set<string>, items: seq<ScheduleSyncSlotDto>, env: TimeEnv,
                                  next: int): (r: PullRun)
    requires WellKeyed(t) && Below(t, next)
    ensures WellKeyed(r.slots)
    ensures r.Running? ==> Below(r.slots, r.next) && next <= r.next
    decreases |items|
  {
    if |items| == 0 then Running(t, next)
    else
      match ApplyPulledSlots(t, taskIds, items[..|items| - 1], env, next)
      case Threw(u) => Threw(u)
      case Running(u, n) =>
        match ApplyPulledSlot(u, taskIds, items[|items| - 1], env, n)
        case None => Threw(u)
        case Some(v) => Running(v, if n in v then n + 1 else n)
  }

  /** `pullIncremental(since)`: `resp` is the server's answer for `since`.
      The server's time comes back as the new watermark only when every item
      was written; a write that throws leaves the function with no result. */
  ghost function PullIncremental(t: SlotTable, taskIds: set<string>, resp: ScheduleSyncPullResponse, env: TimeEnv,
                                 next: int): (r: (PullRun, Option<string>))
    requires WellKeyed(t) && Below(t, next)
    ensures r.1.Some? <==> r.0.Running?
    ensures r.1.Some? ==> r.1.value == resp.serverTime
    ensures WellKeyed(r.0.slots)
    ensures |resp.items| == 0 ==> r.0 == Running(t, next)
  {
    var run := ApplyPulledSlots(t, taskIds, resp.items, env, next);
    (run, if run.Running? then Some(resp.serverTime) else None)
  }

  /** Pulls never remove a row: slots are only ever soft-deleted. */
  lemma {:induction false} PullKeepsRows(t: SlotTable, taskIds: set<string>, items: seq<ScheduleSyncSlotDto>,
                                         env: TimeEnv, next: int)
    requires WellKeyed(t) && PositiveIds(t) && Below(t, next) && next > 0
    ensures var r := ApplyPulledSlots(t, taskIds, items, env, next);
      && t.Keys <= r.slots.Keys && PositiveIds(r.slots)
      && (r.Running? ==> r.next > 0)
    decreases |items|
  {
    if |items| > 0 {
      var n := |items| - 1;
      PullKeepsRows(t, taskIds, items[..n], env, next);
      var pre := ApplyPulledSlots(t, taskIds, items[..n], env, next);
      if pre.Running? {
        PulledSlotEffect(pre.slots, taskIds, items[n], env, pre.next);
      }
    }
  }

  /** Some item of `items` dangles. */
  predicate SomeDangles(items: seq<ScheduleSyncSlotDto>, taskIds: set<string>) {
    exists i :: 0 <= i < |items| && Dangles(items[i], taskIds)
  }

  /** On a table that satisfies the foreign key, a pull stops exactly when
      some live item links a task row that does not exist here, and the
      table satisfies the foreign key whichever way the pull ends. */
  lemma {:induction false} PullStopsOnDanglingLink(t: SlotTable, taskIds: set<string>, items: seq<ScheduleSyncSlotDto>,
                                                   env: TimeEnv, next: int)
    requires WellKeyed(t) && PositiveIds(t) && Below(t, next) && next > 0 && LinksResolve(t, taskIds)
    ensures var r := ApplyPulledSlots(t, taskIds, items, env, next);
      && (r.Threw? <==> SomeDangles(items, taskIds))
      && LinksResolve(r.slots, taskIds)
    decreases |items|
  {
    if |items| > 0 {
      var n := |items| - 1;
      var pre := items[..n];
      PullStopsOnDanglingLink(t, taskIds, pre, env, next);
      PullKeepsRows(t, taskIds, pre, env, next);
      var r0 := ApplyPulledSlots(t, taskIds, pre, env, next);
      if SomeDangles(pre, taskIds) {
        var i :| 0 <= i < |pre| && Dangles(pre[i], taskIds);
        assert items[i] == pre[i];
      }
      if SomeDangles(items, taskIds) && !Dangles(items[n], taskIds) {
        var i :| 0 <= i < |items| && Dangles(items[i], taskIds);
        assert pre[i] == items[i];
      }
      if r0.Running? {
        PulledSlotEffect(r0.slots, taskIds, items[n], env, r0.next);
        var existing := FindByServerSlotId(r0.slots, items[n].serverSlotId);
        if existing.Some? {
          assert LinkResolves(r0.slots[existing.value.slotId], taskIds);
        }
      }
    }
  }
}
