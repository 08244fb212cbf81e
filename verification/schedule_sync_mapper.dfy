/** `ScheduleSyncMapper`: slot row to push item and server slot to row. */
module ScheduleSyncMapper {
  import opened Wrappers
  import opened Clock
  import opened Entities
  import opened Dtos
  import opened TimeUtil
  import TaskMapper

  /** `toSchedulePushItem(op)`. The code calls `TaipeiMillisFixToUtcMillis`,
      which is defined nowhere in the repository; it is the parameter
      `toUtc`. */
  function ToSchedulePushItem(s: Slot, op: string, toUtc: int -> int): (p: ScheduleSyncPushItem)
    ensures p.op == op && p.clientSlotId == s.slotId && p.serverSlotId == s.serverSlotId
    ensures p.dateMillis == toUtc(s.dateMillis) && p.startTimeMillis == toUtc(s.startTimeMillis)
    ensures p.endTimeMillis == toUtc(s.endTimeMillis)
    ensures p.localTaskId == s.localTaskId && p.customTitle == s.customTitle && p.note == s.note
    ensures p.updatedTime == MillisToServerIso(s.updatedTimeMillis)
  {
    ScheduleSyncPushItem(
      op, s.slotId, s.serverSlotId, toUtc(s.dateMillis), toUtc(s.startTimeMillis),
      toUtc(s.endTimeMillis), s.localTaskId, s.customTitle, s.note,
      MillisToServerIso(s.updatedTimeMillis))
  }

  /** `ScheduleSyncSlotDto.toEntity(existingLocalId)`; `env.now` stamps
      `createdTimeMillis` on both branches of its `let`. */
  function ToEntity(dto: ScheduleSyncSlotDto, existingLocalId: Option<int>, env: TimeEnv): (e: Slot)
    ensures e.slotId == (if existingLocalId.Some? then existingLocalId.value else 0)
    ensures e.ownerUid == dto.ownerUid && e.serverSlotId == Some(dto.serverSlotId)
    ensures e.syncState == SYNCED && e.createdTimeMillis == env.now
    ensures e.dateMillis - dto.dateMillis == ZONE_OFFSET_MS
    ensures e.startTimeMillis - dto.startTimeMillis == ZONE_OFFSET_MS
    ensures e.endTimeMillis - dto.endTimeMillis == ZONE_OFFSET_MS
    ensures e.localTaskId == dto.localTaskId && e.customTitle == dto.customTitle && e.note == dto.note
    ensures e.updatedTimeMillis == ParseServerTimeToMillis(dto.updatedTime, env)
    ensures e.deletedTimeMillis.None? <==> dto.deletedTime.None?
    ensures dto.deletedTime.Some? ==> e.deletedTimeMillis == Some(ParseServerTimeToMillis(dto.deletedTime.value, env))
  {
    Slot(
      existingLocalId.GetOr(0), dto.ownerUid,
      UtcMillisFixToTaipeiMillis(dto.dateMillis),
      UtcMillisFixToTaipeiMillis(dto.startTimeMillis),
      UtcMillisFixToTaipeiMillis(dto.endTimeMillis),
      dto.localTaskId, dto.customTitle, dto.note, Some(dto.serverSlotId), SYNCED,
      env.now, ParseServerTimeToMillis(dto.updatedTime, env),
      TaskMapper.ParseOpt(dto.deletedTime, env))
  }

  /** The shift keeps the slot's shape: its duration, the order of start and
      end, and where the start sits relative to the date. */
  lemma ToEntityKeepsShape(dto: ScheduleSyncSlotDto, existingLocalId: Option<int>, env: TimeEnv)
    ensures var e := ToEntity(dto, existingLocalId, env);
      && e.endTimeMillis - e.startTimeMillis == dto.endTimeMillis - dto.startTimeMillis
      && (e.startTimeMillis < e.endTimeMillis <==> dto.startTimeMillis < dto.endTimeMillis)
      && e.startTimeMillis - e.dateMillis == dto.startTimeMillis - dto.dateMillis
  {
  }

  /** Were `toUtc` the inverse of the +8 h correction, a pulled slot pushed
      back would send the server's own times and content. */
  lemma PulledSlotPushesBack(dto: ScheduleSyncSlotDto, existingLocalId: Option<int>, env: TimeEnv, op: string, toUtc: int -> int)
    requires forall x :: toUtc(UtcMillisFixToTaipeiMillis(x)) == x
    ensures var p := ToSchedulePushItem(ToEntity(dto, existingLocalId, env), op, toUtc);
      && p.serverSlotId == Some(dto.serverSlotId)
      && p.dateMillis == dto.dateMillis && p.startTimeMillis == dto.startTimeMillis
      && p.endTimeMillis == dto.endTimeMillis
      && p.localTaskId == dto.localTaskId && p.customTitle == dto.customTitle && p.note == dto.note
  {
  }
}
