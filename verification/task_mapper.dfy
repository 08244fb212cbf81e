/** `TaskMapper`: server task to table row and table row to push item. */
module TaskMapper {
  import opened Wrappers
  import opened Entities
  import opened Dtos
  import opened TimeUtil

  /** `dto?.let(::parseServerTimeToMillis)` */
  function ParseOpt(s: Option<string>, env: TimeEnv): (r: Option<int>)
    ensures r.None? <==> s.None?
    ensures s.Some? ==> r.value == ParseServerTimeToMillis(s.value, env)
  {
    match s
    case None => None
    case Some(v) => Some(ParseServerTimeToMillis(v, env))
  }

  /** `TaskDto.toEntity(existingLocalId)`: `freshId` is the UUID drawn when no
      local id is given; `env.now` is both the parse fallback and the
      `localUpdatedMillis` stamp. */
  function ToEntity(dto: TaskDto, existingLocalId: Option<string>, freshId: string, env: TimeEnv): (e: Task)
    ensures e.localId == (if existingLocalId.Some? then existingLocalId.value else freshId)
    ensures e.serverTid == Some(dto.tid) && e.userUid == dto.userUid
    ensures From(e.pendingAction) == NoAction && e.localUpdatedMillis == env.now
    ensures e.title == dto.title && e.detail == dto.detail && e.tag == dto.tag
    ensures e.quadrant == dto.quadrant && e.progress == dto.progress
    ensures e.dueTimeMillis.None? <==> dto.dueTime.None?
    ensures e.createdTimeMillis.None? <==> dto.createdTime.None?
    ensures e.deletedTimeMillis.None? <==> dto.deletedTime.None?
    ensures dto.dueTime.Some? ==> e.dueTimeMillis.value == ParseServerTimeToMillis(dto.dueTime.value, env)
    ensures dto.createdTime.Some? ==> e.createdTimeMillis.value == ParseServerTimeToMillis(dto.createdTime.value, env)
    ensures dto.deletedTime.Some? ==> e.deletedTimeMillis.value == ParseServerTimeToMillis(dto.deletedTime.value, env)
    ensures e.updatedTimeMillis == Some(ParseServerTimeToMillis(dto.updatedTime, env))
  {
    Task(
      existingLocalId.GetOr(freshId), dto.userUid, Some(dto.tid), dto.title, dto.detail,
      ParseOpt(dto.dueTime, env), dto.tag, dto.quadrant, dto.progress,
      ParseOpt(dto.createdTime, env), Some(ParseServerTimeToMillis(dto.updatedTime, env)),
      ParseOpt(dto.deletedTime, env), Code(NoAction), env.now)
  }

  /** `TaskEntity.toPushItem()` */
  function ToPushItem(e: Task): (p: PushItem)
    ensures p.clientLocalId == e.localId && p.serverTid == e.serverTid
    ensures p.title == e.title && p.detail == e.detail && p.tag == e.tag
    ensures p.quadrant == e.quadrant && p.progress == e.progress
    ensures p.dueTime.None? <==> e.dueTimeMillis.None?
    ensures p.updatedTime.None? <==> e.updatedTimeMillis.None?
    ensures e.dueTimeMillis.Some? ==> p.dueTime.value == NormalizeToLocalStartOfDay(e.dueTimeMillis.value)
    ensures e.updatedTimeMillis.Some? ==> p.updatedTime.value == MillisToServerIso(e.updatedTimeMillis.value)
    ensures p.isDeleted <==> e.deletedTimeMillis.Some? || e.pendingAction == Code(Delete)
  {
    FromIsCode(e.pendingAction, Delete);
    PushItem(
      e.localId, e.serverTid, e.title, e.detail,
      MapOpt(e.dueTimeMillis, NormalizeToLocalStartOfDay), e.tag, e.quadrant, e.progress,
      MapOpt(e.updatedTimeMillis, MillisToServerIso),
      e.deletedTimeMillis.Some? || From(e.pendingAction) == Delete)
  }

  /** A pulled task pushed back unchanged names the same server task, carries
      the server's content and is a deletion exactly when the server had
      deleted it. */
  lemma PulledTaskPushesBack(dto: TaskDto, existingLocalId: Option<string>, freshId: string, env: TimeEnv)
    ensures var p := ToPushItem(ToEntity(dto, existingLocalId, freshId, env));
      && p.serverTid == Some(dto.tid)
      && p.title == dto.title && p.detail == dto.detail && p.tag == dto.tag
      && p.quadrant == dto.quadrant && p.progress == dto.progress
      && (p.dueTime.None? <==> dto.dueTime.None?)
      && (p.isDeleted <==> dto.deletedTime.Some?)
  {
  }

  /** A server `updated_time` written in the server format comes back
      character for character when the row is pushed again. */
  lemma UpdatedTimeSurvivesPullAndPush(dto: TaskDto, existingLocalId: Option<string>, freshId: string, env: TimeEnv, m: int)
    requires IsoParserShaped(env)
    requires 1 <= ToLocal(m).year <= 9999 && dto.updatedTime == MillisToServerIso(m)
    ensures ToPushItem(ToEntity(dto, existingLocalId, freshId, env)).updatedTime == Some(dto.updatedTime)
  {
    ServerIsoRoundTrip(m, env);
  }
}
