/** The wire records of the task and schedule sync endpoints. Times travel as
    server-format strings; `Option` is a nullable field. */
module Dtos {
  import opened Wrappers

  /** `TaskDto`: one task as the server sends it. */
  datatype TaskDto = TaskDto(
    tid: int,
    userUid: int,
    title: string,
    detail: string,
    dueTime: Option<string>,
    tag: string,
    quadrant: int,
    progress: int,
    createdTime: Option<string>,
    updatedTime: string,
    deletedTime: Option<string>)

  /** `PullResponse`: the server's clock and the tasks changed since the watermark. */
  datatype PullResponse = PullResponse(serverTime: string, items: seq<TaskDto>)

  /** `PushItem`: one local change sent to the server. */
  datatype PushItem = PushItem(
    clientLocalId: string,
    serverTid: Option<int>,
    title: string,
    detail: string,
    dueTime: Option<string>,
    tag: string,
    quadrant: int,
    progress: int,
    updatedTime: Option<string>,
    isDeleted: bool)

  /** `PushResult`: the server's answer for one pushed item. */
  datatype PushResult = PushResult(clientLocalId: string, serverTid: Option<int>, updatedTime: string, status: string)

  /** `PushResponse` */
  datatype PushResponse = PushResponse(results: seq<PushResult>)

  /** `ScheduleSyncPushItem`: one local slot change; `op` is "create",
      "update" or "delete". */
  datatype ScheduleSyncPushItem = ScheduleSyncPushItem(
    op: string,
    clientSlotId: int,
    serverSlotId: Option<int>,
    dateMillis: int,
    startTimeMillis: int,
    endTimeMillis: int,
    localTaskId: Option<string>,
    customTitle: Option<string>,
    note: Option<string>,
    updatedTime: string)

  /** `ScheduleSyncPushResult` */
  datatype ScheduleSyncPushResult = ScheduleSyncPushResult(
    clientSlotId: int, serverSlotId: Option<int>, updatedTime: string, deleted: bool)

  /** `ScheduleSyncPushResponse` */
  datatype ScheduleSyncPushResponse = ScheduleSyncPushResponse(serverTime: string, results: seq<ScheduleSyncPushResult>)

  /** `ScheduleSyncSlotDto`: one slot as the server sends it. */
  datatype ScheduleSyncSlotDto = ScheduleSyncSlotDto(
    serverSlotId: int,
    ownerUid: int,
    dateMillis: int,
    startTimeMillis: int,
    endTimeMillis: int,
    localTaskId: Option<string>,
    customTitle: Option<string>,
    note: Option<string>,
    updatedTime: string,
    deletedTime: Option<string>)

  /** `ScheduleSyncPullResponse` */
  datatype ScheduleSyncPullResponse = ScheduleSyncPullResponse(serverTime: string, items: seq<ScheduleSyncSlotDto>)
}
