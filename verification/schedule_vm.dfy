/** The slot dialog of the schedule screen: the draft being edited, the
    dialog states and their transitions, and the hand-off of the draft to
    `saveSlot`. The signed-in uid, the selected day, the clock and the row id
    the database would assign are parameters; the toast messages are part of
    each transition's result. */
module ScheduleViewModel {
  import opened Wrappers
  import opened Text
  import opened Clock
  import opened Entities
  import opened ScheduleDao
  import ScheduleRepository
  import ScheduleSync

  /** `SlotDraft`. The field `serverSlotId` is not in the original draft; the
      as-written conversion ignores it (see `DraftToEntityAsWritten`). */
  datatype SlotDraft = SlotDraft(slotId: int, ownerUid: int, dateMillis: int,
                                 startTimeMillis: int, endTimeMillis: int,
                                 localTaskId: Option<string>, customTitle: string, note: string,
                                 serverSlotId: Option<int>)

  datatype DialogState =
    | Hidden
    | Editing(isNew: bool, draft: SlotDraft)
    | Conflict(draft: SlotDraft, conflict: Slot)

  /** The one-shot messages the view model emits. */
  datatype Message = NotLoggedIn | SlotSaved | SaveFailed(reason: ScheduleRepository.SaveError)

  /** The dialog after a transition, with the message emitted on the way. */
  datatype Step = Step(dialog: DialogState, message: Option<Message>)

  /** `SlotDraft.toEntity()` as the source writes it: every field the draft
      does not carry takes the entity's default, so the server id is lost and
      the creation time is the current time. */
  function DraftToEntityAsWritten(d: SlotDraft, now: int): (s: Slot)
    ensures s.slotId == d.slotId && s.ownerUid == d.ownerUid && s.dateMillis == d.dateMillis
    ensures s.startTimeMillis == d.startTimeMillis && s.endTimeMillis == d.endTimeMillis
    ensures s.localTaskId == d.localTaskId
    ensures s.customTitle == TrimOrNone(d.customTitle) && s.note == TrimOrNone(d.note)
    ensures s.serverSlotId.None? && s.syncState == SYNCED && s.deletedTimeMillis.None?
    ensures s.createdTimeMillis == now && s.updatedTimeMillis == now
  {
    NewSlot(now, d.ownerUid, d.dateMillis, d.startTimeMillis, d.endTimeMillis, d.localTaskId,
            TrimOrNone(d.customTitle), TrimOrNone(d.note)).(slotId := d.slotId)
  }

  /** The corrected conversion: as written, except that the server id the
      draft was opened with is carried over. */
  function DraftToEntity(d: SlotDraft, now: int): (s: Slot)
    ensures s.slotId == d.slotId && s.ownerUid == d.ownerUid && s.dateMillis == d.dateMillis
    ensures s.startTimeMillis == d.startTimeMillis && s.endTimeMillis == d.endTimeMillis
    ensures s.localTaskId == d.localTaskId
    ensures s.customTitle == TrimOrNone(d.customTitle) && s.note == TrimOrNone(d.note)
    ensures s.serverSlotId == d.serverSlotId && s.syncState == SYNCED && s.deletedTimeMillis.None?
    ensures s.createdTimeMillis == now && s.updatedTimeMillis == now
  {
    DraftToEntityAsWritten(d, now).(serverSlotId := d.serverSlotId)
  }

  /** The two conversions agree on every column but the server id, and on
      that too for a draft that never had one. */
  lemma ConversionsDifferInServerIdOnly(d: SlotDraft, now: int)
    ensures DraftToEntity(d, now).(serverSlotId := None) == DraftToEntityAsWritten(d, now)
    ensures d.serverSlotId.None? <==> DraftToEntity(d, now) == DraftToEntityAsWritten(d, now)
  {
  }

  /** `updateDraft(transform)` */
  function UpdateDraft(state: DialogState, f: SlotDraft -> SlotDraft): (r: DialogState)
    ensures r.Hidden? <==> state.Hidden?
    ensures r.Editing? ==> state.Editing? && r.isNew == state.isNew
    ensures r.Conflict? ==> state.Conflict? && r.conflict == state.conflict
  {
    match state
    case Editing(isNew, draft) => Editing(isNew, f(draft))
    case Conflict(draft, c) => Conflict(f(draft), c)
    case Hidden => Hidden
  }

  /** An edit that changes nothing leaves the dialog as it is, and two edits
      in a row are one edit by their composition. */
  lemma UpdateDraftLaws(state: DialogState, f: SlotDraft -> SlotDraft, g: SlotDraft -> SlotDraft)
    ensures UpdateDraft(state, d => d) == state
    ensures UpdateDraft(UpdateDraft(state, f), g) == UpdateDraft(state, d => g(f(d)))
    ensures !state.Hidden? ==> UpdateDraft(state, f).draft == f(state.draft)
  {
  }

  /** `closeSlotDialog()` */
  function CloseSlotDialog(state: DialogState): (r: DialogState)
    ensures r.Hidden?
  {
    Hidden
  }

  /** The default new slot: 08:00 to 09:00 of the selected day. */
  function DefaultStart(date0: int): int { date0 + 8 * HOUR_MS }

  /** `openCreateFreeSlotDialog()`: without a signed-in user nothing changes
      and "not logged in" is shown; otherwise a new, untitled 08:00-09:00
      draft on the selected day. */
  function OpenCreateFreeSlotDialog(state: DialogState, uid: Option<int>, date0: int): (r: Step)
    ensures uid.None? ==> r == Step(state, Some(NotLoggedIn))
    ensures uid.Some? ==> r.message.None? && r.dialog.Editing? && r.dialog.isNew
    ensures uid.Some? ==> var d := r.dialog.draft;
      && d.slotId == 0 && d.ownerUid == uid.value && d.dateMillis == date0
      && d.startTimeMillis == date0 + 8 * HOUR_MS && d.endTimeMillis == d.startTimeMillis + HOUR_MS
      && d.localTaskId.None? && d.customTitle == [] && d.note == [] && d.serverSlotId.None?
  {
    match uid
    case None => Step(state, Some(NotLoggedIn))
    case Some(u) =>
      var start := DefaultStart(date0);
      Step(Editing(true, SlotDraft(0, u, date0, start, start + 60 * MIN_MS, None, "", "", None)), None)
  }

  /** The free-slot draft cannot be saved as it opens: its times are valid,
      but it has neither a task nor a title. */
  lemma FreeSlotDraftNeedsTitle(state: DialogState, uid: int, date0: int, now: int)
    requires IsLocalMidnight(date0)
    ensures var d := OpenCreateFreeSlotDialog(state, Some(uid), date0).dialog.draft;
      ScheduleRepository.Validate(DraftToEntityAsWritten(d, now)) == Some(ScheduleRepository.MissingTitle)
  {
    var d := OpenCreateFreeSlotDialog(state, Some(uid), date0).dialog.draft;
    DayStartUnique(d.startTimeMillis, date0);
    assert IsBlank(d.customTitle);
  }

  /** `openCreateTaskSlotDialog(taskLocalId, taskTitleHint)`: the first free
      hour of the day (searched in half-hour steps), or 08:00-09:00 when
      there is none, linked to the task and titled with the hint. */
  ghost function OpenCreateTaskSlotDialog(state: DialogState, t: SlotTable, uid: Option<int>, date0: int,
                                          taskLocalId: string, hint: Option<string>): (r: Step)
    ensures uid.None? ==> r == Step(state, Some(NotLoggedIn))
    ensures uid.Some? ==> r.message.None? && r.dialog.Editing? && r.dialog.isNew
    ensures uid.Some? ==> var d := r.dialog.draft;
      && d.slotId == 0 && d.ownerUid == uid.value && d.dateMillis == date0
      && d.endTimeMillis == d.startTimeMillis + HOUR_MS
      && d.localTaskId == Some(taskLocalId) && d.customTitle == hint.GetOr([])
      && d.note == [] && d.serverSlotId.None?
    ensures uid.Some? ==> var gap := ScheduleRepository.FindFirstFreeGapOneHour(t, uid.value, date0, 30);
      r.dialog.draft.startTimeMillis == (if gap.Gap? then gap.start else DefaultStart(date0))
  {
    match uid
    case None => Step(state, Some(NotLoggedIn))
    case Some(u) =>
      var gap := ScheduleRepository.FindFirstFreeGapOneHour(t, u, date0, 30);
      var start := if gap.Gap? then gap.start else DefaultStart(date0);
      var end := if gap.Gap? then gap.end else start + 60 * MIN_MS;
      Step(Editing(true, SlotDraft(0, u, date0, start, end, Some(taskLocalId), hint.GetOr([]), "", None)), None)
  }

  /** When a free hour was found, saving the task-slot draft unchanged
      succeeds: the hour lies inside the day and meets no other slot. */
  lemma TaskSlotInGapSaves(state: DialogState, t: SlotTable, taskIds: set<string>, uid: int, date0: int, taskLocalId: string,
                           hint: Option<string>, now: int, rowId: int)
    requires IsLocalMidnight(date0) && rowId !in t && taskLocalId in taskIds
    requires ScheduleRepository.FindFirstFreeGapOneHour(t, uid, date0, 30).Gap?
    ensures var d := OpenCreateTaskSlotDialog(state, t, Some(uid), date0, taskLocalId, hint).dialog.draft;
      ScheduleRepository.SaveSlot(t, taskIds, DraftToEntityAsWritten(d, now), now, rowId).result.Success?
  {
    var d := OpenCreateTaskSlotDialog(state, t, Some(uid), date0, taskLocalId, hint).dialog.draft;
    var s := DraftToEntityAsWritten(d, now);
    DayStartUnique(s.startTimeMillis, date0);
    assert ScheduleRepository.Validate(s).None?;
  }

  /** `openEditSlotDialog(slot, taskTitle)`: the slot's fields, its title or
      else the task's title, its note or else nothing. The server id is the
      field the corrected draft adds. */
  function OpenEditSlotDialog(slot: Slot, taskTitle: Option<string>): (r: DialogState)
    ensures r.Editing? && !r.isNew
    ensures r.draft.slotId == slot.slotId && r.draft.ownerUid == slot.ownerUid && r.draft.dateMillis == slot.dateMillis
    ensures r.draft.startTimeMillis == slot.startTimeMillis && r.draft.endTimeMillis == slot.endTimeMillis
    ensures r.draft.localTaskId == slot.localTaskId && r.draft.serverSlotId == slot.serverSlotId
    ensures r.draft.customTitle == (if slot.customTitle.Some? then slot.customTitle.value else taskTitle.GetOr([]))
    ensures r.draft.note == slot.note.GetOr([])
  {
    Editing(false, SlotDraft(slot.slotId, slot.ownerUid, slot.dateMillis, slot.startTimeMillis, slot.endTimeMillis,
                             slot.localTaskId, slot.customTitle.GetOr(taskTitle.GetOr([])), slot.note.GetOr([]),
                             slot.serverSlotId))
  }

  /** Opening a slot for editing and converting the draft back as the
      source does gives the same slot apart from the timestamps, the sync
      state and the server id, which is always lost: a trimmed title and note
      come back as they were, and an untitled slot takes the task's title as
      its own. */
  lemma EditDraftRoundTrip(slot: Slot, taskTitle: Option<string>, now: int)
    ensures var s := DraftToEntityAsWritten(OpenEditSlotDialog(slot, taskTitle).draft, now);
      && s.slotId == slot.slotId && s.ownerUid == slot.ownerUid && s.dateMillis == slot.dateMillis
      && s.startTimeMillis == slot.startTimeMillis && s.endTimeMillis == slot.endTimeMillis
      && s.localTaskId == slot.localTaskId && s.serverSlotId.None?
      && (slot.customTitle.Some? && Kept(slot.customTitle.value) ==> s.customTitle == slot.customTitle)
      && (slot.customTitle.None? && taskTitle.Some? && Kept(taskTitle.value) ==> s.customTitle == taskTitle)
      && (slot.note.Some? && Kept(slot.note.value) ==> s.note == slot.note)
      && (slot.note.None? ==> s.note.None?)
  {
    var d := OpenEditSlotDialog(slot, taskTitle).draft;
    TrimOrNoneKeeps(d.customTitle);
    TrimOrNoneKeeps(d.note);
  }

  /** With the corrected conversion the round trip also gives back the
      server id; every other column comes back as in the round trip above. */
  lemma EditDraftRoundTripCorrected(slot: Slot, taskTitle: Option<string>, now: int)
    ensures var d := OpenEditSlotDialog(slot, taskTitle).draft;
      var s := DraftToEntity(d, now);
      && s.serverSlotId == slot.serverSlotId
      && s.(serverSlotId := None) == DraftToEntityAsWritten(d, now)
  {
    ConversionsDifferInServerIdOnly(OpenEditSlotDialog(slot, taskTitle).draft, now);
  }

  /** A text that survives `TrimOrNone` unchanged: trimmed and not empty. */
  predicate Kept(x: string) {
    x != [] && IsTrimmed(x)
  }

  /** `TrimOrNone` returns exactly the texts that are trimmed and non-empty
      unchanged. */
  lemma TrimOrNoneKeeps(x: string)
    ensures TrimOrNone(x) == Some(x) <==> Kept(x)
  {
    TrimOfTrimmed(x);
  }

  /** What `saveDraft` leaves behind: the dialog, the message and the slot table. */
  datatype Outcome = Outcome(dialog: DialogState, message: Option<Message>, slots: SlotTable)

  /** `saveDraft()` once the open draft has been converted to `s`: success
      closes the dialog, a validation error keeps it open with the reason
      shown, and a conflict switches it to the conflict view of the same
      draft. When the write throws, the coroutine ends before the `when`:
      nothing is saved, shown or closed. */
  ghost function SaveConverted(state: DialogState, s: Slot, t: SlotTable, taskIds: set<string>, now: int, rowId: int): (r: Outcome)
    requires rowId !in t && !state.Hidden?
    ensures r.slots == t || r.message == Some(SlotSaved)
    ensures r.message == Some(SlotSaved) <==> r.dialog.Hidden?
  {
    var o := ScheduleRepository.SaveSlot(t, taskIds, s, now, rowId);
    match o.result
    case Success => Outcome(Hidden, Some(SlotSaved), o.slots)
    case Error(e) => Outcome(state, Some(SaveFailed(e)), t)
    case Conflict(c) => Outcome(Conflict(state.draft, c), None, t)
    case Threw => Outcome(state, None, t)
  }

  /** `saveDraft()` as written, with the conversion that drops the server id. */
  ghost function SaveDraft(state: DialogState, t: SlotTable, taskIds: set<string>, now: int, rowId: int): (r: Outcome)
    requires rowId !in t
    ensures state.Hidden? ==> r == Outcome(state, None, t)
    ensures r.slots == t || r.message == Some(SlotSaved)
    ensures r.message == Some(SlotSaved) <==> r.dialog.Hidden? && !state.Hidden?
  {
    match state
    case Hidden => Outcome(state, None, t)
    case _ => SaveConverted(state, DraftToEntityAsWritten(state.draft, now), t, taskIds, now, rowId)
  }

  /** `saveDraft()` with the corrected conversion. */
  ghost function SaveDraftCorrected(state: DialogState, t: SlotTable, taskIds: set<string>, now: int, rowId: int): (r: Outcome)
    requires rowId !in t
    ensures state.Hidden? ==> r == Outcome(state, None, t)
    ensures r.slots == t || r.message == Some(SlotSaved)
    ensures r.message == Some(SlotSaved) <==> r.dialog.Hidden? && !state.Hidden?
  {
    match state
    case Hidden => Outcome(state, None, t)
    case _ => SaveConverted(state, DraftToEntity(state.draft, now), t, taskIds, now, rowId)
  }

  /** The correction changes only the stored row: the dialog and the message
      are those of the save as written, since validation and the conflict
      search never look at the server id. */
  lemma CorrectedSaveSameVerdict(state: DialogState, t: SlotTable, taskIds: set<string>, now: int, rowId: int)
    requires rowId !in t
    ensures SaveDraftCorrected(state, t, taskIds, now, rowId).dialog == SaveDraft(state, t, taskIds, now, rowId).dialog
    ensures SaveDraftCorrected(state, t, taskIds, now, rowId).message == SaveDraft(state, t, taskIds, now, rowId).message
  {
    if !state.Hidden? {
      ConversionsDifferInServerIdOnly(state.draft, now);
      SameSaveVerdict(t, taskIds, DraftToEntityAsWritten(state.draft, now), DraftToEntity(state.draft, now), now, rowId);
    }
  }

  /** Two rows that differ only in their server id get the same verdict. */
  lemma SameSaveVerdict(t: SlotTable, taskIds: set<string>, a: Slot, b: Slot, now: int, rowId: int)
    requires rowId !in t && b.(serverSlotId := a.serverSlotId) == a
    ensures var x, y := ScheduleRepository.SaveSlot(t, taskIds, a, now, rowId), ScheduleRepository.SaveSlot(t, taskIds, b, now, rowId);
      && (x.result.Success? <==> y.result.Success?)
      && (x.result.Error? ==> y.result == x.result)
      && (x.result.Conflict? ==> y.result == x.result)
      && (x.result.Threw? <==> y.result.Threw?)
  {
    assert ScheduleRepository.Validate(a) == ScheduleRepository.Validate(b);
    assert ScheduleRepository.ExcludeId(a) == ScheduleRepository.ExcludeId(b);
  }

  /** How `saveDraft` follows the result of `saveSlot` on the draft: the
      table changes only on success, which closes the dialog; a validation
      error keeps the dialog as it was and shows the reason; a conflict shows
      the conflict view of the same draft with the clashing slot. */
  lemma SaveDraftFollowsSaveSlot(state: DialogState, t: SlotTable, taskIds: set<string>, now: int, rowId: int)
    requires rowId !in t && !state.Hidden?
    ensures var s := DraftToEntityAsWritten(state.draft, now);
      var o := ScheduleRepository.SaveSlot(t, taskIds, s, now, rowId);
      var r := SaveDraft(state, t, taskIds, now, rowId);
      && (o.result.Success? <==> r.message == Some(SlotSaved))
      && (o.result.Success? ==> r == Outcome(Hidden, Some(SlotSaved), o.slots))
      && (o.result.Error? <==> ScheduleRepository.Validate(s).Some?)
      && (o.result.Error? ==> r == Outcome(state, Some(SaveFailed(ScheduleRepository.Validate(s).value)), t))
      && (o.result.Conflict? <==>
            ScheduleRepository.Validate(s).None? &&
            AnyConflict(t, s.ownerUid, DayStart(s.startTimeMillis), s.startTimeMillis, s.endTimeMillis,
                        ScheduleRepository.ExcludeId(s)))
      && (o.result.Conflict? ==> r == Outcome(Conflict(state.draft, o.result.conflictSlot), None, t))
      && (o.result.Threw? ==> r == Outcome(state, None, t))
  {
  }

  /** Saving an edit of an uploaded slot through the conversion as written:
      the stored row has lost its server id and is queued as a create, so the
      next push uploads it as a new slot. */
  lemma EditOfUploadedSlotAsWritten(t: SlotTable, taskIds: set<string>, k: int, taskTitle: Option<string>, now: int, rowId: int)
    requires rowId !in t && k in t && k != 0 && t[k].slotId == k && t[k].serverSlotId.Some?
    requires var d := OpenEditSlotDialog(t[k], taskTitle).draft;
      ScheduleRepository.SaveSlot(t, taskIds, DraftToEntityAsWritten(d, now), now, rowId).result.Success?
    ensures var d := OpenEditSlotDialog(t[k], taskTitle).draft;
      var u := ScheduleRepository.SaveSlot(t, taskIds, DraftToEntityAsWritten(d, now), now, rowId).slots;
      && k in u && u[k].serverSlotId.None?
      && u[k].syncState == PENDING_CREATE
      && ScheduleSync.OpOf(u[k].syncState) == "create"
  {
  }

  /** An edit of a lone uploaded slot that stays on its day and keeps its
      task link is saved, so the loss above does happen. */
  lemma LoneSlotEditSaves(s: Slot, taskIds: set<string>, taskTitle: Option<string>, now: int, rowId: int)
    requires s.slotId > 0 && rowId != s.slotId && s.localTaskId.Some? && s.localTaskId.value in taskIds
    requires s.startTimeMillis < s.endTimeMillis <= DayStart(s.startTimeMillis) + DAY_MS
    ensures var d := OpenEditSlotDialog(s, taskTitle).draft;
      && ScheduleRepository.SaveSlot(map[s.slotId := s], taskIds, DraftToEntityAsWritten(d, now), now, rowId).result.Success?
      && ScheduleRepository.SaveSlot(map[s.slotId := s], taskIds, DraftToEntity(d, now), now, rowId).result.Success?
  {
    var d := OpenEditSlotDialog(s, taskTitle).draft;
    LoneSlotSaves(s, taskIds, DraftToEntityAsWritten(d, now), now, rowId);
    LoneSlotSaves(s, taskIds, DraftToEntity(d, now), now, rowId);
  }

  /** A slot that keeps the id, owner, times and task link of the only row
      of the table is saved over it. */
  lemma LoneSlotSaves(s: Slot, taskIds: set<string>, a: Slot, now: int, rowId: int)
    requires s.slotId > 0 && rowId != s.slotId && s.localTaskId.Some? && s.localTaskId.value in taskIds
    requires s.startTimeMillis < s.endTimeMillis <= DayStart(s.startTimeMillis) + DAY_MS
    requires a.slotId == s.slotId && a.ownerUid == s.ownerUid && a.localTaskId == s.localTaskId
    requires a.startTimeMillis == s.startTimeMillis && a.endTimeMillis == s.endTimeMillis
    ensures ScheduleRepository.SaveSlot(map[s.slotId := s], taskIds, a, now, rowId).result.Success?
  {
    var t := map[s.slotId := s];
    assert ScheduleRepository.Validate(a).None?;
    assert ScheduleRepository.ExcludeId(a) == s.slotId;
    assert !AnyConflict(t, a.ownerUid, DayStart(a.startTimeMillis), a.startTimeMillis, a.endTimeMillis, s.slotId);
  }

  /** The dialog was opened on a slot linked to task `T`, and `T`'s row has
      gone since, so the foreign key cleared the slot's link. The draft
      still names `T`: saving it throws, and nothing is saved or shown. */
  lemma EditAfterTaskRowGone(s: Slot, taskIds: set<string>, taskTitle: Option<string>, now: int, rowId: int)
    requires s.slotId > 0 && rowId != s.slotId && s.localTaskId.Some? && s.localTaskId.value !in taskIds
    requires s.startTimeMillis < s.endTimeMillis <= DayStart(s.startTimeMillis) + DAY_MS
    ensures var t := ScheduleDao.OnTaskRowDeleted(map[s.slotId := s], s.localTaskId.value);
      var state := OpenEditSlotDialog(s, taskTitle);
      && ScheduleRepository.SaveSlot(t, taskIds, DraftToEntityAsWritten(state.draft, now), now, rowId).result.Threw?
      && SaveDraft(state, t, taskIds, now, rowId) == Outcome(state, None, t)
  {
    var t := ScheduleDao.OnTaskRowDeleted(map[s.slotId := s], s.localTaskId.value);
    var a := DraftToEntityAsWritten(OpenEditSlotDialog(s, taskTitle).draft, now);
    assert t.Keys == {s.slotId} && t[s.slotId] == s.(localTaskId := None);
    assert ScheduleRepository.Validate(a).None?;
    assert ScheduleRepository.ExcludeId(a) == s.slotId;
    assert !AnyConflict(t, a.ownerUid, DayStart(a.startTimeMillis), a.startTimeMillis, a.endTimeMillis, s.slotId);
  }

  /** With the corrected conversion an edit of an uploaded slot keeps its
      server id and is queued as an update. */
  lemma EditOfUploadedSlot(t: SlotTable, taskIds: set<string>, k: int, taskTitle: Option<string>, now: int, rowId: int)
    requires rowId !in t && k in t && k != 0 && t[k].slotId == k && t[k].serverSlotId.Some?
    requires var d := OpenEditSlotDialog(t[k], taskTitle).draft;
      ScheduleRepository.SaveSlot(t, taskIds, DraftToEntity(d, now), now, rowId).result.Success?
    ensures var d := OpenEditSlotDialog(t[k], taskTitle).draft;
      var u := ScheduleRepository.SaveSlot(t, taskIds, DraftToEntity(d, now), now, rowId).slots;
      && k in u && u[k].serverSlotId == t[k].serverSlotId
      && u[k].syncState == PENDING_UPDATE
      && ScheduleSync.OpOf(u[k].syncState) == "update"
  {
  }
}
