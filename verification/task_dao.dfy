/** `TaskDao`: the queries and writes on the `tasks` table. The table is a map
    from `localId` to row; every query is a WHERE filter plus an ORDER BY. */
module TaskDao {
  import opened Wrappers
  import opened Text
  import opened Entities
  import opened Rows

  type TaskTable = map<string, Task>

  /** Every row is stored under its own primary key. */
  predicate WellKeyed(t: TaskTable) {
    forall k :: k in t ==> t[k].localId == k
  }

  predicate IsActive(x: Task) {
    x.deletedTimeMillis.None?
  }

  predicate ActiveOf(uid: int, x: Task) {
    IsActive(x) && x.userUid == uid
  }

  predicate Matches(x: Task, q: string) {
    Contains(x.title, q) || Contains(x.detail, q) || Contains(x.tag, q)
  }

  predicate DueWithin(x: Task, startMillis: int, endMillis: int) {
    x.dueTimeMillis.Some? && startMillis <= x.dueTimeMillis.value <= endMillis
  }

  /** `ORDER BY localUpdatedMillis DESC` */
  predicate NewerFirst(a: Task, b: Task) {
    a.localUpdatedMillis >= b.localUpdatedMillis
  }

  /** `ORDER BY localUpdatedMillis ASC` */
  predicate OlderFirst(a: Task, b: Task) {
    a.localUpdatedMillis <= b.localUpdatedMillis
  }

  /** `ORDER BY dueTimeMillis ASC, localUpdatedMillis DESC` */
  predicate DueThenNewer(a: Task, b: Task) {
    var da := a.dueTimeMillis.GetOr(0);
    var db := b.dueTimeMillis.GetOr(0);
    da < db || (da == db && a.localUpdatedMillis >= b.localUpdatedMillis)
  }

  lemma OrdersArePreorders()
    ensures TotalPreorder(NewerFirst)
    ensures TotalPreorder(OlderFirst)
    ensures TotalPreorder(DueThenNewer)
  {
  }

  /** `observeActive(uid)` */
  ghost function ObserveActive(t: TaskTable, uid: int): (r: seq<Task>)
    ensures SortedBy(r, NewerFirst)
    ensures forall x :: x in r <==> x in t.Values && x.userUid == uid && x.deletedTimeMillis.None?
    ensures |r| == Count(t, x => ActiveOf(uid, x))
  {
    OrdersArePreorders();
    SelectMembers(t, x => ActiveOf(uid, x), NewerFirst);
    Select(t, x => ActiveOf(uid, x), NewerFirst)
  }

  /** `observeSearch(uid, q)`: active rows whose title, detail or tag contains `q`. */
  ghost function ObserveSearch(t: TaskTable, uid: int, q: string): (r: seq<Task>)
    ensures SortedBy(r, NewerFirst)
    ensures forall x :: x in r <==> x in t.Values && x.userUid == uid && x.deletedTimeMillis.None? && Matches(x, q)
  {
    OrdersArePreorders();
    SelectMembers(t, x => ActiveOf(uid, x) && Matches(x, q), NewerFirst);
    Select(t, x => ActiveOf(uid, x) && Matches(x, q), NewerFirst)
  }

  /** `observeTasksByDueDay(start, end)`: note that no owner filter is applied. */
  ghost function ObserveTasksByDueDay(t: TaskTable, startMillis: int, endMillis: int): (r: seq<Task>)
    ensures SortedBy(r, DueThenNewer)
    ensures forall x :: x in r <==> x in t.Values && x.deletedTimeMillis.None? && DueWithin(x, startMillis, endMillis)
  {
    OrdersArePreorders();
    SelectMembers(t, x => IsActive(x) && DueWithin(x, startMillis, endMillis), DueThenNewer);
    Select(t, x => IsActive(x) && DueWithin(x, startMillis, endMillis), DueThenNewer)
  }

  /** `observeTodayTodoCount`: active, not done, due in the inclusive range. */
  function TodayTodoCount(t: TaskTable, uid: int, startMillis: int, endMillis: int): nat {
    Count(t, x => ActiveOf(uid, x) && x.progress != 2 && DueWithin(x, startMillis, endMillis))
  }

  /** `observeTodayTodoTotalCount`: active, due in the inclusive range. */
  function TodayTodoTotalCount(t: TaskTable, uid: int, startMillis: int, endMillis: int): nat {
    Count(t, x => ActiveOf(uid, x) && DueWithin(x, startMillis, endMillis))
  }

  /** `observeActiveTaskCount`: active rows that are not done. */
  function ActiveTaskCount(t: TaskTable, uid: int): nat {
    Count(t, x => ActiveOf(uid, x) && x.progress != 2)
  }

  /** The to-do count never exceeds the total for the same owner and day. */
  lemma TodoCountAtMostTotal(t: TaskTable, uid: int, startMillis: int, endMillis: int)
    ensures TodayTodoCount(t, uid, startMillis, endMillis) <= TodayTodoTotalCount(t, uid, startMillis, endMillis)
  {
    CountMonotone(t, x => ActiveOf(uid, x) && x.progress != 2 && DueWithin(x, startMillis, endMillis),
                     x => ActiveOf(uid, x) && DueWithin(x, startMillis, endMillis));
  }

  /** Active rows of `uid` that are done (progress 2). */
  function DoneActiveCount(t: TaskTable, uid: int): nat {
    Count(t, x => ActiveOf(uid, x) && x.progress == 2)
  }

  /** The active count is the number of rows `observeActive` lists minus
      the done ones among them. */
  lemma {:induction false} ActiveCountAtMostListed(t: TaskTable, uid: int)
    ensures ActiveTaskCount(t, uid) + DoneActiveCount(t, uid) == |ObserveActive(t, uid)|
    ensures ActiveTaskCount(t, uid) <= |ObserveActive(t, uid)|
    ensures (forall k :: k in t && ActiveOf(uid, t[k]) ==> t[k].progress != 2) <==>
              ActiveTaskCount(t, uid) == |ObserveActive(t, uid)|
  {
    var p := x => ActiveOf(uid, x) && x.progress != 2;
    var d := x => ActiveOf(uid, x) && x.progress == 2;
    var q := x => ActiveOf(uid, x);
    CountSplit(t, p, d, q);
    if !(forall k :: k in t && ActiveOf(uid, t[k]) ==> t[k].progress != 2) {
      var k :| k in t && ActiveOf(uid, t[k]) && t[k].progress == 2;
      assert k in Restrict(t, d).Keys;
    }
  }

  /** Every search hit is listed by `observeActive`. */
  lemma SearchWithinActive(t: TaskTable, uid: int, q: string)
    ensures forall x :: x in ObserveSearch(t, uid, q) ==> x in ObserveActive(t, uid)
    ensures q == [] ==> forall x :: x in ObserveActive(t, uid) ==> x in ObserveSearch(t, uid, q)
  {
    if q == [] {
      forall x | x in ObserveActive(t, uid) ensures Matches(x, q) {
        assert OccursAt(x.title, q, 0);
      }
    }
  }

  /** `getPending(uid)`: every row of the owner with a pending flag, soft-deleted
      rows included, oldest local change first. */
  ghost function GetPending(t: TaskTable, uid: int): (r: seq<Task>)
    ensures SortedBy(r, OlderFirst)
    ensures forall x :: x in r <==> x in t.Values && x.userUid == uid && x.pendingAction != 0
    ensures |r| == 0 <==> !HasPending(t, uid)
  {
    OrdersArePreorders();
    SelectMembers(t, PendingOf(uid), OlderFirst);
    SelectEmpty(t, PendingOf(uid), OlderFirst);
    Select(t, PendingOf(uid), OlderFirst)
  }

  /** The WHERE clause of `getPending(uid)`. */
  function PendingOf(uid: int): Task -> bool {
    (x: Task) => x.userUid == uid && x.pendingAction != 0
  }

  /** Whether `getPending(uid)` is non-empty. */
  predicate HasPending(t: TaskTable, uid: int) {
    Any(t, PendingOf(uid))
  }

  /** `upsert(task)`: INSERT OR REPLACE keyed by `localId`. */
  function Upsert(t: TaskTable, x: Task): (r: TaskTable)
    ensures x.localId in r && r[x.localId] == x
    ensures forall k :: k != x.localId ==> (k in r <==> k in t)
    ensures forall k :: k != x.localId && k in t ==> r[k] == t[k]
    ensures WellKeyed(t) ==> WellKeyed(r)
  {
    t[x.localId := x]
  }

  /** `upsertAll(tasks)`: the rows are written in order, later ones winning. */
  function UpsertAll(t: TaskTable, xs: seq<Task>): (r: TaskTable)
    ensures forall i :: 0 <= i < |xs| ==> xs[i].localId in r
    ensures forall k :: k in t ==> k in r
    ensures WellKeyed(t) ==> WellKeyed(r)
    decreases |xs|
  {
    if |xs| == 0 then t else UpsertAll(Upsert(t, xs[0]), xs[1..])
  }

  /** `upsertAll` lets the last row written under a key win. */
  lemma {:induction false} UpsertAllLastWins(t: TaskTable, xs: seq<Task>, i: int)
    requires 0 <= i < |xs|
    requires forall j :: i < j < |xs| ==> xs[j].localId != xs[i].localId
    ensures UpsertAll(t, xs)[xs[i].localId] == xs[i]
    decreases |xs|
  {
    if i > 0 {
      forall j | i - 1 < j < |xs| - 1 ensures xs[1..][j].localId != xs[1..][i - 1].localId {
        assert xs[1..][j] == xs[j + 1];
      }
      UpsertAllLastWins(Upsert(t, xs[0]), xs[1..], i - 1);
    } else {
      UpsertAllKeepsUnnamed(Upsert(t, xs[0]), xs[1..], xs[0].localId);
    }
  }

  /** A key no written row names keeps its row. */
  lemma {:induction false} UpsertAllKeepsUnnamed(t: TaskTable, xs: seq<Task>, k: string)
    requires k in t
    requires forall i :: 0 <= i < |xs| ==> xs[i].localId != k
    ensures k in UpsertAll(t, xs) && UpsertAll(t, xs)[k] == t[k]
    decreases |xs|
  {
    if |xs| > 0 {
      forall i | 0 <= i < |xs| - 1 ensures xs[1..][i].localId != k {
        assert xs[1..][i] == xs[i + 1];
      }
      UpsertAllKeepsUnnamed(Upsert(t, xs[0]), xs[1..], k);
    }
  }

  /** `upsertAll` neither loses a key nor invents one: the keys afterwards are
      the old ones and those of the written rows. */
  lemma {:induction false} UpsertAllKeys(t: TaskTable, xs: seq<Task>, k: string)
    ensures k in UpsertAll(t, xs) <==> k in t || exists i :: 0 <= i < |xs| && xs[i].localId == k
    decreases |xs|
  {
    if |xs| > 0 {
      UpsertAllKeys(Upsert(t, xs[0]), xs[1..], k);
      if exists i :: 0 <= i < |xs| - 1 && xs[1..][i].localId == k {
        var i :| 0 <= i < |xs| - 1 && xs[1..][i].localId == k;
        assert xs[i + 1].localId == k;
      }
      if exists i :: 0 <= i < |xs| && xs[i].localId == k {
        var i :| 0 <= i < |xs| && xs[i].localId == k;
        if i > 0 {
          assert xs[1..][i - 1].localId == k;
        }
      }
    }
  }


  /** `hardDeleteByLocalId(localId)` */
  function HardDeleteByLocalId(t: TaskTable, localId: string): (r: TaskTable)
    ensures localId !in r
    ensures forall k :: k != localId ==> (k in r <==> k in t)
    ensures forall k :: k in r ==> r[k] == t[k]
    ensures WellKeyed(t) ==> WellKeyed(r)
  {
    t - {localId}
  }

  /** `hardDeleteByServerTid(serverTid)`: removes every row carrying that id. */
  function HardDeleteByServerTid(t: TaskTable, serverTid: int): (r: TaskTable)
    ensures forall k :: k in r <==> k in t && t[k].serverTid != Some(serverTid)
    ensures forall k :: k in r ==> r[k] == t[k]
    ensures WellKeyed(t) ==> WellKeyed(r)
  {
    map k | k in t && t[k].serverTid != Some(serverTid) :: t[k]
  }

  /** `findByServerTid(serverTid)`: `LIMIT 1` without ORDER BY, so which of
      several matching rows comes back is unspecified. */
  ghost function FindByServerTid(t: TaskTable, serverTid: int): (r: Option<Task>)
    ensures r.None? <==> forall k :: k in t ==> t[k].serverTid != Some(serverTid)
    ensures r.Some? ==> r.value in t.Values && r.value.serverTid == Some(serverTid)
    ensures r.Some? && WellKeyed(t) ==> r.value.localId in t && t[r.value.localId] == r.value
  {
    if exists k :: k in t && t[k].serverTid == Some(serverTid) then
      var k :| k in t && t[k].serverTid == Some(serverTid);
      Some(t[k])
    else None
  }

  /** `findByLocalId(localId)` */
  function FindByLocalId(t: TaskTable, localId: string): (r: Option<Task>)
    ensures r.None? <==> localId !in t
    ensures r.Some? ==> r.value in t.Values
    ensures r.Some? && WellKeyed(t) ==> r.value.localId == localId
  {
    if localId in t then Some(t[localId]) else None
  }

  /** `clearOtherUsers(uid)` */
  function ClearOtherUsers(t: TaskTable, uid: int): (r: TaskTable)
    ensures forall k :: k in r <==> k in t && t[k].userUid == uid
    ensures forall k :: k in r ==> r[k] == t[k]
  {
    map k | k in t && t[k].userUid == uid :: t[k]
  }

  /** How many rows carry a given server id. */
  function ServerTidCount(t: TaskTable, serverTid: int): nat {
    Count(t, (x: Task) => x.serverTid == Some(serverTid))
  }
}
