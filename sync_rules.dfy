/**
  The rewrites DatabaseManager applies to its local tables, as functions
  from the old table contents to the new ones: the flag updates, the three
  phases of the push to the remote store, and the pull from it. The
  remote store is represented by its answers, passed in as functions.
  DatabaseManager's methods are proved to compute exactly these functions;
  the lemmas here say what the functions guarantee across a whole
  synchronisation cycle.
 */
module SyncRules {
  import opened Wrappers
  import opened PyValues
  import opened Reminders
  import opened Tables

  /** The `recordatorios` table: local id to row. */
  type Table = map<int, Reminder>

  /** `if supabase_id:` on a column value: present and non-zero. */
  predicate IsTruthyId(o: Option<int>) {
    o.Some? && o.value != 0
  }

  /** The row is known to the remote store. */
  predicate Linked(r: Reminder) {
    IsTruthyId(r.remoteId)
  }

  // ---------------------------------------------------------------------
  // Flags

  /** The WHERE clause of `obtener_recordatorios_pendientes`: not yet
      notified, or a constant alert that has not been stopped. */
  predicate Due(r: Reminder) {
    !r.notified || (r.constantAlert && !r.alertStopped)
  }

  /** The WHERE clause of `detener_avisos_constantes` for one chat. */
  predicate ActiveConstant(r: Reminder, chatId: string) {
    r.chatId == chatId && r.constantAlert && !r.alertStopped && r.notified
  }

  function StopRow(r: Reminder, now: string): Reminder {
    r.(alertStopped := true, syncStatus := PendingUpdate, lastUpdated := now)
  }

  function NotifiedRow(r: Reminder, now: string): Reminder {
    r.(notified := true, syncStatus := PendingUpdate, lastUpdated := now)
  }

  function RepeatedRow(r: Reminder, now: string): Reminder {
    r.(repetitionCreated := true, syncStatus := PendingUpdate, lastUpdated := now)
  }

  /** `detener_avisos_constantes`: one UPDATE over the chat's active constant alerts. */
  function StopConstantAlerts(t: Table, chatId: string, now: string): Table {
    map id | id in t :: if ActiveConstant(t[id], chatId) then StopRow(t[id], now) else t[id]
  }

  /** `marcar_como_notificado`: an UPDATE by id (no row, no change). */
  function MarkNotified(t: Table, id: int, now: string): Table {
    if id in t then t[id := NotifiedRow(t[id], now)] else t
  }

  /** `marcar_como_repetido`. */
  function MarkRepeated(t: Table, id: int, now: string): Table {
    if id in t then t[id := RepeatedRow(t[id], now)] else t
  }

  /** `_actualizar_estado_sync_recordatorio`: the status always, the
      supabase_id only when the given one is truthy; no row, no change. */
  function SetSyncStatus(t: Table, id: int, status: SyncStatus, remoteId: Option<int>): Table {
    if id !in t then t
    else if IsTruthyId(remoteId) then t[id := t[id].(syncStatus := status, remoteId := remoteId)]
    else t[id := t[id].(syncStatus := status)]
  }

  /** The flags that may only go from 0 to 1 did not go back. */
  predicate FlagsKept(a: Reminder, b: Reminder) {
    (a.notified ==> b.notified) && (a.alertStopped ==> b.alertStopped) &&
    (a.repetitionCreated ==> b.repetitionCreated)
  }

  predicate Monotone(t: Table, t': Table) {
    forall id :: id in t && id in t' ==> FlagsKept(t[id], t'[id])
  }

  /** A notified constant alert keeps firing until it is stopped, and then
      it stops; an ordinary reminder stops once notified. */
  lemma ConstantAlertLifecycle(r: Reminder, now: string)
    ensures Due(NotifiedRow(r, now)) <==> r.constantAlert && !r.alertStopped
    ensures ActiveConstant(NotifiedRow(r, now), r.chatId) <==> r.constantAlert && !r.alertStopped
    ensures !Due(StopRow(NotifiedRow(r, now), now))
    ensures FlagsKept(r, NotifiedRow(r, now)) && FlagsKept(r, StopRow(r, now)) && FlagsKept(r, RepeatedRow(r, now))
  {
  }

  /** Stopping a chat's alerts leaves none of them active and none of them
      due, queues each changed row for upload, and touches no other row. */
  lemma StopConstantAlertsEffect(t: Table, chatId: string, now: string)
    ensures var t' := StopConstantAlerts(t, chatId, now);
      && t'.Keys == t.Keys
      && Monotone(t, t')
      && (forall id :: id in t' ==> !ActiveConstant(t'[id], chatId))
      && (forall id :: id in t && ActiveConstant(t[id], chatId) ==>
            !Due(t'[id]) && t'[id].syncStatus == PendingUpdate)
      && (forall id :: id in t && !ActiveConstant(t[id], chatId) ==> t'[id] == t[id])
  {
  }

  // ---------------------------------------------------------------------
  // Local deletes

  /** The supabase_id `eliminar_recordatorio` queues: the one given when it
      is truthy, else the row's own when that is truthy, else the given one. */
  function DeletionTarget(t: Table, localId: int, given: Option<int>): Option<int> {
    if !IsTruthyId(given) && localId in t && Linked(t[localId]) then t[localId].remoteId else given
  }

  /** `DELETE FROM bajas_pendientes WHERE supabase_id = ?` */
  function WithoutDeletionsOf(ds: seq<PendingDeletion>, rid: int): (r: seq<PendingDeletion>)
    ensures forall d :: d in r <==> d in ds && d.remoteId != Some(rid)
    ensures !Tombstoned(r, rid)
    decreases |ds|
  {
    if ds == [] then []
    else
      var rest := WithoutDeletionsOf(ds[1..], rid);
      assert forall d :: d in ds <==> d == ds[0] || d in ds[1..];
      if ds[0].remoteId == Some(rid) then rest else [ds[0]] + rest
  }

  /** The rows `DELETE FROM bajas_pendientes WHERE supabase_id = ?` keeps. */
  function OtherRemoteId(rid: int): PendingDeletion -> bool {
    (d: PendingDeletion) => d.remoteId != Some(rid)
  }

  /** The deletion leaves every other queue row where it was. */
  lemma {:induction false} WithoutDeletionsOfInOrder(ds: seq<PendingDeletion>, rid: int)
    ensures KeptInOrder(WithoutDeletionsOf(ds, rid), ds, OtherRemoteId(rid))
    decreases |ds|
  {
    if ds == [] {
      KeptNothing(OtherRemoteId(rid));
    } else {
      var prefix, last := ds[..|ds| - 1], ds[|ds| - 1];
      var keep, kept := OtherRemoteId(rid), WithoutDeletionsOf(prefix, rid);
      assert ds == prefix + [last];
      WithoutDeletionsOfInOrder(prefix, rid);
      WithoutDeletionsOfSnoc(prefix, last, rid);
      var idx :| KeptAt(idx, kept, prefix, keep);
      KeptSnoc(idx, kept, prefix, keep, last);
      if keep(last) {
        assert WithoutDeletionsOf(ds, rid) == kept + [last];
        assert KeptAt(idx + [|prefix|], WithoutDeletionsOf(ds, rid), ds, keep);
      } else {
        assert WithoutDeletionsOf(ds, rid) == kept;
        assert KeptAt(idx, WithoutDeletionsOf(ds, rid), ds, keep);
      }
    }
  }

  /** A deletion queued last is kept, or not, at the end. */
  lemma {:induction false} WithoutDeletionsOfSnoc(ds: seq<PendingDeletion>, x: PendingDeletion, rid: int)
    ensures WithoutDeletionsOf(ds + [x], rid)
         == WithoutDeletionsOf(ds, rid) + (if x.remoteId != Some(rid) then [x] else [])
    decreases |ds|
  {
    if ds == [] {
      assert [] + [x] == [x];
      assert [x][1..] == [];
    } else {
      assert (ds + [x])[1..] == ds[1..] + [x];
      WithoutDeletionsOfSnoc(ds[1..], x, rid);
    }
  }

  /** `DELETE FROM recordatorios WHERE supabase_id = ?` */
  function DropRemoteId(t: Table, rid: int): (t': Table)
    ensures t'.Keys <= t.Keys
    ensures forall id :: id in t ==> (id in t' <==> t[id].remoteId != Some(rid))
    ensures forall id :: id in t' ==> t'[id] == t[id]
  {
    map id | id in t && t[id].remoteId != Some(rid) :: t[id]
  }

  // ---------------------------------------------------------------------
  // Push, phase 1: pending deletions

  /** A deletion leaves the queue when it has a truthy supabase_id and the
      remote delete for it returns True; `deleted` is that answer per queue
      row (False also stands for an exception, which is caught). */
  function PushDeletions(ds: seq<PendingDeletion>, deleted: int -> bool): seq<PendingDeletion>
    decreases |ds|
  {
    if ds == [] then []
    else
      var last := ds[|ds| - 1];
      var prefix := PushDeletions(ds[..|ds| - 1], deleted);
      if IsTruthyId(last.remoteId) && deleted(last.id) then prefix else prefix + [last]
  }

  predicate Cleared(d: PendingDeletion, deleted: int -> bool) {
    IsTruthyId(d.remoteId) && deleted(d.id)
  }

  function NotCleared(deleted: int -> bool): PendingDeletion -> bool {
    (d: PendingDeletion) => !Cleared(d, deleted)
  }

  /** Phase 1 keeps, in order, exactly the deletions that were not cleared;
      in particular one without a truthy supabase_id is never cleared. */
  lemma {:induction false} PushDeletionsKeeps(ds: seq<PendingDeletion>, deleted: int -> bool)
    ensures var r := PushDeletions(ds, deleted);
      forall d :: d in r <==> d in ds && !Cleared(d, deleted)
    ensures |PushDeletions(ds, deleted)| <= |ds|
    ensures KeptInOrder(PushDeletions(ds, deleted), ds, NotCleared(deleted))
    decreases |ds|
  {
    if ds == [] {
      KeptNothing(NotCleared(deleted));
    } else {
      var prefix := ds[..|ds| - 1];
      PushDeletionsKeeps(prefix, deleted);
      var idx :| KeptAt(idx, PushDeletions(prefix, deleted), prefix, NotCleared(deleted));
      KeptSnoc(idx, PushDeletions(prefix, deleted), prefix, NotCleared(deleted), ds[|ds| - 1]);
      assert ds == prefix + [ds[|ds| - 1]];
    }
  }

  // ---------------------------------------------------------------------
  // Push, phase 2: rows never uploaded

  /** A `pending` row becomes `synced` with the returned id when the create
      call answers a truthy id; `reply` is that answer (None also stands for
      an exception). */
  function Inserted(r: Reminder, reply: Option<int>): Reminder {
    if r.syncStatus == Pending && IsTruthyId(reply) then r.(syncStatus := Synced, remoteId := reply) else r
  }

  function PushInserts(t: Table, create: int -> Option<int>): Table {
    map id | id in t :: Inserted(t[id], create(id))
  }

  // ---------------------------------------------------------------------
  // Push, phase 3: rows with local changes

  /** The remote calls a `pending_update` row triggers: A (stop the alert),
      B (mark notified), C (mark repetition created), in that order. */
  datatype UpdateCall = StopAlertCall | NotifiedCall | RepeatedCall

  /** What a remote call did: returned a truth value, or raised. */
  datatype Reply = Returned(ok: bool) | Raised

  function UpdateCalls(r: Reminder): seq<UpdateCall> {
    (if r.alertStopped && r.constantAlert then [StopAlertCall] else []) +
    (if r.notified then [NotifiedCall] else []) +
    (if r.repetitionCreated then [RepeatedCall] else [])
  }

  /** The row is marked synced when none of its calls raised and at least one
      returned True; `upd(id, c)` is the answer to call `c` for local row `id`. */
  predicate UpdateAccepted(upd: (int, UpdateCall) -> Reply, id: int, calls: seq<UpdateCall>) {
    (forall k :: 0 <= k < |calls| ==> !upd(id, calls[k]).Raised?) &&
    (exists k :: 0 <= k < |calls| && upd(id, calls[k]) == Returned(true))
  }

  function Updated(r: Reminder, id: int, upd: (int, UpdateCall) -> Reply): Reminder {
    if r.syncStatus == PendingUpdate && Linked(r) && UpdateAccepted(upd, id, UpdateCalls(r))
    then r.(syncStatus := Synced)
    else r
  }

  function PushUpdates(t: Table, upd: (int, UpdateCall) -> Reply): Table {
    map id | id in t :: Updated(t[id], id, upd)
  }

  /** A loop that rewrites the rows `ids` one at a time with `f` has done
      the first `i` of them. */
  ghost predicate AppliedUpTo(t0: Table, t: Table, ids: seq<int>, i: int, f: (int, Reminder) -> Reminder) {
    && 0 <= i <= |ids|
    && t.Keys == t0.Keys
    && (forall k :: 0 <= k < |ids| ==> ids[k] in t0)
    && (forall k :: 0 <= k < i ==> t[ids[k]] == f(ids[k], t0[ids[k]]))
    && (forall k :: i <= k < |ids| ==> t[ids[k]] == t0[ids[k]])
  }

  lemma AppliedStep(t0: Table, t: Table, ids: seq<int>, i: int, f: (int, Reminder) -> Reminder)
    requires StrictlyIncreasing(ids) && i < |ids| && AppliedUpTo(t0, t, ids, i, f)
    ensures ids[i] in t && AppliedUpTo(t0, t[ids[i] := f(ids[i], t[ids[i]])], ids, i + 1, f)
  {
  }

  lemma AppliedAllInserts(t0: Table, t: Table, ids: seq<int>, create: int -> Option<int>)
    requires AppliedUpTo(t0, t, ids, |ids|, (id: int, r: Reminder) => Inserted(r, create(id)))
    requires forall id :: id in t0 ==> id in ids
    ensures t == PushInserts(t0, create)
  {
    forall id | id in t0 ensures t[id] == Inserted(t0[id], create(id)) {
      var k :| 0 <= k < |ids| && ids[k] == id;
    }
  }

  lemma AppliedAllUpdates(t0: Table, t: Table, ids: seq<int>, upd: (int, UpdateCall) -> Reply)
    requires AppliedUpTo(t0, t, ids, |ids|, (id: int, r: Reminder) => Updated(r, id, upd))
    requires forall id :: id in t0 ==> id in ids
    ensures t == PushUpdates(t0, upd)
  {
    forall id | id in t0 ensures t[id] == Updated(t0[id], id, upd) {
      var k :| 0 <= k < |ids| && ids[k] == id;
    }
  }

  /** The whole push of `sincronizar_local_a_remoto`: the new deletion queue
      and the new `recordatorios` table. */
  function Push(t: Table, ds: seq<PendingDeletion>, deleted: int -> bool,
                create: int -> Option<int>, upd: (int, UpdateCall) -> Reply): (seq<PendingDeletion>, Table)
  {
    (PushDeletions(ds, deleted), PushUpdates(PushInserts(t, create), upd))
  }

  /** The remote store accepted nothing. */
  ghost predicate AcceptsNothing(deleted: int -> bool, create: int -> Option<int>, upd: (int, UpdateCall) -> Reply) {
    (forall id :: !deleted(id)) && (forall id :: !IsTruthyId(create(id))) &&
    (forall id, c :: upd(id, c) != Returned(true))
  }

  /** When the remote accepts nothing, the push leaves both tables as they were. */
  lemma {:induction false} PushWithoutRemoteIsNoOp(t: Table, ds: seq<PendingDeletion>, deleted: int -> bool,
                                                   create: int -> Option<int>, upd: (int, UpdateCall) -> Reply)
    requires AcceptsNothing(deleted, create, upd)
    ensures Push(t, ds, deleted, create, upd) == (ds, t)
  {
    PushDeletionsNone(ds, deleted);
    var t1 := PushInserts(t, create);
    assert forall id :: id in t ==> t1[id] == t[id];
    assert t1 == t;
    forall id | id in t ensures Updated(t[id], id, upd) == t[id] {
      assert !UpdateAccepted(upd, id, UpdateCalls(t[id]));
    }
    assert PushUpdates(t1, upd) == t;
  }

  lemma {:induction false} PushDeletionsNone(ds: seq<PendingDeletion>, deleted: int -> bool)
    requires forall id :: !deleted(id)
    ensures PushDeletions(ds, deleted) == ds
    decreases |ds|
  {
    if ds != [] {
      PushDeletionsNone(ds[..|ds| - 1], deleted);
      assert ds[..|ds| - 1] + [ds[|ds| - 1]] == ds;
    }
  }

  /** Two rows agree on every column except sync_status and supabase_id. */
  predicate SameContent(a: Reminder, b: Reminder) {
    && a.chatId == b.chatId && a.user == b.user && a.taskName == b.taskName
    && a.description == b.description && a.scheduledAt == b.scheduledAt && a.createdAt == b.createdAt
    && a.notified == b.notified && a.utcFormat == b.utcFormat && a.constantAlert == b.constantAlert
    && a.alertStopped == b.alertStopped && a.repeat == b.repeat && a.repeatInterval == b.repeatInterval
    && a.intervals == b.intervals && a.repetitionCreated == b.repetitionCreated
    && a.lastUpdated == b.lastUpdated
  }

  /** What the push does to one row. */
  lemma PushRow(r: Reminder, id: int, create: int -> Option<int>, upd: (int, UpdateCall) -> Reply)
    ensures var r' := Updated(Inserted(r, create(id)), id, upd);
      && FlagsKept(r, r')
      && SameContent(r, r')
      && (r' != r ==> r'.syncStatus == Synced && r.syncStatus in {Pending, PendingUpdate})
      && (r.syncStatus == PendingUpdate && !Linked(r) ==> r' == r)
  {
    var r1 := Inserted(r, create(id));
    assert SameContent(r, r1) && FlagsKept(r, r1);
    assert r1 != r ==> r1.syncStatus == Synced && r.syncStatus == Pending;
    var r2 := Updated(r1, id, upd);
    if r2 != r1 {
      assert r1.syncStatus == PendingUpdate && r2 == r1.(syncStatus := Synced);
    }
  }

  /** The push changes only sync columns: no flag goes back, no row appears
      or disappears, a row is uploaded only from `pending` or
      `pending_update`, and a `pending_update` row without a supabase_id is
      never uploaded, whatever the remote answers. */
  lemma PushEffect(t: Table, ds: seq<PendingDeletion>, deleted: int -> bool,
                   create: int -> Option<int>, upd: (int, UpdateCall) -> Reply)
    ensures var t' := Push(t, ds, deleted, create, upd).1;
      && t'.Keys == t.Keys
      && Monotone(t, t')
      && (forall id :: id in t ==> SameContent(t[id], t'[id]))
      && (forall id :: id in t && t'[id] != t[id] ==>
            t'[id].syncStatus == Synced && t[id].syncStatus in {Pending, PendingUpdate})
      && (forall id :: id in t && t[id].syncStatus == PendingUpdate && !Linked(t[id]) ==> t'[id] == t[id])
  {
    var t' := Push(t, ds, deleted, create, upd).1;
    forall id | id in t
      ensures t'[id] == Updated(Inserted(t[id], create(id)), id, upd)
    {
    }
    forall id | id in t {
      PushRow(t[id], id, create, upd);
    }
  }

  /** A row whose only remote change is stopping its alert is marked synced
      when call A returns True even if call B (mark notified) returned
      False: the remote row can then still say notificado = false while the
      local row is synced with notificado = 1. */
  lemma PartialUpdateCountsAsSynced(r: Reminder, id: int, upd: (int, UpdateCall) -> Reply)
    requires r.syncStatus == PendingUpdate && Linked(r)
    requires r.notified && r.constantAlert && r.alertStopped && !r.repetitionCreated
    requires upd(id, StopAlertCall) == Returned(true) && upd(id, NotifiedCall) == Returned(false)
    ensures Updated(r, id, upd).syncStatus == Synced
  {
    assert UpdateCalls(r) == [StopAlertCall, NotifiedCall];
    assert upd(id, UpdateCalls(r)[0]) == Returned(true);
  }

  // ---------------------------------------------------------------------
  // Pull

  /** The local tables pull reads and writes: the rows and the next
      AUTOINCREMENT id. */
  datatype Local = Local(table: Table, nextId: int)

  /** Every row id is below the next AUTOINCREMENT id. */
  predicate FreshCounter(s: Local) {
    forall id :: id in s.table ==> id < s.nextId
  }

  /** `SELECT ... WHERE supabase_id = ?` with `fetchone()`: the lowest local
      id holding that supabase_id. */
  function MatchOf(t: Table, rid: int): (r: Option<int>)
    ensures r.Some? ==> r.value in t && t[r.value].remoteId == Some(rid)
    ensures r.Some? ==> forall id :: id in t && t[id].remoteId == Some(rid) ==> r.value <= id
    ensures r.None? ==> forall id :: id in t ==> t[id].remoteId != Some(rid)
  {
    var ids := set id | id in t && t[id].remoteId == Some(rid);
    assert forall id :: id in t && t[id].remoteId == Some(rid) ==> id in ids;
    if ids == {} then None else Some(MinOf(ids))
  }

  /** A deletion of that supabase_id is still queued. */
  predicate Tombstoned(ds: seq<PendingDeletion>, rid: int) {
    exists k :: 0 <= k < |ds| && ds[k].remoteId == Some(rid)
  }

  /** The merge as written at database_manager.py:567-573: the query at line
      554 selects only id, last_updated and sync_status, so the key tests at
      lines 567-569 fail, the three local flags read as 0 and the max gives
      the remote values. */
  function MergeAsWritten(local: Reminder, rem: RemoteRow, now: string): Option<Reminder> {
    MergedRow(local, rem, MonotonicFlags(false, false, false), now)
  }

  /** The merge the comment at lines 564-566 intends: each flag is the max of
      the stored local value and the remote one. */
  function Merge(local: Reminder, rem: RemoteRow, now: string): Option<Reminder> {
    MergedRow(local, rem, FlagsOf(local), now)
  }

  /** A synced, notified local row and a stale remote copy that still says
      notificado = false: the merge as written clears the flag (so the
      reminder fires again), the intended merge keeps it. */
  lemma MergeAsWrittenRevertsNotified(local: Reminder, rem: RemoteRow, now: string)
    requires local.notified && PullWritable(rem, false)
    requires Get(rem.fields, "notificado") == PyBool(false)
    ensures MergeAsWritten(local, rem, now).Some? && !MergeAsWritten(local, rem, now).value.notified
    ensures Merge(local, rem, now).Some? && Merge(local, rem, now).value.notified
  {
  }

  /** The intended merge never clears a flag and keeps the row's identity. */
  lemma MergeKeepsFlags(local: Reminder, rem: RemoteRow, now: string)
    requires Merge(local, rem, now).Some?
    ensures var r := Merge(local, rem, now).value;
      FlagsKept(local, r) && r.remoteId == local.remoteId && r.createdAt == local.createdAt
  {
  }

  /** One remote row, as the loop body at lines 550-618 treats it, with the
      intended `Merge` in place of `MergeAsWritten` for a matched row; None
      when a statement raised (which discards the whole pull). */
  function PullStep(s: Local, ds: seq<PendingDeletion>, rem: RemoteRow, now: string): Option<Local> {
    match MatchOf(s.table, rem.id)
    case Some(id) =>
      if s.table[id].syncStatus != Synced then Some(s)
      else (match Merge(s.table[id], rem, now)
            case None => None
            case Some(r) => Some(s.(table := s.table[id := r])))
    case None =>
      if Tombstoned(ds, rem.id) then Some(s)
      else (match PulledRow(rem, now)
            case None => None
            case Some(r) => Some(Local(s.table[s.nextId := r], s.nextId + 1)))
  }

  /** The remote rows in order; None as soon as one raises. */
  function PullAll(s: Local, ds: seq<PendingDeletion>, rs: seq<RemoteRow>, now: string): Option<Local>
    decreases |rs|
  {
    if rs == [] then Some(s)
    else match PullStep(s, ds, rs[0], now)
      case None => None
      case Some(s1) => PullAll(s1, ds, rs[1..], now)
  }

  /** `sincronizar_remoto_a_local`: nothing happens for an empty answer, and
      the changes are committed only when every row went through. */
  function Pull(s: Local, ds: seq<PendingDeletion>, rs: seq<RemoteRow>, now: string): Local {
    if rs == [] then s
    else match PullAll(s, ds, rs, now)
      case None => s
      case Some(s') => s'
  }

  /** What one step keeps: existing rows stay with their supabase_id, sync
      status and flags, a row with local changes is untouched, and a row
      that appears is synced and linked, under a fresh id. */
  predicate StepKeeps(s: Local, s': Local, ds: seq<PendingDeletion>) {
    && FreshCounter(s')
    && s.nextId <= s'.nextId
    && s.table.Keys <= s'.table.Keys
    && (forall id :: id in s.table ==> s'.table[id].remoteId == s.table[id].remoteId)
    && (forall id :: id in s.table ==> s'.table[id].syncStatus == s.table[id].syncStatus)
    && Monotone(s.table, s'.table)
    && (forall id :: id in s.table && s.table[id].syncStatus != Synced ==> s'.table[id] == s.table[id])
    && (forall id :: id in s'.table && id !in s.table ==>
          && s'.table[id].syncStatus == Synced
          && s'.table[id].remoteId.Some?
          && !Tombstoned(ds, s'.table[id].remoteId.value)
          && (forall j :: j in s.table ==> s.table[j].remoteId != s'.table[id].remoteId))
  }

  lemma PullStepKeeps(s: Local, ds: seq<PendingDeletion>, rem: RemoteRow, now: string)
    requires FreshCounter(s)
    requires PullStep(s, ds, rem, now).Some?
    ensures StepKeeps(s, PullStep(s, ds, rem, now).value, ds)
    ensures Tombstoned(ds, rem.id) ||
            exists id :: id in PullStep(s, ds, rem, now).value.table &&
                         PullStep(s, ds, rem, now).value.table[id].remoteId == Some(rem.id)
    ensures var s' := PullStep(s, ds, rem, now).value;
      forall id :: id in s'.table && id !in s.table ==> s'.table[id].remoteId == Some(rem.id)
  {
    match MatchOf(s.table, rem.id)
    case Some(id) =>
      if s.table[id].syncStatus == Synced {
        MergeKeepsFlags(s.table[id], rem, now);
        UpdateKeeps(s, ds, id, Merge(s.table[id], rem, now).value);
      }
    case None =>
      if !Tombstoned(ds, rem.id) {
        var r := PulledRow(rem, now).value;
        InsertKeeps(s, ds, r);
        assert Local(s.table[s.nextId := r], s.nextId + 1).table[s.nextId].remoteId == Some(rem.id);
      }
  }

  /** Overwriting a synced row with one that keeps its flags and link. */
  lemma UpdateKeeps(s: Local, ds: seq<PendingDeletion>, id: int, r: Reminder)
    requires FreshCounter(s) && id in s.table && s.table[id].syncStatus == Synced
    requires FlagsKept(s.table[id], r) && r.remoteId == s.table[id].remoteId && r.syncStatus == Synced
    ensures StepKeeps(s, s.(table := s.table[id := r]), ds)
  {
  }

  /** Inserting, under the next id, a row linked to an id that no row holds
      and that has no queued deletion. */
  lemma InsertKeeps(s: Local, ds: seq<PendingDeletion>, r: Reminder)
    requires FreshCounter(s) && r.syncStatus == Synced && r.remoteId.Some? && !Tombstoned(ds, r.remoteId.value)
    requires forall j :: j in s.table ==> s.table[j].remoteId != r.remoteId
    ensures StepKeeps(s, Local(s.table[s.nextId := r], s.nextId + 1), ds)
  {
  }

  lemma StepKeepsTransitive(s: Local, s1: Local, s2: Local, ds: seq<PendingDeletion>)
    requires StepKeeps(s, s1, ds) && StepKeeps(s1, s2, ds)
    ensures StepKeeps(s, s2, ds)
  {
    forall id | id in s2.table && id !in s.table
      ensures forall j :: j in s.table ==> s.table[j].remoteId != s2.table[id].remoteId
    {
      if id in s1.table {
        assert s2.table[id].remoteId == s1.table[id].remoteId;
      } else {
        forall j | j in s.table ensures s.table[j].remoteId != s2.table[id].remoteId {
          assert s1.table[j].remoteId == s.table[j].remoteId;
        }
      }
    }
  }

  /** What a whole successful pull guarantees:
      - no flag goes back and no row disappears or changes its supabase_id
        or its sync status;
      - a row with unsynced local changes is left exactly as it was;
      - a row that appears carries a supabase_id that no earlier row had and
        that has no queued deletion (a deleted reminder is not brought back,
        and a reminder the push just linked is not imported twice);
      - a row that appears is `synced` and linked to one of the remote rows;
      - every remote row is then either tombstoned or present locally. */
  lemma {:induction false} PullAllKeeps(s: Local, ds: seq<PendingDeletion>, rs: seq<RemoteRow>, now: string)
    requires FreshCounter(s)
    requires PullAll(s, ds, rs, now).Some?
    ensures StepKeeps(s, PullAll(s, ds, rs, now).value, ds)
    ensures forall k :: 0 <= k < |rs| ==>
      Tombstoned(ds, rs[k].id) ||
      exists id :: id in PullAll(s, ds, rs, now).value.table &&
                   PullAll(s, ds, rs, now).value.table[id].remoteId == Some(rs[k].id)
    ensures var s' := PullAll(s, ds, rs, now).value;
      forall id :: id in s'.table && id !in s.table ==>
        exists k :: 0 <= k < |rs| && s'.table[id].remoteId == Some(rs[k].id)
    decreases |rs|
  {
    if rs != [] {
      var s1 := PullStep(s, ds, rs[0], now).value;
      PullStepKeeps(s, ds, rs[0], now);
      PullAllKeeps(s1, ds, rs[1..], now);
      var s2 := PullAll(s, ds, rs, now).value;
      assert s2 == PullAll(s1, ds, rs[1..], now).value;
      StepKeepsTransitive(s, s1, s2, ds);
      forall k | 0 <= k < |rs| && !Tombstoned(ds, rs[k].id)
        ensures exists id :: id in s2.table && s2.table[id].remoteId == Some(rs[k].id)
      {
        if k == 0 {
          var id :| id in s1.table && s1.table[id].remoteId == Some(rs[0].id);
          assert s2.table[id].remoteId == Some(rs[0].id);
        } else {
          assert rs[1..][k - 1] == rs[k];
        }
      }
      forall id | id in s2.table && id !in s.table
        ensures exists k :: 0 <= k < |rs| && s2.table[id].remoteId == Some(rs[k].id)
      {
        if id in s1.table {
          assert s2.table[id].remoteId == Some(rs[0].id);
        } else {
          var k :| 0 <= k < |rs[1..]| && s2.table[id].remoteId == Some(rs[1..][k].id);
          assert rs[1..][k] == rs[k + 1];
        }
      }
    } else {
      assert PullAll(s, ds, rs, now).value == s;
    }
  }

  /** Pull either commits a successful pass or changes nothing. */
  lemma PullKeeps(s: Local, ds: seq<PendingDeletion>, rs: seq<RemoteRow>, now: string)
    requires FreshCounter(s)
    ensures StepKeeps(s, Pull(s, ds, rs, now), ds)
    ensures Pull(s, ds, rs, now) == s || PullAll(s, ds, rs, now) == Some(Pull(s, ds, rs, now))
  {
    if rs != [] && PullAll(s, ds, rs, now).Some? {
      PullAllKeeps(s, ds, rs, now);
    }
  }

  /** A full cycle (push, then pull): a row the push linked to a remote id is
      not imported a second time when the pull brings that remote row back. */
  lemma CycleDoesNotDuplicate(s: Local, ds: seq<PendingDeletion>, deleted: int -> bool,
                              create: int -> Option<int>, upd: (int, UpdateCall) -> Reply,
                              rs: seq<RemoteRow>, now: string, id: int)
    requires FreshCounter(s)
    requires id in s.table && s.table[id].syncStatus == Pending && IsTruthyId(create(id))
    ensures var pushed := Push(s.table, ds, deleted, create, upd);
      var after := Pull(Local(pushed.1, s.nextId), pushed.0, rs, now);
      && id in after.table && after.table[id].remoteId == create(id)
      && forall j :: j in after.table && after.table[j].remoteId == create(id) ==> j in s.table
  {
    var pushed := Push(s.table, ds, deleted, create, upd);
    PushEffect(s.table, ds, deleted, create, upd);
    assert pushed.1[id].remoteId == create(id);
    var mid := Local(pushed.1, s.nextId);
    PullKeeps(mid, pushed.0, rs, now);
  }

  /** A remote row whose local copy was deleted while its deletion is still
      queued is not brought back by the pull. */
  lemma DeletedStaysDeleted(s: Local, ds: seq<PendingDeletion>, rs: seq<RemoteRow>, now: string, rid: int)
    requires FreshCounter(s) && Tombstoned(ds, rid)
    requires forall id :: id in s.table ==> s.table[id].remoteId != Some(rid)
    ensures forall id :: id in Pull(s, ds, rs, now).table ==> Pull(s, ds, rs, now).table[id].remoteId != Some(rid)
  {
    PullKeeps(s, ds, rs, now);
  }
}
