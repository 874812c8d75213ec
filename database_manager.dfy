/**
  DatabaseManager: the local SQLite cache is always written first, and the
  remote store (Supabase) is reached through a push/pull cycle that may
  fail at any call. The class keeps the tables it writes as fields; each
  method is proved to compute the table rewrite of SyncRules or Queries
  that specifies it. The remote store and the clock are parameters: a
  method that talks to it receives the answers as values or functions.
 */
module LocalStore {
  import opened Wrappers
  import opened PyValues
  import opened Reminders
  import opened Tables
  import opened SyncRules
  import opened Queries

  class DatabaseManager {
    /** `recordatorios`, by local id. */
    var reminders: Table
    /** `bajas_pendientes`, in rowid order. */
    var pendingDeletions: seq<PendingDeletion>
    /** `chats_info`, by chat_id. */
    var chatsInfo: map<string, ChatInfo>
    /** The next AUTOINCREMENT id of `recordatorios` and of `bajas_pendientes`. */
    var nextId: int
    var nextDeletionId: int
    /** Set by every connection check. */
    var supabaseOnline: bool

    ghost predicate Valid()
      reads this
    {
      && FreshCounter(Local(reminders, nextId))
      && (forall k :: 0 <= k < |pendingDeletions| ==> pendingDeletions[k].id < nextDeletionId)
    }

    /** `inicializar_db_local` on a new file: every table empty. */
    constructor ()
      ensures Valid()
      ensures reminders == map[] && pendingDeletions == [] && chatsInfo == map[]
      ensures nextId == 1 && nextDeletionId == 1 && !supabaseOnline
    {
      reminders := map[];
      pendingDeletions := [];
      chatsInfo := map[];
      nextId := 1;
      nextDeletionId := 1;
      supabaseOnline := false;
    }

    /** `_guardar_recordatorio_local`: INSERT one row; None when the INSERT raises. */
    method SaveLocal(d: Fields, status: SyncStatus, now: string) returns (localId: Option<int>)
      requires Valid()
      modifies this
      ensures Valid()
      ensures localId.Some? <==> SaveRow(d, status, now).Some?
      ensures localId.None? ==> reminders == old(reminders) && nextId == old(nextId)
      ensures localId.Some? ==>
        && localId.value == old(nextId) && localId.value !in old(reminders)
        && reminders == old(reminders)[localId.value := SaveRow(d, status, now).value]
        && nextId == old(nextId) + 1
      ensures pendingDeletions == old(pendingDeletions) && nextDeletionId == old(nextDeletionId)
      ensures chatsInfo == old(chatsInfo) && supabaseOnline == old(supabaseOnline)
    {
      match SaveRow(d, status, now)
      case None =>
        localId := None;
      case Some(row) =>
        localId := Some(nextId);
        reminders := reminders[nextId := row];
        nextId := nextId + 1;
    }

    /** `_actualizar_estado_sync_recordatorio`. */
    method UpdateSyncStatus(localId: int, status: SyncStatus, remoteId: Option<int>)
      requires Valid()
      modifies this
      ensures Valid()
      ensures reminders == SetSyncStatus(old(reminders), localId, status, remoteId)
      ensures pendingDeletions == old(pendingDeletions) && nextId == old(nextId)
      ensures nextDeletionId == old(nextDeletionId)
      ensures chatsInfo == old(chatsInfo) && supabaseOnline == old(supabaseOnline)
    {
      reminders := SetSyncStatus(reminders, localId, status, remoteId);
    }

    /** `guardar_recordatorio`: the row is saved locally as `pending`; when
        the store is `online` and the create call answers a truthy id
        (`reply`), the row becomes `synced` with that id. The result is True
        exactly when the local INSERT went through, whatever the remote did. */
    method SaveReminder(d: Fields, now: string, online: bool, reply: Option<int>) returns (ok: bool)
      requires Valid()
      modifies this
      ensures Valid()
      ensures ok <==> SaveRow(d, Pending, now).Some?
      ensures !ok ==> reminders == old(reminders) && nextId == old(nextId) && supabaseOnline == old(supabaseOnline)
      ensures ok ==>
        var saved := old(reminders)[old(nextId) := SaveRow(d, Pending, now).value];
        && nextId == old(nextId) + 1
        && supabaseOnline == online
        && reminders == (if online && IsTruthyId(reply) then SetSyncStatus(saved, old(nextId), Synced, reply) else saved)
      ensures pendingDeletions == old(pendingDeletions) && nextDeletionId == old(nextDeletionId)
      ensures chatsInfo == old(chatsInfo)
    {
      var localId := SaveLocal(d, Pending, now);
      if localId.None? {
        return false;
      }
      supabaseOnline := online;
      var remoteOk := false;
      var remoteId := None;
      if online {
        if IsTruthyId(reply) {
          remoteOk := true;
          remoteId := reply;
        }
      }
      if remoteOk {
        UpdateSyncStatus(localId.value, Synced, remoteId);
      }
      ok := true;
    }

    /** `eliminar_recordatorio`: the row goes at once; when it had (or was
        given) a truthy supabase_id a deletion is queued, and it is taken off
        the queue again when the store is `online` and the remote delete
        answers True (`remoteDeleted`). */
    method DeleteReminder(localId: int, given: Option<int>, now: string, online: bool, remoteDeleted: bool)
      returns (ok: bool)
      requires Valid()
      modifies this
      ensures Valid()
      ensures ok
      ensures reminders == old(reminders) - {localId} && nextId == old(nextId)
      ensures var sid := DeletionTarget(old(reminders), localId, given);
        var queued := if IsTruthyId(sid)
          then old(pendingDeletions) + [PendingDeletion(old(nextDeletionId), "recordatorios", localId, sid, now)]
          else old(pendingDeletions);
        pendingDeletions == (if online && IsTruthyId(sid) && remoteDeleted then WithoutDeletionsOf(queued, sid.value) else queued)
      ensures supabaseOnline == online && chatsInfo == old(chatsInfo)
    {
      var sid := given;
      if !IsTruthyId(sid) {
        if localId in reminders && Linked(reminders[localId]) {
          sid := reminders[localId].remoteId;
        }
      }
      reminders := reminders - {localId};
      if IsTruthyId(sid) {
        pendingDeletions := pendingDeletions + [PendingDeletion(nextDeletionId, "recordatorios", localId, sid, now)];
        nextDeletionId := nextDeletionId + 1;
      }
      supabaseOnline := online;
      if online && IsTruthyId(sid) {
        if remoteDeleted {
          RemovePendingDeletion(sid.value);
        }
      }
      ok := true;
    }

    /** `_eliminar_baja_pendiente`. */
    method RemovePendingDeletion(remoteId: int)
      requires Valid()
      modifies this
      ensures Valid()
      ensures pendingDeletions == WithoutDeletionsOf(old(pendingDeletions), remoteId)
      ensures KeptInOrder(pendingDeletions, old(pendingDeletions), OtherRemoteId(remoteId))
      ensures reminders == old(reminders) && nextId == old(nextId) && nextDeletionId == old(nextDeletionId)
      ensures chatsInfo == old(chatsInfo) && supabaseOnline == old(supabaseOnline)
    {
      WithoutDeletionsOfInOrder(pendingDeletions, remoteId);
      pendingDeletions := WithoutDeletionsOf(pendingDeletions, remoteId);
    }

    /** `eliminar_por_supabase_id`: True exactly when some row was deleted. */
    method DeleteByRemoteId(remoteId: int) returns (deleted: bool)
      requires Valid()
      modifies this
      ensures Valid()
      ensures reminders == DropRemoteId(old(reminders), remoteId)
      ensures deleted <==> exists id :: id in old(reminders) && old(reminders)[id].remoteId == Some(remoteId)
      ensures pendingDeletions == old(pendingDeletions) && nextId == old(nextId)
      ensures nextDeletionId == old(nextDeletionId)
      ensures chatsInfo == old(chatsInfo) && supabaseOnline == old(supabaseOnline)
    {
      var matched := set id | id in reminders && reminders[id].remoteId == Some(remoteId);
      var rowcount := |matched|;
      reminders := DropRemoteId(reminders, remoteId);
      deleted := rowcount > 0;
      if exists id :: id in old(reminders) && old(reminders)[id].remoteId == Some(remoteId) {
        var id :| id in old(reminders) && old(reminders)[id].remoteId == Some(remoteId);
        assert id in matched;
      }
    }

    /** `obtener_recordatorios_pendientes`: the ids of the rows still to
        notify or with a constant alert not yet stopped, in rowid order. */
    function DueReminders(): (due: seq<int>)
      reads this
      ensures StrictlyIncreasing(due)
      ensures forall id :: id in due <==> id in reminders && Due(reminders[id])
    {
      Scan(reminders, DueNow)
    }

    /** `obtener_recordatorios_usuario_local`: the ids of every row of the
        chat, each once, ordered by fecha_hora with NULL first. */
    function RemindersOfChat(chatId: string): (rs: seq<int>)
      reads this
      ensures InTable(reminders, rs) && SortedByTime(reminders, rs)
      ensures forall id :: id in rs <==> id in reminders && reminders[id].chatId == chatId
      ensures forall id :: multiset(rs)[id] <= 1
    {
      var scan := Scan(reminders, OfChat(chatId));
      var rs := SortByTime(reminders, scan);
      SameIdsOnce(scan, rs);
      rs
    }

    /** A permutation of a strictly increasing list holds the same ids, each once. */
    static lemma SameIdsOnce(xs: seq<int>, ys: seq<int>)
      requires StrictlyIncreasing(xs) && multiset(ys) == multiset(xs)
      ensures forall x :: x in ys <==> x in xs
      ensures forall x :: multiset(ys)[x] <= 1
    {
      DistinctOnce(xs);
      forall x ensures x in ys <==> x in xs {
        assert x in ys <==> x in multiset(ys);
        assert x in xs <==> x in multiset(xs);
      }
    }

    static lemma {:induction false} DistinctOnce(xs: seq<int>)
      requires StrictlyIncreasing(xs)
      ensures forall x :: multiset(xs)[x] <= 1
      decreases |xs|
    {
      if xs != [] {
        HeadBelowTail(xs);
        DistinctOnce(xs[1..]);
        assert xs == [xs[0]] + xs[1..];
        assert xs[0] !in xs[1..];
      }
    }

    /** `detener_avisos_constantes`. */
    method StopConstantAlerts(chatId: string, now: string) returns (ok: bool)
      requires Valid()
      modifies this
      ensures Valid()
      ensures ok
      ensures reminders == SyncRules.StopConstantAlerts(old(reminders), chatId, now)
      ensures pendingDeletions == old(pendingDeletions) && nextId == old(nextId)
      ensures nextDeletionId == old(nextDeletionId)
      ensures chatsInfo == old(chatsInfo) && supabaseOnline == old(supabaseOnline)
    {
      reminders := SyncRules.StopConstantAlerts(reminders, chatId, now);
      ok := true;
    }

    /** `marcar_como_notificado`. */
    method MarkNotified(localId: int, now: string)
      requires Valid()
      modifies this
      ensures Valid()
      ensures reminders == SyncRules.MarkNotified(old(reminders), localId, now)
      ensures pendingDeletions == old(pendingDeletions) && nextId == old(nextId)
      ensures nextDeletionId == old(nextDeletionId)
      ensures chatsInfo == old(chatsInfo) && supabaseOnline == old(supabaseOnline)
    {
      reminders := SyncRules.MarkNotified(reminders, localId, now);
    }

    /** `marcar_como_repetido`: always True. */
    method MarkRepeated(localId: int, now: string) returns (ok: bool)
      requires Valid()
      modifies this
      ensures Valid()
      ensures ok
      ensures reminders == SyncRules.MarkRepeated(old(reminders), localId, now)
      ensures pendingDeletions == old(pendingDeletions) && nextId == old(nextId)
      ensures nextDeletionId == old(nextDeletionId)
      ensures chatsInfo == old(chatsInfo) && supabaseOnline == old(supabaseOnline)
    {
      reminders := SyncRules.MarkRepeated(reminders, localId, now);
      ok := true;
    }

    /** The calls A, B, C of one `pending_update` row inside one try block:
        `exito` is set by the first call that is made while it is still
        False, later answers are ignored, and an exception abandons the row.
        The row is accepted exactly when UpdateAccepted says so. */
    static method UploadChanges(id: int, r: Reminder, upd: (int, UpdateCall) -> Reply) returns (accepted: bool)
      ensures accepted <==> UpdateAccepted(upd, id, UpdateCalls(r))
    {
      var calls := UpdateCalls(r);
      var exito := false;
      var raised := false;
      var i := 0;
      while i < |calls| && !raised
        invariant 0 <= i <= |calls|
        invariant raised <==> exists k :: 0 <= k < i && upd(id, calls[k]).Raised?
        invariant !raised ==> (exito <==> exists k :: 0 <= k < i && upd(id, calls[k]) == Returned(true))
        decreases |calls| - i
      {
        var answer := upd(id, calls[i]);
        if answer.Raised? {
          raised := true;
        } else if !exito {
          exito := answer.ok;
        }
        i := i + 1;
      }
      accepted := !raised && exito;
    }

    /** `sincronizar_local_a_remoto`, phase by phase: the queued deletions,
        then the `pending` rows, then the `pending_update` rows, each in
        rowid order. `deleted`, `create` and `upd` are the remote answers. */
    method PushLocalToRemote(deleted: int -> bool, create: int -> Option<int>, upd: (int, UpdateCall) -> Reply)
      requires Valid()
      modifies this
      ensures Valid()
      ensures (pendingDeletions, reminders) == Push(old(reminders), old(pendingDeletions), deleted, create, upd)
      ensures nextId == old(nextId) && nextDeletionId == old(nextDeletionId)
      ensures chatsInfo == old(chatsInfo) && supabaseOnline == old(supabaseOnline)
    {
      UploadDeletions(deleted);
      UploadInserts(create);
      UploadUpdates(upd);
    }

    /** Phase 1: a queue row is deleted (by its own id) when the remote
        delete of its truthy supabase_id answers True. */
    method UploadDeletions(deleted: int -> bool)
      requires Valid()
      modifies this
      ensures Valid()
      ensures pendingDeletions == PushDeletions(old(pendingDeletions), deleted)
      ensures KeptInOrder(pendingDeletions, old(pendingDeletions), NotCleared(deleted))
      ensures reminders == old(reminders)
      ensures nextId == old(nextId) && nextDeletionId == old(nextDeletionId)
      ensures chatsInfo == old(chatsInfo) && supabaseOnline == old(supabaseOnline)
    {
      var bajas := pendingDeletions;
      var kept: seq<PendingDeletion> := [];
      for i := 0 to |bajas|
        invariant kept == PushDeletions(bajas[..i], deleted)
        invariant forall k :: 0 <= k < |kept| ==> kept[k] in bajas
      {
        assert bajas[..i + 1][..i] == bajas[..i];
        if !(IsTruthyId(bajas[i].remoteId) && deleted(bajas[i].id)) {
          kept := kept + [bajas[i]];
        }
      }
      WholePrefix(bajas);
      PushDeletionsKeeps(bajas, deleted);
      pendingDeletions := kept;
    }

    /** Phase 2: each `pending` row is sent; a truthy id in the answer makes it `synced`. */
    method UploadInserts(create: int -> Option<int>)
      requires Valid()
      modifies this
      ensures Valid()
      ensures reminders == PushInserts(old(reminders), create)
      ensures pendingDeletions == old(pendingDeletions)
      ensures nextId == old(nextId) && nextDeletionId == old(nextDeletionId)
      ensures chatsInfo == old(chatsInfo) && supabaseOnline == old(supabaseOnline)
    {
      var t0 := reminders;
      ghost var f := (id: int, r: Reminder) => Inserted(r, create(id));
      var ids := SortedIds(reminders.Keys);
      for i := 0 to |ids|
        invariant Valid()
        invariant AppliedUpTo(t0, reminders, ids, i, f)
        invariant pendingDeletions == old(pendingDeletions)
        invariant nextId == old(nextId) && nextDeletionId == old(nextDeletionId)
        invariant chatsInfo == old(chatsInfo) && supabaseOnline == old(supabaseOnline)
      {
        var id := ids[i];
        AppliedStep(t0, reminders, ids, i, f);
        UploadInsert(id, create);
      }
      AppliedAllInserts(t0, reminders, ids, create);
    }

    /** Phase 3: each linked `pending_update` row sends its changes; it
        becomes `synced` when UploadChanges accepts it. */
    method UploadUpdates(upd: (int, UpdateCall) -> Reply)
      requires Valid()
      modifies this
      ensures Valid()
      ensures reminders == PushUpdates(old(reminders), upd)
      ensures pendingDeletions == old(pendingDeletions)
      ensures nextId == old(nextId) && nextDeletionId == old(nextDeletionId)
      ensures chatsInfo == old(chatsInfo) && supabaseOnline == old(supabaseOnline)
    {
      var t1 := reminders;
      ghost var f := (id: int, r: Reminder) => Updated(r, id, upd);
      var ids := SortedIds(reminders.Keys);
      for i := 0 to |ids|
        invariant Valid()
        invariant AppliedUpTo(t1, reminders, ids, i, f)
        invariant pendingDeletions == old(pendingDeletions)
        invariant nextId == old(nextId) && nextDeletionId == old(nextDeletionId)
        invariant chatsInfo == old(chatsInfo) && supabaseOnline == old(supabaseOnline)
      {
        var id := ids[i];
        AppliedStep(t1, reminders, ids, i, f);
        UploadUpdate(id, upd);
      }
      AppliedAllUpdates(t1, reminders, ids, upd);
    }

    /** One row of phase 2. */
    method UploadInsert(id: int, create: int -> Option<int>)
      requires Valid() && id in reminders
      modifies this
      ensures Valid()
      ensures reminders == old(reminders)[id := Inserted(old(reminders)[id], create(id))]
      ensures pendingDeletions == old(pendingDeletions)
      ensures nextId == old(nextId) && nextDeletionId == old(nextDeletionId)
      ensures chatsInfo == old(chatsInfo) && supabaseOnline == old(supabaseOnline)
    {
      var row := reminders[id];
      if row.syncStatus == Pending {
        var reply := create(id);
        if IsTruthyId(reply) {
          UpdateSyncStatus(id, Synced, reply);
        }
      }
    }

    /** One row of phase 3. */
    method UploadUpdate(id: int, upd: (int, UpdateCall) -> Reply)
      requires Valid() && id in reminders
      modifies this
      ensures Valid()
      ensures reminders == old(reminders)[id := Updated(old(reminders)[id], id, upd)]
      ensures pendingDeletions == old(pendingDeletions)
      ensures nextId == old(nextId) && nextDeletionId == old(nextDeletionId)
      ensures chatsInfo == old(chatsInfo) && supabaseOnline == old(supabaseOnline)
    {
      var row := reminders[id];
      if row.syncStatus == PendingUpdate && Linked(row) {
        var exito := UploadChanges(id, row, upd);
        if exito {
          UpdateSyncStatus(id, Synced, row.remoteId);
        }
      }
    }

    /** `sincronizar_remoto_a_local`: `remotes` is the page of remote rows
        (empty when the fetch failed or found nothing). The rows are applied
        one by one to a working copy that is committed only when none of the
        statements raised. A matched row is merged with the intended
        `SyncRules.Merge`, not the merge as written (`SyncRules.MergeAsWritten`). */
    method PullRemoteToLocal(remotes: seq<RemoteRow>, now: string)
      requires Valid()
      modifies this
      ensures Valid()
      ensures Local(reminders, nextId) == Pull(old(Local(reminders, nextId)), pendingDeletions, remotes, now)
      ensures pendingDeletions == old(pendingDeletions) && nextDeletionId == old(nextDeletionId)
      ensures chatsInfo == old(chatsInfo) && supabaseOnline == old(supabaseOnline)
    {
      if remotes == [] {
        return;
      }
      var start := Local(reminders, nextId);
      var work := start;
      var failed := false;
      var i := 0;
      while i < |remotes| && !failed
        invariant 0 <= i <= |remotes|
        invariant failed ==> PullAll(start, pendingDeletions, remotes, now).None?
        invariant !failed ==> PullAll(start, pendingDeletions, remotes, now) == PullAll(work, pendingDeletions, remotes[i..], now)
        decreases |remotes| - i + (if failed then 0 else 1)
      {
        var rem := remotes[i];
        assert remotes[i..][1..] == remotes[i + 1..];
        var next: Option<Local>;
        match MatchOf(work.table, rem.id) {
          case Some(id) =>
            if work.table[id].syncStatus != Synced {
              next := Some(work);              // local changes win: skip
            } else {
              match Merge(work.table[id], rem, now) {
                case None => next := None;
                case Some(row) => next := Some(work.(table := work.table[id := row]));
              }
            }
          case None =>
            if Tombstoned(pendingDeletions, rem.id) {
              next := Some(work);              // deleted locally: skip
            } else {
              match PulledRow(rem, now) {
                case None => next := None;
                case Some(row) => next := Some(Local(work.table[work.nextId := row], work.nextId + 1));
              }
            }
        }
        assert next == PullStep(work, pendingDeletions, rem, now);
        if next.None? {
          failed := true;
        } else {
          work := next.value;
          i := i + 1;
        }
      }
      PullKeeps(start, pendingDeletions, remotes, now);
      if !failed {
        assert remotes[|remotes|..] == [];
        reminders := work.table;
        nextId := work.nextId;
      }
    }

    /** `sincronizar_todo`: nothing when the store is offline; otherwise the
        push, then the pull. */
    method SyncAll(online: bool, deleted: int -> bool, create: int -> Option<int>,
                   upd: (int, UpdateCall) -> Reply, remotes: seq<RemoteRow>, now: string)
      requires Valid()
      modifies this
      ensures Valid()
      ensures supabaseOnline == online
      ensures !online ==> reminders == old(reminders) && pendingDeletions == old(pendingDeletions) && nextId == old(nextId)
      ensures online ==>
        var pushed := Push(old(reminders), old(pendingDeletions), deleted, create, upd);
        && pendingDeletions == pushed.0
        && Local(reminders, nextId) == Pull(Local(pushed.1, old(nextId)), pushed.0, remotes, now)
      ensures nextDeletionId == old(nextDeletionId) && chatsInfo == old(chatsInfo)
    {
      supabaseOnline := online;
      if !online {
        return;
      }
      PushLocalToRemote(deleted, create, upd);
      PullRemoteToLocal(remotes, now);
    }
  }
}
