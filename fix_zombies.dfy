/**
  The zombie sweep: local rows still linked to a remote id that the remote
  store no longer has are deleted, in batches of at most 900 ids (SQLite's
  limit on bound variables), each batch committed or lost on its own.
 */
module FixZombies {
  import opened Wrappers
  import opened Reminders
  import opened Tables
  import opened SyncRules
  import opened Queries
  import opened LocalStore

  const ChunkSize: nat := 900

  /** How a run ends: no connection, no remote id list, nothing to do, or
      the zombie list and the number of rows deleted. */
  datatype SweepOutcome = NotConnected | RemoteIdsUnavailable | NoZombies | Swept(zombies: seq<int>, deletedTotal: nat)

  /** The zombies of a table for a remote id set, in rowid order. */
  function Zombies(t: Table, remote: set<int>): (zs: seq<int>)
    ensures StrictlyIncreasing(zs)
    ensures forall id :: id in zs <==> id in t && t[id].remoteId.Some? && t[id].remoteId.value !in remote
  {
    Scan(t, LinkedOutside(remote))
  }

  /** The SELECT of rows with a supabase_id and the loop that keeps those
      whose id is not in the remote set. */
  method FindZombies(t: Table, remote: set<int>) returns (zombis: seq<int>)
    ensures zombis == Zombies(t, remote)
  {
    var sel := LinkedOutside(remote);
    var locales := SortedIds(t.Keys);
    assert InTable(t, locales);
    WherePrefix(t, locales, 0, sel);
    zombis := [];
    for i := 0 to |locales|
      invariant InTable(t, locales[..i])
      invariant zombis == Where(t, locales[..i], sel)
    {
      var id := locales[i];
      WherePrefix(t, locales, i, sel);
      if t[id].remoteId.Some? && t[id].remoteId.value !in remote {
        zombis := zombis + [id];
      }
    }
    WholePrefix(locales);
  }

  /** The table after the sweep: the ids of the batches that went through are gone. */
  function AfterSweep(t: Table, remote: set<int>, batchOk: nat -> bool): Table {
    t - set id | id in Selected(Chunks(Zombies(t, remote), ChunkSize), batchOk)
  }

  /** `fix_zombies`: `connected` is the connection check, `remoteIds` the
      remote id list (None on error), `batchOk(k)` whether the DELETE of
      batch `k` went through. */
  method Sweep(db: DatabaseManager, connected: bool, remoteIds: Option<seq<int>>, batchOk: nat -> bool)
    returns (outcome: SweepOutcome)
    requires db.Valid()
    modifies db
    ensures db.Valid()
    ensures !connected ==> outcome == NotConnected && db.reminders == old(db.reminders)
    ensures connected && remoteIds.None? ==> outcome == RemoteIdsUnavailable && db.reminders == old(db.reminders)
    ensures connected && remoteIds.Some? ==>
      var remote := set x | x in remoteIds.value;
      var zs := Zombies(old(db.reminders), remote);
      && db.reminders == AfterSweep(old(db.reminders), remote, batchOk)
      && (zs == [] ==> outcome == NoZombies)
      && (zs != [] ==> outcome == Swept(zs, |Selected(Chunks(zs, ChunkSize), batchOk)|))
    ensures db.pendingDeletions == old(db.pendingDeletions) && db.nextId == old(db.nextId)
    ensures db.nextDeletionId == old(db.nextDeletionId)
    ensures db.chatsInfo == old(db.chatsInfo) && db.supabaseOnline == old(db.supabaseOnline)
  {
    if !connected {
      return NotConnected;
    }
    if remoteIds.None? {
      return RemoteIdsUnavailable;
    }
    var remote := set x | x in remoteIds.value;
    var t0 := db.reminders;
    var zombis := FindZombies(db.reminders, remote);
    if zombis == [] {
      assert Selected(Chunks(zombis, ChunkSize), batchOk) == [];
      assert AfterSweep(t0, remote, batchOk) == t0;
      return NoZombies;
    }
    var total := DeleteBatches(db, Chunks(zombis, ChunkSize), batchOk);
    outcome := Swept(zombis, total);
  }

  /** The chunk loop: one DELETE per batch, committed when it goes through. */
  method DeleteBatches(db: DatabaseManager, batches: seq<seq<int>>, batchOk: nat -> bool) returns (total: nat)
    requires db.Valid()
    modifies db
    ensures db.Valid()
    ensures db.reminders == old(db.reminders) - set id | id in Selected(batches, batchOk)
    ensures total == |Selected(batches, batchOk)|
    ensures db.pendingDeletions == old(db.pendingDeletions) && db.nextId == old(db.nextId)
    ensures db.nextDeletionId == old(db.nextDeletionId)
    ensures db.chatsInfo == old(db.chatsInfo) && db.supabaseOnline == old(db.supabaseOnline)
  {
    var t0 := db.reminders;
    total := 0;
    for k := 0 to |batches|
      invariant db.Valid()
      invariant db.reminders == t0 - set id | id in Selected(batches[..k], batchOk)
      invariant total == |Selected(batches[..k], batchOk)|
      invariant db.pendingDeletions == old(db.pendingDeletions) && db.nextId == old(db.nextId)
      invariant db.nextDeletionId == old(db.nextDeletionId)
      invariant db.chatsInfo == old(db.chatsInfo) && db.supabaseOnline == old(db.supabaseOnline)
    {
      var batch := batches[k];
      assert batches[..k + 1][..k] == batches[..k];
      assert batches[..k + 1][k] == batch;
      if batchOk(k) {
        RemoveBatch(t0, Selected(batches[..k], batchOk), batch);
        db.reminders := db.reminders - set id | id in batch;
        total := total + |batch|;
      }
    }
    WholePrefix(batches);
  }

  lemma RemoveBatch(t: Table, done: seq<int>, batch: seq<int>)
    ensures (t - set id | id in done) - (set id | id in batch) == t - set id | id in done + batch
  {
  }

  /** A non-zombie row is never deleted or changed, and at most the zombies are deleted. */
  lemma SweepOnlyDeletesZombies(t: Table, remote: set<int>, batchOk: nat -> bool)
    ensures var t' := AfterSweep(t, remote, batchOk);
      && t'.Keys <= t.Keys
      && (forall id :: id in t' ==> t'[id] == t[id])
      && (forall id :: id in t && !(t[id].remoteId.Some? && t[id].remoteId.value !in remote) ==> id in t')
      && |Selected(Chunks(Zombies(t, remote), ChunkSize), batchOk)| <= |Zombies(t, remote)|
  {
    var zs := Zombies(t, remote);
    var gone := Selected(Chunks(zs, ChunkSize), batchOk);
    ChunksFlatten(zs, ChunkSize);
    forall id | id in gone ensures id in zs {
      SelectedMembers(Chunks(zs, ChunkSize), batchOk, id);
      var k: nat :| k < |Chunks(zs, ChunkSize)| && batchOk(k) && id in Chunks(zs, ChunkSize)[k];
      FlattenContains(Chunks(zs, ChunkSize), k, id);
    }
  }

  lemma {:induction false} FlattenContains<T>(cs: seq<seq<T>>, k: nat, x: T)
    requires k < |cs| && x in cs[k]
    ensures x in Flatten(cs)
    decreases |cs|
  {
    if k > 0 {
      FlattenContains(cs[1..], k - 1, x);
    }
  }

  /** When every batch goes through no zombie is left, so a second run
      against the same remote set finds nothing to delete. */
  lemma SweepIsIdempotent(t: Table, remote: set<int>, batchOk: nat -> bool)
    requires forall k: nat :: batchOk(k)
    ensures Zombies(AfterSweep(t, remote, batchOk), remote) == []
  {
    AllBatchesOk(t, remote, batchOk);
    var t' := AfterSweep(t, remote, batchOk);
    NoneLeft(t, remote, t');
    NoneSelected(t', remote);
  }

  lemma NoneSelected(t: Table, remote: set<int>)
    requires forall k :: 0 <= k < |SortedIds(t.Keys)| ==> !Selects(LinkedOutside(remote), t[SortedIds(t.Keys)[k]])
    ensures Zombies(t, remote) == []
  {
    WhereNone(t, SortedIds(t.Keys), LinkedOutside(remote));
  }

  lemma AllBatchesOk(t: Table, remote: set<int>, batchOk: nat -> bool)
    requires forall k: nat :: batchOk(k)
    ensures AfterSweep(t, remote, batchOk) == t - set id | id in Zombies(t, remote)
  {
    var zs := Zombies(t, remote);
    SelectedAll(Chunks(zs, ChunkSize), batchOk);
    ChunksFlatten(zs, ChunkSize);
  }

  lemma NoneLeft(t: Table, remote: set<int>, t': Table)
    requires t' == t - set id | id in Zombies(t, remote)
    ensures forall k :: 0 <= k < |SortedIds(t'.Keys)| ==> !Selects(LinkedOutside(remote), t'[SortedIds(t'.Keys)[k]])
  {
    var ids := SortedIds(t'.Keys);
    forall k | 0 <= k < |ids| ensures !Selects(LinkedOutside(remote), t'[ids[k]]) {
      assert ids[k] in t';
    }
  }

  /** The batches have at most 900 ids and cover the zombie list in order;
      a failing batch only keeps its own ids. */
  lemma SweepBatches(t: Table, remote: set<int>, batchOk: nat -> bool, id: int)
    ensures var cs := Chunks(Zombies(t, remote), ChunkSize);
      && Flatten(cs) == Zombies(t, remote)
      && (forall k :: 0 <= k < |cs| ==> 0 < |cs[k]| <= ChunkSize)
      && (id in Zombies(t, remote) ==>
            (id in AfterSweep(t, remote, batchOk) <==> forall k: nat :: k < |cs| && id in cs[k] ==> !batchOk(k)))
  {
    var zs := Zombies(t, remote);
    ChunksFlatten(zs, ChunkSize);
    SelectedMembers(Chunks(zs, ChunkSize), batchOk, id);
  }

  /** An empty (but present) remote id list makes every linked row a zombie. */
  lemma EmptyRemoteListSweepsAllLinked(t: Table)
    ensures forall id :: id in Zombies(t, {}) <==> id in t && t[id].remoteId.Some?
  {
  }
}
