# ARV Reminder: local store, synchronisation and maintenance scripts in Dafny

ARV Reminder is a Telegram reminder bot. It keeps its reminders first in a
local SQLite database and reconciles that database with a remote Supabase
store. This project models the parts of the bot that follow stated rules,
and proves what each part does to the tables it touches:

- **The local store and its sync engine** (`database_manager.py`).
  `LocalStore.DatabaseManager` is a class. Its fields are the tables
  `recordatorios` (a map from local id to `Reminder`), `bajas_pendientes`
  (a sequence of `PendingDeletion`) and `chats_info`, together with the
  AUTOINCREMENT counters and the `supabase_online` flag.
  - Each method is proved to compute a table rewrite defined in
    `SyncRules` or `Queries`.
  - The properties of the synchronisation are lemmas over those rewrites:
    - push: deletions, then inserts, then updates;
    - pull: skip rows with local changes, never resurrect a deleted row,
      merge the flags;
    - the push-before-pull cycle.
- **The zombie sweep** (`fix_zombies.py`, module `FixZombies`). It deletes
  linked local rows whose remote id is gone, in batches of 900.
- **The duplicate cleaner** (`clean_duplicates.py`, modules `Grouping` and
  `CleanDuplicates`). It groups remote rows by a composite string key,
  keeps the first row of each group and deletes the rest in batches of 100.
- **The bulk importer** (`importar_datos.py`, module `Importer`).
  - Remote tables are read in pages of 1000 rows.
  - `chats_info` is upserted on `chat_id`.
  - Reminders are upserted by `supabase_id`, with counters for new and
    updated rows.
  - Other tables are copied row by row, with generic value normalisation.
- **The update announcements** (`gestionar_actualizaciones.py`, module
  `Announcements`). This covers three things:
  - the parser for `---`-separated `TITULO:`/`DESCRIPCION:` blocks;
  - the registration of chats that have not been notified yet;
  - the query for the chats behind the newest update.
- **The reminder-creation dialogue** (`conversations.py`, module
  `Conversations`). The module-level dict `conversaciones` is the class
  `ConversationTable`. Its transitions are the functions `OnMessage` and
  `OnCallback`, and the methods are proved to apply exactly those.

Shared modules:

| module | what it holds |
|---|---|
| `Wrappers` | `Option` |
| `PyValues` | Python values and their truthiness, `str()` of an int, `str.lower()` |
| `PyStrings` | `strip`, `find`, `split`, `replace(p, "")` |
| `Tables` | rowid order and fixed-size batches |
| `Reminders` | the row types and how each statement builds a row |

The remote store, the clock and the connection check are parameters.
- A method that calls the remote side receives its answers as values or as
  functions of the row id (`create`, `deleted`, `upd`, `batchOk`, `chunkOk`).
- A value the source takes from `datetime.utcnow()` or `datetime.now()` is
  passed in as `now` (or as `clock(i)` for the i-th call in a loop).
- An `except` branch corresponds to a `None`, `Raised` or `ReadError`
  answer.

`conversations.py` as written does not parse: line 28 is a bare `def`, so
the module cannot be imported. The model covers the complete functions
around it, as if that line were absent.

## Model

| member | source | states |
|---|---|---|
| `LocalStore.DatabaseManager.constructor` | database_manager.py:22-27 | a fresh manager has empty tables, both counters at 1 and is offline |
| `Reminders.SaveRow` | database_manager.py:342-408 | the locally saved row exists exactly when every bound value is bindable and `nombre_tarea` is present and not None. `chat_id` and `usuario` must be present keys. The row has no `supabase_id` and has the requested `sync_status` |
| `Reminders.RepeatFlagIgnoresCase` | database_manager.py:360-367 | `repetir` given as text is compared after lower-casing, so its case never matters |
| `Reminders.RepeatFlagIsNotTruthiness` | database_manager.py:360-367 | `repetir` does not follow truthiness: "no" and 1 are truthy but store 0, while "YES" and "Si" store 1 |
| `LocalStore.DatabaseManager.SaveLocal` | database_manager.py:342-408 | the local insert succeeds exactly when `SaveRow` defines a row. The row goes in under the next AUTOINCREMENT id, which was unused. On failure no table changes, and the other tables never change |
| `LocalStore.DatabaseManager.UpdateSyncStatus` | database_manager.py:410-417 | the status is always set, but `supabase_id` only when the given one is truthy; a missing row changes nothing |
| `LocalStore.DatabaseManager.SaveReminder` | database_manager.py:166-204 | the result is True exactly when the local insert succeeded, whatever the remote did. The new row is `pending` with no remote id, and becomes `synced` with that id only when online and the remote create returned a truthy id |
| `LocalStore.DatabaseManager.DeleteReminder` | database_manager.py:206-248 | the row always leaves `recordatorios`. Exactly one `bajas_pendientes` entry is queued when the row (or the caller) gives a truthy remote id. That entry is removed again only after a confirmed remote delete while online |
| `LocalStore.DatabaseManager.RemovePendingDeletion` | database_manager.py:250-253 | removes exactly the queued deletions with that remote id and keeps every other one, in the queue's order |
| `SyncRules.WithoutDeletionsOf` | database_manager.py:250-253 | a deletion survives exactly when it has another remote id, and afterwards none with that id is queued |
| `SyncRules.WithoutDeletionsOfInOrder` | database_manager.py:250-253 | the survivors are every queued deletion with another remote id, each at its place, in the queue's order |
| `LocalStore.DatabaseManager.DeleteByRemoteId` | database_manager.py:255-268 | removes exactly the rows linked to that remote id and reports whether there was one |
| `SyncRules.DropRemoteId` | database_manager.py:255-268 | a row survives exactly when it is not linked to that remote id, and survivors are unchanged |
| `LocalStore.DatabaseManager.DueReminders` | database_manager.py:270-284 | the due list holds exactly the rows not yet notified or with an unstopped constant alert, each once, in rowid order |
| `LocalStore.DatabaseManager.RemindersOfChat` | database_manager.py:286-300 | exactly that chat's rows, each once, ordered by `fecha_hora` with NULL first |
| `Queries.WhereMembers` | database_manager.py:278-282 | a WHERE scan keeps exactly the scanned rows the clause selects |
| `Queries.WhereSorted` | database_manager.py:278-282 | a scan in ascending rowid order answers in ascending rowid order |
| `Queries.WhereAppend` | database_manager.py:278-282 | scanning one more row extends the answer by that row exactly when the clause selects it |
| `Queries.Scan` | database_manager.py:278-282 | a table scan returns every selected row exactly once, in ascending id order |
| `Queries.SortByTime` | database_manager.py:291-295 | `ORDER BY fecha_hora ASC` permutes its input into nondecreasing order under SQLite's NULL-first text ordering |
| `Queries.InsertByTimeSorted` | database_manager.py:291-295 | inserting into a list sorted by `fecha_hora` keeps it sorted |
| `Queries.TextLeqTotal` | database_manager.py:291-295 | the BINARY collation compares every two texts |
| `Queries.TextLeqTransitive` | database_manager.py:291-295 | the BINARY collation is transitive |
| `Queries.TextLeqAntisymmetric` | database_manager.py:291-295 | two texts that collate both ways are equal |
| `Queries.KeyLeqTotal` | database_manager.py:291-295 | the nullable sort key is total |
| `Queries.KeyLeqTransitive` | database_manager.py:291-295 | the nullable sort key is transitive |
| `LocalStore.DatabaseManager.StopConstantAlerts` | database_manager.py:302-320 | the table becomes the stop rewrite for that chat. The other tables are unchanged and the result is True |
| `SyncRules.StopConstantAlertsEffect` | database_manager.py:307-311 | after the stop, no row of the chat is an active constant alert and each stopped row is no longer due and is `pending_update`. Every other row is unchanged |
| `SyncRules.ConstantAlertLifecycle` | database_manager.py:322-340 | marking notified keeps a reminder due exactly when it is an unstopped constant alert, and stopping it ends that. No setter clears a monotonic flag |
| `LocalStore.DatabaseManager.MarkNotified` | database_manager.py:322-327 | only the given row changes, gaining `notificado` and `pending_update` |
| `LocalStore.DatabaseManager.MarkRepeated` | database_manager.py:329-340 | only the given row changes, gaining `repeticion_creada` and `pending_update` |
| `SyncRules.PushDeletionsKeeps` | database_manager.py:432-449 | a queued deletion survives the push exactly when it has no truthy remote id or its remote delete was not confirmed. The survivors are all the uncleared deletions, in the queue's order, and a failure does not stop the loop |
| `SyncRules.PushDeletionsNone` | database_manager.py:432-449 | with no confirmed delete the queue is unchanged |
| `LocalStore.DatabaseManager.UploadDeletions` | database_manager.py:432-449 | the queue rewrite of phase 1, keeping the uncleared deletions in their order, with `recordatorios` untouched |
| `LocalStore.DatabaseManager.UploadInsert` | database_manager.py:451-480 | one `pending` row becomes `synced` with the returned id exactly when that id is truthy |
| `LocalStore.DatabaseManager.UploadInserts` | database_manager.py:451-480 | phase 2 applied to every row: a later row is tried whatever an earlier one got |
| `LocalStore.DatabaseManager.UploadChanges` | database_manager.py:486-532 | a `pending_update` row is accepted exactly when none of its applicable calls A, B, C raised and at least one returned True |
| `LocalStore.DatabaseManager.UploadUpdate` | database_manager.py:482-534 | one `pending_update` row becomes `synced` exactly when it is linked and its calls are accepted |
| `LocalStore.DatabaseManager.UploadUpdates` | database_manager.py:482-534 | phase 3 applied to every row |
| `SyncRules.AppliedAllInserts` | database_manager.py:451-480 | rewriting the rows one at a time in rowid order gives phase 2's whole-table rewrite |
| `SyncRules.AppliedAllUpdates` | database_manager.py:482-534 | rewriting the rows one at a time in rowid order gives phase 3's whole-table rewrite |
| `SyncRules.AppliedStep` | database_manager.py:451-534 | one more row of a per-row loop is done and the remaining rows are untouched |
| `LocalStore.DatabaseManager.PushLocalToRemote` | database_manager.py:429-534 | the queue and the table become the three phases applied in order |
| `SyncRules.PushRow` | database_manager.py:451-534 | a push changes a row only from `pending` or `pending_update` to `synced` and never changes its content or flags. A `pending_update` row without a remote id is never uploaded |
| `SyncRules.PushEffect` | database_manager.py:429-534 | push keeps the set of rows, their content and flags, and changes only the status of uploaded rows. A row stranded as `pending_update` without a remote id stays as it was |
| `SyncRules.PartialUpdateCountsAsSynced` | database_manager.py:491-515 | a row whose call A returned True and whose call B returned False is still marked `synced` |
| `SyncRules.PushWithoutRemoteIsNoOp` | database_manager.py:429-534 | when the remote accepts nothing, push leaves both tables as they were |
| `SyncRules.MatchOf` | database_manager.py:552-555 | the matching local row is the lowest id with that remote id, or there is none |
| `Reminders.PulledRow` | database_manager.py:601-617 | an unmatched remote row is inserted, synced and linked to its remote id, exactly when all its values are bindable |
| `Reminders.MergedRow` | database_manager.py:571-591 | the merge UPDATE succeeds exactly when the remote values are bindable. It keeps `creado_en` and `supabase_id` and makes the row `synced` |
| `SyncRules.MergeAsWrittenRevertsNotified` | database_manager.py:554-573 | as written, a notified synced row merged with a stale remote copy loses `notificado`, while the intended merge keeps it |
| `SyncRules.MergeKeepsFlags` | database_manager.py:564-591 | the intended merge never clears a monotonic flag and keeps the row's remote id and `creado_en` |
| `SyncRules.PullStepKeeps` | database_manager.py:550-618 | with the intended max-merge, one remote row keeps every existing row, its link, its sync status and its flags, and leaves a row with local changes untouched. A new row is `synced` under a fresh id, linked to this remote row, and that remote id is neither tombstoned nor already linked. Afterwards the remote id is linked unless it is tombstoned |
| `SyncRules.StepKeepsTransitive` | database_manager.py:550-618 | what one pull step keeps, a sequence of steps keeps |
| `SyncRules.PullAllKeeps` | database_manager.py:550-618 | with the intended max-merge, after a whole pull every remote row is linked locally, unless it is tombstoned; every new row is `synced` and linked to one of the remote rows; and the per-step guarantees hold |
| `SyncRules.PullKeeps` | database_manager.py:536-623 | with the intended max-merge, the committed pull keeps those guarantees; an empty answer or an exception leaves the table as it was |
| `LocalStore.DatabaseManager.PullRemoteToLocal` | database_manager.py:536-623 | the table and the counter become the specified pull (with the intended max-merge), and the queue is unchanged |
| `SyncRules.DeletedStaysDeleted` | database_manager.py:592-599 | a remote id with a pending deletion is never brought back by a pull |
| `SyncRules.CycleDoesNotDuplicate` | database_manager.py:419-427 | a row uploaded by the push keeps its new remote id through the pull, and no second local row gets that id |
| `LocalStore.DatabaseManager.SyncAll` | database_manager.py:419-427 | offline nothing changes; online the push completes before the pull (with the intended max-merge) reads the pushed tables |
| `FixZombies.Zombies` | fix_zombies.py:35-43 | the zombies are exactly the linked rows whose remote id is not in the remote set, in rowid order |
| `FixZombies.FindZombies` | fix_zombies.py:35-43 | the detection loop builds exactly that list |
| `FixZombies.DeleteBatches` | fix_zombies.py:56-68 | exactly the rows of the batches that went through are deleted, and the total counts them |
| `FixZombies.Sweep` | fix_zombies.py:14-71 | with no connection or no remote id list nothing is touched; otherwise the zombies of the successful batches are deleted |
| `FixZombies.SweepOnlyDeletesZombies` | fix_zombies.py:35-68 | only zombies are deleted, survivors are unchanged and the total never exceeds the zombie count |
| `FixZombies.SweepBatches` | fix_zombies.py:56-68 | the batches partition the zombie list in order, each holds at most 900 ids, and a zombie survives exactly when every batch holding it failed |
| `FixZombies.AllBatchesOk` | fix_zombies.py:56-68 | when every batch goes through, exactly the zombies are deleted |
| `FixZombies.SweepIsIdempotent` | fix_zombies.py:40-71 | after a fully successful sweep a second run against the same remote set finds no zombie |
| `FixZombies.NoneLeft` | fix_zombies.py:35-43 | after deleting every zombie no scanned row is linked outside the remote set |
| `FixZombies.EmptyRemoteListSweepsAllLinked` | fix_zombies.py:23-43 | an empty (not None) remote list makes every linked row a zombie |
| `Tables.SortedIds` | fix_zombies.py:35-36 | a table scan visits every row once, in ascending id order |
| `Tables.ChunksFlatten` | fix_zombies.py:59-60 | the batches of `range(0, len(s), n)` cover the list exactly, in order |
| `Tables.ChunkCount` | fix_zombies.py:59-60 | there is a batch k exactly when k·n is inside the list |
| `Tables.ChunkAt` | fix_zombies.py:59-60 | batch k, when k·n is inside the list, is the slice starting at k·n and at most n long |
| `Tables.SelectedMembers` | fix_zombies.py:62-68 | an id counts as deleted exactly when it lies in a batch that went through |
| `Tables.SelectedAll` | fix_zombies.py:62-68 | when every batch goes through, every id is deleted |
| `CleanDuplicates.KeyCollides` | clean_duplicates.py:39 | two rows with different `chat_id` and `nombre_tarea` can share a key when the fields contain "_" |
| `CleanDuplicates.Fetched` | clean_duplicates.py:22 | at most 3000 rows are read from the front of the ordered table, and all of them when there are no more |
| `CleanDuplicates.GroupRecords` | clean_duplicates.py:36-43 | the loop succeeds exactly when every row has the three key columns. The dict then has one key per distinct key in first-seen order, and each group is its rows in fetch order |
| `CleanDuplicates.AddRow` | clean_duplicates.py:41-43 | one pass of the grouping loop keeps the dict equal to the grouping of the rows seen so far |
| `Grouping.KeysOf` | clean_duplicates.py:36-43 | the dict's keys are distinct and are exactly the keys that occur |
| `Grouping.Group` | clean_duplicates.py:41-43 | a group holds only rows with its key |
| `Grouping.GroupNonEmpty` | clean_duplicates.py:41-43 | a group is non-empty exactly when its key is in the dict |
| `Grouping.AllButFirstAreLaterCopies` | clean_duplicates.py:48-57 | "all but the first of each group, group by group" marks the same rows as "every row whose key appeared earlier" |
| `Grouping.FirstOfEachGroupStays` | clean_duplicates.py:48-57 | a row is marked exactly when an earlier row has its key, so the first of each group is kept |
| `Grouping.AllButFirstCount` | clean_duplicates.py:48-57 | as many rows are marked as there are rows beyond one per group |
| `Grouping.NothingLeftOver` | clean_duplicates.py:48-61 | nothing is marked exactly when all keys differ |
| `CleanDuplicates.MarkGroup` | clean_duplicates.py:52-57 | a group's later rows are marked in order, and the loop fails when one lacks `creado_en` |
| `CleanDuplicates.MarkDuplicates` | clean_duplicates.py:46-57 | `eliminar_ids` is the ids of all but the first row of each group, and the loop fails exactly when one of those rows lacks `creado_en` |
| `CleanDuplicates.DeleteCount` | clean_duplicates.py:48-57 | the number of ids to delete is the number of rows minus the number of groups |
| `CleanDuplicates.KeepsFirstOfEachKey` | clean_duplicates.py:48-57 | with unique ids, a row's id is marked exactly when an earlier row has its key, so a kept id is never in the list |
| `CleanDuplicates.NothingToDelete` | clean_duplicates.py:59-61 | the delete list is empty exactly when all keys differ |
| `CleanDuplicates.DeleteInBatches` | clean_duplicates.py:66-73 | a failed batch does not stop later ones, and exactly the successful batches' ids are removed |
| `CleanDuplicates.CleanBatches` | clean_duplicates.py:66-73 | the batches cover the list in order, each holds at most 100 ids, and an id is removed exactly when its batch went through |
| `CleanDuplicates.CleanDuplicates` | clean_duplicates.py:17-75 | with no rows or no duplicates no delete is issued. A missing column aborts the script. Otherwise the duplicate ids are deleted batch by batch |
| `Importer.FetchAll` | importar_datos.py:73-88 | the pagination loop returns what the page answers specify, and nothing when a request raises |
| `Importer.FetchSlices` | importar_datos.py:73-82 | against a table read in slices of 1000, the pages from request k on give the table from offset k·1000 on |
| `Importer.FetchWholeTable` | importar_datos.py:73-82 | the concatenated pages are exactly the remote table |
| `Importer.FetchErrorAborts` | importar_datos.py:86-88 | a request that raises before the first empty page aborts the whole read |
| `Importer.FetchErrorFrom` | importar_datos.py:76-88 | a raising request aborts the read from any earlier page on |
| `Importer.UpsertChat` | importar_datos.py:44-60 | the upsert succeeds exactly when `chat_id` is present and the values are bindable. It touches only that chat, sets its nombre, tipo, zona_horaria, `synced` and the time, and keeps an existing `creado_en` |
| `Importer.UpsertChatsDefined` | importar_datos.py:43-62 | the transaction commits exactly when every chat can be written |
| `Importer.UpsertChatsKeeps` | importar_datos.py:43-62 | afterwards the chats are the old ones plus the mentioned ones. Every old `creado_en` is kept and unmentioned chats are untouched |
| `Importer.ImportChats` | importar_datos.py:28-63 | a read error changes nothing, a write error rolls back, and otherwise the table is the upserted one and the count is the number of chats |
| `Reminders.ImportedRow` | importar_datos.py:104-122 | an imported row exists exactly when the bound values are bindable, carries the remote id and is `synced`. Its flags come from the remote by truthiness, and its `creado_en` from the remote |
| `Importer.Relink` | importar_datos.py:126-133 | the UPDATE replaces every row with that remote id and no other |
| `Importer.ImportStepGrows` | importar_datos.py:96-145 | a record is written exactly when its values are bindable. It then is linked; an existing link means an UPDATE (no insert, same counter), and otherwise an INSERT under a fresh id |
| `Importer.ImportStepRows` | importar_datos.py:124-145 | the new row and every row with that remote id are the imported row; other rows are unchanged |
| `Importer.GrowsTrans` | importar_datos.py:96-145 | the growth summary composes over consecutive records |
| `Importer.ImportAllDefined` | importar_datos.py:96-147 | the import commits exactly when every record can be written |
| `Importer.ImportAllGrows` | importar_datos.py:96-147 | each record is counted once, the table gains exactly the inserted rows, and no link is lost |
| `Importer.ImportAllLinks` | importar_datos.py:96-147 | afterwards every imported remote id is linked locally |
| `Importer.ImportAllUntouched` | importar_datos.py:96-147 | a row linked to none of the imported ids is unchanged |
| `Importer.ImportCounts` | importar_datos.py:93-149 | `nuevos + actualizados` is the number of records and the table grows by `nuevos` |
| `Importer.ImportLinkedInsertsNothing` | importar_datos.py:96-145 | records that are all linked already are all updates |
| `Importer.ReimportAddsNothing` | importar_datos.py:96-147 | a second import of the same records inserts nothing |
| `Importer.ImportReminders` | importar_datos.py:65-149 | a read error changes nothing, a write error rolls back, and otherwise the table and the counters are the specified import |
| `Importer.Lookup` | importar_datos.py:182 | `row[c]` finds the column's value exactly when the row has that key |
| `Importer.NormaliseProperties` | importar_datos.py:182-194 | normalised values are bindable and never bools. Only dicts, lists and bools change: a collection becomes its `str`, and a bool binds as before |
| `Importer.RowValuesSpec` | importar_datos.py:182-194 | a row's values exist exactly when it has every column of the first row, and are those values normalised, in column order |
| `Importer.Written` | importar_datos.py:196-202 | a failing row is skipped, and when none fails every row is written |
| `Importer.ImportGeneric` | importar_datos.py:151-208 | a read error or an empty table writes nothing. A row missing a column aborts. Otherwise the rows whose statement succeeded are written and counted |
| `Importer.WriteRows` | importar_datos.py:172-204 | the columns are the first row's keys; a row lacking one aborts the transaction; otherwise exactly the normalised rows whose statement succeeded are written, in order, and counted |
| `Importer.RunImport` | importar_datos.py:210-234 | offline nothing is imported and nothing changes. Online the chats go first: an unread answer changes no chat and the reminders still run, and a write error ends the script with both tables unchanged. Otherwise the chat table becomes the upsert of what was read, the reminder outcome is read-failed (table unchanged), write-failed (table unchanged) or the insert and update counts of the whole import over the previous table, and the local table and id counter become that import's result |
| `PyStrings.Strip` | gestionar_actualizaciones.py:36-44 | `strip()` removes exactly the leading and trailing whitespace |
| `PyStrings.StripIdempotent` | gestionar_actualizaciones.py:36-44 | stripping twice is stripping once |
| `PyStrings.Find` | gestionar_actualizaciones.py:40 | the first occurrence of a separator, or none exactly when it does not occur |
| `PyStrings.Split` | gestionar_actualizaciones.py:36-40 | `split` gives at least one part, the parts joined by the separator give the string back, and no part contains it |
| `PyStrings.RemoveAllIsJoinOfSplit` | gestionar_actualizaciones.py:43-44 | `replace(p, "")` is the split parts glued together |
| `PyStrings.RemoveAllMayLeaveOccurrence` | gestionar_actualizaciones.py:43-44 | removing every occurrence can create a new one ("aabb" without "ab" is "ab") |
| `Announcements.SplitInTwo` | gestionar_actualizaciones.py:40-41 | a text splits into two or more lines exactly when it contains a newline |
| `Announcements.FirstLine` | gestionar_actualizaciones.py:40-44 | the first line is the text up to the first newline, and the other lines joined again are the rest |
| `Announcements.TitleOneLine` | gestionar_actualizaciones.py:43 | a title never contains a newline |
| `Announcements.ParseBlock` | gestionar_actualizaciones.py:40-49 | a block gives an update exactly when it has two lines after stripping. The title comes from the first line without `TITULO:` and stripped, and the description from the rest without `DESCRIPCION:` and stripped |
| `Announcements.Blocks` | gestionar_actualizaciones.py:36 | the blocks joined by `---` give the stripped file back |
| `Announcements.ParseUpdates` | gestionar_actualizaciones.py:36-49 | the loop keeps, in block order, the updates of the blocks that parse |
| `Announcements.BlockResults` | gestionar_actualizaciones.py:39-49 | block i is parsed with the i-th clock reading |
| `Announcements.ParsedEmpty` | gestionar_actualizaciones.py:39-55 | there are at most as many updates as blocks, and none exactly when no block parses |
| `Announcements.ParsedInOrder` | gestionar_actualizaciones.py:39-49 | the update of a block comes after those of the blocks before it |
| `Announcements.ParsedFromBlocks` | gestionar_actualizaciones.py:39-49 | every update comes from some block |
| `Announcements.InsertUpdatesFromFile` | gestionar_actualizaciones.py:24-55 | without a connection or a file nothing is inserted. Otherwise the parsed updates are inserted, or nothing when there are none |
| `Announcements.NewChats` | gestionar_actualizaciones.py:62-68 | the new chats are exactly the reminders' chats that are not registered yet |
| `Announcements.Register` | gestionar_actualizaciones.py:57-80 | a read error registers nothing, an empty difference inserts nothing, and otherwise exactly the new chats are inserted |
| `Announcements.RegisterTwiceAddsNothing` | gestionar_actualizaciones.py:57-77 | after a successful registration a second one finds every chat registered |
| `Announcements.Newest` | gestionar_actualizaciones.py:87-92 | the newest update id is the largest one |
| `Announcements.Stale` | gestionar_actualizaciones.py:94-97 | exactly the chats whose last update is below the newest |
| `Announcements.NeverNotified` | gestionar_actualizaciones.py:100-103 | exactly the chats with a NULL last update |
| `Announcements.ChatsForUpdate` | gestionar_actualizaciones.py:82-114 | there is an answer exactly when online, some update exists and the reads succeed. It is the stale chats then the never-notified ones, so a chat is listed exactly when it is behind the newest update |
| `Announcements.RegisteredChatsAreBehind` | gestionar_actualizaciones.py:74-111 | a newly registered chat is due for the newest update |
| `Announcements.UpToDateChatsGetNothing` | gestionar_actualizaciones.py:94-111 | when every chat has the newest update, nobody is listed |
| `PyValues.Lower` | conversations.py:34 | `lower()` keeps the length, leaves no capital, keeps every other character, and turns a capital into its small letter |
| `PyValues.LowerIdempotent` | conversations.py:34 | lower-casing twice is lower-casing once |
| `PyValues.DecimalRoundTrip` | importar_datos.py:54 | `str()` of a number reads back as that number |
| `PyValues.IntToDecimalInjective` | importar_datos.py:54 | different integer chat ids give different `str()` keys |
| `Conversations.WithChatId` | conversations.py:136-137 | `chat_id` is added only when absent, and every other key is kept |
| `Conversations.Save` | conversations.py:127-152 | the result is the remote save's truthiness. When the save raises, the result is whether the backup worked, and the backup gets the dict with `chat_id` unless the import itself failed |
| `Conversations.NoEntryOnlyStartWordOpens` | conversations.py:16-37 | with no entry, exactly a start word in any case opens one at the first step; anything else gets help and changes nothing |
| `Conversations.OneStepAtATime` | conversations.py:30-93 | an entry moves at most one step forward, and it is removed exactly by a yes-word or a no-word at the confirmation |
| `Conversations.WritesOnlyItsField` | conversations.py:42-69 | a step writes only its own field: the name and the description as typed, the date as None for "sin fecha" or as the parsed ISO text |
| `Conversations.UnrecognisedAnswersChangeNothing` | conversations.py:54-91 | an unparsable date or an answer that is neither yes nor no leaves the entry exactly as it was |
| `Conversations.SavesOnlyOnYes` | conversations.py:71-83 | a record is saved exactly on a yes-word at the confirmation step, and the reply says whether the save succeeded |
| `Conversations.MessageKeepsWellFormed` | conversations.py:30-93 | an entry always holds exactly the fields of its step |
| `Conversations.CallbackKeepsWellFormed` | conversations.py:154-166 | callbacks keep entries well formed |
| `Conversations.SavedRecordIsComplete` | conversations.py:71-75 | the saved record holds the five task fields and the caller's `chat_id` |
| `Conversations.HappyPath` | conversations.py:16-83 | a full dialogue from "/recordatorio" to "sí" saves exactly what was typed |
| `Conversations.Apply` | conversations.py:30-93 | only the calling chat's entry is ever changed |
| `Conversations.ConversationTable.constructor` | conversations.py:14 | the table starts empty |
| `Conversations.ConversationTable.StartReminder` | conversations.py:16-26 | the chat's entry is replaced by a fresh one at the first step |
| `Conversations.ConversationTable.ProcessMessage` | conversations.py:30-93 | the table changes only at the caller's key, and exactly as the transition function says. A record it saves holds the reminder's five fields, and the caller's chat_id unless the remote module failed to import |
| `Conversations.ConversationTable.ProcessCallback` | conversations.py:154-166 | "nuevo_recordatorio" restarts the entry, "cancelar" removes it, and any other callback changes nothing |

## Left out

- SQLite's schema (DDL), connections and row factories. The nested connections opened inside `sincronizar_local_a_remoto` (database_manager.py:477, 515) are left out as a concurrency detail.
- The `sincronizar_pendientes` alias (database_manager.py:625), which only renames `sincronizar_todo`.
- `verificar_conexion_supabase` and `inicializar_supabase` are not modelled; their answer is the `online` or `connected` input.
- The remote client (`supabase_db.py`) is not part of this model. Each call is an answer the caller passes in: remote creates return an optional id, and deletes and updates return a truth value or raise.
- SQLite's INTEGER-affinity conversion of stored text is left out. A column is stored as the value sqlite3 binds.
- Dates and times are opaque strings. `strptime`/`isoformat` in the dialogue is the `parseDate` input.
- `PyValues.Lower`: `str.lower()` is modelled only for ASCII and Latin-1 capitals; full Unicode case mapping is left out.
- Ties in `ORDER BY fecha_hora` are broken by insertion order. SQLite does not promise that order.
- Logging and `print` are left out, along with the text of the bot's replies. `generar_mensaje_confirmacion` and `mostrar_ayuda` become the reply values `ConfirmDetails` and `Help`.
- `reminders.py`, `utilidades.py`, `services.py`, `routes.py`, `app.py`, `webhook_utils.py`, `backup_db.py`, `setup_supabase.py`, `enviar_actualizacion_manual.py` and `plantillas.py` are not part of this model. They are scheduling, time-zone, transport and I/O code around foreign calls.
- The backup (`backup_local_db`) and the interactive menu of `gestionar_actualizaciones.py` (lines 116-201) are I/O only.
- `CleanDuplicates.CleanDuplicates`: the initial remote read is not caught in the source, so its failure crashes the script; the model takes the rows as read.
- `CleanDuplicates.KeyOf`: rows lacking a key column get the key "". The model uses it only after the grouping loop has succeeded, so it never matters.
- `Announcements.Register`, `Announcements.NewChats`: chat ids are compared as model values. Python's hash-equality across types (`True == 1`) and unhashable ids raising a TypeError are left out.
- `Announcements.InsertUpdatesFromFile`: the remote insert at gestionar_actualizaciones.py:52 is not caught in the source; the model reports the rows it would insert and leaves out the call's failure.
- `Importer.ImportGeneric`: returns the normalised rows it writes. The local generic table (`INSERT OR REPLACE` into an arbitrary schema) is not modelled as state.
- `Importer.RunImport`: stops after the reminders. The three generic-table imports of `main` (importar_datos.py:229-232) write no state the model keeps and are modelled separately by `Importer.ImportGeneric`; the backup and the local schema set-up (lines 218-222) are I/O.
- `SyncRules.PullStep`, `SyncRules.PullAll`, `SyncRules.Pull`: the merge of a matched row uses the intended max of the stored and the remote flags (`SyncRules.Merge`), not the merge as written at database_manager.py:554-573, which takes the remote flags (see "## Findings", modelled by `SyncRules.MergeAsWritten`).
- `SyncRules.PullStepKeeps`, `SyncRules.PullAllKeeps`, `SyncRules.PullKeeps`: their flag guarantee holds for the intended merge only; as written a stale remote copy can clear `notificado` (`SyncRules.MergeAsWrittenRevertsNotified`).
- `LocalStore.DatabaseManager.PullRemoteToLocal`, `LocalStore.DatabaseManager.SyncAll`: the pull they perform is the one with the intended merge, so they inherit the correction described under "## Findings".
- `Importer.ImportChats`, `Importer.ImportReminders`: one `now` is used for the whole run, where the source calls `utcnow()` once per record.
- `SyncRules.PullStep`, `SyncRules.PullAll`, `SyncRules.Pull`, `LocalStore.DatabaseManager.PullRemoteToLocal`: one `now` stamps every merged and inserted row of the pull, where the source calls `utcnow()` once per row (database_manager.py:589, 616).
- `LocalStore.DatabaseManager.SaveReminder`: the remote create's reply is an optional id. The `supabase_db.py` shown returns True rather than an id, which the model treats as any other truthy reply.
- `Conversations.ConversationTable.ProcessMessage`: the source's final fallback reply (conversations.py:93) is unreachable with the four steps and is not modelled.
- `Conversations.OnMessage`: chat ids are strings. The dict is keyed by whatever the caller passes, and in this repository that is `str(...)`.

## Findings

| source | as written | input that shows it | evidently intended | confidence | as-written member | corrected member |
|---|---|---|---|---|---|---|
| database_manager.py:554-573 | the pull's SELECT at line 554 reads only `id`, `last_updated` and `sync_status`. So the test `'notificado' in local_row.keys()` (and the same for `aviso_detenido` and `repeticion_creada`) at lines 567-569 is false and the local flag is taken as 0. The `max` at lines 571-573 then gives the remote flag | a local row that is `synced` and `notificado = 1`, merged with a remote copy that still says `notificado = false`, is written back with `notificado = 0`, and the reminder fires again | each flag is the max of the stored local value and the remote one, as the comment at lines 564-566 says | not executed | `SyncRules.MergeAsWrittenRevertsNotified` | `SyncRules.MergeKeepsFlags` |
