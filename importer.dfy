/**
  The bulk import from the remote store into the local database: chats_info
  upserted on chat_id, every remote reminder upserted by supabase_id, and
  other tables copied row by row with generic value normalisation. Remote
  tables are read in pages of 1000 rows until the first empty page.
 */
module Importer {
  import opened Wrappers
  import opened PyValues
  import opened Reminders
  import opened SyncRules
  import opened LocalStore

  const PageSize: nat := 1000

  // ---------------------------------------------------------------------
  // Pagination

  /** The answer to one `range(offset, offset + 999)` request. */
  datatype PageReply<T> = Rows(rows: seq<T>) | ReadError

  /** The rows the pagination loop collects from request `k` on, given the
      answers `pages` in request order (past the end every answer is empty);
      None when a request raises. */
  function Fetch<T>(pages: seq<PageReply<T>>, k: nat): Option<seq<T>>
    decreases |pages| - k
  {
    if k >= |pages| then Some([])
    else match pages[k]
      case ReadError => None
      case Rows(rows) =>
        if rows == [] then Some([])
        else match Fetch(pages, k + 1)
          case None => None
          case Some(rest) => Some(rows + rest)
  }

  function Prepend<T>(acc: seq<T>, r: Option<seq<T>>): Option<seq<T>> {
    match r
    case None => None
    case Some(rows) => Some(acc + rows)
  }

  /** The `while True` loop: request, stop at an empty page, extend, advance. */
  method FetchAll<T>(pages: seq<PageReply<T>>) returns (registros: Option<seq<T>>)
    ensures registros == Fetch(pages, 0)
  {
    var acc: seq<T> := [];
    var offset := 0;
    var k := 0;
    PrependEmpty(Fetch(pages, 0));
    while k < |pages|
      invariant offset == k * PageSize
      invariant Fetch(pages, 0) == Prepend(acc, Fetch(pages, k))
      decreases |pages| - k
    {
      match pages[k] {
        case ReadError =>
          return None;
        case Rows(data) =>
          if data == [] {
            assert acc + [] == acc;
            return Some(acc);
          }
          PrependAssoc(acc, data, Fetch(pages, k + 1));
          acc := acc + data;
          offset := offset + PageSize;
          k := k + 1;
      }
    }
    assert acc + [] == acc;
    registros := Some(acc);
  }

  lemma PrependEmpty<T>(r: Option<seq<T>>)
    ensures Prepend([], r) == r
  {
    if r.Some? {
      assert [] + r.value == r.value;
    }
  }

  lemma PrependAssoc<T>(acc: seq<T>, data: seq<T>, r: Option<seq<T>>)
    ensures Prepend(acc, Prepend(data, r)) == Prepend(acc + data, r)
  {
    if r.Some? {
      assert acc + (data + r.value) == (acc + data) + r.value;
    }
  }

  /** The rows of a table from `offset` on, at most one page of them. */
  function PageAt<T>(remote: seq<T>, offset: nat): seq<T> {
    if offset < |remote| then remote[offset..Tables.Min(offset + PageSize, |remote|)] else []
  }

  /** Against a table that does not change while it is read, the answers
      are its slices of 1000 rows, enough of them to reach its end. */
  ghost predicate SlicesOf<T>(remote: seq<T>, pages: seq<PageReply<T>>) {
    && |remote| <= |pages| * PageSize
    && forall k :: 0 <= k < |pages| ==> pages[k] == Rows(PageAt(remote, k * PageSize))
  }

  lemma PageOffsets(k: nat, n: nat)
    ensures (k + 1) * PageSize == k * PageSize + PageSize
    ensures n <= k ==> n * PageSize <= k * PageSize
  {
  }

  lemma {:induction false} FetchSlices<T>(remote: seq<T>, pages: seq<PageReply<T>>, k: nat)
    requires SlicesOf(remote, pages)
    ensures Fetch(pages, k) == Some(if k * PageSize < |remote| then remote[k * PageSize..] else [])
    decreases |pages| - k
  {
    var lo := k * PageSize;
    PageOffsets(k, |pages|);
    if k < |pages| && lo < |remote| {
      FetchSlices(remote, pages, k + 1);
      assert pages[k] == Rows(PageAt(remote, lo));
      PageSplit(remote, lo);
    }
  }

  /** A page inside the table is not empty, and it is followed by the rest of the table. */
  lemma PageSplit<T>(remote: seq<T>, lo: nat)
    requires lo < |remote|
    ensures PageAt(remote, lo) != []
    ensures lo + PageSize < |remote| ==> remote[lo..] == PageAt(remote, lo) + remote[lo + PageSize..]
    ensures lo + PageSize >= |remote| ==> remote[lo..] == PageAt(remote, lo) + []
  {
    if lo + PageSize < |remote| {
      assert remote[lo..] == remote[lo..lo + PageSize] + remote[lo + PageSize..];
    } else {
      assert PageAt(remote, lo) + [] == remote[lo..];
    }
  }

  lemma FetchWholeTable<T>(remote: seq<T>, pages: seq<PageReply<T>>)
    requires SlicesOf(remote, pages)
    ensures Fetch(pages, 0) == Some(remote)
  {
    FetchSlices(remote, pages, 0);
  }

  /** A request that raises before the first empty page loses the whole read. */
  lemma {:induction false} FetchErrorAborts<T>(pages: seq<PageReply<T>>, k: nat)
    requires k < |pages| && pages[k].ReadError?
    requires forall j :: 0 <= j < k ==> pages[j].Rows? && pages[j].rows != []
    ensures Fetch(pages, 0) == None
  {
    FetchErrorFrom(pages, 0, k);
  }

  lemma {:induction false} FetchErrorFrom<T>(pages: seq<PageReply<T>>, i: nat, k: nat)
    requires i <= k < |pages| && pages[k].ReadError?
    requires forall j :: i <= j < k ==> pages[j].Rows? && pages[j].rows != []
    ensures Fetch(pages, i) == None
    decreases k - i
  {
    if i < k {
      FetchErrorFrom(pages, i + 1, k);
    }
  }

  // ---------------------------------------------------------------------
  // chats_info

  /** The values bound for one chat are all bindable; `chat["chat_id"]` is read with []. */
  predicate ChatWritable(chat: Fields) {
    && "chat_id" in chat
    && Bindable(Get(chat, "nombre")) && Bindable(Get(chat, "tipo"))
    && Bindable(Get(chat, "zona_horaria")) && Bindable(Get(chat, "creado_en"))
  }

  /** `INSERT ... ON CONFLICT(chat_id) DO UPDATE`: a new chat gets every
      column; a known one gets nombre, tipo, zona_horaria, sync_status and
      last_updated and keeps its creado_en. None when the statement raises. */
  function UpsertChat(m: map<string, ChatInfo>, chat: Fields, now: string): (r: Option<map<string, ChatInfo>>)
    ensures r.Some? <==> ChatWritable(chat)
    ensures r.Some? ==> r.value.Keys == m.Keys + {Str(chat["chat_id"])}
    ensures r.Some? ==> forall k :: k in m && k != Str(chat["chat_id"]) ==> r.value[k] == m[k]
    ensures r.Some? ==> var k := Str(chat["chat_id"]);
      && r.value[k].name == TextColumn(Get(chat, "nombre")) && r.value[k].kind == TextColumn(Get(chat, "tipo"))
      && r.value[k].timeZone == TextColumn(Get(chat, "zona_horaria"))
      && r.value[k].syncStatus == Synced && r.value[k].lastUpdated == now
      && r.value[k].createdAt == (if k in m then m[k].createdAt else TextColumn(Get(chat, "creado_en")))
  {
    if !ChatWritable(chat) then None
    else
      var k := Str(chat["chat_id"]);
      var name, kind, zone := TextColumn(Get(chat, "nombre")), TextColumn(Get(chat, "tipo")), TextColumn(Get(chat, "zona_horaria"));
      if k in m then
        Some(m[k := m[k].(name := name, kind := kind, timeZone := zone, syncStatus := Synced, lastUpdated := now)])
      else
        Some(m[k := ChatInfo(name, kind, zone, TextColumn(Get(chat, "creado_en")), Synced, now)])
  }

  /** The loop over the chats, all in one transaction: None when a statement raises. */
  function UpsertChats(m: map<string, ChatInfo>, chats: seq<Fields>, now: string): Option<map<string, ChatInfo>>
    decreases |chats|
  {
    if chats == [] then Some(m)
    else match UpsertChat(m, chats[0], now)
      case None => None
      case Some(m1) => UpsertChats(m1, chats[1..], now)
  }

  /** Some chat of `chats` has the key `k`. */
  ghost predicate Mentions(chats: seq<Fields>, k: string) {
    exists i :: 0 <= i < |chats| && "chat_id" in chats[i] && Str(chats[i]["chat_id"]) == k
  }

  lemma MentionsCons(chats: seq<Fields>, k: string)
    requires chats != [] && "chat_id" in chats[0]
    ensures Mentions(chats, k) <==> Str(chats[0]["chat_id"]) == k || Mentions(chats[1..], k)
  {
    if Mentions(chats, k) && Str(chats[0]["chat_id"]) != k {
      var i :| 0 <= i < |chats| && "chat_id" in chats[i] && Str(chats[i]["chat_id"]) == k;
      assert chats[1..][i - 1] == chats[i];
    }
    if Mentions(chats[1..], k) {
      var i :| 0 <= i < |chats[1..]| && "chat_id" in chats[1..][i] && Str(chats[1..][i]["chat_id"]) == k;
      assert chats[i + 1] == chats[1..][i];
    }
  }

  /** The import goes through exactly when every chat can be written. */
  lemma {:induction false} UpsertChatsDefined(m: map<string, ChatInfo>, chats: seq<Fields>, now: string)
    ensures UpsertChats(m, chats, now).Some? <==> forall i :: 0 <= i < |chats| ==> ChatWritable(chats[i])
    decreases |chats|
  {
    if chats != [] {
      var head := UpsertChat(m, chats[0], now);
      if head.Some? {
        UpsertChatsDefined(head.value, chats[1..], now);
        assert forall i :: 1 <= i < |chats| ==> chats[i] == chats[1..][i - 1];
      }
    }
  }

  /** After a successful import the chats are those known before plus the
      imported ones, a chat known before keeps its creado_en, and a chat
      that was not imported is untouched. */
  lemma {:induction false} UpsertChatsKeeps(m: map<string, ChatInfo>, chats: seq<Fields>, now: string)
    requires UpsertChats(m, chats, now).Some?
    ensures var r := UpsertChats(m, chats, now).value;
      && (forall k :: k in r <==> k in m || Mentions(chats, k))
      && (forall k :: k in m ==> r[k].createdAt == m[k].createdAt)
      && (forall k :: k in r && !Mentions(chats, k) ==> r[k] == m[k])
    decreases |chats|
  {
    if chats != [] {
      var m1 := UpsertChat(m, chats[0], now).value;
      UpsertChatsKeeps(m1, chats[1..], now);
      forall k ensures Mentions(chats, k) <==> Str(chats[0]["chat_id"]) == k || Mentions(chats[1..], k) {
        MentionsCons(chats, k);
      }
    }
  }

  datatype ChatsOutcome = ChatsReadFailed | ChatsWriteFailed | ChatsImported(count: nat)

  /** `importar_chats_info`: `reply` is the select on the remote table
      (None when it raises). */
  method ImportChats(db: DatabaseManager, reply: Option<seq<Fields>>, now: string) returns (outcome: ChatsOutcome)
    requires db.Valid()
    modifies db
    ensures db.Valid()
    ensures reply.None? ==> outcome == ChatsReadFailed && db.chatsInfo == old(db.chatsInfo)
    ensures reply.Some? ==>
      var r := UpsertChats(old(db.chatsInfo), reply.value, now);
      && (r.None? ==> outcome == ChatsWriteFailed && db.chatsInfo == old(db.chatsInfo))
      && (r.Some? ==> outcome == ChatsImported(|reply.value|) && db.chatsInfo == r.value)
    ensures db.reminders == old(db.reminders) && db.nextId == old(db.nextId)
    ensures db.pendingDeletions == old(db.pendingDeletions) && db.nextDeletionId == old(db.nextDeletionId)
    ensures db.supabaseOnline == old(db.supabaseOnline)
  {
    if reply.None? {
      return ChatsReadFailed;
    }
    var chats := reply.value;
    var work := db.chatsInfo;
    var count := 0;
    for i := 0 to |chats|
      invariant count == i
      invariant UpsertChats(old(db.chatsInfo), chats, now) == UpsertChats(work, chats[i..], now)
    {
      assert chats[i..][1..] == chats[i + 1..];
      var next := UpsertChat(work, chats[i], now);
      if next.None? {
        return ChatsWriteFailed;
      }
      work := next.value;
      count := count + 1;
    }
    assert chats[|chats|..] == [];
    db.chatsInfo := work;
    outcome := ChatsImported(count);
  }

  // ---------------------------------------------------------------------
  // recordatorios

  /** The local table and the two counters of the import loop. */
  datatype ImportState = ImportState(local: Local, inserted: nat, updated: nat)

  /** `UPDATE ... WHERE supabase_id = ?`: every row holding that id gets the new values. */
  function Relink(t: Table, rid: int, row: Reminder): (r: Table)
    ensures r.Keys == t.Keys
    ensures forall id :: id in t ==> r[id] == if t[id].remoteId == Some(rid) then row else t[id]
  {
    map id | id in t :: if t[id].remoteId == Some(rid) then row else t[id]
  }

  /** One remote row: UPDATE when a local row holds its id, INSERT otherwise;
      None when the statement raises. */
  function ImportStep(s: ImportState, rem: RemoteRow, now: string): Option<ImportState> {
    match ImportedRow(rem, now)
    case None => None
    case Some(row) =>
      if MatchOf(s.local.table, rem.id).Some? then
        Some(s.(local := s.local.(table := Relink(s.local.table, rem.id, row)), updated := s.updated + 1))
      else
        Some(ImportState(Local(s.local.table[s.local.nextId := row], s.local.nextId + 1), s.inserted + 1, s.updated))
  }

  /** The loop over all records, in one transaction. */
  function ImportAll(s: ImportState, rs: seq<RemoteRow>, now: string): Option<ImportState>
    decreases |rs|
  {
    if rs == [] then Some(s)
    else match ImportStep(s, rs[0], now)
      case None => None
      case Some(s1) => ImportAll(s1, rs[1..], now)
  }

  predicate HasRemote(t: Table, rid: int) {
    exists id :: id in t && t[id].remoteId == Some(rid)
  }

  /** From `a` to `b` the counter stays fresh, `n` records were counted,
      the table only gained the inserted rows, and no link was lost. */
  ghost predicate Grows(a: ImportState, b: ImportState, n: nat) {
    && FreshCounter(b.local)
    && b.inserted >= a.inserted && b.inserted + b.updated == a.inserted + a.updated + n
    && a.local.table.Keys <= b.local.table.Keys
    && |b.local.table| == |a.local.table| + (b.inserted - a.inserted)
    && (forall rid :: HasRemote(a.local.table, rid) ==> HasRemote(b.local.table, rid))
  }

  lemma GrowsTrans(a: ImportState, b: ImportState, c: ImportState, n: nat, m: nat)
    requires Grows(a, b, n) && Grows(b, c, m)
    ensures Grows(a, c, n + m)
  {
  }

  /** One step: an INSERT exactly when no row held the id, after which the
      record is linked, and the counters and the table grow accordingly. */
  lemma ImportStepGrows(s: ImportState, rem: RemoteRow, now: string)
    requires FreshCounter(s.local)
    ensures ImportStep(s, rem, now).Some? <==> ImportWritable(rem)
    ensures ImportStep(s, rem, now).Some? ==>
      var r := ImportStep(s, rem, now).value;
      && Grows(s, r, 1)
      && HasRemote(r.local.table, rem.id)
      && (HasRemote(s.local.table, rem.id) <==> r.inserted == s.inserted)
      && (r.inserted == s.inserted ==> r.local.nextId == s.local.nextId)
  {
    var t := s.local.table;
    var m := MatchOf(t, rem.id);
    if ImportedRow(rem, now).Some? {
      var row := ImportedRow(rem, now).value;
      if m.Some? {
        var t' := Relink(t, rem.id, row);
        assert t'[m.value] == row;
        forall rid | HasRemote(t, rid) ensures HasRemote(t', rid) {
          var id :| id in t && t[id].remoteId == Some(rid);
          assert t'[id].remoteId == Some(rid);
        }
      } else {
        var t' := t[s.local.nextId := row];
        assert s.local.nextId !in t;
        assert |t'| == |t| + 1;
        assert !HasRemote(t, rem.id);
        assert t'[s.local.nextId].remoteId == Some(rem.id);
        forall rid | HasRemote(t, rid) ensures HasRemote(t', rid) {
          var id :| id in t && t[id].remoteId == Some(rid);
          assert t'[id] == t[id];
        }
      }
    }
  }

  /** One step on the rows: rows holding the record's id take the remote
      values (flags by truthiness, no merge), a new row is that record, and
      every other row stays as it was. */
  lemma ImportStepRows(s: ImportState, rem: RemoteRow, now: string)
    requires FreshCounter(s.local) && ImportStep(s, rem, now).Some?
    ensures var t, t' := s.local.table, ImportStep(s, rem, now).value.local.table;
      && (forall id :: id in t' && id !in t ==> t'[id] == ImportedRow(rem, now).value)
      && (forall id :: id in t && t[id].remoteId != Some(rem.id) ==> t'[id] == t[id])
      && (forall id :: id in t && t[id].remoteId == Some(rem.id) ==> t'[id] == ImportedRow(rem, now).value)
  {
    if MatchOf(s.local.table, rem.id).None? {
      assert s.local.nextId !in s.local.table;
    }
  }

  /** One step goes through exactly when its record can be written, and it
      keeps the id counter ahead of the table. */
  lemma ImportStepDefined(s: ImportState, rem: RemoteRow, now: string)
    requires FreshCounter(s.local)
    ensures ImportStep(s, rem, now).Some? <==> ImportWritable(rem)
    ensures ImportStep(s, rem, now).Some? ==> FreshCounter(ImportStep(s, rem, now).value.local)
  {
    ImportStepGrows(s, rem, now);
  }

  /** The whole loop goes through exactly when every record can be written. */
  lemma {:induction false} ImportAllDefined(s: ImportState, rs: seq<RemoteRow>, now: string)
    requires FreshCounter(s.local)
    ensures ImportAll(s, rs, now).Some? <==> forall i :: 0 <= i < |rs| ==> ImportWritable(rs[i])
    decreases |rs|
  {
    if rs != [] {
      ImportStepDefined(s, rs[0], now);
      var head := ImportStep(s, rs[0], now);
      if head.Some? {
        ImportAllDefined(head.value, rs[1..], now);
        assert forall i :: 1 <= i < |rs| ==> rs[i] == rs[1..][i - 1];
      }
    }
  }

  /** In a successful import the counters add up to the number of records,
      the table grows by the inserts and no link is lost. */
  lemma {:induction false} ImportAllGrows(s: ImportState, rs: seq<RemoteRow>, now: string)
    requires FreshCounter(s.local) && ImportAll(s, rs, now).Some?
    ensures Grows(s, ImportAll(s, rs, now).value, |rs|)
    decreases |rs|
  {
    if rs != [] {
      ImportStepGrows(s, rs[0], now);
      var s1 := ImportStep(s, rs[0], now).value;
      ImportAllGrows(s1, rs[1..], now);
      GrowsTrans(s, s1, ImportAll(s, rs, now).value, 1, |rs| - 1);
    }
  }

  /** After a successful import every record is linked to some row. */
  lemma {:induction false} ImportAllLinks(s: ImportState, rs: seq<RemoteRow>, now: string)
    requires FreshCounter(s.local) && ImportAll(s, rs, now).Some?
    ensures forall i :: 0 <= i < |rs| ==> HasRemote(ImportAll(s, rs, now).value.local.table, rs[i].id)
    decreases |rs|
  {
    if rs != [] {
      ImportStepLinks(s, rs[0], now);
      var s1 := ImportStep(s, rs[0], now).value;
      var fin := ImportAll(s1, rs[1..], now).value;
      ImportAllLinks(s1, rs[1..], now);
      ImportAllGrows(s1, rs[1..], now);
      assert HasRemote(fin.local.table, rs[0].id);
      forall i | 0 <= i < |rs| ensures HasRemote(fin.local.table, rs[i].id) {
        if i > 0 {
          assert rs[i] == rs[1..][i - 1];
        }
      }
    }
  }

  /** A successful step links its record and keeps the id counter ahead. */
  lemma ImportStepLinks(s: ImportState, rem: RemoteRow, now: string)
    requires FreshCounter(s.local) && ImportStep(s, rem, now).Some?
    ensures FreshCounter(ImportStep(s, rem, now).value.local)
    ensures HasRemote(ImportStep(s, rem, now).value.local.table, rem.id)
  {
    ImportStepGrows(s, rem, now);
  }

  /** A row holding none of the records' ids comes out of the import as it went in. */
  lemma {:induction false} ImportAllUntouched(s: ImportState, rs: seq<RemoteRow>, now: string, id: int)
    requires FreshCounter(s.local) && ImportAll(s, rs, now).Some?
    requires id in s.local.table
    requires forall i :: 0 <= i < |rs| ==> s.local.table[id].remoteId != Some(rs[i].id)
    ensures id in ImportAll(s, rs, now).value.local.table
    ensures ImportAll(s, rs, now).value.local.table[id] == s.local.table[id]
    decreases |rs|
  {
    if rs != [] {
      ImportStepGrows(s, rs[0], now);
      ImportStepRows(s, rs[0], now);
      var s1 := ImportStep(s, rs[0], now).value;
      assert s1.local.table[id] == s.local.table[id];
      ImportAllUntouched(s1, rs[1..], now, id);
    }
  }

  /** Importing records that are all linked already inserts nothing: every
      step is an UPDATE and the AUTOINCREMENT counter does not move. */
  lemma {:induction false} ImportLinkedInsertsNothing(s: ImportState, rs: seq<RemoteRow>, now: string)
    requires FreshCounter(s.local)
    requires forall i :: 0 <= i < |rs| ==> ImportWritable(rs[i]) && HasRemote(s.local.table, rs[i].id)
    ensures ImportAll(s, rs, now).Some?
    ensures ImportAll(s, rs, now).value.inserted == s.inserted
    ensures ImportAll(s, rs, now).value.updated == s.updated + |rs|
    ensures ImportAll(s, rs, now).value.local.nextId == s.local.nextId
    decreases |rs|
  {
    if rs != [] {
      ImportStepGrows(s, rs[0], now);
      var s1 := ImportStep(s, rs[0], now).value;
      forall i | 0 <= i < |rs[1..]| ensures HasRemote(s1.local.table, rs[1..][i].id) {
        assert rs[1..][i] == rs[i + 1];
      }
      ImportLinkedInsertsNothing(s1, rs[1..], now);
    }
  }

  /** Running the import a second time on the same records adds no row. */
  lemma ReimportAddsNothing(s: Local, rs: seq<RemoteRow>, now: string, later: string)
    requires FreshCounter(s)
    requires ImportAll(ImportState(s, 0, 0), rs, now).Some?
    ensures var first := ImportAll(ImportState(s, 0, 0), rs, now).value;
      var second := ImportAll(ImportState(first.local, 0, 0), rs, later);
      second.Some? && second.value.inserted == 0 && second.value.local.nextId == first.local.nextId
  {
    ImportAllGrows(ImportState(s, 0, 0), rs, now);
    ImportAllLinks(ImportState(s, 0, 0), rs, now);
    ImportAllDefined(ImportState(s, 0, 0), rs, now);
    var first := ImportAll(ImportState(s, 0, 0), rs, now).value;
    ImportLinkedInsertsNothing(ImportState(first.local, 0, 0), rs, later);
  }

  datatype ImportOutcome = ReadFailed | WriteFailed | Imported(inserted: nat, updated: nat)

  /** `importar_recordatorios`: `pages` are the answers to the range
      requests; nothing is written unless every page was read, and nothing is
      kept unless every statement went through. */
  method ImportReminders(db: DatabaseManager, pages: seq<PageReply<RemoteRow>>, now: string) returns (outcome: ImportOutcome)
    requires db.Valid()
    modifies db
    ensures db.Valid()
    ensures Fetch(pages, 0).None? ==> outcome == ReadFailed && db.reminders == old(db.reminders) && db.nextId == old(db.nextId)
    ensures Fetch(pages, 0).Some? ==>
      var r := ImportAll(ImportState(Local(old(db.reminders), old(db.nextId)), 0, 0), Fetch(pages, 0).value, now);
      && (r.None? ==> outcome == WriteFailed && db.reminders == old(db.reminders) && db.nextId == old(db.nextId))
      && (r.Some? ==> outcome == Imported(r.value.inserted, r.value.updated)
                      && Local(db.reminders, db.nextId) == r.value.local)
    ensures db.pendingDeletions == old(db.pendingDeletions) && db.nextDeletionId == old(db.nextDeletionId)
    ensures db.chatsInfo == old(db.chatsInfo) && db.supabaseOnline == old(db.supabaseOnline)
  {
    var fetched := FetchAll(pages);
    if fetched.None? {
      return ReadFailed;
    }
    var registros := fetched.value;
    var start := ImportState(Local(db.reminders, db.nextId), 0, 0);
    var work := start;
    for i := 0 to |registros|
      invariant unchanged(db)
      invariant FreshCounter(work.local)
      invariant ImportAll(start, registros, now) == ImportAll(work, registros[i..], now)
    {
      assert registros[i..][1..] == registros[i + 1..];
      var rem := registros[i];
      ImportStepDefined(work, rem, now);
      var next := ImportStep(work, rem, now);
      if next.None? {
        return WriteFailed;
      }
      work := next.value;
    }
    assert registros[|registros|..] == [];
    db.reminders := work.local.table;
    db.nextId := work.local.nextId;
    outcome := Imported(work.inserted, work.updated);
  }

  /** The counters of a successful import add up to the number of records. */
  lemma ImportCounts(s: Local, rs: seq<RemoteRow>, now: string)
    requires FreshCounter(s)
    requires ImportAll(ImportState(s, 0, 0), rs, now).Some?
    ensures var r := ImportAll(ImportState(s, 0, 0), rs, now).value;
      r.inserted + r.updated == |rs| && |r.local.table| == |s.table| + r.inserted
  {
    ImportAllGrows(ImportState(s, 0, 0), rs, now);
  }

  // ---------------------------------------------------------------------
  // Generic tables

  /** A JSON object as the client library returns it: keys in order. */
  type JsonObject = seq<(string, PyValue)>

  function Keys(row: JsonObject): seq<string> {
    seq(|row|, i requires 0 <= i < |row| => row[i].0)
  }

  /** `row[c]`, or None where it raises KeyError. */
  function Lookup(row: JsonObject, c: string): (r: Option<PyValue>)
    ensures r.None? <==> forall i :: 0 <= i < |row| ==> row[i].0 != c
    ensures r.Some? ==> exists i :: 0 <= i < |row| && row[i] == (c, r.value)
    decreases |row|
  {
    if row == [] then None
    else if row[0].0 == c then Some(row[0].1)
    else
      var r := Lookup(row[1..], c);
      assert forall i :: 1 <= i < |row| ==> row[i] == row[1..][i - 1];
      r
  }

  /** `str(v)` for dicts and lists, then 1/0 for bools: what is bound. */
  function Normalise(v: PyValue): PyValue {
    match v
    case PyCollection(repr, _) => PyStr(repr)
    case PyBool(b) => PyInt(if b then 1 else 0)
    case _ => v
  }

  /** Normalised values are always bindable and normalising twice changes
      nothing more; only collections and bools are changed. */
  lemma NormaliseProperties(v: PyValue)
    ensures Bindable(Normalise(v)) && !Normalise(v).PyBool?
    ensures Normalise(Normalise(v)) == Normalise(v)
    ensures (v.PyCollection? || v.PyBool?) <==> Normalise(v) != v
    ensures v.PyCollection? ==> Normalise(v) == PyStr(Str(v))
    ensures v.PyBool? ==> Bind(Normalise(v)) == Bind(v)
  {
  }

  /** The values of one row for the columns, or None where `row[c]` raises. */
  function RowValues(row: JsonObject, columnas: seq<string>): Option<seq<PyValue>>
    decreases |columnas|
  {
    if columnas == [] then Some([])
    else match Lookup(row, columnas[0])
      case None => None
      case Some(v) =>
        match RowValues(row, columnas[1..])
        case None => None
        case Some(rest) => Some([Normalise(v)] + rest)
  }

  /** A row's values exist exactly when it has every column, and they are
      its values for the columns, normalised, in column order. */
  lemma {:induction false} RowValuesSpec(row: JsonObject, columnas: seq<string>)
    ensures RowValues(row, columnas).Some? ==> |RowValues(row, columnas).value| == |columnas|
    ensures RowValues(row, columnas).Some? <==> forall j :: 0 <= j < |columnas| ==> Lookup(row, columnas[j]).Some?
    ensures RowValues(row, columnas).Some? ==>
      forall j :: 0 <= j < |columnas| ==> RowValues(row, columnas).value[j] == Normalise(Lookup(row, columnas[j]).value)
    decreases |columnas|
  {
    if columnas != [] {
      RowValuesSpec(row, columnas[1..]);
      assert forall j :: 1 <= j < |columnas| ==> columnas[j] == columnas[1..][j - 1];
    }
  }

  datatype GenericOutcome = GenericReadFailed | NothingToImport | GenericAborted | GenericImported(written: seq<seq<PyValue>>, count: nat)

  /** The rows whose INSERT OR REPLACE went through, by index. */
  function Written(vals: seq<seq<PyValue>>, stmtOk: nat -> bool): (r: seq<seq<PyValue>>)
    ensures |r| <= |vals|
    ensures (forall i :: 0 <= i < |vals| ==> stmtOk(i)) ==> r == vals
    decreases |vals|
  {
    if vals == [] then []
    else
      var n := |vals| - 1;
      Written(vals[..n], stmtOk) + (if stmtOk(n) then [vals[n]] else [])
  }

  lemma WrittenStep(vals: seq<seq<PyValue>>, v: seq<PyValue>, stmtOk: nat -> bool)
    ensures Written(vals + [v], stmtOk) == Written(vals, stmtOk) + (if stmtOk(|vals|) then [v] else [])
  {
    assert (vals + [v])[..|vals|] == vals;
  }

  /** `importar_tabla_generica`: the columns are the keys of the first row;
      a row lacking one of them aborts the whole transaction; a statement
      that raises (`stmtOk(i)` false) is skipped and not counted. */
  method ImportGeneric(pages: seq<PageReply<JsonObject>>, stmtOk: nat -> bool) returns (outcome: GenericOutcome)
    ensures Fetch(pages, 0).None? ==> outcome == GenericReadFailed
    ensures Fetch(pages, 0) == Some([]) ==> outcome == NothingToImport
    ensures Fetch(pages, 0).Some? && Fetch(pages, 0).value != [] ==>
      var registros := Fetch(pages, 0).value;
      var columnas := Keys(registros[0]);
      && ((exists i :: 0 <= i < |registros| && RowValues(registros[i], columnas).None?) ==> outcome == GenericAborted)
      && ((forall i :: 0 <= i < |registros| ==> RowValues(registros[i], columnas).Some?) ==>
            var vals := seq(|registros|, i requires 0 <= i < |registros| => RowValues(registros[i], columnas).value);
            outcome == GenericImported(Written(vals, stmtOk), |Written(vals, stmtOk)|))
  {
    var fetched := FetchAll(pages);
    if fetched.None? {
      return GenericReadFailed;
    }
    var registros := fetched.value;
    if registros == [] {
      return NothingToImport;
    }
    outcome := WriteRows(registros, stmtOk);
  }

  /** The transaction over the fetched rows: the columns are the keys of
      the first row; a row lacking one aborts, a statement that raises is
      skipped. */
  method WriteRows(registros: seq<JsonObject>, stmtOk: nat -> bool) returns (outcome: GenericOutcome)
    requires registros != []
    ensures var columnas := Keys(registros[0]);
      && ((exists i :: 0 <= i < |registros| && RowValues(registros[i], columnas).None?) ==> outcome == GenericAborted)
      && ((forall i :: 0 <= i < |registros| ==> RowValues(registros[i], columnas).Some?) ==>
            var vals := seq(|registros|, i requires 0 <= i < |registros| => RowValues(registros[i], columnas).value);
            outcome == GenericImported(Written(vals, stmtOk), |Written(vals, stmtOk)|))
  {
    var columnas := Keys(registros[0]);
    var vals: seq<seq<PyValue>> := [];
    var written: seq<seq<PyValue>> := [];
    var count := 0;
    for i := 0 to |registros|
      invariant |vals| == i
      invariant forall j :: 0 <= j < i ==> RowValues(registros[j], columnas) == Some(vals[j])
      invariant written == Written(vals, stmtOk) && count == |written|
    {
      var valores;
      valores, written, count := WriteRow(registros[i], columnas, stmtOk(i), written, count);
      if valores.None? {
        assert !(forall j :: 0 <= j < |registros| ==> RowValues(registros[j], columnas).Some?);
        return GenericAborted;
      }
      WrittenStep(vals, valores.value, stmtOk);
      vals := vals + [valores.value];
    }
    AllRowValues(registros, columnas, vals);
    outcome := GenericImported(written, count);
  }

  /** Values found for every row are the values of the rows, in order. */
  lemma AllRowValues(registros: seq<JsonObject>, columnas: seq<string>, vals: seq<seq<PyValue>>)
    requires |vals| == |registros|
    requires forall j :: 0 <= j < |registros| ==> RowValues(registros[j], columnas) == Some(vals[j])
    ensures !(exists i :: 0 <= i < |registros| && RowValues(registros[i], columnas).None?)
    ensures forall i :: 0 <= i < |registros| ==> RowValues(registros[i], columnas).Some?
    ensures vals == seq(|registros|, i requires 0 <= i < |registros| => RowValues(registros[i], columnas).value)
  {
  }

  /** One row of the transaction: its values (None when a column is
      missing), written and counted when its statement goes through. */
  method WriteRow(row: JsonObject, columnas: seq<string>, ok: bool, written: seq<seq<PyValue>>, count: nat)
    returns (valores: Option<seq<PyValue>>, written': seq<seq<PyValue>>, count': nat)
    ensures valores == RowValues(row, columnas)
    ensures valores.Some? ==> written' == written + (if ok then [valores.value] else [])
    ensures valores.Some? ==> count' == count + (if ok then 1 else 0)
  {
    valores := RowValues(row, columnas);
    written', count' := written, count;
    if valores.Some? && ok {
      written' := written + [valores.value];
      count' := count + 1;
    }
  }

  // ---------------------------------------------------------------------
  // The script

  /** What `main` reports: it stops at once without a connection;
      otherwise the chats import runs, and the reminders import follows
      unless writing the chats raised (None then). */
  datatype RunOutcome = NotConnected | Ran(chats: ChatsOutcome, reminders: Option<ImportOutcome>)

  /** `main` without the backup: nothing without a connection; the chats,
      then the reminders. An exception from writing the chats ends the
      script before the reminders (it is not caught). */
  method RunImport(db: DatabaseManager, online: bool, chats: Option<seq<Fields>>,
                   pages: seq<PageReply<RemoteRow>>, now: string)
    returns (outcome: RunOutcome)
    requires db.Valid()
    modifies db
    ensures db.Valid()
    ensures !online ==> outcome == NotConnected && db.reminders == old(db.reminders) && db.nextId == old(db.nextId)
                        && db.chatsInfo == old(db.chatsInfo)
    ensures online && chats.None? ==> outcome.Ran? && outcome.chats == ChatsReadFailed && db.chatsInfo == old(db.chatsInfo)
    ensures online && chats.Some? ==>
      var u := UpsertChats(old(db.chatsInfo), chats.value, now);
      && (u.None? ==> outcome == Ran(ChatsWriteFailed, None) && db.chatsInfo == old(db.chatsInfo)
                      && db.reminders == old(db.reminders) && db.nextId == old(db.nextId))
      && (u.Some? ==> outcome.Ran? && outcome.chats == ChatsImported(|chats.value|) && db.chatsInfo == u.value)
    ensures outcome.Ran? && !outcome.chats.ChatsWriteFailed? ==>
      && outcome.reminders.Some?
      && (Fetch(pages, 0).None? ==>
            outcome.reminders.value == ReadFailed && db.reminders == old(db.reminders) && db.nextId == old(db.nextId))
      && (Fetch(pages, 0).Some? ==>
            var r := ImportAll(ImportState(Local(old(db.reminders), old(db.nextId)), 0, 0), Fetch(pages, 0).value, now);
            && (r.None? ==> outcome.reminders.value == WriteFailed && db.reminders == old(db.reminders) && db.nextId == old(db.nextId))
            && (r.Some? ==> outcome.reminders.value == Imported(r.value.inserted, r.value.updated)
                            && Local(db.reminders, db.nextId) == r.value.local))
    ensures db.pendingDeletions == old(db.pendingDeletions) && db.nextDeletionId == old(db.nextDeletionId)
  {
    if !online {
      return NotConnected;
    }
    var chatsDone := ImportChats(db, chats, now);
    if chatsDone.ChatsWriteFailed? {
      return Ran(chatsDone, None);
    }
    var r := ImportReminders(db, pages, now);
    outcome := Ran(chatsDone, Some(r));
  }
}
