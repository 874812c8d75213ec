/**
  The update-announcement helpers: the parser that turns a text file of
  `---`-separated TITULO/DESCRIPCION blocks into rows of
  `actualizaciones_info`, the registration of chats that have reminders
  but no row in `chats_avisados_actualizaciones`, and the query for the
  chats that have not yet seen the newest update.
 */
module Announcements {
  import opened Wrappers
  import opened PyValues
  import opened PyStrings

  // ---------------------------------------------------------------------
  // The block parser

  /** One row for `actualizaciones_info`. */
  datatype Update = Update(title: string, description: string, postedAt: string)

  const BlockSeparator := "---"
  const TitleTag := "TITULO:"
  const DescriptionTag := "DESCRIPCION:"

  /** A split yields two or more pieces exactly when the separator occurs. */
  lemma SplitInTwo(s: string, sep: string)
    requires |sep| > 0
    ensures |Split(s, sep)| >= 2 <==> Contains(s, sep)
    ensures Find(s, sep).Some? ==>
      var k := Find(s, sep).value;
      Split(s, sep) == [s[..k]] + Split(s[k + |sep|..], sep)
  {
  }

  lemma {:induction false} RemoveAllKeepsOut(s: string, p: string, c: char)
    requires |p| > 0 && c !in s
    ensures c !in RemoveAll(s, p)
    decreases |s|
  {
    if |s| >= |p| {
      if s[..|p|] == p {
        RemoveAllKeepsOut(s[|p|..], p, c);
      } else {
        RemoveAllKeepsOut(s[1..], p, c);
      }
    }
  }

  /** With a line break in `s`, the first piece of the split on "\n" is the
      text before the first break, and the other pieces joined again are the
      text after it. */
  lemma FirstLine(s: string)
    requires Contains(s, "\n")
    ensures var k := Find(s, "\n").value;
      && Split(s, "\n")[0] == s[..k]
      && Join(Split(s, "\n")[1..], "\n") == s[k + 1..]
      && '\n' !in s[..k]
  {
    var k := Find(s, "\n").value;
    SplitInTwo(s, "\n");
    assert Split(s, "\n")[1..] == Split(s[k + 1..], "\n");
    forall j | 0 <= j < k ensures s[..k][j] != '\n' {
      assert !OccursAt(s, "\n", j);
      assert s[j..j + 1] == [s[j]];
    }
  }

  /** A title taken from one line holds no line break. */
  lemma TitleOneLine(line: string)
    requires '\n' !in line
    ensures '\n' !in Strip(RemoveAll(line, TitleTag))
  {
    RemoveAllKeepsOut(line, TitleTag, '\n');
    var t := RemoveAll(line, TitleTag);
    assert forall c :: c in Strip(t) ==> c in t;
  }

  /** One block, with the timestamp `datetime.now()` gave for it: None when
      the stripped block has fewer than two lines, that is, no line break.
      The title is the first line without any "TITULO:", stripped; it never
      holds a line break. The description is everything after the first
      line break without any "DESCRIPCION:", stripped. */
  function ParseBlock(bloque: string, now: string): (r: Option<Update>)
    ensures r.Some? <==> Contains(Strip(bloque), "\n")
    ensures r.Some? ==>
      var s := Strip(bloque);
      var k := Find(s, "\n").value;
      && r.value.title == Strip(RemoveAll(s[..k], TitleTag))
      && r.value.description == Strip(RemoveAll(s[k + 1..], DescriptionTag))
      && r.value.postedAt == now
      && '\n' !in r.value.title
  {
    var s := Strip(bloque);
    var lineas := Split(s, "\n");
    SplitInTwo(s, "\n");
    if |lineas| < 2 then None
    else
      FirstLine(s);
      TitleOneLine(lineas[0]);
      Some(Update(Strip(RemoveAll(lineas[0], TitleTag)), Strip(RemoveAll(Join(lineas[1..], "\n"), DescriptionTag)), now))
  }

  /** The blocks of the file: its stripped content split on "---". */
  function Blocks(contenido: string): (bs: seq<string>)
    ensures |bs| >= 1 && Join(bs, BlockSeparator) == Strip(contenido)
  {
    Split(Strip(contenido), BlockSeparator)
  }

  /** The values held by the `Some`s of `os`, in order: what a loop that
      appends only when a step yields something collects. */
  function Somes<B>(os: seq<Option<B>>): (r: seq<B>)
    ensures |r| <= |os|
    decreases |os|
  {
    if os == [] then []
    else
      var n := |os| - 1;
      Somes(os[..n]) + match os[n] { case None => [] case Some(u) => [u] }
  }

  lemma SomesStep<B>(os: seq<Option<B>>, i: nat)
    requires i < |os|
    ensures Somes(os[..i + 1]) == Somes(os[..i]) + if os[i].Some? then [os[i].value] else []
  {
    assert os[..i + 1][..i] == os[..i];
  }

  lemma SomesAll<B>(os: seq<Option<B>>)
    ensures Somes(os[..|os|]) == Somes(os)
  {
    assert os[..|os|] == os;
  }

  lemma {:induction false} SomesEmpty<B>(os: seq<Option<B>>)
    ensures Somes(os) == [] <==> forall i :: 0 <= i < |os| ==> os[i].None?
    decreases |os|
  {
    if os != [] {
      var n := |os| - 1;
      SomesEmpty(os[..n]);
      assert forall i :: 0 <= i < n ==> os[..n][i] == os[i];
    }
  }

  lemma {:induction false} SomesPrefix<B>(os: seq<Option<B>>, i: nat)
    requires i <= |os|
    ensures |Somes(os[..i])| <= |Somes(os)|
    ensures Somes(os)[..|Somes(os[..i])|] == Somes(os[..i])
    decreases |os|
  {
    if i == |os| {
      assert os[..i] == os;
    } else {
      var n := |os| - 1;
      SomesPrefix(os[..n], i);
      assert os[..n][..i] == os[..i];
    }
  }

  lemma SomesInOrder<B>(os: seq<Option<B>>, i: nat)
    requires i < |os| && os[i].Some?
    ensures |Somes(os[..i])| < |Somes(os)|
    ensures Somes(os)[|Somes(os[..i])|] == os[i].value
  {
    SomesPrefix(os, i + 1);
    assert os[..i + 1][..i] == os[..i];
  }

  lemma {:induction false} SomesFrom<B>(os: seq<Option<B>>, u: B)
    requires u in Somes(os)
    ensures exists i :: 0 <= i < |os| && os[i] == Some(u)
    decreases |os|
  {
    var n := |os| - 1;
    if u in Somes(os[..n]) {
      SomesFrom(os[..n], u);
      var i :| 0 <= i < n && os[..n][i] == Some(u);
      assert os[..n][i] == os[i];
    } else {
      assert os[n] == Some(u);
    }
  }

  /** Each block parsed with the timestamp taken for it. */
  function BlockResults(bloques: seq<string>, clock: nat -> string): (os: seq<Option<Update>>)
    ensures |os| == |bloques|
    ensures forall i :: 0 <= i < |bloques| ==> os[i] == ParseBlock(bloques[i], clock(i))
  {
    seq(|bloques|, i requires 0 <= i < |bloques| => ParseBlock(bloques[i], clock(i)))
  }

  /** The updates the loop collects from `bloques`. */
  function Parsed(bloques: seq<string>, clock: nat -> string): seq<Update> {
    Somes(BlockResults(bloques, clock))
  }

  /** At most one update per block, and none exactly when no block has two lines. */
  lemma ParsedEmpty(bloques: seq<string>, clock: nat -> string)
    ensures |Parsed(bloques, clock)| <= |bloques|
    ensures Parsed(bloques, clock) == [] <==> forall i :: 0 <= i < |bloques| ==> ParseBlock(bloques[i], clock(i)).None?
  {
    SomesEmpty(BlockResults(bloques, clock));
  }

  /** Block order is kept: a block that parses sits right after the updates
      of the blocks before it. */
  lemma ParsedInOrder(bloques: seq<string>, clock: nat -> string, i: nat)
    requires i < |bloques| && ParseBlock(bloques[i], clock(i)).Some?
    ensures |Parsed(bloques[..i], clock)| < |Parsed(bloques, clock)|
    ensures Parsed(bloques, clock)[|Parsed(bloques[..i], clock)|] == ParseBlock(bloques[i], clock(i)).value
  {
    var os := BlockResults(bloques, clock);
    SomesInOrder(os, i);
    assert os[..i] == BlockResults(bloques[..i], clock);
  }

  /** Every collected update comes from some block. */
  lemma ParsedFromBlocks(bloques: seq<string>, clock: nat -> string, u: Update)
    requires u in Parsed(bloques, clock)
    ensures exists i :: 0 <= i < |bloques| && ParseBlock(bloques[i], clock(i)) == Some(u)
  {
    SomesFrom(BlockResults(bloques, clock), u);
  }

  /** The `for bloque in bloques` loop. */
  method ParseUpdates(contenido: string, clock: nat -> string) returns (actualizaciones: seq<Update>)
    ensures actualizaciones == Parsed(Blocks(contenido), clock)
  {
    var bloques := Split(Strip(contenido), BlockSeparator);
    ghost var os := BlockResults(bloques, clock);
    actualizaciones := [];
    for i := 0 to |bloques|
      invariant actualizaciones == Somes(os[..i])
    {
      SomesStep(os, i);
      var u := ParseBlock(bloques[i], clock(i));
      if u.Some? {
        actualizaciones := actualizaciones + [u.value];
      }
    }
    SomesAll(os);
  }

  datatype FileOutcome = NoConnection | FileMissing | NothingValid | InsertedUpdates(rows: seq<Update>)

  /** `insertar_actualizaciones_desde_archivo`: `file` is the content of
      Actualizaciones.txt, None when it does not exist; all parsed updates go
      in one insert, and none when there are none. */
  method InsertUpdatesFromFile(online: bool, file: Option<string>, clock: nat -> string) returns (outcome: FileOutcome)
    ensures !online ==> outcome == NoConnection
    ensures online && file.None? ==> outcome == FileMissing
    ensures online && file.Some? ==>
      var ps := Parsed(Blocks(file.value), clock);
      (if ps == [] then outcome == NothingValid else outcome == InsertedUpdates(ps))
  {
    if !online {
      return NoConnection;
    }
    if file.None? {
      return FileMissing;
    }
    var actualizaciones := ParseUpdates(file.value, clock);
    if actualizaciones != [] {
      outcome := InsertedUpdates(actualizaciones);
    } else {
      outcome := NothingValid;
    }
  }

  // ---------------------------------------------------------------------
  // chats_avisados_actualizaciones

  /** A row of `chats_avisados_actualizaciones`: the chat and the id of the
      last update it was sent (NULL for none yet). */
  datatype NoticeRow = NoticeRow(chatId: PyValue, lastUpdate: Option<int>)

  predicate Registered(avisados: seq<NoticeRow>, c: PyValue) {
    exists k :: 0 <= k < |avisados| && avisados[k].chatId == c
  }

  /** `set(chat_ids of recordatorios) - set(chat_ids already registered)`. */
  function NewChats(recChats: seq<PyValue>, avisados: seq<NoticeRow>): (r: set<PyValue>)
    ensures forall c :: c in r <==> c in recChats && !Registered(avisados, c)
  {
    var registered := set k | 0 <= k < |avisados| :: avisados[k].chatId;
    assert forall c :: c in registered <==> Registered(avisados, c);
    (set c | c in recChats) - registered
  }

  datatype RegisterOutcome = RegisterSkipped | RegisterFailed | AllRegistered | NewlyRegistered(added: set<PyValue>)

  /** `registrar_chats_si_no_existen`: the two selects (None where one
      raises) and whether the insert goes through; every new chat is
      inserted with id_ultima_actualizacion NULL, and nothing is inserted
      when there is none. */
  function Register(online: bool, recChats: Option<seq<PyValue>>, avisados: Option<seq<NoticeRow>>, insertOk: bool): (r: RegisterOutcome)
    ensures !online ==> r == RegisterSkipped
    ensures online && (recChats.None? || avisados.None?) ==> r == RegisterFailed
    ensures online && recChats.Some? && avisados.Some? ==>
      var nuevos := NewChats(recChats.value, avisados.value);
      && (nuevos == {} <==> r == AllRegistered)
      && (nuevos != {} && !insertOk ==> r == RegisterFailed)
      && (nuevos != {} && insertOk ==> r == NewlyRegistered(nuevos))
  {
    if !online then RegisterSkipped
    else if recChats.None? || avisados.None? then RegisterFailed
    else
      var nuevos := NewChats(recChats.value, avisados.value);
      if nuevos == {} then AllRegistered
      else if insertOk then NewlyRegistered(nuevos)
      else RegisterFailed
  }

  /** The table after the insert: the rows before, and one row with a NULL
      last update per added chat, in whatever order the set gave them. */
  ghost predicate InsertedAll(after: seq<NoticeRow>, before: seq<NoticeRow>, added: set<PyValue>) {
    && (forall k :: 0 <= k < |before| ==> before[k] in after)
    && (forall c :: c in added ==> NoticeRow(c, None) in after)
    && (forall k :: 0 <= k < |after| ==> after[k] in before || (after[k].chatId in added && after[k].lastUpdate.None?))
  }

  /** Registering again after a successful registration finds nothing new. */
  lemma RegisterTwiceAddsNothing(online: bool, recChats: seq<PyValue>, avisados: seq<NoticeRow>, after: seq<NoticeRow>, insertOk: bool)
    requires online
    requires Register(online, Some(recChats), Some(avisados), true).NewlyRegistered?
    requires InsertedAll(after, avisados, Register(online, Some(recChats), Some(avisados), true).added)
    ensures Register(online, Some(recChats), Some(after), insertOk) == AllRegistered
  {
    var added := NewChats(recChats, avisados);
    forall c | c in recChats ensures Registered(after, c) {
      if c in added {
        var k :| 0 <= k < |after| && after[k] == NoticeRow(c, None);
      } else {
        var k :| 0 <= k < |avisados| && avisados[k].chatId == c;
        var j :| 0 <= j < |after| && after[j] == avisados[k];
      }
    }
    assert NewChats(recChats, after) == {};
  }

  // ---------------------------------------------------------------------
  // obtener_chats_para_actualizacion

  /** `order("id", desc=True).limit(1)`: the newest update id. */
  function Newest(ids: seq<int>): (m: int)
    requires ids != []
    ensures m in ids && forall k :: 0 <= k < |ids| ==> ids[k] <= m
  {
    if |ids| == 1 then ids[0]
    else
      var rest := Newest(ids[1..]);
      assert forall k :: 1 <= k < |ids| ==> ids[k] == ids[1..][k - 1];
      if ids[0] >= rest then ids[0] else rest
  }

  /** `.lt("id_ultima_actualizacion", id_ultima)` in table order. */
  function Stale(avisados: seq<NoticeRow>, newest: int): (r: seq<PyValue>)
    ensures forall c :: c in r <==> exists k :: 0 <= k < |avisados| && avisados[k].chatId == c && avisados[k].lastUpdate.Some? && avisados[k].lastUpdate.value < newest
    decreases |avisados|
  {
    if avisados == [] then []
    else
      var rest := Stale(avisados[1..], newest);
      assert forall k :: 1 <= k < |avisados| ==> avisados[k] == avisados[1..][k - 1];
      var head := avisados[0];
      (if head.lastUpdate.Some? && head.lastUpdate.value < newest then [head.chatId] else []) + rest
  }

  /** `.is_("id_ultima_actualizacion", None)` in table order. */
  function NeverNotified(avisados: seq<NoticeRow>): (r: seq<PyValue>)
    ensures forall c :: c in r <==> exists k :: 0 <= k < |avisados| && avisados[k].chatId == c && avisados[k].lastUpdate.None?
    decreases |avisados|
  {
    if avisados == [] then []
    else
      var rest := NeverNotified(avisados[1..]);
      assert forall k :: 1 <= k < |avisados| ==> avisados[k] == avisados[1..][k - 1];
      (if avisados[0].lastUpdate.None? then [avisados[0].chatId] else []) + rest
  }

  /** Behind: the chat's row has no last update or one older than `newest`. */
  predicate Behind(row: NoticeRow, newest: int) {
    row.lastUpdate.None? || row.lastUpdate.value < newest
  }

  /** `obtener_chats_para_actualizacion`: `updateIds` are the ids of
      `actualizaciones_info` and `avisados` the rows of
      `chats_avisados_actualizaciones` (None where a read raises). The chats
      behind the newest update, stale ones first; None when there is no
      update yet. */
  function ChatsForUpdate(online: bool, updateIds: Option<seq<int>>, avisados: Option<seq<NoticeRow>>): (r: Option<seq<PyValue>>)
    ensures r.Some? <==> online && updateIds.Some? && updateIds.value != [] && avisados.Some?
    ensures r.Some? ==>
      var newest := Newest(updateIds.value);
      && r.value == Stale(avisados.value, newest) + NeverNotified(avisados.value)
      && forall c :: c in r.value <==> exists k :: 0 <= k < |avisados.value| && avisados.value[k].chatId == c && Behind(avisados.value[k], newest)
  {
    if !online || updateIds.None? || updateIds.value == [] || avisados.None? then None
    else
      var newest := Newest(updateIds.value);
      Some(Stale(avisados.value, newest) + NeverNotified(avisados.value))
  }

  /** A chat registered by `Register` is among the chats to be sent the
      newest update, whatever that update is. */
  lemma RegisteredChatsAreBehind(after: seq<NoticeRow>, before: seq<NoticeRow>, added: set<PyValue>, updateIds: seq<int>, c: PyValue)
    requires InsertedAll(after, before, added) && updateIds != [] && c in added
    ensures c in ChatsForUpdate(true, Some(updateIds), Some(after)).value
  {
    var k :| 0 <= k < |after| && after[k] == NoticeRow(c, None);
    assert Behind(after[k], Newest(updateIds));
  }

  lemma {:induction false} StaleNone(avisados: seq<NoticeRow>, newest: int)
    requires forall k :: 0 <= k < |avisados| ==> avisados[k].lastUpdate == Some(newest)
    ensures Stale(avisados, newest) == []
    decreases |avisados|
  {
    if avisados != [] {
      StaleNone(avisados[1..], newest);
    }
  }

  lemma {:induction false} NeverNotifiedNone(avisados: seq<NoticeRow>)
    requires forall k :: 0 <= k < |avisados| ==> avisados[k].lastUpdate.Some?
    ensures NeverNotified(avisados) == []
    decreases |avisados|
  {
    if avisados != [] {
      NeverNotifiedNone(avisados[1..]);
    }
  }

  /** Once every row records the newest update, no chat is returned. */
  lemma UpToDateChatsGetNothing(updateIds: seq<int>, avisados: seq<NoticeRow>)
    requires updateIds != []
    requires forall k :: 0 <= k < |avisados| ==> avisados[k].lastUpdate == Some(Newest(updateIds))
    ensures ChatsForUpdate(true, Some(updateIds), Some(avisados)) == Some([])
  {
    StaleNone(avisados, Newest(updateIds));
    NeverNotifiedNone(avisados);
  }
}
