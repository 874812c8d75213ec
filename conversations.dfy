/**
  The conversation that collects a new reminder from a Telegram chat: the
  table of active conversations, one `{estado, datos}` entry per chat, and
  the four steps it walks through (task name, description, date and time,
  confirmation). Each incoming message or inline-button callback touches
  only the calling chat's entry.
 */
module Conversations {
  import opened Wrappers
  import opened PyValues
  import opened Reminders

  /** The `estado` of an entry. `ESTADO_INICIAL` is never stored. */
  datatype Step = AskName | AskDescription | AskWhen | Confirm

  /** One entry of `conversaciones`. */
  datatype Conversation = Conversation(step: Step, data: Fields)

  /** The answer sent back to the chat. */
  datatype Reply =
    | AskTaskName
    | AskDescriptionText
    | AskDateTime
    | BadDateTime
    | ConfirmDetails(data: Fields)
    | SavedOk
    | SaveFailed
    | CreationCancelled
    | AskYesNo
    | Help(user: string)
    | ComingSoon
    | OperationCancelled
    | UnknownOption

  const StartWords: set<string> := {"/recordatorio", "recordatorio"}
  const YesWords: set<string> := {"sí", "si", "s", "yes", "y", "confirmar"}
  const NoWords: set<string> := {"no", "n", "cancelar"}
  const NoDate := "sin fecha"

  /** How the save call in `guardar_recordatorio` ends: the import of the
      remote module fails (before chat_id is added), the remote save raises,
      or it returns a value. */
  datatype SaveReply = ImportFailed | SaveRaised | SaveReturned(result: PyValue)

  /** The outside world for one message: the clock, the `strptime` +
      `isoformat` of a date text (None on ValueError), the remote save, and
      whether the local backup file can be written. */
  datatype Env = Env(now: string, parseDate: string -> Option<string>, save: SaveReply, backupOk: bool)

  /** What a message or callback does to the caller's entry (None: no
      entry), what it answers, and the record it hands to storage. */
  datatype Effect = Effect(entry: Option<Conversation>, reply: Reply, saved: Option<SaveResult>)

  /** The record that reached storage and whether `guardar_recordatorio` returned truthy. */
  datatype SaveResult = SaveResult(record: Fields, ok: bool)

  /** `datos["chat_id"] = chat_id` unless the key is there already. */
  function WithChatId(datos: Fields, chatId: string): (r: Fields)
    ensures "chat_id" in r && r["chat_id"] == (if "chat_id" in datos then datos["chat_id"] else PyStr(chatId))
    ensures r.Keys == datos.Keys + {"chat_id"}
    ensures forall k :: k in datos && k != "chat_id" ==> r[k] == datos[k]
  {
    if "chat_id" in datos then datos else datos["chat_id" := PyStr(chatId)]
  }

  /** `guardar_recordatorio`: the remote save's result by truthiness; when it
      raises, the dict (with chat_id if it was added before the exception)
      goes to the backup file, and the result is whether that worked. */
  function Save(chatId: string, datos: Fields, save: SaveReply, backupOk: bool): (r: SaveResult)
    ensures r.record == (if save.ImportFailed? then datos else WithChatId(datos, chatId))
    ensures r.ok <==> (if save.SaveReturned? then Truthy(save.result) else backupOk)
  {
    match save
    case ImportFailed => SaveResult(datos, backupOk)
    case SaveRaised => SaveResult(WithChatId(datos, chatId), backupOk)
    case SaveReturned(v) => SaveResult(WithChatId(datos, chatId), Truthy(v))
  }

  /** The `datos` a fresh entry starts with. */
  function Initial(user: string, now: string): Fields {
    map["usuario" := PyStr(user), "creado_en" := PyStr(now)]
  }

  /** `iniciar_recordatorio`. */
  function Start(user: string, now: string): Effect {
    Effect(Some(Conversation(AskName, Initial(user, now))), AskTaskName, None)
  }

  /** `procesar_mensaje` on the caller's entry `entry`. */
  function OnMessage(entry: Option<Conversation>, chatId: string, texto: string, user: string, env: Env): Effect {
    var t := Lower(texto);
    match entry
    case None =>
      if t in StartWords then Start(user, env.now) else Effect(None, Help(user), None)
    case Some(c) =>
      match c.step
      case AskName =>
        Effect(Some(Conversation(AskDescription, c.data["nombre_tarea" := PyStr(texto)])), AskDescriptionText, None)
      case AskDescription =>
        Effect(Some(Conversation(AskWhen, c.data["descripcion" := PyStr(texto)])), AskDateTime, None)
      case AskWhen =>
        if t == NoDate then
          var d := c.data["fecha_hora" := PyNone];
          Effect(Some(Conversation(Confirm, d)), ConfirmDetails(d), None)
        else (match env.parseDate(texto)
          case None => Effect(entry, BadDateTime, None)
          case Some(iso) =>
            var d := c.data["fecha_hora" := PyStr(iso)];
            Effect(Some(Conversation(Confirm, d)), ConfirmDetails(d), None))
      case Confirm =>
        if t in YesWords then
          var s := Save(chatId, c.data, env.save, env.backupOk);
          Effect(None, if s.ok then SavedOk else SaveFailed, Some(s))
        else if t in NoWords then Effect(None, CreationCancelled, None)
        else Effect(entry, AskYesNo, None)
  }

  /** `procesar_callback` on the caller's entry. */
  function OnCallback(entry: Option<Conversation>, callbackData: string, user: string, now: string): Effect {
    if callbackData == "nuevo_recordatorio" then Start(user, now)
    else if callbackData == "ver_pendientes" then Effect(entry, ComingSoon, None)
    else if callbackData == "cancelar" then Effect(None, OperationCancelled, None)
    else Effect(entry, UnknownOption, None)
  }

  /** The step after `s`, and the key of `datos` the answer given at `s` fills. */
  function NextStep(s: Step): Step {
    match s
    case AskName => AskDescription
    case AskDescription => AskWhen
    case AskWhen => Confirm
    case Confirm => Confirm
  }

  function FieldOf(s: Step): string {
    match s
    case AskName => "nombre_tarea"
    case AskDescription => "descripcion"
    case AskWhen => "fecha_hora"
    case Confirm => ""
  }

  /** The keys `datos` holds at each step, when reached through the conversation. */
  function KeysAt(s: Step): set<string> {
    match s
    case AskName => {"usuario", "creado_en"}
    case AskDescription => {"usuario", "creado_en", "nombre_tarea"}
    case AskWhen => {"usuario", "creado_en", "nombre_tarea", "descripcion"}
    case Confirm => {"usuario", "creado_en", "nombre_tarea", "descripcion", "fecha_hora"}
  }

  predicate WellFormed(c: Conversation) {
    c.data.Keys == KeysAt(c.step)
  }

  /** With no entry, only a start word opens one, and it opens it at the first step. */
  lemma NoEntryOnlyStartWordOpens(chatId: string, texto: string, user: string, env: Env)
    ensures var e := OnMessage(None, chatId, texto, user, env);
      && (e.entry.Some? <==> Lower(texto) in StartWords)
      && (e.entry.Some? ==> e.entry.value == Conversation(AskName, Initial(user, env.now)) && e.reply == AskTaskName)
      && (e.entry.None? ==> e.reply == Help(user))
      && e.saved.None?
  {
  }

  /** An entry moves at most one step forward, and it is removed exactly when
      a yes-word or a no-word answers the confirmation. */
  lemma OneStepAtATime(c: Conversation, chatId: string, texto: string, user: string, env: Env)
    ensures var e := OnMessage(Some(c), chatId, texto, user, env);
      && (e.entry.None? <==> c.step == Confirm && (Lower(texto) in YesWords || Lower(texto) in NoWords))
      && (e.entry.Some? ==> e.entry.value.step in {c.step, NextStep(c.step)})
  {
  }

  /** A step writes only its own field: the name and the description are
      the text as typed; the date is None for "sin fecha" (any case) and
      otherwise the parsed text. Every other field is kept. */
  lemma WritesOnlyItsField(c: Conversation, chatId: string, texto: string, user: string, env: Env)
    requires OnMessage(Some(c), chatId, texto, user, env).entry.Some?
    ensures var c' := OnMessage(Some(c), chatId, texto, user, env).entry.value;
      && c.data.Keys <= c'.data.Keys
      && (forall k :: k in c.data && k != FieldOf(c.step) ==> c'.data[k] == c.data[k])
      && (c'.step != c.step ==> c'.data.Keys == c.data.Keys + {FieldOf(c.step)})
      && (c'.step != c.step && c.step != AskWhen ==> c'.data[FieldOf(c.step)] == PyStr(texto))
      && (c'.step != c.step && c.step == AskWhen ==>
            c'.data["fecha_hora"] == if Lower(texto) == NoDate then PyNone else PyStr(env.parseDate(texto).value))
      && (c'.step == c.step ==> c' == c)
  {
  }

  /** A date that does not parse, and a confirmation answer that is neither
      yes nor no, leave the entry exactly as it was. */
  lemma UnrecognisedAnswersChangeNothing(c: Conversation, chatId: string, texto: string, user: string, env: Env)
    requires || (c.step == AskWhen && Lower(texto) != NoDate && env.parseDate(texto).None?)
             || (c.step == Confirm && Lower(texto) !in YesWords && Lower(texto) !in NoWords)
    ensures OnMessage(Some(c), chatId, texto, user, env).entry == Some(c)
    ensures OnMessage(Some(c), chatId, texto, user, env).saved.None?
    ensures OnMessage(Some(c), chatId, texto, user, env).reply in {BadDateTime, AskYesNo}
  {
  }

  /** A record is saved only on a yes-word at the confirmation step, and the
      answer says whether `guardar_recordatorio` returned truthy. */
  lemma SavesOnlyOnYes(entry: Option<Conversation>, chatId: string, texto: string, user: string, env: Env)
    ensures var e := OnMessage(entry, chatId, texto, user, env);
      && (e.saved.Some? <==> entry.Some? && entry.value.step == Confirm && Lower(texto) in YesWords)
      && (e.saved.Some? ==> (e.reply == SavedOk <==> e.saved.value.ok) && e.entry.None?)
  {
  }

  /** Entries reached through the conversation hold exactly the fields of
      their step, whatever message comes in. */
  lemma MessageKeepsWellFormed(entry: Option<Conversation>, chatId: string, texto: string, user: string, env: Env)
    requires entry.Some? ==> WellFormed(entry.value)
    ensures var e := OnMessage(entry, chatId, texto, user, env);
      e.entry.Some? ==> WellFormed(e.entry.value)
  {
    var e := OnMessage(entry, chatId, texto, user, env);
    if entry.Some? && e.entry.Some? && e.entry.value.step != entry.value.step {
      WritesOnlyItsField(entry.value, chatId, texto, user, env);
    }
  }

  lemma CallbackKeepsWellFormed(entry: Option<Conversation>, callbackData: string, user: string, now: string)
    requires entry.Some? ==> WellFormed(entry.value)
    ensures var e := OnCallback(entry, callbackData, user, now);
      e.entry.Some? ==> WellFormed(e.entry.value)
  {
  }

  /** The record saved from a well-formed entry holds the reminder's five fields
      and the caller's chat_id, unless the remote module failed to import. */
  lemma SavedRecordIsComplete(c: Conversation, chatId: string, texto: string, user: string, env: Env)
    requires WellFormed(c)
    requires OnMessage(Some(c), chatId, texto, user, env).saved.Some?
    ensures var rec := OnMessage(Some(c), chatId, texto, user, env).saved.value.record;
      && (env.save.ImportFailed? ==> rec.Keys == KeysAt(Confirm))
      && (!env.save.ImportFailed? ==> rec.Keys == KeysAt(Confirm) + {"chat_id"} && rec["chat_id"] == PyStr(chatId))
  {
  }

  /** A full conversation from no entry to "sí" saves what was typed. */
  lemma HappyPath(chatId: string, user: string, name: string, description: string, when: string, iso: string, env: Env)
    requires Lower(when) != NoDate && env.parseDate(when) == Some(iso) && env.save.SaveReturned?
    ensures var e1 := OnMessage(None, chatId, "/recordatorio", user, env);
      var e2 := OnMessage(e1.entry, chatId, name, user, env);
      var e3 := OnMessage(e2.entry, chatId, description, user, env);
      var e4 := OnMessage(e3.entry, chatId, when, user, env);
      var e5 := OnMessage(e4.entry, chatId, "sí", user, env);
      && e5.entry.None? && e5.saved.Some?
      && e5.saved.value.record == map["usuario" := PyStr(user), "creado_en" := PyStr(env.now),
           "nombre_tarea" := PyStr(name), "descripcion" := PyStr(description),
           "fecha_hora" := PyStr(iso), "chat_id" := PyStr(chatId)]
  {
    assert Lower("/recordatorio") == "/recordatorio";
    assert Lower("sí") == "sí";
  }

  /** `conversaciones` after an effect on the entry of `chatId`. */
  function Apply(m: map<string, Conversation>, chatId: string, entry: Option<Conversation>): (r: map<string, Conversation>)
    ensures forall k :: k != chatId ==> (k in r <==> k in m) && (k in m ==> r[k] == m[k])
    ensures chatId in r <==> entry.Some?
    ensures entry.Some? ==> r[chatId] == entry.value
  {
    match entry
    case None => m - {chatId}
    case Some(c) => m[chatId := c]
  }

  function EntryOf(m: map<string, Conversation>, chatId: string): Option<Conversation> {
    if chatId in m then Some(m[chatId]) else None
  }

  /** The module-level dict `conversaciones`. */
  class ConversationTable {
    var conversations: map<string, Conversation>

    ghost predicate Valid()
      reads this
    {
      forall k :: k in conversations ==> WellFormed(conversations[k])
    }

    constructor ()
      ensures Valid() && conversations == map[]
    {
      conversations := map[];
    }

    /** `iniciar_recordatorio`: a fresh entry at the first step, replacing any. */
    method StartReminder(chatId: string, user: string, now: string) returns (reply: Reply)
      requires Valid()
      modifies this
      ensures Valid()
      ensures conversations == old(conversations)[chatId := Conversation(AskName, Initial(user, now))]
      ensures reply == AskTaskName
    {
      conversations := conversations[chatId := Conversation(AskName,
        map["usuario" := PyStr(user), "creado_en" := PyStr(now)])];
      reply := AskTaskName;
    }

    /** `procesar_mensaje`. */
    method ProcessMessage(chatId: string, texto: string, user: string, env: Env) returns (reply: Reply, saved: Option<SaveResult>)
      requires Valid()
      modifies this
      ensures Valid()
      ensures var e := OnMessage(EntryOf(old(conversations), chatId), chatId, texto, user, env);
        conversations == Apply(old(conversations), chatId, e.entry) && reply == e.reply && saved == e.saved
    /** A saved record holds the reminder's five fields, and the caller's chat_id once the remote module is loaded. */
    ensures saved.Some? ==> && (env.save.ImportFailed? ==> saved.value.record.Keys == KeysAt(Confirm))
                            && (!env.save.ImportFailed? ==> saved.value.record.Keys == KeysAt(Confirm) + {"chat_id"}
                                                            && saved.value.record["chat_id"] == PyStr(chatId))
    {
      MessageKeepsWellFormed(EntryOf(conversations, chatId), chatId, texto, user, env);
      if chatId in conversations && OnMessage(Some(conversations[chatId]), chatId, texto, user, env).saved.Some? {
        SavedRecordIsComplete(conversations[chatId], chatId, texto, user, env);
      }
      saved := None;
      var t := Lower(texto);
      if chatId !in conversations {
        if t == "/recordatorio" || t == "recordatorio" {
          reply := StartReminder(chatId, user, env.now);
        } else {
          reply := Help(user);
        }
        return;
      }
      var c := conversations[chatId];
      match c.step {
        case AskName =>
          conversations := conversations[chatId := Conversation(AskDescription, c.data["nombre_tarea" := PyStr(texto)])];
          reply := AskDescriptionText;
        case AskDescription =>
          conversations := conversations[chatId := Conversation(AskWhen, c.data["descripcion" := PyStr(texto)])];
          reply := AskDateTime;
        case AskWhen =>
          var datos := c.data;
          if t == NoDate {
            datos := datos["fecha_hora" := PyNone];
          } else {
            var fechaHora := env.parseDate(texto);
            if fechaHora.None? {
              reply := BadDateTime;
              return;
            }
            datos := datos["fecha_hora" := PyStr(fechaHora.value)];
          }
          conversations := conversations[chatId := Conversation(Confirm, datos)];
          reply := ConfirmDetails(datos);
        case Confirm =>
          if t in YesWords {
            var resultado := Save(chatId, c.data, env.save, env.backupOk);
            conversations := conversations - {chatId};
            saved := Some(resultado);
            reply := if resultado.ok then SavedOk else SaveFailed;
          } else if t in NoWords {
            conversations := conversations - {chatId};
            reply := CreationCancelled;
          } else {
            reply := AskYesNo;
          }
      }
    }

    /** `procesar_callback`. */
    method ProcessCallback(chatId: string, callbackData: string, user: string, now: string) returns (reply: Reply)
      requires Valid()
      modifies this
      ensures Valid()
      ensures var e := OnCallback(EntryOf(old(conversations), chatId), callbackData, user, now);
        conversations == Apply(old(conversations), chatId, e.entry) && reply == e.reply
    {
      CallbackKeepsWellFormed(EntryOf(conversations, chatId), callbackData, user, now);
      if callbackData == "nuevo_recordatorio" {
        reply := StartReminder(chatId, user, now);
      } else if callbackData == "ver_pendientes" {
        reply := ComingSoon;
      } else if callbackData == "cancelar" {
        if chatId in conversations {
          conversations := conversations - {chatId};
        }
        reply := OperationCancelled;
      } else {
        reply := UnknownOption;
      }
    }
  }
}
