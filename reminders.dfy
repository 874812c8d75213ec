/**
  The rows of the local SQLite cache (`recordatorios`, `bajas_pendientes`,
  `chats_info`) and the three ways a row is built from Python data: from the
  dict the bot saves, from a remote row during pull, and from a remote row
  during the bulk import. Each builder returns None exactly when the SQLite
  statement would raise (a missing key, a NULL in a NOT NULL column, or a
  value sqlite3 cannot bind).
 */
module Reminders {
  import opened Wrappers
  import opened PyValues

  /** The `sync_status` column. */
  datatype SyncStatus = Pending | PendingUpdate | Synced | Failed

  /** A value as sqlite3 binds it. */
  datatype SqlValue = Null | Integer(i: int) | Text(t: string)

  /** sqlite3 refuses to bind dicts and lists. */
  predicate Bindable(v: PyValue) {
    !v.PyCollection?
  }

  /** How sqlite3 binds a Python value (a bool becomes 0 or 1). */
  function Bind(v: PyValue): SqlValue
    requires Bindable(v)
  {
    match v
    case PyNone => Null
    case PyBool(b) => Integer(if b then 1 else 0)
    case PyInt(i) => Integer(i)
    case PyStr(s) => Text(s)
  }

  /** What a column declared TEXT keeps: NULL, or text (numbers become their digits). */
  function TextColumn(v: PyValue): Option<string>
    requires Bindable(v)
  {
    match Bind(v)
    case Null => None
    case Integer(i) => Some(IntToDecimal(i))
    case Text(t) => Some(t)
  }

  /** One row of `recordatorios` (column names in the comments). */
  datatype Reminder = Reminder(
    chatId: string,                  // chat_id TEXT NOT NULL
    user: Option<string>,            // usuario
    taskName: string,                // nombre_tarea TEXT NOT NULL
    description: Option<string>,     // descripcion
    scheduledAt: Option<string>,     // fecha_hora
    createdAt: Option<string>,       // creado_en
    notified: bool,                  // notificado
    utcFormat: bool,                 // es_formato_utc
    constantAlert: bool,             // aviso_constante
    alertStopped: bool,              // aviso_detenido
    repeat: bool,                    // repetir
    repeatInterval: Option<string>,  // intervalo_repeticion
    intervals: SqlValue,             // intervalos
    repetitionCreated: bool,         // repeticion_creada
    remoteId: Option<int>,           // supabase_id
    syncStatus: SyncStatus,          // sync_status
    lastUpdated: string)             // last_updated

  /** One row of `bajas_pendientes`: a local delete the remote has not confirmed. */
  datatype PendingDeletion = PendingDeletion(
    id: int,                 // id (AUTOINCREMENT)
    table: string,           // tabla
    localId: int,            // registro_id
    remoteId: Option<int>,   // supabase_id
    deletedAt: string)       // fecha_eliminacion

  /** One row of `chats_info`, keyed by chat_id. */
  datatype ChatInfo = ChatInfo(
    name: Option<string>,      // nombre
    kind: Option<string>,      // tipo
    timeZone: Option<string>,  // zona_horaria
    createdAt: Option<string>, // creado_en
    syncStatus: SyncStatus,
    lastUpdated: string)

  /** A Python dict with string keys. */
  type Fields = map<string, PyValue>

  /** `d.get(key)` */
  function Get(d: Fields, key: string): PyValue {
    if key in d then d[key] else PyNone
  }

  /** `d.get(key, default)` */
  function GetOr(d: Fields, key: string, default: PyValue): PyValue {
    if key in d then d[key] else default
  }

  /** `1 if d.get(key) else 0` */
  predicate Flag(d: Fields, key: string) {
    Truthy(Get(d, key))
  }

  /** The words `repetir` accepts once lower-cased. */
  const RepeatWords: seq<string> := ["true", "si", "yes", "y"]

  /** How `repetir` is normalised before it is stored: a bool is kept, a
      string counts when its lower case is one of RepeatWords, and anything
      else (None, a number, a list) is 0. */
  function RepeatFlag(v: PyValue): bool {
    match v
    case PyBool(b) => b
    case PyStr(s) => Lower(s) in RepeatWords
    case _ => false
  }

  /** `repetir` strings are compared case-insensitively... */
  lemma RepeatFlagIgnoresCase(s: string)
    ensures RepeatFlag(PyStr(s)) == RepeatFlag(PyStr(Lower(s)))
  {
    LowerIdempotent(s);
  }

  /** ...and are not Python truthiness: "no" is a non-empty string yet not a
      repeat, and the int 1 is truthy yet not a repeat either. */
  lemma RepeatFlagIsNotTruthiness()
    ensures Truthy(PyStr("no")) && !RepeatFlag(PyStr("no"))
    ensures Truthy(PyInt(1)) && !RepeatFlag(PyInt(1))
    ensures RepeatFlag(PyStr("YES")) && RepeatFlag(PyStr("Si"))
  {
    assert Lower("no") == "no";
    assert Lower("YES") == "yes";
    assert Lower("Si") == "si";
  }

  /** The row `_guardar_recordatorio_local` inserts for the dict `d`, or None
      when the INSERT raises: `d["chat_id"]`, `d["usuario"]` or
      `d["nombre_tarea"]` is missing, nombre_tarea is None (NOT NULL), or a
      bound value is a dict or list. A fresh row never has a supabase_id. */
  function SaveRow(d: Fields, status: SyncStatus, now: string): (r: Option<Reminder>)
    ensures r.Some? ==> r.value.remoteId.None? && r.value.syncStatus == status
    ensures r.Some? <==>
      && "chat_id" in d && "usuario" in d && "nombre_tarea" in d
      && d["nombre_tarea"] != PyNone
      && Bindable(d["usuario"]) && Bindable(d["nombre_tarea"])
      && Bindable(Get(d, "descripcion")) && Bindable(Get(d, "fecha_hora"))
      && Bindable(Get(d, "creado_en"))
      && Bindable(GetOr(d, "intervalo_repeticion", PyStr("")))
      && Bindable(GetOr(d, "intervalos", PyInt(0)))
  {
    if "chat_id" !in d || "usuario" !in d || "nombre_tarea" !in d then None
    else
      var interval := GetOr(d, "intervalo_repeticion", PyStr(""));
      var intervals := GetOr(d, "intervalos", PyInt(0));
      if !(Bindable(d["usuario"]) && Bindable(d["nombre_tarea"]) && Bindable(Get(d, "descripcion"))
           && Bindable(Get(d, "fecha_hora")) && Bindable(Get(d, "creado_en"))
           && Bindable(interval) && Bindable(intervals))
      then None
      else match TextColumn(d["nombre_tarea"])
        case None => None
        case Some(name) =>
          Some(Reminder(
            Str(d["chat_id"]), TextColumn(d["usuario"]), name,
            TextColumn(Get(d, "descripcion")), TextColumn(Get(d, "fecha_hora")),
            TextColumn(Get(d, "creado_en")),
            Flag(d, "notificado"), Flag(d, "es_formato_utc"), Flag(d, "aviso_constante"),
            Flag(d, "aviso_detenido"), RepeatFlag(Get(d, "repetir")),
            TextColumn(interval), Bind(intervals), Flag(d, "repeticion_creada"),
            None, status, now))
  }

  /** A row of the remote `recordatorios` table: its id and its columns. */
  datatype RemoteRow = RemoteRow(id: int, fields: Fields)

  /** The columns every statement built from a remote row reads with `rem[...]`. */
  predicate HasRequiredKeys(rem: RemoteRow) {
    "chat_id" in rem.fields && "usuario" in rem.fields && "nombre_tarea" in rem.fields
  }

  /** The values pull binds for a remote row are all bindable and nombre_tarea is not NULL. */
  predicate PullWritable(rem: RemoteRow, withCreatedAt: bool) {
    && HasRequiredKeys(rem)
    && rem.fields["nombre_tarea"] != PyNone
    && Bindable(rem.fields["usuario"]) && Bindable(rem.fields["nombre_tarea"])
    && Bindable(Get(rem.fields, "descripcion")) && Bindable(Get(rem.fields, "fecha_hora"))
    && (withCreatedAt ==> Bindable(Get(rem.fields, "creado_en")))
    && Bindable(Get(rem.fields, "intervalo_repeticion")) && Bindable(Get(rem.fields, "intervalos"))
  }

  /** The row pull inserts for a remote row no local row matches
      (database_manager.py:602-617), or None when the INSERT raises. */
  function PulledRow(rem: RemoteRow, now: string): (r: Option<Reminder>)
    ensures r.Some? <==> PullWritable(rem, true)
    ensures r.Some? ==> r.value.remoteId == Some(rem.id) && r.value.syncStatus == Synced
  {
    if !PullWritable(rem, true) then None
    else
      var f := rem.fields;
      match TextColumn(f["nombre_tarea"])
      case None => None
      case Some(name) =>
        Some(Reminder(
          Str(f["chat_id"]), TextColumn(f["usuario"]), name,
          TextColumn(Get(f, "descripcion")), TextColumn(Get(f, "fecha_hora")),
          TextColumn(Get(f, "creado_en")),
          Flag(f, "notificado"), Flag(f, "es_formato_utc"), Flag(f, "aviso_constante"),
          Flag(f, "aviso_detenido"), Flag(f, "repetir"),
          TextColumn(Get(f, "intervalo_repeticion")), Bind(Get(f, "intervalos")),
          Flag(f, "repeticion_creada"), Some(rem.id), Synced, now))
  }

  /** The three flags that may only go from 0 to 1. */
  datatype MonotonicFlags = MonotonicFlags(notified: bool, alertStopped: bool, repetitionCreated: bool)

  function FlagsOf(r: Reminder): MonotonicFlags {
    MonotonicFlags(r.notified, r.alertStopped, r.repetitionCreated)
  }

  /** The UPDATE pull applies to a synced local row (database_manager.py:571-591),
      given the local flag values it merges with; None when it raises.
      Descriptive columns come from the remote; id, creado_en and supabase_id
      stay; each monotonic flag is the max of the given local value and the
      remote one. */
  function MergedRow(local: Reminder, rem: RemoteRow, localFlags: MonotonicFlags, now: string): (r: Option<Reminder>)
    ensures r.Some? <==> PullWritable(rem, false)
    ensures r.Some? ==> r.value.createdAt == local.createdAt && r.value.remoteId == local.remoteId
    ensures r.Some? ==> r.value.syncStatus == Synced
  {
    if !PullWritable(rem, false) then None
    else
      var f := rem.fields;
      match TextColumn(f["nombre_tarea"])
      case None => None
      case Some(name) =>
        Some(local.(
          chatId := Str(f["chat_id"]), user := TextColumn(f["usuario"]), taskName := name,
          description := TextColumn(Get(f, "descripcion")), scheduledAt := TextColumn(Get(f, "fecha_hora")),
          notified := localFlags.notified || Flag(f, "notificado"),
          utcFormat := Flag(f, "es_formato_utc"), constantAlert := Flag(f, "aviso_constante"),
          alertStopped := localFlags.alertStopped || Flag(f, "aviso_detenido"),
          repeat := Flag(f, "repetir"),
          repeatInterval := TextColumn(Get(f, "intervalo_repeticion")), intervals := Bind(Get(f, "intervalos")),
          repetitionCreated := localFlags.repetitionCreated || Flag(f, "repeticion_creada"),
          syncStatus := Synced, lastUpdated := now))
  }

  /** The values the bulk import binds for a remote row are all bindable and
      nombre_tarea is not NULL; only chat_id and nombre_tarea are read with `rem[...]`. */
  predicate ImportWritable(rem: RemoteRow) {
    var f := rem.fields;
    && "chat_id" in f && "nombre_tarea" in f
    && f["nombre_tarea"] != PyNone
    && Bindable(Get(f, "usuario")) && Bindable(f["nombre_tarea"])
    && Bindable(Get(f, "descripcion")) && Bindable(Get(f, "fecha_hora"))
    && Bindable(Get(f, "creado_en"))
    && Bindable(Get(f, "intervalo_repeticion")) && Bindable(Get(f, "intervalos"))
  }

  /** The row values the bulk import writes for a remote row
      (importar_datos.py:104-122), or None when the statement raises. Every
      column, creado_en included, comes from the remote, with flags by
      truthiness and no merge with the local values. */
  function ImportedRow(rem: RemoteRow, now: string): (r: Option<Reminder>)
    ensures r.Some? <==> ImportWritable(rem)
    ensures r.Some? ==> r.value.remoteId == Some(rem.id) && r.value.syncStatus == Synced
  {
    if !ImportWritable(rem) then None
    else
      var f := rem.fields;
      match TextColumn(f["nombre_tarea"])
      case None => None
      case Some(name) =>
        Some(Reminder(
          Str(f["chat_id"]), TextColumn(Get(f, "usuario")), name,
          TextColumn(Get(f, "descripcion")), TextColumn(Get(f, "fecha_hora")),
          TextColumn(Get(f, "creado_en")),
          Flag(f, "notificado"), Flag(f, "es_formato_utc"), Flag(f, "aviso_constante"),
          Flag(f, "aviso_detenido"), Flag(f, "repetir"),
          TextColumn(Get(f, "intervalo_repeticion")), Bind(Get(f, "intervalos")),
          Flag(f, "repeticion_creada"), Some(rem.id), Synced, now))
  }
}
