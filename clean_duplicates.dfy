/**
  The duplicate cleaner for the remote `recordatorios` table: rows fetched
  oldest first (by creado_en, at most 3000) are grouped by the text
  `chat_id_nombre_tarea_fecha_hora`; the first row of each group is kept
  and the ids of the others are deleted remotely in batches of 100.
 */
module CleanDuplicates {
  import opened PyValues
  import opened Reminders
  import opened Tables
  import opened Grouping

  const FetchLimit: nat := 3000
  const ChunkSize: nat := 100

  // ---------------------------------------------------------------------
  // The grouping key

  /** The columns the key reads with `r[...]`. */
  predicate HasKeyColumns(r: RemoteRow) {
    "chat_id" in r.fields && "nombre_tarea" in r.fields && "fecha_hora" in r.fields
  }

  predicate AllKeyed(rs: seq<RemoteRow>) {
    forall i :: 0 <= i < |rs| ==> HasKeyColumns(rs[i])
  }

  /** `f"{chat_id}_{nombre_tarea}_{fecha_hora}"`. */
  function Key(r: RemoteRow): string
    requires HasKeyColumns(r)
  {
    Str(r.fields["chat_id"]) + "_" + Str(r.fields["nombre_tarea"]) + "_" + Str(r.fields["fecha_hora"])
  }

  /** Two rows for different chats and different tasks share a key once a
      field contains the separator, so one of them is taken for a duplicate. */
  lemma KeyCollides()
    ensures var a := RemoteRow(1, map["chat_id" := PyStr("7_a"), "nombre_tarea" := PyStr("b"), "fecha_hora" := PyStr("t")]);
            var b := RemoteRow(2, map["chat_id" := PyStr("7"), "nombre_tarea" := PyStr("a_b"), "fecha_hora" := PyStr("t")]);
            && a.fields["chat_id"] != b.fields["chat_id"] && a.fields["nombre_tarea"] != b.fields["nombre_tarea"]
            && Key(a) == Key(b)
  {
    var a := RemoteRow(1, map["chat_id" := PyStr("7_a"), "nombre_tarea" := PyStr("b"), "fecha_hora" := PyStr("t")]);
    var b := RemoteRow(2, map["chat_id" := PyStr("7"), "nombre_tarea" := PyStr("a_b"), "fecha_hora" := PyStr("t")]);
    assert Key(a) == "7_a_b_t";
    assert Key(b) == "7_a_b_t";
  }

  /** The key of a row with the three columns; the script never computes
      it for another row, since `r['...']` raises first. */
  function KeyOf(r: RemoteRow): string {
    if HasKeyColumns(r) then Key(r) else ""
  }

  /** The rows whose ids go into `eliminar_ids`, in that order. */
  function DupRows(rs: seq<RemoteRow>): seq<RemoteRow> {
    AllButFirst(rs, KeyOf)
  }

  function Ids(rows: seq<RemoteRow>): (ids: seq<int>)
    ensures |ids| == |rows| && forall k :: 0 <= k < |rows| ==> ids[k] == rows[k].id
  {
    seq(|rows|, k requires 0 <= k < |rows| => rows[k].id)
  }

  lemma IdsAppend(a: seq<RemoteRow>, b: seq<RemoteRow>)
    ensures Ids(a + b) == Ids(a) + Ids(b)
  {
    assert forall k :: 0 <= k < |a + b| ==> Ids(a + b)[k] == (Ids(a) + Ids(b))[k];
  }

  /** Row ids are the remote table's primary key. */
  predicate UniqueIds(rs: seq<RemoteRow>) {
    forall i, j :: 0 <= i < j < |rs| ==> rs[i].id != rs[j].id
  }

  /** As many ids are deleted as there are rows beyond one per group. */
  lemma DeleteCount(rs: seq<RemoteRow>)
    ensures |Ids(DupRows(rs))| == |rs| - |KeysOf(rs, KeyOf)|
  {
    AllButFirstCount(rs, KeyOf);
  }

  /** The first row with each key is kept, and every later row whose key an
      earlier row has is deleted. */
  lemma KeepsFirstOfEachKey(rs: seq<RemoteRow>, i: nat)
    requires UniqueIds(rs) && i < |rs|
    ensures rs[i].id in Ids(DupRows(rs)) <==> KeyOf(rs[i]) in KeysOf(rs[..i], KeyOf)
  {
    assert NoRepeats(rs) by {
      forall a, b | 0 <= a < b < |rs| ensures rs[a] != rs[b] {
        assert rs[a].id != rs[b].id;
      }
    }
    FirstOfEachGroupStays(rs, KeyOf, i);
    var dups := DupRows(rs);
    LaterOfWithin(rs, KeyOf, KeysOf(rs, KeyOf));
    if rs[i].id in Ids(dups) {
      var k :| 0 <= k < |dups| && Ids(dups)[k] == rs[i].id;
      assert dups[k] in rs;
      var j :| 0 <= j < |rs| && rs[j] == dups[k];
      assert rs[j].id == rs[i].id;
      assert j == i;
    }
    if rs[i] in dups {
      var k :| 0 <= k < |dups| && dups[k] == rs[i];
      assert Ids(dups)[k] == rs[i].id;
    }
  }

  /** No delete call is needed exactly when no two rows share a key. */
  lemma NothingToDelete(rs: seq<RemoteRow>)
    ensures Ids(DupRows(rs)) == [] <==> forall i, j :: 0 <= i < j < |rs| ==> KeyOf(rs[i]) != KeyOf(rs[j])
  {
    NothingLeftOver(rs, KeyOf);
  }

  // ---------------------------------------------------------------------
  // The script

  /** How a run ends: nothing fetched, a KeyError on a missing column, no
      duplicate, or the delete list and the ids of the batches that went through. */
  datatype CleanOutcome = NoRecords | Aborted | NoDuplicates | Cleaned(deleteIds: seq<int>, removed: seq<int>)

  /** The fetch: the table in creado_en order, cut at the limit. */
  function Fetched(ordered: seq<RemoteRow>): (rs: seq<RemoteRow>)
    ensures |rs| <= FetchLimit && rs <= ordered
    ensures |ordered| <= FetchLimit ==> rs == ordered
  {
    ordered[..Min(|ordered|, FetchLimit)]
  }

  /** The grouping loop; it stops with `ok` false where `r['...']` raises. */
  method GroupRecords(rs: seq<RemoteRow>) returns (ok: bool, keys: seq<string>, groups: map<string, seq<RemoteRow>>)
    ensures ok <==> AllKeyed(rs)
    ensures ok ==> GroupsOf(rs, keys, groups)
  {
    keys := [];
    groups := map[];
    for i := 0 to |rs|
      invariant AllKeyed(rs[..i])
      invariant GroupsOf(rs[..i], keys, groups)
    {
      if !HasKeyColumns(rs[i]) {
        return false, keys, groups;
      }
      KeyedStep(rs, i);
      keys, groups := AddRow(rs[..i], rs[i], keys, groups);
    }
    WholePrefix(rs);
    ok := true;
  }

  /** `keys` and `groups` are the dictionary built from `rs`. */
  ghost predicate GroupsOf(rs: seq<RemoteRow>, keys: seq<string>, groups: map<string, seq<RemoteRow>>) {
    IsGrouping(rs, KeyOf, keys, groups)
  }

  /** One pass of the grouping loop: `grupos[clave].append(r)`, creating the
      list first when the key is new. */
  method AddRow(rs: seq<RemoteRow>, r: RemoteRow, keys: seq<string>, groups: map<string, seq<RemoteRow>>)
    returns (keys': seq<string>, groups': map<string, seq<RemoteRow>>)
    requires HasKeyColumns(r) && GroupsOf(rs, keys, groups)
    ensures GroupsOf(rs + [r], keys', groups')
  {
    GroupingStep(rs, KeyOf, r, keys, groups);
    var clave := Key(r);
    var lista: seq<RemoteRow>;
    if clave in groups {
      keys', lista := keys, groups[clave];
    } else {
      keys', lista := keys + [clave], [];
    }
    groups' := groups[clave := lista + [r]];
  }

  lemma KeyedStep(rs: seq<RemoteRow>, i: nat)
    requires i < |rs| && AllKeyed(rs[..i]) && HasKeyColumns(rs[i])
    ensures rs[..i + 1] == rs[..i] + [rs[i]]
    ensures AllKeyed(rs[..i + 1])
  {
    assert rs[..i + 1] == rs[..i] + [rs[i]];
  }

  /** The marking loop: for each group of more than one row, the ids after
      the first; it stops with `ok` false where `d['creado_en']` raises. */
  method MarkDuplicates(rs: seq<RemoteRow>, keys: seq<string>, groups: map<string, seq<RemoteRow>>)
    returns (ok: bool, eliminar: seq<int>)
    requires GroupsOf(rs, keys, groups)
    ensures ok <==> forall x :: x in DupRows(rs) ==> "creado_en" in x.fields
    ensures ok ==> eliminar == Ids(DupRows(rs))
  {
    eliminar := [];
    for j := 0 to |keys|
      invariant eliminar == Ids(LaterOf(rs, KeyOf, keys[..j]))
      invariant forall x :: x in LaterOf(rs, KeyOf, keys[..j]) ==> "creado_en" in x.fields
    {
      var lista := groups[keys[j]];
      MarkStep(rs, keys, j);
      if |lista| > 1 {
        var marked, ids := MarkGroup(lista[1..]);
        if !marked {
          var d :| d in lista[1..] && "creado_en" !in d.fields;
          OutsidePrefix(rs, keys, j, d);
          return false, eliminar + ids;
        }
        eliminar := eliminar + ids;
      }
      IdsAppend(LaterOf(rs, KeyOf, keys[..j]), Tail(lista));
    }
    WholePrefix(keys);
    ok := true;
  }

  /** The inner loop over `lista[1:]`: each id is appended, and the print
      that follows reads `d['creado_en']`. */
  method MarkGroup(duplicados: seq<RemoteRow>) returns (ok: bool, ids: seq<int>)
    ensures ok <==> forall x :: x in duplicados ==> "creado_en" in x.fields
    ensures ok ==> ids == Ids(duplicados)
  {
    ids := [];
    for m := 0 to |duplicados|
      invariant ids == Ids(duplicados[..m])
      invariant forall x :: x in duplicados[..m] ==> "creado_en" in x.fields
    {
      var d := duplicados[m];
      assert duplicados[..m + 1] == duplicados[..m] + [d];
      ids := ids + [d.id];
      if "creado_en" !in d.fields {
        return false, ids;
      }
    }
    WholePrefix(duplicados);
    ok := true;
  }

  lemma MarkStep(rs: seq<RemoteRow>, keys: seq<string>, j: nat)
    requires j < |keys|
    ensures LaterOf(rs, KeyOf, keys[..j + 1]) == LaterOf(rs, KeyOf, keys[..j]) + Tail(Group(rs, KeyOf, keys[j]))
  {
    assert keys[..j + 1] == keys[..j] + [keys[j]];
    LaterOfSplit(rs, KeyOf, keys[..j], [keys[j]]);
  }

  lemma OutsidePrefix(rs: seq<RemoteRow>, keys: seq<string>, j: nat, d: RemoteRow)
    requires keys == KeysOf(rs, KeyOf) && j < |keys|
    requires d in Tail(Group(rs, KeyOf, keys[j]))
    ensures d in DupRows(rs)
  {
    InLaterOf(rs, KeyOf, keys, j, d);
  }

  /** The chunk loop: one DELETE per batch of 100 ids; a failing batch is
      reported and the loop goes on. */
  method DeleteInBatches(eliminar: seq<int>, chunkOk: nat -> bool) returns (removed: seq<int>)
    ensures removed == Selected(Chunks(eliminar, ChunkSize), chunkOk)
  {
    var batches := Chunks(eliminar, ChunkSize);
    removed := [];
    for k := 0 to |batches|
      invariant removed == Selected(batches[..k], chunkOk)
    {
      assert batches[..k + 1][..k] == batches[..k];
      assert batches[..k + 1][k] == batches[k];
      if chunkOk(k) {
        removed := removed + batches[k];
      }
    }
    WholePrefix(batches);
  }

  /** The batches have at most 100 ids and cover the delete list in order;
      an id is removed exactly when a batch holding it went through, so a
      failing batch does not stop the later ones. */
  lemma CleanBatches(eliminar: seq<int>, chunkOk: nat -> bool, id: int)
    ensures var cs := Chunks(eliminar, ChunkSize);
      && Flatten(cs) == eliminar
      && (forall k :: 0 <= k < |cs| ==> 0 < |cs[k]| <= ChunkSize)
      && (id in Selected(cs, chunkOk) <==> exists k: nat :: k < |cs| && chunkOk(k) && id in cs[k])
  {
    ChunksFlatten(eliminar, ChunkSize);
    SelectedMembers(Chunks(eliminar, ChunkSize), chunkOk, id);
  }

  /** `limpiar_duplicados`: `ordered` is the remote table in creado_en order,
      `chunkOk(k)` whether the DELETE of batch `k` goes through. */
  method CleanDuplicates(ordered: seq<RemoteRow>, chunkOk: nat -> bool) returns (outcome: CleanOutcome)
    ensures var rs := Fetched(ordered);
      && (rs == [] ==> outcome == NoRecords)
      && (rs != [] && !AllKeyed(rs) ==> outcome == Aborted)
      && (rs != [] && AllKeyed(rs) ==>
            var dups := DupRows(rs);
            && (!(forall x :: x in dups ==> "creado_en" in x.fields) ==> outcome == Aborted)
            && ((forall x :: x in dups ==> "creado_en" in x.fields) && dups == [] ==> outcome == NoDuplicates)
            && ((forall x :: x in dups ==> "creado_en" in x.fields) && dups != [] ==>
                  outcome == Cleaned(Ids(dups), Selected(Chunks(Ids(dups), ChunkSize), chunkOk))))
  {
    var recordatorios := Fetched(ordered);
    if recordatorios == [] {
      return NoRecords;
    }
    var ok, keys, groups := GroupRecords(recordatorios);
    if !ok {
      return Aborted;
    }
    var marked, eliminar := MarkDuplicates(recordatorios, keys, groups);
    if !marked {
      return Aborted;
    }
    if eliminar == [] {
      return NoDuplicates;
    }
    var removed := DeleteInBatches(eliminar, chunkOk);
    outcome := Cleaned(eliminar, removed);
  }
}
