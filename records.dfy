/**
  * The record collections behind both storage modules (src/utils/storage.js
  * and src/common/storage.js).  A collection is the sequence of its documents
  * in insertion order; `findOne({ id })` is the first document with that id.
  * A save looks the document up by id, copies the record's own fields into it
  * when it is found and inserts the whole record otherwise; a delete removes
  * the document it finds.
  */
module Records {
  import opened Wrappers

  /** A stored document: its `id`, the fields a save copies, and whatever
    * other properties the object carries (which an update leaves alone). */
  datatype Doc<F> = Doc(id: string, fields: F, extra: map<string, string>)

  /** The five fields `saveTarget` copies; a null password or key file path is `None`. */
  datatype TargetFields = TargetFields(
    name: string, host: string, username: string,
    password: Option<string>, keyfilePath: Option<string>)

  /** The six fields `saveSession` copies; an absent ignore text is `None`. */
  datatype SessionFields = SessionFields(
    name: string, targetId: string, localPath: string, remotePath: string,
    recursive: bool, fileIgnoreList: Option<string>)

  /** The three fields `saveSettings` copies. */
  datatype SettingsFields = SettingsFields(
    diffToolInvocation: string, tempFolder: string, clearTempFolder: bool)

  type Target = Doc<TargetFields>
  type Session = Doc<SessionFields>
  type Settings = Doc<SettingsFields>

  /** A session record with its target attached, as the main window hands it
    * to the synchronizer (`target` is null when the target was not found). */
  datatype SessionConfig = SessionConfig(session: Session, target: Option<Target>)

  /** No two documents share an id. */
  ghost predicate UniqueIds<F>(docs: seq<Doc<F>>)
  {
    forall i, j :: 0 <= i < j < |docs| ==> docs[i].id != docs[j].id
  }

  /** The ids present in a collection. */
  ghost function Ids<F>(docs: seq<Doc<F>>): set<string>
  {
    set k | 0 <= k < |docs| :: docs[k].id
  }

  /** The position of the first document with the given id. */
  function FindIndex<F>(docs: seq<Doc<F>>, id: string): (r: Option<nat>)
    ensures r.Some? ==> r.value < |docs| && docs[r.value].id == id
    ensures r.Some? ==> forall j :: 0 <= j < r.value ==> docs[j].id != id
    ensures r.None? ==> forall j :: 0 <= j < |docs| ==> docs[j].id != id
  {
    if docs == [] then None
    else if docs[0].id == id then Some(0)
    else match FindIndex(docs[1..], id)
      case None => None
      case Some(i) => Some(i + 1)
  }

  /** `findOne({ id })`: the first document with the id, or null. */
  function FindOne<F>(docs: seq<Doc<F>>, id: string): (r: Option<Doc<F>>)
    ensures r.Some? ==> r.value.id == id && r.value in docs
    ensures r.None? <==> id !in Ids(docs)
  {
    match FindIndex(docs, id)
    case None => None
    case Some(i) => assert docs[i].id in Ids(docs); Some(docs[i])
  }

  /** A save: copy the record's fields into the document it names, or insert the record. */
  function Upsert<F>(docs: seq<Doc<F>>, record: Doc<F>): seq<Doc<F>>
  {
    match FindIndex(docs, record.id)
    case Some(i) => docs[i := docs[i].(fields := record.fields)]
    case None => docs + [record]
  }

  /** A delete: remove the document found by id, if any. */
  function Remove<F>(docs: seq<Doc<F>>, id: string): seq<Doc<F>>
  {
    match FindIndex(docs, id)
    case Some(i) => docs[..i] + docs[i + 1..]
    case None => docs
  }

  /** The first position holding `id` is what `FindIndex` returns. */
  lemma FirstMatchAt<F>(docs: seq<Doc<F>>, id: string, i: nat)
    requires i < |docs| && docs[i].id == id
    requires forall j :: 0 <= j < i ==> docs[j].id != id
    ensures FindIndex(docs, id) == Some(i)
  {
  }

  /** After a save, looking the id up yields a document holding the saved
    * fields: the old document with its other properties kept when the id was
    * present, the whole record otherwise. */
  lemma UpsertThenFind<F>(docs: seq<Doc<F>>, record: Doc<F>)
    ensures var found := FindOne(Upsert(docs, record), record.id);
      && found.Some?
      && found.value.fields == record.fields
      && found.value == (if record.id in Ids(docs) then FindOne(docs, record.id).value.(fields := record.fields) else record)
  {
    var after := Upsert(docs, record);
    match FindIndex(docs, record.id)
    case Some(i) =>
      FirstMatchAt(after, record.id, i);
    case None =>
      FirstMatchAt(after, record.id, |docs|);
  }

  /** A save leaves every document with another id where it was, and adds
    * at most one document at the end. */
  lemma UpsertFrame<F>(docs: seq<Doc<F>>, record: Doc<F>)
    ensures var after := Upsert(docs, record);
      && |after| == |docs| + (if record.id in Ids(docs) then 0 else 1)
      && (forall j :: 0 <= j < |docs| && docs[j].id != record.id ==> after[j] == docs[j])
      && (forall j :: 0 <= j < |docs| ==> after[j].id == docs[j].id)
  {
  }

  /** Looking up any other id gives the same answer before and after a save. */
  lemma UpsertOtherIds<F>(docs: seq<Doc<F>>, record: Doc<F>, id: string)
    requires id != record.id
    ensures FindOne(Upsert(docs, record), id) == FindOne(docs, id)
  {
    var after := Upsert(docs, record);
    match FindIndex(docs, id)
    case Some(i) => FirstMatchAt(after, id, i);
    case None =>
  }

  /** Saves keep ids unique, since they insert only when the id is absent;
    * afterwards the ids are the old ones plus the saved one. */
  lemma UpsertKeepsIdsUnique<F>(docs: seq<Doc<F>>, record: Doc<F>)
    requires UniqueIds(docs)
    ensures UniqueIds(Upsert(docs, record))
    ensures Ids(Upsert(docs, record)) == Ids(docs) + {record.id}
  {
    var after := Upsert(docs, record);
    UpsertFrame(docs, record);
    if record.id in Ids(docs) {
      assert Ids(after) == Ids(docs) by {
        forall x | x in Ids(after) ensures x in Ids(docs) {
          var m :| 0 <= m < |after| && after[m].id == x;
          assert docs[m].id == x;
        }
        forall x | x in Ids(docs) ensures x in Ids(after) {
          var m :| 0 <= m < |docs| && docs[m].id == x;
          assert after[m].id == x;
        }
      }
    } else {
      assert after == docs + [record];
      assert Ids(after) == Ids(docs) + {record.id} by {
        forall x | x in Ids(after) ensures x in Ids(docs) + {record.id} {
          var m :| 0 <= m < |after| && after[m].id == x;
          if m < |docs| { assert docs[m].id == x; }
        }
        assert after[|docs|].id == record.id;
        forall x | x in Ids(docs) ensures x in Ids(after) {
          var m :| 0 <= m < |docs| && docs[m].id == x;
          assert after[m].id == x;
        }
      }
      forall i, j | 0 <= i < j < |after| ensures after[i].id != after[j].id {
        if j == |docs| {
          assert docs[i].id in Ids(docs);
        }
      }
    }
  }

  /** Saving the same record twice is the same as saving it once. */
  lemma UpsertIdempotent<F>(docs: seq<Doc<F>>, record: Doc<F>)
    ensures Upsert(Upsert(docs, record), record) == Upsert(docs, record)
  {
    var after := Upsert(docs, record);
    match FindIndex(docs, record.id)
    case Some(i) => FirstMatchAt(after, record.id, i);
    case None => FirstMatchAt(after, record.id, |docs|);
  }

  /** A delete of an absent id changes nothing; of a present one, removes
    * exactly the first document with that id and keeps the others in order. */
  lemma RemoveFrame<F>(docs: seq<Doc<F>>, id: string)
    ensures id !in Ids(docs) ==> Remove(docs, id) == docs
    ensures id in Ids(docs) ==> exists i :: 0 <= i < |docs| && docs[i].id == id && Remove(docs, id) == docs[..i] + docs[i + 1..]
  {
  }

  /** Every other id is found exactly as before a delete. */
  lemma RemoveOtherIds<F>(docs: seq<Doc<F>>, id: string, other: string)
    requires other != id
    ensures FindOne(Remove(docs, id), other) == FindOne(docs, other)
  {
    match FindIndex(docs, id)
    case None =>
    case Some(i) =>
      var after := Remove(docs, id);
      RemoveShape(docs, id, i);
      match FindIndex(docs, other)
      case Some(a) =>
        FirstMatchAt(after, other, if a < i then a else a - 1);
      case None =>
        assert forall j :: 0 <= j < |after| ==> after[j].id != other;
  }

  /** The documents after a delete: those before the one found, then those after it. */
  lemma RemoveShape<F>(docs: seq<Doc<F>>, id: string, i: nat)
    requires FindIndex(docs, id) == Some(i)
    ensures var after := Remove(docs, id);
      && |after| == |docs| - 1
      && (forall j :: 0 <= j < i ==> after[j] == docs[j])
      && (forall j :: i <= j < |after| ==> after[j] == docs[j + 1])
  {
    var front, back := docs[..i], docs[i + 1..];
    assert Remove(docs, id) == front + back;
    assert |front + back| == |docs| - 1;
    forall j | 0 <= j < i ensures (front + back)[j] == docs[j] {
      assert (front + back)[j] == front[j];
    }
    forall j | i <= j < |docs| - 1 ensures (front + back)[j] == docs[j + 1] {
      assert (front + back)[j] == back[j - i];
    }
  }

  /** With unique ids, a delete removes the id entirely and keeps ids unique. */
  lemma RemoveKeepsIdsUnique<F>(docs: seq<Doc<F>>, id: string)
    requires UniqueIds(docs)
    ensures FindOne(Remove(docs, id), id).None?
    ensures UniqueIds(Remove(docs, id))
    ensures Ids(Remove(docs, id)) == Ids(docs) - {id}
  {
    match FindIndex(docs, id)
    case None =>
    case Some(i) =>
      RemoveShape(docs, id, i);
      RemoveIds(docs, id, i);
      var after := Remove(docs, id);
      forall a, b | 0 <= a < b < |after| ensures after[a].id != after[b].id {
        var a' := if a < i then a else a + 1;
        var b' := if b < i then b else b + 1;
        assert after[a] == docs[a'] && after[b] == docs[b'] && a' < b';
      }
  }

  /** The ids after deleting the document at `i`, when it holds the only copy of its id. */
  lemma RemoveIds<F>(docs: seq<Doc<F>>, id: string, i: nat)
    requires UniqueIds(docs) && FindIndex(docs, id) == Some(i)
    ensures Ids(Remove(docs, id)) == Ids(docs) - {id}
  {
    RemoveIdsSub(docs, id, i);
    RemoveIdsSuper(docs, id, i);
  }

  lemma RemoveIdsSub<F>(docs: seq<Doc<F>>, id: string, i: nat)
    requires UniqueIds(docs) && FindIndex(docs, id) == Some(i)
    ensures Ids(Remove(docs, id)) <= Ids(docs) - {id}
  {
    var after := Remove(docs, id);
    RemoveShape(docs, id, i);
    forall x | x in Ids(after) ensures x in Ids(docs) && x != id {
      var m :| 0 <= m < |after| && after[m].id == x;
      var m' := if m < i then m else m + 1;
      assert docs[m'].id == x && m' != i;
    }
  }

  lemma RemoveIdsSuper<F>(docs: seq<Doc<F>>, id: string, i: nat)
    requires FindIndex(docs, id) == Some(i)
    ensures Ids(docs) - {id} <= Ids(Remove(docs, id))
  {
    var after := Remove(docs, id);
    RemoveShape(docs, id, i);
    forall x | x in Ids(docs) && x != id ensures x in Ids(after) {
      var m :| 0 <= m < |docs| && docs[m].id == x;
      var m' := if m < i then m else m - 1;
      assert after[m'].id == x;
    }
  }

  /** A save or a delete, as the storage modules perform them. */
  datatype StoreOp<F> = Save(doc: Doc<F>) | Delete(id: string)

  function Apply<F>(docs: seq<Doc<F>>, op: StoreOp<F>): seq<Doc<F>>
  {
    match op
    case Save(doc) => Upsert(docs, doc)
    case Delete(id) => Remove(docs, id)
  }

  /** The collection after the operations, applied left to right. */
  function ApplyAll<F>(docs: seq<Doc<F>>, ops: seq<StoreOp<F>>): seq<Doc<F>>
    decreases |ops|
  {
    if ops == [] then docs else ApplyAll(Apply(docs, ops[0]), ops[1..])
  }

  /** Ids stay unique across any sequence of saves and deletes. */
  lemma {:induction false} ApplyAllKeepsIdsUnique<F>(docs: seq<Doc<F>>, ops: seq<StoreOp<F>>)
    requires UniqueIds(docs)
    ensures UniqueIds(ApplyAll(docs, ops))
    decreases |ops|
  {
    if ops != [] {
      match ops[0] {
        case Save(doc) => UpsertKeepsIdsUnique(docs, doc);
        case Delete(id) => RemoveKeepsIdsUnique(docs, id);
      }
      ApplyAllKeepsIdsUnique(Apply(docs, ops[0]), ops[1..]);
    }
  }
}
