/**
  The document store behind both attendance screens, reduced to what the
  screens use of it: one collection of documents, each a map from field
  name to field value; a store-generated id for a new document; and a
  merging `set`. What queries return is in module LiveView.
 */
module Store {

  type Id = string

  /** An attendance record's fields. Every field the screens read or write in one is a string. */
  type Doc = map<string, string>

  /**
    One document of a query result: its document id `d.id` and its fields
    `d.data()`. The screens hold it as `{ id: d.id, ...d.data() }`, whose `id`
    is `RecordId`.
   */
  datatype Entry = Entry(id: Id, data: Doc)

  /**
    The `id` of `{ id: d.id, ...d.data() }`. The spread comes second, so a
    stored field named `id` replaces the document id.
   */
  function RecordId(e: Entry): Id {
    if "id" in e.data then e.data["id"] else e.id
  }

  /** A write with `{ merge: true }`: the written fields replace, all others stay. */
  function Merge(current: Doc, data: Doc): (r: Doc)
    ensures r.Keys == current.Keys + data.Keys
    ensures forall f :: f in data ==> r[f] == data[f]
    ensures forall f :: f in current && f !in data ==> r[f] == current[f]
  {
    current + data
  }

  /** Merge-writing `data` into document `id`, creating it when absent. */
  function Upsert(docs: map<Id, Doc>, id: Id, data: Doc): (r: map<Id, Doc>)
    ensures r.Keys == docs.Keys + {id}
    ensures id in docs ==> r[id] == Merge(docs[id], data)
    ensures id !in docs ==> r[id] == data
    ensures forall k :: k in docs && k != id ==> r[k] == docs[k]
  {
    docs[id := Merge(if id in docs then docs[id] else map[], data)]
  }

  /** Writing the same data twice in a row is the same as writing it once. */
  lemma UpsertIdempotent(docs: map<Id, Doc>, id: Id, data: Doc)
    ensures Upsert(Upsert(docs, id, data), id, data) == Upsert(docs, id, data)
  {
    var once := Upsert(docs, id, data);
    assert Merge(once[id], data) == once[id];
  }

  /** A string longer than every member of `ids`, so not one of them. */
  ghost function LongerThanAll(ids: set<Id>): (r: Id)
    ensures forall k :: k in ids ==> |k| < |r|
    decreases ids
  {
    if ids == {} then "x"
    else
      var k :| k in ids;
      var rest := LongerThanAll(ids - {k});
      if |k| < |rest| then rest else k + "x"
  }

  lemma FreshIdExists(ids: set<Id>)
    ensures exists id :: id !in ids
  {
    var r := LongerThanAll(ids);
    assert r !in ids;
  }

  /**
    Firestore's view of one collection. The screens write through `SetMerge`
    and obtain new ids through `NewDocId`; both hold in memory what the store
    holds remotely.
   */
  class Collection {
    var docs: map<Id, Doc>

    constructor (initial: map<Id, Doc>)
      ensures docs == initial
    {
      docs := initial;
    }

    /** `doc(collection(db, name))`: a reference under a new, unused id. */
    method NewDocId() returns (id: Id)
      ensures id !in docs
    {
      FreshIdExists(docs.Keys);
      id :| id !in docs;
    }

    /**
      `setDocumentNonBlocking(ref, data, { merge: true })`, taken as one
      atomic write that either lands or throws. `fails` stands for the write
      throwing; a failed write changes nothing.
     */
    method SetMerge(id: Id, data: Doc, fails: bool) returns (ok: bool)
      modifies this
      ensures ok == !fails
      ensures docs == if ok then Upsert(old(docs), id, data) else old(docs)
    {
      ok := !fails;
      if ok {
        docs := Upsert(docs, id, data);
      }
    }
  }
}
