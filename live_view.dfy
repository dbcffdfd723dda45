/**
  What a screen holds of the store: the result of an equality query, listed
  in the order the store delivers it, and a `Map` built from that list. The
  lemmas here are the reuse-or-create rule both screens follow when they
  write: look the record up in the view, reuse its id if found, take a new
  id otherwise.
 */
module LiveView {
  import opened Store

  /** The entry carries field `f` with value `v`. */
  predicate HasField(e: Entry, f: string, v: string) {
    f in e.data && e.data[f] == v
  }

  /**
    `snap` lists the documents of `docs`, each exactly once, in whatever
    order the store delivers a query's results.
   */
  ghost predicate IsSnapshot(snap: seq<Entry>, docs: map<Id, Doc>) {
    && (forall i :: 0 <= i < |snap| ==> snap[i].id in docs && docs[snap[i].id] == snap[i].data)
    && (forall id :: id in docs ==> Entry(id, docs[id]) in snap)
    && (forall i, j :: 0 <= i < j < |snap| ==> snap[i].id != snap[j].id)
  }

  /** `where(f, '==', v)`: the entries carrying `f == v`, in their listed order. */
  function Where(s: seq<Entry>, f: string, v: string): (r: seq<Entry>)
    ensures |r| <= |s|
    ensures forall e :: e in r ==> e in s && HasField(e, f, v)
    decreases |s|
  {
    if s == [] then []
    else (if HasField(s[0], f, v) then [s[0]] else []) + Where(s[1..], f, v)
  }

  lemma {:induction false} WhereMembers(s: seq<Entry>, f: string, v: string)
    ensures forall e :: e in Where(s, f, v) <==> e in s && HasField(e, f, v)
    decreases |s|
  {
    if s != [] {
      WhereMembers(s[1..], f, v);
      assert s == [s[0]] + s[1..];
    }
  }

  /**
    `new Map(list.map(a => [a[f], a]))`: the entries keyed by field `f`, a
    later entry replacing an earlier one with the same key. An entry without
    `f` is keyed under `undefined`, which no string lookup reaches, so it is
    left out.
   */
  function IndexBy(s: seq<Entry>, f: string): (r: map<string, Entry>)
    ensures forall k :: k in r ==> r[k] in s && HasField(r[k], f, k)
    decreases |s|
  {
    if s == [] then map[]
    else
      var init := s[..|s| - 1];
      var m := IndexBy(init, f);
      var last := s[|s| - 1];
      assert forall e :: e in init ==> e in s;
      if f in last.data then m[last.data[f] := last] else m
  }

  /** A key is present exactly when some entry carries it. */
  lemma {:induction false} IndexByKeys(s: seq<Entry>, f: string, k: string)
    ensures k in IndexBy(s, f) <==> exists i :: 0 <= i < |s| && HasField(s[i], f, k)
    decreases |s|
  {
    if s != [] {
      var init := s[..|s| - 1];
      IndexByKeys(init, f, k);
      if k in IndexBy(init, f) {
        var i :| 0 <= i < |init| && HasField(init[i], f, k);
        assert s[i] == init[i];
      }
      if exists i :: 0 <= i < |s| && HasField(s[i], f, k) {
        var i :| 0 <= i < |s| && HasField(s[i], f, k);
        if i < |s| - 1 {
          assert init[i] == s[i];
        }
      }
    }
  }

  /**
    The entry found under a key is one of the listed entries, it carries the
    key, and no later entry carries the same key: the last duplicate wins.
   */
  lemma {:induction false} IndexByLastWins(s: seq<Entry>, f: string, k: string)
    requires k in IndexBy(s, f)
    ensures exists i :: 0 <= i < |s| && s[i] == IndexBy(s, f)[k] && HasField(s[i], f, k)
              && forall j :: i < j < |s| ==> !HasField(s[j], f, k)
    decreases |s|
  {
    var init := s[..|s| - 1];
    var last := s[|s| - 1];
    if HasField(last, f, k) {
      assert IndexBy(s, f)[k] == last;
    } else {
      assert IndexBy(s, f) == IndexBy(init, f)
        || (f in last.data && IndexBy(s, f) == IndexBy(init, f)[last.data[f] := last]);
      IndexByLastWins(init, f, k);
      var i :| 0 <= i < |init| && init[i] == IndexBy(init, f)[k] && HasField(init[i], f, k)
                && forall j :: i < j < |init| ==> !HasField(init[j], f, k);
      assert s[i] == init[i];
      forall j | i < j < |s| ensures !HasField(s[j], f, k) {
        if j < |s| - 1 {
          assert s[j] == init[j];
        }
      }
    }
  }

  /** `d` satisfies every `where(f, '==', v)` for `f := v` in `filter`. */
  predicate MatchesAll(d: Doc, filter: map<string, string>) {
    forall f :: f in filter ==> f in d && d[f] == filter[f]
  }

  /** `view` is what the query `filter` returns from the listing `snap`. */
  ghost predicate SelectedBy(view: seq<Entry>, snap: seq<Entry>, filter: map<string, string>) {
    forall e :: e in view <==> e in snap && MatchesAll(e.data, filter)
  }

  /** Both documents carry every field of `key`, with equal values. */
  predicate SameKey(a: Doc, b: Doc, key: set<string>) {
    forall f :: f in key ==> f in a && f in b && a[f] == b[f]
  }

  /** At most one document per value of the logical key `key`. */
  ghost predicate OnePerKey(docs: map<Id, Doc>, key: set<string>) {
    forall i, j :: i in docs && j in docs && SameKey(docs[i], docs[j], key) ==> i == j
  }

  /**
    No stored document has a field named `id`, so none has its document id
    replaced in the view (`RecordId`).
   */
  ghost predicate NoIdField(docs: map<Id, Doc>) {
    forall d :: d in docs ==> "id" !in docs[d]
  }

  /** A write that carries no `id` field keeps every stored document free of one. */
  lemma UpsertKeepsNoIdField(docs: map<Id, Doc>, t: Id, data: Doc)
    requires NoIdField(docs) && "id" !in data
    ensures NoIdField(Upsert(docs, t, data))
  {
  }

  /**
    The id a status change writes to, `existing ? existing.id : doc(collection(...)).id`
    with `existing` looked up in the view's `Map` under `k`: the record id of
    the last listed entry whose `keyField` is `k`, or `freshId` when no entry
    has it.
   */
  function Resolve(view: seq<Entry>, keyField: string, k: string, freshId: Id): (t: Id)
    ensures (forall i :: 0 <= i < |view| ==> !HasField(view[i], keyField, k)) ==> t == freshId
    ensures (exists i :: 0 <= i < |view| && HasField(view[i], keyField, k)) ==>
              exists i :: && 0 <= i < |view| && HasField(view[i], keyField, k) && t == RecordId(view[i])
                          && forall j :: i < j < |view| ==> !HasField(view[j], keyField, k)
  {
    var m := IndexBy(view, keyField);
    IndexByKeys(view, keyField, k);
    if k in m then
      IndexByLastWins(view, keyField, k);
      RecordId(m[k])
    else freshId
  }

  /**
    When the view is a query of the current store, the resolved id is a
    stored record with the written record's logical key, or else a new id
    and no stored record has that key.
   */
  lemma ResolveFindsKey(docs: map<Id, Doc>, snap: seq<Entry>, view: seq<Entry>,
                        filter: map<string, string>, keyField: string, data: Doc, freshId: Id)
    requires IsSnapshot(snap, docs) && SelectedBy(view, snap, filter) && NoIdField(docs)
    requires MatchesAll(data, filter) && keyField in data
    requires freshId !in docs
    ensures var t := Resolve(view, keyField, data[keyField], freshId);
            if t in docs then SameKey(docs[t], data, filter.Keys + {keyField})
            else t == freshId && forall i :: i in docs ==> !SameKey(docs[i], data, filter.Keys + {keyField})
  {
    var key := filter.Keys + {keyField};
    var k := data[keyField];
    var m := IndexBy(view, keyField);
    if k in m {
      var e := m[k];
      assert e in snap && MatchesAll(e.data, filter);
      var n :| 0 <= n < |snap| && snap[n] == e;
      assert e.id in docs && docs[e.id] == e.data;
      assert RecordId(e) == e.id;
    } else {
      forall i | i in docs ensures !SameKey(docs[i], data, key) {
        if SameKey(docs[i], data, key) {
          var e := Entry(i, docs[i]);
          assert e in snap;
          assert MatchesAll(e.data, filter);
          assert e in view;
          var n :| 0 <= n < |view| && view[n] == e;
          assert HasField(view[n], keyField, k);
          IndexByKeys(view, keyField, k);
          assert false;
        }
      }
    }
  }

  /**
    A merge-write of a record that carries the whole key keeps one record
    per key, if it goes to the record that already has that key or no record
    has it yet.
   */
  lemma UpsertKeepsOnePerKey(docs: map<Id, Doc>, t: Id, data: Doc, key: set<string>)
    requires OnePerKey(docs, key)
    requires key <= data.Keys
    requires (t in docs && SameKey(docs[t], data, key)) || (forall i :: i in docs ==> !SameKey(docs[i], data, key))
    ensures OnePerKey(Upsert(docs, t, data), key)
  {
    var r := Upsert(docs, t, data);
    assert SameKey(r[t], data, key);
    forall i, j | i in r && j in r && SameKey(r[i], r[j], key) ensures i == j {
      if i != j && (i == t || j == t) {
        var o := if i == t then j else i;
        assert r[o] == docs[o];
        assert SameKey(docs[o], data, key) by {
          forall f | f in key ensures f in docs[o] && f in data && docs[o][f] == data[f] {
            assert r[i][f] == r[j][f];
          }
        }
        if t in docs && SameKey(docs[t], data, key) {
          assert SameKey(docs[o], docs[t], key) by {
            forall f | f in key ensures f in docs[o] && f in docs[t] && docs[o][f] == docs[t][f] {
              assert docs[o][f] == data[f];
            }
          }
        }
      }
    }
  }

  /**
    With one record per key, a view re-derived from the store finds, under
    the record's key value, exactly that record.
   */
  lemma LookupFindsOnlyRecord(docs: map<Id, Doc>, snap: seq<Entry>, view: seq<Entry>,
                              filter: map<string, string>, keyField: string, t: Id)
    requires OnePerKey(docs, filter.Keys + {keyField})
    requires IsSnapshot(snap, docs) && SelectedBy(view, snap, filter)
    requires t in docs && MatchesAll(docs[t], filter) && keyField in docs[t]
    ensures docs[t][keyField] in IndexBy(view, keyField)
    ensures IndexBy(view, keyField)[docs[t][keyField]] == Entry(t, docs[t])
  {
    var key := filter.Keys + {keyField};
    var k := docs[t][keyField];
    var e0 := Entry(t, docs[t]);
    assert e0 in snap && e0 in view;
    var n :| 0 <= n < |view| && view[n] == e0;
    assert HasField(view[n], keyField, k);
    IndexByKeys(view, keyField, k);
    var e := IndexBy(view, keyField)[k];
    assert e in snap && MatchesAll(e.data, filter);
    var p :| 0 <= p < |snap| && snap[p] == e;
    assert e.id in docs && docs[e.id] == e.data;
    assert SameKey(docs[e.id], docs[t], key);
  }
}
