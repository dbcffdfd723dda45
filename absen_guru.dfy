/**
  The teacher attendance screen (`AbsenGuru`): for a date it lists the day's
  schedule slots by time and class, shows each slot's teacher status from the
  `absensiGuru` records of that date, and lets an admin change it with a
  merge-write to the record, reused or new, reporting success or failure.
 */
module AbsenGuru {
  import opened Store
  import opened LiveView
  import opened Ordering
  import opened Absensi

  /** The one equality of the attendance query. */
  function QueryFilter(todayString: string): map<string, string> {
    map["tanggal" := todayString]
  }

  /** The logical key of a teacher attendance record: slot and date. */
  const KEY: set<string> := {"jadwalId", "tanggal"}

  /** `absensiQuery` over the listing `snap`: the records dated `todayString`. */
  function AbsensiQuery(snap: seq<Entry>, todayString: string): seq<Entry> {
    Where(snap, "tanggal", todayString)
  }

  lemma AbsensiQuerySelects(snap: seq<Entry>, todayString: string)
    ensures SelectedBy(AbsensiQuery(snap, todayString), snap, QueryFilter(todayString))
  {
    WhereMembers(snap, "tanggal", todayString);
    forall e ensures e in AbsensiQuery(snap, todayString) <==> e in snap && MatchesAll(e.data, QueryFilter(todayString)) {
      if e in snap && MatchesAll(e.data, QueryFilter(todayString)) {
        assert HasField(e, "tanggal", todayString);
      }
    }
  }

  /** Read against the store: the view holds exactly the stored records dated `todayString`. */
  lemma AbsensiQueryContents(docs: map<Id, Doc>, snap: seq<Entry>, todayString: string)
    requires IsSnapshot(snap, docs)
    ensures forall e :: e in AbsensiQuery(snap, todayString) <==>
              e.id in docs && docs[e.id] == e.data && HasField(e, "tanggal", todayString)
  {
    WhereMembers(snap, "tanggal", todayString);
    forall e ensures e in AbsensiQuery(snap, todayString) <==>
              e.id in docs && docs[e.id] == e.data && HasField(e, "tanggal", todayString)
    {
      if e in snap {
        var n :| 0 <= n < |snap| && snap[n] == e;
      }
      if e.id in docs && docs[e.id] == e.data {
        assert e == Entry(e.id, docs[e.id]);
      }
    }
  }

  /**
    `absensiMap`: the view's records by `jadwalId`; on a duplicate the later
    record wins (`LiveView.IndexByLastWins`).
   */
  function AbsensiMap(absensi: seq<Entry>): (m: map<Id, Entry>)
    ensures forall k :: k in m ==> m[k] in absensi && HasField(m[k], "jadwalId", k)
  {
    IndexBy(absensi, "jadwalId")
  }

  /** The status a slot's select shows: `absensiMap.get(item.id)?.status`, none before any record. */
  function CurrentStatus(absensiMap: map<Id, Entry>, jadwalId: Id): (r: Option<string>)
    ensures jadwalId !in absensiMap ==> r == None
  {
    if jadwalId in absensiMap && "status" in absensiMap[jadwalId].data
    then Some(absensiMap[jadwalId].data["status"]) else None
  }

  /** `(a, b) => a.jam.localeCompare(b.jam) || a.kelas.localeCompare(b.kelas)` */
  function BySchedule(a: Jadwal, b: Jadwal): int {
    var byJam := CompareStrings(a.jam, b.jam);
    if byJam != 0 then byJam else CompareStrings(a.kelas, b.kelas)
  }

  lemma ByScheduleIsComparator()
    ensures IsComparator(BySchedule)
  {
    forall a: Jadwal, b: Jadwal ensures BySchedule(a, b) <= 0 || BySchedule(b, a) <= 0 {
      CompareStringsFlip(a.jam, b.jam);
      CompareStringsFlip(a.kelas, b.kelas);
    }
    forall a: Jadwal, b: Jadwal, c: Jadwal | BySchedule(a, b) <= 0 && BySchedule(b, c) <= 0
      ensures BySchedule(a, c) <= 0
    {
      CompareStringsZero(a.jam, b.jam);
      CompareStringsZero(b.jam, c.jam);
      CompareStringsZero(a.jam, c.jam);
      CompareStringsFlip(a.jam, c.jam);
      CompareStringsTransitive(a.jam, b.jam, c.jam);
      if a.jam == b.jam == c.jam {
        CompareStringsTransitive(a.kelas, b.kelas, c.kelas);
      } else if a.jam == c.jam {
        CompareStringsFlip(a.jam, b.jam);
      }
    }
  }

  /** `jadwalSorted`: the fetched slots, all of them, by time and within a time by class. */
  function JadwalSorted(jadwal: seq<Jadwal>): (r: seq<Jadwal>)
    ensures multiset(r) == multiset(jadwal)
    ensures forall i, j :: 0 <= i < j < |r| ==>
              || CompareStrings(r[i].jam, r[j].jam) < 0
              || (r[i].jam == r[j].jam && CompareStrings(r[i].kelas, r[j].kelas) <= 0)
  {
    ByScheduleIsComparator();
    SortBySorted(jadwal, BySchedule);
    var r := SortBy(jadwal, BySchedule);
    forall i, j | 0 <= i < j < |r|
      ensures || CompareStrings(r[i].jam, r[j].jam) < 0
              || (r[i].jam == r[j].jam && CompareStrings(r[i].kelas, r[j].kelas) <= 0)
    {
      assert BySchedule(r[i], r[j]) <= 0;
      CompareStringsZero(r[i].jam, r[j].jam);
    }
    r
  }

  /** `absensiData`: the slot, its teacher, the date, the status and an empty note. */
  function AbsensiData(jadwalItem: Jadwal, tanggal: string, status: Status): (r: Doc)
    ensures r.Keys == KEY + {"guruId", "status", "keterangan"}
  {
    map["jadwalId" := jadwalItem.id, "guruId" := jadwalItem.guruId, "tanggal" := tanggal,
        "status" := StatusName(status), "keterangan" := ""]
  }

  /**
    The store after `handleStatusChange(jadwalItem, status)`: nothing happens
    unless the caller is an admin, nor when the write fails; otherwise the
    data is merged into the record the view holds for the slot, or into a new
    record under `freshId`.
   */
  function StatusChange(docs: map<Id, Doc>, isAdmin: bool, absensi: seq<Entry>, todayString: string,
                        jadwalItem: Jadwal, status: Status, freshId: Id, fails: bool): (r: map<Id, Doc>)
    ensures !isAdmin || fails ==> r == docs
  {
    if !isAdmin || fails then docs
    else Upsert(docs, Resolve(absensi, "jadwalId", jadwalItem.id, freshId), AbsensiData(jadwalItem, todayString, status))
  }

  /**
    `handleStatusChange`. The `firestore` instance is `store`; `isAdmin`,
    `absensi` and `todayString` are the screen's state when the select fires;
    `fails` says whether the write throws. The returned outcome stands for
    the toast: `Saved` the "Absensi diperbarui" one, `Failed` the
    destructive one.
   */
  method HandleStatusChange(store: Collection, isAdmin: bool, absensi: seq<Entry>, todayString: string,
                            jadwalItem: Jadwal, status: Status, fails: bool)
    returns (outcome: Outcome, ghost freshId: Id)
    modifies store
    ensures freshId !in old(store.docs)
    ensures store.docs == StatusChange(old(store.docs), isAdmin, absensi, todayString, jadwalItem, status, freshId, fails)
    ensures outcome == if !isAdmin then Ignored
                       else WriteOutcome(Resolve(absensi, "jadwalId", jadwalItem.id, freshId), fails)
  {
    FreshIdExists(store.docs.Keys);
    freshId :| freshId !in store.docs;
    if !isAdmin {
      outcome := Ignored;
      return;
    }
    var absensiMap := AbsensiMap(absensi);
    var target: Id;
    if jadwalItem.id in absensiMap {
      target := RecordId(absensiMap[jadwalItem.id]);
    } else {
      target := store.NewDocId();
      freshId := target;
    }
    var absensiData := AbsensiData(jadwalItem, todayString, status);
    var ok := store.SetMerge(target, absensiData, fails);
    outcome := if ok then Saved(target) else Failed(target);
  }

  /**
    A record the view already holds for the slot is written in place: its id
    is kept and, as long as the view lists stored records, the store gains
    no record.
   */
  lemma ExistingRecordReused(docs: map<Id, Doc>, absensi: seq<Entry>, todayString: string,
                             jadwalItem: Jadwal, status: Status, freshId: Id)
    requires jadwalItem.id in AbsensiMap(absensi)
    requires forall e :: e in absensi ==> e.id in docs && "id" !in e.data
    ensures var t := RecordId(AbsensiMap(absensi)[jadwalItem.id]);
            var r := StatusChange(docs, true, absensi, todayString, jadwalItem, status, freshId, false);
            && t in docs && r.Keys == docs.Keys && |r| == |docs|
            && r[t] == Merge(docs[t], AbsensiData(jadwalItem, todayString, status))
  {
  }

  /** Without a record for the slot, exactly one record is added, under the new id. */
  lemma NewRecordAdded(docs: map<Id, Doc>, absensi: seq<Entry>, todayString: string,
                       jadwalItem: Jadwal, status: Status, freshId: Id)
    requires jadwalItem.id !in AbsensiMap(absensi)
    requires freshId !in docs
    ensures var r := StatusChange(docs, true, absensi, todayString, jadwalItem, status, freshId, false);
            && r.Keys == docs.Keys + {freshId} && |r| == |docs| + 1
            && r[freshId] == AbsensiData(jadwalItem, todayString, status)
  {
    var r := StatusChange(docs, true, absensi, todayString, jadwalItem, status, freshId, false);
    assert r.Keys == docs.Keys + {freshId};
  }

  /**
    After a successful change the target record carries the slot, its
    teacher, the date, the chosen status and an empty note, whatever note it
    had; its other fields keep their values, and every other record is as it
    was.
   */
  lemma WrittenRecord(docs: map<Id, Doc>, absensi: seq<Entry>, todayString: string,
                      jadwalItem: Jadwal, status: Status, freshId: Id)
    ensures var t := Resolve(absensi, "jadwalId", jadwalItem.id, freshId);
            var r := StatusChange(docs, true, absensi, todayString, jadwalItem, status, freshId, false);
            && t in r
            && HasField(Entry(t, r[t]), "jadwalId", jadwalItem.id)
            && HasField(Entry(t, r[t]), "guruId", jadwalItem.guruId)
            && HasField(Entry(t, r[t]), "tanggal", todayString)
            && HasField(Entry(t, r[t]), "status", StatusName(status))
            && HasField(Entry(t, r[t]), "keterangan", "")
            && (t in docs ==> forall f :: f in docs[t] && f !in AbsensiData(jadwalItem, todayString, status)
                                ==> f in r[t] && r[t][f] == docs[t][f])
            && (forall k :: k in docs && k != t ==> k in r && r[k] == docs[k])
  {
  }

  /**
    One record per slot and date survives a status change made from a view
    that is a query of the current store.
   */
  lemma StatusChangeKeepsOnePerKey(docs: map<Id, Doc>, snap: seq<Entry>, isAdmin: bool, todayString: string,
                                   jadwalItem: Jadwal, status: Status, freshId: Id, fails: bool)
    requires OnePerKey(docs, KEY) && NoIdField(docs) && IsSnapshot(snap, docs) && freshId !in docs
    ensures var r := StatusChange(docs, isAdmin, AbsensiQuery(snap, todayString), todayString,
                                  jadwalItem, status, freshId, fails);
            OnePerKey(r, KEY) && NoIdField(r)
  {
    if isAdmin && !fails {
      var filter := QueryFilter(todayString);
      var view := AbsensiQuery(snap, todayString);
      var data := AbsensiData(jadwalItem, todayString, status);
      AbsensiQuerySelects(snap, todayString);
      assert filter.Keys + {"jadwalId"} == KEY;
      ResolveFindsKey(docs, snap, view, filter, "jadwalId", data, freshId);
      UpsertKeepsOnePerKey(docs, Resolve(view, "jadwalId", jadwalItem.id, freshId), data, KEY);
      UpsertKeepsNoIdField(docs, Resolve(view, "jadwalId", jadwalItem.id, freshId), data);
    }
  }

  /**
    Applying the same status to the same slot and date twice, the view being
    re-derived from the store in between, leaves the store as one application
    did: the second change finds the record the first one wrote.
   */
  lemma StatusChangeIdempotent(docs: map<Id, Doc>, snap: seq<Entry>, snap': seq<Entry>, isAdmin: bool,
                               todayString: string, jadwalItem: Jadwal, status: Status,
                               freshId: Id, freshId': Id, fails': bool)
    requires OnePerKey(docs, KEY) && NoIdField(docs) && IsSnapshot(snap, docs) && freshId !in docs
    requires IsSnapshot(snap', StatusChange(docs, isAdmin, AbsensiQuery(snap, todayString), todayString,
                                            jadwalItem, status, freshId, false))
    ensures var once := StatusChange(docs, isAdmin, AbsensiQuery(snap, todayString), todayString,
                                     jadwalItem, status, freshId, false);
            StatusChange(once, isAdmin, AbsensiQuery(snap', todayString), todayString,
                         jadwalItem, status, freshId', fails') == once
  {
    if isAdmin && !fails' {
      var view := AbsensiQuery(snap, todayString);
      var data := AbsensiData(jadwalItem, todayString, status);
      var t := Resolve(view, "jadwalId", jadwalItem.id, freshId);
      var once := StatusChange(docs, true, view, todayString, jadwalItem, status, freshId, false);
      var filter := QueryFilter(todayString);
      StatusChangeKeepsOnePerKey(docs, snap, true, todayString, jadwalItem, status, freshId, false);
      assert filter.Keys + {"jadwalId"} == KEY;
      assert MatchesAll(once[t], filter);
      AbsensiQuerySelects(snap', todayString);
      LookupFindsOnlyRecord(once, snap', AbsensiQuery(snap', todayString), filter, "jadwalId", t);
      assert Resolve(AbsensiQuery(snap', todayString), "jadwalId", jadwalItem.id, freshId') == t;
      UpsertIdempotent(docs, t, data);
    }
  }

  /** Once the view is re-derived from the store, the slot's select shows the status just written. */
  lemma StatusShownAfterChange(docs: map<Id, Doc>, snap: seq<Entry>, snap': seq<Entry>, todayString: string,
                               jadwalItem: Jadwal, status: Status, freshId: Id)
    requires OnePerKey(docs, KEY) && NoIdField(docs) && IsSnapshot(snap, docs) && freshId !in docs
    requires IsSnapshot(snap', StatusChange(docs, true, AbsensiQuery(snap, todayString), todayString,
                                            jadwalItem, status, freshId, false))
    ensures CurrentStatus(AbsensiMap(AbsensiQuery(snap', todayString)), jadwalItem.id) == Some(StatusName(status))
  {
    var view := AbsensiQuery(snap, todayString);
    var r := StatusChange(docs, true, view, todayString, jadwalItem, status, freshId, false);
    var t := Resolve(view, "jadwalId", jadwalItem.id, freshId);
    var filter := QueryFilter(todayString);
    StatusChangeKeepsOnePerKey(docs, snap, true, todayString, jadwalItem, status, freshId, false);
    assert filter.Keys + {"jadwalId"} == KEY;
    assert MatchesAll(r[t], filter);
    AbsensiQuerySelects(snap', todayString);
    LookupFindsOnlyRecord(r, snap', AbsensiQuery(snap', todayString), filter, "jadwalId", t);
  }
}
