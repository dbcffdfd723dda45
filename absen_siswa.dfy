/**
  The student attendance screen (`AbsenSiswa`): for a date and a chosen
  schedule slot it lists the class's students by name, shows each one's
  status from the `absensiSiswa` records of that date and slot, and lets an
  admin change it with a merge-write to the record, reused or new.
 */
module AbsenSiswa {
  import opened Store
  import opened LiveView
  import opened Ordering
  import opened Absensi

  /** `selectedJadwalId` is truthy: a slot is chosen (`null` and `''` both mean none). */
  predicate IsSelected(selected: Option<Id>) {
    selected.Some? && selected.value != ""
  }

  /** `selectedJadwalId || ''`, the slot the attendance query asks for. */
  function SlotFilter(selected: Option<Id>): (r: string)
    ensures IsSelected(selected) <==> r != ""
    ensures IsSelected(selected) ==> r == selected.value
  {
    if IsSelected(selected) then selected.value else ""
  }

  /** The two equalities of the attendance query. */
  function QueryFilter(todayString: string, selected: Option<Id>): map<string, string> {
    map["tanggal" := todayString, "jadwalId" := SlotFilter(selected)]
  }

  /** The logical key of a student attendance record: slot, student, date. */
  const KEY: set<string> := {"jadwalId", "siswaId", "tanggal"}

  /**
    `absensiQuery` over the listing `snap`: the records dated `todayString`
    for the selected slot, or for slot `''` when none is selected.
   */
  function AbsensiQuery(snap: seq<Entry>, todayString: string, selected: Option<Id>): seq<Entry> {
    Where(Where(snap, "tanggal", todayString), "jadwalId", SlotFilter(selected))
  }

  /** The query returns exactly the listed records that satisfy both equalities. */
  lemma AbsensiQuerySelects(snap: seq<Entry>, todayString: string, selected: Option<Id>)
    ensures SelectedBy(AbsensiQuery(snap, todayString, selected), snap, QueryFilter(todayString, selected))
  {
    var filter := QueryFilter(todayString, selected);
    WhereMembers(snap, "tanggal", todayString);
    WhereMembers(Where(snap, "tanggal", todayString), "jadwalId", SlotFilter(selected));
    forall e ensures e in AbsensiQuery(snap, todayString, selected) <==> e in snap && MatchesAll(e.data, filter) {
      if e in snap && MatchesAll(e.data, filter) {
        assert HasField(e, "tanggal", todayString) && HasField(e, "jadwalId", SlotFilter(selected));
      }
    }
  }

  /**
    Read against the store: the view holds a record exactly when it is stored
    with `tanggal == todayString` and `jadwalId == selectedJadwalId || ''`.
   */
  lemma AbsensiQueryContents(docs: map<Id, Doc>, snap: seq<Entry>, todayString: string, selected: Option<Id>)
    requires IsSnapshot(snap, docs)
    ensures forall e :: e in AbsensiQuery(snap, todayString, selected) <==>
              && e.id in docs && docs[e.id] == e.data
              && HasField(e, "tanggal", todayString) && HasField(e, "jadwalId", SlotFilter(selected))
  {
    AbsensiQuerySelects(snap, todayString, selected);
    var filter := QueryFilter(todayString, selected);
    forall e ensures e in AbsensiQuery(snap, todayString, selected) <==>
              && e.id in docs && docs[e.id] == e.data
              && HasField(e, "tanggal", todayString) && HasField(e, "jadwalId", SlotFilter(selected))
    {
      if e in snap {
        var n :| 0 <= n < |snap| && snap[n] == e;
      }
      if e.id in docs && docs[e.id] == e.data {
        assert e == Entry(e.id, docs[e.id]);
      }
      if HasField(e, "tanggal", todayString) && HasField(e, "jadwalId", SlotFilter(selected)) {
        assert MatchesAll(e.data, filter);
      }
    }
  }

  /**
    `absensiSiswaMap`: the view's records by `siswaId`; on a duplicate the
    later record wins (`LiveView.IndexByLastWins`).
   */
  function AbsensiSiswaMap(absensi: seq<Entry>): (m: map<Id, Entry>)
    ensures forall k :: k in m ==> m[k] in absensi && HasField(m[k], "siswaId", k)
  {
    IndexBy(absensi, "siswaId")
  }

  /** `(a, b) => a.nama.localeCompare(b.nama)` */
  function ByName(a: Siswa, b: Siswa): int {
    CompareStrings(a.nama, b.nama)
  }

  lemma ByNameIsComparator()
    ensures IsComparator(ByName)
  {
    CompareStringsIsComparator();
  }

  /** `sortedStudents`: the fetched students, all of them, ordered by name. */
  function SortedStudents(students: seq<Siswa>): (r: seq<Siswa>)
    ensures multiset(r) == multiset(students)
    ensures forall i, j :: 0 <= i < j < |r| ==> CompareStrings(r[i].nama, r[j].nama) <= 0
  {
    ByNameIsComparator();
    SortBySorted(students, ByName);
    SortBy(students, ByName)
  }

  /**
    The status a student's row shows: `absensiSiswaMap.get(siswa.id)?.status
    || 'Hadir'`. It only reads; nothing is written until an admin changes it.
   */
  function DisplayedStatus(absensiSiswaMap: map<Id, Entry>, siswaId: Id): (r: string)
    ensures siswaId !in absensiSiswaMap ==> r == "Hadir"
    ensures r != ""
  {
    var current :=
      if siswaId in absensiSiswaMap && "status" in absensiSiswaMap[siswaId].data
      then absensiSiswaMap[siswaId].data["status"] else "";
    if current != "" then current else "Hadir"
  }

  /** When every stored status is a valid one, every row shows one of `STATUS_OPTIONS`. */
  lemma DisplayedStatusIsAnOption(absensiSiswaMap: map<Id, Entry>, siswaId: Id)
    requires forall k :: k in absensiSiswaMap && "status" in absensiSiswaMap[k].data ==>
               absensiSiswaMap[k].data["status"] == "" || ParseStatus(absensiSiswaMap[k].data["status"]).Some?
    ensures ParseStatus(DisplayedStatus(absensiSiswaMap, siswaId)).Some?
    ensures ParseStatus(DisplayedStatus(absensiSiswaMap, siswaId)).value in STATUS_OPTIONS
  {
    var r := DisplayedStatus(absensiSiswaMap, siswaId);
    if r == "Hadir" {
      assert ParseStatus(r) == Some(Hadir);
    }
    StatusOptionsComplete(ParseStatus(r).value);
  }

  /** `absensiData`: the four fields every status change writes. */
  function AbsensiData(jadwalId: Id, siswaId: Id, tanggal: string, status: Status): (r: Doc)
    ensures r.Keys == KEY + {"status"}
  {
    map["jadwalId" := jadwalId, "siswaId" := siswaId, "tanggal" := tanggal, "status" := StatusName(status)]
  }

  /**
    The store after `handleStatusChange(siswaId, status)`: nothing happens
    unless the caller is an admin and a slot is selected, nor when the write
    fails; otherwise the data is merged into the record the view holds for
    the student, or into a new record under `freshId`.
   */
  function StatusChange(docs: map<Id, Doc>, isAdmin: bool, absensi: seq<Entry>, todayString: string,
                        selected: Option<Id>, siswaId: Id, status: Status, freshId: Id, fails: bool): (r: map<Id, Doc>)
    ensures !isAdmin || !IsSelected(selected) || fails ==> r == docs
  {
    if !isAdmin || !IsSelected(selected) || fails then docs
    else
      Upsert(docs, Resolve(absensi, "siswaId", siswaId, freshId),
             AbsensiData(selected.value, siswaId, todayString, status))
  }

  /**
    `handleStatusChange`. The `firestore` instance is `store`; `isAdmin`,
    `absensi`, `todayString` and `selected` are the screen's state when the
    select fires; `fails` says whether the write throws. `freshId` is the id
    `doc(collection(...))` would produce.
   */
  method HandleStatusChange(store: Collection, isAdmin: bool, absensi: seq<Entry>, todayString: string,
                            selected: Option<Id>, siswaId: Id, status: Status, fails: bool)
    returns (outcome: Outcome, ghost freshId: Id)
    modifies store
    ensures freshId !in old(store.docs)
    ensures store.docs == StatusChange(old(store.docs), isAdmin, absensi, todayString, selected, siswaId, status, freshId, fails)
    ensures outcome == if !isAdmin || !IsSelected(selected) then Ignored
                       else WriteOutcome(Resolve(absensi, "siswaId", siswaId, freshId), fails)
  {
    FreshIdExists(store.docs.Keys);
    freshId :| freshId !in store.docs;
    if !isAdmin || !IsSelected(selected) {
      outcome := Ignored;
      return;
    }
    var absensiSiswaMap := AbsensiSiswaMap(absensi);
    var target: Id;
    if siswaId in absensiSiswaMap {
      target := RecordId(absensiSiswaMap[siswaId]);
    } else {
      target := store.NewDocId();
      freshId := target;
    }
    var absensiData := AbsensiData(selected.value, siswaId, todayString, status);
    var ok := store.SetMerge(target, absensiData, fails);
    outcome := if ok then Saved(target) else Failed(target);
  }

  /**
    A record the view already holds for the student is written in place: its
    id is kept and, as long as the view lists stored records, the store gains
    no record.
   */
  lemma ExistingRecordReused(docs: map<Id, Doc>, absensi: seq<Entry>, todayString: string,
                             selected: Option<Id>, siswaId: Id, status: Status, freshId: Id)
    requires IsSelected(selected)
    requires siswaId in AbsensiSiswaMap(absensi)
    requires forall e :: e in absensi ==> e.id in docs && "id" !in e.data
    ensures var t := RecordId(AbsensiSiswaMap(absensi)[siswaId]);
            var r := StatusChange(docs, true, absensi, todayString, selected, siswaId, status, freshId, false);
            && t in docs && r.Keys == docs.Keys && |r| == |docs|
            && r[t] == Merge(docs[t], AbsensiData(selected.value, siswaId, todayString, status))
  {
  }

  /** Without a record for the student, exactly one record is added, under the new id. */
  lemma NewRecordAdded(docs: map<Id, Doc>, absensi: seq<Entry>, todayString: string,
                       selected: Option<Id>, siswaId: Id, status: Status, freshId: Id)
    requires IsSelected(selected)
    requires siswaId !in AbsensiSiswaMap(absensi)
    requires freshId !in docs
    ensures var r := StatusChange(docs, true, absensi, todayString, selected, siswaId, status, freshId, false);
            && r.Keys == docs.Keys + {freshId} && |r| == |docs| + 1
            && r[freshId] == AbsensiData(selected.value, siswaId, todayString, status)
  {
    var r := StatusChange(docs, true, absensi, todayString, selected, siswaId, status, freshId, false);
    assert r.Keys == docs.Keys + {freshId};
  }

  /**
    After a successful change the target record carries the selected slot,
    the student, the date and the chosen status; its other fields keep their
    values, and every other record is as it was.
   */
  lemma WrittenRecord(docs: map<Id, Doc>, absensi: seq<Entry>, todayString: string,
                      selected: Option<Id>, siswaId: Id, status: Status, freshId: Id)
    requires IsSelected(selected)
    ensures var t := Resolve(absensi, "siswaId", siswaId, freshId);
            var r := StatusChange(docs, true, absensi, todayString, selected, siswaId, status, freshId, false);
            && t in r
            && HasField(Entry(t, r[t]), "jadwalId", selected.value)
            && HasField(Entry(t, r[t]), "siswaId", siswaId)
            && HasField(Entry(t, r[t]), "tanggal", todayString)
            && HasField(Entry(t, r[t]), "status", StatusName(status))
            && (t in docs ==> forall f :: f in docs[t] && f !in KEY + {"status"} ==> f in r[t] && r[t][f] == docs[t][f])
            && (forall k :: k in docs && k != t ==> k in r && r[k] == docs[k])
  {
  }

  /**
    The central invariant, one record per slot, student and date, survives a
    status change made from a view that is a query of the current store.
   */
  lemma StatusChangeKeepsOnePerKey(docs: map<Id, Doc>, snap: seq<Entry>, isAdmin: bool, todayString: string,
                                   selected: Option<Id>, siswaId: Id, status: Status, freshId: Id, fails: bool)
    requires OnePerKey(docs, KEY) && NoIdField(docs) && IsSnapshot(snap, docs) && freshId !in docs
    ensures var r := StatusChange(docs, isAdmin, AbsensiQuery(snap, todayString, selected), todayString,
                                  selected, siswaId, status, freshId, fails);
            OnePerKey(r, KEY) && NoIdField(r)
  {
    if isAdmin && IsSelected(selected) && !fails {
      var filter := QueryFilter(todayString, selected);
      var view := AbsensiQuery(snap, todayString, selected);
      var data := AbsensiData(selected.value, siswaId, todayString, status);
      AbsensiQuerySelects(snap, todayString, selected);
      assert filter.Keys + {"siswaId"} == KEY;
      ResolveFindsKey(docs, snap, view, filter, "siswaId", data, freshId);
      UpsertKeepsOnePerKey(docs, Resolve(view, "siswaId", siswaId, freshId), data, KEY);
      UpsertKeepsNoIdField(docs, Resolve(view, "siswaId", siswaId, freshId), data);
    }
  }

  /**
    Why the invariant needs `NoIdField`: a stored record whose own `id` field
    names another document is looked up under that field, so the change
    writes to that other id and the store ends up with two records for one
    slot, student and date.
   */
  lemma StoredIdFieldSplitsRecord()
    ensures var docs := map["D" := map["id" := "X", "jadwalId" := "J", "siswaId" := "S", "tanggal" := "T", "status" := "Izin"]];
            var snap := [Entry("D", docs["D"])];
            var r := StatusChange(docs, true, AbsensiQuery(snap, "T", Some("J")), "T", Some("J"), "S", Hadir, "F", false);
            && IsSnapshot(snap, docs) && OnePerKey(docs, KEY)
            && r.Keys == {"D", "X"} && !OnePerKey(r, KEY)
  {
    var docs := map["D" := map["id" := "X", "jadwalId" := "J", "siswaId" := "S", "tanggal" := "T", "status" := "Izin"]];
    var snap := [Entry("D", docs["D"])];
    var view := AbsensiQuery(snap, "T", Some("J"));
    assert view == snap;
    assert "S" in AbsensiSiswaMap(view);
    var r := StatusChange(docs, true, view, "T", Some("J"), "S", Hadir, "F", false);
    assert Resolve(view, "siswaId", "S", "F") == "X";
    assert SameKey(r["D"], r["X"], KEY);
  }

  /**
    After a successful change, a view re-derived from the store resolves the
    student to the record just written.
   */
  lemma ReDerivedViewFindsTarget(docs: map<Id, Doc>, snap: seq<Entry>, snap': seq<Entry>, todayString: string,
                                 selected: Option<Id>, siswaId: Id, status: Status, freshId: Id)
    requires OnePerKey(docs, KEY) && NoIdField(docs) && IsSnapshot(snap, docs) && freshId !in docs
    requires IsSelected(selected)
    requires IsSnapshot(snap', StatusChange(docs, true, AbsensiQuery(snap, todayString, selected), todayString,
                                            selected, siswaId, status, freshId, false))
    ensures var t := Resolve(AbsensiQuery(snap, todayString, selected), "siswaId", siswaId, freshId);
            var r := StatusChange(docs, true, AbsensiQuery(snap, todayString, selected), todayString,
                                  selected, siswaId, status, freshId, false);
            && siswaId in AbsensiSiswaMap(AbsensiQuery(snap', todayString, selected))
            && AbsensiSiswaMap(AbsensiQuery(snap', todayString, selected))[siswaId] == Entry(t, r[t])
  {
    var view := AbsensiQuery(snap, todayString, selected);
    var r := StatusChange(docs, true, view, todayString, selected, siswaId, status, freshId, false);
    var t := Resolve(view, "siswaId", siswaId, freshId);
    var filter := QueryFilter(todayString, selected);
    StatusChangeKeepsOnePerKey(docs, snap, true, todayString, selected, siswaId, status, freshId, false);
    assert filter.Keys + {"siswaId"} == KEY;
    assert MatchesAll(r[t], filter);
    AbsensiQuerySelects(snap', todayString, selected);
    LookupFindsOnlyRecord(r, snap', AbsensiQuery(snap', todayString, selected), filter, "siswaId", t);
  }

  /**
    Applying the same status for the same student, slot and date twice, the
    view being re-derived from the store in between, leaves the store as one
    application did.
   */
  lemma StatusChangeIdempotent(docs: map<Id, Doc>, snap: seq<Entry>, snap': seq<Entry>, isAdmin: bool,
                               todayString: string, selected: Option<Id>, siswaId: Id, status: Status,
                               freshId: Id, freshId': Id, fails': bool)
    requires OnePerKey(docs, KEY) && NoIdField(docs) && IsSnapshot(snap, docs) && freshId !in docs
    requires IsSnapshot(snap', StatusChange(docs, isAdmin, AbsensiQuery(snap, todayString, selected), todayString,
                                            selected, siswaId, status, freshId, false))
    ensures var once := StatusChange(docs, isAdmin, AbsensiQuery(snap, todayString, selected), todayString,
                                     selected, siswaId, status, freshId, false);
            StatusChange(once, isAdmin, AbsensiQuery(snap', todayString, selected), todayString,
                         selected, siswaId, status, freshId', fails') == once
  {
    if isAdmin && IsSelected(selected) && !fails' {
      var t := Resolve(AbsensiQuery(snap, todayString, selected), "siswaId", siswaId, freshId);
      ReDerivedViewFindsTarget(docs, snap, snap', todayString, selected, siswaId, status, freshId);
      UpsertIdempotent(docs, t, AbsensiData(selected.value, siswaId, todayString, status));
    }
  }

  /**
    Once the view is re-derived from the store, the student's row shows the
    status just written.
   */
  lemma StatusShownAfterChange(docs: map<Id, Doc>, snap: seq<Entry>, snap': seq<Entry>, todayString: string,
                               selected: Option<Id>, siswaId: Id, status: Status, freshId: Id)
    requires OnePerKey(docs, KEY) && NoIdField(docs) && IsSnapshot(snap, docs) && freshId !in docs
    requires IsSelected(selected)
    requires IsSnapshot(snap', StatusChange(docs, true, AbsensiQuery(snap, todayString, selected), todayString,
                                            selected, siswaId, status, freshId, false))
    ensures DisplayedStatus(AbsensiSiswaMap(AbsensiQuery(snap', todayString, selected)), siswaId) == StatusName(status)
  {
    ReDerivedViewFindsTarget(docs, snap, snap', todayString, selected, siswaId, status, freshId);
    StatusNameRoundTrip(status);
  }
}
