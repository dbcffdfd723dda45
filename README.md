# Attendance write path of the school app, in Dafny

This project models the two attendance screens of the school administration
app: teacher attendance (`AbsenGuru`) and student attendance (`AbsenSiswa`).
Each screen reads a live view of the day's attendance records from a
Firestore collection. An admin changes a status with one rule: check the
guard, reuse the record the view already holds (or take a new
store-generated id), then merge-write the record's fields.

Modules:

- `Store` (`store.dfy`): the collection as a class `Collection` with a
  `docs: map<Id, Doc>` field. A document is a map from field name to value.
  `SetMerge` does Firestore's `set(..., { merge: true })`. `NewDocId` returns
  an id not in the map, which is how `doc(collection(...))` is modelled.
- `LiveView` (`live_view.dfy`): how a screen sees the store.
  - A listing `snap` of the documents, in an order the model leaves open (`IsSnapshot`).
  - Equality queries over that listing (`Where`).
  - The JavaScript `Map` built from a query's results (`IndexBy`), where the last duplicate wins.
  - The reuse-or-create rule (`Resolve`) and its lemmas. The central one: if the
    view is a query of the current store, a write keeps at most one record per
    logical key.
- `Ordering` (`ordering.dfy`): `localeCompare`, modelled as lexicographic
  comparison (`CompareStrings`), and `[...xs].sort(cmp)`, modelled as an
  insertion sort (`SortBy`).
  - `CompareStrings` is proved three-valued, zero exactly on equal strings,
    antisymmetric (`CompareStringsFlip`) and transitive.
  - `SortBy` is proved to give a permutation of its input, sorted when the
    comparator is a proper one.
- `Absensi` (`absensi.dfy`): what both screens share.
  - The four statuses and `STATUS_OPTIONS`.
  - `HARI_MAP` and `dayName`.
  - The `Siswa` and `Jadwal` records.
  - The outcome a status change reports.
- `AbsenSiswa` and `AbsenGuru` (`absen_siswa.dfy`, `absen_guru.dfy`): each
  screen's attendance query, its index, its sorted display list, and the status
  it displays. `StatusChange` is the pure specification of `handleStatusChange`.
  `HandleStatusChange` is a method that changes a `Collection` in place and is
  proved equal to that specification. The lemmas state what the source
  promises about it.

Some promises need the view to be up to date. These lemmas (one record per
key, idempotence, and the status shown after a write) take the view to be a
query of the current store. Idempotence and the status shown after a write
also assume one record per key. The model leaves the listing order open, so
with duplicate records the second lookup could pick a different one. Firestore
lists results in document-id order, and with that order both lookups would
pick the same record. The records which the source reads but never declares
are modelled as they are used.

A view record is `{ id: d.id, ...d.data() }`. The spread comes second, so a
stored field named `id` replaces the document id (`Store.RecordId`). When that
field holds a valid document id, the handler then writes to the document it
names; the model takes every stored `id` to be one (see "## Left out"). The lemmas that rely on
the reused id being the stored record's own id assume no stored record has an
`id` field (`LiveView.NoIdField`). Neither screen ever writes one, so every
status change keeps that assumption true. `AbsenSiswa.StoredIdFieldSplitsRecord`
shows a store where both record-per-key and record reuse break without it.

`selectedJadwalId` is an
`Option<Id>`: `null` and `''` both count as "no slot". A write that throws is
a `fails` flag: the store is unchanged and the outcome is `Failed`.

What the code does with a status change, stated plainly:

- New records get a random store id. No id is derived from (slot, person, date).
- The teacher record's `keterangan` is overwritten with `''` on every change.
- A change by a non-admin returns silently, with no store write and no message.
- Student records carry no class number. Only `jadwalId`, `siswaId`, `tanggal` and `status` are written.

## Model

| member | source | states |
|---|---|---|
| `Store.Merge` | src/app/absensi/AbsenSiswa.tsx:120 | a merge write keeps every field it does not write and sets every field it writes |
| `Store.Upsert` | src/app/absensi/AbsenSiswa.tsx:120 | the write creates the record when absent, merges into it when present, and leaves every other record as it was |
| `Store.UpsertIdempotent` | src/app/absensi/AbsenGuru.tsx:92 | merge-writing the same data twice to one record equals writing it once |
| `Store.FreshIdExists` | src/app/absensi/AbsenSiswa.tsx:110 | there is always an id not yet used in the collection |
| `Store.Collection.NewDocId` | src/app/absensi/AbsenSiswa.tsx:110 | `doc(collection(...))` yields an id no stored record has |
| `Store.Collection.SetMerge` | src/app/absensi/AbsenSiswa.tsx:119-123 | a write that does not throw performs the merge-upsert; one that throws changes nothing; the result says which |
| `Store.RecordId` | src/app/absensi/AbsenSiswa.tsx:81 | the held record's `id` is a stored `id` field when there is one, else the document id; `StoredIdFieldSplitsRecord` shows the consequence |
| `LiveView.Where` | src/app/absensi/AbsenSiswa.tsx:70-74 | an equality query keeps only listed records carrying the field with that value, and never more records than listed |
| `LiveView.WhereMembers` | src/app/absensi/AbsenSiswa.tsx:70-74 | an equality query returns exactly the listed records that carry the field with that value |
| `LiveView.IndexBy` | src/app/absensi/AbsenGuru.tsx:69 | `new Map(list.map(a => [a[f], a]))`: every looked-up record is in the list and its indexed field equals the key |
| `LiveView.IndexByKeys` | src/app/absensi/AbsenSiswa.tsx:100 | the `Map` has a key exactly when some record of the list carries it |
| `LiveView.IndexByLastWins` | src/app/absensi/AbsenSiswa.tsx:100 | the record found under a key is a listed record carrying that key, and no later record carries it: the last duplicate wins |
| `LiveView.Resolve` | src/app/absensi/AbsenSiswa.tsx:107-110 | when some listed record carries the key, the target is the record id of the last such record (the one the `Map` keeps); when none does, the target is the fresh id |
| `LiveView.ResolveFindsKey` | src/app/absensi/AbsenGuru.tsx:78-81 | with a view of the current store and no stored `id` fields, the target is a stored record with the written logical key, or a fresh id when no record has that key |
| `LiveView.UpsertKeepsNoIdField` | src/app/absensi/AbsenSiswa.tsx:112-120 | a write whose data has no `id` field leaves no stored record with one |
| `LiveView.UpsertKeepsOnePerKey` | src/app/absensi/AbsenSiswa.tsx:107-120 | a write to the record that already has the key, or of a key nobody has, keeps one record per logical key |
| `LiveView.LookupFindsOnlyRecord` | src/app/absensi/AbsenGuru.tsx:69 | with one record per key, the re-derived view finds exactly that record under its key |
| `Ordering.CompareStrings` | src/app/absensi/AbsenSiswa.tsx:102 | `localeCompare` yields -1, 0 or 1 |
| `Ordering.CompareStringsZero` | src/app/absensi/AbsenSiswa.tsx:102 | two names compare equal exactly when they are equal |
| `Ordering.CompareStringsFlip` | src/app/absensi/AbsenSiswa.tsx:102 | swapping the operands flips the comparison |
| `Ordering.CompareStringsTransitive` | src/app/absensi/AbsenSiswa.tsx:102 | the string order is transitive |
| `Ordering.CompareStringsIsComparator` | src/app/absensi/AbsenSiswa.tsx:102 | `localeCompare` is a comparator that sorting can rely on |
| `Ordering.Insert` | src/app/absensi/AbsenSiswa.tsx:102 | inserting adds exactly that element to the multiset |
| `Ordering.SortBy` | src/app/absensi/AbsenSiswa.tsx:102 | sorting returns a permutation of its input whatever the comparator |
| `Ordering.InsertSorted` | src/app/absensi/AbsenSiswa.tsx:102 | inserting into a sorted sequence keeps it sorted |
| `Ordering.SortBySorted` | src/app/absensi/AbsenGuru.tsx:71-73 | with a proper comparator the sorted sequence is ordered pairwise |
| `Absensi.StatusName` | src/app/absensi/AbsenSiswa.tsx:31 | the string stored in `status`; `StatusNameRoundTrip` states that each status has its own non-empty name |
| `Absensi.ParseStatus` | src/app/absensi/AbsenSiswa.tsx:31 | a stored status name reads back only as the status of that name |
| `Absensi.StatusNameRoundTrip` | src/app/absensi/AbsenSiswa.tsx:31 | every status name is non-empty and reads back as its status |
| `Absensi.StatusOptionsComplete` | src/app/absensi/AbsenGuru.tsx:23 | `STATUS_OPTIONS` lists each of the four statuses exactly once |
| `Absensi.DayName` | src/app/absensi/AbsenSiswa.tsx:53 | the day name of a weekday 0..6 is one of the seven `HARI_MAP` entries |
| `Absensi.DayIndex` | src/app/absensi/AbsenSiswa.tsx:29 | a name's position in `HARI_MAP`, or none for a non-day |
| `Absensi.DayNameRoundTrip` | src/app/absensi/AbsenGuru.tsx:40 | weekday w gets `HARI_MAP[w]`, and distinct weekdays get distinct names |
| `Absensi.WriteOutcome` | src/app/absensi/AbsenGuru.tsx:91-96 | the outcome is success exactly when the write does not throw, and names the written record |
| `AbsenSiswa.IsSelected` | src/app/absensi/AbsenSiswa.tsx:105 | `selectedJadwalId` is truthy: a slot is chosen; `null` and `''` both mean none, as in the guard and in the `''` fallback at line 73 (`SlotFilter` states the connection) |
| `AbsenSiswa.QueryFilter` | src/app/absensi/AbsenSiswa.tsx:72-73 | the two equalities `tanggal == todayString` and `jadwalId` equal to the selected slot or `''`, as the filter `AbsensiQuerySelects` matches the query against |
| `AbsenSiswa.SlotFilter` | src/app/absensi/AbsenSiswa.tsx:73 | the query asks for the selected slot, or for `''` when none (or `''`) is selected |
| `AbsenSiswa.AbsensiQuery` | src/app/absensi/AbsenSiswa.tsx:70-74 | `absensiQuery`, two equality queries in a row; its meaning is stated by `AbsensiQuerySelects` and `AbsensiQueryContents` |
| `AbsenSiswa.AbsensiQuerySelects` | src/app/absensi/AbsenSiswa.tsx:70-74 | the attendance query returns exactly the listed records with the date and the slot filter |
| `AbsenSiswa.AbsensiQueryContents` | src/app/absensi/AbsenSiswa.tsx:70-74 | the view holds a record exactly when it is stored with `tanggal` the selected date and `jadwalId` the selected slot or `''` |
| `AbsenSiswa.AbsensiSiswaMap` | src/app/absensi/AbsenSiswa.tsx:100 | every looked-up record is in the view and its `siswaId` equals the key |
| `AbsenSiswa.ByName` | src/app/absensi/AbsenSiswa.tsx:102 | the comparator `a.nama.localeCompare(b.nama)`; `ByNameIsComparator` states it is a proper one |
| `AbsenSiswa.ByNameIsComparator` | src/app/absensi/AbsenSiswa.tsx:102 | comparing by `nama` is a proper comparator |
| `AbsenSiswa.SortedStudents` | src/app/absensi/AbsenSiswa.tsx:102 | `sortedStudents` is a permutation of the fetched students ordered by name |
| `AbsenSiswa.DisplayedStatus` | src/app/absensi/AbsenSiswa.tsx:183-190 | a student without a record shows `'Hadir'`; the shown status is never empty |
| `AbsenSiswa.DisplayedStatusIsAnOption` | src/app/absensi/AbsenSiswa.tsx:190-201 | when stored statuses are valid, every row shows one of `STATUS_OPTIONS` |
| `AbsenSiswa.AbsensiData` | src/app/absensi/AbsenSiswa.tsx:112-117 | the written data has exactly the fields `jadwalId`, `siswaId`, `tanggal` and `status`, so no `id` field |
| `AbsenSiswa.StatusChange` | src/app/absensi/AbsenSiswa.tsx:105 | a non-admin, no selected slot, or a failed write leaves the store unchanged |
| `AbsenSiswa.HandleStatusChange` | src/app/absensi/AbsenSiswa.tsx:104-124 | the handler changes the store exactly as `StatusChange` says, with a fresh id for a new record. The outcome is `Failed`, the destructive toast, exactly when the write throws. `Saved` stands for nothing the user sees, because this screen shows no success toast |
| `AbsenSiswa.ExistingRecordReused` | src/app/absensi/AbsenSiswa.tsx:107-109 | a record in the view is written under its own id, and the number of stored records does not change |
| `AbsenSiswa.NewRecordAdded` | src/app/absensi/AbsenSiswa.tsx:110 | with no record in the view, exactly one record is added, under an id not previously stored, holding exactly the written data |
| `AbsenSiswa.WrittenRecord` | src/app/absensi/AbsenSiswa.tsx:112-120 | the target then has the selected `jadwalId`, the `siswaId`, the `tanggal` and the `status`; its other fields and all other records are unchanged |
| `AbsenSiswa.StatusChangeKeepsOnePerKey` | src/app/absensi/AbsenSiswa.tsx:107-120 | from a current view, a status change keeps one record per slot, student and date, and keeps stored records free of `id` fields |
| `AbsenSiswa.StoredIdFieldSplitsRecord` | src/app/absensi/AbsenSiswa.tsx:81-120 | with a stored record whose `id` field names another document, the change writes to that other id and leaves two records with the same slot, student and date |
| `AbsenSiswa.ReDerivedViewFindsTarget` | src/app/absensi/AbsenSiswa.tsx:100 | after a write, the re-derived `absensiSiswaMap` maps the student to the written record |
| `AbsenSiswa.StatusChangeIdempotent` | src/app/absensi/AbsenSiswa.tsx:104-124 | the same change applied twice, with the view re-derived in between, leaves the store as one application did |
| `AbsenSiswa.StatusShownAfterChange` | src/app/absensi/AbsenSiswa.tsx:183-190 | after a successful change and a re-derived view, the student's row shows the chosen status |
| `AbsenGuru.QueryFilter` | src/app/absensi/AbsenGuru.tsx:49 | the one equality `tanggal == todayString`, as the filter `AbsensiQuerySelects` matches the query against |
| `AbsenGuru.AbsensiQuery` | src/app/absensi/AbsenGuru.tsx:49 | `absensiQuery`, one equality query; its meaning is stated by `AbsensiQuerySelects` and `AbsensiQueryContents` |
| `AbsenGuru.AbsensiQuerySelects` | src/app/absensi/AbsenGuru.tsx:49 | the attendance query returns exactly the listed records of the selected date |
| `AbsenGuru.AbsensiQueryContents` | src/app/absensi/AbsenGuru.tsx:49 | the view holds a record exactly when it is stored with `tanggal` the selected date |
| `AbsenGuru.AbsensiMap` | src/app/absensi/AbsenGuru.tsx:69 | every looked-up record is in the view and its `jadwalId` equals the key |
| `AbsenGuru.CurrentStatus` | src/app/absensi/AbsenGuru.tsx:119 | a slot without a record shows no status |
| `AbsenGuru.BySchedule` | src/app/absensi/AbsenGuru.tsx:72 | the comparator that orders by `jam` and, when `jam` compares equal, by `kelas`; `ByScheduleIsComparator` states it is a proper one |
| `AbsenGuru.ByScheduleIsComparator` | src/app/absensi/AbsenGuru.tsx:72 | comparing by `jam`, then `kelas`, is a proper comparator |
| `AbsenGuru.JadwalSorted` | src/app/absensi/AbsenGuru.tsx:71-73 | `jadwalSorted` is a permutation of the fetched slots, ordered by `jam` and within equal `jam` by `kelas` |
| `AbsenGuru.AbsensiData` | src/app/absensi/AbsenGuru.tsx:83-89 | the written data has exactly the fields `jadwalId`, `guruId`, `tanggal`, `status` and `keterangan`, so no `id` field |
| `AbsenGuru.StatusChange` | src/app/absensi/AbsenGuru.tsx:76 | a non-admin or a failed write leaves the store unchanged |
| `AbsenGuru.HandleStatusChange` | src/app/absensi/AbsenGuru.tsx:75-97 | the handler changes the store exactly as `StatusChange` says, with a fresh id for a new record; the outcome is success exactly when the write does not throw |
| `AbsenGuru.ExistingRecordReused` | src/app/absensi/AbsenGuru.tsx:78-80 | a record in the view for the slot is written under its own id, and the number of stored records does not change |
| `AbsenGuru.NewRecordAdded` | src/app/absensi/AbsenGuru.tsx:81 | with no record for the slot, exactly one record is added, under an id not previously stored |
| `AbsenGuru.WrittenRecord` | src/app/absensi/AbsenGuru.tsx:83-92 | the target then has the slot's `jadwalId` and `guruId`, the `tanggal`, the `status` and `keterangan` `''`; other fields and all other records are unchanged |
| `AbsenGuru.StatusChangeKeepsOnePerKey` | src/app/absensi/AbsenGuru.tsx:78-92 | from a current view, a status change keeps one record per slot and date, and keeps stored records free of `id` fields |
| `AbsenGuru.StatusChangeIdempotent` | src/app/absensi/AbsenGuru.tsx:78-92 | the same change applied twice, with the view re-derived in between, leaves the store as one application did |
| `AbsenGuru.StatusShownAfterChange` | src/app/absensi/AbsenGuru.tsx:119-130 | after a successful change and a re-derived view, the slot's select shows the chosen status |

## Left out

- src/app/absensi/page.tsx is not part of this model. It only lays out the two screens as tabs.
- Rendering: JSX, CSS classes, `isLoading`, the `Select` widgets and `KELAS_OPTIONS`. These are presentation.
- The `onSnapshot` subscriptions and their cleanup.
  - This is asynchronous Firestore plumbing.
  - A view is modelled as a query of some listing of the store.
  - The order of that listing is left open. Firestore's ordering by document id is not modelled.
- The `jadwal`, `siswa`, `kurikulum` and `gurus` queries and the `kurikulumMap`/`teachersMap` lookups.
  - These catalog reads only feed labels and the input lists.
  - The sorted lists take the fetched records as input.
- The `!firestore` part of the guard. The store object is always present in the model.
- `format(selectedDate, 'yyyy-MM-dd')` and `getDay`: date-fns date handling.
  - The date is taken as an already formatted `todayString`.
  - The weekday is taken as an int in 0..6.
- `Ordering.CompareStrings`: `localeCompare`'s locale collation is not modelled. The model uses plain lexicographic order on characters.
- `Ordering.SortBy`: the stability of `Array.prototype.sort` is not stated. The insertion sort is stable, but no lemma says so.
- The toast texts. The outcome only says ignored, saved or failed, together with the written id.
- `LiveView.IndexBy`: records without the indexed field are dropped.
  - JavaScript keys them under `undefined`.
  - No string lookup reaches that key, so lookups behave the same.
- Attendance-record fields whose value is not a string are not modelled. Every attendance-record field the screens read or write is a string. Other records are typed by their own fields, such as the `Siswa` class number `kelas`, an integer.
- `Store.Collection.SetMerge` treats `setDocumentNonBlocking` as one atomic write that either lands or throws. The helper's body is not part of this model. A write that is rejected after the helper returns is not modelled, so neither is the success toast that `AbsenGuru` would show for it.
- The lemmas on reuse, one record per key, idempotence and the status shown (`ResolveFindsKey`, `ExistingRecordReused`, `StatusChangeKeepsOnePerKey`, `ReDerivedViewFindsTarget`, `StatusChangeIdempotent`, `StatusShownAfterChange`) assume no stored record has an `id` field. With such a field holding a valid document id, the handler writes to the document it names (`AbsenSiswa.StoredIdFieldSplitsRecord`).
- `doc(firestore, name, id)` is taken never to throw. A stored `id` field that is not a valid document id (`''`, or a path such as `'a/b'`) makes the source's `doc` call throw before the `try`, so nothing is written and no toast shows. The model instead writes under that string and reports `Saved`; such ids are not modelled.
