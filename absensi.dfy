/**
  What the teacher and student attendance screens share: the four attendance
  statuses, the weekday names, the catalog records they read, and what a
  status change reports back.
 */
module Absensi {
  import opened Store

  datatype Option<T> = None | Some(value: T)

  /** `AbsensiSiswa['status']` and `AbsensiGuru['status']`. */
  datatype Status = Hadir | Izin | Sakit | Alpha

  /** The status as stored in a record's `status` field. */
  function StatusName(s: Status): string {
    match s
    case Hadir => "Hadir"
    case Izin => "Izin"
    case Sakit => "Sakit"
    case Alpha => "Alpha"
  }

  /** Reads a stored `status` field back. */
  function ParseStatus(name: string): (r: Option<Status>)
    ensures r.Some? ==> StatusName(r.value) == name
  {
    if name == "Hadir" then Some(Hadir)
    else if name == "Izin" then Some(Izin)
    else if name == "Sakit" then Some(Sakit)
    else if name == "Alpha" then Some(Alpha)
    else None
  }

  /** Every status is stored under a name of its own, which reads back as it. */
  lemma StatusNameRoundTrip(s: Status)
    ensures ParseStatus(StatusName(s)) == Some(s)
    ensures StatusName(s) != ""
  {
  }

  /** `STATUS_OPTIONS`, in the order the selects list them. */
  const STATUS_OPTIONS: seq<Status> := [Hadir, Izin, Sakit, Alpha]

  /** The options list every status exactly once. */
  lemma StatusOptionsComplete(s: Status)
    ensures s in STATUS_OPTIONS
    ensures multiset(STATUS_OPTIONS)[s] == 1
  {
  }

  /** `HARI_MAP`: weekday names indexed by `getDay`, Sunday first. */
  const HARI_MAP: seq<string> := ["Minggu", "Senin", "Selasa", "Rabu", "Kamis", "Jumat", "Sabtu"]

  /** `HARI_MAP[getDay(selectedDate)]`; `getDay` yields 0 (Sunday) to 6. */
  function DayName(weekday: int): (r: string)
    requires 0 <= weekday < 7
    ensures r in HARI_MAP
  {
    HARI_MAP[weekday]
  }

  /** The position of `name` in `HARI_MAP`, the weekday it names. */
  function DayIndex(name: string): (r: Option<int>)
    ensures r.Some? ==> 0 <= r.value < 7 && HARI_MAP[r.value] == name
    ensures r.None? ==> name !in HARI_MAP
  {
    if name == "Minggu" then Some(0)
    else if name == "Senin" then Some(1)
    else if name == "Selasa" then Some(2)
    else if name == "Rabu" then Some(3)
    else if name == "Kamis" then Some(4)
    else if name == "Jumat" then Some(5)
    else if name == "Sabtu" then Some(6)
    else None
  }

  /** Each weekday has its own name: the name gives the weekday back. */
  lemma DayNameRoundTrip(weekday: int)
    requires 0 <= weekday < 7
    ensures DayIndex(DayName(weekday)) == Some(weekday)
  {
  }

  /** A student as the `siswa` query returns it (the fields the screens use). */
  datatype Siswa = Siswa(id: Id, nama: string, nis: string, kelas: int, status: string)

  /** A schedule slot as the `jadwal` query returns it. */
  datatype Jadwal = Jadwal(id: Id, hari: string, jam: string, kelas: string, kurikulumId: Id, guruId: Id)

  /**
    What a status change comes to: returned early by the guard, written to
    `target`, or a write to `target` that threw (the destructive toast).
   */
  datatype Outcome = Ignored | Saved(target: Id) | Failed(target: Id)

  /** The outcome of a change that passed its guard and wrote to `target`. */
  function WriteOutcome(target: Id, fails: bool): (o: Outcome)
    ensures o.Saved? <==> !fails
    ensures !o.Ignored? && o.target == target
  {
    if fails then Failed(target) else Saved(target)
  }
}
