/** The older storage layer (`utils/storage.ts`): the same keys, seeds and
    ledger logic as `Storage`, but without the guarded storage wrapper and
    without catching parse errors. An unparsable stored text makes every
    read of that key throw; the model returns None then, and since the
    throw comes before any write, the store is left as it was. */
module LegacyStorage {
  import opened Wrappers
  import opened Types
  import opened Ledger
  import opened Strings
  import Storage

  type Store = Storage.Store

  function GetDepartments(s: Store): (res: Option<(seq<Department>, Store)>)
    ensures res.None? <==> s.departments.Garbled?
  {
    match s.departments
    case Garbled => None
    case Holds(v) => Some((v, s))
    case Empty => Some((Storage.DefaultDepartments, s.(departments := Storage.Holds(Storage.DefaultDepartments))))
  }

  function GetEmployees(s: Store): (res: Option<(seq<Employee>, Store)>)
    ensures res.None? <==> s.employees.Garbled?
  {
    match s.employees
    case Garbled => None
    case Holds(v) => Some((v, s))
    case Empty => Some((Storage.DefaultEmployees, s.(employees := Storage.Holds(Storage.DefaultEmployees))))
  }

  function GetAttendance(s: Store, cutoff: string): (res: Option<(seq<Entry>, Store)>)
    ensures res.None? <==> s.attendance.Garbled?
    ensures res.Some? ==> forall e :: e in res.value.0 <==> e in Storage.StoredAttendance(s) && AtOrAfter(e.date, cutoff)
    ensures res.Some? ==> res.value.0 == Clean(Storage.StoredAttendance(s), cutoff)
    ensures res.Some? ==> (res.value.1 == s <==> Clean(Storage.StoredAttendance(s), cutoff) == Storage.StoredAttendance(s))
  {
    if s.attendance.Garbled? then None
    else
      var stored := if s.attendance.Holds? then s.attendance.value else [];
      var cleaned := Clean(stored, cutoff);
      CleanShrinksIffStale(stored, cutoff);
      Some((cleaned, if |cleaned| != |stored| then s.(attendance := Storage.Holds(cleaned)) else s))
  }

  function AddAttendanceEntry(s: Store, e: Entry, cutoff: string): (res: Option<Store>)
    ensures res.None? <==> s.attendance.Garbled?
    ensures res.Some? ==> res.value.attendance == Storage.Holds(Upsert(Clean(Storage.StoredAttendance(s), cutoff), e))
  {
    match GetAttendance(s, cutoff)
    case None => None
    case Some((attendance, s1)) => Some(s1.(attendance := Storage.Holds(Upsert(attendance, e))))
  }

  function GetAttendanceForDate(s: Store, date: string, cutoff: string): (res: Option<(seq<Entry>, Store)>)
    ensures res.None? <==> s.attendance.Garbled?
    ensures res.Some? ==> forall e :: e in res.value.0 <==>
              e in Storage.StoredAttendance(s) && AtOrAfter(e.date, cutoff) && e.date == date
    ensures res.Some? ==> res.value.0 == ForDate(Clean(Storage.StoredAttendance(s), cutoff), date)
  {
    match GetAttendance(s, cutoff)
    case None => None
    case Some((attendance, s1)) => Some((ForDate(attendance, date), s1))
  }

  function GetAttendanceForEmployee(s: Store, employeeId: string, from: Option<string>, to: Option<string>, cutoff: string): (res: Option<(seq<Entry>, Store)>)
    ensures res.None? <==> s.attendance.Garbled?
    ensures res.Some? ==> forall e :: e in res.value.0 <==>
      && e in Storage.StoredAttendance(s) && AtOrAfter(e.date, cutoff)
      && e.employeeId == employeeId
      && (!Bounded(from) || AtOrAfter(e.date, from.value))
      && (!Bounded(to) || AtOrAfter(to.value, e.date))
    ensures res.Some? ==> res.value.0 == ForEmployee(Clean(Storage.StoredAttendance(s), cutoff), employeeId, from, to)
  {
    match GetAttendance(s, cutoff)
    case None => None
    case Some((attendance, s1)) => Some((ForEmployee(attendance, employeeId, from, to), s1))
  }

  /** Wherever the stored text parses (or is missing), the older layer does
      exactly what the guarded one does. */
  lemma AgreesWithStorage(s: Store, e: Entry, date: string, employeeId: string,
                          from: Option<string>, to: Option<string>, cutoff: string)
    ensures !s.departments.Garbled? ==> GetDepartments(s) == Some(Storage.GetDepartments(s))
    ensures !s.employees.Garbled? ==> GetEmployees(s) == Some(Storage.GetEmployees(s))
    ensures !s.attendance.Garbled? ==> GetAttendance(s, cutoff) == Some(Storage.GetAttendance(s, cutoff))
    ensures !s.attendance.Garbled? ==> AddAttendanceEntry(s, e, cutoff) == Some(Storage.AddAttendanceEntry(s, e, cutoff))
    ensures !s.attendance.Garbled? ==> GetAttendanceForDate(s, date, cutoff) == Some(Storage.GetAttendanceForDate(s, date, cutoff))
    ensures !s.attendance.Garbled? ==>
      GetAttendanceForEmployee(s, employeeId, from, to, cutoff) == Some(Storage.GetAttendanceForEmployee(s, employeeId, from, to, cutoff))
  {
  }

  /** Where the guarded layer recovers from unparsable text, the older one
      fails: departments and employees fall back to the seeds there, the
      attendance reads as empty. */
  lemma DiffersOnGarbledText(s: Store, cutoff: string)
    ensures s.departments.Garbled? ==> GetDepartments(s).None? && Storage.GetDepartments(s).0 == Storage.DefaultDepartments
    ensures s.employees.Garbled? ==> GetEmployees(s).None? && Storage.GetEmployees(s).0 == Storage.DefaultEmployees
    ensures s.attendance.Garbled? ==> GetAttendance(s, cutoff).None? && Storage.GetAttendance(s, cutoff) == ([], s)
  {
  }
}
