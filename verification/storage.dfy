/** The browser-storage layer of the planner: three persisted lists, the
    seed data written on first use, and the attendance read path that
    sweeps out old entries and writes back only when it removed some.

    The store is modelled per key as a `Slot`: `Empty` stands for a missing
    key and for the empty string (both are falsy to the source's `if (stored)`),
    `Garbled` for stored text that does not parse, `Holds(v)` for text that
    parses to `v`. Writing a list always leaves `Holds` of it. The retention
    cutoff, which the source derives from the clock, is a parameter. */
module Storage {
  import opened Wrappers
  import opened Types
  import opened Ledger
  import opened Strings

  datatype Slot<T> = Empty | Garbled | Holds(value: T)

  datatype Store = Store(
    employees: Slot<seq<Employee>>,
    departments: Slot<seq<Department>>,
    attendance: Slot<seq<Entry>>)

  const DefaultDepartments: seq<Department> := [
    Department("1", "IT", "#3b82f6"),
    Department("2", "Marketing", "#10b981"),
    Department("3", "Vertrieb", "#f59e0b"),
    Department("4", "HR", "#8b5cf6"),
    Department("5", "Finanzen", "#ef4444")
  ]

  const DefaultEmployees: seq<Employee> := [
    Employee("1", "Max Mustermann", "IT", None, None),
    Employee("2", "Anna Schmidt", "Marketing", None, None),
    Employee("3", "Tom Weber", "Vertrieb", None, None),
    Employee("4", "Lisa Müller", "HR", None, None),
    Employee("5", "Peter Fischer", "Finanzen", None, None)
  ]

  /** Read a list, falling back to the seed (and persisting it) when the
      key is missing, empty or unparsable. */
  function ReadOrSeed<T>(slot: Slot<T>, seed: T): (res: (T, Slot<T>))
    ensures res.1 == Holds(res.0)
    ensures slot.Holds? ==> res.0 == slot.value
    ensures !slot.Holds? ==> res.0 == seed
  {
    match slot
    case Holds(v) => (v, slot)
    case _ => (seed, Holds(seed))
  }

  function GetDepartments(s: Store): (res: (seq<Department>, Store))
    ensures res.1.departments == Holds(res.0)
    ensures res.1.employees == s.employees && res.1.attendance == s.attendance
    ensures s.departments.Holds? ==> res == (s.departments.value, s)
    ensures !s.departments.Holds? ==> res.0 == DefaultDepartments
  {
    var (v, slot) := ReadOrSeed(s.departments, DefaultDepartments);
    (v, s.(departments := slot))
  }

  function GetEmployees(s: Store): (res: (seq<Employee>, Store))
    ensures res.1.employees == Holds(res.0)
    ensures res.1.departments == s.departments && res.1.attendance == s.attendance
    ensures s.employees.Holds? ==> res == (s.employees.value, s)
    ensures !s.employees.Holds? ==> res.0 == DefaultEmployees
  {
    var (v, slot) := ReadOrSeed(s.employees, DefaultEmployees);
    (v, s.(employees := slot))
  }

  /** `setEmployees`: persist the list; a later read returns it unchanged. */
  function SetEmployees(s: Store, employees: seq<Employee>): (r: Store)
    ensures r.departments == s.departments && r.attendance == s.attendance
    ensures GetEmployees(r) == (employees, r)
  {
    s.(employees := Holds(employees))
  }

  /** `setDepartments`: persist the list; a later read returns it unchanged. */
  function SetDepartments(s: Store, departments: seq<Department>): (r: Store)
    ensures r.employees == s.employees && r.attendance == s.attendance
    ensures GetDepartments(r) == (departments, r)
  {
    s.(departments := Holds(departments))
  }

  /** What the attendance read parses out of the store: the stored list,
      or nothing when the key is missing or the text is unparsable. */
  function StoredAttendance(s: Store): seq<Entry> {
    match s.attendance
    case Holds(v) => v
    case _ => []
  }

  /** `getAttendance`: the stored entries dated on or after the cutoff; the
      store is rewritten only when the sweep removed an entry. */
  function GetAttendance(s: Store, cutoff: string): (res: (seq<Entry>, Store))
    ensures forall e :: e in res.0 <==> e in StoredAttendance(s) && AtOrAfter(e.date, cutoff)
    ensures res.0 == Clean(StoredAttendance(s), cutoff)
    ensures res.1.employees == s.employees && res.1.departments == s.departments
    ensures res.1 == s <==> forall i :: 0 <= i < |StoredAttendance(s)| ==> AtOrAfter(StoredAttendance(s)[i].date, cutoff)
    ensures res.1 != s ==> res.1.attendance == Holds(res.0)
  {
    var stored := StoredAttendance(s);
    var cleaned := Clean(stored, cutoff);
    CleanShrinksIffStale(stored, cutoff);
    (cleaned, if |cleaned| != |stored| then s.(attendance := Holds(cleaned)) else s)
  }

  /** `addAttendanceEntry`: read (with its sweep), upsert, write back. */
  function AddAttendanceEntry(s: Store, e: Entry, cutoff: string): (r: Store)
    ensures r.attendance == Holds(Upsert(Clean(StoredAttendance(s), cutoff), e))
    ensures r.employees == s.employees && r.departments == s.departments
  {
    var (attendance, s1) := GetAttendance(s, cutoff);
    s1.(attendance := Holds(Upsert(attendance, e)))
  }

  /** `getAttendanceForDate`: the swept entries of one date. */
  function GetAttendanceForDate(s: Store, date: string, cutoff: string): (res: (seq<Entry>, Store))
    ensures forall e :: e in res.0 <==> e in StoredAttendance(s) && AtOrAfter(e.date, cutoff) && e.date == date
    ensures res.0 == ForDate(Clean(StoredAttendance(s), cutoff), date)
    ensures res.1 == GetAttendance(s, cutoff).1
  {
    var (attendance, s1) := GetAttendance(s, cutoff);
    (ForDate(attendance, date), s1)
  }

  /** `getAttendanceForEmployee`: the swept entries of one employee within
      the inclusive bounds, a missing or empty bound imposing no limit. */
  function GetAttendanceForEmployee(s: Store, employeeId: string, from: Option<string>, to: Option<string>, cutoff: string): (res: (seq<Entry>, Store))
    ensures forall e :: e in res.0 <==>
      && e in StoredAttendance(s) && AtOrAfter(e.date, cutoff)
      && e.employeeId == employeeId
      && (!Bounded(from) || AtOrAfter(e.date, from.value))
      && (!Bounded(to) || AtOrAfter(to.value, e.date))
    ensures res.0 == ForEmployee(Clean(StoredAttendance(s), cutoff), employeeId, from, to)
    ensures res.1 == GetAttendance(s, cutoff).1
  {
    var (attendance, s1) := GetAttendance(s, cutoff);
    (ForEmployee(attendance, employeeId, from, to), s1)
  }

  /** `resetData`: all three keys removed. */
  function ResetData(s: Store): (r: Store)
    ensures r.employees == Empty && r.departments == Empty && r.attendance == Empty
  {
    Store(Empty, Empty, Empty)
  }

  // -------------------------------------------------------------- lemmas

  /** The seed fallback settles: after one read the list is persisted, and
      a second read returns the same list without writing. */
  lemma ReadsSettle(s: Store)
    ensures var (d, s1) := GetDepartments(s); GetDepartments(s1) == (d, s1)
    ensures var (m, s1) := GetEmployees(s); GetEmployees(s1) == (m, s1)
  {
  }

  /** After a reset the seed lists come back, and the attendance is empty. */
  lemma ResetReseeds(s: Store, cutoff: string)
    ensures GetDepartments(ResetData(s)).0 == DefaultDepartments
    ensures GetEmployees(ResetData(s)).0 == DefaultEmployees
    ensures GetAttendance(ResetData(s), cutoff) == ([], ResetData(s))
  {
  }

  /** The attendance read settles: a second read with the same cutoff sees
      the same entries and writes nothing. */
  lemma GetAttendanceSettles(s: Store, cutoff: string)
    ensures var (l, s1) := GetAttendance(s, cutoff); GetAttendance(s1, cutoff) == (l, s1)
  {
    var stored := StoredAttendance(s);
    CleanIdempotent(stored, cutoff);
    CleanShrinksIffStale(Clean(stored, cutoff), cutoff);
  }

  /** An unparsable attendance text reads as empty and is left in place. */
  lemma GarbledAttendanceReadsEmpty(s: Store, cutoff: string)
    requires s.attendance == Garbled
    ensures GetAttendance(s, cutoff) == ([], s)
  {
  }

  /** Reading after adding an entry dated on or after the cutoff finds that
      entry in its cell. */
  lemma AddThenRead(s: Store, e: Entry, cutoff: string)
    requires AtOrAfter(e.date, cutoff)
    ensures Lookup(GetAttendance(AddAttendanceEntry(s, e, cutoff), cutoff).0, e.employeeId, e.date) == Some(e)
    ensures GetAttendance(AddAttendanceEntry(s, e, cutoff), cutoff).0
         == Upsert(Clean(StoredAttendance(s), cutoff), e)
  {
    var l := Clean(StoredAttendance(s), cutoff);
    var u := Upsert(l, e);
    CleanIdempotent(StoredAttendance(s), cutoff);
    CleanAfterUpsert(l, e, cutoff);
    CleanShrinksIffStale(u, cutoff);
    UpsertThenLookup(l, e, e.employeeId, e.date);
  }

  /** An upsert into a swept ledger of an entry that survives the sweep
      leaves a swept ledger. */
  lemma CleanAfterUpsert(l: seq<Entry>, e: Entry, cutoff: string)
    requires AtOrAfter(e.date, cutoff)
    requires Clean(l, cutoff) == l
    ensures Clean(Upsert(l, e), cutoff) == Upsert(l, e)
  {
    CleanShrinksIffStale(l, cutoff);
    var u := Upsert(l, e);
    assert forall i :: 0 <= i < |u| ==> AtOrAfter(u[i].date, cutoff) by {
      forall i | 0 <= i < |u| ensures AtOrAfter(u[i].date, cutoff) {
        match FindCell(l, e.employeeId, e.date)
        case Some(k) =>
          assert u == l[k := e];
          if i != k { assert u[i] == l[i]; }
        case None =>
          assert u == l + [e];
          if i < |l| { assert u[i] == l[i]; }
      }
    }
    CleanShrinksIffStale(u, cutoff);
  }

  /** Adding keeps the stored ledger free of duplicate cells. */
  lemma AddKeepsCellsUnique(s: Store, e: Entry, cutoff: string)
    requires UniqueCells(StoredAttendance(s))
    ensures UniqueCells(StoredAttendance(AddAttendanceEntry(s, e, cutoff)))
  {
    var stored := StoredAttendance(s);
    CleanKeepsCellsUnique(stored, cutoff);
    UpsertKeepsCellsUnique(Clean(stored, cutoff), e);
  }

  lemma {:induction false} CleanKeepsCellsUnique(l: seq<Entry>, cutoff: string)
    requires UniqueCells(l)
    ensures UniqueCells(Clean(l, cutoff))
  {
    if l != [] {
      assert UniqueCells(l[1..]) by {
        forall i, j | 0 <= i < j < |l[1..]| ensures !IsCell(l[1..][j], l[1..][i].employeeId, l[1..][i].date) {
          assert l[1..][i] == l[i + 1] && l[1..][j] == l[j + 1];
        }
      }
      CleanKeepsCellsUnique(l[1..], cutoff);
      var rest := Clean(l[1..], cutoff);
      if AtOrAfter(l[0].date, cutoff) {
        assert Clean(l, cutoff) == [l[0]] + rest;
        assert forall j :: 0 <= j < |rest| ==> !IsCell(rest[j], l[0].employeeId, l[0].date) by {
          forall j | 0 <= j < |rest| ensures !IsCell(rest[j], l[0].employeeId, l[0].date) {
            assert rest[j] in l[1..];
          }
        }
      } else {
        assert Clean(l, cutoff) == rest;
      }
    }
  }
}
