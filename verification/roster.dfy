/** The employee management panel: its form, the edit/add submit, the
    confirmed delete, the cancel, and the department colour of a badge.
    The list handlers write the employee list to storage and nothing else;
    deleting an employee leaves their attendance entries in the ledger. */
module Roster {
  import opened Wrappers
  import opened Types
  import opened Seqs
  import Storage

  datatype EmployeeForm = EmployeeForm(name: string, department: string)

  const BlankForm := EmployeeForm("", "")

  /** Badge colour for a department no department record names. */
  const FallbackColor := "#6b7280"

  /** The panel's state: the list shown, the employee being edited (if any),
      the form and whether the dialog is open. */
  datatype Panel = Panel(
    employees: seq<Employee>,
    departments: seq<Department>,
    editing: Option<Employee>,
    form: EmployeeForm,
    showModal: bool)

  /** `loadData`: the panel's lists as storage reads them. */
  function Load(s: Storage.Store): (res: (Panel, Storage.Store))
    ensures res.0.form == BlankForm && res.0.editing.None? && !res.0.showModal
    ensures res.1.employees == Storage.Holds(res.0.employees)
    ensures res.1.departments == Storage.Holds(res.0.departments)
    ensures res.1.attendance == s.attendance
    ensures res.0.employees == Storage.GetEmployees(s).0
    ensures res.0.departments == Storage.GetDepartments(Storage.GetEmployees(s).1).0
    ensures s.employees.Holds? ==> res.0.employees == s.employees.value
    ensures s.departments.Holds? ==> res.0.departments == s.departments.value
  {
    var (employees, s1) := Storage.GetEmployees(s);
    var (departments, s2) := Storage.GetDepartments(s1);
    (Panel(employees, departments, None, BlankForm, false), s2)
  }

  /** The edit branch of submit: every employee with the edited id takes the
      form's name and department and keeps its id and other fields. */
  function ApplyEdit(employees: seq<Employee>, id: string, form: EmployeeForm): (r: seq<Employee>)
    ensures |r| == |employees|
    ensures forall i :: 0 <= i < |employees| && employees[i].id == id ==>
              r[i].name == form.name && r[i].department == form.department
              && r[i].id == id && r[i].avatar == employees[i].avatar && r[i].ownerId == employees[i].ownerId
    ensures forall i :: 0 <= i < |employees| && employees[i].id != id ==> r[i] == employees[i]
  {
    MapWhere(employees, (e: Employee) => e.id == id,
             (e: Employee) => e.(name := form.name, department := form.department))
  }

  /** The add branch of submit: a new employee from the form at the end. */
  function AppendNew(employees: seq<Employee>, freshId: string, form: EmployeeForm): (r: seq<Employee>)
    ensures |r| == |employees| + 1 && r[..|employees|] == employees
    ensures r[|employees|] == Employee(freshId, form.name, form.department, None, None)
  {
    employees + [Employee(freshId, form.name, form.department, None, None)]
  }

  /** The delete: every employee with the id removed, the rest kept in order. */
  function RemoveById(employees: seq<Employee>, id: string): (r: seq<Employee>)
    ensures forall e :: e in r <==> e in employees && e.id != id
  {
    Filter(employees, (e: Employee) => e.id != id)
  }

  /** `handleSubmit`: edit when an employee is being edited, add otherwise;
      persist the list, then reset the form and close the dialog. */
  function Submit(p: Panel, s: Storage.Store, freshId: string): (res: (Panel, Storage.Store))
    ensures res.0.form == BlankForm && res.0.editing.None? && !res.0.showModal
    ensures res.0.departments == p.departments
    ensures res.1 == s.(employees := Storage.Holds(res.0.employees))
    ensures p.editing.Some? ==> |res.0.employees| == |p.employees|
    ensures p.editing.None? ==> |res.0.employees| == |p.employees| + 1
    ensures p.editing.Some? ==> res.0.employees == ApplyEdit(p.employees, p.editing.value.id, p.form)
    ensures p.editing.None? ==> res.0.employees == AppendNew(p.employees, freshId, p.form)
  {
    var employees := match p.editing
      case Some(emp) => ApplyEdit(p.employees, emp.id, p.form)
      case None => AppendNew(p.employees, freshId, p.form);
    (Panel(employees, p.departments, None, BlankForm, false), Storage.SetEmployees(s, employees))
  }

  /** `handleEdit`: open the dialog on an employee, the form filled from it. */
  function Edit(p: Panel, employee: Employee): (r: Panel)
    ensures r.editing == Some(employee) && r.showModal
    ensures r.form == EmployeeForm(employee.name, employee.department)
    ensures r.employees == p.employees && r.departments == p.departments
  {
    p.(editing := Some(employee), form := EmployeeForm(employee.name, employee.department), showModal := true)
  }

  /** `handleDelete`: when the user confirms, drop the employee from the list
      and persist it. */
  function Delete(p: Panel, s: Storage.Store, id: string, confirmed: bool): (res: (Panel, Storage.Store))
    ensures res.1.attendance == s.attendance && res.1.departments == s.departments
    ensures !confirmed ==> res == (p, s)
    ensures confirmed ==> res.0 == p.(employees := RemoveById(p.employees, id))
    ensures confirmed ==> res.1.employees == Storage.Holds(res.0.employees)
    ensures confirmed ==> forall e :: e in res.0.employees <==> e in p.employees && e.id != id
  {
    if confirmed then
      var employees := RemoveById(p.employees, id);
      (p.(employees := employees), Storage.SetEmployees(s, employees))
    else (p, s)
  }

  /** `handleCancel`: close the dialog, forget the edit, reset the form. */
  function Cancel(p: Panel): (r: Panel)
    ensures r.form == BlankForm && r.editing.None? && !r.showModal
    ensures r.employees == p.employees && r.departments == p.departments
  {
    p.(showModal := false, editing := None, form := BlankForm)
  }

  /** `getDepartmentColor`: the colour of the first department with that
      name; a missing department, or an empty colour, gives the fallback. */
  function DepartmentColor(departments: seq<Department>, name: string): (r: string)
    ensures r != ""
    ensures (forall i :: 0 <= i < |departments| ==> departments[i].name != name) ==> r == FallbackColor
    ensures forall i ::
              (&& 0 <= i < |departments| && departments[i].name == name && departments[i].color != ""
               && (forall j :: 0 <= j < i ==> departments[j].name != name))
              ==> r == departments[i].color
    ensures forall i ::
              (&& 0 <= i < |departments| && departments[i].name == name && departments[i].color == ""
               && (forall j :: 0 <= j < i ==> departments[j].name != name))
              ==> r == FallbackColor
  {
    if departments == [] then FallbackColor
    else if departments[0].name == name then
      (if departments[0].color != "" then departments[0].color else FallbackColor)
    else DepartmentColor(departments[1..], name)
  }

  // -------------------------------------------------------------- lemmas

  /** Deleting keeps the surviving employees in their order, leaves none
      with the id, and a second delete of the same id changes nothing. */
  lemma DeleteProperties(employees: seq<Employee>, id: string, extra: seq<Employee>)
    ensures forall i :: 0 <= i < |RemoveById(employees, id)| ==> RemoveById(employees, id)[i].id != id
    ensures RemoveById(RemoveById(employees, id), id) == RemoveById(employees, id)
    ensures RemoveById(employees + extra, id) == RemoveById(employees, id) + RemoveById(extra, id)
    ensures (forall i :: 0 <= i < |employees| ==> employees[i].id != id) ==> RemoveById(employees, id) == employees
  {
    var p := (e: Employee) => e.id != id;
    FilterNested(employees, p, p);
    FilterConcat(employees, extra, p);
    FilterKeepsAll(employees, p);
  }

  /** An edit preserves the list's ids, position by position. */
  lemma EditKeepsIds(employees: seq<Employee>, id: string, form: EmployeeForm)
    ensures forall i :: 0 <= i < |employees| ==> ApplyEdit(employees, id, form)[i].id == employees[i].id
  {
  }

  /** Opening an employee for editing and submitting the untouched form
      leaves the list unchanged when the ids are unique. */
  lemma EditUnchangedIsIdentity(p: Panel, s: Storage.Store, i: nat, freshId: string)
    requires i < |p.employees|
    requires forall a, b :: 0 <= a < b < |p.employees| ==> p.employees[a].id != p.employees[b].id
    ensures Submit(Edit(p, p.employees[i]), s, freshId).0.employees == p.employees
  {
  }
}
