/** The settings panel's department administration: the edit/add submit,
    the confirmed delete, the cancel, and the form's defaults. */
module Settings {
  import opened Wrappers
  import opened Types
  import opened Seqs
  import Storage

  datatype DepartmentForm = DepartmentForm(name: string, color: string)

  /** The form a dialog opens with and is reset to: no name, the blue of
      the first seed department. */
  const DefaultForm := DepartmentForm("", "#3b82f6")

  datatype Panel = Panel(
    departments: seq<Department>,
    editing: Option<Department>,
    form: DepartmentForm,
    showModal: bool)

  /** `loadData`: the department list as storage reads it. */
  function Load(s: Storage.Store): (res: (Panel, Storage.Store))
    ensures res.0.form == DefaultForm && res.0.editing.None? && !res.0.showModal
    ensures res.1.departments == Storage.Holds(res.0.departments)
    ensures res.1.employees == s.employees && res.1.attendance == s.attendance
    ensures res.0.departments == Storage.GetDepartments(s).0
    ensures s.departments.Holds? ==> res.0.departments == s.departments.value
  {
    var (departments, s1) := Storage.GetDepartments(s);
    (Panel(departments, None, DefaultForm, false), s1)
  }

  /** The edit branch of submit: every department with the edited id takes
      the form's name and colour and keeps its id. */
  function ApplyEdit(departments: seq<Department>, id: string, form: DepartmentForm): (r: seq<Department>)
    ensures |r| == |departments|
    ensures forall i :: 0 <= i < |departments| && departments[i].id == id ==>
              r[i] == Department(id, form.name, form.color)
    ensures forall i :: 0 <= i < |departments| && departments[i].id != id ==> r[i] == departments[i]
  {
    MapWhere(departments, (d: Department) => d.id == id,
             (d: Department) => d.(name := form.name, color := form.color))
  }

  /** The add branch of submit: a new department from the form at the end. */
  function AppendNew(departments: seq<Department>, freshId: string, form: DepartmentForm): (r: seq<Department>)
    ensures |r| == |departments| + 1 && r[..|departments|] == departments
    ensures r[|departments|] == Department(freshId, form.name, form.color)
  {
    departments + [Department(freshId, form.name, form.color)]
  }

  /** The delete: every department with the id removed, the rest in order. */
  function RemoveById(departments: seq<Department>, id: string): (r: seq<Department>)
    ensures forall d :: d in r <==> d in departments && d.id != id
  {
    Filter(departments, (d: Department) => d.id != id)
  }

  /** `handleSubmit`: edit or add, persist, reset the form, close the dialog. */
  function Submit(p: Panel, s: Storage.Store, freshId: string): (res: (Panel, Storage.Store))
    ensures res.0.form == DefaultForm && res.0.editing.None? && !res.0.showModal
    ensures res.1 == s.(departments := Storage.Holds(res.0.departments))
    ensures p.editing.Some? ==> |res.0.departments| == |p.departments|
    ensures p.editing.None? ==> |res.0.departments| == |p.departments| + 1
    ensures p.editing.Some? ==> res.0.departments == ApplyEdit(p.departments, p.editing.value.id, p.form)
    ensures p.editing.None? ==> res.0.departments == AppendNew(p.departments, freshId, p.form)
  {
    var departments := match p.editing
      case Some(d) => ApplyEdit(p.departments, d.id, p.form)
      case None => AppendNew(p.departments, freshId, p.form);
    (Panel(departments, None, DefaultForm, false), Storage.SetDepartments(s, departments))
  }

  /** `handleEdit`: open the dialog on a department, the form filled from it. */
  function Edit(p: Panel, department: Department): (r: Panel)
    ensures r.editing == Some(department) && r.showModal
    ensures r.form == DepartmentForm(department.name, department.color)
    ensures r.departments == p.departments
  {
    p.(editing := Some(department), form := DepartmentForm(department.name, department.color), showModal := true)
  }

  /** `handleDelete`: when the user confirms, drop the department and persist. */
  function Delete(p: Panel, s: Storage.Store, id: string, confirmed: bool): (res: (Panel, Storage.Store))
    ensures res.1.attendance == s.attendance && res.1.employees == s.employees
    ensures !confirmed ==> res == (p, s)
    ensures confirmed ==> res.0 == p.(departments := RemoveById(p.departments, id))
    ensures confirmed ==> res.1.departments == Storage.Holds(res.0.departments)
    ensures confirmed ==> forall d :: d in res.0.departments <==> d in p.departments && d.id != id
  {
    if confirmed then
      var departments := RemoveById(p.departments, id);
      (p.(departments := departments), Storage.SetDepartments(s, departments))
    else (p, s)
  }

  /** `handleCancel`: close the dialog, forget the edit, reset the form. */
  function Cancel(p: Panel): (r: Panel)
    ensures r.form == DefaultForm && r.editing.None? && !r.showModal
    ensures r.departments == p.departments
  {
    p.(showModal := false, editing := None, form := DefaultForm)
  }

  // -------------------------------------------------------------- lemmas

  /** Deleting keeps the surviving departments in order, leaves none with
      the id, and is idempotent. */
  lemma DeleteProperties(departments: seq<Department>, id: string, extra: seq<Department>)
    ensures forall i :: 0 <= i < |RemoveById(departments, id)| ==> RemoveById(departments, id)[i].id != id
    ensures RemoveById(RemoveById(departments, id), id) == RemoveById(departments, id)
    ensures RemoveById(departments + extra, id) == RemoveById(departments, id) + RemoveById(extra, id)
  {
    var p := (d: Department) => d.id != id;
    FilterNested(departments, p, p);
    FilterConcat(departments, extra, p);
  }

  /** Whichever way the dialog closes, the next one opens on the defaults;
      an add then appends exactly the default-named department. */
  lemma FormResets(p: Panel, s: Storage.Store, freshId: string)
    ensures Submit(p, s, freshId).0.form == Cancel(p).form == DefaultForm
    ensures var q := Submit(p, s, freshId).0;
            Submit(q, s, freshId).0.departments == q.departments + [Department(freshId, "", "#3b82f6")]
  {
  }
}
