/**
 * The department list page: the per-department employee count, the search
 * filter, the avatar colour, the summary figures, and the delete flow, which
 * refuses to open the confirmation dialog for a department that still has
 * employees.
 */
module DepartmentList {

  import opened Wrappers
  import opened Text
  import opened Decimal
  import opened ClientCommon
  import opened Sequences

  /** The department id of every loaded employee, in list order. */
  function DepartmentIds(employees: seq<Employee>): seq<int>
  {
    if employees == [] then [] else [employees[0].department.id] + DepartmentIds(employees[1..])
  }

  /** `getEmployeeCount(deptId)`: how many loaded employees belong to department `deptId`. */
  function EmployeeCount(employees: seq<Employee>, deptId: int): (r: nat)
    ensures r <= |employees|
    ensures r == 0 <==> forall i :: 0 <= i < |employees| ==> employees[i].department.id != deptId
    ensures r == |employees| <==> forall i :: 0 <= i < |employees| ==> employees[i].department.id == deptId
  {
    var members := Keep(employees, (e: Employee) => e.department.id == deptId);
    assert members == [] <==> forall i :: 0 <= i < |employees| ==> employees[i].department.id != deptId by {
      if members != [] {
        assert members[0] in members;
        var i :| 0 <= i < |employees| && employees[i] == members[0];
      } else {
        forall i | 0 <= i < |employees| ensures employees[i].department.id != deptId {
          assert employees[i] in employees;
        }
      }
    }
    |members|
  }

  /**
   * The count shown for a department is the number of times its id occurs
   * among the loaded employees' department ids.
   */
  lemma {:induction false} EmployeeCountIsOccurrences(employees: seq<Employee>, deptId: int)
    ensures EmployeeCount(employees, deptId) == multiset(DepartmentIds(employees))[deptId]
  {
    if employees != [] {
      EmployeeCountIsOccurrences(employees[1..], deptId);
      assert multiset(DepartmentIds(employees)) == multiset{employees[0].department.id} + multiset(DepartmentIds(employees[1..]));
    }
  }

  /** Whether a department's name matches the search term, ignoring case. */
  predicate NameMatches(d: Department, term: string)
  {
    Contains(Lower(d.name), Lower(term))
  }

  /**
   * The search effect: the departments whose lower-cased name contains the
   * lower-cased term, in their original order.
   */
  function FilterDepartments(departments: seq<Department>, term: string): (r: seq<Department>)
    ensures forall d :: d in r <==> d in departments && NameMatches(d, term)
    ensures IsSubsequence(r, departments)
    ensures |r| == |departments| <==> forall i :: 0 <= i < |departments| ==> NameMatches(departments[i], term)
  {
    Keep(departments, (d: Department) => NameMatches(d, term))
  }

  /** A department row that matches is shown as many times as it was loaded; one that does not, never. */
  lemma FilterDepartmentsCounts(departments: seq<Department>, term: string)
    ensures forall d ::
      multiset(FilterDepartments(departments, term))[d] == if NameMatches(d, term) then multiset(departments)[d] else 0
  {
    KeepCounts(departments, (d: Department) => NameMatches(d, term));
  }

  /** An empty search box shows every department, in order. */
  lemma EmptySearchKeepsAll(departments: seq<Department>)
    ensures FilterDepartments(departments, "") == departments
  {
    forall i | 0 <= i < |departments| ensures NameMatches(departments[i], "") {
      ContainsBasics(Lower(departments[i].name), "", "", "");
    }
    KeepEverything(departments, (d: Department) => NameMatches(d, ""));
  }

  const Palette: seq<string> := ["primary", "secondary", "success", "warning", "error", "info"]

  /** `getDepartmentColor`: picks a palette colour by the length of the name. */
  function DepartmentColor(name: string): (r: string)
    ensures r in Palette
  {
    Palette[|name| % |Palette|]
  }

  /** The colour depends on the name's length only, and cycles through the palette every six characters. */
  lemma DepartmentColorByLength(a: string, b: string)
    ensures |a| == |b| ==> DepartmentColor(a) == DepartmentColor(b)
    ensures |b| == |a| + 6 ==> DepartmentColor(a) == DepartmentColor(b)
  {
    if |b| == |a| + 6 {
      assert |b| % 6 == |a| % 6;
    }
  }

  /** Two names from the seeded data. */
  lemma DepartmentColorExamples()
    ensures DepartmentColor("HR") == "success" && DepartmentColor("Finance") == "secondary"
  {
    assert |"Finance"| % 6 == 1;
  }

  /** "Avg Employees/Dept": the whole number nearest employees per department, 0 without departments. */
  function AverageEmployeesPerDepartment(employeeCount: nat, departmentCount: nat): (r: nat)
    ensures departmentCount == 0 ==> r == 0
    ensures departmentCount > 0 ==>
      departmentCount * (2 * r) <= 2 * employeeCount + departmentCount < departmentCount * (2 * r + 2)
  {
    RoundedQuotient(employeeCount, departmentCount)
  }

  /** The status chip: "Active" exactly when some loaded employee belongs to the department. */
  function StatusLabel(employees: seq<Employee>, d: Department): (r: string)
    ensures r == "Active" <==> exists i :: 0 <= i < |employees| && employees[i].department.id == d.id
    ensures r == "Active" || r == "Empty"
  {
    if EmployeeCount(employees, d.id) > 0 then "Active" else "Empty"
  }

  /** The delete button is disabled exactly when some loaded employee belongs to the department. */
  function DeleteDisabled(employees: seq<Employee>, d: Department): (r: bool)
    ensures r <==> exists i :: 0 <= i < |employees| && employees[i].department.id == d.id
  {
    EmployeeCount(employees, d.id) > 0
  }

  /** The disabled button and the status chip agree: deletion is offered exactly for "Empty" departments. */
  lemma DeleteOfferedOnlyWhenEmpty(employees: seq<Employee>, d: Department)
    ensures !DeleteDisabled(employees, d) <==> StatusLabel(employees, d) == "Empty"
    ensures !DeleteDisabled(employees, d) <==> forall i :: 0 <= i < |employees| ==> employees[i].department.id != d.id
  {
  }

  const BlockedHead := "Cannot delete \""
  const BlockedMiddle := "\" because it has "
  const BlockedTail := " employee(s). Please reassign or remove employees first."

  /** The warning shown when deletion is refused. */
  function BlockedMessage(d: Department, count: nat): (r: string)
    ensures Contains(r, NatToDecimal(count)) && Contains(r, d.name)
  {
    var n := NatToDecimal(count);
    var named := BlockedHead + d.name + BlockedMiddle;
    ContainsBasics(named, BlockedHead, d.name, BlockedMiddle);
    ContainsExtended(named, n, d.name);
    ContainsExtended(named + n, BlockedTail, d.name);
    ContainsBasics(named, named, n, BlockedTail);
    named + n + BlockedTail
  }

  /** The delete button's tooltip. */
  function DeleteTooltip(count: nat): (r: string)
    ensures count > 0 ==> Contains(r, NatToDecimal(count))
    ensures count == 0 <==> r == "Delete Department"
  {
    if count > 0 then
      var r := "Cannot delete: " + NatToDecimal(count) + " employee(s) assigned";
      ContainsBasics(r, "Cannot delete: ", NatToDecimal(count), " employee(s) assigned");
      assert r[0] == 'C' != "Delete Department"[0];
      r
    else "Delete Department"
  }

  function DeletedMessage(d: Department): string
  {
    "Department \"" + d.name + "\" has been deleted successfully!"
  }

  const DeleteFailedMessage := "Failed to delete department. It may have associated employees."
  const LoadFailedMessage := "Tidak dapat memuatkan data jabatan."

  /** The page's state: what was fetched, the search, the delete dialog and the notification bar. */
  class DepartmentListPage {
    var departments: seq<Department>
    var employees: seq<Employee>
    var filteredDepartments: seq<Department>
    var loading: bool
    var error: string
    var searchTerm: string
    var deleteDialogOpen: bool
    var departmentToDelete: Option<Department>
    var snackbar: Snackbar
    var fetchesStarted: nat   // how many times `fetchData` has been started

    /** The filtered list follows the search, and the dialog is open exactly while a department is selected. */
    ghost predicate Valid()
      reads this
    {
      filteredDepartments == FilterDepartments(departments, searchTerm) &&
      (deleteDialogOpen <==> departmentToDelete.Some?)
    }

    /**
     * The page mounts: empty lists, the loading indicator, a first fetch, and
     * the success message handed over by the add or edit page, if any (an
     * empty message is falsy and shows nothing).
     */
    constructor (navigationMessage: Option<string>)
      ensures Valid()
      ensures departments == [] && employees == [] && filteredDepartments == [] && searchTerm == ""
      ensures loading && error == "" && !deleteDialogOpen && fetchesStarted == 1
      ensures snackbar == if navigationMessage.Some? && navigationMessage.value != "" then Snackbar(true, navigationMessage.value, Success) else ClosedSnackbar
    {
      departments, employees, filteredDepartments, searchTerm := [], [], [], "";
      loading, error := true, "";
      deleteDialogOpen, departmentToDelete := false, None;
      snackbar := if navigationMessage.Some? && navigationMessage.value != "" then Snackbar(true, navigationMessage.value, Success) else ClosedSnackbar;
      fetchesStarted := 1;
    }

    /** A fetch came back: both lists are replaced, the search effect refilters and loading ends. */
    method DataLoaded(fetchedDepartments: seq<Department>, fetchedEmployees: seq<Employee>)
      requires Valid()
      modifies this
      ensures Valid()
      ensures departments == fetchedDepartments && employees == fetchedEmployees && !loading
      ensures filteredDepartments == FilterDepartments(fetchedDepartments, searchTerm)
      ensures error == old(error) && searchTerm == old(searchTerm)
      ensures deleteDialogOpen == old(deleteDialogOpen) && departmentToDelete == old(departmentToDelete)
      ensures snackbar == old(snackbar) && fetchesStarted == old(fetchesStarted)
    {
      departments, employees := fetchedDepartments, fetchedEmployees;
      filteredDepartments := FilterDepartments(departments, searchTerm);
      loading := false;
    }

    /** A fetch failed: the error banner shows, loading ends, the lists stay as they were. */
    method LoadFailed()
      requires Valid()
      modifies this
      ensures Valid()
      ensures error == LoadFailedMessage && !loading
      ensures departments == old(departments) && employees == old(employees)
      ensures filteredDepartments == old(filteredDepartments) && searchTerm == old(searchTerm)
      ensures deleteDialogOpen == old(deleteDialogOpen) && departmentToDelete == old(departmentToDelete)
      ensures snackbar == old(snackbar) && fetchesStarted == old(fetchesStarted)
    {
      error, loading := LoadFailedMessage, false;
    }

    /** The search box changed: the search effect refilters. */
    method SetSearchTerm(term: string)
      requires Valid()
      modifies this
      ensures Valid()
      ensures searchTerm == term && filteredDepartments == FilterDepartments(departments, term)
      ensures departments == old(departments) && employees == old(employees)
      ensures loading == old(loading) && error == old(error)
      ensures deleteDialogOpen == old(deleteDialogOpen) && departmentToDelete == old(departmentToDelete)
      ensures snackbar == old(snackbar) && fetchesStarted == old(fetchesStarted)
    {
      searchTerm := term;
      filteredDepartments := FilterDepartments(departments, term);
    }

    /**
     * `handleDeleteClick`: a department that still has employees gets a
     * warning naming the count and no dialog; an empty one is selected and
     * the dialog opens.
     */
    method DeleteClick(d: Department)
      requires Valid()
      modifies this
      ensures Valid()
      ensures var count := EmployeeCount(employees, d.id);
        if count > 0 then
          deleteDialogOpen == old(deleteDialogOpen) && departmentToDelete == old(departmentToDelete) &&
          snackbar == Snackbar(true, BlockedMessage(d, count), Warning)
        else
          deleteDialogOpen && departmentToDelete == Some(d) && snackbar == old(snackbar)
      ensures departments == old(departments) && employees == old(employees)
      ensures filteredDepartments == old(filteredDepartments) && searchTerm == old(searchTerm)
      ensures loading == old(loading) && error == old(error) && fetchesStarted == old(fetchesStarted)
    {
      var count := EmployeeCount(employees, d.id);
      if count > 0 {
        snackbar := Snackbar(true, BlockedMessage(d, count), Warning);
        return;
      }
      departmentToDelete := Some(d);
      deleteDialogOpen := true;
    }

    /**
     * `handleDeleteConfirm`, given whether the delete request succeeded: on
     * success the dialog closes, the selection is cleared, a success message
     * shows and the data is fetched again; on failure only an error message
     * shows. Without a selection nothing happens.
     */
    method DeleteConfirm(deleteSucceeded: bool)
      requires Valid()
      modifies this
      ensures Valid()
      ensures old(departmentToDelete).None? ==>
        deleteDialogOpen == old(deleteDialogOpen) && departmentToDelete == old(departmentToDelete) &&
        snackbar == old(snackbar) && fetchesStarted == old(fetchesStarted)
      ensures old(departmentToDelete).Some? && deleteSucceeded ==>
        !deleteDialogOpen && departmentToDelete == None &&
        snackbar == Snackbar(true, DeletedMessage(old(departmentToDelete).value), Success) &&
        fetchesStarted == old(fetchesStarted) + 1
      ensures old(departmentToDelete).Some? && !deleteSucceeded ==>
        deleteDialogOpen == old(deleteDialogOpen) && departmentToDelete == old(departmentToDelete) &&
        snackbar == Snackbar(true, DeleteFailedMessage, Error) && fetchesStarted == old(fetchesStarted)
      ensures departments == old(departments) && employees == old(employees)
      ensures filteredDepartments == old(filteredDepartments) && searchTerm == old(searchTerm)
      ensures loading == old(loading) && error == old(error)
    {
      if departmentToDelete.Some? {
        if deleteSucceeded {
          deleteDialogOpen := false;
          snackbar := Snackbar(true, DeletedMessage(departmentToDelete.value), Success);
          departmentToDelete := None;
          fetchesStarted := fetchesStarted + 1;
        } else {
          snackbar := Snackbar(true, DeleteFailedMessage, Error);
        }
      }
    }

    /** `handleDeleteCancel`, also run when the dialog is dismissed: it closes and the selection is cleared. */
    method DeleteCancel()
      requires Valid()
      modifies this
      ensures Valid()
      ensures !deleteDialogOpen && departmentToDelete == None
      ensures departments == old(departments) && employees == old(employees)
      ensures filteredDepartments == old(filteredDepartments) && searchTerm == old(searchTerm)
      ensures loading == old(loading) && error == old(error)
      ensures snackbar == old(snackbar) && fetchesStarted == old(fetchesStarted)
    {
      deleteDialogOpen := false;
      departmentToDelete := None;
    }

    /** Closing the error alert: the error clears and nothing else changes. */
    method DismissError()
      requires Valid()
      modifies this
      ensures Valid()
      ensures error == ""
      ensures departments == old(departments) && employees == old(employees)
      ensures filteredDepartments == old(filteredDepartments) && searchTerm == old(searchTerm)
      ensures loading == old(loading) && snackbar == old(snackbar)
      ensures deleteDialogOpen == old(deleteDialogOpen) && departmentToDelete == old(departmentToDelete)
      ensures fetchesStarted == old(fetchesStarted)
    {
      error := "";
    }

    /** `handleCloseSnackbar`: the notification bar closes, keeping its message and severity. */
    method CloseSnackbar()
      requires Valid()
      modifies this
      ensures Valid()
      ensures snackbar == old(snackbar).(open := false)
      ensures departments == old(departments) && employees == old(employees)
      ensures filteredDepartments == old(filteredDepartments) && searchTerm == old(searchTerm)
      ensures loading == old(loading) && error == old(error)
      ensures deleteDialogOpen == old(deleteDialogOpen) && departmentToDelete == old(departmentToDelete)
      ensures fetchesStarted == old(fetchesStarted)
    {
      snackbar := snackbar.(open := false);
    }
  }

  /**
   * Clicking delete on a department that still has employees never opens
   * the dialog for it: the selection and the dialog stay as they were.
   */
  method DeleteClickGuardExample()
  {
    var page := new DepartmentListPage(None);
    var it := Department(1, "IT");
    var hr := Department(2, "HR");
    page.DataLoaded([it, hr], [Employee(10, "Ann", "ann@example.com", "Dev", it)]);
    page.DeleteClick(it);
    assert !page.deleteDialogOpen && page.departmentToDelete == None;
    assert page.snackbar.severity == Warning;
    page.DeleteClick(hr);
    assert page.deleteDialogOpen && page.departmentToDelete == Some(hr);
    page.DeleteConfirm(true);
    assert !page.deleteDialogOpen && page.fetchesStarted == 2;
  }
}
