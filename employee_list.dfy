/**
 * The employee list page: the search over four fields, client-side
 * pagination, the distinct-department figure, the department chip colour,
 * and the delete flow.
 */
module EmployeeList {

  import opened Wrappers
  import opened Text
  import opened ClientCommon
  import opened Sequences

  /** The search effect's test: the term, ignoring case, occurs in the name, email, position or department name. */
  function Matches(e: Employee, term: string): (r: bool)
    ensures r <==> exists f :: f in [e.name, e.email, e.position, e.department.name] && Contains(Lower(f), Lower(term))
    ensures term == "" ==> r
  {
    ContainsBasics(Lower(e.name), "", "", "");
    var t := Lower(term);
    Contains(Lower(e.name), t) || Contains(Lower(e.email), t) ||
    Contains(Lower(e.position), t) || Contains(Lower(e.department.name), t)
  }

  /** The employees the search keeps, in their original order. */
  function FilterEmployees(employees: seq<Employee>, term: string): (r: seq<Employee>)
    ensures forall e :: e in r <==> e in employees && Matches(e, term)
    ensures IsSubsequence(r, employees)
    ensures |r| == |employees| <==> forall i :: 0 <= i < |employees| ==> Matches(employees[i], term)
  {
    Keep(employees, (e: Employee) => Matches(e, term))
  }

  /** An employee row that matches is shown as many times as it was loaded; one that does not, never. */
  lemma FilterEmployeesCounts(employees: seq<Employee>, term: string)
    ensures forall e ::
      multiset(FilterEmployees(employees, term))[e] == if Matches(e, term) then multiset(employees)[e] else 0
  {
    KeepCounts(employees, (e: Employee) => Matches(e, term));
  }

  /** An empty search keeps everyone; a term typed in another case finds the same employees. */
  lemma SearchBasics(employees: seq<Employee>, term: string)
    ensures FilterEmployees(employees, "") == employees
    ensures FilterEmployees(employees, Upper(term)) == FilterEmployees(employees, term)
  {
    forall i | 0 <= i < |employees| ensures Matches(employees[i], "") {
      ContainsBasics(Lower(employees[i].name), "", "", "");
    }
    KeepEverything(employees, (e: Employee) => Matches(e, ""));
    LowerIdempotent(term);
    KeepAgrees(employees, (e: Employee) => Matches(e, Upper(term)), (e: Employee) => Matches(e, term));
  }

  /** Searching for a department's name keeps every employee of that department. */
  lemma SearchByDepartmentName(employees: seq<Employee>, e: Employee)
    requires e in employees
    ensures e in FilterEmployees(employees, e.department.name)
  {
    ContainsBasics(Lower(e.department.name), [], Lower(e.department.name), []);
    assert [] + Lower(e.department.name) + [] == Lower(e.department.name);
  }

  const RowsPerPageOptions: set<nat> := {5, 10, 25, 50}

  function Min(a: int, b: int): (r: int)
    ensures r <= a && r <= b && (r == a || r == b)
  {
    if a <= b then a else b
  }

  /**
   * The rows shown: `slice(page * rowsPerPage, page * rowsPerPage + rowsPerPage)`,
   * where JavaScript clamps both ends to the length of the list.
   */
  function PageRows<T>(s: seq<T>, page: nat, rowsPerPage: nat): (r: seq<T>)
    ensures var start := page * rowsPerPage;
      |r| == if start >= |s| then 0 else Min(rowsPerPage, |s| - start)
    ensures forall k :: 0 <= k < |r| ==> r[k] == s[page * rowsPerPage + k]
  {
    var start := Min(page * rowsPerPage, |s|);
    var end := Min(page * rowsPerPage + rowsPerPage, |s|);
    s[start..end]
  }

  /** The number of pages the pagination control offers. */
  function PageCount(n: nat, rowsPerPage: nat): (r: nat)
    requires rowsPerPage > 0
    ensures r * rowsPerPage >= n
    ensures r > 0 ==> (r - 1) * rowsPerPage < n
  {
    (n + rowsPerPage - 1) / rowsPerPage
  }

  /** The rows of the first `count` pages, one after another. */
  function FirstPages<T>(s: seq<T>, rowsPerPage: nat, count: nat): seq<T>
  {
    if count == 0 then [] else FirstPages(s, rowsPerPage, count - 1) + PageRows(s, count - 1, rowsPerPage)
  }

  /** The first `count` pages are exactly the list's first `rows` rows, where `rows` is `count * rowsPerPage`. */
  lemma {:induction false} FirstPagesArePrefix<T>(s: seq<T>, rowsPerPage: nat, count: nat, rows: nat)
    requires rows == count * rowsPerPage
    ensures FirstPages(s, rowsPerPage, count) == s[..Min(rows, |s|)]
  {
    if count > 0 {
      NextPageStart(count, rowsPerPage);
      FirstPagesArePrefix(s, rowsPerPage, count - 1, rows - rowsPerPage);
      PagesStep(s, rowsPerPage, count - 1, rows - rowsPerPage);
    }
  }

  /** Appending the page that starts at row `start` extends the prefix by that page. */
  lemma PagesStep<T>(s: seq<T>, rowsPerPage: nat, page: nat, start: nat)
    requires start == page * rowsPerPage
    ensures s[..Min(start, |s|)] + PageRows(s, page, rowsPerPage) == s[..Min(start + rowsPerPage, |s|)]
  {
    var before := Min(start, |s|);
    var after := Min(start + rowsPerPage, |s|);
    assert PageRows(s, page, rowsPerPage) == s[before..after];
    assert s[..before] + s[before..after] == s[..after];
  }

  lemma NextPageStart(count: nat, rowsPerPage: nat)
    requires count > 0
    ensures (count - 1) * rowsPerPage == count * rowsPerPage - rowsPerPage >= 0
  {
  }

  /** Paging through every page shows every filtered row exactly once, in order. */
  lemma PagesCoverList<T>(s: seq<T>, rowsPerPage: nat)
    requires rowsPerPage > 0
    ensures FirstPages(s, rowsPerPage, PageCount(|s|, rowsPerPage)) == s
  {
    FirstPagesArePrefix(s, rowsPerPage, PageCount(|s|, rowsPerPage), PageCount(|s|, rowsPerPage) * rowsPerPage);
    assert s[..|s|] == s;
  }

  /** The distinct department names among the loaded employees, as `new Set(employees.map(...))` collects them. */
  function DepartmentNames(employees: seq<Employee>): (r: set<string>)
    ensures forall i :: 0 <= i < |employees| ==> employees[i].department.name in r
    ensures |r| <= |employees|
  {
    if employees == [] then {}
    else
      var rest := DepartmentNames(employees[1..]);
      assert forall i :: 1 <= i < |employees| ==> employees[i] == employees[1..][i - 1];
      rest + {employees[0].department.name}
  }

  /** The "Departments" figure counts names only of departments that have someone, between 1 and the headcount. */
  lemma {:induction false} DepartmentFigure(employees: seq<Employee>)
    ensures forall n :: n in DepartmentNames(employees) <==> exists i :: 0 <= i < |employees| && employees[i].department.name == n
    ensures employees != [] ==> 1 <= |DepartmentNames(employees)|
  {
    if employees != [] {
      DepartmentFigure(employees[1..]);
      var rest := employees[1..];
      forall n | n in DepartmentNames(employees)
        ensures exists i :: 0 <= i < |employees| && employees[i].department.name == n
      {
        if n != employees[0].department.name {
          var j :| 0 <= j < |rest| && rest[j].department.name == n;
          assert employees[j + 1] == rest[j];
        }
      }
      assert employees[0].department.name in DepartmentNames(employees);
    }
  }

  /** The department chip colours the source names; anything else is "default". */
  const ChipColors: map<string, string> :=
    map["IT" := "primary", "HR" := "secondary", "Finance" := "success",
        "Marketing" := "warning", "Sales" := "error", "Operations" := "info"]

  /**
   * The names an object literal answers from `Object.prototype` rather than
   * from its own properties; each yields a function or an object.
   */
  const InheritedMembers: set<string> :=
    {"constructor", "__proto__", "toString", "toLocaleString", "valueOf",
     "hasOwnProperty", "isPrototypeOf", "propertyIsEnumerable",
     "__defineGetter__", "__defineSetter__", "__lookupGetter__", "__lookupSetter__"}

  /** What a property read on the colour object can produce. */
  datatype Property = Text(s: string) | Inherited | Undefined

  /** `colors[deptName]` on the object literal, own properties first, then the prototype. */
  function LookupColor(deptName: string): Property
  {
    if deptName in ChipColors then Text(ChipColors[deptName])
    else if deptName in InheritedMembers then Inherited
    else Undefined
  }

  /** `colors[deptName] || 'default'` as written: the right side is used only when the left is falsy. */
  function DepartmentColorAsWritten(deptName: string): (r: Property)
    ensures r.Text? ==> r.s in ChipColors.Values || r.s == "default"
  {
    match LookupColor(deptName)
    case Text(s) => if s != "" then Text(s) else Text("default")
    case Inherited => Inherited
    case Undefined => Text("default")
  }

  /** A department called "constructor" gets a function, not a colour name, as its chip colour. */
  lemma InheritedNameGetsNoColor()
    ensures DepartmentColorAsWritten("constructor") == Inherited
    ensures DepartmentColorAsWritten("toString") == Inherited
  {
  }

  /** The chip colour as intended: one of the six colours for the listed names, "default" for every other. */
  function DepartmentColor(deptName: string): (r: string)
    ensures deptName in ChipColors <==> r != "default"
    ensures deptName in ChipColors ==> r == ChipColors[deptName]
  {
    if deptName in ChipColors then ChipColors[deptName] else "default"
  }

  /** The intended colour and the written one agree on every name the prototype does not answer. */
  lemma DepartmentColorAgrees(deptName: string)
    ensures deptName !in InheritedMembers <==> DepartmentColorAsWritten(deptName) == Text(DepartmentColor(deptName))
  {
    assert forall n :: n in InheritedMembers ==> n !in ChipColors;
  }

  function DeletedMessage(e: Employee): string
  {
    "Employee \"" + e.name + "\" has been deleted successfully!"
  }

  const DeleteFailedMessage := "Failed to delete employee. Please try again."
  const LoadFailedMessage := "Tidak dapat memuatkan data pekerja."

  /** The page's state: the fetched list, the search, the pagination, the delete dialog and the notification bar. */
  class EmployeeListPage {
    var employees: seq<Employee>
    var filteredEmployees: seq<Employee>
    var loading: bool
    var error: string
    var searchTerm: string
    var deleteDialogOpen: bool
    var employeeToDelete: Option<Employee>
    var page: nat
    var rowsPerPage: nat
    var snackbar: Snackbar
    var fetchesStarted: nat   // how many times `fetchEmployees` has been started

    /**
     * The filtered list follows the search, the dialog is open exactly
     * while an employee is selected, and the page size is one the control offers.
     */
    ghost predicate Valid()
      reads this
    {
      filteredEmployees == FilterEmployees(employees, searchTerm) &&
      (deleteDialogOpen <==> employeeToDelete.Some?) &&
      rowsPerPage in RowsPerPageOptions
    }

    /** The rows of the table body. */
    function VisibleRows(): (r: seq<Employee>)
      reads this
      ensures |r| <= rowsPerPage
      ensures forall e :: e in r ==> e in filteredEmployees
    {
      PageRows(filteredEmployees, page, rowsPerPage)
    }

    /**
     * The page mounts: empty lists, loading, page 0 of 10 rows, and any
     * message handed over by the add or edit page (an empty one shows nothing).
     */
    constructor (navigationMessage: Option<string>)
      ensures Valid()
      ensures employees == [] && filteredEmployees == [] && searchTerm == ""
      ensures page == 0 && rowsPerPage == 10
      ensures loading && error == "" && !deleteDialogOpen && fetchesStarted == 1
      ensures snackbar == if navigationMessage.Some? && navigationMessage.value != "" then Snackbar(true, navigationMessage.value, Success) else ClosedSnackbar
    {
      employees, filteredEmployees, searchTerm := [], [], "";
      loading, error := true, "";
      deleteDialogOpen, employeeToDelete := false, None;
      page, rowsPerPage := 0, 10;
      snackbar := if navigationMessage.Some? && navigationMessage.value != "" then Snackbar(true, navigationMessage.value, Success) else ClosedSnackbar;
      fetchesStarted := 1;
    }

    /** A fetch came back: the list is replaced, the search effect refilters and returns to the first page. */
    method DataLoaded(fetched: seq<Employee>)
      requires Valid()
      modifies this
      ensures Valid()
      ensures employees == fetched && filteredEmployees == FilterEmployees(fetched, searchTerm)
      ensures page == 0 && !loading
      ensures rowsPerPage == old(rowsPerPage) && searchTerm == old(searchTerm) && error == old(error)
      ensures deleteDialogOpen == old(deleteDialogOpen) && employeeToDelete == old(employeeToDelete)
      ensures snackbar == old(snackbar) && fetchesStarted == old(fetchesStarted)
    {
      employees := fetched;
      filteredEmployees := FilterEmployees(fetched, searchTerm);
      page := 0;
      loading := false;
    }

    /** A fetch failed: the error banner shows and loading ends. */
    method LoadFailed()
      requires Valid()
      modifies this
      ensures Valid()
      ensures error == LoadFailedMessage && !loading
      ensures employees == old(employees) && filteredEmployees == old(filteredEmployees)
      ensures page == old(page) && rowsPerPage == old(rowsPerPage) && searchTerm == old(searchTerm)
      ensures deleteDialogOpen == old(deleteDialogOpen) && employeeToDelete == old(employeeToDelete)
      ensures snackbar == old(snackbar) && fetchesStarted == old(fetchesStarted)
    {
      error, loading := LoadFailedMessage, false;
    }

    /**
     * The search box changed. A different term refilters and returns to the
     * first page; the same term changes no state, so the effect does not run.
     */
    method SetSearchTerm(term: string)
      requires Valid()
      modifies this
      ensures Valid()
      ensures searchTerm == term && filteredEmployees == FilterEmployees(employees, term)
      ensures page == if term == old(searchTerm) then old(page) else 0
      ensures employees == old(employees) && rowsPerPage == old(rowsPerPage)
      ensures loading == old(loading) && error == old(error)
      ensures deleteDialogOpen == old(deleteDialogOpen) && employeeToDelete == old(employeeToDelete)
      ensures snackbar == old(snackbar) && fetchesStarted == old(fetchesStarted)
    {
      if term != searchTerm {
        searchTerm := term;
        filteredEmployees := FilterEmployees(employees, term);
        page := 0;
      }
    }

    /** `handleChangePage`: only the page changes. */
    method ChangePage(newPage: nat)
      requires Valid()
      modifies this
      ensures Valid()
      ensures page == newPage
      ensures employees == old(employees) && filteredEmployees == old(filteredEmployees)
      ensures rowsPerPage == old(rowsPerPage) && searchTerm == old(searchTerm)
      ensures loading == old(loading) && error == old(error)
      ensures deleteDialogOpen == old(deleteDialogOpen) && employeeToDelete == old(employeeToDelete)
      ensures snackbar == old(snackbar) && fetchesStarted == old(fetchesStarted)
    {
      page := newPage;
    }

    /** `handleChangeRowsPerPage`: the new page size, from the offered options, and back to the first page. */
    method ChangeRowsPerPage(newRowsPerPage: nat)
      requires Valid()
      requires newRowsPerPage in RowsPerPageOptions
      modifies this
      ensures Valid()
      ensures rowsPerPage == newRowsPerPage && page == 0
      ensures VisibleRows() == filteredEmployees[..Min(newRowsPerPage, |filteredEmployees|)]
      ensures employees == old(employees) && filteredEmployees == old(filteredEmployees)
      ensures searchTerm == old(searchTerm) && loading == old(loading) && error == old(error)
      ensures deleteDialogOpen == old(deleteDialogOpen) && employeeToDelete == old(employeeToDelete)
      ensures snackbar == old(snackbar) && fetchesStarted == old(fetchesStarted)
    {
      rowsPerPage := newRowsPerPage;
      page := 0;
    }

    /** `handleDeleteClick`: any employee may be selected; the dialog opens. */
    method DeleteClick(e: Employee)
      requires Valid()
      modifies this
      ensures Valid()
      ensures deleteDialogOpen && employeeToDelete == Some(e)
      ensures employees == old(employees) && filteredEmployees == old(filteredEmployees)
      ensures page == old(page) && rowsPerPage == old(rowsPerPage) && searchTerm == old(searchTerm)
      ensures loading == old(loading) && error == old(error)
      ensures snackbar == old(snackbar) && fetchesStarted == old(fetchesStarted)
    {
      employeeToDelete := Some(e);
      deleteDialogOpen := true;
    }

    /**
     * `handleDeleteConfirm`, given whether the delete request succeeded: on
     * success the dialog closes, the selection is cleared, a success message
     * shows and the list is fetched again; on failure only an error message
     * shows. Without a selection nothing happens.
     */
    method DeleteConfirm(deleteSucceeded: bool)
      requires Valid()
      modifies this
      ensures Valid()
      ensures old(employeeToDelete).None? ==>
        deleteDialogOpen == old(deleteDialogOpen) && employeeToDelete == old(employeeToDelete) &&
        snackbar == old(snackbar) && fetchesStarted == old(fetchesStarted)
      ensures old(employeeToDelete).Some? && deleteSucceeded ==>
        !deleteDialogOpen && employeeToDelete == None &&
        snackbar == Snackbar(true, DeletedMessage(old(employeeToDelete).value), Success) &&
        fetchesStarted == old(fetchesStarted) + 1
      ensures old(employeeToDelete).Some? && !deleteSucceeded ==>
        deleteDialogOpen == old(deleteDialogOpen) && employeeToDelete == old(employeeToDelete) &&
        snackbar == Snackbar(true, DeleteFailedMessage, Error) && fetchesStarted == old(fetchesStarted)
      ensures employees == old(employees) && filteredEmployees == old(filteredEmployees)
      ensures page == old(page) && rowsPerPage == old(rowsPerPage) && searchTerm == old(searchTerm)
      ensures loading == old(loading) && error == old(error)
    {
      if employeeToDelete.Some? {
        if deleteSucceeded {
          deleteDialogOpen := false;
          snackbar := Snackbar(true, DeletedMessage(employeeToDelete.value), Success);
          employeeToDelete := None;
          fetchesStarted := fetchesStarted + 1;
        } else {
          snackbar := Snackbar(true, DeleteFailedMessage, Error);
        }
      }
    }

    /** `handleDeleteCancel`, also run when the dialog is dismissed. */
    method DeleteCancel()
      requires Valid()
      modifies this
      ensures Valid()
      ensures !deleteDialogOpen && employeeToDelete == None
      ensures employees == old(employees) && filteredEmployees == old(filteredEmployees)
      ensures page == old(page) && rowsPerPage == old(rowsPerPage) && searchTerm == old(searchTerm)
      ensures loading == old(loading) && error == old(error)
      ensures snackbar == old(snackbar) && fetchesStarted == old(fetchesStarted)
    {
      deleteDialogOpen := false;
      employeeToDelete := None;
    }

    /** Closing the error alert: the error clears and nothing else changes. */
    method DismissError()
      requires Valid()
      modifies this
      ensures Valid()
      ensures error == ""
      ensures employees == old(employees) && filteredEmployees == old(filteredEmployees)
      ensures page == old(page) && rowsPerPage == old(rowsPerPage) && searchTerm == old(searchTerm)
      ensures loading == old(loading) && snackbar == old(snackbar)
      ensures deleteDialogOpen == old(deleteDialogOpen) && employeeToDelete == old(employeeToDelete)
      ensures fetchesStarted == old(fetchesStarted)
    {
      error := "";
    }

    /** `handleCloseSnackbar`: the notification bar closes, keeping its message and severity. */
    method CloseSnackbar()
      requires Valid()
      modifies this
      ensures Valid()
      ensures snackbar == old(snackbar).(open := false)
      ensures employees == old(employees) && filteredEmployees == old(filteredEmployees)
      ensures page == old(page) && rowsPerPage == old(rowsPerPage) && searchTerm == old(searchTerm)
      ensures loading == old(loading) && error == old(error)
      ensures deleteDialogOpen == old(deleteDialogOpen) && employeeToDelete == old(employeeToDelete)
      ensures fetchesStarted == old(fetchesStarted)
    {
      snackbar := snackbar.(open := false);
    }
  }

  /** Twelve employees at ten rows per page: the second page shows the last two; a new search goes back to page 0. */
  method PaginationExample(staff: seq<Employee>)
    requires |staff| == 12
  {
    var page := new EmployeeListPage(None);
    page.DataLoaded(staff);
    SearchBasics(staff, "");
    page.ChangePage(1);
    assert page.VisibleRows() == staff[10..];
    page.SetSearchTerm("");
    assert page.page == 1;
    page.SetSearchTerm("x");
    assert page.page == 0 && |page.VisibleRows()| <= 10;
  }
}
