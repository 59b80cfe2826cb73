# Employee management system: the rules behind the screens

This project models the parts of the employee management system (a Laravel
back end with a React front end) that are rules rather than plumbing, and
proves properties about them:

- **Dashboard statistics** (`DashboardService`). The model computes the total
  head-count, the head-count per department name and the rounded average
  salary per department name, written with two decimals. The maps are built
  left to right, so a later department overwrites an earlier one that has the
  same name.
- **Employee name normalisation** (`ucwords(strtolower(...))` in the
  `Employee` model) and the `$fillable` mass-assignment whitelist.
- **Write validation** (`StoreEmployeeRequest`, `UpdateEmployeeRequest`,
  `UpdateDepartmentRequest`). Each is a generic model of Laravel's rule
  evaluation, applied to each request's rule list. An update's uniqueness
  check leaves out the record being updated.
- **Department list page**. Covers the per-department employee count, the
  search filter, the colour and initials helpers, the summary figures and the
  guarded delete flow. The flow is a class whose methods are the page's
  handlers.
- **Employee list page**. Covers the four-field search, client-side
  pagination, the distinct-department figure, the chip colours and the delete
  flow. This is also a class.
- **`useSubmit`**. The submission hook, as a class with one step before the
  awaited API call and one after it.

Modules:

| module | file | role |
|---|---|---|
| `Wrappers` | wrappers.dfy | `Option` |
| `Text` | text.dfy | ASCII case mapping, `includes` |
| `Decimal` | decimal.dfy | decimal digits, round-half-up division |
| `Sequences` | sequences.dfy | order-preserving selection (subsequences) |
| `DashboardService` | dashboard_service.dfy | dashboard statistics |
| `Payload` | payload.dfy | request payload values |
| `EmployeeModel` | employee_model.dfy | name mutator, `$fillable` |
| `Validation` | validation.dfy | Laravel rule evaluation |
| `FormRequests` | form_requests.dfy | the three rule sets and their meaning |
| `ClientCommon` | client_common.dfy | shared front-end records, `filter`, `getInitials` |
| `DepartmentList` | department_list.dfy | department list page |
| `EmployeeList` | employee_list.dfy | employee list page |
| `UseSubmit` | use_submit.dfy | submission hook |

Modelling choices:

- Salaries are whole cents, as `nat`.
- The dashboard is computed from a snapshot of department rows and employee
  rows.
- Email syntax and PHP's numeric-string test are parameters of validation
  (`Validation.Syntax`).
- Each API call's result is an input to the handler that awaits it.

## Model

| member | source | states |
|---|---|---|
| DashboardService.GetDashboardStats | employee-ms-backend/app/services/DashboardService.php:16-47 | `total_employees` is the number of employee rows, whatever departments exist. Both maps have exactly the department names as keys. For the last department of each name, the value is its employee count and its average rounded to the cent, written with two decimals. |
| DashboardService.KeyedByName | employee-ms-backend/app/services/DashboardService.php:33-35 | `mapWithKeys` over departments: the keys are the department names, and each name carries the value of the last department with that name. |
| DashboardService.EmployeesByDepartment | employee-ms-backend/app/services/DashboardService.php:31-36 | `calculateEmployeesByDept`: keyed by exactly the department names. Each name holds the number of employees of the last department with that name. |
| DashboardService.AverageCents | employee-ms-backend/app/services/DashboardService.php:44 | The mean salary rounded to the nearest cent, with halves rounded up. A department without employees gives 0 (`null ?? 0`). |
| DashboardService.FormatCents | employee-ms-backend/app/services/DashboardService.php:45 | `number_format(.., 2, '.', '')`: digits, a point and exactly two digits. |
| DashboardService.AverageSalaryByDepartment | employee-ms-backend/app/services/DashboardService.php:41-47 | `calculateAvgSalaryByDept`: keyed by exactly the department names. Each name holds the formatted rounded mean salary of the last department with that name. |
| DashboardService.NamesComeFromDepartments | employee-ms-backend/app/services/DashboardService.php:31-36 | Every key of the maps is the name of some fetched department. |
| DashboardService.DistinctNamesKeyCount | employee-ms-backend/app/services/DashboardService.php:31-36 | With distinct names there are exactly as many keys as departments. |
| DashboardService.DistinctNamesReportEveryDepartment | employee-ms-backend/app/services/DashboardService.php:31-36 | With distinct names, every department's own employee count is reported under its own name. |
| DashboardService.LaterDuplicateNameWins | employee-ms-backend/app/services/DashboardService.php:43-46 | Take two departments named "IT", where only the first has an employee. Both maps report the second: count 0 and "0.00". |
| DashboardService.EmptyDepartmentReportsZero | employee-ms-backend/app/services/DashboardService.php:44-45 | A department without employees reports exactly "0.00" and a count of 0. |
| DashboardService.SumBetween | employee-ms-backend/app/services/DashboardService.php:44 | A sum of values that all lie in [lo, hi] lies between lo·n and hi·n. |
| DashboardService.AverageWithinBounds | employee-ms-backend/app/services/DashboardService.php:44 | A department's reported average lies between any lower and any upper bound of its salaries. |
| DashboardService.FormatCentsDenotes | employee-ms-backend/app/services/DashboardService.php:45 | The average is written as canonical digits, a point and exactly two digits, with no separator. Reading the digits back gives the number of cents. |
| DashboardService.ThreeSalariesExample | employee-ms-backend/app/services/DashboardService.php:44-45 | Salaries 1000, 2000 and 3000 average to 2000.00 and are written "2000.00". |
| DashboardService.FormatExample | employee-ms-backend/app/services/DashboardService.php:45 | 2000 whole units are written "2000.00". |
| DashboardService.SumCountsIsHeadcount | employee-ms-backend/app/services/DashboardService.php:19-22 | Suppose every employee belongs to a fetched department and the ids are distinct. Then the per-department counts add up to the number of employees. |
| DashboardService.SumOverCounts | employee-ms-backend/app/services/DashboardService.php:31-36 | Summing the map over the department names gives the sum of the per-department counts. |
| DashboardService.HeadcountMapSums | employee-ms-backend/app/services/DashboardService.php:19-36 | Take any map keyed by the department names that holds each last department's head-count, with distinct ids and names and every employee placed. Its values over the list of names add up to the number of employees. |
| DashboardService.CountsSumToTotal | employee-ms-backend/app/services/DashboardService.php:19-24 | Suppose ids and names are distinct and every employee belongs to a fetched department. Then the list of names covers every key exactly once, and the counts summed over it equal `total_employees`. |
| DashboardService.SeededScenario | employee-ms-backend/database/seeders/DemoDataSeeder.php:23-32 | Five departments with five employees each give a total of 25. Each map has five keys, and every count is 5. |
| Decimal.RoundedQuotient | employee-ms-backend/app/services/DashboardService.php:44-45 | The result is the whole number nearest a/b, with halves rounded up, as `number_format` rounds a non-negative mean. |
| Decimal.RoundedQuotientBetween | employee-ms-backend/app/services/DashboardService.php:44 | If a/b lies in [lo, hi], so does its rounding. |
| Decimal.NatToDecimal | employee-ms-backend/app/services/DashboardService.php:45 | The whole part is a non-empty string of digits with no leading zero. |
| Decimal.DecimalRoundTrip | employee-ms-backend/app/services/DashboardService.php:45 | Reading the written whole part back gives the number. |
| Decimal.CanonicalRoundTrip | employee-ms-backend/app/services/DashboardService.php:45 | Every canonical digit string is how its own value is written. |
| EmployeeModel.NormalizeName | employee-ms-backend/app/Models/Employee.php:61-66 | The mutator keeps the length and stores a title-cased name. |
| EmployeeModel.NormalizeNameIsTitleCase | employee-ms-backend/app/Models/Employee.php:61-66 | The stored name has the input's length. It equals the input once both are lower-cased, and whitespace delimiters stay in place. Each letter that starts a word is upper case and every other letter is lower case. |
| EmployeeModel.LowerKeepsWordStarts | employee-ms-backend/app/Models/Employee.php:64 | Lower-casing does not move word boundaries. |
| EmployeeModel.TitleCaseIsUnique | employee-ms-backend/app/Models/Employee.php:64 | Any title-cased string equal to the input up to case is the stored name. |
| EmployeeModel.NormalizeNameIdempotent | employee-ms-backend/app/Models/Employee.php:64 | Normalising a normalised name changes nothing. |
| EmployeeModel.NormalizeNameIgnoresCase | employee-ms-backend/app/Models/Employee.php:64 | Names that differ only in case are stored alike. |
| EmployeeModel.NormalizeNameExample | employee-ms-backend/app/Models/Employee.php:58-59 | "john doe" is stored as "John Doe". |
| EmployeeModel.NormalizeNameHyphenExample | employee-ms-backend/app/Models/Employee.php:64 | "mary-jane" becomes "Mary-jane": a hyphen does not start a word. |
| EmployeeModel.NormalizeNameTabExample | employee-ms-backend/app/Models/Employee.php:64 | "JO\tDOE" becomes "Jo\tDoe": a tab starts a word. |
| EmployeeModel.Fill | employee-ms-backend/app/Models/Employee.php:27-33 | Mass assignment keeps exactly the sent keys that are in `$fillable`. Values are unchanged, except that a string name is normalised. |
| EmployeeModel.FillIgnoresUnlisted | employee-ms-backend/app/Models/Employee.php:27-33 | A sent `id` is dropped, and "jane roe" is stored as "Jane Roe". |
| Validation.FailedRules | employee-ms-backend/app/Http/Requests/StoreEmployeeRequest.php:16-22 | Every reported rule is one of the field's rules and fails. With no earlier failure, the list is empty exactly when the field passes every rule. After any failure, `unique` and `exists` are skipped, so only the first reported rule can be a database rule. |
| Validation.FailedRulesInRuleOrder | employee-ms-backend/app/Http/Requests/StoreEmployeeRequest.php:16-22 | The failed rules come in the order the rules are listed. With no earlier failure, the first reported rule is a listed rule that every rule before it passes. No rule is reported after a failed `required`. |
| Validation.FieldFailuresStartWithFirstFailing | employee-ms-backend/app/Http/Requests/StoreEmployeeRequest.php:16-22 | The first rule reported for a field is the first of the field's listed rules that the sent value fails. |
| Validation.Validate | employee-ms-backend/app/Http/Requests/StoreEmployeeRequest.php:14-23 | Every reported field is in the rule set and has at least one failed rule. Nothing is reported exactly when every field passes. |
| Validation.Validated | employee-ms-backend/app/Http/Requests/StoreEmployeeRequest.php:16-22 | `validated()` keeps exactly the sent fields that have rules, with their values. |
| FormRequests.StoreEmployeeRules | employee-ms-backend/app/Http/Requests/StoreEmployeeRequest.php:14-23 | The validated fields are exactly the model's `$fillable` attributes, and each is `required`. |
| FormRequests.UpdateEmployeeRules | employee-ms-backend/app/Http/Requests/UpdateEmployeeRequest.php:14-25 | The same rules as a create, except that the email's uniqueness ignores the routed employee. |
| FormRequests.UpdateDepartmentRules | employee-ms-backend/app/Http/Requests/UpdateDepartmentRequest.php:14-22 | Only `name` is validated. It is `required`, and its uniqueness ignores the routed department. |
| FormRequests.ShortTextField | employee-ms-backend/app/Http/Requests/StoreEmployeeRequest.php:17 | Under `required\|string\|max:255`, a field passes exactly when it is a non-blank string of at most 255 characters. |
| FormRequests.EmailField | employee-ms-backend/app/Http/Requests/StoreEmployeeRequest.php:18 | `email` passes exactly when it meets all four conditions: it is filled, it has email syntax, no other employee has it, and it is at most 255 characters. |
| FormRequests.SalaryField | employee-ms-backend/app/Http/Requests/StoreEmployeeRequest.php:20 | `salary` passes exactly when it is filled, numeric and at least 0. |
| FormRequests.DepartmentField | employee-ms-backend/app/Http/Requests/StoreEmployeeRequest.php:21 | `department_id` passes exactly when it is filled and is the id of an existing department. |
| FormRequests.FiveFields | employee-ms-backend/app/Http/Requests/StoreEmployeeRequest.php:16-22 | A five-field rule set passes exactly when each of its five fields passes. |
| FormRequests.EmployeeRulesMeaning | employee-ms-backend/app/Http/Requests/StoreEmployeeRequest.php:16-22 | The employee rule sets accept exactly the payloads that `ValidEmployee` describes field by field. |
| FormRequests.StoreEmployeeMeaning | employee-ms-backend/app/Http/Requests/StoreEmployeeRequest.php:14-23 | A create is accepted exactly when all five field rules hold, with the email unused by every employee. |
| FormRequests.UpdateEmployeeMeaning | employee-ms-backend/app/Http/Requests/UpdateEmployeeRequest.php:14-25 | An update is accepted exactly when all five field rules hold, with the email unused by every other employee. |
| FormRequests.UpdateKeepsOwnEmail | employee-ms-backend/app/Http/Requests/UpdateEmployeeRequest.php:16-20 | Resending an employee's own email passes the update, while the same payload is refused as a create. |
| FormRequests.UpdateRejectsTakenEmail | employee-ms-backend/app/Http/Requests/UpdateEmployeeRequest.php:20 | Changing to another employee's email is refused. |
| FormRequests.MalformedTakenEmailReportsSyntaxOnly | employee-ms-backend/app/Http/Requests/StoreEmployeeRequest.php:18 | A malformed address that another employee already has is reported as failing `email` only, because `unique` is skipped after the first failure. |
| FormRequests.EmployeeUpdateIsFullField | employee-ms-backend/app/Http/Requests/UpdateEmployeeRequest.php:18-24 | Leaving out any one of the five fields is refused, on update as on create. |
| FormRequests.NegativeSalaryRejected | employee-ms-backend/app/Http/Requests/UpdateEmployeeRequest.php:22 | A negative salary is refused by both requests. |
| FormRequests.UnknownDepartmentRejected | employee-ms-backend/app/Http/Requests/UpdateEmployeeRequest.php:23 | A `department_id` that denotes no existing department's id is refused by both requests. This covers an unknown number or numeric string, and any value that is not numeric. |
| FormRequests.FieldsOfEmployeeRules | employee-ms-backend/app/Http/Requests/StoreEmployeeRequest.php:16-22 | The validated data of an employee request holds exactly the sent keys that are in `$fillable`. |
| FormRequests.ValidatedEmployeeIsFillable | employee-ms-backend/app/Models/Employee.php:27-33 | Mass assignment of validated employee data drops nothing that was sent and validated. |
| FormRequests.UpdateDepartmentMeaning | employee-ms-backend/app/Http/Requests/UpdateDepartmentRequest.php:14-22 | A rename is accepted exactly when the name is a filled string of at most 255 characters and no other department has it. |
| FormRequests.RenameToOwnNameAccepted | employee-ms-backend/app/Http/Requests/UpdateDepartmentRequest.php:17-20 | Renaming a department to its current name passes. |
| FormRequests.RenameToTakenNameRejected | employee-ms-backend/app/Http/Requests/UpdateDepartmentRequest.php:20 | Renaming to another department's name is refused. |
| FormRequests.RenameValidatesOnlyName | employee-ms-backend/app/Http/Requests/UpdateDepartmentRequest.php:19-21 | The validated data of a rename holds at most the name. |
| ClientCommon.Keep | employee-ms-frontend/src/pages/DepartmentList.jsx:78-80 | `filter` keeps exactly the elements that pass, in their original order. It keeps everything exactly when every element passes. |
| ClientCommon.KeepCounts | employee-ms-frontend/src/pages/DepartmentList.jsx:78-80 | `filter` keeps each passing element as many times as it occurs, and no failing one. |
| ClientCommon.KeepAgrees | employee-ms-frontend/src/pages/EmployeeList.jsx:79-87 | Filtering by two tests that agree on every element gives the same list. |
| ClientCommon.Initials | employee-ms-frontend/src/pages/EmployeeList.jsx:151-158 | `getInitials` returns at most two characters. |
| ClientCommon.InitialsAreWordStarts | employee-ms-frontend/src/pages/DepartmentList.jsx:165-172 | `getInitials` gives the upper-cased characters that start a space-separated word, at most two of them. Empty words contribute nothing. |
| ClientCommon.InitialsExamples | employee-ms-frontend/src/pages/DepartmentList.jsx:165-172 | "hr ops" gives "HO", and " it" gives "I". |
| DepartmentList.EmployeeCount | employee-ms-frontend/src/pages/DepartmentList.jsx:101-103 | The count is 0 exactly when no loaded employee has that department id. It equals the number of loaded employees exactly when all of them have it. |
| DepartmentList.EmployeeCountIsOccurrences | employee-ms-frontend/src/pages/DepartmentList.jsx:101-103 | The count is exactly the number of times the department id occurs among the loaded employees' department ids. |
| DepartmentList.FilterDepartments | employee-ms-frontend/src/pages/DepartmentList.jsx:76-82 | Keeps exactly the departments whose lower-cased name contains the lower-cased term, in order. |
| DepartmentList.FilterDepartmentsCounts | employee-ms-frontend/src/pages/DepartmentList.jsx:76-82 | A matching department row is shown as many times as it was loaded. A row that does not match is never shown. |
| DepartmentList.EmptySearchKeepsAll | employee-ms-frontend/src/pages/DepartmentList.jsx:76-82 | An empty term keeps every department. |
| DepartmentList.DepartmentColor | employee-ms-frontend/src/pages/DepartmentList.jsx:152-163 | The colour is always one of the six palette names. |
| DepartmentList.DepartmentColorByLength | employee-ms-frontend/src/pages/DepartmentList.jsx:152-163 | Names of equal length get the same colour, and the colours repeat every six characters of length. |
| DepartmentList.DepartmentColorExamples | employee-ms-frontend/src/pages/DepartmentList.jsx:152-163 | "HR" is shown "success" and "Finance" "secondary". |
| DepartmentList.AverageEmployeesPerDepartment | employee-ms-frontend/src/pages/DepartmentList.jsx:317-322 | `Math.round(E / D)` when there are departments, 0 otherwise. |
| DepartmentList.StatusLabel | employee-ms-frontend/src/pages/DepartmentList.jsx:498-502 | "Active" exactly when some loaded employee belongs to the department, otherwise "Empty". |
| DepartmentList.DeleteDisabled | employee-ms-frontend/src/pages/DepartmentList.jsx:539-542 | The delete button is disabled exactly when some loaded employee belongs to the department. |
| DepartmentList.DeleteOfferedOnlyWhenEmpty | employee-ms-frontend/src/pages/DepartmentList.jsx:539-542 | The delete button is enabled exactly when the status is "Empty", which is when no loaded employee belongs to the department. |
| DepartmentList.BlockedMessage | employee-ms-frontend/src/pages/DepartmentList.jsx:108-112 | The refusal warning names the department and the employee count. |
| DepartmentList.DeleteTooltip | employee-ms-frontend/src/pages/DepartmentList.jsx:524-528 | The tooltip names the count when there are employees, and reads "Delete Department" exactly when there are none. |
| DepartmentList.DepartmentListPage.constructor | employee-ms-frontend/src/pages/DepartmentList.jsx:45-74 | Initial state: empty lists, loading, dialog closed, one fetch started, and the message handed over by navigation if there is a non-empty one. |
| DepartmentList.DepartmentListPage.DataLoaded | employee-ms-frontend/src/pages/DepartmentList.jsx:84-99 | A completed fetch replaces both lists, ends loading and refilters by the current term. |
| DepartmentList.DepartmentListPage.LoadFailed | employee-ms-frontend/src/pages/DepartmentList.jsx:93-98 | A failed fetch shows the error and ends loading, and the lists stay. |
| DepartmentList.DepartmentListPage.SetSearchTerm | employee-ms-frontend/src/pages/DepartmentList.jsx:76-82 | The filtered list follows the new term, and nothing else changes. |
| DepartmentList.DepartmentListPage.DeleteClick | employee-ms-frontend/src/pages/DepartmentList.jsx:105-117 | With employees present: a warning with the count, no dialog, and the selection unchanged. With none: the department is selected and the dialog opens. |
| DepartmentList.DepartmentListPage.DeleteConfirm | employee-ms-frontend/src/pages/DepartmentList.jsx:119-141 | Without a selection, nothing happens. On success, the dialog closes, the selection is cleared, a success message shows and a refetch starts. On failure, only an error message shows. |
| DepartmentList.DepartmentListPage.DeleteCancel | employee-ms-frontend/src/pages/DepartmentList.jsx:143-146 | The dialog closes and the selection is cleared. |
| DepartmentList.DepartmentListPage.CloseSnackbar | employee-ms-frontend/src/pages/DepartmentList.jsx:148-150 | The notification closes and keeps its message and severity. |
| DepartmentList.DepartmentListPage.DismissError | employee-ms-frontend/src/pages/DepartmentList.jsx:212 | Closing the error alert clears the error and changes nothing else. |
| EmployeeList.Matches | employee-ms-frontend/src/pages/EmployeeList.jsx:79-87 | An employee matches exactly when one of name, email, position and department name contains the term, both lower-cased. The empty term matches everyone. |
| EmployeeList.FilterEmployees | employee-ms-frontend/src/pages/EmployeeList.jsx:77-88 | An employee stays exactly when the lower-cased term occurs in its lower-cased name, email, position or department name. Order is kept. |
| EmployeeList.FilterEmployeesCounts | employee-ms-frontend/src/pages/EmployeeList.jsx:77-88 | A matching employee row is shown as many times as it was loaded. A row that does not match is never shown. |
| EmployeeList.SearchBasics | employee-ms-frontend/src/pages/EmployeeList.jsx:77-88 | An empty term keeps everyone. A term typed in upper case finds the same employees. |
| EmployeeList.SearchByDepartmentName | employee-ms-frontend/src/pages/EmployeeList.jsx:84-86 | Searching a department's name finds each of its employees. |
| EmployeeList.PageRows | employee-ms-frontend/src/pages/EmployeeList.jsx:427-431 | The visible rows are the contiguous run starting at page·rowsPerPage, at most rowsPerPage long. The run is empty past the end. |
| EmployeeList.PageCount | employee-ms-frontend/src/pages/EmployeeList.jsx:543-551 | The number of pages is the fewest that hold every filtered row. |
| EmployeeList.FirstPagesArePrefix | employee-ms-frontend/src/pages/EmployeeList.jsx:427-431 | The first k pages, one after another, are the list's first k·rowsPerPage rows. |
| EmployeeList.PagesCoverList | employee-ms-frontend/src/pages/EmployeeList.jsx:427-431 | Paging through every page shows every filtered row once, in order. |
| EmployeeList.DepartmentNames | employee-ms-frontend/src/pages/EmployeeList.jsx:279-285 | Every loaded employee's department name is in the set, and the set is no larger than the list. |
| EmployeeList.DepartmentFigure | employee-ms-frontend/src/pages/EmployeeList.jsx:279-285 | The set holds exactly the department names of loaded employees, and it has at least one when anyone is loaded. |
| EmployeeList.DepartmentColorAsWritten | employee-ms-frontend/src/pages/EmployeeList.jsx:160-170 | `colors[deptName] \|\| 'default'` as written. Whenever the result is a string, it is one of the six colours or "default". |
| EmployeeList.InheritedNameGetsNoColor | employee-ms-frontend/src/pages/EmployeeList.jsx:169 | A department named "constructor" or "toString" gets an inherited function, not a colour. |
| EmployeeList.DepartmentColor | employee-ms-frontend/src/pages/EmployeeList.jsx:160-170 | The six listed names get their fixed colours, and every other name gets "default". |
| EmployeeList.DepartmentColorAgrees | employee-ms-frontend/src/pages/EmployeeList.jsx:160-170 | The written lookup and the intended one agree exactly on the names that `Object.prototype` does not answer. |
| EmployeeList.EmployeeListPage.VisibleRows | employee-ms-frontend/src/pages/EmployeeList.jsx:427-431 | At most rowsPerPage rows, all of them from the filtered list. |
| EmployeeList.EmployeeListPage.constructor | employee-ms-frontend/src/pages/EmployeeList.jsx:45-75 | Initial state: page 0, 10 rows per page, loading, and the message handed over by navigation if there is a non-empty one. |
| EmployeeList.EmployeeListPage.DataLoaded | employee-ms-frontend/src/pages/EmployeeList.jsx:77-103 | A completed fetch replaces the list, refilters, and returns to page 0. |
| EmployeeList.EmployeeListPage.LoadFailed | employee-ms-frontend/src/pages/EmployeeList.jsx:97-102 | A failed fetch shows the error and ends loading. |
| EmployeeList.EmployeeListPage.SetSearchTerm | employee-ms-frontend/src/pages/EmployeeList.jsx:77-90 | A new term refilters and returns to page 0. The same term changes nothing. |
| EmployeeList.EmployeeListPage.ChangePage | employee-ms-frontend/src/pages/EmployeeList.jsx:138-140 | Only the page changes. |
| EmployeeList.EmployeeListPage.ChangeRowsPerPage | employee-ms-frontend/src/pages/EmployeeList.jsx:142-145 | Sets the page size, returns to page 0, and shows the first rows. |
| EmployeeList.EmployeeListPage.DeleteClick | employee-ms-frontend/src/pages/EmployeeList.jsx:105-108 | The employee is selected and the dialog opens. |
| EmployeeList.EmployeeListPage.DeleteConfirm | employee-ms-frontend/src/pages/EmployeeList.jsx:110-131 | Without a selection, nothing happens. On success, the dialog closes, the selection is cleared, a message shows and a refetch starts. On failure, only the error message shows. |
| EmployeeList.EmployeeListPage.DeleteCancel | employee-ms-frontend/src/pages/EmployeeList.jsx:133-136 | The dialog closes and the selection is cleared. |
| EmployeeList.EmployeeListPage.CloseSnackbar | employee-ms-frontend/src/pages/EmployeeList.jsx:147-149 | The notification closes and keeps its message. |
| EmployeeList.EmployeeListPage.DismissError | employee-ms-frontend/src/pages/EmployeeList.jsx:210 | Closing the error alert clears the error and changes nothing else. |
| UseSubmit.FirstError | employee-ms-frontend/src/hooks/useSubmit.js:20-27 | With no error bag, the generic message. An empty bag throws. A first field without messages gives `undefined`. Otherwise, the first field's first message. |
| UseSubmit.ErrorBag | employee-ms-frontend/src/hooks/useSubmit.js:20-22 | Laravel's `errors` body has one entry per reported field, in order, with one message per failed rule. |
| UseSubmit.FirstReportedIsFirstFailing | employee-ms-frontend/src/hooks/useSubmit.js:22-23 | The validator's first reported field is the first field, in rule order, that fails, together with its failed rules. |
| UseSubmit.ServerRejectionShowsFirstMessage | employee-ms-frontend/src/hooks/useSubmit.js:20-24 | A rejection by the server's validator never throws inside the hook and never shows `undefined`. It shows the message of the first failing field's first failed rule. |
| UseSubmit.ShownRuleIsFirstFailing | employee-ms-frontend/src/hooks/useSubmit.js:20-24 | The rule whose message is shown is the first of the reported field's listed rules that the field fails. |
| UseSubmit.Submitter.constructor | employee-ms-frontend/src/hooks/useSubmit.js:9-10 | Not loading, and no error. |
| UseSubmit.Submitter.BeginSubmit | employee-ms-frontend/src/hooks/useSubmit.js:13-14 | Loading starts and the error clears. |
| UseSubmit.Submitter.CompleteSubmit | employee-ms-frontend/src/hooks/useSubmit.js:15-32 | Loading always ends, and exactly the rejected calls throw. A rejection sets the chosen message and rethrows the original error. An empty error bag throws a `TypeError` and leaves the error unset. |
| UseSubmit.Submitter.HandleSubmit | employee-ms-frontend/src/hooks/useSubmit.js:12-33 | A whole submission: success leaves no error and throws nothing, and any rejection ends as `CompleteSubmit` states. |

## Left out

- Database access, Eloquent eager loading, controllers, authentication, routing and HTTP are left out. The dashboard works on a snapshot of rows, and each API call's result is an input.
- DepartmentController.destroy is not part of this model. The back end has no check that keeps a department with employees from being deleted, so only the client-side guard is modelled.
- DashboardService.KeyedByName: the key order of the JSON objects is not modelled. A Dafny map has none. PHP keeps the first position of a name that a later department overwrites, and a name that looks like an integer becomes an integer key.
- DashboardService.GetDashboardStats: salaries are whole cents. Binary floating point, `number_format` rounding artefacts and sub-cent salaries are not modelled.
- EmployeeModel.NormalizeName: case mapping is ASCII only, as PHP 8's `strtolower` and `ucwords` are. The React pages' `toLowerCase` and `toUpperCase` are Unicode-aware, but the model maps ASCII letters only.
- Validation.Syntax: Laravel's email syntax check and PHP's numeric-string test are parameters, not definitions.
- Validation.Passes: `unique` and `exists` compare strings exactly. The database compares them under its collation, which in MySQL's default is case-insensitive, so "HR" and "hr" may clash there but not in the model.
- Payload.Value: JSON booleans, arrays and objects are not modelled. A payload holds absent, null, string and number values only, so `department_id: true` reaching the `exists` query is not covered.
- EmployeeModel.Fill: a `name` that is not a string is stored unchanged. PHP's `string` parameter type on the mutator would turn a number into a string and throw a `TypeError` on null. Validation rules out both before mass assignment.
- `max:255` on values other than strings and numbers is not modelled.
- Laravel's `TrimStrings` and `ConvertEmptyStringsToNull` middleware are not modelled. Blank strings count as not filled only through the `required` rule.
- String length is counted in characters. JavaScript counts UTF-16 code units and PHP's `max` counts multibyte characters.
- React scheduling is not modelled. Each handler runs to completion as one step. After a fetch, `fetchData` first shows the unfiltered list, and the filter effect then replaces it; the model keeps only the state after the effect.
- DepartmentList.DepartmentListPage.constructor and EmployeeList.EmployeeListPage.constructor run the mount effect once. In the pages, the effect depends on `location` and runs again, with a new fetch and message, on each later navigation to the page while it stays mounted.
- Interleavings of overlapping requests and of overlapping `handleSubmit` calls are not modelled.
- The `location.state` clean-up (`window.history.replaceState`), console logging, the 4-second auto-hide of the notification and all rendering are not modelled.
- UseSubmit.FirstError: the order of `Object.values` for integer-like field names is not modelled. The error bag is taken to be in the order the server wrote it.
- UseSubmit.Failure: error bags that are not objects of string arrays are not modelled.
- EmployeeList.EmployeeListPage.ChangeRowsPerPage: its argument is one of the offered sizes (5, 10, 25, 50). `parseInt` of any other text is not modelled.
- EmployeeList.EmployeeListPage.ChangePage: its argument is any page number the pagination control may pass.

## Findings

| source | as written | input that shows it | evidently intended | confidence | as-written member | corrected member |
|---|---|---|---|---|---|---|
| employee-ms-frontend/src/pages/EmployeeList.jsx:169 | `colors[deptName] \|\| 'default'` reads through the object's prototype | a department named "constructor" (or "toString", "valueOf", ...) gets a function as its chip colour | every name outside the six listed ones gets 'default' | not executed; low (MUI's handling of a function-valued `color` was not examined) | EmployeeList.DepartmentColorAsWritten, EmployeeList.InheritedNameGetsNoColor | EmployeeList.DepartmentColor, EmployeeList.DepartmentColorAgrees |
