/**
 * The dashboard statistics aggregator (`DashboardService::getDashboardStats`).
 *
 * The snapshot is the department table and the employee table. Loading the
 * departments "with employees" resolves, for each department, the employees
 * whose `department_id` is its id, in table order. Salaries are whole cents.
 * Both per-department results are maps keyed by department NAME and built
 * department by department, so a later department with a repeated name
 * overwrites the entry of an earlier one.
 */
module DashboardService {

  import opened Decimal

  datatype DepartmentRow = DepartmentRow(id: int, name: string)

  datatype EmployeeRow = EmployeeRow(departmentId: int, salaryCents: nat)

  datatype DashboardStats = DashboardStats(
    totalEmployees: nat,
    employeesByDepartment: map<string, nat>,
    averageSalaryByDepartment: map<string, string>)

  /** The salaries of the employees of department `deptId`, in table order (the eager-loaded relation). */
  function Salaries(employees: seq<EmployeeRow>, deptId: int): (r: seq<nat>)
    ensures |r| <= |employees|
  {
    if employees == [] then []
    else
      (if employees[0].departmentId == deptId then [employees[0].salaryCents] else [])
      + Salaries(employees[1..], deptId)
  }

  /** The names of the departments. */
  function Names(departments: seq<DepartmentRow>): (r: set<string>)
    ensures forall i :: 0 <= i < |departments| ==> departments[i].name in r
  {
    if departments == [] then {}
    else Names(departments[..|departments| - 1]) + {departments[|departments| - 1].name}
  }

  /** No department after position `i` carries the name of the department at `i`. */
  ghost predicate IsLastOfName(departments: seq<DepartmentRow>, i: int)
  {
    0 <= i < |departments| &&
    forall j :: i < j < |departments| ==> departments[j].name != departments[i].name
  }

  predicate DistinctNames(departments: seq<DepartmentRow>)
  {
    forall i, j :: 0 <= i < j < |departments| ==> departments[i].name != departments[j].name
  }

  predicate DistinctIds(departments: seq<DepartmentRow>)
  {
    forall i, j :: 0 <= i < j < |departments| ==> departments[i].id != departments[j].id
  }

  /** The last department of a name before the final row is still the last of that name without it. */
  lemma LastOfNameInFront(departments: seq<DepartmentRow>, i: int)
    requires IsLastOfName(departments, i) && i < |departments| - 1
    ensures IsLastOfName(departments[..|departments| - 1], i)
    ensures departments[|departments| - 1].name != departments[i].name
  {
  }

  /**
   * `$departments->mapWithKeys(fn ($d) => [$d->name => value($d)])`: one key per
   * department name; the value under a name is that of the LAST department
   * carrying it.
   */
  function KeyedByName<V>(departments: seq<DepartmentRow>, value: DepartmentRow -> V): (m: map<string, V>)
    ensures m.Keys == Names(departments)
    ensures forall i :: IsLastOfName(departments, i) ==> m[departments[i].name] == value(departments[i])
  {
    if departments == [] then map[]
    else
      var n := |departments| - 1;
      var front := departments[..n];
      var m := KeyedByName(front, value)[departments[n].name := value(departments[n])];
      assert forall i :: IsLastOfName(departments, i) ==> m[departments[i].name] == value(departments[i]) by {
        forall i | IsLastOfName(departments, i)
          ensures m[departments[i].name] == value(departments[i])
        {
          if i < n {
            LastOfNameInFront(departments, i);
          }
        }
      }
      m
  }

  /** `calculateEmployeesByDept`: the head-count of each department, by name. */
  function EmployeesByDepartment(departments: seq<DepartmentRow>, employees: seq<EmployeeRow>): (m: map<string, nat>)
    ensures m.Keys == Names(departments)
    ensures forall i :: IsLastOfName(departments, i) ==> m[departments[i].name] == |Salaries(employees, departments[i].id)|
  {
    KeyedByName<nat>(departments, (d: DepartmentRow) => |Salaries(employees, d.id)|)
  }

  function Sum(s: seq<nat>): nat
  {
    if s == [] then 0 else Sum(s[..|s| - 1]) + s[|s| - 1]
  }

  /**
   * `avg('salary')` rounded to the cent as `number_format(.., 2)` rounds:
   * the whole number of cents nearest the mean, ties upwards; 0 for a
   * department without employees (`avg` of nothing is null, and `null ?? 0`).
   */
  function AverageCents(salaries: seq<nat>): (r: nat)
    ensures salaries == [] ==> r == 0
    ensures salaries != [] ==> |salaries| * (2 * r) <= 2 * Sum(salaries) + |salaries| < |salaries| * (2 * r + 2)
  {
    RoundedQuotient(Sum(salaries), |salaries|)
  }

  /**
   * `number_format($x, 2, '.', '')` of an amount of `cents` / 100: the whole
   * part in plain decimal digits, a point, and exactly two digits.
   */
  function FormatCents(cents: nat): (r: string)
    ensures |r| >= 4 && r[|r| - 3] == '.'
    ensures AllDigits(r[..|r| - 3]) && AllDigits(r[|r| - 2..])
  {
    NatToDecimal(cents / 100) + "." + [DigitChar(cents / 10 % 10), DigitChar(cents % 10)]
  }

  /** `calculateAvgSalaryByDept`: the formatted mean salary of each department, by name. */
  function AverageSalaryByDepartment(departments: seq<DepartmentRow>, employees: seq<EmployeeRow>): (m: map<string, string>)
    ensures m.Keys == Names(departments)
    ensures forall i :: IsLastOfName(departments, i) ==>
      m[departments[i].name] == FormatCents(AverageCents(Salaries(employees, departments[i].id)))
  {
    KeyedByName<string>(departments, (d: DepartmentRow) => FormatCents(AverageCents(Salaries(employees, d.id))))
  }

  /**
   * `getDashboardStats`: the employee count is that of the whole employee
   * table, and the two maps have exactly the department names as keys, each
   * holding the figures of the last department of that name.
   */
  function GetDashboardStats(departments: seq<DepartmentRow>, employees: seq<EmployeeRow>): (r: DashboardStats)
    ensures r.totalEmployees == |employees|
    ensures r.employeesByDepartment.Keys == r.averageSalaryByDepartment.Keys == Names(departments)
    ensures forall i :: IsLastOfName(departments, i) ==>
      var d := departments[i];
      r.employeesByDepartment[d.name] == |Salaries(employees, d.id)| &&
      r.averageSalaryByDepartment[d.name] == FormatCents(AverageCents(Salaries(employees, d.id)))
  {
    DashboardStats(
      |employees|,
      EmployeesByDepartment(departments, employees),
      AverageSalaryByDepartment(departments, employees))
  }

  // ---------------------------------------------------------------------
  // Keys and overwriting

  /** Every key of the name-keyed maps is the name of some fetched department. */
  lemma {:induction false} NamesComeFromDepartments(departments: seq<DepartmentRow>, k: string)
    requires k in Names(departments)
    ensures exists i :: 0 <= i < |departments| && departments[i].name == k
  {
    var n := |departments| - 1;
    if k != departments[n].name {
      NamesComeFromDepartments(departments[..n], k);
      var i :| 0 <= i < n && departments[..n][i].name == k;
      assert departments[i].name == k;
    }
  }

  /** With distinct names there is one key per department. */
  lemma {:induction false} DistinctNamesKeyCount(departments: seq<DepartmentRow>)
    requires DistinctNames(departments)
    ensures |Names(departments)| == |departments|
  {
    if departments != [] {
      var n := |departments| - 1;
      var front := departments[..n];
      DistinctNamesKeyCount(front);
      NameAbsent(front, departments[n].name);
    }
  }

  lemma {:induction false} NameAbsent(departments: seq<DepartmentRow>, k: string)
    requires forall i :: 0 <= i < |departments| ==> departments[i].name != k
    ensures k !in Names(departments)
  {
    if departments != [] {
      NameAbsent(departments[..|departments| - 1], k);
    }
  }

  /** With distinct names every department is the last of its name, so each one's own figures are reported. */
  lemma DistinctNamesReportEveryDepartment(departments: seq<DepartmentRow>, employees: seq<EmployeeRow>, i: int)
    requires DistinctNames(departments) && 0 <= i < |departments|
    ensures GetDashboardStats(departments, employees).employeesByDepartment[departments[i].name]
            == |Salaries(employees, departments[i].id)|
  {
    assert IsLastOfName(departments, i);
  }

  /**
   * Two departments named "IT": the later one (no employees) overwrites the
   * earlier one (one employee earning 5000.00) in both maps.
   */
  lemma LaterDuplicateNameWins()
    ensures var stats := GetDashboardStats(
              [DepartmentRow(1, "IT"), DepartmentRow(2, "IT")],
              [EmployeeRow(1, 500000)]);
            stats.employeesByDepartment == map["IT" := 0] &&
            stats.averageSalaryByDepartment == map["IT" := "0.00"] &&
            stats.totalEmployees == 1
  {
    var ds := [DepartmentRow(1, "IT"), DepartmentRow(2, "IT")];
    var es := [EmployeeRow(1, 500000)];
    assert IsLastOfName(ds, 1);
    assert Salaries(es, 2) == [] by { assert Salaries(es[1..], 2) == []; }
    assert Names(ds) == {"IT"} by { assert ds[..1][..0] == []; }
    assert FormatCents(0) == "0.00";
  }

  // ---------------------------------------------------------------------
  // Averages and their formatting

  /** A department without employees reports exactly "0.00". */
  lemma EmptyDepartmentReportsZero(departments: seq<DepartmentRow>, employees: seq<EmployeeRow>, i: int)
    requires IsLastOfName(departments, i) && Salaries(employees, departments[i].id) == []
    ensures GetDashboardStats(departments, employees).averageSalaryByDepartment[departments[i].name] == "0.00"
    ensures GetDashboardStats(departments, employees).employeesByDepartment[departments[i].name] == 0
  {
    assert FormatCents(0) == "0.00";
  }

  lemma MulSucc(x: nat, n: nat)
    ensures x * (n + 1) == x * n + x
  {
  }

  lemma {:induction false} SumBetween(s: seq<nat>, lo: nat, hi: nat)
    requires forall k :: 0 <= k < |s| ==> lo <= s[k] <= hi
    ensures lo * |s| <= Sum(s) <= hi * |s|
  {
    if s != [] {
      var init := s[..|s| - 1];
      assert lo * |init| <= Sum(init) <= hi * |init| by {
        SumBetween(init, lo, hi);
      }
      assert Sum(s) == Sum(init) + s[|s| - 1];
      MulSucc(lo, |init|);
      MulSucc(hi, |init|);
    }
  }

  /**
   * The reported average of a department lies between any lower and upper
   * bound of its salaries, in particular between its least and greatest salary.
   */
  lemma AverageWithinBounds(salaries: seq<nat>, lo: nat, hi: nat)
    requires salaries != []
    requires forall k :: 0 <= k < |salaries| ==> lo <= salaries[k] <= hi
    ensures lo <= AverageCents(salaries) <= hi
  {
    SumBetween(salaries, lo, hi);
    RoundedQuotientBetween(Sum(salaries), |salaries|, lo, hi);
  }

  lemma {:induction false} AppendDigit(s: string, d: nat)
    requires AllDigits(s) && d < 10
    ensures AllDigits(s + [DigitChar(d)])
    ensures DecimalValue(s + [DigitChar(d)]) == DecimalValue(s) * 10 + d
  {
    assert (s + [DigitChar(d)])[..|s|] == s;
  }

  /**
   * The formatted amount is a whole part in canonical decimal digits, a point
   * and exactly two digits, with no separator anywhere; read without its point
   * it denotes the number of cents.
   */
  lemma CentsDigits(cents: nat)
    ensures (cents / 100 * 10 + cents / 10 % 10) * 10 + cents % 10 == cents
  {
    assert cents / 10 == cents / 100 * 10 + cents / 10 % 10;
  }

  lemma FormatCentsDenotes(cents: nat)
    ensures var r := FormatCents(cents);
      |r| >= 4 && r[|r| - 3] == '.' &&
      AllDigits(r[..|r| - 3]) && AllDigits(r[|r| - 2..]) &&
      (|r| > 4 ==> r[0] != '0') &&
      DecimalValue(r[..|r| - 3] + r[|r| - 2..]) == cents
  {
    var whole := NatToDecimal(cents / 100);
    var tens, units := cents / 10 % 10, cents % 10;
    var r := FormatCents(cents);
    assert r[..|r| - 3] == whole && r[|r| - 3] == '.' && r[|r| - 2..] == [DigitChar(tens), DigitChar(units)];
    assert DecimalValue(whole + [DigitChar(tens)] + [DigitChar(units)]) == (cents / 100 * 10 + tens) * 10 + units by {
      DecimalRoundTrip(cents / 100);
      AppendDigit(whole, tens);
      AppendDigit(whole + [DigitChar(tens)], units);
    }
    assert whole + [DigitChar(tens)] + [DigitChar(units)] == r[..|r| - 3] + r[|r| - 2..];
    CentsDigits(cents);
  }

  /** Salaries of 1000.00, 2000.00 and 3000.00 average to "2000.00". */
  lemma ThreeSalariesExample()
    ensures AverageCents([100000, 200000, 300000]) == 200000
    ensures FormatCents(AverageCents([100000, 200000, 300000])) == "2000.00"
  {
    var s: seq<nat> := [100000, 200000, 300000];
    assert Sum(s) == 600000 by {
      assert s[..2][..1][..0] == [];
      assert Sum(s[..1]) == 100000;
      assert Sum(s[..2]) == 300000;
    }
    assert RoundedQuotient(600000, 3) == 200000;
    FormatExample();
  }

  /** Two thousand whole units are written "2000.00", with no thousands separator. */
  lemma FormatExample()
    ensures FormatCents(200000) == "2000.00"
  {
    assert NatToDecimal(2000) == "2000" by {
      assert NatToDecimal(2) == "2";
      assert NatToDecimal(20) == "20";
      assert NatToDecimal(200) == "200";
    }
  }

  // ---------------------------------------------------------------------
  // Head-counts against the employee total

  /** The sum of the head-counts of the departments, in fetch order. */
  function SumCounts(departments: seq<DepartmentRow>, employees: seq<EmployeeRow>): nat
  {
    if departments == [] then 0
    else SumCounts(departments[..|departments| - 1], employees) + |Salaries(employees, departments[|departments| - 1].id)|
  }

  /** How many fetched departments carry the id `id`. */
  function IdOccurrences(departments: seq<DepartmentRow>, id: int): nat
  {
    if departments == [] then 0
    else IdOccurrences(departments[..|departments| - 1], id) + (if departments[|departments| - 1].id == id then 1 else 0)
  }

  /** Every employee belongs to one of the fetched departments. */
  predicate AllEmployeesPlaced(departments: seq<DepartmentRow>, employees: seq<EmployeeRow>)
  {
    forall e :: e in employees ==> exists i :: 0 <= i < |departments| && departments[i].id == e.departmentId
  }

  lemma {:induction false} SumCountsStep(departments: seq<DepartmentRow>, e: EmployeeRow, rest: seq<EmployeeRow>)
    ensures SumCounts(departments, [e] + rest) == SumCounts(departments, rest) + IdOccurrences(departments, e.departmentId)
  {
    if departments != [] {
      SumCountsStep(departments[..|departments| - 1], e, rest);
      assert ([e] + rest)[1..] == rest;
    }
  }

  lemma {:induction false} IdOccursOnce(departments: seq<DepartmentRow>, i: int)
    requires DistinctIds(departments) && 0 <= i < |departments|
    ensures IdOccurrences(departments, departments[i].id) == 1
  {
    var n := |departments| - 1;
    if i < n {
      IdOccursOnce(departments[..n], i);
    } else {
      IdAbsent(departments[..n], departments[n].id);
    }
  }

  lemma {:induction false} IdAbsent(departments: seq<DepartmentRow>, id: int)
    requires forall k :: 0 <= k < |departments| ==> departments[k].id != id
    ensures IdOccurrences(departments, id) == 0
  {
    if departments != [] {
      IdAbsent(departments[..|departments| - 1], id);
    }
  }

  /** When department ids are distinct and every employee is placed, the head-counts add up to the employee table. */
  lemma {:induction false} SumCountsIsHeadcount(departments: seq<DepartmentRow>, employees: seq<EmployeeRow>)
    requires DistinctIds(departments) && AllEmployeesPlaced(departments, employees)
    ensures SumCounts(departments, employees) == |employees|
  {
    if employees == [] {
      SumCountsEmpty(departments);
    } else {
      var e, rest := employees[0], employees[1..];
      assert employees == [e] + rest;
      SumCountsStep(departments, e, rest);
      assert e in employees;
      var i :| 0 <= i < |departments| && departments[i].id == e.departmentId;
      IdOccursOnce(departments, i);
      SumCountsIsHeadcount(departments, rest);
    }
  }

  lemma {:induction false} SumCountsEmpty(departments: seq<DepartmentRow>)
    ensures SumCounts(departments, []) == 0
  {
    if departments != [] {
      SumCountsEmpty(departments[..|departments| - 1]);
    }
  }

  lemma {:induction false} SumCountsUniform(departments: seq<DepartmentRow>, employees: seq<EmployeeRow>, c: nat)
    requires forall i :: 0 <= i < |departments| ==> |Salaries(employees, departments[i].id)| == c
    ensures SumCounts(departments, employees) == c * |departments|
  {
    if departments != [] {
      var n := |departments| - 1;
      var front := departments[..n];
      assert SumCounts(front, employees) == c * n by {
        assert forall i :: 0 <= i < n ==> front[i] == departments[i];
        SumCountsUniform(front, employees, c);
      }
      assert SumCounts(departments, employees) == SumCounts(front, employees) + c;
      assert c * (n + 1) == c * n + c;
    }
  }

  /** The department names in fetch order: with distinct names, each key of the maps exactly once. */
  function NameList(departments: seq<DepartmentRow>): (r: seq<string>)
    ensures |r| == |departments|
    ensures forall i :: 0 <= i < |departments| ==> r[i] == departments[i].name
  {
    seq(|departments|, i requires 0 <= i < |departments| => departments[i].name)
  }

  /** The sum of the values a map holds under the listed keys. */
  function SumOver(m: map<string, nat>, keys: seq<string>): nat
    requires forall k :: k in keys ==> k in m
  {
    if keys == [] then 0 else SumOver(m, keys[..|keys| - 1]) + m[keys[|keys| - 1]]
  }

  lemma {:induction false} SumOverCounts(m: map<string, nat>, departments: seq<DepartmentRow>, employees: seq<EmployeeRow>)
    requires forall i :: 0 <= i < |departments| ==>
      departments[i].name in m && m[departments[i].name] == |Salaries(employees, departments[i].id)|
    ensures SumOver(m, NameList(departments)) == SumCounts(departments, employees)
  {
    if departments != [] {
      var n := |departments| - 1;
      var front := departments[..n];
      assert forall i :: 0 <= i < n ==> front[i] == departments[i];
      SumOverCounts(m, front, employees);
      var names := NameList(departments);
      assert names[..n] == NameList(front);
      assert SumOver(m, names) == SumOver(m, names[..n]) + m[departments[n].name];
    }
  }

  /**
   * A map keyed by the department names that holds, under each name, the
   * head-count of the last department of that name: with distinct ids and
   * names and every employee placed, its values over the list of names add up
   * to the number of employees.
   */
  lemma HeadcountMapSums(m: map<string, nat>, departments: seq<DepartmentRow>, employees: seq<EmployeeRow>)
    requires DistinctIds(departments) && DistinctNames(departments)
    requires AllEmployeesPlaced(departments, employees)
    requires m.Keys == Names(departments)
    requires forall i :: IsLastOfName(departments, i) ==> m[departments[i].name] == |Salaries(employees, departments[i].id)|
    ensures forall k :: k in NameList(departments) <==> k in m
    ensures SumOver(m, NameList(departments)) == |employees|
  {
    var names := NameList(departments);
    assert forall k :: k in names <==> k in m by {
      forall k | k in m ensures k in names {
        NamesComeFromDepartments(departments, k);
      }
    }
    forall i | 0 <= i < |departments|
      ensures departments[i].name in m && m[departments[i].name] == |Salaries(employees, departments[i].id)|
    {
      assert IsLastOfName(departments, i);
    }
    SumOverCounts(m, departments, employees);
    SumCountsIsHeadcount(departments, employees);
  }

  /**
   * When department ids and names are distinct and every employee belongs to a
   * fetched department, the head-counts, summed over every key of the map
   * once, give `total_employees`.
   */
  lemma CountsSumToTotal(departments: seq<DepartmentRow>, employees: seq<EmployeeRow>)
    requires DistinctIds(departments) && DistinctNames(departments)
    requires AllEmployeesPlaced(departments, employees)
    ensures var stats := GetDashboardStats(departments, employees);
      (forall k :: k in NameList(departments) <==> k in stats.employeesByDepartment) &&
      (forall i, j :: 0 <= i < j < |departments| ==> NameList(departments)[i] != NameList(departments)[j]) &&
      SumOver(stats.employeesByDepartment, NameList(departments)) == stats.totalEmployees
  {
    var stats := GetDashboardStats(departments, employees);
    HeadcountMapSums(stats.employeesByDepartment, departments, employees);
  }

  /**
   * The seeded demo data: five departments with distinct names and ids and
   * five employees each. The dashboard reports 25 employees and five keys in
   * each map, every department with a head-count of 5.
   */
  lemma SeededScenario(departments: seq<DepartmentRow>, employees: seq<EmployeeRow>)
    requires |departments| == 5 && DistinctIds(departments) && DistinctNames(departments)
    requires AllEmployeesPlaced(departments, employees)
    requires forall i :: 0 <= i < 5 ==> |Salaries(employees, departments[i].id)| == 5
    ensures var stats := GetDashboardStats(departments, employees);
      stats.totalEmployees == 25 &&
      |stats.employeesByDepartment.Keys| == 5 && |stats.averageSalaryByDepartment.Keys| == 5 &&
      forall i :: 0 <= i < 5 ==> stats.employeesByDepartment[departments[i].name] == 5
  {
    SumCountsIsHeadcount(departments, employees);
    SumCountsUniform(departments, employees, 5);
    DistinctNamesKeyCount(departments);
    forall i | 0 <= i < 5 ensures IsLastOfName(departments, i) { }
  }
}
