/**
 * The three form requests of the back end: the rule sets their `rules()`
 * methods return, and what accepting a request means field by field. The
 * update requests take the id of the routed record, which the uniqueness rule
 * ignores.
 */
module FormRequests {

  import opened Wrappers
  import opened Payload
  import opened Validation
  import EmployeeModel

  /**
   * `StoreEmployeeRequest::rules()`: the validated fields are exactly the
   * model's fillable attributes, and each of them is required.
   */
  function StoreEmployeeRules(): (r: seq<FieldRules>)
    ensures (set k | 0 <= k < |r| :: r[k].field) == EmployeeModel.Fillable
    ensures forall k :: 0 <= k < |r| ==> r[k].rules != [] && r[k].rules[0] == Required
  {
    var r :=
      [ FieldRules("name", [Required, IsString, Max(255)]),
        FieldRules("email", [Required, Email, UniqueEmployeeEmail(None), Max(255)]),
        FieldRules("position", [Required, IsString, Max(255)]),
        FieldRules("salary", [Required, Numeric, Min(0)]),
        FieldRules("department_id", [Required, ExistsDepartment]) ];
    assert (set k | 0 <= k < |r| :: r[k].field) == EmployeeModel.Fillable by {
      var fields := set k | 0 <= k < |r| :: r[k].field;
      assert r[0].field in fields && r[1].field in fields && r[2].field in fields;
      assert r[3].field in fields && r[4].field in fields;
    }
    r
  }

  /**
   * `UpdateEmployeeRequest::rules()` for the routed employee `employeeId`:
   * the rules of a create, except that the uniqueness of the e-mail address
   * ignores the employee being updated.
   */
  function UpdateEmployeeRules(employeeId: int): (r: seq<FieldRules>)
    ensures |r| == |StoreEmployeeRules()|
    ensures forall k :: 0 <= k < |r| && k != 1 ==> r[k] == StoreEmployeeRules()[k]
    ensures r[1].field == "email" && r[1].rules == StoreEmployeeRules()[1].rules[2 := UniqueEmployeeEmail(Some(employeeId))]
  {
    [ FieldRules("name", [Required, IsString, Max(255)]),
      FieldRules("email", [Required, Email, UniqueEmployeeEmail(Some(employeeId)), Max(255)]),
      FieldRules("position", [Required, IsString, Max(255)]),
      FieldRules("salary", [Required, Numeric, Min(0)]),
      FieldRules("department_id", [Required, ExistsDepartment]) ]
  }

  /**
   * `UpdateDepartmentRequest::rules()` for the routed department
   * `departmentId`: only the name is validated, it is required, and its
   * uniqueness ignores the department being renamed.
   */
  function UpdateDepartmentRules(departmentId: int): (r: seq<FieldRules>)
    ensures |r| == 1 && r[0].field == "name" && r[0].rules != [] && r[0].rules[0] == Required
    ensures UniqueDepartmentName(Some(departmentId)) in r[0].rules
  {
    [ FieldRules("name", [Required, IsString, UniqueDepartmentName(Some(departmentId)), Max(255)]) ]
  }

  predicate AcceptsStoreEmployee(payload: Attributes, store: Store, syntax: Syntax)
  {
    Validate(payload, StoreEmployeeRules(), store, syntax) == []
  }

  predicate AcceptsUpdateEmployee(payload: Attributes, employeeId: int, store: Store, syntax: Syntax)
  {
    Validate(payload, UpdateEmployeeRules(employeeId), store, syntax) == []
  }

  predicate AcceptsUpdateDepartment(payload: Attributes, departmentId: int, store: Store, syntax: Syntax)
  {
    Validate(payload, UpdateDepartmentRules(departmentId), store, syntax) == []
  }

  // ---------------------------------------------------------------------
  // What acceptance means, stated field by field

  /** A non-blank string of at most 255 characters. */
  predicate ShortText(v: Value)
  {
    v.Text? && !IsBlank(v.s) && |v.s| <= 255
  }

  /**
   * A valid employee record: a name and a position that are non-blank strings
   * of at most 255 characters; an e-mail address of at most 255 characters
   * that no employee other than `self` has; a numeric, non-negative salary;
   * the id of an existing department.
   */
  predicate ValidEmployee(payload: Attributes, self: Option<int>, store: Store, syntax: Syntax)
  {
    var name, email, position := Get(payload, "name"), Get(payload, "email"), Get(payload, "position");
    var salary, department := Get(payload, "salary"), Get(payload, "department_id");
    && ShortText(name)
    && ShortText(email) && syntax.isEmail(email.s) && EmailFree(store, email.s, self)
    && ShortText(position)
    && Filled(salary) && NumericValue(salary, syntax).Some? && NumericValue(salary, syntax).value >= 0.0
    && Filled(department) && IsDepartmentId(store, department, syntax)
  }

  /** A field with rules `required|string|max:255` passes exactly when it is short text. */
  lemma ShortTextField(payload: Attributes, fr: FieldRules, store: Store, syntax: Syntax)
    requires fr.rules == [Required, IsString, Max(255)]
    ensures FieldPasses(payload, fr, store, syntax) <==> ShortText(Get(payload, fr.field))
  {
    var v := Get(payload, fr.field);
    assert !HasNumericRule(fr.rules);
    if ShortText(v) {
      forall j | 0 <= j < 3 ensures Passes(fr.rules[j], v, fr.rules, store, syntax) {
      }
    } else {
      assert !Passes(fr.rules[0], v, fr.rules, store, syntax) || !Passes(fr.rules[1], v, fr.rules, store, syntax)
          || !Passes(fr.rules[2], v, fr.rules, store, syntax);
    }
  }

  /** The rule set of five fields passes exactly when each of its five fields does. */
  lemma FiveFields(payload: Attributes, ruleSet: seq<FieldRules>, store: Store, syntax: Syntax)
    requires |ruleSet| == 5
    ensures AllFieldsPass(payload, ruleSet, store, syntax) <==>
      FieldPasses(payload, ruleSet[0], store, syntax) && FieldPasses(payload, ruleSet[1], store, syntax) &&
      FieldPasses(payload, ruleSet[2], store, syntax) && FieldPasses(payload, ruleSet[3], store, syntax) &&
      FieldPasses(payload, ruleSet[4], store, syntax)
  {
    if FieldPasses(payload, ruleSet[0], store, syntax) && FieldPasses(payload, ruleSet[1], store, syntax) &&
       FieldPasses(payload, ruleSet[2], store, syntax) && FieldPasses(payload, ruleSet[3], store, syntax) &&
       FieldPasses(payload, ruleSet[4], store, syntax)
    {
      forall k | 0 <= k < 5 ensures FieldPasses(payload, ruleSet[k], store, syntax) {
      }
    }
  }

  /** A field with rules `required|email|unique:employees,email[,self]|max:255`. */
  lemma EmailField(payload: Attributes, fr: FieldRules, self: Option<int>, store: Store, syntax: Syntax)
    requires fr.rules == [Required, Email, UniqueEmployeeEmail(self), Max(255)]
    ensures var email := Get(payload, fr.field);
      FieldPasses(payload, fr, store, syntax) <==>
      ShortText(email) && syntax.isEmail(email.s) && EmailFree(store, email.s, self)
  {
    var email, rules := Get(payload, fr.field), fr.rules;
    assert !HasNumericRule(rules);
    if ShortText(email) && syntax.isEmail(email.s) && EmailFree(store, email.s, self) {
      forall j | 0 <= j < 4 ensures Passes(rules[j], email, rules, store, syntax) {
      }
    } else {
      assert !Passes(rules[0], email, rules, store, syntax) || !Passes(rules[1], email, rules, store, syntax)
          || !Passes(rules[2], email, rules, store, syntax) || !Passes(rules[3], email, rules, store, syntax);
    }
  }

  /** A field with rules `required|numeric|min:0`. */
  lemma SalaryField(payload: Attributes, fr: FieldRules, store: Store, syntax: Syntax)
    requires fr.rules == [Required, Numeric, Min(0)]
    ensures var salary := Get(payload, fr.field);
      FieldPasses(payload, fr, store, syntax) <==>
      Filled(salary) && NumericValue(salary, syntax).Some? && NumericValue(salary, syntax).value >= 0.0
  {
    var salary, rules := Get(payload, fr.field), fr.rules;
    assert HasNumericRule(rules);
    if Filled(salary) && NumericValue(salary, syntax).Some? && NumericValue(salary, syntax).value >= 0.0 {
      forall j | 0 <= j < 3 ensures Passes(rules[j], salary, rules, store, syntax) {
      }
    } else {
      assert !Passes(rules[0], salary, rules, store, syntax) || !Passes(rules[1], salary, rules, store, syntax)
          || !Passes(rules[2], salary, rules, store, syntax);
    }
  }

  /** A field with rules `required|exists:departments,id`. */
  lemma DepartmentField(payload: Attributes, fr: FieldRules, store: Store, syntax: Syntax)
    requires fr.rules == [Required, ExistsDepartment]
    ensures var department := Get(payload, fr.field);
      FieldPasses(payload, fr, store, syntax) <==> Filled(department) && IsDepartmentId(store, department, syntax)
  {
    var department, rules := Get(payload, fr.field), fr.rules;
    if Filled(department) && IsDepartmentId(store, department, syntax) {
      forall j | 0 <= j < 2 ensures Passes(rules[j], department, rules, store, syntax) {
      }
    } else {
      assert !Passes(rules[0], department, rules, store, syntax) || !Passes(rules[1], department, rules, store, syntax);
    }
  }

  /** The employee rule sets accept exactly the valid records; only the ignored id differs between them. */
  lemma {:induction false} EmployeeRulesMeaning(payload: Attributes, self: Option<int>, store: Store, syntax: Syntax)
    ensures var ruleSet := if self.None? then StoreEmployeeRules() else UpdateEmployeeRules(self.value);
      Validate(payload, ruleSet, store, syntax) == [] <==> ValidEmployee(payload, self, store, syntax)
  {
    var ruleSet := if self.None? then StoreEmployeeRules() else UpdateEmployeeRules(self.value);
    FiveFields(payload, ruleSet, store, syntax);
    ShortTextField(payload, ruleSet[0], store, syntax);
    EmailField(payload, ruleSet[1], self, store, syntax);
    ShortTextField(payload, ruleSet[2], store, syntax);
    SalaryField(payload, ruleSet[3], store, syntax);
    DepartmentField(payload, ruleSet[4], store, syntax);
  }

  /** `StoreEmployeeRequest` accepts a payload exactly when it is a valid record whose e-mail no employee has. */
  lemma StoreEmployeeMeaning(payload: Attributes, store: Store, syntax: Syntax)
    ensures AcceptsStoreEmployee(payload, store, syntax) <==> ValidEmployee(payload, None, store, syntax)
  {
    EmployeeRulesMeaning(payload, None, store, syntax);
  }

  /** `UpdateEmployeeRequest` accepts a payload exactly when it is a valid record whose e-mail no OTHER employee has. */
  lemma UpdateEmployeeMeaning(payload: Attributes, employeeId: int, store: Store, syntax: Syntax)
    ensures AcceptsUpdateEmployee(payload, employeeId, store, syntax) <==> ValidEmployee(payload, Some(employeeId), store, syntax)
  {
    EmployeeRulesMeaning(payload, Some(employeeId), store, syntax);
  }

  /** No two stored employees share an e-mail address. */
  predicate EmailsDistinct(store: Store)
  {
    forall a, b :: a in store.employeeEmails && b in store.employeeEmails && a != b ==>
      store.employeeEmails[a] != store.employeeEmails[b]
  }

  /**
   * Resubmitting an employee's current e-mail address passes the update: with
   * the other fields valid, the update is accepted, while creating a new
   * employee with that same address is rejected.
   */
  lemma UpdateKeepsOwnEmail(payload: Attributes, employeeId: int, store: Store, syntax: Syntax)
    requires EmailsDistinct(store) && employeeId in store.employeeEmails
    requires Get(payload, "email") == Text(store.employeeEmails[employeeId])
    requires ShortText(Get(payload, "email")) && syntax.isEmail(store.employeeEmails[employeeId])
    requires ShortText(Get(payload, "name")) && ShortText(Get(payload, "position"))
    requires Filled(Get(payload, "salary")) && NumericValue(Get(payload, "salary"), syntax).Some?
    requires NumericValue(Get(payload, "salary"), syntax).value >= 0.0
    requires Filled(Get(payload, "department_id")) && IsDepartmentId(store, Get(payload, "department_id"), syntax)
    ensures AcceptsUpdateEmployee(payload, employeeId, store, syntax)
    ensures !AcceptsStoreEmployee(payload, store, syntax)
  {
    UpdateEmployeeMeaning(payload, employeeId, store, syntax);
    StoreEmployeeMeaning(payload, store, syntax);
  }

  /** Under the e-mail rules, a short string that is not an address fails `email` and nothing else is reported. */
  lemma MalformedEmailFailures(email: Value, rules: seq<Rule>, store: Store, syntax: Syntax)
    requires rules == [Required, Email, UniqueEmployeeEmail(None), Max(255)]
    requires ShortText(email) && !syntax.isEmail(email.s)
    ensures FailedRules(email, rules, rules, store, syntax, false) == [Email]
  {
    assert !HasNumericRule(rules);
    assert Passes(Max(255), email, rules, store, syntax);
    assert FailedRules(email, [Max(255)], rules, store, syntax, true) == [];
    assert rules[2..][1..] == [Max(255)];
    assert FailedRules(email, rules[2..], rules, store, syntax, true) == [];
    assert rules[1..][1..] == rules[2..];
  }

  /**
   * A malformed address is reported only as malformed, even when another
   * employee has it: once `email` has failed, `unique` is not run.
   */
  lemma MalformedTakenEmailReportsSyntaxOnly(payload: Attributes, other: int, store: Store, syntax: Syntax)
    requires other in store.employeeEmails
    requires Get(payload, "email") == Text(store.employeeEmails[other])
    requires ShortText(Get(payload, "email")) && !syntax.isEmail(store.employeeEmails[other])
    ensures FieldFailures(payload, StoreEmployeeRules()[1], store, syntax) == [Email]
  {
    var fr := StoreEmployeeRules()[1];
    assert fr == FieldRules("email", [Required, Email, UniqueEmployeeEmail(None), Max(255)]);
    MalformedEmailFailures(Get(payload, "email"), fr.rules, store, syntax);
  }

  /** Changing an employee's e-mail to that of a different existing employee is rejected. */
  lemma UpdateRejectsTakenEmail(payload: Attributes, employeeId: int, other: int, store: Store, syntax: Syntax)
    requires other != employeeId && other in store.employeeEmails
    requires Get(payload, "email") == Text(store.employeeEmails[other])
    ensures !AcceptsUpdateEmployee(payload, employeeId, store, syntax)
  {
    UpdateEmployeeMeaning(payload, employeeId, store, syntax);
  }

  /**
   * Every field is required on update as on creation: a payload that leaves
   * out any of the five fields is rejected, so an update is never partial.
   */
  lemma EmployeeUpdateIsFullField(payload: Attributes, employeeId: int, field: string, store: Store, syntax: Syntax)
    requires field in {"name", "email", "position", "salary", "department_id"}
    requires field !in payload
    ensures !AcceptsUpdateEmployee(payload, employeeId, store, syntax)
    ensures !AcceptsStoreEmployee(payload, store, syntax)
  {
    UpdateEmployeeMeaning(payload, employeeId, store, syntax);
    StoreEmployeeMeaning(payload, store, syntax);
  }

  /** A negative salary is rejected on creation and on update. */
  lemma NegativeSalaryRejected(payload: Attributes, employeeId: int, store: Store, syntax: Syntax)
    requires NumericValue(Get(payload, "salary"), syntax).Some?
    requires NumericValue(Get(payload, "salary"), syntax).value < 0.0
    ensures !AcceptsStoreEmployee(payload, store, syntax)
    ensures !AcceptsUpdateEmployee(payload, employeeId, store, syntax)
  {
    UpdateEmployeeMeaning(payload, employeeId, store, syntax);
    StoreEmployeeMeaning(payload, store, syntax);
  }

  /**
   * A `department_id` that denotes no existing department's id (a number or
   * numeric string of an unknown id, or anything that is not numeric) is
   * rejected on creation and on update.
   */
  lemma UnknownDepartmentRejected(payload: Attributes, employeeId: int, store: Store, syntax: Syntax)
    requires forall id :: id in store.departmentNames ==>
      NumericValue(Get(payload, "department_id"), syntax) != Some(id as real)
    ensures !AcceptsStoreEmployee(payload, store, syntax)
    ensures !AcceptsUpdateEmployee(payload, employeeId, store, syntax)
  {
    UpdateEmployeeMeaning(payload, employeeId, store, syntax);
    StoreEmployeeMeaning(payload, store, syntax);
  }

  lemma FieldsOfEmployeeRules(payload: Attributes, ruleSet: seq<FieldRules>)
    requires |ruleSet| == 5
    requires ruleSet[0].field == "name" && ruleSet[1].field == "email" && ruleSet[2].field == "position"
    requires ruleSet[3].field == "salary" && ruleSet[4].field == "department_id"
    ensures Validated(payload, ruleSet).Keys == payload.Keys * EmployeeModel.Fillable
  {
    var v := Validated(payload, ruleSet);
    forall k | k in payload && k in EmployeeModel.Fillable ensures k in v {
      var j := if k == "name" then 0 else if k == "email" then 1 else if k == "position" then 2
               else if k == "salary" then 3 else 4;
      assert ruleSet[j].field == k;
    }
  }

  /** What an accepted employee write stores: every validated field passes the `$fillable` whitelist, and nothing else does. */
  lemma ValidatedEmployeeIsFillable(payload: Attributes, employeeId: int)
    ensures (EmployeeModel.Fill(Validated(payload, StoreEmployeeRules()))).Keys == payload.Keys * EmployeeModel.Fillable
    ensures (EmployeeModel.Fill(Validated(payload, UpdateEmployeeRules(employeeId)))).Keys == payload.Keys * EmployeeModel.Fillable
  {
    FieldsOfEmployeeRules(payload, StoreEmployeeRules());
    FieldsOfEmployeeRules(payload, UpdateEmployeeRules(employeeId));
  }

  // ---------------------------------------------------------------------
  // Department rename

  /** A valid rename: a non-blank string of at most 255 characters that no OTHER department is called. */
  predicate ValidDepartmentRename(payload: Attributes, departmentId: int, store: Store)
  {
    var name := Get(payload, "name");
    ShortText(name) && NameFree(store, name.s, Some(departmentId))
  }

  /** `UpdateDepartmentRequest` accepts a payload exactly when it is a valid rename. */
  lemma UpdateDepartmentMeaning(payload: Attributes, departmentId: int, store: Store, syntax: Syntax)
    ensures AcceptsUpdateDepartment(payload, departmentId, store, syntax) <==> ValidDepartmentRename(payload, departmentId, store)
  {
    var ruleSet := UpdateDepartmentRules(departmentId);
    var name, rules := Get(payload, "name"), ruleSet[0].rules;
    assert !HasNumericRule(rules);
    assert AllFieldsPass(payload, ruleSet, store, syntax) <==> FieldPasses(payload, ruleSet[0], store, syntax);
    if ValidDepartmentRename(payload, departmentId, store) {
      forall j | 0 <= j < 4 ensures Passes(rules[j], name, rules, store, syntax) {
      }
    } else {
      assert !Passes(rules[0], name, rules, store, syntax) || !Passes(rules[1], name, rules, store, syntax)
          || !Passes(rules[2], name, rules, store, syntax) || !Passes(rules[3], name, rules, store, syntax);
    }
  }

  predicate NamesDistinct(store: Store)
  {
    forall a, b :: a in store.departmentNames && b in store.departmentNames && a != b ==>
      store.departmentNames[a] != store.departmentNames[b]
  }

  /** Renaming a department to its own current name is accepted: the department itself is excluded from the check. */
  lemma RenameToOwnNameAccepted(payload: Attributes, departmentId: int, store: Store, syntax: Syntax)
    requires NamesDistinct(store) && departmentId in store.departmentNames
    requires Get(payload, "name") == Text(store.departmentNames[departmentId])
    requires ShortText(Get(payload, "name"))
    ensures AcceptsUpdateDepartment(payload, departmentId, store, syntax)
  {
    UpdateDepartmentMeaning(payload, departmentId, store, syntax);
  }

  /** Renaming a department to the name of a different department is rejected. */
  lemma RenameToTakenNameRejected(payload: Attributes, departmentId: int, other: int, store: Store, syntax: Syntax)
    requires other != departmentId && other in store.departmentNames
    requires Get(payload, "name") == Text(store.departmentNames[other])
    ensures !AcceptsUpdateDepartment(payload, departmentId, store, syntax)
  {
    UpdateDepartmentMeaning(payload, departmentId, store, syntax);
  }

  /** Only `name` is validated, so an accepted rename hands nothing but the name to the update. */
  lemma RenameValidatesOnlyName(payload: Attributes, departmentId: int)
    ensures Validated(payload, UpdateDepartmentRules(departmentId)).Keys == payload.Keys * {"name"}
  {
    assert UpdateDepartmentRules(departmentId)[0].field == "name";
  }
}
