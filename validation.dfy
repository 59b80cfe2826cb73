/**
 * The part of Laravel's validator that the application's form requests rely
 * on: the string rules `required`, `string`, `email`, `numeric`, `min:n`,
 * `max:n`, `unique:table,column[,ignoreId]` and `exists:table,column`, checked
 * field by field in the order the rules are listed. The database the
 * `unique`/`exists` rules query is an abstract store; whether a string is an
 * e-mail address and which number a numeric string denotes are parameters.
 */
module Validation {

  import opened Wrappers
  import opened Payload
  import opened Sequences

  /** Recognisers the model leaves abstract: Laravel's `email` rule and PHP's `is_numeric` on strings. */
  datatype Syntax = Syntax(isEmail: string -> bool, numericText: string -> Option<real>)

  /** What the `unique` and `exists` rules can see of the database. */
  datatype Store = Store(
    employeeEmails: map<int, string>,    // employees.id -> employees.email
    departmentNames: map<int, string>)   // departments.id -> departments.name

  datatype Rule =
    | Required
    | IsString
    | Email
    | Numeric
    | Min(bound: int)
    | Max(bound: int)
    | UniqueEmployeeEmail(ignoreId: Option<int>)    // unique:employees,email[,id]
    | UniqueDepartmentName(ignoreId: Option<int>)   // unique:departments,name[,id]
    | ExistsDepartment                              // exists:departments,id

  datatype FieldRules = FieldRules(field: string, rules: seq<Rule>)

  /** The failed rules of one field, in rule order: what becomes that field's list of messages. */
  datatype FieldErrors = FieldErrors(field: string, failed: seq<Rule>)

  /** PHP's `trim` character set. */
  predicate IsTrimmed(c: char)
  {
    c == ' ' || c == '\t' || c == '\n' || c == '\r' || c as int == 0 || c as int == 0x0B
  }

  predicate IsBlank(s: string)
  {
    forall i :: 0 <= i < |s| ==> IsTrimmed(s[i])
  }

  /** `required`: present, not null, and not a string that trims to nothing. */
  predicate Filled(v: Value)
  {
    match v
    case Absent => false
    case Null => false
    case Text(s) => !IsBlank(s)
    case Number(_) => true
  }

  /** The number a value denotes, if `numeric` accepts it. */
  function NumericValue(v: Value, syntax: Syntax): Option<real>
  {
    match v
    case Number(x) => Some(x)
    case Text(s) => syntax.numericText(s)
    case _ => None
  }

  predicate HasNumericRule(rules: seq<Rule>)
  {
    Numeric in rules
  }

  /**
   * The size `min`/`max` compare: the number itself when the field has the
   * `numeric` rule and the value is numeric, otherwise the length of a string.
   */
  function Size(v: Value, numeric: bool, syntax: Syntax): Option<real>
  {
    if numeric && NumericValue(v, syntax).Some? then NumericValue(v, syntax)
    else if v.Text? then Some(|v.s| as real)
    else None
  }

  predicate EmailFree(store: Store, email: string, ignoreId: Option<int>)
  {
    forall id :: id in store.employeeEmails && ignoreId != Some(id) ==> store.employeeEmails[id] != email
  }

  predicate NameFree(store: Store, name: string, ignoreId: Option<int>)
  {
    forall id :: id in store.departmentNames && ignoreId != Some(id) ==> store.departmentNames[id] != name
  }

  predicate IsDepartmentId(store: Store, v: Value, syntax: Syntax)
  {
    NumericValue(v, syntax).Some? &&
    exists id :: id in store.departmentNames && NumericValue(v, syntax).value == id as real
  }

  /** Whether value `v` of a field whose rules are `rules` passes `rule`. */
  predicate Passes(rule: Rule, v: Value, rules: seq<Rule>, store: Store, syntax: Syntax)
  {
    match rule
    case Required => Filled(v)
    case IsString => v.Text?
    case Email => v.Text? && syntax.isEmail(v.s)
    case Numeric => NumericValue(v, syntax).Some?
    case Min(b) =>
      var size := Size(v, HasNumericRule(rules), syntax);
      size.None? || size.value >= b as real
    case Max(b) =>
      var size := Size(v, HasNumericRule(rules), syntax);
      size.None? || size.value <= b as real
    case UniqueEmployeeEmail(ignoreId) => !v.Text? || EmailFree(store, v.s, ignoreId)
    case UniqueDepartmentName(ignoreId) => !v.Text? || NameFree(store, v.s, ignoreId)
    case ExistsDepartment => IsDepartmentId(store, v, syntax)
  }

  /** The rules that query the database: Laravel runs them only while the field has no error yet. */
  predicate IsDatabaseRule(rule: Rule)
  {
    rule.UniqueEmployeeEmail? || rule.UniqueDepartmentName? || rule.ExistsDepartment?
  }

  /**
   * The rules of `todo` that `v` fails, in order, when `failedBefore` says
   * whether an earlier rule of the field has already failed. Once `required`
   * has failed no further rule of the field is checked, and once any rule has
   * failed the `unique` and `exists` rules are skipped. Without an earlier
   * failure the result is empty exactly when every rule passes, and only the
   * first reported rule can be a database rule.
   */
  function FailedRules(v: Value, todo: seq<Rule>, rules: seq<Rule>, store: Store, syntax: Syntax, failedBefore: bool): (r: seq<Rule>)
    ensures forall k :: 0 <= k < |r| ==> r[k] in todo && !Passes(r[k], v, rules, store, syntax)
    ensures !failedBefore ==> (r == [] <==> forall k :: 0 <= k < |todo| ==> Passes(todo[k], v, rules, store, syntax))
    ensures forall k :: 0 <= k < |r| && (failedBefore || k > 0) ==> !IsDatabaseRule(r[k])
  {
    if todo == [] then []
    else if failedBefore && IsDatabaseRule(todo[0]) then FailedRules(v, todo[1..], rules, store, syntax, true)
    else if Passes(todo[0], v, rules, store, syntax) then FailedRules(v, todo[1..], rules, store, syntax, failedBefore)
    else if todo[0] == Required then [Required]
    else [todo[0]] + FailedRules(v, todo[1..], rules, store, syntax, true)
  }

  /** No rule is reported after a failed `required`. */
  predicate RequiredOnlyLast(failed: seq<Rule>)
  {
    forall k :: 0 <= k < |failed| - 1 ==> failed[k] != Required
  }

  /**
   * The failed rules are reported in the order the rules are listed. Without
   * an earlier failure, the first reported rule is the first listed rule that
   * fails, every rule before it having passed. `required` can only be the last
   * rule reported, since nothing is checked after it fails.
   */
  lemma {:induction false} FailedRulesInRuleOrder(v: Value, todo: seq<Rule>, rules: seq<Rule>, store: Store, syntax: Syntax, failedBefore: bool)
    ensures IsSubsequence(FailedRules(v, todo, rules, store, syntax, failedBefore), todo)
    ensures var r := FailedRules(v, todo, rules, store, syntax, failedBefore);
      !failedBefore && r != [] ==>
        exists j :: 0 <= j < |todo| && r[0] == todo[j] &&
          forall i :: 0 <= i < j ==> Passes(todo[i], v, rules, store, syntax)
    ensures RequiredOnlyLast(FailedRules(v, todo, rules, store, syntax, failedBefore))
  {
    var r := FailedRules(v, todo, rules, store, syntax, failedBefore);
    if todo == [] {
    } else if failedBefore && IsDatabaseRule(todo[0]) {
      FailedRulesInRuleOrder(v, todo[1..], rules, store, syntax, true);
      assert r == FailedRules(v, todo[1..], rules, store, syntax, true);
      SubsequenceDropFirst(r, todo);
    } else if Passes(todo[0], v, rules, store, syntax) {
      FailedRulesInRuleOrder(v, todo[1..], rules, store, syntax, failedBefore);
      assert r == FailedRules(v, todo[1..], rules, store, syntax, failedBefore);
      SubsequenceDropFirst(r, todo);
      if !failedBefore && r != [] {
        var j :| 0 <= j < |todo[1..]| && r[0] == todo[1..][j] &&
          forall i :: 0 <= i < j ==> Passes(todo[1..][i], v, rules, store, syntax);
        assert r[0] == todo[j + 1];
        forall i | 0 <= i < j + 1 ensures Passes(todo[i], v, rules, store, syntax) {
          if i > 0 {
            assert todo[i] == todo[1..][i - 1];
          }
        }
      }
    } else if todo[0] == Required {
      assert r[0] == todo[0];
    } else {
      var rest := FailedRules(v, todo[1..], rules, store, syntax, true);
      FailedRulesInRuleOrder(v, todo[1..], rules, store, syntax, true);
      assert r == [todo[0]] + rest;
      forall k | 0 <= k < |r| - 1 ensures r[k] != Required {
        if k > 0 {
          assert r[k] == rest[k - 1];
        } else {
          assert r[k] == todo[0];
        }
      }
    }
  }

  function FieldFailures(payload: Attributes, fr: FieldRules, store: Store, syntax: Syntax): seq<Rule>
  {
    FailedRules(Get(payload, fr.field), fr.rules, fr.rules, store, syntax, false)
  }

  /** `rule` is the first of `rules`, in their listed order, that `v` fails. */
  predicate FirstFailingRule(rule: Rule, v: Value, rules: seq<Rule>, store: Store, syntax: Syntax)
  {
    exists i :: 0 <= i < |rules| && rules[i] == rule && !Passes(rule, v, rules, store, syntax) &&
      forall h :: 0 <= h < i ==> Passes(rules[h], v, rules, store, syntax)
  }

  /** The first rule reported for a field is the first of its rules that it fails. */
  lemma FieldFailuresStartWithFirstFailing(payload: Attributes, fr: FieldRules, store: Store, syntax: Syntax)
    requires FieldFailures(payload, fr, store, syntax) != []
    ensures FirstFailingRule(FieldFailures(payload, fr, store, syntax)[0], Get(payload, fr.field), fr.rules, store, syntax)
  {
    FailedRulesInRuleOrder(Get(payload, fr.field), fr.rules, fr.rules, store, syntax, false);
  }

  /** The sent value of field `fr.field` passes every rule of the field. */
  predicate FieldPasses(payload: Attributes, fr: FieldRules, store: Store, syntax: Syntax)
  {
    forall j :: 0 <= j < |fr.rules| ==> Passes(fr.rules[j], Get(payload, fr.field), fr.rules, store, syntax)
  }

  /** Every field of the rule set passes all its rules. */
  predicate AllFieldsPass(payload: Attributes, ruleSet: seq<FieldRules>, store: Store, syntax: Syntax)
  {
    forall k :: 0 <= k < |ruleSet| ==> FieldPasses(payload, ruleSet[k], store, syntax)
  }

  /**
   * The error bag of a request: one entry per failing field, in the order of
   * the rule set, each listing the rules the field failed. The request is
   * accepted exactly when the bag is empty, that is when every rule of every
   * field passes.
   */
  function Validate(payload: Attributes, ruleSet: seq<FieldRules>, store: Store, syntax: Syntax): (errors: seq<FieldErrors>)
    ensures forall k :: 0 <= k < |errors| ==> errors[k].failed != []
    ensures forall k :: 0 <= k < |errors| ==> exists j :: 0 <= j < |ruleSet| && errors[k].field == ruleSet[j].field
    ensures errors == [] <==> AllFieldsPass(payload, ruleSet, store, syntax)
  {
    if ruleSet == [] then []
    else
      var failed := FieldFailures(payload, ruleSet[0], store, syntax);
      var rest := Validate(payload, ruleSet[1..], store, syntax);
      assert AllFieldsPass(payload, ruleSet, store, syntax) <==>
             (failed == [] && AllFieldsPass(payload, ruleSet[1..], store, syntax)) by {
        assert forall k :: 0 < k < |ruleSet| ==> ruleSet[k] == ruleSet[1..][k - 1];
      }
      if failed == [] then rest else [FieldErrors(ruleSet[0].field, failed)] + rest
  }

  /** `$request->validated()`: the sent fields that have rules, and nothing else. */
  function Validated(payload: Attributes, ruleSet: seq<FieldRules>): (r: Attributes)
    ensures forall k :: k in r <==> k in payload && exists j :: 0 <= j < |ruleSet| && ruleSet[j].field == k
    ensures forall k :: k in r ==> r[k] == payload[k]
  {
    map k | k in payload && (exists j :: 0 <= j < |ruleSet| && ruleSet[j].field == k) :: payload[k]
  }
}
