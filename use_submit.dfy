/**
 * The form submission hook: `loading` and `error` around one API call, the
 * message it surfaces when the call fails, and the failure it passes on to
 * the calling page. The API call's outcome is an input.
 */
module UseSubmit {

  import opened Wrappers
  import Payload
  import Validation

  /** One entry of a Laravel validation response: a field and its messages. */
  datatype FieldMessages = FieldMessages(field: string, messages: seq<string>)

  /**
   * A rejected API call. `tag` stands for the identity of the error object;
   * `validationErrors` is `response.data.errors` when the response carries
   * one, with its entries in the order the server wrote them.
   */
  datatype Failure = Failure(tag: nat, validationErrors: Option<seq<FieldMessages>>)

  datatype Outcome = Resolved | Rejected(failure: Failure)

  /** The hook's `error` state: `null`, `undefined`, or a message. */
  datatype ErrorState = Null | Undefined | Message(text: string)

  /** What leaves the call when it fails: the original error, or a `TypeError` raised inside the `catch`. */
  datatype Thrown = Rethrown(failure: Failure) | TypeError

  const GenericMessage := "An unexpected error occurred. Please try again."

  /**
   * The `catch` block's choice of message: `Object.values(errors)[0][0]` when
   * the response has an error bag, the generic message otherwise. `None`
   * means the expression throws: an empty bag has no first field.
   */
  function FirstError(validationErrors: Option<seq<FieldMessages>>): (r: Option<ErrorState>)
    ensures validationErrors.None? ==> r == Some(Message(GenericMessage))
    ensures r.None? <==> validationErrors == Some([])
    ensures r == Some(Undefined) <==> validationErrors.Some? && validationErrors.value != [] && validationErrors.value[0].messages == []
    ensures validationErrors.Some? && validationErrors.value != [] && validationErrors.value[0].messages != [] ==>
      r == Some(Message(validationErrors.value[0].messages[0]))
  {
    match validationErrors
    case None => Some(Message(GenericMessage))
    case Some(fields) =>
      if fields == [] then None
      else if fields[0].messages == [] then Some(Undefined)
      else Some(Message(fields[0].messages[0]))
  }

  /** The response body Laravel writes for failed validation: each failing field with one message per failed rule. */
  function ErrorBag(errors: seq<Validation.FieldErrors>, messageOf: (string, Validation.Rule) -> string): (r: seq<FieldMessages>)
    ensures |r| == |errors|
    ensures forall k :: 0 <= k < |r| ==> r[k].field == errors[k].field && |r[k].messages| == |errors[k].failed|
    ensures forall k, m :: 0 <= k < |r| && 0 <= m < |r[k].messages| ==> r[k].messages[m] == messageOf(errors[k].field, errors[k].failed[m])
  {
    seq(|errors|, k requires 0 <= k < |errors| =>
      FieldMessages(errors[k].field, seq(|errors[k].failed|, m requires 0 <= m < |errors[k].failed| => messageOf(errors[k].field, errors[k].failed[m]))))
  }

  /**
   * The first entry the validator reports is the first field, in rule order,
   * that fails, with that field's failed rules.
   */
  lemma {:induction false} FirstReportedIsFirstFailing(payload: Payload.Attributes, ruleSet: seq<Validation.FieldRules>,
                                                       store: Validation.Store, syntax: Validation.Syntax)
    requires !Validation.AllFieldsPass(payload, ruleSet, store, syntax)
    ensures var errors := Validation.Validate(payload, ruleSet, store, syntax);
      errors != [] &&
      exists j :: 0 <= j < |ruleSet| && errors[0].field == ruleSet[j].field &&
        errors[0].failed == Validation.FieldFailures(payload, ruleSet[j], store, syntax) &&
        (forall k :: 0 <= k < j ==> Validation.FieldPasses(payload, ruleSet[k], store, syntax))
  {
    var errors := Validation.Validate(payload, ruleSet, store, syntax);
    var failed := Validation.FieldFailures(payload, ruleSet[0], store, syntax);
    if failed != [] {
      assert errors[0].field == ruleSet[0].field && errors[0].failed == failed;
    } else {
      assert !Validation.AllFieldsPass(payload, ruleSet[1..], store, syntax) by {
        assert forall k :: 0 < k < |ruleSet| ==> ruleSet[k] == ruleSet[1..][k - 1];
      }
      FirstReportedIsFirstFailing(payload, ruleSet[1..], store, syntax);
      var j :| 0 <= j < |ruleSet[1..]| && errors[0].field == ruleSet[1..][j].field &&
        errors[0].failed == Validation.FieldFailures(payload, ruleSet[1..][j], store, syntax) &&
        (forall k :: 0 <= k < j ==> Validation.FieldPasses(payload, ruleSet[1..][k], store, syntax));
      assert ruleSet[j + 1] == ruleSet[1..][j];
      forall k | 0 <= k < j + 1 ensures Validation.FieldPasses(payload, ruleSet[k], store, syntax) {
        if k > 0 {
          assert ruleSet[k] == ruleSet[1..][k - 1];
        }
      }
    }
  }

  /**
   * When the server rejects a payload through its validator, the hook never
   * throws a `TypeError` and never shows `undefined`: it shows the message of
   * the first failed rule of the first failing field.
   */
  lemma ServerRejectionShowsFirstMessage(payload: Payload.Attributes, ruleSet: seq<Validation.FieldRules>,
                                         store: Validation.Store, syntax: Validation.Syntax,
                                         messageOf: (string, Validation.Rule) -> string)
    requires !Validation.AllFieldsPass(payload, ruleSet, store, syntax)
    ensures var errors := Validation.Validate(payload, ruleSet, store, syntax);
      errors != [] &&
      FirstError(Some(ErrorBag(errors, messageOf))) == Some(Message(messageOf(errors[0].field, errors[0].failed[0])))
  {
    FirstReportedIsFirstFailing(payload, ruleSet, store, syntax);
  }

  /**
   * The rule whose message the hook shows is the first rule, in the order the
   * reported field's rules are listed, that the field fails.
   */
  lemma ShownRuleIsFirstFailing(payload: Payload.Attributes, ruleSet: seq<Validation.FieldRules>,
                                store: Validation.Store, syntax: Validation.Syntax)
    requires !Validation.AllFieldsPass(payload, ruleSet, store, syntax)
    ensures var errors := Validation.Validate(payload, ruleSet, store, syntax);
      errors != [] &&
      exists j :: 0 <= j < |ruleSet| && errors[0].field == ruleSet[j].field &&
        Validation.FirstFailingRule(errors[0].failed[0], Payload.Get(payload, ruleSet[j].field), ruleSet[j].rules, store, syntax)
  {
    FirstReportedIsFirstFailing(payload, ruleSet, store, syntax);
    var errors := Validation.Validate(payload, ruleSet, store, syntax);
    var j :| 0 <= j < |ruleSet| && errors[0].field == ruleSet[j].field &&
      errors[0].failed == Validation.FieldFailures(payload, ruleSet[j], store, syntax) &&
      (forall k :: 0 <= k < j ==> Validation.FieldPasses(payload, ruleSet[k], store, syntax));
    Validation.FieldFailuresStartWithFirstFailing(payload, ruleSet[j], store, syntax);
  }

  /** The hook's state. */
  class Submitter {
    var loading: bool
    var error: ErrorState

    constructor ()
      ensures !loading && error == Null
    {
      loading, error := false, Null;
    }

    /** The synchronous start of `handleSubmit`: loading on, error cleared. */
    method BeginSubmit()
      modifies this
      ensures loading && error == Null
    {
      loading := true;
      error := Null;
    }

    /**
     * The rest of `handleSubmit`, once the API call has settled: the `catch`
     * sets the error and rethrows, and the `finally` always ends loading.
     * Exactly the rejected calls throw; a `TypeError` raised while reading an
     * empty error bag replaces the original error and leaves `error` unset.
     */
    method CompleteSubmit(outcome: Outcome) returns (thrown: Option<Thrown>)
      modifies this
      ensures !loading
      ensures thrown.Some? <==> outcome.Rejected?
      ensures outcome.Resolved? ==> error == old(error)
      ensures outcome.Rejected? ==>
        match FirstError(outcome.failure.validationErrors)
        case None => thrown == Some(TypeError) && error == old(error)
        case Some(shown) => thrown == Some(Rethrown(outcome.failure)) && error == shown
    {
      thrown := None;
      if outcome.Rejected? {
        var shown := FirstError(outcome.failure.validationErrors);
        if shown.None? {
          thrown := Some(TypeError);
        } else {
          error := shown.value;
          thrown := Some(Rethrown(outcome.failure));
        }
      }
      loading := false;
    }

    /** One submission that nothing interleaves with: on success no error and nothing thrown. */
    method HandleSubmit(outcome: Outcome) returns (thrown: Option<Thrown>)
      modifies this
      ensures !loading
      ensures outcome.Resolved? ==> error == Null && thrown == None
      ensures outcome.Rejected? ==>
        match FirstError(outcome.failure.validationErrors)
        case None => thrown == Some(TypeError) && error == Null
        case Some(shown) => thrown == Some(Rethrown(outcome.failure)) && error == shown
    {
      BeginSubmit();
      thrown := CompleteSubmit(outcome);
    }
  }

  /** A duplicate email sent to the store endpoint shows the server's message for the uniqueness rule. */
  method DuplicateEmailExample()
  {
    var submitter := new Submitter();
    var bag := [FieldMessages("email", ["The email has already been taken."])];
    var thrown := submitter.HandleSubmit(Rejected(Failure(1, Some(bag))));
    assert submitter.error == Message("The email has already been taken.");
    assert thrown == Some(Rethrown(Failure(1, Some(bag)))) && !submitter.loading;
  }
}
