/**
 * The `RegistrationForm` component's interaction state: the four values,
 * which fields have been touched, the error messages recorded so far and the
 * two submission flags, with one method per event handler and one per timer
 * completion.
 */
module Form {
  import opened JsStrings
  import opened Validation

  class RegistrationForm {
    var values: FormValues
    var touched: set<Field>
    var errors: Errors
    var isSubmitting: bool
    var isSuccess: bool
    /** How many 2000 ms reset timers are scheduled and have not fired yet. */
    var pendingResets: nat

    /**
     * The recorded errors are exactly what `validate` says of the current
     * values, on the touched fields, with nothing recorded for an untouched
     * field; and the success message is only shown while a reset timer that
     * will clear it is still scheduled.
     */
    ghost predicate Valid()
      reads this
    {
      && errors == Validate(values).Restrict(touched)
      && (isSuccess ==> pendingResets > 0)
    }

    /**
     * `touched[key] && errors[key]`: the message shown under a field. It is
     * shown exactly for a touched field whose value breaks its rule, and it
     * is that rule's message.
     */
    function DisplayedError(f: Field): (r: Option<string>)
      reads this
      requires Valid()
      ensures r == if f in touched then FieldError(f, values.Get(f)) else None
    {
      ValidateEntry(values, f);
      FieldErrorNonEmpty(f, values.Get(f));
      var e := errors.Get(f);
      if f in touched && e.Some? && e.value != "" then e else None
    }

    /** The state at mount: blank values, nothing touched, no errors, no flag set. */
    constructor ()
      ensures Valid()
      ensures values == EmptyValues && touched == {} && errors == NoErrors
      ensures !isSubmitting && !isSuccess && pendingResets == 0
    {
      values := EmptyValues;
      touched := {};
      errors := NoErrors;
      isSubmitting := false;
      isSuccess := false;
      pendingResets := 0;
    }

    /**
     * `onChange`: stores the new value; a touched field has its own entry
     * re-validated against the new values, and an untouched field's errors
     * are left alone.
     */
    method OnChange(f: Field, value: string)
      requires Valid()
      modifies this
      ensures Valid()
      ensures values == old(values).With(f, value)
      ensures errors == if f in touched then old(errors).With(f, FieldError(f, value)) else old(errors)
      ensures touched == old(touched) && isSubmitting == old(isSubmitting) && isSuccess == old(isSuccess)
      ensures pendingResets == old(pendingResets)
    {
      var nextValues := values.With(f, value);
      ValidateWith(values, f, value);
      values := nextValues;
      if f in touched {
        var nextErrors := Validate(nextValues);
        errors := errors.With(f, nextErrors.Get(f));
      }
    }

    /**
     * `onBlur`: marks the field touched and records `validate`'s verdict on
     * it; afterwards the field shows an error exactly when its value breaks
     * its rule.
     */
    method OnBlur(f: Field)
      requires Valid()
      modifies this
      ensures Valid()
      ensures touched == old(touched) + {f}
      ensures errors == old(errors).With(f, FieldError(f, values.Get(f)))
      ensures values == old(values) && isSubmitting == old(isSubmitting) && isSuccess == old(isSuccess)
      ensures pendingResets == old(pendingResets)
      ensures DisplayedError(f) == FieldError(f, values.Get(f))
    {
      touched := touched + {f};
      var nextErrors := Validate(values);
      errors := errors.With(f, nextErrors.Get(f));
    }

    /**
     * `onSubmit`, which the disabled button keeps from firing while a
     * submission is in flight: touches every field and replaces the errors
     * with `validate(values)`; it starts submitting only when that object
     * has no keys, and then schedules the 700 ms timer.
     */
    method OnSubmit()
      requires Valid() && !isSubmitting
      modifies this
      ensures Valid()
      ensures touched == AllFields && errors == Validate(values)
      ensures values == old(values) && isSuccess == old(isSuccess) && pendingResets == old(pendingResets)
      ensures isSubmitting <==> Validate(values).Keys() == {}
      ensures forall f :: DisplayedError(f) == FieldError(f, values.Get(f))
    {
      touched := AllFields;
      var nextErrors := Validate(values);
      errors := nextErrors;
      if |nextErrors.Keys()| > 0 {
        return;
      }
      isSubmitting := true;
    }

    /**
     * The 700 ms timer firing, which happens only while a submission is in
     * flight: the simulated request succeeds and the 2000 ms timer is
     * scheduled.
     */
    method FinishSubmit()
      requires Valid() && isSubmitting
      modifies this
      ensures Valid()
      ensures !isSubmitting && isSuccess && pendingResets == old(pendingResets) + 1
      ensures values == old(values) && touched == old(touched) && errors == old(errors)
    {
      isSubmitting := false;
      isSuccess := true;
      pendingResets := pendingResets + 1;
    }

    /** A scheduled 2000 ms timer firing: values, touched fields, errors and the success flag go back to their state at mount. */
    method FinishSuccess()
      requires Valid() && pendingResets > 0
      modifies this
      ensures Valid()
      ensures values == EmptyValues && touched == {} && errors == NoErrors && !isSuccess
      ensures isSubmitting == old(isSubmitting) && pendingResets == old(pendingResets) - 1
    {
      values := EmptyValues;
      touched := {};
      errors := NoErrors;
      isSuccess := false;
      pendingResets := pendingResets - 1;
    }
  }

  /**
   * A user fills in every field correctly and submits: the form is
   * submitting at once, shows success when the first timer fires, and is
   * blank with no flag set when the second one fires.
   */
  method ValidSubmissionCycle() returns (submitting: bool, succeeded: bool, finalValues: FormValues, finalSubmitting: bool, finalSuccess: bool)
    ensures submitting && succeeded
    ensures finalValues == EmptyValues && !finalSubmitting && !finalSuccess
  {
    var form := new RegistrationForm();
    form.OnChange(Name, SampleValues.name);
    form.OnChange(Email, SampleValues.email);
    form.OnChange(Phone, SampleValues.phone);
    form.OnChange(Age, SampleValues.age);
    assert form.values == SampleValues;
    SampleFormIsValid();
    form.OnSubmit();
    submitting := form.isSubmitting;
    form.FinishSubmit();
    succeeded := form.isSuccess;
    form.FinishSuccess();
    finalValues, finalSubmitting, finalSuccess := form.values, form.isSubmitting, form.isSuccess;
  }

  /**
   * The button is disabled only while submitting, so the user can submit
   * again while the success message shows: both flags are then set. The
   * first reset timer then clears the values while the second submission
   * is still in flight, and that submission goes on to succeed on the
   * blank form.
   */
  method ResubmitDuringSuccess() returns (bothFlags: bool, submittingAfterReset: bool, valuesAfterReset: FormValues, successAtEnd: bool)
    ensures bothFlags && submittingAfterReset && valuesAfterReset == EmptyValues && successAtEnd
  {
    var form := new RegistrationForm();
    form.OnChange(Name, SampleValues.name);
    form.OnChange(Email, SampleValues.email);
    form.OnChange(Phone, SampleValues.phone);
    form.OnChange(Age, SampleValues.age);
    assert form.values == SampleValues;
    SampleFormIsValid();
    form.OnSubmit();
    form.FinishSubmit();
    form.OnSubmit();
    bothFlags := form.isSubmitting && form.isSuccess;
    form.FinishSuccess();
    submittingAfterReset, valuesAfterReset := form.isSubmitting, form.values;
    form.FinishSubmit();
    successAtEnd := form.isSuccess;
  }

  /**
   * Submitting the blank form: nothing is submitted, and every field now
   * shows its "required" message.
   */
  method BlankSubmission() returns (submitting: bool, shown: map<Field, string>)
    ensures !submitting
    ensures forall f :: f in shown && shown[f] == RequiredMessage(f)
  {
    var form := new RegistrationForm();
    BlankFormIsAllRequired();
    form.OnSubmit();
    submitting := form.isSubmitting;
    shown := map f | f in AllFields && form.DisplayedError(f).Some? :: form.DisplayedError(f).value;
    forall f ensures f in shown && shown[f] == RequiredMessage(f) {
      ValidateEntry(EmptyValues, f);
    }
  }
}
