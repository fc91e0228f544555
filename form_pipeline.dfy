/** `FormValidator`: per-field validation on blur, clearing on input, and the
    submit sequence with its re-entrancy guard, busy button and guaranteed
    restoration.

    The page is explicit state here: the error display of the form's fields
    (`invalid`, `feedback`), the submit button (`buttonDisabled`,
    `buttonLabel`), and a trace of what the controller hands to its
    collaborators, in order: notifications, send attempts and the scheduled
    redirect. The `await` of
    `submitForm` splits it in two: SubmitForm runs up to the await and Settle
    runs the continuation with the send's outcome and then the `finally`
    block. The form's controls and its `FormData` entries are read afresh
    on every event, so they are parameters. */
module FormPipeline {
  import opened JsText
  import opened FieldRules
  import opened Notifications
  import Sanitizer

  const CorrectErrorsMessage: string := "Bitte korrigieren Sie die markierten Fehler"
  const SuccessMessage: string := "Vielen Dank! Ihre Nachricht wurde erfolgreich gesendet."
  const FailureMessage: string := "Es gab einen Fehler beim Senden. Bitte versuchen Sie es später erneut."
  const BusyLabel: string := "<span class=\"spinner-border spinner-border-sm me-2\"></span>Wird gesendet..."
  const ThankYouPage: string := "thank_you.html"

  /** How the awaited send settles. */
  datatype Outcome = Success | Failure

  /** What the controller hands to its collaborators. */
  datatype Event =
    | Notified(message: string, kind: string)
    | SendAttempt(data: map<string, string>)
    | RedirectScheduled(target: string)

  /** The `formData.forEach` loop of `submitForm`; the assignment of a
      `__proto__` entry stores nothing. */
  method CollectFormData(entries: Entries) returns (data: map<string, string>)
    ensures data == Collected(entries)
  {
    data := map[];
    for i := 0 to |entries|
      invariant data == Collected(entries[..i])
    {
      assert entries[..i + 1][..i] == entries[..i];
      if entries[i].0 != ProtoKey {
        data := data[entries[i].0 := Sanitizer.Sanitize(entries[i].1)];
      }
    }
    assert entries[..|entries|] == entries;
  }

  class FormValidator {
    const notify: NotificationCenter
    /** Whether the form holds a `button[type="submit"]`. */
    const hasSubmitButton: bool

    var isSubmitting: bool
    /** The controls that carry `is-invalid`. */
    var invalid: set<NodeId>
    /** The `.invalid-feedback` node of each container that has one. */
    var feedback: map<NodeId, Feedback>
    /** The submit button's `disabled` and `innerHTML`. */
    var buttonDisabled: bool
    var buttonLabel: string
    /** `originalText`, held by the suspended `submitForm`. */
    var savedLabel: string
    /** Whether `submitForm` is suspended on its await. */
    var awaiting: bool
    var trace: seq<Event>

    ghost function Errors(): ErrorState
      reads this
    {
      ErrorState(invalid, feedback)
    }

    /** The controller's invariant: a suspended send has the button disabled
        and busy; outside a submission nothing is suspended; the flag stays
        set without a suspended send only when the form has no submit button
        (see SubmitForm). */
    ghost predicate Valid()
      reads this, notify
    {
      && notify.Valid()
      && (awaiting ==> isSubmitting && buttonDisabled && buttonLabel == BusyLabel)
      && (!isSubmitting ==> !awaiting)
      && (isSubmitting && !awaiting ==> !hasSubmitButton)
    }

    /** The constructor: nothing submitting; the marks, the feedback nodes
        and the button are as the page's markup has them. */
    constructor (notify: NotificationCenter, hasSubmitButton: bool, invalid: set<NodeId>,
                 feedback: map<NodeId, Feedback>, buttonDisabled: bool, buttonLabel: string)
      requires notify.Valid()
      ensures Valid()
      ensures this.notify == notify && this.hasSubmitButton == hasSubmitButton
      ensures !isSubmitting && !awaiting
      ensures this.invalid == invalid && this.feedback == feedback
      ensures this.buttonDisabled == buttonDisabled && this.buttonLabel == buttonLabel
      ensures trace == []
    {
      this.notify := notify;
      this.hasSubmitButton := hasSubmitButton;
      isSubmitting, awaiting := false, false;
      this.buttonDisabled, this.buttonLabel, savedLabel := buttonDisabled, buttonLabel, buttonLabel;
      this.invalid, this.feedback, trace := invalid, feedback, [];
    }

    /** `showFieldError`. */
    method ShowFieldError(f: Field, message: string)
      modifies this`invalid, this`feedback
      ensures Errors() == Shown(old(Errors()), f, message)
    {
      invalid := invalid + {f.node};
      feedback := feedback[f.parent := Feedback(message, true)];
    }

    /** `clearFieldError`; also what the `input` event of a control runs. */
    method ClearFieldError(f: Field)
      modifies this`invalid, this`feedback
      ensures Errors() == Cleared(old(Errors()), f)
    {
      invalid := invalid - {f.node};
      if f.parent in feedback {
        feedback := feedback[f.parent := feedback[f.parent].(visible := false)];
      }
    }

    /** `clearAllErrors`: clear every control that carries `is-invalid`; no
        control of the form carries it afterwards. */
    method ClearAllErrors(fields: seq<Field>)
      modifies this`invalid, this`feedback
      ensures Errors() == AfterClearAll(old(Errors()), Flagged(fields, old(invalid)))
      ensures forall k :: 0 <= k < |fields| ==> fields[k].node !in invalid
    {
      var flagged := Flagged(fields, invalid);
      for i := 0 to |flagged|
        invariant Errors() == AfterClearAll(old(Errors()), flagged[..i])
      {
        assert flagged[..i + 1][..i] == flagged[..i];
        ClearFieldError(flagged[i]);
      }
      assert flagged[..|flagged|] == flagged;
      AfterClearAllEffect(old(Errors()), flagged);
      forall k | 0 <= k < |fields| && fields[k].node in old(invalid)
        ensures HasNode(flagged, fields[k].node)
      {
        assert fields[k] in flagged;
      }
    }

    /** `validateField`, the checks in the script's order; it answers what
        Decide answers and leaves the display as AfterValidate says. */
    method ValidateField(f: Field) returns (ok: bool)
      modifies this`invalid, this`feedback
      ensures ok == Passes(VerdictOf(f))
      ensures Errors() == AfterValidate(old(Errors()), f)
    {
      var value := Trim(f.value);
      DecideMeaning(f.id, value, f.required, f.isCheckbox, f.checked);
      if f.required && value == [] {
        ShowFieldError(f, RequiredMessage);
        return false;
      }
      if value == [] && !f.required {
        return true;
      }
      if f.id == "firstName" || f.id == "lastName" {
        if !Validators.NameValid(value) {
          ShowFieldError(f, if f.id == "firstName" then FirstNameMessage else LastNameMessage);
          return false;
        }
      }
      if f.id == "email" && value != [] {
        if !Validators.EmailValid(value) {
          ShowFieldError(f, EmailMessage);
          return false;
        }
      }
      if f.id == "phone" && value != [] {
        if !Validators.PhoneValid(value) {
          ShowFieldError(f, PhoneMessage);
          return false;
        }
      }
      if f.id == "message" && value != [] {
        if !Validators.MessageValid(value) {
          ShowFieldError(f, MessageMessage);
          return false;
        }
      }
      if f.isCheckbox && f.required && !f.checked {
        ShowFieldError(f, PrivacyMessage);
        return false;
      }
      ClearFieldError(f);
      return true;
    }

    /** `validateForm`: every control is validated, failing or not, in
        document order; `steps` are the verdicts reached, and the answer is
        whether all of them passed. */
    method ValidateForm(fields: seq<Field>) returns (ok: bool, ghost steps: seq<(Field, Verdict)>)
      modifies this`invalid, this`feedback
      ensures StepsOf(fields, steps)
      ensures ok == StepsPass(steps)
      ensures Errors() == AfterSteps(old(Errors()), steps)
    {
      ok := true;
      steps := [];
      for i := 0 to |fields|
        invariant StepsOf(fields[..i], steps)
        invariant ok == StepsPass(steps)
        invariant Errors() == AfterSteps(old(Errors()), steps)
      {
        var passed := ValidateField(fields[i]);
        ghost var before := steps;
        steps := steps + [(fields[i], VerdictOf(fields[i]))];
        assert steps[..i] == before;
        forall k | 0 <= k < i + 1 ensures steps[k] == (fields[..i + 1][k], VerdictOf(fields[..i + 1][k])) {
          if k < i {
            assert fields[..i + 1][k] == fields[..i][k];
            assert before[k] == (fields[..i][k], VerdictOf(fields[..i][k]));
          }
        }
        if !passed {
          ok := false;
        }
      }
      assert fields[..|fields|] == fields;
    }

    /** `submitForm` up to its await. The flag is set first; a form without
        a `button[type="submit"]` then throws when the button's `innerHTML` is
        read, and the flag is never cleared again. Otherwise the button is
        disabled and shows the spinner, its label is saved, and the sanitised
        form data goes to the send. */
    method SubmitForm(entries: Entries)
      requires Valid() && !isSubmitting
      modifies this`isSubmitting, this`savedLabel, this`buttonDisabled, this`buttonLabel, this`awaiting, this`trace
      ensures Valid()
      ensures isSubmitting
      ensures invalid == old(invalid) && feedback == old(feedback)
      ensures hasSubmitButton ==>
                && awaiting && buttonDisabled && buttonLabel == BusyLabel && savedLabel == old(buttonLabel)
                && trace == old(trace) + [SendAttempt(Collected(entries))]
      ensures !hasSubmitButton ==>
                && !awaiting && buttonDisabled == old(buttonDisabled) && buttonLabel == old(buttonLabel)
                && savedLabel == old(savedLabel) && trace == old(trace)
    {
      isSubmitting := true;
      if !hasSubmitButton {
        return;
      }
      savedLabel := buttonLabel;
      buttonDisabled := true;
      buttonLabel := BusyLabel;
      var data := CollectFormData(entries);
      awaiting := true;
      trace := trace + [SendAttempt(data)];
    }

    /** The continuation of `submitForm` once the send settles. Success
        notifies and then schedules the redirect; failure notifies with the
        error type. The `finally` block then restores the button and clears
        the flag, on both paths. */
    method Settle(outcome: Outcome)
      requires Valid() && awaiting
      modifies this, notify
      ensures Valid()
      ensures !isSubmitting && !awaiting && !buttonDisabled && buttonLabel == old(savedLabel)
      ensures savedLabel == old(savedLabel) && invalid == old(invalid) && feedback == old(feedback)
      ensures notify.nextId == old(notify.nextId) + 1
      ensures notify.pendingHides == old(notify.pendingHides) + {old(notify.nextId)}
      ensures notify.pendingRemovals == old(notify.pendingRemovals)
      ensures outcome == Success ==>
                && trace == old(trace) + [Notified(SuccessMessage, "success"), RedirectScheduled(ThankYouPage)]
                && notify.entries == old(notify.entries)
                     + [Entry(old(notify.nextId), SuccessMessage, "alert-success", false)]
      ensures outcome == Failure ==>
                && trace == old(trace) + [Notified(FailureMessage, "error")]
                && notify.entries == old(notify.entries)
                     + [Entry(old(notify.nextId), FailureMessage, "alert-danger", false)]
    {
      if outcome == Success {
        assert AlertClass("success") == "alert-success";
        Notify(SuccessMessage, "success");
        trace := trace + [RedirectScheduled(ThankYouPage)];
      } else {
        Notify(FailureMessage, "error");
      }
      Restore();
    }

    /** A `this.notify.show(message, kind)` of the controller: the alert is
        shown and the call is recorded; nothing else of the form changes. */
    method Notify(message: string, kind: string)
      requires Valid()
      modifies this`trace, notify
      ensures Valid()
      ensures trace == old(trace) + [Notified(message, kind)]
      ensures notify.entries == old(notify.entries) + [Entry(old(notify.nextId), message, AlertClass(kind), false)]
      ensures notify.nextId == old(notify.nextId) + 1
      ensures notify.pendingHides == old(notify.pendingHides) + {old(notify.nextId)}
      ensures notify.pendingRemovals == old(notify.pendingRemovals)
    {
      var _ := notify.Show(message, kind);
      trace := trace + [Notified(message, kind)];
    }

    /** The `finally` block of `submitForm`: the flag is cleared and the
        button is enabled with its saved label. */
    method Restore()
      requires Valid()
      modifies this`isSubmitting, this`awaiting, this`buttonDisabled, this`buttonLabel
      ensures Valid()
      ensures !isSubmitting && !awaiting && !buttonDisabled && buttonLabel == savedLabel
    {
      isSubmitting, awaiting := false, false;
      buttonDisabled, buttonLabel := false, savedLabel;
    }

    /** The first two steps of `handleSubmit`: the marks are cleared, then
        every control is validated. */
    method ClearAndValidate(fields: seq<Field>) returns (ok: bool, ghost steps: seq<(Field, Verdict)>)
      modifies this`invalid, this`feedback
      ensures StepsOf(fields, steps) && ok == StepsPass(steps)
      ensures Errors() == AfterSteps(AfterClearAll(old(Errors()), Flagged(fields, old(invalid))), steps)
    {
      ClearAllErrors(fields);
      ok, steps := ValidateForm(fields);
    }

    /** `handleSubmit`. While a submission is in progress it does nothing at
        all. Otherwise it clears the marks, validates every control (`steps`
        are the verdicts reached), and either raises exactly one error
        notification, leaving the flag clear, or starts the submission.
        StepsOfSteps and StepsPassAllPass turn `steps` into the verdicts of
        the fields. */
    method HandleSubmit(fields: seq<Field>, entries: Entries) returns (ghost steps: seq<(Field, Verdict)>)
      requires Valid()
      modifies this`invalid, this`feedback, this`isSubmitting, this`awaiting, this`buttonDisabled,
               this`buttonLabel, this`savedLabel, this`trace, notify
      ensures Valid()
      ensures old(isSubmitting) ==> unchanged(this) && unchanged(notify)
      ensures !old(isSubmitting) ==>
                && StepsOf(fields, steps)
                && Errors() == AfterSteps(AfterClearAll(old(Errors()), Flagged(fields, old(invalid))), steps)
      ensures !old(isSubmitting) && !StepsPass(steps) ==>
                && !isSubmitting && !awaiting && buttonLabel == old(buttonLabel)
                && buttonDisabled == old(buttonDisabled) && savedLabel == old(savedLabel)
                && trace == old(trace) + [Notified(CorrectErrorsMessage, "error")]
                && notify.entries == old(notify.entries)
                     + [Entry(old(notify.nextId), CorrectErrorsMessage, "alert-danger", false)]
                && notify.nextId == old(notify.nextId) + 1
                && notify.pendingHides == old(notify.pendingHides) + {old(notify.nextId)}
                && notify.pendingRemovals == old(notify.pendingRemovals)
      ensures !old(isSubmitting) && StepsPass(steps) ==>
                && isSubmitting && unchanged(notify)
                && (hasSubmitButton ==>
                      && awaiting && buttonDisabled && buttonLabel == BusyLabel && savedLabel == old(buttonLabel)
                      && trace == old(trace) + [SendAttempt(Collected(entries))])
                && (!hasSubmitButton ==>
                      && !awaiting && buttonLabel == old(buttonLabel) && trace == old(trace)
                      && buttonDisabled == old(buttonDisabled) && savedLabel == old(savedLabel))
    {
      steps := [];
      if isSubmitting {
        return;
      }
      var ok;
      ok, steps := ClearAndValidate(fields);
      if !ok {
        Notify(CorrectErrorsMessage, "error");
        return;
      }
      SubmitForm(entries);
    }
  }

  /** After a rejected submission every control of the form that fails is
      marked and every control that passes is not. */
  lemma RejectedSubmitMarks(e: ErrorState, fields: seq<Field>)
    requires DistinctNodes(fields)
    ensures var after := AfterValidateAll(AfterClearAll(e, Flagged(fields, e.invalid)), fields);
            forall k :: 0 <= k < |fields| ==>
              (fields[k].node in after.invalid <==> !Passes(VerdictOf(fields[k])))
  {
    var flagged := Flagged(fields, e.invalid);
    var cleared := AfterClearAll(e, flagged);
    AfterClearAllEffect(e, flagged);
    forall k | 0 <= k < |fields| ensures fields[k].node !in cleared.invalid {
      if fields[k].node in e.invalid {
        assert fields[k] in flagged;
        var j :| 0 <= j < |flagged| && flagged[j] == fields[k];
        assert HasNode(flagged, fields[k].node);
      }
    }
    AfterValidateAllMarks(cleared, fields);
  }

  /** Two submits of a valid form in a row, the send then failing: the
      second submit is dropped, so exactly one send is attempted, and the
      button ends enabled with its original label. */
  method SubmitTwiceThenFail(fields: seq<Field>, entries: Entries) returns (trace: seq<Event>, buttonDisabled: bool, buttonLabel: string)
    requires AllPass(fields)
    ensures trace == [SendAttempt(Collected(entries)), Notified(FailureMessage, "error")]
    ensures !buttonDisabled && buttonLabel == "Senden"
  {
    var center := new NotificationCenter();
    var form := new FormValidator(center, true, {}, map[], false, "Senden");
    ghost var steps := form.HandleSubmit(fields, entries);
    StepsPassAllPass(fields, steps);
    steps := form.HandleSubmit(fields, entries);
    form.Settle(Failure);
    trace, buttonDisabled, buttonLabel := form.trace, form.buttonDisabled, form.buttonLabel;
  }

  /** A valid form whose send succeeds: one send, then the success
      notification, then the redirect, in that order. */
  method SubmitThenSucceed(fields: seq<Field>, entries: Entries) returns (trace: seq<Event>, shown: seq<Entry>)
    requires AllPass(fields)
    ensures trace == [SendAttempt(Collected(entries)), Notified(SuccessMessage, "success"), RedirectScheduled(ThankYouPage)]
    ensures |shown| == 1 && shown[0].alertClass == "alert-success"
  {
    var center := new NotificationCenter();
    var form := new FormValidator(center, true, {}, map[], false, "Senden");
    ghost var steps := form.HandleSubmit(fields, entries);
    StepsPassAllPass(fields, steps);
    form.Settle(Success);
    trace, shown := form.trace, center.entries;
  }

  /** A form without a submit button: the first valid submit sets the flag
      and throws, and every later submit is dropped. */
  method NoSubmitButtonLocks(fields: seq<Field>, entries: Entries) returns (submitting: bool, trace: seq<Event>)
    requires AllPass(fields)
    ensures submitting && trace == []
  {
    var center := new NotificationCenter();
    var form := new FormValidator(center, false, {}, map[], false, "Senden");
    ghost var steps := form.HandleSubmit(fields, entries);
    StepsPassAllPass(fields, steps);
    steps := form.HandleSubmit(fields, entries);
    submitting, trace := form.isSubmitting, form.trace;
  }
}
