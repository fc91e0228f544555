/** The decision `FormValidator.validateField` takes about one field, the
    texts of `ERROR_MESSAGES`, and the error display it writes into the page
    (the `is-invalid` marker of each field and the `.invalid-feedback` node of
    each field's parent), as values. */
module FieldRules {
  import opened JsText
  import opened Validators
  import Sanitizer

  const FirstNameMessage: string := "Bitte geben Sie einen gültigen Vornamen ein (2-50 Zeichen)"
  const LastNameMessage: string := "Bitte geben Sie einen gültigen Nachnamen ein (2-50 Zeichen)"
  const EmailMessage: string := "Bitte geben Sie eine gültige E-Mail-Adresse ein"
  const PhoneMessage: string := "Bitte geben Sie eine gültige Telefonnummer ein (10-20 Zeichen)"
  const MessageMessage: string := "Die Nachricht muss mindestens 10 Zeichen enthalten"
  const PrivacyMessage: string := "Sie müssen die Datenschutzerklärung akzeptieren"
  const RequiredMessage: string := "Dieses Feld ist erforderlich"

  /** What validating one field decides. Blank: an optional field left empty,
      accepted without touching its error display; Valid: accepted, and its
      error display is cleared; Invalid: refused with a message. */
  datatype Verdict = Blank | Valid | Invalid(message: string)

  /** `validateField`'s return value. */
  predicate Passes(v: Verdict) {
    !v.Invalid?
  }

  /** The ids that select a pattern of `VALIDATORS`. */
  predicate HasRule(id: string) {
    id == "firstName" || id == "lastName" || id == "email" || id == "phone" || id == "message"
  }

  /** The pattern an id selects, applied to a value; an id without a pattern
      accepts everything. */
  predicate RuleHolds(id: string, value: string) {
    if id == "firstName" || id == "lastName" then NameValid(value)
    else if id == "email" then EmailValid(value)
    else if id == "phone" then PhoneValid(value)
    else if id == "message" then MessageValid(value)
    else true
  }

  /** The message of `ERROR_MESSAGES` for the pattern an id selects. */
  function RuleMessage(id: string): string
    requires HasRule(id)
  {
    if id == "firstName" then FirstNameMessage
    else if id == "lastName" then LastNameMessage
    else if id == "email" then EmailMessage
    else if id == "phone" then PhoneMessage
    else MessageMessage
  }

  /** The checks of `validateField` in the script's order, on the trimmed
      value; the first that fails decides (DecideMeaning says what each
      answer means). */
  function Decide(id: string, value: string, required: bool, isCheckbox: bool, checked: bool): Verdict {
    if required && value == [] then Invalid(RequiredMessage)
    else if value == [] then Blank
    else if (id == "firstName" || id == "lastName") && !NameValid(value) then
      Invalid(if id == "firstName" then FirstNameMessage else LastNameMessage)
    else if id == "email" && !EmailValid(value) then Invalid(EmailMessage)
    else if id == "phone" && !PhoneValid(value) then Invalid(PhoneMessage)
    else if id == "message" && !MessageValid(value) then Invalid(MessageMessage)
    else if isCheckbox && required && !checked then Invalid(PrivacyMessage)
    else Valid
  }

  /** An optional field left empty is the only blank one; an empty required
      field is refused as required; a filled field is refused with its
      pattern's message when its pattern fails, refused as an unaccepted
      privacy checkbox when it is a required unchecked checkbox, and accepted
      otherwise. */
  lemma DecideMeaning(id: string, value: string, required: bool, isCheckbox: bool, checked: bool)
    ensures var v := Decide(id, value, required, isCheckbox, checked);
            && (v == Blank <==> !required && value == [])
            && (required && value == [] ==> v == Invalid(RequiredMessage))
            && (value != [] && !RuleHolds(id, value) ==> HasRule(id) && v == Invalid(RuleMessage(id)))
            && (value != [] && RuleHolds(id, value) && isCheckbox && required && !checked ==>
                  v == Invalid(PrivacyMessage))
            && (value != [] && RuleHolds(id, value) && !(isCheckbox && required && !checked) ==> v == Valid)
  {
  }

  /** A field with a pattern accepts exactly the values its pattern
      accepts, whatever its checkbox state, once it is not a required unchecked
      checkbox; a field without a pattern is refused only for being empty
      while required or for being a required unchecked checkbox. */
  lemma PassesIff(id: string, value: string, required: bool, isCheckbox: bool, checked: bool)
    ensures Passes(Decide(id, value, required, isCheckbox, checked)) <==>
            (value == [] && !required)
            || (value != [] && RuleHolds(id, value) && !(isCheckbox && required && !checked))
  {
    DecideMeaning(id, value, required, isCheckbox, checked);
  }

  /** A filled message that spans several lines is refused with the
      message's own text, however long it is. */
  lemma MultiLineMessageRefused(value: string, required: bool, isCheckbox: bool, checked: bool)
    requires exists k :: 0 <= k < |value| && IsLineTerminator(value[k])
    ensures Decide("message", value, required, isCheckbox, checked) == Invalid(MessageMessage)
  {
  }

  type NodeId = nat

  /** A form control as `validateField` reads it: its element, the element's
      parent (the container whose `.invalid-feedback` node it uses), its `id`,
      its raw `value`, the `required` attribute, whether its type is checkbox,
      and `checked`. */
  datatype Field = Field(node: NodeId, parent: NodeId, id: string, value: string,
                         required: bool, isCheckbox: bool, checked: bool)

  function VerdictOf(f: Field): Verdict {
    Decide(f.id, Trim(f.value), f.required, f.isCheckbox, f.checked)
  }

  /** Whether the controls of a form are distinct elements, as
      `querySelectorAll` returns them. */
  predicate DistinctNodes(fields: seq<Field>) {
    forall i, j :: 0 <= i < j < |fields| ==> fields[i].node != fields[j].node
  }

  /** A `.invalid-feedback` node: its text and whether it is displayed. */
  datatype Feedback = Feedback(text: string, visible: bool)

  /** The error display of a form: the elements that carry `is-invalid`, and
      the feedback node of each container that has one. */
  datatype ErrorState = ErrorState(invalid: set<NodeId>, feedback: map<NodeId, Feedback>)

  /** `showFieldError`: mark the field, and show the message in its parent's
      feedback node, creating the node if the parent has none. */
  function Shown(e: ErrorState, f: Field, message: string): ErrorState {
    ErrorState(e.invalid + {f.node}, e.feedback[f.parent := Feedback(message, true)])
  }

  /** `clearFieldError`: unmark the field and hide its parent's feedback node,
      if there is one; the node keeps its text. */
  function Cleared(e: ErrorState, f: Field): ErrorState {
    ErrorState(e.invalid - {f.node},
               if f.parent in e.feedback then e.feedback[f.parent := e.feedback[f.parent].(visible := false)]
               else e.feedback)
  }

  /** The display after validating field f with verdict v. */
  function AfterVerdict(e: ErrorState, f: Field, v: Verdict): ErrorState {
    match v
    case Blank => e
    case Valid => Cleared(e, f)
    case Invalid(m) => Shown(e, f, m)
  }

  /** The display after `validateField(f)`. */
  function AfterValidate(e: ErrorState, f: Field): ErrorState {
    AfterVerdict(e, f, VerdictOf(f))
  }

  /** Each field with its verdict. */
  function Steps(fields: seq<Field>): seq<(Field, Verdict)> {
    seq(|fields|, i requires 0 <= i < |fields| => (fields[i], VerdictOf(fields[i])))
  }

  /** The display after applying verdicts to fields in order. */
  function AfterSteps(e: ErrorState, steps: seq<(Field, Verdict)>): ErrorState
    decreases |steps|
  {
    if steps == [] then e
    else
      var last := steps[|steps| - 1];
      AfterVerdict(AfterSteps(e, steps[..|steps| - 1]), last.0, last.1)
  }

  /** Whether `steps` pairs each of the fields, in order, with its verdict. */
  predicate StepsOf(fields: seq<Field>, steps: seq<(Field, Verdict)>) {
    && |steps| == |fields|
    && forall i {:trigger VerdictOf(fields[i])} :: 0 <= i < |fields| ==> steps[i] == (fields[i], VerdictOf(fields[i]))
  }

  /** The fields determine their steps. */
  lemma StepsOfSteps(fields: seq<Field>, steps: seq<(Field, Verdict)>)
    requires StepsOf(fields, steps)
    ensures steps == Steps(fields)
  {
    forall i | 0 <= i < |fields| ensures steps[i] == Steps(fields)[i] {
      assert steps[i] == (fields[i], VerdictOf(fields[i]));
    }
  }

  /** Whether every control of a form passes `validateField`. */
  predicate AllPass(fields: seq<Field>) {
    forall k {:trigger VerdictOf(fields[k])} :: 0 <= k < |fields| ==> Passes(VerdictOf(fields[k]))
  }

  /** Whether every verdict of the steps passes, checked from the last. */
  predicate StepsPass(steps: seq<(Field, Verdict)>)
    decreases |steps|
  {
    steps == [] || (StepsPass(steps[..|steps| - 1]) && Passes(steps[|steps| - 1].1))
  }

  /** StepsPass holds exactly when no verdict of the steps is a refusal. */
  lemma {:induction false} StepsPassIff(steps: seq<(Field, Verdict)>)
    ensures StepsPass(steps) <==> forall k :: 0 <= k < |steps| ==> Passes(steps[k].1)
    decreases |steps|
  {
    if steps != [] {
      var init := steps[..|steps| - 1];
      StepsPassIff(init);
      assert forall k :: 0 <= k < |init| ==> init[k] == steps[k];
    }
  }

  /** The steps of a form all pass exactly when all its controls do. */
  lemma StepsPassAllPass(fields: seq<Field>, steps: seq<(Field, Verdict)>)
    requires StepsOf(fields, steps)
    ensures StepsPass(steps) <==> AllPass(fields)
  {
    StepsPassIff(steps);
    if StepsPass(steps) {
      forall k | 0 <= k < |fields| ensures Passes(VerdictOf(fields[k])) {
        assert steps[k] == (fields[k], VerdictOf(fields[k]));
      }
    } else {
      var k :| 0 <= k < |steps| && !Passes(steps[k].1);
      assert steps[k] == (fields[k], VerdictOf(fields[k]));
    }
  }

  /** The display after validating the fields in document order. */
  function AfterValidateAll(e: ErrorState, fields: seq<Field>): ErrorState {
    AfterSteps(e, Steps(fields))
  }

  /** The display after clearing the given fields in order. */
  function AfterClearAll(e: ErrorState, fields: seq<Field>): ErrorState
    decreases |fields|
  {
    if fields == [] then e
    else Cleared(AfterClearAll(e, fields[..|fields| - 1]), fields[|fields| - 1])
  }

  /** The fields that carry `is-invalid`, in document order: what
      `querySelectorAll('.is-invalid')` selects in the form. */
  function Flagged(fields: seq<Field>, invalid: set<NodeId>): (r: seq<Field>)
    ensures forall f :: f in r <==> f in fields && f.node in invalid
    decreases |fields|
  {
    if fields == [] then []
    else
      var r := Flagged(fields[..|fields| - 1], invalid);
      var last := fields[|fields| - 1];
      assert forall f :: f in fields <==> f in fields[..|fields| - 1] || f == last;
      if last.node in invalid then r + [last] else r
  }

  predicate HasNode(fields: seq<Field>, n: NodeId) {
    exists i :: 0 <= i < |fields| && fields[i].node == n
  }

  predicate HasParent(fields: seq<Field>, p: NodeId) {
    exists i :: 0 <= i < |fields| && fields[i].parent == p
  }

  /** Clearing a list of fields unmarks exactly those fields, hides exactly
      the feedback nodes of their containers, and changes no text. */
  lemma {:induction false} AfterClearAllEffect(e: ErrorState, fields: seq<Field>)
    ensures forall n :: n in AfterClearAll(e, fields).invalid <==> n in e.invalid && !HasNode(fields, n)
    ensures AfterClearAll(e, fields).feedback.Keys == e.feedback.Keys
    ensures forall p :: p in e.feedback ==>
              AfterClearAll(e, fields).feedback[p].text == e.feedback[p].text
              && AfterClearAll(e, fields).feedback[p].visible == (e.feedback[p].visible && !HasParent(fields, p))
    decreases |fields|
  {
    if fields != [] {
      var init := fields[..|fields| - 1];
      var last := fields[|fields| - 1];
      AfterClearAllEffect(e, init);
      forall i | 0 <= i < |init| ensures init[i] == fields[i] { }
      forall n ensures HasNode(fields, n) <==> HasNode(init, n) || last.node == n {
        if HasNode(fields, n) {
          var i :| 0 <= i < |fields| && fields[i].node == n;
          if i < |init| { assert init[i].node == n; }
        }
      }
      forall p ensures HasParent(fields, p) <==> HasParent(init, p) || last.parent == p {
        if HasParent(fields, p) {
          var i :| 0 <= i < |fields| && fields[i].parent == p;
          if i < |init| { assert init[i].parent == p; }
        }
      }
    }
  }

  /** How validating a field with verdict v leaves its mark, given the mark
      it had before. */
  predicate MarkAgrees(v: Verdict, after: bool, before: bool) {
    if v.Invalid? then after else if v.Valid? then !after else after == before
  }

  predicate StepHasNode(steps: seq<(Field, Verdict)>, n: NodeId) {
    exists i :: 0 <= i < |steps| && steps[i].0.node == n
  }

  /** Applying verdicts to distinct fields leaves each field marked as its own
      verdict says, and every other element as it was. */
  lemma {:induction false} AfterStepsMarks(e: ErrorState, steps: seq<(Field, Verdict)>)
    requires forall i, j :: 0 <= i < j < |steps| ==> steps[i].0.node != steps[j].0.node
    ensures forall i :: 0 <= i < |steps| ==>
              MarkAgrees(steps[i].1, steps[i].0.node in AfterSteps(e, steps).invalid, steps[i].0.node in e.invalid)
    ensures forall n :: !StepHasNode(steps, n) ==> (n in AfterSteps(e, steps).invalid <==> n in e.invalid)
    decreases |steps|
  {
    if steps != [] {
      var init := steps[..|steps| - 1];
      var last := steps[|steps| - 1];
      AfterStepsMarks(e, init);
      forall i | 0 <= i < |init| ensures init[i] == steps[i] && init[i].0.node != last.0.node { }
      assert !StepHasNode(init, last.0.node);
    }
  }

  /** After validating distinct fields, every refused field is marked, every
      accepted field is unmarked, and a blank optional field and every element
      outside the list keep the mark they had. */
  lemma AfterValidateAllMarks(e: ErrorState, fields: seq<Field>)
    requires DistinctNodes(fields)
    ensures forall i :: 0 <= i < |fields| ==>
              MarkAgrees(VerdictOf(fields[i]), fields[i].node in AfterValidateAll(e, fields).invalid,
                         fields[i].node in e.invalid)
    ensures forall n :: !HasNode(fields, n) ==>
              (n in AfterValidateAll(e, fields).invalid <==> n in e.invalid)
  {
    var steps := Steps(fields);
    assert |steps| == |fields|;
    assert forall i :: 0 <= i < |fields| ==> steps[i] == (fields[i], VerdictOf(fields[i]));
    AfterStepsMarks(e, steps);
  }

  /** Fields sharing a container share its feedback node: accepting one of
      them hides the message shown for the other, which stays marked. */
  lemma SharedFeedback(e: ErrorState, f: Field, g: Field, message: string)
    requires f.parent == g.parent && f.node != g.node
    ensures g.node in Cleared(Shown(e, g, message), f).invalid
    ensures Cleared(Shown(e, g, message), f).feedback[g.parent] == Feedback(message, false)
  {
  }

  /** The entries of a `FormData`, in order: name and value. */
  type Entries = seq<(string, string)>

  /** The one name an assignment to a plain `{}` does not store: it reaches
      the `Object.prototype` accessor, which ignores a string. */
  const ProtoKey: string := "__proto__"

  /** The object `submitForm` builds: each name mapped to the sanitised
      value, a later entry with the same name overwriting an earlier one,
      and an entry named `__proto__` leaving the object as it is. */
  function Collected(entries: Entries): map<string, string>
    decreases |entries|
  {
    if entries == [] then map[]
    else
      var last := entries[|entries| - 1];
      var before := Collected(entries[..|entries| - 1]);
      if last.0 == ProtoKey then before else before[last.0 := Sanitizer.Sanitize(last.1)]
  }

  /** The collected object names exactly the entries' names other than
      `__proto__`. */
  lemma {:induction false} CollectedKeys(entries: Entries)
    ensures forall k :: k in Collected(entries) <==>
              k != ProtoKey && exists i :: 0 <= i < |entries| && entries[i].0 == k
    decreases |entries|
  {
    if entries != [] {
      var init := entries[..|entries| - 1];
      CollectedKeys(init);
      assert forall i :: 0 <= i < |init| ==> init[i] == entries[i];
    }
  }

  /** Each name other than `__proto__` carries the sanitised value of its
      last entry. */
  lemma {:induction false} CollectedValues(entries: Entries)
    ensures forall j :: 0 <= j < |entries| && entries[j].0 != ProtoKey
                        && (forall i :: j < i < |entries| ==> entries[i].0 != entries[j].0) ==>
              entries[j].0 in Collected(entries) && Collected(entries)[entries[j].0] == Sanitizer.Sanitize(entries[j].1)
    decreases |entries|
  {
    if entries != [] {
      var n := |entries| - 1;
      var init := entries[..n];
      CollectedValues(init);
      forall j | 0 <= j < |entries| && entries[j].0 != ProtoKey
                 && (forall i :: j < i < |entries| ==> entries[i].0 != entries[j].0)
        ensures entries[j].0 in Collected(entries) && Collected(entries)[entries[j].0] == Sanitizer.Sanitize(entries[j].1)
      {
        if j < n {
          assert init[j] == entries[j];
          assert forall i :: j < i < |init| ==> init[i] == entries[i];
          assert entries[n].0 != entries[j].0;
        }
      }
    }
  }

  /** An entry named `__proto__` leaves no key: the form data
      `__proto__=x` gives an empty object. */
  lemma CollectedIgnoresProto()
    ensures Collected([(ProtoKey, "x")]) == map[]
  {
    assert [(ProtoKey, "x")][..0] == [];
  }
}
