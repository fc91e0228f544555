# Contact-form pipeline of a marketing page, in Dafny

This project models the engineering core of `script.js`, the enhancement
script of a marketing website, and proves properties of the model. The
script drives a contact form:

- Validating a field on blur decides from the field's trimmed value, its
  `id`, its `required` attribute and its checkbox state. Each `id` selects one
  of four patterns (`VALIDATORS`) and has its message (`ERROR_MESSAGES`).
- Submitting clears the error marks and validates every control. The result
  is either one aggregate error notification, or a submission: the button is
  disabled and shows a spinner, the form data is sanitised, the send is
  awaited, and a success or failure notification follows. The button is
  restored and the re-entrancy flag is cleared on both paths.
- A notification manager appends sanitised alerts to a fixed container.
  Each alert slides out after 5000 ms or when its close button is clicked,
  and is removed 300 ms later.

Beside the form, the model covers:

- the countdown's arithmetic;
- the `throttle` helper;
- the burger menu;
- the scroll spy's choice of the active link.

Modules:

- `JsText`: the ECMAScript whitespace and line-terminator sets,
  `String.prototype.trim` and the UTF-16 length of a string.
- `Sanitizer`: `sanitizeInput` is text-node serialisation, as section 13.3 of
  the HTML Living Standard describes it. Its partner `Unescape` decodes the
  markup, and the round trip is proved.
- `Validators`: the four patterns, with the backslashes the script's regular
  expressions lost restored. The email pattern is also kept as written, for
  comparison (see Findings).
- `FieldRules`: the decision of `validateField` as a pure function `Decide`.
  It also holds the error display of a form as a value and what each DOM
  write does to it, and the object `submitForm` collects.
- `Notifications`: the class `NotificationCenter`. Its pending timers are part
  of its state, and their expiries are events.
- `FormPipeline`: the class `FormValidator`. The `await` of `submitForm`
  splits the submission into `SubmitForm`, which runs up to the await, and
  `Settle`, which runs the continuation and the `finally`.
- `Countdown`, `Throttle` and `Navigation` (`BurgerMenu`, `ScrollSpy`).

Where the code departs from what the page evidently intends, the model follows the code:

- The message pattern is `^.{10,}$`. Its `.` does not match a line
  terminator, so a multi-line message is refused however long it is; it does
  not accept "any content". The repetition counts UTF-16 code units.
- The name and phone regular-expression literals, as written, hold
  out-of-order ranges (`s-'`, `+-(`), which a JavaScript engine refuses
  before the script runs. They are modelled by their evident intent.
- Two controls in the same container share one `.invalid-feedback` node. So
  accepting one control hides the message shown for the other, although the
  other stays marked (`FieldRules.SharedFeedback`). Error states are isolated
  only per container, not per field.
- The feedback text is set through `textContent` with the raw message.
  Notifications, by contrast, go through `sanitizeInput`.
- A notification closed by hand still has its 5000 ms timer pending. That
  timer hides it again, and a second `remove()` of a detached element does
  nothing (`Notifications.WithoutTwice`).
- The types `error` and `danger` both get the class `alert-danger`.
- A form without a `button[type="submit"]` sets `isSubmitting` and then
  throws when it reads the button's label. The flag is never cleared, and
  every later submit is dropped (`FormPipeline.NoSubmitButtonLocks`).
- The awaited send of `submitForm` is a 1500 ms sleep, and the collected
  data is built but not used anywhere. The model records the collected data
  as the send's argument (`SendAttempt`) and takes the settling as a
  parameter (`Outcome`). In the script as written, only the success path can
  run.
- The collected data is a plain `{}`. An entry named `__proto__` reaches
  the prototype accessor, which ignores a string, so it leaves no key
  (`FieldRules.CollectedIgnoresProto`).

Proof structure:

- The validation of a whole form returns the verdicts it reached as a ghost
  sequence of steps. `StepsOf` ties them to the fields, and
  `FieldRules.StepsPassAllPass` turns them into a statement about every
  field.
- An alert keeps its message text, and `Notifications.Markup` gives its
  markup: the sanitised message.

## Model

| member | source | states |
|---|---|---|
| JsText.IsLineTerminator | script.js:16 | the four characters JavaScript's `.` does not match (LF, CR, U+2028, U+2029); no contract of its own, used by Validators.MessageLength and FieldRules.MultiLineMessageRefused |
| JsText.IsWhitespace | script.js:211 | the characters `trim` strips, whitespace and line terminators alike; no contract of its own, its meaning is stated by JsText.TrimMeaning |
| JsText.Trim | script.js:211 | `String.prototype.trim`; no contract of its own, stated by JsText.TrimMeaning, JsText.TrimEmptyIff and JsText.TrimIdempotent |
| JsText.TrimStartMeaning | script.js:211 | the leading part `trim` drops is all whitespace, and what it keeps is a suffix that is empty or starts with a non-whitespace character |
| JsText.TrimEndMeaning | script.js:211 | the trailing part `trim` drops is all whitespace, and what it keeps is a prefix that is empty or ends with a non-whitespace character |
| JsText.TrimMeaning | script.js:211 | the trimmed value neither starts nor ends with whitespace, and it is the slice of the raw value between its leading and its trailing whitespace |
| JsText.TrimEmptyIff | script.js:211-219 | the trimmed value is empty (the `!value` tests) exactly when the raw value is all whitespace |
| JsText.TrimFixed | script.js:211 | a value that neither starts nor ends with whitespace is its own trim |
| JsText.TrimIdempotent | script.js:211 | trimming twice is trimming once |
| JsText.Utf16Length | script.js:13-16 | the JavaScript length of a string lies between its number of characters and twice that |
| JsText.Utf16LengthBmp | script.js:13-16 | the JavaScript length equals the number of characters exactly when no character is astral |
| Sanitizer.EscapeChar | script.js:52-56 | the escape of one character is never empty, and it starts with `&` exactly for the four characters serialisation replaces |
| Sanitizer.Sanitize | script.js:52-56 | the markup is at least as long as the text |
| Sanitizer.UnescapeEntity | script.js:52-56 | each of the four entities decodes to its character, and the rest of the markup is decoded after it |
| Sanitizer.UnescapePlain | script.js:52-56 | a character other than `&` decodes to itself |
| Sanitizer.UnescapeStep | script.js:52-56 | decoding the escape of any character gives that character back |
| Sanitizer.UnescapeSanitize | script.js:52-56 | sanitising loses nothing: decoding the markup gives back the original text |
| Sanitizer.SanitizeHasNoAngleBrackets | script.js:52-56 | the markup never holds `<` or `>`, so it cannot open an element |
| Sanitizer.SanitizeIdentityIff | script.js:52-56 | the markup equals the text exactly when the text has no `&`, U+00A0, `<` or `>` |
| Sanitizer.SanitizeAppend | script.js:52-56 | sanitising distributes over concatenation |
| Validators.NameValid | script.js:13 | the name pattern with its backslashes restored: 2 to 50 code units from the name class; no contract of its own, stated by Validators.NameBounds and the name examples |
| Validators.EmailValid | script.js:14 | the email pattern with its backslashes restored; no contract of its own, stated by Validators.EmailValidIff |
| Validators.PhoneValid | script.js:15 | the phone pattern with its backslashes restored: 10 to 20 code units from the phone class; no contract of its own, stated by Validators.PhoneBounds and the phone examples |
| Validators.MessageValid | script.js:16 | `^.{10,}$`: at least ten code units, none a line terminator; no contract of its own, stated by Validators.MessageLength and FieldRules.MultiLineMessageRefused |
| Validators.EmailValidShape | script.js:14 | every address the intended email pattern accepts has no whitespace, exactly one `@` (not first), and a `.` after it with a character on each side |
| Validators.ShapeEmailValid | script.js:14 | every string of that shape is accepted by the intended email pattern |
| Validators.EmailValidIff | script.js:14 | the intended email pattern accepts exactly the strings of that shape |
| Validators.NameCharsLength | script.js:13 | a run of name-class characters has a JavaScript length equal to its number of characters |
| Validators.PhoneCharsLength | script.js:15 | a run of phone-class characters has a JavaScript length equal to its number of characters |
| Validators.NameBounds | script.js:13 | a valid name has between 2 and 50 characters |
| Validators.PhoneBounds | script.js:15 | a valid phone number has between 10 and 20 characters |
| Validators.MessageLength | script.js:16 | a valid message has at least five characters, since `{10,}` counts UTF-16 code units, and at least ten when none of its characters lies outside the Basic Multilingual Plane |
| Validators.NameCharsAppend | script.js:13 | two runs of name-class characters concatenate to one |
| Validators.NameExampleChars | script.js:13 | every character of "Anna-Maria O'Brien" is in the name class |
| Validators.NameAcceptsExample | script.js:13 | the name pattern accepts "Anna-Maria O'Brien" |
| Validators.NameRefusesExamples | script.js:13 | the name pattern refuses "A" (too short) and "Anna1" (a digit) |
| Validators.PhoneCharsAppend | script.js:15 | two runs of phone-class characters concatenate to one |
| Validators.PhoneExampleChars | script.js:15 | every character of "+49 (0)30 1234567" is in the phone class |
| Validators.PhoneAcceptsExample | script.js:15 | the phone pattern accepts "+49 (0)30 1234567" |
| Validators.PhoneRefusesShort | script.js:15 | the phone pattern refuses "12345" |
| Validators.MessageAcceptsTen | script.js:16 | a ten-character message is accepted |
| Validators.MessageRefusesNine | script.js:16 | a nine-character message is refused |
| Validators.EmailAcceptsExample | script.js:14 | the intended email pattern accepts "a@b.co" |
| Validators.EmailRefusesExamples | script.js:14 | the intended email pattern refuses "a b@c.d" and "noatsign.com" |
| Validators.EmailAsWritten | script.js:14 | the email literal as written: runs without `s` or `@`, an `@`, and any non-terminator for the `.`; no contract of its own, its departures from the intended pattern are stated by the three lemmas below |
| Validators.EmailAsWrittenRefusesS | script.js:14 | the email pattern as written refuses "sam@example.com", which the intended pattern accepts |
| Validators.EmailAsWrittenAcceptsNoDot | script.js:14 | the email pattern as written accepts "ab@cde", which has no dot after its `@` |
| Validators.EmailAsWrittenAcceptsSpace | script.js:14 | the email pattern as written accepts "a b@c.d", which holds a space |
| FieldRules.Decide | script.js:209-258 | the checks of `validateField` on the trimmed value, first failure deciding; no contract of its own, stated by FieldRules.DecideMeaning and FieldRules.PassesIff |
| FieldRules.DecideMeaning | script.js:209-258 | an optional empty field is the only blank one; an empty required field gets the required message; a filled field whose pattern fails gets that pattern's message; a required unchecked checkbox that passes its pattern gets the privacy message; every other field is accepted |
| FieldRules.MultiLineMessageRefused | script.js:244-249 | a message holding a line terminator is refused with the message's text, whatever its length |
| FieldRules.PassesIff | script.js:209-258 | `validateField` returns true exactly for an optional empty field, or a filled field whose pattern holds and which is not a required unchecked checkbox |
| FieldRules.StepsOfSteps | script.js:196-207 | the fields of a form determine the verdicts its validation reaches, one per field in document order |
| FieldRules.StepsPassIff | script.js:196-207 | the verdicts all pass exactly when none of them is a refusal |
| FieldRules.StepsPassAllPass | script.js:196-207 | `validateForm` returns true exactly when every control passes `validateField` |
| FieldRules.Flagged | script.js:282-286 | the controls `querySelectorAll('.is-invalid')` selects are exactly the form's controls that carry the mark |
| FieldRules.AfterClearAllEffect | script.js:274-286 | clearing a list of controls unmarks exactly them, hides exactly the feedback nodes of their containers, and changes no text |
| FieldRules.AfterStepsMarks | script.js:196-258 | applying verdicts to distinct controls marks each refused control, unmarks each accepted one, and keeps the mark of a blank one and of every other element |
| FieldRules.AfterValidateAllMarks | script.js:196-258 | after validating a form of distinct controls, each control is marked as its own verdict says, and every element outside the form keeps its mark |
| FieldRules.Shown | script.js:260-272 | `showFieldError`: the control is marked and its container's feedback node shows the message; no contract of its own, stated by FieldRules.SharedFeedback and FieldRules.AfterStepsMarks |
| FieldRules.Cleared | script.js:274-280 | `clearFieldError`: the control is unmarked and an existing feedback node is hidden; no contract of its own, stated by FieldRules.AfterClearAllEffect and FieldRules.SharedFeedback |
| FieldRules.SharedFeedback | script.js:260-280 | two controls in one container share its feedback node: accepting one hides the message shown for the other, which stays marked |
| FieldRules.Collected | script.js:296-300 | the object the `forEach` builds; no contract of its own, stated by FieldRules.CollectedKeys, FieldRules.CollectedValues and FieldRules.CollectedIgnoresProto |
| FieldRules.CollectedKeys | script.js:296-300 | the object built from the form data has exactly the entries' names other than `__proto__` as keys, since that assignment reaches the prototype accessor and stores nothing |
| FieldRules.CollectedValues | script.js:296-300 | each name other than `__proto__` maps to the sanitised value of its last entry |
| FieldRules.CollectedIgnoresProto | script.js:297-299 | the form data `__proto__=x` gives an empty object |
| Notifications.Markup | script.js:77-80 | the markup of an alert's message decodes back to the message, and it holds no `<` or `>` |
| Notifications.AlertClass | script.js:72 | `alert-danger` for `error`, `alert-` and the type otherwise; no contract of its own, stated by Notifications.AlertClassInjective |
| Notifications.AlertClassInjective | script.js:72 | two types share an alert class only when they are `error` and `danger` |
| Notifications.Faded | script.js:91 | the alerts once one starts sliding out; no contract of its own, stated by Notifications.FadedMarks |
| Notifications.FadedMarks | script.js:91 | sliding out keeps every alert in place with its id, message and class, and makes exactly that alert fading besides those already fading |
| Notifications.Without | script.js:92 | the alerts after `remove()`; no contract of its own, stated by Notifications.WithoutAt, Notifications.WithoutAbsent and Notifications.WithoutMembers |
| Notifications.WithoutAbsent | script.js:92 | removing an alert that is no longer attached leaves the container as it is |
| Notifications.WithoutAt | script.js:92 | removing an attached alert takes out that one alert and keeps the others in order |
| Notifications.WithoutTwice | script.js:83-92 | once removed, an alert stays removed, and a second removal changes nothing |
| Notifications.WithoutMembers | script.js:92 | the alerts left after a removal are exactly those with another id |
| Notifications.WithoutKeeps | script.js:92 | removal keeps the ids increasing, and the alerts left are exactly those with another id |
| Notifications.WithoutFading | script.js:90-93 | detaching a fading alert keeps the container's invariant, and every alert dropped had started fading |
| Notifications.NotificationCenter.constructor | script.js:59-69 | the container starts empty with no timer pending |
| Notifications.NotificationCenter.Show | script.js:71-88 | one alert is appended, holding the message and the type's class (`alert-danger` for `error`), and its 5000 ms timer is armed |
| Notifications.NotificationCenter.Hide | script.js:90-93 | the alert starts sliding out, and one 300 ms removal timer is armed |
| Notifications.NotificationCenter.AutoHideElapsed | script.js:87 | the 5000 ms timer fires: it is no longer pending, and the alert is hidden |
| Notifications.NotificationCenter.CloseClicked | script.js:82-83 | the close button of an attached alert hides it |
| Notifications.NotificationCenter.RemoveElapsed | script.js:92 | a removal timer fires and detaches its alert, if it is still attached; only an alert that has started sliding out is detached, because the invariant ties every pending removal to a fading alert |
| FormPipeline.CollectFormData | script.js:296-300 | the `forEach` loop, which stores nothing for a `__proto__` entry, builds exactly the collected object |
| FormPipeline.FormValidator.constructor | script.js:162-167 | nothing is submitting; the marks, the feedback nodes and the button's state and label are those of the page's markup |
| FormPipeline.FormValidator.ShowFieldError | script.js:260-272 | the control is marked, and its container's feedback node shows the message (the node is created if missing) |
| FormPipeline.FormValidator.ClearFieldError | script.js:274-280 | the control is unmarked, and its container's feedback node, if there is one, is hidden |
| FormPipeline.FormValidator.ClearAllErrors | script.js:282-286 | the marked controls are cleared in document order, and no control of the form stays marked |
| FormPipeline.FormValidator.ValidateField | script.js:209-258 | the answer is whether the field's verdict passes, and the display changes as that verdict says |
| FormPipeline.FormValidator.ValidateForm | script.js:196-207 | every control is validated in order, failing or not, and the answer is whether all passed |
| FormPipeline.FormValidator.SubmitForm | script.js:288-303 | the flag is set; with a submit button, the button is disabled and busy, its label is saved, and the collected data goes to the send; without one, nothing else happens |
| FormPipeline.FormValidator.Settle | script.js:302-317 | success notifies and then schedules the redirect, failure notifies with `alert-danger`; on both paths exactly one alert is added with its 5000 ms timer armed and no removal added, the button gets its label back and is enabled, the flag is cleared, and the marks and feedback are untouched |
| FormPipeline.FormValidator.Notify | script.js:188-191 | one alert with the message and the type's class is added, its id is the next one and its 5000 ms timer is armed, no removal is added, and the call is recorded; nothing else of the form changes |
| FormPipeline.FormValidator.Restore | script.js:312-316 | the `finally` block clears the flag and enables the button with its saved label |
| FormPipeline.FormValidator.HandleSubmit | script.js:178-194 | while submitting: no change at all; otherwise the marks are cleared and every control is validated, then either exactly one `alert-danger` notification, with its timer armed, no removal added, the flag left clear and the button, its state and its saved label untouched, or the submission starts with the notifications untouched (and, without a submit button, the button untouched) |
| FormPipeline.RejectedSubmitMarks | script.js:182-191 | after a submit, a control of the form carries the mark exactly when it fails validation |
| FormPipeline.SubmitTwiceThenFail | script.js:178-317 | two submits of a valid form in a row send once; after a failed send the button is enabled with its original label |
| FormPipeline.SubmitThenSucceed | script.js:288-309 | a valid form whose send succeeds produces the send, the success notification and the redirect, in that order, and one `alert-success` |
| FormPipeline.NoSubmitButtonLocks | script.js:289-291 | without a submit button, the flag stays set and nothing is ever sent |
| Countdown.Update | script.js:540-552 | the view is the expiry notice exactly when the target lies in the past |
| Countdown.DivModUnique | script.js:549-552 | the quotient and remainder are the only pair that rebuilds the dividend |
| Countdown.UpdateReads | script.js:549-552 | the numbers shown have hours below 24 and minutes and seconds below 60, and they account for the distance to within one second |
| Countdown.ReadsUnique | script.js:549-552 | any such reading of the distance is the one the timer shows |
| Throttle.Step | script.js:41-50 | one event of the wrapper: an invocation is forwarded and throttles when the wrapper is free and is dropped otherwise, and a window end frees it; no contract of its own, stated by Throttle.FreeForwards and Throttle.BlockedDrops |
| Throttle.Run | script.js:39-50 | the wrapper's state after a sequence of events from a fresh wrapper; no contract of its own, stated by Throttle.ForwardedPerWindow and Throttle.ForwardedInvoked |
| Throttle.ForwardedPerWindow | script.js:39-51 | exactly one call is forwarded per throttle window, counting the window still open |
| Throttle.ForwardedInvoked | script.js:39-51 | every forwarded argument is one the wrapper was invoked with |
| Throttle.FreeForwards | script.js:44-48 | an unthrottled wrapper forwards the call and becomes throttled |
| Throttle.BlockedDrops | script.js:44 | a throttled wrapper drops the call |
| Throttle.Throttled.constructor | script.js:39-40 | a fresh wrapper is not throttled and has forwarded nothing |
| Throttle.Throttled.Call | script.js:41-50 | the call runs exactly when the wrapper is not throttled, and afterwards it is throttled |
| Throttle.Throttled.WindowEnd | script.js:48 | the timer ends the throttle, and nothing is forwarded |
| Navigation.LookOf | script.js:144-158 | an open menu shows the collapse, sets `aria-expanded` to "true" and locks the body; a closed one undoes all three |
| Navigation.BurgerMenu.constructor | script.js:97-106 | the menu starts closed |
| Navigation.BurgerMenu.OpenMenu | script.js:144-150 | the menu is open with the open look |
| Navigation.BurgerMenu.CloseMenu | script.js:152-158 | the menu is closed with the closed look |
| Navigation.BurgerMenu.OnToggleClick | script.js:109-142 | when the handlers are attached, the toggler flips the menu; otherwise nothing changes |
| Navigation.BurgerMenu.OnLinkClick | script.js:114-118 | a link click closes an open menu |
| Navigation.BurgerMenu.OnDocumentClick | script.js:120-124 | a click outside the navbar closes an open menu, and one inside does not |
| Navigation.BurgerMenu.OnKeydown | script.js:126-130 | Escape closes an open menu, and other keys do nothing |
| Navigation.BurgerMenu.OnResize | script.js:132-137 | a window at least 768 pixels wide closes an open menu |
| Navigation.ToggleThenEscape | script.js:109-130 | opening by the toggler and pressing Escape leaves the menu closed; two further toggles return it to closed |
| Navigation.LastCovering | script.js:464-473 | the section chosen covers the scroll position |
| Navigation.LastCoveringIsLast | script.js:464-473 | no later section covers the position, and `null` means that no section covers it |
| Navigation.ScrollSpy.constructor | script.js:445-458 | with no section, no link is touched; otherwise the links are marked for the current offset |
| Navigation.ScrollSpy.FindCurrentSection | script.js:462-473 | the loop finds the last section in document order that covers the position |
| Navigation.ScrollSpy.UpdateActiveLink | script.js:461-487 | a link is marked exactly when its href is `#` plus the id of the current section |
| Navigation.AtMostOneMarked | script.js:475-486 | when the hrefs are distinct, at most one link is marked |
| Navigation.NothingMarkedOutside | script.js:470-486 | no link is marked when no section covers the position |

## Left out

- `debounce` and the timers of `throttle` are left out. Only their effect is
  modelled: when the handlers run, and the `WindowEnded` event.
- The 1500 ms sleep, the 1000 ms redirect timer and the navigation to
  `thank_you.html` are left out. The redirect is recorded on the trace.
- `Date` is left out. `new Date('2024-12-31T23:59:59')` depends on the time
  zone, so both instants of `Countdown.Update` are parameters.
- The countdown's `setInterval` and its HTML templates are left out. The
  view is a value.
- DOM construction, styles, animations and ARIA attributes other than those
  named above are left out: the alert container's styling, the slide
  animations, and `aria-current` (kept as one flag, together with `active`).
- `ScrollAnimations`, `ButtonAnimations`, `SmoothScroll`, `ImageLoader` and
  `App` are not part of this model. They are page decorations outside the
  form pipeline.
- Event objects, `preventDefault` and `stopPropagation` are left out. They
  decide nothing in the model.
- `FormData` construction from the form's controls is left out. The entries
  are a parameter of `SubmitForm`.
- `Navigation.ScrollSpy.UpdateActiveLink`: `pageYOffset` can be fractional
  in a browser; the model takes an integer.
- `Validators.NameValid` and `Validators.PhoneValid` model the patterns with
  their backslashes restored. The script's literals are not valid regular
  expressions, so they have no as-written model.
- `FieldRules.Flagged`: only the form's controls are considered. Another
  element of the form carrying `is-invalid`, which `clearAllErrors` would
  also clear, is not modelled.
- `Throttle.Step`: an invocation while not throttled always leaves the
  wrapper throttled. In the script the handler runs before `inThrottle` is set, so a
  handler that throws leaves the wrapper open with no timer; the model does
  not capture a throwing handler.
- `Validators.EmailAsWritten`: characters are matched whole, while the
  literal matches UTF-16 code units; an astral character can supply the
  literal's `.` with one half, so the literal accepts `a@b😀` and the
  predicate refuses it.
- `Navigation.BurgerMenu.OnDocumentClick`: the script calls `contains` on
  the `.navbar` element without a check. On a page without one, an outside
  click throws and the menu stays open; the model takes a page that has it.
- `FormPipeline.FormValidator.Settle`: the failure path is taken as a
  possible outcome of the send. In the script it runs only if something
  inside the `try` throws.

## Findings

| source | as written | input that shows it | evidently intended | confidence | as-written member | corrected member |
|---|---|---|---|---|---|---|
| script.js:14 | `^[^s@]+@[^s@]+.[^s@]+$`: the lost backslashes make the class exclude the letter `s` instead of whitespace, and make `.` match any character | "sam@example.com" is refused; "ab@cde" and "a b@c.d" are accepted | `^[^\s@]+@[^\s@]+\.[^\s@]+$` | not executed | Validators.EmailAsWrittenRefusesS | Validators.EmailValidIff |
