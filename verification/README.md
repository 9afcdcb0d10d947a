# RegistrationForm, modelled in Dafny

This project models the React component `RegistrationForm`
(`src/components/RegistrationForm.jsx`). It covers two parts of the component:

- **`validate(values)`**, which checks four string fields (full name, email, phone, age). For each field it applies a "required" rule first, then a length, format or range rule. It returns an errors object with at most one message per field.
- **The component's interaction state.** The state is the four values, the set of touched fields, the recorded errors, and the flags `isSubmitting` and `isSuccess`. The events are `onChange`, `onBlur` and `onSubmit`, plus the two timer callbacks that finish a submission.

The project has three modules:

- `JsStrings` (`js_strings.dfy`) covers the JavaScript string operations the validator uses:
  - whitespace, as in `\s` and `String.prototype.trim`;
  - finding a character;
  - `Number(...)` on the age text.
- `Validation` (`validate.dfy`) holds:
  - the field and value types;
  - the exact messages;
  - one error function per field;
  - `Validate`;
  - the lemmas stating each rule in source terms.

  Each regular expression is written twice:
  - a checker written out by hand (`IsValidEmail`, `IsValidPhone`);
  - a direct reading of the pattern (`MatchesEmailPattern`, `MatchesPhonePattern`).

  A lemma proves each pair equivalent.
- `Form` (`registration_form.dfy`) holds the class `RegistrationForm`:
  - one method per event handler and one per timer completion;
  - the display rule `touched[key] && errors[key]` as `DisplayedError`.

  The class invariant `Valid()` says that:
  - the recorded errors are exactly `validate(values)` on the touched fields, with nothing recorded for untouched fields;
  - the success message is only up while a reset timer that will clear it is still scheduled.

### Representation choices

- **The errors object** is a record with one `Option<string>` per field. The handlers can leave a key holding `undefined` (`{ ...prev, [name]: nextErrors[name] }`). Such a key is falsy wherever the component reads it, so it is modelled as a missing key. `Object.keys` is only ever applied to a fresh `validate` result. That result holds exactly the failing fields, so `Errors.Keys` returns the fields that hold a message.
- **`touched`** is a set of fields.
- **Blank checks.** `!s.trim()` is written as `AllWhitespace(s)`. `TrimSpec` proves this equals `Trim(s) == []`, and the rule lemmas state the rules in terms of `Trim`.
- **The two `setTimeout` callbacks** are the methods `FinishSubmit` and `FinishSuccess`:
  - The 700 ms callback is scheduled exactly when `isSubmitting` is set. `FinishSubmit` therefore requires `isSubmitting`.
  - The submit button is enabled again while the success message shows, so several 2000 ms callbacks can be pending at once. The field `pendingResets` counts them, and `FinishSuccess` requires that one is pending.
- **`onSubmit`** requires `!isSubmitting`. That is the button's `disabled={isSubmitting}`.
- **Both flags can be set.** The button is enabled again while the success message shows. A second submission in that window sets `isSubmitting` while `isSuccess` is still true (`ResubmitDuringSuccess`).

### Behaviour the proofs pin down

- **The age is not trimmed.** Only the empty string is "required". Blank but non-empty text coerces to 0 and fails the range check.
- **Non-numeric age text is accepted** (`NonNumericAgeAccepted`). `Number("abc")` is NaN, and both comparisons with NaN are false. In a browser the `type="number"` input normally hands the component an empty string instead of such text.
- **Email whitespace.** The email and phone checks see the untrimmed text. So a filled-in email with a leading or trailing space is a format error (`EmailSurroundingSpaceRejected`).

## Model

| member | source | states |
|---|---|---|
| `JsStrings.TrimSpec` | src/components/RegistrationForm.jsx:13-14 | `trim()` drops only leading and trailing whitespace. The result is an infix of the input that neither starts nor ends with whitespace. It is empty exactly when the input is all whitespace, and a string with no whitespace is unchanged. |
| `JsStrings.ToNumberSpec` | src/components/RegistrationForm.jsx:27 | `Number` of a decimal digit string is its value; `Number` of blank text is 0. |
| `JsStrings.ToNumberNaN` | src/components/RegistrationForm.jsx:27 | Under the model's integer-only `Number`, text holding a character that no JavaScript numeric literal contains is NaN. Such a character is anything other than whitespace, a digit, a sign, `.` or an ASCII letter. JavaScript gives NaN for such text too. |
| `JsStrings.Utf16LengthBounds` | src/components/RegistrationForm.jsx:14 | `.length` counts UTF-16 code units. It lies between the number of characters and twice that, and it equals the number of characters exactly when none is outside the Basic Multilingual Plane. |
| `Validation.FormValues.With` | src/components/RegistrationForm.jsx:44 | `{ ...values, [name]: value }` sets that one field and leaves the other three unchanged. |
| `Validation.NameRule` | src/components/RegistrationForm.jsx:13-14 | The name gets "Full name is required." exactly when its trim is empty. It gets "Name must be at least 2 characters." exactly when the trim's `length` in UTF-16 code units is 1, that is, a single character of the Basic Multilingual Plane. Otherwise there is no error. |
| `Validation.AstralNameAccepted` | src/components/RegistrationForm.jsx:14 | A name that is one character outside the Basic Multilingual Plane ("𠮷") has `length` 2 and passes. |
| `Validation.EmailCheckMatchesPattern` | src/components/RegistrationForm.jsx:17 | The hand-written email check accepts exactly the strings matching `^[^\s@]+@[^\s@]+\.[^\s@]+$`. |
| `Validation.EmailRule` | src/components/RegistrationForm.jsx:16-19 | The email gets "Email address is required." exactly when its trim is empty. Otherwise the untrimmed text gets "Please enter a valid email." exactly when it fails the pattern, and no error exactly when it matches. |
| `Validation.EmailSurroundingSpaceRejected` | src/components/RegistrationForm.jsx:16-17 | A filled-in email that starts or ends with whitespace is a format error, because the pattern sees the untrimmed text. |
| `Validation.EmailWithoutAtRejected` | src/components/RegistrationForm.jsx:17 | A filled-in email without `@` is a format error. |
| `Validation.NotAnEmailFails` | src/components/RegistrationForm.jsx:17 | "not-an-email" gets "Please enter a valid email." |
| `Validation.PhoneCheckMatchesPattern` | src/components/RegistrationForm.jsx:22 | The hand-written phone check accepts exactly the strings matching `^\+?[\d\s\-().]{7,15}$`. |
| `Validation.PhoneRule` | src/components/RegistrationForm.jsx:21-24 | The phone gets "Phone number is required." exactly when its trim is empty. Otherwise the untrimmed text gets "Please enter a valid phone number." exactly when it fails the pattern. |
| `Validation.AgeRule` | src/components/RegistrationForm.jsx:26-29 | Only the empty age is "required". The age gets "Age must be between 1 and 120." exactly when it is non-empty and `Number(age)` compares below 1 or above 120. A digit string passes exactly when its value is in 1..120. Blank non-empty text fails. NaN text passes. |
| `Validation.NonNumericAgeAccepted` | src/components/RegistrationForm.jsx:27 | "abc" passes the age rule, since `Number("abc")` is NaN. |
| `Validation.AgeRangeEndsAccepted` | src/components/RegistrationForm.jsx:27 | "1" and "120" give no age error. |
| `Validation.AgeJustOutsideRejected` | src/components/RegistrationForm.jsx:27 | "0" and "121" give "Age must be between 1 and 120." |
| `Validation.Errors.With` | src/components/RegistrationForm.jsx:49 | `{ ...prev, [name]: message }` changes that field's entry only. |
| `Validation.Errors.Keys` | src/components/RegistrationForm.jsx:67 | `Object.keys(errors)` is exactly the set of fields holding a message. |
| `Validation.ValidateEntry` | src/components/RegistrationForm.jsx:10-32 | Each field's entry in `validate(values)` is that field's own rule applied to that field's value. |
| `Validation.ValidateRules` | src/components/RegistrationForm.jsx:10-32 | A field has no entry in `validate(values)` exactly when its value passes both of its checks. The checks are stated directly on the values. |
| `Validation.ValidateMessages` | src/components/RegistrationForm.jsx:10-32 | Every entry is the field's "required" message when the field is blank, and its format or range message otherwise. |
| `Validation.FieldErrorNonEmpty` | src/components/RegistrationForm.jsx:13-29 | Every message is a non-empty, hence truthy, string. |
| `Validation.ValidateEmptyIff` | src/components/RegistrationForm.jsx:10-32 | `validate(values)` has no keys exactly when all four fields pass their rules. |
| `Validation.BlankFormIsAllRequired` | src/components/RegistrationForm.jsx:10-32 | On the empty form every field gets its "required" message. |
| `Validation.ValidateWith` | src/components/RegistrationForm.jsx:10-32 | Changing one value changes only that field's entry in `validate`, to that field's rule applied to the new value. |
| `Validation.SampleFormIsValid` | src/components/RegistrationForm.jsx:10-32 | A fully and correctly filled-in form gives `{}`. |
| `Validation.NotAnEmailIsTheOnlyError` | src/components/RegistrationForm.jsx:10-32 | In that form, replacing the email by "not-an-email" gives exactly one entry, the email format message. |
| `Form.RegistrationForm.DisplayedError` | src/components/RegistrationForm.jsx:90 | A field shows a message exactly when it is touched and its value breaks its rule. The message shown is that rule's message. |
| `Form.RegistrationForm.constructor` | src/components/RegistrationForm.jsx:35-40 | At mount the values are four empty strings, nothing is touched, there are no errors and no flag is set. |
| `Form.RegistrationForm.OnChange` | src/components/RegistrationForm.jsx:42-51 | `onChange` sets the one value. A touched field has its own entry replaced by its rule's verdict on the new value. An untouched field leaves the errors alone. Touched fields and flags are unchanged, and the invariant is kept. |
| `Form.RegistrationForm.OnBlur` | src/components/RegistrationForm.jsx:53-58 | `onBlur` marks the field touched and records its verdict, leaving all else unchanged. Afterwards the field shows an error exactly when its value breaks its rule. |
| `Form.RegistrationForm.OnSubmit` | src/components/RegistrationForm.jsx:60-69 | `onSubmit` touches all fields and sets the errors to `validate(values)`. Submission starts exactly when that object has no keys. Afterwards every field shows exactly its rule's message. |
| `Form.RegistrationForm.FinishSubmit` | src/components/RegistrationForm.jsx:70-72 | When the 700 ms timer fires, `isSubmitting` is cleared, `isSuccess` is set and a reset is scheduled. Values, touched fields and errors are unchanged. |
| `Form.RegistrationForm.FinishSuccess` | src/components/RegistrationForm.jsx:73-78 | When a 2000 ms timer fires, the values, touched fields and errors return to their state at mount, and `isSuccess` is cleared. |
| `Form.ValidSubmissionCycle` | src/components/RegistrationForm.jsx:60-79 | A correctly filled-in form that is submitted is submitting at once. It shows success when the first timer fires, and is blank with no flag set after the second. |
| `Form.ResubmitDuringSuccess` | src/components/RegistrationForm.jsx:60-79 | Submitting again while the success message shows sets both `isSubmitting` and `isSuccess`. The first reset then blanks the form while the second submission is still in flight, and that submission still ends in success. |
| `Form.BlankSubmission` | src/components/RegistrationForm.jsx:60-67 | Submitting the blank form does not submit, and every field then shows its "required" message. |

## Left out

- Rendering: labels, placeholders, CSS classes and the `FIELDS` table are not modelled. The browser-side `min`/`max` attributes and the `type="number"` input's own sanitising of its value are not modelled either. Only the display rule at lines 90 and 106 is kept.
- `Number(...)` is modelled for integer literals only. Fractions, exponents, hexadecimal and `Infinity` all read as NaN here, whereas JavaScript gives a number for them.
- AgeError: the age rule is faithful only for integer text. Text that JavaScript reads as a non-integer number is NaN here and so passes the rule. For example, "0.5", "200.5" and "1e3" are accepted here, but the component rejects them with "Age must be between 1 and 120." (`Number` gives 0.5, 200.5 and 1000).
- AgeRule: its NaN clause states the model's `Number`. It agrees with JavaScript for text such as "abc", but not for non-integer numeric text such as "1.5" or "1e3".
- Whitespace is a fixed set of characters: space, tab, line feed, carriage return, vertical tab, form feed, no-break space and the byte-order mark. Other Unicode space separators and line terminators, which `\s` and `trim()` also include, are not treated as whitespace.
- Real time: the 700 ms and 2000 ms delays are not modelled. Each scheduled callback is a method that may run at any time once scheduled, so the model allows orders that real time would rule out.
- React's batching of state updates and stale closures are not modelled. Each event is one atomic, sequential update of the component state.
- Unmounting with timers still pending is not modelled; the component itself does not cancel its timers.
