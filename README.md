# Contact form: validator and state machine

A Dafny model of the `ContactUs` React component (`src/components/ContactUs.tsx`).
The component is a contact form with six fields: first name, last name, email,
topic, message and consent. It validates the fields, shows one error message per
failing field, and simulates sending the form. The model has three modules:

- `JsStrings` covers the two ECMAScript string primitives the validator uses,
  `String.prototype.trim` and the regular-expression class `\s`. Strings are
  sequences of UTF-16 code units, as `length`, `trim` and a regular expression
  without the `u` flag see them.
- `ContactValidation` covers the `FormData` record, the email check
  (`validateEmail`) and the per-field rules that `validateForm` applies.
  - The email regular expression `/^[^\s@]+@[^\s@]+\.[^\s@]+$/` is stated twice:
    - `MatchesEmailPattern` reads it literally, as a split at an `@` and a `.`
      into three non-empty runs of `[^\s@]`;
    - `ValidateEmail` is a plain string test: no white space, exactly one `@`
      with something before it, and a `.` that is neither the first nor the
      last code unit after the `@`.
  - A lemma proves the two definitions equal.
  - `Errors` is the `FormErrors` object that validation produces.
- `ContactForm` has the class `ContactUs`.
  - Each `useState` pair is a field, and each setter call is an assignment.
  - The handlers are methods.
  - `handleSubmit` stops at its `await`, so it is split into three steps:
    `HandleSubmit` (the click, up to the `await`), `CompleteSubmit` (after the
    one-second delay, with the success and `catch` paths), and `ClearResponse`
    (the five-second timer firing).
  - The class invariant `Valid()` has three parts:
    - every error on display is the validator's message for the field's current value;
    - no error is on display while a submission is under way;
    - the topic is empty or one of the three options.

Two behaviours of the code a reader might not expect. The model follows the
code in both:

- The comment at ContactUs.tsx line 95 says the field's error is cleared on
  editing, but clearing does not remove the entry. It sets the entry to the
  empty string (ContactUs.tsx lines 96-100), so the key stays and
  the message disappears. The model's error map keeps the key with `""`.
  `Shown` is the JavaScript truthiness test: the key is present and the message
  is not empty.
- One might expect an address to need a character after its *last* `.`.
  The pattern only needs some `.` with `[^\s@]+` on both sides, and the
  part after that `.` may itself contain dots. Any accepted address therefore
  stays accepted with a `.` appended (`DotMayEndAddress`).

## Model

| member | source | states |
|---|---|---|
| JsStrings.Trim | src/components/ContactUs.tsx:45-47 | `trim` returns a string whose ends are not white space. It is empty exactly when the input is all white space, and it leaves an already-trimmed string unchanged. |
| JsStrings.TrimIsInnerPiece | src/components/ContactUs.tsx:45-47 | Split any string into leading white space, a piece whose ends are not white space, and trailing white space: `trim` returns exactly that piece. |
| ContactValidation.Set | src/components/ContactUs.tsx:90-93 | `{ ...prev, [name]: v }` gives field `name` the value `v` and leaves every other field as it was. |
| ContactValidation.SameFieldsSameRecord | src/components/ContactUs.tsx:90-93 | Two records that agree on all six fields are equal, so `Set`'s per-field contract fixes the whole new record. |
| ContactValidation.MatchesEmailPattern | src/components/ContactUs.tsx:37 | The pattern read literally: the string splits at an `@` and a `.` into three non-empty runs of `[^\s@]`, so a match has at least five code units. |
| ContactValidation.ValidateEmail | src/components/ContactUs.tsx:36-39 | `validateEmail` as a string test. An accepted address has no white space, holds an `@` and a `.`, and has at least five code units. It accepts exactly the strings `MatchesEmailPattern` matches (`ValidateEmailIsPattern`). |
| ContactValidation.ValidateEmailIsPattern | src/components/ContactUs.tsx:36-39 | The string test accepts exactly the addresses the regular expression matches (both directions). |
| ContactValidation.ShapeMatchesPattern | src/components/ContactUs.tsx:36-39 | An address with no white space, one `@` with something before it, and an interior `.` after it is matched by the pattern. |
| ContactValidation.PatternHasShape | src/components/ContactUs.tsx:36-39 | A matched address has no white space and no second `@`, its first `@` is not at the start, and it has a `.` after the `@` that is neither the first nor the last code unit after it. |
| ContactValidation.IndexOf | src/components/ContactUs.tsx:36-39 | The index found holds `c`, and no `c` comes before it; when there is no `c`, the result is the length. |
| ContactValidation.BlankIsNoEmail | src/components/ContactUs.tsx:58-63 | An email that is all white space never matches the pattern, so the "required" branch only catches addresses the pattern would reject anyway. |
| ContactValidation.FieldError | src/components/ContactUs.tsx:44-80 | A field's message, when there is one, is never the empty string, so a fresh error is always shown. |
| ContactValidation.FieldErrorIffRuleFails | src/components/ContactUs.tsx:44-80 | A field has a message exactly when its rule fails. |
| ContactValidation.Errors | src/components/ContactUs.tsx:41-83 | The errors object has a key for exactly the fields that have a message, holding that message. |
| ContactValidation.ErrorsAreFailedRules | src/components/ContactUs.tsx:41-83 | The keys of the errors object are exactly the fields whose rule fails, so it is empty exactly when every rule holds. |
| ContactValidation.NameRules | src/components/ContactUs.tsx:44-56 | A first or last name is rejected exactly when its trimmed length is below 2. The message is "required" exactly when the name is all white space, and "at least 2 characters" when one code unit is left. |
| ContactValidation.EmailRule | src/components/ContactUs.tsx:58-63 | The email is rejected exactly when `validateEmail` rejects it. The message is "Email is required" exactly when the value is all white space, and "Please enter a valid email address" for every other rejected value. An accepted address has no white space and trims to itself. An address without `@`, or without a `.` after its first `@`, is rejected. |
| ContactValidation.LeadingSpaceEmailIsMalformed | src/components/ContactUs.tsx:58-63 | `" a@b.co"` gets "Please enter a valid email address", not "Email is required". |
| ContactValidation.ShortEmailIsAccepted | src/components/ContactUs.tsx:58-63 | `"a@b.co"` gets no email error. |
| ContactValidation.DotMayEndAddress | src/components/ContactUs.tsx:36-39 | Appending a `.` to an address the pattern matches gives an address it also matches, so an accepted address may end in a `.`. |
| ContactValidation.TopicRule | src/components/ContactUs.tsx:65-68 | The topic is rejected exactly when it is empty, and none of the three offered options is rejected. |
| ContactValidation.MessageRule | src/components/ContactUs.tsx:70-75 | The message is rejected exactly when its trimmed length is below 10, so exactly 10 passes. "Message is required" is shown exactly when it is all white space, and "Message must be at least 10 characters" when 1 to 9 code units are left after trimming. |
| ContactValidation.ConsentRule | src/components/ContactUs.tsx:77-80 | Consent is rejected exactly when the box is unticked. |
| ContactValidation.FormValidIff | src/components/ContactUs.tsx:41-84 | The form is valid exactly when all six rules hold together: both trimmed names have at least 2 code units, the email passes, the topic is set, the trimmed message has at least 10 code units, and consent is given. |
| ContactForm.FieldErrorReadsOnlyItsField | src/components/ContactUs.tsx:44-80 | Each field's rule reads only that field, so editing one field cannot change another field's message. |
| ContactForm.RecordAll | src/components/ContactUs.tsx:42-80 | Running the six blocks from the empty object leaves each field's entry equal to that block's message, or absent. |
| ContactForm.RecordedAreErrors | src/components/ContactUs.tsx:42-80 | The object the six blocks build is the validator's map `Errors`. |
| ContactForm.ContactUs.constructor | src/components/ContactUs.tsx:23-34 | The mount state is: dropdown closed, not submitting, all fields empty with consent false, no response message, no errors. The invariant holds. |
| ContactForm.ContactUs.HandleInputChange | src/components/ContactUs.tsx:86-102 | Only the named field changes, and it takes the checkbox's `checked` or the input's `value`. That field's error is set to `""` only if it was shown. Every other error is unchanged. The invariant is kept. |
| ContactForm.ContactUs.HandleTopicSelect | src/components/ContactUs.tsx:104-119 | The topic becomes the chosen option and nothing else in the data changes. A shown topic error is cleared, and the dropdown closes. |
| ContactForm.ContactUs.ToggleDropdown | src/components/ContactUs.tsx:253 | The trigger flips the dropdown, and nothing else changes. |
| ContactForm.ContactUs.CloseDropdown | src/components/ContactUs.tsx:284-288 | The overlay click closes the dropdown. It changes neither the data nor the errors. |
| ContactForm.ContactUs.ValidateForm | src/components/ContactUs.tsx:41-84 | The stored errors are replaced wholesale by `Errors(formData)`. The result is true exactly when that map is empty, that is exactly when every rule holds. |
| ContactForm.ContactUs.HandleSubmit | src/components/ContactUs.tsx:127-135 | If a submission is under way, the disabled button does nothing. Otherwise the form is validated. If it is invalid, the correction prompt is shown, the submission does not start, and the data is untouched. If it is valid, `isSubmitting` is set and the response is cleared. |
| ContactForm.ContactUs.CompleteSubmit | src/components/ContactUs.tsx:137-165 | On success, the data in the form is delivered, the form is reset to its initial values, and the thank-you message is shown. On the `catch` path, the data is kept and the apology is shown. Either way `isSubmitting` ends false. |
| ContactForm.ContactUs.ClearResponse | src/components/ContactUs.tsx:159-160 | The deferred clear empties the response message and changes nothing else. |
| ContactForm.FilledFormIsValid | src/components/ContactUs.tsx:41-84 | The walk-through's values (`Jo`, `Doe`, `jo@doe.com`, `Sales Request`, `Hello there friend`, consent) pass every rule. |
| ContactForm.FillIn | src/components/ContactUs.tsx:86-119 | Typing a record's values into a fresh form, ticking the box and picking the topic leaves exactly that record in the form, with the invariant kept. |
| ContactForm.SubmitFilledForm | src/components/ContactUs.tsx:127-165 | Submitting the filled form makes it busy during the wait, then delivers the values, resets the form and shows the thank-you message. |
| ContactForm.SubmitWithoutFirstName | src/components/ContactUs.tsx:127-135 | With the first name left empty, the submission does not start. The first name shows "First name is required", the correction prompt is shown, and the entered values are kept. |

## Left out

- Rendering, class names and the response banner's colouring (ContactUs.tsx lines 168-368) are presentation. The model keeps only the two event wirings it needs: the dropdown trigger and the overlay.
- The one-second `await` and the five-second `setTimeout` are not timed. They are steps the caller takes: `CompleteSubmit` and `ClearResponse`.
- The deferred clear is not cancelled by a later submission, as in the code. The model does not track which timer is pending, so it does not rule out a late `ClearResponse` erasing a newer message.
- `console.log` and `alert` in the success path are browser side effects. `CompleteSubmit` returns the delivered values instead.
- `CompleteSubmit` takes a `fails` parameter for whether the `try` block throws. Nothing in the code's `try` block can fail except the browser calls, so which path runs is the caller's choice.
- React's batching and closure capture are not modelled; each setter takes effect at once. In the code, the success path reads the `formData` captured when the button was clicked. The model delivers the data current when the delay ends, and the two differ only if the user edits the form during the wait.
- ContactForm.ContactUs.HandleInputChange requires an event from an input the form renders: one of the four text inputs or the consent checkbox, with `type` "checkbox" exactly for consent. Events with other names or types cannot reach the handler.
- ContactForm.ContactUs.HandleTopicSelect requires the topic to be one of the three options, the only values the dropdown passes.
- `IsWs` is fixed to the Unicode 15 space separators. A later Unicode version that adds a space separator would change `trim` and `\s` in the same way.
- `src/pages/index.tsx` is not part of this model. It only mounts the component inside a page.
- ContactForm.ContactUs.HandleTopicSelect and ContactForm.ContactUs.CloseDropdown may be called while the dropdown is closed, although the option buttons and the overlay exist only while it is open (ContactUs.tsx lines 268 and 284). Both keep the invariant either way.
