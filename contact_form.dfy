/**
 * The `ContactUs` component's state and its event handlers: field edits,
 * topic selection, the topic dropdown, and the submission sequence.
 *
 * Each `useState` pair becomes a field of the class, and each setter call an
 * assignment to it, taking effect at once. The `await` of the simulated
 * delivery splits `handleSubmit` into two steps, `HandleSubmit` and
 * `CompleteSubmit`, and the deferred clearing of the response message is its
 * own step, `ClearResponse`.
 */
module ContactForm {
  import opened JsStrings
  import opened ContactValidation

  const CorrectErrorsPrompt := "Please correct the errors above."
  const ThankYou := "Thank you for your message! We'll get back to you soon."
  const SendFailed := "Sorry, there was an error sending your message. Please try again."

  /** A change event from one of the form's inputs: `e.target`'s `name`, `type`, `value` and `checked`. */
  datatype ChangeEvent = ChangeEvent(name: Field, isCheckbox: bool, value: JsString, checked: bool)
  {
    /** `type === 'checkbox' ? checked : value` */
    function NewValue(): FieldValue {
      if isCheckbox then Flag(checked) else Text(value)
    }

    /**
     * The event comes from an input the form renders: the four text inputs
     * and the consent checkbox. The topic has no input of its own.
     */
    predicate FromRenderedInput() {
      name != Topic && (isCheckbox <==> name == Consent)
    }
  }

  /** A field's validation reads that field only. */
  lemma FieldErrorReadsOnlyItsField(a: FormData, b: FormData, f: Field)
    requires Get(a, f) == Get(b, f)
    ensures FieldError(a, f) == FieldError(b, f)
  {
  }

  /** `errors[f]`, with `None` for `undefined`. */
  function Entry(errors: map<Field, string>, f: Field): Option<string> {
    if f in errors then Some(errors[f]) else None
  }

  /** One block of `validateForm`: field `f`'s message, if it has one, is added to `errors`. */
  function Record(errors: map<Field, string>, f: Field, e: Option<string>): map<Field, string> {
    if e.Some? then errors[f := e.value] else errors
  }

  /** The six blocks of `validateForm` in order, starting from the empty object. */
  function RecordAll(e1: Option<string>, e2: Option<string>, e3: Option<string>,
                     e4: Option<string>, e5: Option<string>, e6: Option<string>): (m: map<Field, string>)
    ensures Entry(m, FirstName) == e1 && Entry(m, LastName) == e2 && Entry(m, Email) == e3
    ensures Entry(m, Topic) == e4 && Entry(m, Message) == e5 && Entry(m, Consent) == e6
  {
    var m1 := Record(map[], FirstName, e1);
    var m2 := Record(m1, LastName, e2);
    var m3 := Record(m2, Email, e3);
    var m4 := Record(m3, Topic, e4);
    var m5 := Record(m4, Message, e5);
    Record(m5, Consent, e6)
  }

  /** Running the six blocks on the form's values builds the validator's map. */
  lemma RecordedAreErrors(d: FormData)
    ensures Record(Record(Record(Record(Record(Record(map[],
              FirstName, FirstNameError(d.firstName)),
              LastName, LastNameError(d.lastName)),
              Email, EmailError(d.email)),
              Topic, TopicError(d.topic)),
              Message, MessageError(d.message)),
              Consent, ConsentError(d.consent))
            == Errors(d)
  {
    var m := RecordAll(FirstNameError(d.firstName), LastNameError(d.lastName), EmailError(d.email),
                       TopicError(d.topic), MessageError(d.message), ConsentError(d.consent));
    EntriesAreErrors(m, d);
  }

  /** A map whose entries are the validator's messages, field by field, is the validator's map. */
  lemma EntriesAreErrors(m: map<Field, string>, d: FormData)
    requires Entry(m, FirstName) == FirstNameError(d.firstName)
    requires Entry(m, LastName) == LastNameError(d.lastName)
    requires Entry(m, Email) == EmailError(d.email)
    requires Entry(m, Topic) == TopicError(d.topic)
    requires Entry(m, Message) == MessageError(d.message)
    requires Entry(m, Consent) == ConsentError(d.consent)
    ensures m == Errors(d)
  {
    var e := Errors(d);
    assert Entry(e, FirstName) == FieldError(d, FirstName);
    assert Entry(e, LastName) == FieldError(d, LastName);
    assert Entry(e, Email) == FieldError(d, Email);
    assert Entry(e, Topic) == FieldError(d, Topic);
    assert Entry(e, Message) == FieldError(d, Message);
    assert Entry(e, Consent) == FieldError(d, Consent);
    SameEntriesSameMap(m, e);
  }

  /** Two error maps with the same entry for every field are equal. */
  lemma SameEntriesSameMap(a: map<Field, string>, b: map<Field, string>)
    requires Entry(a, FirstName) == Entry(b, FirstName)
    requires Entry(a, LastName) == Entry(b, LastName)
    requires Entry(a, Email) == Entry(b, Email)
    requires Entry(a, Topic) == Entry(b, Topic)
    requires Entry(a, Message) == Entry(b, Message)
    requires Entry(a, Consent) == Entry(b, Consent)
    ensures a == b
  {
    forall f ensures (f in a <==> f in b) && (f in a ==> a[f] == b[f]) {
      EveryFieldListed(f);
      assert Entry(a, f) == Entry(b, f);
    }
  }

  /** `errors[f]` is truthy, so the form shows field `f`'s error. */
  predicate Shown(errors: map<Field, string>, f: Field) {
    f in errors && errors[f] != ""
  }

  class ContactUs {
    var isDropdownOpen: bool
    var isSubmitting: bool
    var formData: FormData
    var formResponse: string
    /** `FormErrors`: a cleared entry keeps its key and holds the empty string. */
    var errors: map<Field, string>

    /**
     * The component's invariant: every error on display is the message the
     * validator gives for the field's current value; no error is on display
     * while a submission is under way; and the topic is empty or one of the
     * offered options.
     */
    ghost predicate Valid()
      reads this
    {
      (forall f | Shown(errors, f) :: FieldError(formData, f) == Some(errors[f]))
      && (isSubmitting ==> forall f :: !Shown(errors, f))
      && (formData.topic == [] || formData.topic in TopicOptions)
    }

    /** The state at mount. */
    constructor ()
      ensures Valid()
      ensures !isDropdownOpen && !isSubmitting
      ensures formData == DefaultFormData && formResponse == "" && errors == map[]
    {
      isDropdownOpen := false;
      isSubmitting := false;
      formData := DefaultFormData;
      formResponse := "";
      errors := map[];
    }

    /**
     * `handleInputChange`: the named field takes the event's value and no
     * other field changes; that field's error is cleared (set to the empty
     * string) only if one was shown, and no other error changes.
     */
    method HandleInputChange(e: ChangeEvent)
      requires Valid() && e.FromRenderedInput()
      modifies this`formData, this`errors
      ensures Valid()
      ensures formData == Set(old(formData), e.name, e.NewValue())
      // spells out what `Set`'s contract gives for the other fields
      ensures forall g | g != e.name :: Get(formData, g) == Get(old(formData), g)
      ensures errors == if Shown(old(errors), e.name) then old(errors)[e.name := ""] else old(errors)
    {
      formData := Set(formData, e.name, e.NewValue());
      if Shown(errors, e.name) {
        errors := errors[e.name := ""];
      }
      forall f | Shown(errors, f) ensures FieldError(formData, f) == Some(errors[f]) {
        FieldErrorReadsOnlyItsField(formData, old(formData), f);
      }
    }

    /**
     * `handleTopicSelect`, reached from one of the dropdown's options: the topic
     * becomes the option, a shown topic error is cleared, and the dropdown closes.
     */
    method HandleTopicSelect(t: JsString)
      requires Valid() && t in TopicOptions
      modifies this`formData, this`errors, this`isDropdownOpen
      ensures Valid()
      ensures formData == old(formData).(topic := t)
      ensures errors == if Shown(old(errors), Topic) then old(errors)[Topic := ""] else old(errors)
      ensures !isDropdownOpen
    {
      formData := formData.(topic := t);
      if Shown(errors, Topic) {
        errors := errors[Topic := ""];
      }
      isDropdownOpen := false;
      forall f | Shown(errors, f) ensures FieldError(formData, f) == Some(errors[f]) {
        FieldErrorReadsOnlyItsField(formData, old(formData), f);
      }
    }

    /** The dropdown's trigger button flips it open or closed. */
    method ToggleDropdown()
      requires Valid()
      modifies this`isDropdownOpen
      ensures Valid()
      ensures isDropdownOpen == !old(isDropdownOpen)
    {
      isDropdownOpen := !isDropdownOpen;
    }

    /** A click on the overlay behind the open dropdown closes it and selects nothing. */
    method CloseDropdown()
      requires Valid()
      modifies this`isDropdownOpen
      ensures Valid()
      ensures !isDropdownOpen
    {
      isDropdownOpen := false;
    }

    /**
     * `validateForm`: replaces the stored errors wholesale with the validator's
     * map for the current values and reports whether that map is empty, that
     * is whether every rule holds. Each `Record` step is one of the six
     * `if`/`else if` blocks, whose tests are those of the field's error function.
     */
    method ValidateForm() returns (ok: bool)
      requires Valid()
      modifies this`errors
      ensures errors == Errors(formData)
      ensures ok <==> errors == map[]
      ensures ok <==> forall f :: RuleHolds(formData, f)
      ensures !isSubmitting ==> Valid()
    {
      var newErrors: map<Field, string> := map[];
      newErrors := Record(newErrors, FirstName, FirstNameError(formData.firstName));
      newErrors := Record(newErrors, LastName, LastNameError(formData.lastName));
      newErrors := Record(newErrors, Email, EmailError(formData.email));
      newErrors := Record(newErrors, Topic, TopicError(formData.topic));
      newErrors := Record(newErrors, Message, MessageError(formData.message));
      newErrors := Record(newErrors, Consent, ConsentError(formData.consent));
      errors := newErrors;
      ok := |newErrors| == 0;
      RecordedAreErrors(formData);
      ErrorsAreFailedRules(formData);
    }

    /**
     * A click on the submit button. While a submission is under way the button
     * is disabled and the click does nothing. Otherwise `handleSubmit` runs up
     * to its `await`: the form is validated; if it is invalid the correction
     * prompt is shown and nothing else changes; if it is valid the submission
     * starts, with `isSubmitting` set and the response message cleared.
     */
    method HandleSubmit() returns (started: bool)
      requires Valid()
      modifies this`errors, this`isSubmitting, this`formResponse
      ensures Valid()
      ensures old(isSubmitting) ==>
                !started && errors == old(errors) && isSubmitting && formResponse == old(formResponse)
      ensures !old(isSubmitting) ==>
                errors == Errors(formData)
                && (started <==> errors == map[])
                && isSubmitting == started
                && formResponse == (if started then "" else CorrectErrorsPrompt)
    {
      if isSubmitting {
        return false;
      }
      var ok := ValidateForm();
      if !ok {
        formResponse := CorrectErrorsPrompt;
        return false;
      }
      isSubmitting := true;
      formResponse := "";
      started := true;
    }

    /**
     * The rest of `handleSubmit`, once the one-second delay has elapsed.
     * `fails` says whether the delivery step threw. On success the submitted
     * values are delivered, the thank-you message is shown and the form is
     * reset to its initial values; on failure the apology is shown and the
     * values are kept. Either way the submission is over.
     */
    method CompleteSubmit(fails: bool) returns (delivered: Option<FormData>)
      requires Valid() && isSubmitting
      modifies this`formData, this`isSubmitting, this`formResponse
      ensures Valid() && !isSubmitting
      ensures fails ==> delivered == None && formData == old(formData) && formResponse == SendFailed
      ensures !fails ==>
                delivered == Some(old(formData)) && formData == DefaultFormData && formResponse == ThankYou
    {
      if fails {
        delivered := None;
        formResponse := SendFailed;
      } else {
        delivered := Some(formData);
        formResponse := ThankYou;
        formData := DefaultFormData;
      }
      isSubmitting := false;
    }

    /** The timer set after a successful submission fires and clears the response message. */
    method ClearResponse()
      requires Valid()
      modifies this`formResponse
      ensures Valid()
      ensures formResponse == ""
    {
      formResponse := "";
    }
  }

  // ----- two walk-throughs of the form -----

  /** The values of the accepted walk-through. */
  const FilledForm := FormData(Lit("Jo"), Lit("Doe"), Lit("jo@doe.com"), Lit("Sales Request"),
                               Lit("Hello there friend"), true)

  /** Every rule holds for `FilledForm`. */
  lemma FilledFormIsValid()
    ensures Errors(FilledForm) == map[]
  {
    var d := FilledForm;
    assert Trimmed(d.firstName) && Trimmed(d.lastName) && Trimmed(d.message);
    var s := d.email;
    assert s[2] == At && s[6] == Dot;
    assert AllPartUnits(s[..2]) && AllPartUnits(s[3..6]) && AllPartUnits(s[7..]);
    assert MatchesEmailPattern(s);
    ValidateEmailIsPattern(s);
    FormValidIff(d);
  }

  /**
   * A newly mounted form into which a user types `d`'s texts and ticks its
   * consent box, and whose topic is picked from the dropdown.
   */
  method FillIn(d: FormData) returns (form: ContactUs)
    requires d.topic in TopicOptions && d.consent
    ensures fresh(form) && form.Valid()
    ensures form.formData == d && !form.isSubmitting
  {
    form := new ContactUs();
    form.HandleInputChange(ChangeEvent(FirstName, false, d.firstName, false));
    form.HandleInputChange(ChangeEvent(LastName, false, d.lastName, false));
    form.HandleInputChange(ChangeEvent(Email, false, d.email, false));
    form.ToggleDropdown();
    form.HandleTopicSelect(d.topic);
    form.HandleInputChange(ChangeEvent(Message, false, d.message, false));
    form.HandleInputChange(ChangeEvent(Consent, true, [], true));
  }

  /**
   * A user fills in every field with `FilledForm`'s values and presses the
   * submit button; the delivery succeeds. The form is busy while it waits,
   * the values are delivered, the form is back to its initial values and the
   * thank-you message is shown.
   */
  method SubmitFilledForm() returns (busy: bool, delivered: Option<FormData>, data: FormData, response: string)
    ensures busy
    ensures delivered == Some(FilledForm)
    ensures data == DefaultFormData && response == ThankYou
  {
    var form := FillIn(FilledForm);
    FilledFormIsValid();
    var started := form.HandleSubmit();
    busy := form.isSubmitting;
    delivered := form.CompleteSubmit(false);
    data, response := form.formData, form.formResponse;
  }

  /**
   * The same walk-through with the first name left empty: the submission does
   * not start, the first name shows "First name is required", the correction
   * prompt is shown and the entered values stay as they were.
   */
  method SubmitWithoutFirstName() returns (started: bool, busy: bool, firstNameError: string, data: FormData, response: string)
    ensures !started && !busy
    ensures firstNameError == FirstNameRequired && response == CorrectErrorsPrompt
    ensures data == FilledForm.(firstName := [])
  {
    var form := FillIn(FilledForm.(firstName := []));
    started := form.HandleSubmit();
    busy := form.isSubmitting;
    assert FirstName in form.errors;
    firstNameError := form.errors[FirstName];
    data, response := form.formData, form.formResponse;
  }
}
