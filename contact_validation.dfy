/**
 * The contact form's data and its validator: the `FormData` and `FormErrors`
 * shapes, `validateEmail`, and the per-field rules of `validateForm`.
 */
module ContactValidation {
  import opened JsStrings

  datatype Option<T> = None | Some(value: T)

  /** The six fields of the form, one per key of `FormData` and `FormErrors`. */
  datatype Field = FirstName | LastName | Email | Topic | Message | Consent

  const AllFields: set<Field> := {FirstName, LastName, Email, Topic, Message, Consent}

  lemma EveryFieldListed(f: Field)
    ensures f in AllFields
  {
  }

  /** `FormData`: the values the user has entered. */
  datatype FormData = FormData(
    firstName: JsString,
    lastName: JsString,
    email: JsString,
    topic: JsString,
    message: JsString,
    consent: bool)

  /** The values the form starts with and is reset to after a successful submission. */
  const DefaultFormData := FormData([], [], [], [], [], false)

  /** The value of one field: text for the five text fields, a flag for the consent checkbox. */
  datatype FieldValue = Text(text: JsString) | Flag(flag: bool)

  /** `v` has the type `FormData` declares for field `f`. */
  predicate Fits(f: Field, v: FieldValue) {
    (f == Consent) <==> v.Flag?
  }

  /** `formData[f]`. */
  function Get(d: FormData, f: Field): (v: FieldValue)
    ensures Fits(f, v)
  {
    match f
    case FirstName => Text(d.firstName)
    case LastName => Text(d.lastName)
    case Email => Text(d.email)
    case Topic => Text(d.topic)
    case Message => Text(d.message)
    case Consent => Flag(d.consent)
  }

  /** `{ ...d, [f]: v }`: field `f` becomes `v` and every other field keeps its value. */
  function Set(d: FormData, f: Field, v: FieldValue): (r: FormData)
    requires Fits(f, v)
    ensures Get(r, f) == v
    ensures forall g | g != f :: Get(r, g) == Get(d, g)
  {
    match f
    case FirstName => d.(firstName := v.text)
    case LastName => d.(lastName := v.text)
    case Email => d.(email := v.text)
    case Topic => d.(topic := v.text)
    case Message => d.(message := v.text)
    case Consent => d.(consent := v.flag)
  }

  /** Two records that agree on every field are the same record, so `Set`'s contract determines its result. */
  lemma SameFieldsSameRecord(a: FormData, b: FormData)
    requires forall f :: Get(a, f) == Get(b, f)
    ensures a == b
  {
    assert Get(a, FirstName) == Get(b, FirstName);
    assert Get(a, LastName) == Get(b, LastName);
    assert Get(a, Email) == Get(b, Email);
    assert Get(a, Topic) == Get(b, Topic);
    assert Get(a, Message) == Get(b, Message);
    assert Get(a, Consent) == Get(b, Consent);
  }

  // ----- validateEmail -----

  const At: CodeUnit := 0x40   // '@'
  const Dot: CodeUnit := 0x2E  // '.'

  /** A code unit that the class `[^\s@]` matches. */
  predicate PartUnit(c: CodeUnit) {
    !IsWs(c) && c != At
  }

  /** A string that `[^\s@]*` matches. */
  predicate AllPartUnits(s: JsString) {
    forall k | 0 <= k < |s| :: PartUnit(s[k])
  }

  /**
   * The strings `/^[^\s@]+@[^\s@]+\.[^\s@]+$/` accepts, read off the pattern:
   * `s` splits at an `@` (index `i`) and a `.` (index `j`) into three non-empty
   * runs of `[^\s@]`, so a matched string has at least five code units.
   */
  predicate MatchesEmailPattern(s: JsString): (r: bool)
    ensures r ==> |s| >= 5
  {
    exists i, j | 0 < i && i + 1 < j < |s| - 1 ::
      s[i] == At && s[j] == Dot
      && AllPartUnits(s[..i]) && AllPartUnits(s[i + 1..j]) && AllPartUnits(s[j + 1..])
  }

  /** The index of the first `c` in `s`, or `|s|` when there is none. */
  function IndexOf(s: JsString, c: CodeUnit): (i: nat)
    ensures i <= |s|
    ensures i < |s| ==> s[i] == c
    ensures c !in s[..i]
  {
    if s == [] then 0
    else if s[0] == c then 0
    else
      var i := 1 + IndexOf(s[1..], c);
      assert s[..i] == [s[0]] + s[1..][..i - 1];
      i
  }

  /**
   * `validateEmail`: the address has no white space and exactly one `@`,
   * something before the `@`, and a `.` in the part after the `@` that is
   * neither that part's first nor its last code unit. An accepted address
   * has no white space, holds an `@` and a `.`, and has at least five code units.
   */
  function ValidateEmail(email: JsString): (r: bool)
    ensures r ==> NoWs(email) && At in email && Dot in email && |email| >= 5
  {
    var i := IndexOf(email, At);
    NoWs(email) && 0 < i && i + 3 < |email|
    && At !in email[i + 1..] && Dot in email[i + 2..|email| - 1]
  }

  /** `ValidateEmail` accepts exactly the strings the pattern matches. */
  lemma ValidateEmailIsPattern(email: JsString)
    ensures ValidateEmail(email) <==> MatchesEmailPattern(email)
  {
    if ValidateEmail(email) {
      ShapeMatchesPattern(email, IndexOf(email, At));
    }
    if MatchesEmailPattern(email) {
      PatternHasShape(email);
    }
  }

  /** An address of the shape `ValidateEmail` checks is matched by the pattern. */
  lemma ShapeMatchesPattern(email: JsString, i: nat)
    requires NoWs(email) && 0 < i && i + 3 < |email|
    requires email[i] == At && At !in email[..i] && At !in email[i + 1..]
    requires Dot in email[i + 2..|email| - 1]
    ensures MatchesEmailPattern(email)
  {
    var k :| 0 <= k < |email[i + 2..|email| - 1]| && email[i + 2..|email| - 1][k] == Dot;
    var j := i + 2 + k;
    assert email[j] == Dot;
    assert AllPartUnits(email[..i]) by {
      forall n | 0 <= n < i ensures PartUnit(email[..i][n]) {
        assert email[..i][n] in email[..i];
      }
    }
    var domain, tld := email[i + 1..j], email[j + 1..];
    forall n | 0 <= n < |domain| ensures PartUnit(domain[n]) {
      assert domain[n] == email[i + 1..][n];
    }
    forall n | 0 <= n < |tld| ensures PartUnit(tld[n]) {
      assert tld[n] == email[i + 1..][n + j - i];
    }
  }

  /** An address the pattern matches has the shape `ValidateEmail` checks. */
  lemma PatternHasShape(email: JsString)
    requires MatchesEmailPattern(email)
    ensures var i := IndexOf(email, At);
      NoWs(email) && 0 < i && i + 3 < |email|
      && At !in email[i + 1..] && Dot in email[i + 2..|email| - 1]
  {
    var a, b :| 0 < a && a + 1 < b < |email| - 1 && email[a] == At && email[b] == Dot
      && AllPartUnits(email[..a]) && AllPartUnits(email[a + 1..b]) && AllPartUnits(email[b + 1..]);
    var local, domain, tld := email[..a], email[a + 1..b], email[b + 1..];
    assert At !in local by {
      forall n | 0 <= n < |local| ensures local[n] != At { assert PartUnit(local[n]); }
    }
    // the `@` at `a` is the first one
    FirstIndex(email, At, a);
    SplitIntoParts(email, a, b);
    assert NoWs(email) by {
      forall k | 0 <= k < |email| ensures !IsWs(email[k]) {
        if k != a && k != b { assert PartUnit(email[k]); }
      }
    }
    var rest := email[a + 1..];
    assert At !in rest by {
      forall n | 0 <= n < |rest| ensures rest[n] != At {
        assert rest[n] == email[a + 1 + n];
        assert PartUnit(email[a + 1 + n]) || a + 1 + n == b;
      }
    }
    assert email[a + 2..|email| - 1][b - a - 2] == Dot;
  }

  /** Apart from the `@` and the `.` it splits at, a matched address is made of `[^\s@]` code units. */
  lemma SplitIntoParts(email: JsString, a: nat, b: nat)
    requires a < b < |email|
    requires AllPartUnits(email[..a]) && AllPartUnits(email[a + 1..b]) && AllPartUnits(email[b + 1..])
    ensures forall k | 0 <= k < |email| && k != a && k != b :: PartUnit(email[k])
  {
    var local, domain, tld := email[..a], email[a + 1..b], email[b + 1..];
    forall k | 0 <= k < |email| && k != a && k != b ensures PartUnit(email[k]) {
      if k < a { assert email[k] == local[k]; }
      else if k < b { assert email[k] == domain[k - a - 1]; }
      else { assert email[k] == tld[k - b - 1]; }
    }
  }

  /** The first `c` in `s` is the one `IndexOf` finds. */
  lemma FirstIndex(s: JsString, c: CodeUnit, a: nat)
    requires a < |s| && s[a] == c && c !in s[..a]
    ensures IndexOf(s, c) == a
  {
  }

  /**
   * A `.` may end an accepted address: the `.` the pattern splits at need not
   * be the last one, and the part after it may itself hold dots.
   */
  lemma DotMayEndAddress(s: JsString)
    requires MatchesEmailPattern(s)
    ensures MatchesEmailPattern(s + [Dot])
  {
    var i, j :| 0 < i && i + 1 < j < |s| - 1 && s[i] == At && s[j] == Dot
      && AllPartUnits(s[..i]) && AllPartUnits(s[i + 1..j]) && AllPartUnits(s[j + 1..]);
    var t := s + [Dot];
    assert t[..i] == s[..i] && t[i + 1..j] == s[i + 1..j] && t[j + 1..] == s[j + 1..] + [Dot];
    assert t[i] == At && t[j] == Dot && AllPartUnits(t[j + 1..]);
    assert 0 < i && i + 1 < j < |t| - 1;
  }

  // ----- validateForm -----

  const MinNameLength := 2
  const MinMessageLength := 10

  const FirstNameRequired := "First name is required"
  const FirstNameTooShort := "First name must be at least 2 characters"
  const LastNameRequired := "Last name is required"
  const LastNameTooShort := "Last name must be at least 2 characters"
  const EmailRequired := "Email is required"
  const EmailInvalid := "Please enter a valid email address"
  const TopicRequired := "Please select a topic"
  const MessageRequired := "Message is required"
  const MessageTooShort := "Message must be at least 10 characters"
  const ConsentRequired := "You must agree to the privacy policy"

  /** The three values the topic selector offers. */
  const TopicOptions: seq<JsString> :=
    [Lit("General Enquiry"), Lit("Technical Support"), Lit("Sales Request")]

  /**
   * What each field must satisfy, as the form states its rules: names of at
   * least 2 and a message of at least 10 code units once trimmed, an email the
   * pattern accepts, a non-empty topic, and consent given.
   */
  predicate RuleHolds(d: FormData, f: Field) {
    match f
    case FirstName => |Trim(d.firstName)| >= MinNameLength
    case LastName => |Trim(d.lastName)| >= MinNameLength
    case Email => MatchesEmailPattern(d.email)
    case Topic => d.topic != []
    case Message => |Trim(d.message)| >= MinMessageLength
    case Consent => d.consent
  }

  /** An email that is blank once trimmed never matches the pattern. */
  lemma BlankIsNoEmail(s: JsString)
    requires AllWs(s)
    ensures !MatchesEmailPattern(s)
  {
  }

  // The message `validateForm` records for each field, if any: the "required"
  // message when the (trimmed) value is empty, otherwise the rule's own
  // message when the rule fails.

  function FirstNameError(firstName: JsString): Option<string> {
    if Trim(firstName) == [] then Some(FirstNameRequired)
    else if |Trim(firstName)| < MinNameLength then Some(FirstNameTooShort)
    else None
  }

  function LastNameError(lastName: JsString): Option<string> {
    if Trim(lastName) == [] then Some(LastNameRequired)
    else if |Trim(lastName)| < MinNameLength then Some(LastNameTooShort)
    else None
  }

  /** "Required" is decided on the trimmed value, the pattern on the value as typed. */
  function EmailError(email: JsString): Option<string> {
    if Trim(email) == [] then Some(EmailRequired)
    else if !ValidateEmail(email) then Some(EmailInvalid)
    else None
  }

  /** The topic is not trimmed. */
  function TopicError(topic: JsString): Option<string> {
    if topic == [] then Some(TopicRequired) else None
  }

  function MessageError(message: JsString): Option<string> {
    if Trim(message) == [] then Some(MessageRequired)
    else if |Trim(message)| < MinMessageLength then Some(MessageTooShort)
    else None
  }

  function ConsentError(consent: bool): Option<string> {
    if !consent then Some(ConsentRequired) else None
  }

  /** The message for field `f`; a message is never the empty string. */
  function FieldError(d: FormData, f: Field): (e: Option<string>)
    ensures e.Some? ==> e.value != ""
  {
    match f
    case FirstName => FirstNameError(d.firstName)
    case LastName => LastNameError(d.lastName)
    case Email => EmailError(d.email)
    case Topic => TopicError(d.topic)
    case Message => MessageError(d.message)
    case Consent => ConsentError(d.consent)
  }

  /** There is a message for a field exactly when its rule fails. */
  lemma FieldErrorIffRuleFails(d: FormData, f: Field)
    ensures FieldError(d, f).None? <==> RuleHolds(d, f)
  {
    if f == Email {
      ValidateEmailIsPattern(d.email);
      if Trim(d.email) == [] {
        BlankIsNoEmail(d.email);
      }
    }
  }

  /**
   * The `FormErrors` object `validateForm` builds: a key for exactly the
   * fields that have a message, holding that message.
   */
  function Errors(d: FormData): (m: map<Field, string>)
    ensures forall f :: f in m <==> FieldError(d, f).Some?
    ensures forall f | f in m :: Some(m[f]) == FieldError(d, f)
  {
    var m := map f | f in AllFields && FieldError(d, f).Some? :: FieldError(d, f).value;
    assert forall f :: f in m <==> FieldError(d, f).Some? by {
      forall f ensures f in m <==> FieldError(d, f).Some? { EveryFieldListed(f); }
    }
    m
  }

  /**
   * The error map has a key for exactly the fields whose rule fails, so it is
   * empty exactly when every rule holds.
   */
  lemma ErrorsAreFailedRules(d: FormData)
    ensures forall f :: f in Errors(d) <==> !RuleHolds(d, f)
    ensures Errors(d) == map[] <==> forall f :: RuleHolds(d, f)
  {
    forall f ensures f in Errors(d) <==> !RuleHolds(d, f) {
      FieldErrorIffRuleFails(d, f);
    }
    if forall f :: RuleHolds(d, f) {
      assert Errors(d).Keys == {};
    }
  }

  // ----- the rules one by one -----

  /**
   * A name is rejected exactly when it is shorter than 2 code units once
   * trimmed; the message is "required" exactly when the name is all white
   * space, and "at least 2 characters" when one code unit is left.
   */
  lemma NameRules(d: FormData)
    ensures FirstName in Errors(d) <==> |Trim(d.firstName)| < MinNameLength
    ensures FirstName in Errors(d) ==> (Errors(d)[FirstName] == FirstNameRequired <==> AllWs(d.firstName))
    ensures |Trim(d.firstName)| == 1 ==> Errors(d)[FirstName] == FirstNameTooShort
    ensures LastName in Errors(d) <==> |Trim(d.lastName)| < MinNameLength
    ensures LastName in Errors(d) ==> (Errors(d)[LastName] == LastNameRequired <==> AllWs(d.lastName))
    ensures |Trim(d.lastName)| == 1 ==> Errors(d)[LastName] == LastNameTooShort
  {
  }

  /**
   * The email is rejected exactly when `validateEmail` rejects it: the
   * "required" test catches only addresses the pattern rejects anyway, and
   * decides which message is shown. An accepted address has no white space
   * around it, so trimming does not change it. Any other rejected address
   * gets the "valid email address" message. An address without an `@`, or
   * without a `.` after its first `@`, is rejected.
   */
  lemma EmailRule(d: FormData)
    ensures Email in Errors(d) <==> !ValidateEmail(d.email)
    ensures Email in Errors(d) ==> (Errors(d)[Email] == EmailRequired <==> AllWs(d.email))
    ensures ValidateEmail(d.email) ==> NoWs(d.email) && Trim(d.email) == d.email
    ensures !AllWs(d.email) && !ValidateEmail(d.email) ==> Errors(d)[Email] == EmailInvalid
    ensures At !in d.email || Dot !in d.email[IndexOf(d.email, At)..] ==> Email in Errors(d)
  {
    if ValidateEmail(d.email) {
      PatternHasShape(d.email);
    }
  }

  /** `" a@b.co"` is rejected as malformed, not as missing: the pattern is tested on the untrimmed value. */
  lemma LeadingSpaceEmailIsMalformed(d: FormData)
    requires d.email == Lit(" a@b.co")
    ensures Errors(d)[Email] == EmailInvalid
  {
    assert !IsWs(d.email[1]) && IsWs(d.email[0]);
    assert !AllWs(d.email);
    assert !NoWs(d.email);
    EmailRule(d);
  }

  /** `"a@b.co"` is accepted. */
  lemma ShortEmailIsAccepted(d: FormData)
    requires d.email == Lit("a@b.co")
    ensures Email !in Errors(d)
  {
    var s := d.email;
    assert s[1] == At && s[3] == Dot;
    assert AllPartUnits(s[..1]) && AllPartUnits(s[2..3]) && AllPartUnits(s[4..]);
    assert MatchesEmailPattern(s);
    ValidateEmailIsPattern(s);
    EmailRule(d);
  }

  /** The topic is rejected exactly when it is empty; it is not trimmed, and each offered option passes. */
  lemma TopicRule(d: FormData)
    ensures Topic in Errors(d) <==> d.topic == []
    ensures d.topic in TopicOptions ==> Topic !in Errors(d)
  {
  }

  /**
   * The message is rejected exactly when it is shorter than 10 code units once
   * trimmed, so a trimmed length of exactly 10 passes; "required" is shown
   * exactly when it is all white space, and "at least 10 characters" when 1 to
   * 9 code units are left.
   */
  lemma MessageRule(d: FormData)
    ensures Message in Errors(d) <==> |Trim(d.message)| < MinMessageLength
    ensures |Trim(d.message)| == MinMessageLength ==> Message !in Errors(d)
    ensures Message in Errors(d) ==> (Errors(d)[Message] == MessageRequired <==> AllWs(d.message))
    ensures 0 < |Trim(d.message)| < MinMessageLength ==> Errors(d)[Message] == MessageTooShort
  {
  }

  /** Consent is rejected exactly when the box is unticked. */
  lemma ConsentRule(d: FormData)
    ensures Consent in Errors(d) <==> !d.consent
  {
  }

  /** The form is valid (no error entries) exactly when all six rules hold together. */
  lemma FormValidIff(d: FormData)
    ensures Errors(d) == map[] <==>
      |Trim(d.firstName)| >= MinNameLength && |Trim(d.lastName)| >= MinNameLength
      && ValidateEmail(d.email) && d.topic != []
      && |Trim(d.message)| >= MinMessageLength && d.consent
  {
    ErrorsAreFailedRules(d);
    ValidateEmailIsPattern(d.email);
    assert RuleHolds(d, FirstName) && RuleHolds(d, LastName) && RuleHolds(d, Email)
      && RuleHolds(d, Topic) && RuleHolds(d, Message) && RuleHolds(d, Consent)
      <==> forall f :: RuleHolds(d, f);
  }
}
