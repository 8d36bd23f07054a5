/** The contact form's data and its field validator (`validateForm`). */
module Validation {
  import opened Wrappers
  import opened Text
  import opened Email

  /** The four inputs of the form, by their `name` attribute. */
  datatype Field = FromName | FromEmail | Subject | Message

  /** `FormState`: the values of the four inputs. */
  datatype FormState = FormState(fromName: string, fromEmail: string, subject: string, message: string)
  {
    function Get(f: Field): string
    {
      match f
      case FromName => fromName
      case FromEmail => fromEmail
      case Subject => subject
      case Message => message
    }

    /** `{ ...prev, [name]: value }`: one field replaced, the others kept. */
    function With(f: Field, v: string): (r: FormState)
      ensures r.Get(f) == v
      ensures forall g | g != f :: r.Get(g) == Get(g)
    {
      match f
      case FromName => this.(fromName := v)
      case FromEmail => this.(fromEmail := v)
      case Subject => this.(subject := v)
      case Message => this.(message := v)
    }
  }

  /** The initial state, and the state after a successful send. */
  const EmptyForm := FormState("", "", "", "")

  const NameRequired := "Name is required"
  const EmailRequired := "Email is required"
  const EmailInvalid := "Valid email is required"
  const SubjectRequired := "Subject is required"
  const MessageRequired := "Message is required"

  /** The error map, `Partial<FormState>`: a message for each failing field. */
  type Errors = map<Field, string>

  /** The rule for one field on its own: the message it fails with, if any.
      Blankness (`!v.trim()`) is judged on the trimmed value, the address
      shape on the value as typed. */
  function FieldError(f: Field, v: string): Option<string>
  {
    match f
    case FromName => if Blank(v) then Some(NameRequired) else None
    case FromEmail =>
      if Blank(v) then Some(EmailRequired)
      else if !MatchesEmail(v) then Some(EmailInvalid)
      else None
    case Subject => if Blank(v) then Some(SubjectRequired) else None
    case Message => if Blank(v) then Some(MessageRequired) else None
  }

  /** `if (...) newErrors[f] = message`: record a failing field's message. */
  function Record(errs: Errors, f: Field, verdict: Option<string>): Errors
  {
    match verdict
    case Some(msg) => errs[f := msg]
    case None => errs
  }

  /** The map `validateForm` builds, checking the fields in turn and starting
      from an empty map: it holds exactly the fields whose rule fails, each
      with the message of that rule, and nothing carried over from earlier
      errors. */
  function Validate(form: FormState): (errs: Errors)
    ensures FromName in errs <==> FieldError(FromName, form.fromName).Some?
    ensures FromEmail in errs <==> FieldError(FromEmail, form.fromEmail).Some?
    ensures Subject in errs <==> FieldError(Subject, form.subject).Some?
    ensures Message in errs <==> FieldError(Message, form.message).Some?
    ensures FromName in errs ==> Some(errs[FromName]) == FieldError(FromName, form.fromName)
    ensures FromEmail in errs ==> Some(errs[FromEmail]) == FieldError(FromEmail, form.fromEmail)
    ensures Subject in errs ==> Some(errs[Subject]) == FieldError(Subject, form.subject)
    ensures Message in errs ==> Some(errs[Message]) == FieldError(Message, form.message)
  {
    var name, email, subject, message := FieldError(FromName, form.fromName),
      FieldError(FromEmail, form.fromEmail), FieldError(Subject, form.subject),
      FieldError(Message, form.message);
    var e1 := Record(map[], FromName, name);
    var e2 := Record(e1, FromEmail, email);
    var e3 := Record(e2, Subject, subject);
    Record(e3, Message, message)
  }

  /** The verdict on each field is that field's own rule applied to its
      current value, whichever field it is. */
  lemma ValidateFollowsRules(form: FormState)
    ensures forall f :: f in Validate(form) <==> FieldError(f, form.Get(f)).Some?
    ensures forall f | f in Validate(form) :: Some(Validate(form)[f]) == FieldError(f, form.Get(f))
  {
  }

  /** `Object.keys(newErrors).length === 0`. */
  predicate IsValid(form: FormState)
  {
    |Validate(form)| == 0
  }

  /** Name, subject and message fail with their "... is required" message
      exactly when they are blank after trimming, that is, when they consist
      of whitespace only. */
  lemma RequiredFieldRule(form: FormState, f: Field)
    requires f != FromEmail
    ensures f in Validate(form) <==> Trim(form.Get(f)) == []
    ensures f in Validate(form) ==>
      Validate(form)[f] == (match f
                            case FromName => NameRequired
                            case Subject => SubjectRequired
                            case _ => MessageRequired)
  {
    ValidateFollowsRules(form);
  }

  /** The address gets at most one of its two messages: "Email is required"
      exactly when it is blank after trimming, "Valid email is required"
      exactly when it is not blank but the untrimmed value is not of the
      expression's shape. */
  lemma EmailRule(form: FormState)
    ensures FromEmail !in Validate(form) <==>
      Trim(form.fromEmail) != [] && EmailShape(form.fromEmail)
    ensures FromEmail in Validate(form) && Validate(form)[FromEmail] == EmailRequired <==>
      Trim(form.fromEmail) == []
    ensures FromEmail in Validate(form) && Validate(form)[FromEmail] == EmailInvalid <==>
      Trim(form.fromEmail) != [] && !EmailShape(form.fromEmail)
  {
    MatchesEmailIff(form.fromEmail);
    var errs := Validate(form);
    assert FromEmail in errs <==> FieldError(FromEmail, form.fromEmail).Some?;
  }

  /** The form is submittable exactly when no field fails: every field is
      non-blank and the address has the expression's shape. */
  lemma ValidIff(form: FormState)
    ensures IsValid(form) <==>
      && Trim(form.fromName) != [] && Trim(form.subject) != [] && Trim(form.message) != []
      && Trim(form.fromEmail) != [] && EmailShape(form.fromEmail)
  {
    MatchesEmailIff(form.fromEmail);
    var errs := Validate(form);
    if |errs| == 0 {
      assert errs == map[];
      assert FieldError(FromName, form.fromName).None?;
      assert FieldError(FromEmail, form.fromEmail).None?;
      assert FieldError(Subject, form.subject).None?;
      assert FieldError(Message, form.message).None?;
    } else {
      var f :| f in errs;
      assert FieldError(f, form.Get(f)).Some?;
    }
  }

  /** The empty form fails on all four fields, each with its "required" message. */
  lemma EmptyFormFailsEverywhere()
    ensures Validate(EmptyForm) ==
      map[FromName := NameRequired, FromEmail := EmailRequired,
          Subject := SubjectRequired, Message := MessageRequired]
  {
    var errs := Validate(EmptyForm);
    assert FieldError(FromName, "") == Some(NameRequired);
    assert FieldError(FromEmail, "") == Some(EmailRequired);
    assert FieldError(Subject, "") == Some(SubjectRequired);
    assert FieldError(Message, "") == Some(MessageRequired);
  }

  /** "ann@example.com" is local part "ann", domain "example", suffix "com". */
  lemma ExampleAddressWellFormed()
    ensures EmailShape("ann@example.com")
  {
    assert "ann@example.com" == "ann" + "@" + "example" + "." + "com";
    assert SplitsAs("ann@example.com", "ann", "example", "com");
  }

  /** A completely filled-in form with a well-formed address passes. */
  lemma FilledFormPasses()
    ensures IsValid(FormState("Ann", "ann@example.com", "Hi", "Hello"))
  {
    var form := FormState("Ann", "ann@example.com", "Hi", "Hello");
    ExampleAddressWellFormed();
    assert !IsWhitespace(form.fromName[0]);
    assert !IsWhitespace(form.fromEmail[0]);
    assert !IsWhitespace(form.subject[0]);
    assert !IsWhitespace(form.message[0]);
    ValidIff(form);
  }

  /** When the other fields are filled in and the address is not blank but
      malformed, the address is the only failing field. */
  lemma OnlyAddressFails(form: FormState)
    requires !Blank(form.fromName) && !Blank(form.subject) && !Blank(form.message)
    requires !Blank(form.fromEmail) && !MatchesEmail(form.fromEmail)
    ensures Validate(form) == map[FromEmail := EmailInvalid]
  {
    var errs := Validate(form);
    assert FromName !in errs && Subject !in errs && Message !in errs;
    assert errs.Keys == {FromEmail};
  }

  /** An address without '@' fails with the shape message and nothing else does. */
  lemma AddressWithoutAtFails()
    ensures Validate(FormState("Ann", "not-an-email", "Hi", "Hello")) ==
      map[FromEmail := EmailInvalid]
  {
    var form := FormState("Ann", "not-an-email", "Hi", "Hello");
    assert !IsWhitespace(form.fromName[0]);
    assert !IsWhitespace(form.fromEmail[0]);
    assert !IsWhitespace(form.subject[0]);
    assert !IsWhitespace(form.message[0]);
    assert forall k | 0 <= k < |form.fromEmail| :: form.fromEmail[k] != '@';
    AtSignRequired(form.fromEmail);
    OnlyAddressFails(form);
  }

  /** An address with no dot after its '@' is not blank but malformed, and is
      the only failing field of an otherwise filled-in form. */
  lemma AddressWithoutDotFails()
    ensures Validate(FormState("Ann", "ann@localhost", "Hi", "Hello")) ==
      map[FromEmail := EmailInvalid]
  {
    var form := FormState("Ann", "ann@localhost", "Hi", "Hello");
    assert !IsWhitespace(form.fromName[0]);
    assert !IsWhitespace(form.fromEmail[0]);
    assert !IsWhitespace(form.subject[0]);
    assert !IsWhitespace(form.message[0]);
    DotRequiredAfterAt(form.fromEmail, 3);
    OnlyAddressFails(form);
  }

  /** A value that begins with a space followed by a well-formed address is
      not blank, yet it fails the shape check, because the expression sees the
      untrimmed value. */
  lemma PaddedAddressRejected(form: FormState, address: string)
    requires form.fromEmail == " " + address
    requires EmailShape(address)
    ensures FromEmail in Validate(form) && Validate(form)[FromEmail] == EmailInvalid
  {
    var l, d, t :| SplitsAs(address, l, d, t);
    assert (" " + address)[1] == l[0];
    assert !IsWhitespace(form.fromEmail[1]);
    PaddedAddressFails(address);
    EmailRule(form);
  }

}
