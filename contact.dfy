/** The contact section's component state and the handlers that change it:
    `handleChange` (Edit) and `handleSubmit`, which runs in two steps around
    its one `await` (Submit up to the send, Complete when the relay answers),
    and the five-second timer it schedules on success (Tick). */
module Contact {
  import opened Wrappers
  import opened Validation

  /** The three values read from the hosting environment; `None` is an
      undefined variable. */
  datatype Config = Config(serviceId: Option<string>, templateId: Option<string>, publicKey: Option<string>)

  /** An environment value passes `!value` only when it is defined and not
      the empty string. */
  predicate Provided(v: Option<string>)
  {
    v.Some? && v.value != ""
  }

  predicate Configured(config: Config)
  {
    Provided(config.serviceId) && Provided(config.templateId) && Provided(config.publicKey)
  }

  /** The arguments of the one call to the relay service: the three
      identifiers and the four form values as they stood when submitted. */
  datatype Request = Request(serviceId: string, templateId: string, publicKey: string, params: FormState)

  /** The three display states: the form, the form with a busy button, and
      the thank-you panel that replaces the form. */
  datatype Status = Idle | Submitting | Submitted

  class ContactSection {
    var formState: FormState
    var errors: Errors
    var isSubmitting: bool
    var isSubmitted: bool

    /** What every reachable state satisfies: the two flags never hold
        together; no error is on display while a send is in flight or the
        thank-you panel is shown; the panel is shown only over an empty form;
        and every error on display is the one the field's rule gives for the
        field's current value (an edit removes the error of the field it
        changes). */
    ghost predicate Valid()
      reads this
    {
      && !(isSubmitting && isSubmitted)
      && (isSubmitting || isSubmitted ==> errors == map[])
      && (isSubmitted ==> formState == EmptyForm)
      && forall f | f in errors :: FieldError(f, formState.Get(f)) == Some(errors[f])
    }

    function CurrentStatus(): Status
      reads this
    {
      if isSubmitting then Submitting else if isSubmitted then Submitted else Idle
    }

    /** The component as first rendered. */
    constructor ()
      ensures Valid()
      ensures formState == EmptyForm && errors == map[]
      ensures CurrentStatus() == Idle
    {
      formState := EmptyForm;
      errors := map[];
      isSubmitting := false;
      isSubmitted := false;
    }

    /** `handleChange`: the input named `f` now holds `v`; the other inputs,
        the flags and every other field's error stay as they were, and the
        error of `f`, if any, is gone. The inputs are only rendered while the
        thank-you panel is not, but they stay enabled while a send is in
        flight. */
    method Edit(f: Field, v: string)
      requires Valid() && !isSubmitted
      modifies this
      ensures Valid()
      ensures formState.Get(f) == v
      ensures forall g | g != f :: formState.Get(g) == old(formState).Get(g)
      ensures f !in errors
      ensures forall g | g != f :: (g in errors <==> g in old(errors))
      ensures forall g | g != f && g in errors :: errors[g] == old(errors)[g]
      ensures isSubmitting == old(isSubmitting) && isSubmitted == old(isSubmitted)
    {
      formState := formState.With(f, v);
      if f in errors {
        errors := errors - {f};
      }
    }

    /** `handleSubmit` up to its `await`: the error map is replaced by the
        validator's verdict on the form; a request is issued exactly when the
        form is valid and the environment is configured, and it carries the
        form as it stands; a send is then in flight and nothing else has
        changed. The button is disabled while a send is in flight and the form
        is not rendered while the thank-you panel is. */
    method Submit(config: Config) returns (request: Option<Request>)
      requires Valid() && !isSubmitting && !isSubmitted
      modifies this
      ensures Valid()
      ensures errors == Validate(old(formState))
      ensures formState == old(formState) && !isSubmitted
      ensures request.Some? <==> IsValid(formState) && Configured(config)
      ensures request.Some? ==>
        request.value == Request(config.serviceId.value, config.templateId.value, config.publicKey.value, formState)
      ensures isSubmitting == request.Some?
      ensures CurrentStatus() == if request.Some? then Submitting else Idle
    {
      errors := Validate(formState);
      ValidateFollowsRules(formState);
      if |errors| != 0 {
        return None;
      }
      isSubmitting := true;
      if !Configured(config) {
        isSubmitting := false;
        return None;
      }
      request := Some(Request(config.serviceId.value, config.templateId.value, config.publicKey.value, formState));
    }

    /** The rest of `handleSubmit`, once the relay has answered: on success
        the thank-you panel is shown and all four inputs are emptied (edits
        made while the send was in flight included); on failure the inputs
        and the panel flag are left as they are. Either way the send is no
        longer in flight and the errors are untouched. */
    method Complete(succeeded: bool)
      requires Valid() && isSubmitting
      modifies this
      ensures Valid()
      ensures !isSubmitting && errors == old(errors)
      ensures succeeded ==> isSubmitted && formState == EmptyForm
      ensures !succeeded ==> isSubmitted == old(isSubmitted) && formState == old(formState)
      ensures CurrentStatus() == if succeeded then Submitted else Idle
    {
      if succeeded {
        isSubmitted := true;
        formState := EmptyForm;
      }
      isSubmitting := false;
    }

    /** The timer scheduled on success fires: the form is shown again and
        nothing else changes. It is pending exactly while the panel is shown. */
    method Tick()
      requires Valid() && isSubmitted
      modifies this
      ensures Valid()
      ensures !isSubmitted
      ensures formState == old(formState) && errors == old(errors) && isSubmitting == old(isSubmitting)
      ensures CurrentStatus() == Idle
    {
      isSubmitted := false;
    }
  }

  /** One visit: fill in the form with a valid message, submit it, let the
      relay answer and, after a success, let the timer fire. A request goes
      out exactly when the environment is configured; the form is emptied and
      the panel shown only after a successful send, and the timer then brings
      the form back. */
  method Visit(config: Config, succeeded: bool)
    returns (request: Option<Request>, afterReply: FormState, statusAfterReply: Status, statusAfterTimer: Status)
    ensures request.Some? <==> Configured(config)
    ensures request.Some? ==> request.value.params == FormState("Ann", "ann@example.com", "Hi", "Hello")
    ensures Configured(config) && succeeded ==>
      afterReply == EmptyForm && statusAfterReply == Submitted && statusAfterTimer == Idle
    ensures !(Configured(config) && succeeded) ==>
      afterReply == FormState("Ann", "ann@example.com", "Hi", "Hello")
      && statusAfterReply == Idle && statusAfterTimer == Idle
  {
    var form := new ContactSection();
    form.Edit(FromName, "Ann");
    form.Edit(FromEmail, "ann@example.com");
    form.Edit(Subject, "Hi");
    form.Edit(Message, "Hello");
    assert form.formState == FormState("Ann", "ann@example.com", "Hi", "Hello");
    FilledFormPasses();
    request := form.Submit(config);
    if request.Some? {
      form.Complete(succeeded);
    }
    afterReply, statusAfterReply := form.formState, form.CurrentStatus();
    if form.isSubmitted {
      form.Tick();
    }
    statusAfterTimer := form.CurrentStatus();
  }

}
