/** The "Join the Diary" form: live validation on input, and the submit handler
    that either marks the invalid fields or greets the new member and resets. */
module JoinForm {
  import opened Text
  import opened Validators

  datatype Field = Name | Email | Password

  /** The validator the script applies to each field. */
  function Validate(f: Field, value: JsString): bool {
    match f
    case Name => ValidateName(value)
    case Email => ValidateEmail(value)
    case Password => ValidatePassword(value)
  }

  /** One `<input>`: its value, the value `form.reset()` restores, and whether it
      carries `aria-invalid`. The `.error` text lives in the input's parent element
      and is not part of this model. */
  datatype Input = Input(value: JsString, defaultValue: JsString, invalid: bool)

  /** The `.form-message` box: its markup text, emptied, or the thank-you line. */
  datatype Message = Markup | Blank | Thanks(username: JsString)

  /** The form; None stands for an input or message box the markup lacks. */
  datatype FormView = FormView(
    name: Option<Input>, email: Option<Input>, password: Option<Input>,
    message: Option<Message>)

  function Get(v: FormView, f: Field): Option<Input> {
    match f
    case Name => v.name
    case Email => v.email
    case Password => v.password
  }

  /** Whether submitting `v` succeeds: every input is present and valid. */
  predicate AllValid(v: FormView) {
    forall f: Field :: Get(v, f).Some? && Validate(f, Get(v, f).value.value)
  }

  /** The input's value, None when the input is missing. */
  function ValueOf(i: Option<Input>): Option<JsString> {
    match i
    case None => None
    case Some(x) => Some(x.value)
  }

  function ClearError(i: Option<Input>): Option<Input> {
    match i
    case None => None
    case Some(x) => Some(x.(invalid := false))
  }

  function ShowError(i: Option<Input>): Option<Input> {
    match i
    case None => None
    case Some(x) => Some(x.(invalid := true))
  }

  function ResetInput(i: Option<Input>): Option<Input> {
    match i
    case None => None
    case Some(x) => Some(x.(value := x.defaultValue))
  }

  /** clearError on the input, then showError when the validator rejects it: the
      value is kept, and the error shows exactly for a rejected value. */
  function Revalidate(i: Option<Input>, f: Field): (r: Option<Input>)
    ensures r.Some? == i.Some?
    ensures i.Some? ==> r.value.value == i.value.value && r.value.defaultValue == i.value.defaultValue
    ensures i.Some? ==> (r.value.invalid <==> !Validate(f, i.value.value))
  {
    match i
    case None => None
    case Some(x) => Some(x.(invalid := !Validate(f, x.value)))
  }

  /** The user edits field `f` to `value` and its input handler runs. An input the
      markup lacks has no handler, so nothing happens. */
  function AfterInput(v: FormView, f: Field, value: JsString): (w: FormView)
    ensures forall g: Field :: Get(w, g).Some? == Get(v, g).Some?
    ensures Get(v, f).Some? ==> Get(w, f).value.value == value
    ensures Get(v, f).Some? ==> (Get(w, f).value.invalid <==> !Validate(f, value))
    ensures Get(v, f).Some? ==> Get(w, f).value.defaultValue == Get(v, f).value.defaultValue
    ensures forall g: Field | g != f :: Get(w, g) == Get(v, g)
    ensures w.message == v.message
  {
    var edited := match Get(v, f)
      case None => None
      case Some(x) => Revalidate(Some(x.(value := value)), f);
    match f
    case Name => v.(name := edited)
    case Email => v.(email := edited)
    case Password => v.(password := edited)
  }

  /** What submitting does to one input: it is still present or still missing, its
      error is shown exactly when its validator rejects the submitted value, and its
      value is reset to the default on success and kept otherwise. */
  predicate Resubmitted(before: Option<Input>, after: Option<Input>, f: Field, success: bool) {
    && after.Some? == before.Some?
    && (before.Some? ==>
        && after.value.invalid == !Validate(f, before.value.value)
        && after.value.defaultValue == before.value.defaultValue
        && after.value.value == if success then before.value.defaultValue else before.value.value)
  }

  /** AllValid spelled out field by field, as the handler tests it. */
  lemma AllValidFields(v: FormView)
    ensures AllValid(v) <==>
      && v.name.Some? && ValidateName(v.name.value.value)
      && v.email.Some? && ValidateEmail(v.email.value.value)
      && v.password.Some? && ValidatePassword(v.password.value.value)
  {
    assert Get(v, Name) == v.name && Get(v, Email) == v.email && Get(v, Password) == v.password;
  }

  /** One input after submit: checked, then reset when the whole form passed. */
  function SubmitInput(i: Option<Input>, f: Field, success: bool): (r: Option<Input>)
    ensures Resubmitted(i, r, f, success)
  {
    if success then ResetInput(Revalidate(i, f)) else Revalidate(i, f)
  }

  /** The per-input facts gathered over the three fields. */
  lemma ResubmittedEach(v: FormView, w: FormView, success: bool)
    requires Resubmitted(v.name, w.name, Name, success)
    requires Resubmitted(v.email, w.email, Email, success)
    requires Resubmitted(v.password, w.password, Password, success)
    ensures forall f: Field :: Resubmitted(Get(v, f), Get(w, f), f, success)
  {
    forall f: Field ensures Resubmitted(Get(v, f), Get(w, f), f, success) {
      match f
      case Name =>
      case Email =>
      case Password =>
    }
  }

  /** The submit handler on `v`: errors and message cleared, every field checked;
      on success the thank-you message and a reset. */
  function AfterSubmit(v: FormView): (w: FormView)
    ensures forall f: Field :: Resubmitted(Get(v, f), Get(w, f), f, AllValid(v))
    ensures w.message.Some? == v.message.Some?
    ensures v.message.Some? && AllValid(v) ==> w.message == Some(Thanks(Username(ValueOf(v.name))))
    ensures v.message.Some? && !AllValid(v) ==> w.message == Some(Blank)
  {
    var ok := AllValid(v);
    var w := FormView(
      SubmitInput(v.name, Name, ok), SubmitInput(v.email, Email, ok), SubmitInput(v.password, Password, ok),
      if v.message.None? then None
      else if ok then Some(Thanks(Username(ValueOf(v.name))))
      else Some(Blank));
    ResubmittedEach(v, w, ok);
    w
  }

  /** A successful submit greets the member by the first word of the trimmed name,
      read before the reset: never the 'Friend' fallback, and only letters and
      whitespace, so no markup reaches the message's innerHTML. */
  lemma SubmitGreeting(v: FormView)
    requires AllValid(v) && v.message.Some?
    ensures v.name.Some?
    ensures var w := AfterSubmit(v);
      && w.message == Some(Thanks(FirstToken(Trim(v.name.value.value))))
      && w.message.value.username != []
      && LESS_THAN !in w.message.value.username
  {
    assert Validate(Name, Get(v, Name).value.value);
    ValidNameGreeting(v.name.value.value);
  }

  /** A failed submit leaves no error flag from earlier: submitting twice is
      submitting once. */
  lemma SubmitFailureIdempotent(v: FormView)
    requires !AllValid(v)
    ensures AfterSubmit(AfterSubmit(v)) == AfterSubmit(v)
  {
    var w := AfterSubmit(v);
    assert !AllValid(w) by {
      var f: Field :| !(Get(v, f).Some? && Validate(f, Get(v, f).value.value));
      assert Resubmitted(Get(v, f), Get(w, f), f, false);
    }
  }

  class Form {
    var name: Option<Input>
    var email: Option<Input>
    var password: Option<Input>
    var message: Option<Message>

    function View(): FormView
      reads this
    {
      FormView(name, email, password, message)
    }

    constructor (v: FormView)
      ensures View() == v
    {
      name, email, password, message := v.name, v.email, v.password, v.message;
    }

    /** The input handler of field `f` after the user edited it to `value`. */
    method OnInput(f: Field, value: JsString)
      modifies this
      ensures View() == AfterInput(old(View()), f, value)
    {
      match f
      case Name =>
        if name.Some? {
          name := ClearError(Some(name.value.(value := value)));
          if !ValidateName(value) { name := ShowError(name); }
        }
      case Email =>
        if email.Some? {
          email := ClearError(Some(email.value.(value := value)));
          if !ValidateEmail(value) { email := ShowError(email); }
        }
      case Password =>
        if password.Some? {
          password := ClearError(Some(password.value.(value := value)));
          if !ValidatePassword(value) { password := ShowError(password); }
        }
    }

    /** The submit handler (the browser's own submission is always prevented). */
    method OnSubmit()
      modifies this
      ensures View() == AfterSubmit(old(View()))
    {
      ghost var before := View();
      AllValidFields(before);
      // clear prior messages
      name, email, password := ClearError(name), ClearError(email), ClearError(password);
      if message.Some? {
        message := Some(Blank);
      }

      var valid := true;
      if name.None? || !ValidateName(name.value.value) {
        name := ShowError(name);
        valid := false;
      }
      if email.None? || !ValidateEmail(email.value.value) {
        email := ShowError(email);
        valid := false;
      }
      if password.None? || !ValidatePassword(password.value.value) {
        password := ShowError(password);
        valid := false;
      }
      assert name == Revalidate(before.name, Name);
      assert email == Revalidate(before.email, Email);
      assert password == Revalidate(before.password, Password);
      assert valid == AllValid(before);
      if !valid {
        return;
      }

      var username := Username(ValueOf(name));
      if message.Some? {
        message := Some(Thanks(username));
      }
      name, email, password := ResetInput(name), ResetInput(email), ResetInput(password);
    }
  }
}
