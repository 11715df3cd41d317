/** The sign-up form src/components/Auth/RegisterForm.tsx: the five text fields, the
    password checks made before `register` is called, and the loading flag and
    error alert around that call. The call itself belongs to the authentication
    context; its outcome is passed in. */
module RegisterForm {
  import opened Common

  /** The form's fields. */
  datatype Field = Email | Password | ConfirmPassword | Name | Surname

  /** `formData`. */
  datatype RegForm = RegForm(email: string, password: string, confirmPassword: string, name: string, surname: string)

  const EmptyRegForm := RegForm("", "", "", "", "")

  /** The component's state: the fields, the loading flag and the error alert. */
  datatype RegState = RegState(data: RegForm, loading: bool, error: Option<string>)

  const Initial := RegState(EmptyRegForm, false, None)

  const MismatchMessage := "Passwords do not match"
  const TooShortMessage := "Password must be at least 8 characters long and contain uppercase, lowercase and numbers"
  const FailedMessage := "Registration failed"
  const MinLength := 8

  /** The object handed to `register`: everything but the confirmation. */
  datatype Registration = Registration(email: string, password: string, name: string, surname: string)

  /** handleSubmit up to the `await`: the state and the call to `register`, if any. */
  datatype SubmitStep = SubmitStep(state: RegState, request: Option<Registration>)

  /** The value of one field. */
  function Value(d: RegForm, f: Field): string {
    match f
    case Email => d.email
    case Password => d.password
    case ConfirmPassword => d.confirmPassword
    case Name => d.name
    case Surname => d.surname
  }

  /** handleSubmit. A confirmation that differs from the password is reported first;
      then a password shorter than eight characters; in both cases loading is over
      and nothing is sent. Otherwise loading starts with the alert cleared and
      `register` is called with the entered fields. */
  function Submit(st: RegState): (r: SubmitStep)
    ensures r.request.Some? <==> st.data.password == st.data.confirmPassword && |st.data.password| >= MinLength
    ensures st.data.password != st.data.confirmPassword ==>
      r.state == st.(loading := false, error := Some(MismatchMessage))
    ensures st.data.password == st.data.confirmPassword && |st.data.password| < MinLength ==>
      r.state == st.(loading := false, error := Some(TooShortMessage))
    ensures r.request.Some? ==> r.state == st.(loading := true, error := None)
    ensures r.request.Some? ==>
      var q := r.request.value;
      q.email == st.data.email && q.name == st.data.name && q.surname == st.data.surname &&
      q.password == st.data.password && q.password == st.data.confirmPassword
    ensures r.state.data == st.data
  {
    var d := st.data;
    if d.password != d.confirmPassword then
      SubmitStep(st.(loading := false, error := Some(MismatchMessage)), None)
    else if |d.password| < MinLength then
      SubmitStep(st.(loading := false, error := Some(TooShortMessage)), None)
    else
      SubmitStep(st.(loading := true, error := None), Some(Registration(d.email, d.password, d.name, d.surname)))
  }

  /** How `register` settled: it resolved, or it threw an error carrying a message,
      if any. */
  datatype RegisterOutcome = Registered | Rejected(message: Option<string>)

  /** handleSubmit after the `await`: the error's message, or the fallback when it has
      none, is shown; loading is over either way. */
  function Settle(st: RegState, outcome: RegisterOutcome): (r: RegState)
    ensures !r.loading && r.data == st.data
    ensures outcome.Registered? ==> r.error == st.error
    ensures outcome.Rejected? && Truthy(outcome.message) ==> r.error == outcome.message
    ensures outcome.Rejected? && !Truthy(outcome.message) ==> r.error == Some(FailedMessage)
  {
    match outcome
    case Registered => st.(loading := false)
    case Rejected(message) => st.(loading := false, error := Some(MessageOr(message, FailedMessage)))
  }

  /** The whole of handleSubmit: the checks, then, when `register` was called, its
      outcome. */
  function Handle(st: RegState, outcome: RegisterOutcome): RegState {
    var s := Submit(st);
    if s.request.None? then s.state else Settle(s.state, outcome)
  }

  /** handleInputChange: the edited field takes the typed text, the others keep
      theirs, and the alert goes. */
  function InputChange(st: RegState, f: Field, text: string): (r: RegState)
    ensures Value(r.data, f) == text
    ensures forall g :: g != f ==> Value(r.data, g) == Value(st.data, g)
    ensures r.error.None? && r.loading == st.loading
  {
    var d := st.data;
    var data := match f
      case Email => d.(email := text)
      case Password => d.(password := text)
      case ConfirmPassword => d.(confirmPassword := text)
      case Name => d.(name := text)
      case Surname => d.(surname := text);
    st.(data := data, error := None)
  }

  /** Submitting never leaves the form loading, and it ends without an alert exactly
      when the checks pass and `register` resolves. */
  lemma LoadingAlwaysEnds(st: RegState, outcome: RegisterOutcome)
    ensures !Handle(st, outcome).loading
    ensures Handle(st, outcome).error.None? <==>
      Submit(st).request.Some? && outcome.Registered?
  {
    if Submit(st).request.Some? && outcome.Rejected? {
      assert Handle(st, outcome).error.Some?;
    }
  }

  /** The mismatch is checked before the length: a short password that is also
      mistyped in the confirmation is reported as a mismatch. */
  lemma MismatchReportedFirst(st: RegState)
    requires |st.data.password| < MinLength && st.data.password != st.data.confirmPassword
    ensures Submit(st).state.error == Some(MismatchMessage)
    ensures Submit(st).request.None?
  {
  }

  /** Only the length is checked: the message asks for upper-case letters, lower-case
      letters and digits, yet eight lower-case letters are sent to `register`. */
  lemma LengthIsTheOnlyStrengthCheck(st: RegState)
    requires st.data.password == "aaaaaaaa" && st.data.confirmPassword == "aaaaaaaa"
    ensures Submit(st).request.Some?
    ensures forall i :: 0 <= i < |Submit(st).request.value.password| ==>
      !('A' <= Submit(st).request.value.password[i] <= 'Z') && !('0' <= Submit(st).request.value.password[i] <= '9')
  {
    assert |st.data.password| == 8;
  }

  /** Two forms that differ only in how the confirmation was mistyped, or only in the
      alert shown, are treated alike: the outcome depends on the fields and on
      whether the two passwords match. */
  lemma SubmitDependsOnFieldsOnly(a: RegState, b: RegState)
    requires a.data.email == b.data.email && a.data.password == b.data.password
    requires a.data.name == b.data.name && a.data.surname == b.data.surname
    requires (a.data.password == a.data.confirmPassword) == (b.data.password == b.data.confirmPassword)
    ensures Submit(a).request == Submit(b).request
    ensures Submit(a).state.error == Submit(b).state.error
  {
  }

  /** Fixing the confirmation after a mismatch: typing the password into it and
      submitting sends the registration when the password is long enough, and reports
      the length otherwise. */
  lemma RetypedConfirmation(st: RegState)
    requires Submit(st).state.error == Some(MismatchMessage)
    ensures var fixed := InputChange(Submit(st).state, ConfirmPassword, st.data.password);
      fixed.error.None? &&
      (Submit(fixed).request.Some? <==> |st.data.password| >= MinLength) &&
      (Submit(fixed).request.None? ==> Submit(fixed).state.error == Some(TooShortMessage))
  {
    var s := Submit(st).state;
    var fixed := InputChange(s, ConfirmPassword, st.data.password);
    assert Value(fixed.data, Password) == Value(s.data, Password) == st.data.password;
    assert fixed.data.confirmPassword == fixed.data.password;
  }
}
