/** The signup form: its validator, its submit handler as one transition of
    the form state driven by the request's outcome, and its field-edit
    handler. */
module SignUpForm {
  import opened Wrappers
  import opened JsText
  import opened Forms
  import EmailPattern
  import Cookies

  const SignupFailed: string := "Signup failed"
  const UnexpectedError: string := "An unexpected error occurred."

  /** `validateForm`: the e-mail and the password are checked independently,
      so both errors can be reported at once. */
  function ValidateForm(data: FormData): (e: FormErrors)
    ensures ValidatorSpec(data, e)
    ensures KeyCount(e) == 0 <==> Acceptable(data)
  {
    var email :=
      if data.email == "" then Some(EmailRequired)
      else if !EmailPattern.IsEmailLike(data.email) then Some(EmailInvalid)
      else None;
    var password :=
      if data.password == "" then Some(PasswordRequired)
      else if Utf16Length(data.password) < MinPasswordLength then Some(PasswordTooShort)
      else None;
    FormErrors(email, password)
  }

  /** A password of three emoji is three code points but six UTF-16 code
      units, so it is long enough. */
  lemma AstralPasswordAccepted()
    ensures ValidateForm(FormData("a@b.co", "\U{1F600}\U{1F600}\U{1F600}")).password == None
  {
    AstralLength();
  }

  /** `handleSubmit`, from the submit event to the settled state. Data that
      fails validation only stores the errors and sends nothing. Otherwise
      the errors are cleared, the credentials are posted, and `outcome` is
      what came of it: a success authenticates the page, writes the auth
      cookie and navigates home; a failure shows the server's error or a
      default; an exception shows a generic message. Loading always ends. */
  function HandleSubmit(st: FormState, outcome: Outcome): (s: Submission)
    ensures s.request.None? <==> !Acceptable(st.data)
    ensures s.request.None? ==> && KeyCount(s.state.errors) > 0
                                && ValidatorSpec(st.data, s.state.errors)
                                && s.state == st.(errors := s.state.errors)
    ensures s.request.Some? ==> && s.request.value == SignupRequest(st.data.email, st.data.password)
                                && s.state.data == st.data
                                && s.state.errors == NoErrors
                                && !s.state.isLoading
    ensures s.request.Some? && outcome.Response? && outcome.success ==>
              && s.state.authenticated
              && s.state.cookie == Some(Cookies.AuthCookie)
              && s.state.route == Some("/")
              && s.state.message == st.message
    ensures s.request.Some? && outcome.Response? && !outcome.success ==>
              && s.state.authenticated == st.authenticated
              && s.state.cookie == st.cookie && s.state.route == st.route
              && s.state.message == Some(OrElse(outcome.error, SignupFailed))
    ensures s.request.Some? && outcome.Exception? ==>
              && s.state.authenticated == st.authenticated
              && s.state.cookie == st.cookie && s.state.route == st.route
              && s.state.message == Some(UnexpectedError)
  {
    var errors := ValidateForm(st.data);
    if KeyCount(errors) > 0 then Submission(st.(errors := errors), None)
    else
      var request := SignupRequest(st.data.email, st.data.password);
      var pending := st.(errors := NoErrors, isLoading := true);
      var settled :=
        match outcome
        case Response(success, error) =>
          if success then pending.(authenticated := true, cookie := Some(Cookies.AuthCookie), route := Some("/"))
          else pending.(message := Some(OrElse(error, SignupFailed)))
        case Exception => pending.(message := Some(UnexpectedError));
      Submission(settled.(isLoading := false), Some(request))
  }

  /** `handleChange` for the input named `field`. */
  function HandleChange(st: FormState, field: Field, value: string): (r: FormState)
    ensures ChangeSpec(st, field, value, r)
  {
    var errors := if Shown(st.errors, field) then SetError(st.errors, field, Some("")) else st.errors;
    st.(data := SetData(st.data, field, value), errors := errors)
  }

  /** A submission never logs the page out, and a written auth cookie always
      comes with the authenticated flag. */
  lemma SubmitKeepsSession(st: FormState, outcome: Outcome)
    requires CookieImpliesAuthenticated(st)
    ensures st.authenticated ==> HandleSubmit(st, outcome).state.authenticated
    ensures CookieImpliesAuthenticated(HandleSubmit(st, outcome).state)
  {
  }

  /** The page becomes authenticated by a submission exactly when the data
      was acceptable and the server answered with success. */
  lemma SubmitAuthenticatesIff(st: FormState, outcome: Outcome)
    requires !st.authenticated
    ensures HandleSubmit(st, outcome).state.authenticated <==>
              Acceptable(st.data) && outcome.Response? && outcome.success
  {
  }

  /** A successful signup response leaves the page authenticated and on the
      task list, and the string assigned to `document.cookie`, attributes
      included, parses to `auth` = `true`. */
  lemma SuccessfulSignup(st: FormState, error: Option<string>)
    requires Acceptable(st.data)
    ensures var s := HandleSubmit(st, Response(true, error)).state;
            && s.authenticated && s.route == Some("/")
            && s.cookie.Some? && Cookies.GetCookie(s.cookie.value, "auth") == Some("true")
  {
    Cookies.AuthCookieReadsTrue();
  }

  /** The signup scenario end to end: a freshly mounted form, the two inputs
      typed in, and a `{success: true}` response. The credentials are posted
      as typed, and the page ends authenticated on the task list with the
      auth cookie written. */
  lemma SignupScenario(email: string, password: string)
    requires Acceptable(FormData(email, password))
    ensures var typed := HandleChange(HandleChange(Initial(false), Email, email), Password, password);
            var s := HandleSubmit(typed, Response(true, None));
            && s.request == Some(SignupRequest(email, password))
            && s.state.authenticated && !s.state.isLoading
            && s.state.cookie == Some(Cookies.AuthCookie) && s.state.route == Some("/")
  {
  }
}
