/** The login form: the same validator and field-edit handler as the signup
    form, and a submit handler that differs from signup's in what it does
    after the request. */
module LoginForm {
  import opened Wrappers
  import opened JsText
  import opened Forms
  import EmailPattern
  import Cookies

  /** `validateForm`, a copy of the signup form's. */
  function ValidateForm(data: FormData): (e: FormErrors)
    ensures ValidatorSpec(data, e)
    ensures KeyCount(e) == 0 <==> Acceptable(data)
  {
    var email :=
      if data.email == "" then Some(EmailRequired)
      else if !EmailPattern.IsEmailLike(data.email) then Some(EmailInvalid)
      else None;
    var password :=
      if data.password == "" then Some(PasswordRequired)
      else if Utf16Length(data.password) < MinPasswordLength then Some(PasswordTooShort)
      else None;
    FormErrors(email, password)
  }

  /** `handleSubmit`. The validation gate is the signup form's. After a
      response, success or not, loading ends and the message becomes the
      response's `error`, which may be absent; only a success authenticates
      and writes the cookie, and nothing navigates. After an exception the
      form stays loading and the message is left as it was. */
  function HandleSubmit(st: FormState, outcome: Outcome): (s: Submission)
    ensures s.request.None? <==> !Acceptable(st.data)
    ensures s.request.None? ==> && KeyCount(s.state.errors) > 0
                                && ValidatorSpec(st.data, s.state.errors)
                                && s.state == st.(errors := s.state.errors)
    ensures s.request.Some? ==> && s.request.value == LoginRequest(st.data.email, st.data.password)
                                && s.state.data == st.data
                                && s.state.errors == NoErrors
                                && s.state.route == st.route
    ensures s.request.Some? && outcome.Response? ==>
              && !s.state.isLoading
              && s.state.message == outcome.error
              && (outcome.success ==> s.state.authenticated && s.state.cookie == Some(Cookies.AuthCookie))
              && (!outcome.success ==> s.state.authenticated == st.authenticated && s.state.cookie == st.cookie)
    ensures s.request.Some? && outcome.Exception? ==>
              && s.state.isLoading
              && s.state.message == st.message
              && s.state.authenticated == st.authenticated && s.state.cookie == st.cookie
  {
    var errors := ValidateForm(st.data);
    if KeyCount(errors) > 0 then Submission(st.(errors := errors), None)
    else
      var request := LoginRequest(st.data.email, st.data.password);
      var pending := st.(errors := NoErrors, isLoading := true);
      var settled :=
        match outcome
        case Response(success, error) =>
          var signedIn := if success then pending.(authenticated := true, cookie := Some(Cookies.AuthCookie)) else pending;
          signedIn.(isLoading := false, message := error)
        case Exception => pending;
      Submission(settled, Some(request))
  }

  /** `handleChange`, a copy of the signup form's. */
  function HandleChange(st: FormState, field: Field, value: string): (r: FormState)
    ensures ChangeSpec(st, field, value, r)
  {
    var errors := if Shown(st.errors, field) then SetError(st.errors, field, Some("")) else st.errors;
    st.(data := SetData(st.data, field, value), errors := errors)
  }

  /** A submission never logs the page out, and a written auth cookie always
      comes with the authenticated flag. */
  lemma SubmitKeepsSession(st: FormState, outcome: Outcome)
    requires CookieImpliesAuthenticated(st)
    ensures st.authenticated ==> HandleSubmit(st, outcome).state.authenticated
    ensures CookieImpliesAuthenticated(HandleSubmit(st, outcome).state)
  {
  }

  /** The login scenario: "bad-email" with password "123" is refused with
      both field errors, and no request is sent. */
  lemma BadCredentialsScenario(st: FormState, outcome: Outcome)
    requires st.data == FormData("bad-email", "123")
    ensures HandleSubmit(st, outcome).request.None?
    ensures HandleSubmit(st, outcome).state.errors == FormErrors(Some(EmailInvalid), Some(PasswordTooShort))
  {
  }
}
