/** How the two forms relate: the duplicated validator and field-edit
    handler behave the same, the submit handlers agree on the session they
    leave behind, and they differ where loading and the message are
    concerned. */
module CompareForms {
  import opened Wrappers
  import opened Forms
  import SignUpForm
  import LoginForm

  /** The two copies of `validateForm` are the same function. */
  lemma ValidatorsAgree(data: FormData)
    ensures SignUpForm.ValidateForm(data) == LoginForm.ValidateForm(data)
  {
  }

  /** The two copies of `handleChange` are the same function. */
  lemma ChangeHandlersAgree(st: FormState, field: Field, value: string)
    ensures SignUpForm.HandleChange(st, field, value) == LoginForm.HandleChange(st, field, value)
  {
  }

  /** Both forms refuse the same data, store the same errors, and leave the
      page's session flag and cookie in the same state for every outcome. */
  lemma SubmitsAgreeOnSession(st: FormState, outcome: Outcome)
    ensures var s, l := SignUpForm.HandleSubmit(st, outcome), LoginForm.HandleSubmit(st, outcome);
            && s.request.None? == l.request.None?
            && s.state.errors == l.state.errors
            && s.state.authenticated == l.state.authenticated
            && s.state.cookie == l.state.cookie
  {
  }

  /** After an exception the signup form stops loading and shows a message;
      the login form stays loading, so its submit button stays disabled,
      and shows no new message. */
  lemma ExceptionDiffers(st: FormState)
    requires Acceptable(st.data)
    ensures !SignUpForm.HandleSubmit(st, Exception).state.isLoading
    ensures SignUpForm.HandleSubmit(st, Exception).state.message == Some(SignUpForm.UnexpectedError)
    ensures LoginForm.HandleSubmit(st, Exception).state.isLoading
    ensures LoginForm.HandleSubmit(st, Exception).state.message == st.message
  {
  }

  /** After a successful response the signup form keeps its message and
      navigates home; the login form replaces the message with the
      response's `error`, absent or not, and stays where it is. */
  lemma SuccessDiffers(st: FormState, error: Option<string>)
    requires Acceptable(st.data)
    ensures SignUpForm.HandleSubmit(st, Response(true, error)).state.message == st.message
    ensures SignUpForm.HandleSubmit(st, Response(true, error)).state.route == Some("/")
    ensures LoginForm.HandleSubmit(st, Response(true, error)).state.message == error
    ensures LoginForm.HandleSubmit(st, Response(true, error)).state.route == st.route
  {
  }
}
