/** What the signup and login forms share: their form data and error
    records, the state their handlers update, the outcome of the request a
    submission sends, and the reference statement of what `validateForm`
    must return. Both components declare these types separately, with the
    same shape. */
module Forms {
  import opened Wrappers
  import opened JsText
  import EmailPattern
  import Cookies

  datatype Field = Email | Password

  datatype FormData = FormData(email: string, password: string)

  /** `FormErrors`: an absent key is `None`. */
  datatype FormErrors = FormErrors(email: Option<string>, password: Option<string>)

  const NoErrors: FormErrors := FormErrors(None, None)

  const EmailRequired: string := "Email is required"
  const EmailInvalid: string := "Please enter a valid email address"
  const PasswordRequired: string := "Password is required"
  const PasswordTooShort: string := "Password must be at least 6 characters"
  const MinPasswordLength: nat := 6

  /** `Object.keys(errors).length`: one key per error present. */
  function KeyCount(e: FormErrors): (n: nat)
    ensures n <= 2
    ensures n == 0 <==> e == NoErrors
  {
    (if e.email.Some? then 1 else 0) + (if e.password.Some? then 1 else 0)
  }

  function DataOf(d: FormData, f: Field): string {
    match f
    case Email => d.email
    case Password => d.password
  }

  function SetData(d: FormData, f: Field, value: string): FormData {
    match f
    case Email => d.(email := value)
    case Password => d.(password := value)
  }

  function ErrorOf(e: FormErrors, f: Field): Option<string> {
    match f
    case Email => e.email
    case Password => e.password
  }

  function SetError(e: FormErrors, f: Field, message: Option<string>): FormErrors {
    match f
    case Email => e.(email := message)
    case Password => e.(password := message)
  }

  function Other(f: Field): Field {
    match f
    case Email => Password
    case Password => Email
  }

  /** The error is truthy: present and non-empty. The form shows exactly
      these errors. */
  predicate Shown(e: FormErrors, f: Field) {
    ErrorOf(e, f).Some? && ErrorOf(e, f).value != ""
  }

  /** JavaScript's `a || b` on an optional string: an absent or empty `a`
      falls back to `b`, so a non-empty default is never replaced by an
      empty message. */
  function OrElse(s: Option<string>, default: string): (r: string)
    ensures r == default || (s.Some? && r == s.value)
    ensures r == "" ==> default == ""
    ensures s.Some? && s.value != "" ==> r == s.value
  {
    if s.Some? && s.value != "" then s.value else default
  }

  /** What `validateForm` must return, stated against the declarative
      reading of the e-mail pattern and the UTF-16 length of the password:
      each field is checked on its own, "required" before "invalid". */
  ghost predicate ValidatorSpec(data: FormData, e: FormErrors) {
    && (data.email == "" ==> e.email == Some(EmailRequired))
    && (data.email != "" && !EmailPattern.Matches(data.email) ==> e.email == Some(EmailInvalid))
    && (EmailPattern.Matches(data.email) ==> e.email == None)
    && (data.password == "" ==> e.password == Some(PasswordRequired))
    && (data.password != "" && Utf16Length(data.password) < MinPasswordLength ==> e.password == Some(PasswordTooShort))
    && (Utf16Length(data.password) >= MinPasswordLength ==> e.password == None)
  }

  /** The data a form accepts for submission. */
  ghost predicate Acceptable(data: FormData) {
    EmailPattern.Matches(data.email) && Utf16Length(data.password) >= MinPasswordLength
  }

  /** The state the handlers of one form read and write. `authenticated` is
      the page's flag, set through `setAuthenticated`; `cookie` is the last
      string assigned to `document.cookie`; `route` is the last target given
      to `navigate`. A message set to `undefined` is `None`. */
  datatype FormState = FormState(
    data: FormData,
    errors: FormErrors,
    isLoading: bool,
    message: Option<string>,
    authenticated: bool,
    cookie: Option<string>,
    route: Option<string>)

  /** The state a form mounts with: empty fields, no errors, not loading,
      an empty message. Its empty data never passes validation, and the
      page's flag is passed through. */
  function Initial(authenticated: bool): (st: FormState)
    ensures st.data == FormData("", "") && !Acceptable(st.data)
    ensures KeyCount(st.errors) == 0 && !st.isLoading && st.message == Some("")
    ensures st.authenticated == authenticated && st.cookie == None && st.route == None
    ensures CookieImpliesAuthenticated(st)
  {
    FormState(FormData("", ""), NoErrors, false, Some(""), authenticated, None, None)
  }

  /** What the request of a submission came to: a parsed JSON response with
      its `success` flag and optional `error`, or an exception from `fetch`
      or from parsing the body. */
  datatype Outcome = Response(success: bool, error: Option<string>) | Exception

  /** The JSON body a submission posts. */
  datatype Request =
    | SignupRequest(email: string, password: string)
    | LoginRequest(username: string, password: string)

  /** The state after a submission, and the request it sent, if any. */
  datatype Submission = Submission(state: FormState, request: Option<Request>)

  /** What `handleChange` must do to a form state: set the named field, hide
      its error (setting it to the empty string when it was shown), and
      touch nothing else. */
  ghost predicate ChangeSpec(st: FormState, field: Field, value: string, r: FormState) {
    && DataOf(r.data, field) == value
    && DataOf(r.data, Other(field)) == DataOf(st.data, Other(field))
    && !Shown(r.errors, field)
    && (Shown(st.errors, field) ==> ErrorOf(r.errors, field) == Some(""))
    && (!Shown(st.errors, field) ==> ErrorOf(r.errors, field) == ErrorOf(st.errors, field))
    && ErrorOf(r.errors, Other(field)) == ErrorOf(st.errors, Other(field))
    && r.isLoading == st.isLoading && r.message == st.message
    && r.authenticated == st.authenticated && r.cookie == st.cookie && r.route == st.route
  }

  /** A written auth cookie goes with the authenticated flag. */
  predicate CookieImpliesAuthenticated(st: FormState) {
    st.cookie == Some(Cookies.AuthCookie) ==> st.authenticated
  }
}
