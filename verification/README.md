# FluxTasks client core in Dafny

A model of the logic inside the FluxTasks web client, a small React task
tracker with e-mail and password sign-in. The model covers:

- the task list of the main page (`src/App.tsx`). `toggleTask` flips
  `completed` on the tasks with a given id. `deleteTask` drops them. The page
  also shows the completed and total counters and the progress-bar width, and
  `addTask` posts the trimmed text of the input box;
- `getCookie`, which reads a named value out of a `document.cookie` string
  (the Cookie header shape of section 4.2.1 of RFC 6265). The page uses it to
  decide whether it starts authenticated;
- the signup and login forms (`src/components/SignUpForm.tsx`,
  `src/components/LoginForm.tsx`): the validator, the submit handler and the
  field-edit handler of each form.

Every handler is one atomic, deterministic step on immutable values. A
network request appears as an `Outcome` given to the submit handler: a parsed
response `Response(success, error?)` or an `Exception`. The handler reports
the body it would post, or `None` when the validation gate stops it. The
local list updates of `toggleTask` and `deleteTask` happen whatever the PUT
or DELETE request returns, even when it throws: the responses are only
logged, so no page state depends on them.

Modules:

- `Wrappers` (`wrappers.dfy`) holds `Option`, used for absent object keys,
  `undefined` messages and failed matches.
- `JsText` (`js_text.dfy`) holds the JavaScript string semantics the code
  relies on. Whitespace is the exact ECMAScript WhiteSpace and
  LineTerminator set, which is the set matched by `\S`'s complement and
  removed by `trim`. `length` is counted in UTF-16 code units.
- `EmailPattern` (`email_pattern.dfy`) handles the unanchored pattern
  `\S+@\S+\.\S+`. `Matches` states declaratively when a match exists.
  `IsEmailLike` decides it with a six-state left-to-right scan and is proved
  equal to `Matches` on every string.
- `Cookies` (`cookies.dfy`) models `getCookie` and the initial
  `authenticated` flag.
- `Tasks` (`tasks.dfy`) models the task record and the task-list operations.
- `Forms` (`forms.dfy`) holds the form types the two components declare
  identically. It also holds the reference statement of what validation and
  `handleChange` must do.
- `SignUpForm` (`signup_form.dfy`) and `LoginForm` (`login_form.dfy`) model
  the two components.
- `CompareForms` (`compare_forms.dfy`) states where the two forms agree and
  where they differ.

Behaviours of the code that a reader might not expect, which the model
reproduces:

- `toggleTask` does not refresh `updated_at`. Only `completed` changes.
- `addTask` does not reject blank text. It posts the empty string.
- After any response, the login form replaces its message with the response's
  `error`, which may be `undefined`. After an exception it never clears
  `isLoading`, so the submit button stays disabled.
- When no task has the toggled id, reading `tasks[-1].text` throws before
  `fetch` is called. So no PUT is sent, and the local list is unchanged.
- The code has no logout.

## Model

| member | source | states |
|---|---|---|
| JsText.Trim | src/App.tsx:56 | `trim` gives a slice of its input with only whitespace cut away on either side, and neither end of the result is whitespace |
| JsText.TrimEmptyIffBlank | src/App.tsx:56 | the trimmed text is empty exactly when the input is all whitespace |
| JsText.TrimIdempotent | src/App.tsx:56 | trimming already-trimmed text changes nothing |
| JsText.Utf16Length | src/components/SignUpForm.tsx:44 | the `length` the password check uses is the number of code points plus the number of positions holding a code point above U+FFFF. So it lies between the number of code points and twice that, is 0 only for the empty string, and equals the number of code points when there are no astral characters |
| JsText.AstralLength | src/components/SignUpForm.tsx:44 | three emoji have a `length` of 6 |
| EmailPattern.IsEmailLike | src/components/SignUpForm.tsx:38 | the scan accepts a string exactly when it contains `\S+@\S+\.\S+`: an '@' with a non-whitespace character before it, then one or more non-whitespace characters, then a '.', then a non-whitespace character |
| EmailPattern.ScanIsClassify | src/components/SignUpForm.tsx:38 | after each prefix, the scan's state is the one that the prefix's pending partial match calls for |
| EmailPattern.Examples | src/components/SignUpForm.tsx:38 | "bad-email" does not match the pattern and "a@b.co" does |
| Cookies.FindKey | src/App.tsx:42 | returns the first position, at or after the start, where `name=` begins at the start of the string or after a space and is followed by a character other than ';'; there is no such position before it |
| Cookies.ValueRun | src/App.tsx:42 | the greedy `[^;]+` capture is a slice of the input, contains no ';', and stops only at a ';' or at the end |
| Cookies.GetCookie | src/App.tsx:41-44 | a value is returned exactly when some key position exists. The value is the maximal ';'-free run after the first such key and is never empty |
| Cookies.InitialAuthenticated | src/App.tsx:18-20 | the page starts authenticated exactly when the cookie string holds an `auth` key with a value |
| Cookies.PairRoundTrip | src/App.tsx:41-44 | a `name=value` pair at the head of the cookie string reads back as exactly `value`, whatever follows its ';' |
| Cookies.AuthCookieAuthenticates | src/components/LoginForm.tsx:78 | the cookie `auth=true` written by a successful login reads back as `true`, and the page then starts authenticated |
| Cookies.AuthCookieReadsTrue | src/components/SignUpForm.tsx:80 | the full written cookie string, attributes included, also reads back as `true` |
| Cookies.NotAuthenticated | src/App.tsx:41-44 | an empty cookie string, or one whose only `auth=` follows a letter rather than a space, does not authenticate |
| Tasks.Task | src/App.tsx:6-12 | the task record: a numeric id, its text, the completion flag and the two timestamps. A datatype, with no contract |
| Tasks.Flip | src/App.tsx:104 | the map callback keeps id, text and both timestamps, and negates `completed` exactly when the id matches |
| Tasks.Toggle | src/App.tsx:102-106 | same length and order. Every task keeps its id, text and both timestamps, and `completed` flips exactly on the tasks whose id matches. Every other task is returned unchanged |
| Tasks.ToggleAbsent | src/App.tsx:102-106 | toggling an id no task has leaves the list unchanged |
| Tasks.ToggleTwice | src/App.tsx:102-106 | toggling the same id twice restores the original list |
| Tasks.ToggleCompletedCount | src/App.tsx:102-131 | with distinct ids, toggling a present task changes the completed count by exactly one, in the direction of its new state |
| Tasks.FindIndexFrom | src/App.tsx:72 | the search returns a matching position at or after the start, or -1, and no earlier position matches |
| Tasks.FindIndex | src/App.tsx:72 | `findIndex` gives -1 exactly when no task has the id, and otherwise the first task with it |
| Tasks.ToggleRequest | src/App.tsx:72-94 | a PUT body is sent exactly when some task has the id. It carries the first such task's text and its inverted completion flag |
| Tasks.ToggleRequestAgrees | src/App.tsx:89-106 | with distinct ids, the PUT body describes the same text and completion state that the local list shows after the toggle |
| Tasks.Delete | src/App.tsx:127 | the result contains exactly the tasks of the input whose id differs from the argument, each as many times as in the input, and none with the id; it is no longer than the input |
| Tasks.DeleteKeepsOrder | src/App.tsx:127 | the tasks kept after a delete stay in their original relative order |
| Tasks.DeleteAbsent | src/App.tsx:127 | deleting an id no task has leaves the list unchanged |
| Tasks.DeleteRemovesOne | src/App.tsx:127 | with distinct ids, deleting a present id removes exactly one task |
| Tasks.Completed | src/App.tsx:130 | the completed filter keeps every completed task as many times as the list holds it, and no other task; it is no longer than the list |
| Tasks.CompletedKeepsOrder | src/App.tsx:130 | the completed tasks keep their original relative order |
| Tasks.CompletedMembers | src/App.tsx:130 | the completed filter keeps exactly the completed tasks |
| Tasks.CompletedCount | src/App.tsx:130-131 | the completed count never exceeds the total count |
| Tasks.TotalCount | src/App.tsx:131 | the total is never below the completed count, and is 0 exactly for the empty list |
| Tasks.CompletedCountIsCardinality | src/App.tsx:130 | the completed count is the number of positions that hold a completed task |
| Tasks.CompletedCountExtremes | src/App.tsx:130-131 | the count equals the total exactly when all tasks are completed, and is 0 exactly when none is |
| Tasks.ProgressPercent | src/App.tsx:165-168 | the width lies in [0, 100]. With tasks it is completed/total × 100. It is 0 exactly when nothing is completed, which includes the empty list, and 100 exactly when a non-empty list is all completed |
| Tasks.AddTask | src/App.tsx:55-66 | the posted text is the input with surrounding whitespace cut off and has no whitespace at either end, and the input box is reset to "" |
| Tasks.AddTaskBlank | src/App.tsx:56 | blank input is not rejected: it is posted as the empty string, and only blank input posts that |
| Forms.Initial | src/components/SignUpForm.tsx:21-29 | a mounted form has empty fields that validation refuses, no errors, no loading and an empty message; the page's flag is passed through and no cookie or route is written |
| Forms.KeyCount | src/components/SignUpForm.tsx:55 | the number of error keys is at most 2 and is 0 exactly for the empty error record |
| Forms.OrElse | src/components/SignUpForm.tsx:84 | `a \|\| b` yields the default or the given message; a present non-empty message wins, and the result is empty only when the default is |
| Forms.Shown | src/components/SignUpForm.tsx:103 | the truthiness test on a field's error: present and non-empty. A predicate, with no contract |
| SignUpForm.ValidateForm | src/components/SignUpForm.tsx:33-49 | an empty e-mail is "required". An e-mail that does not match the pattern is "invalid", and a matching one has no error. An empty password is "required", one shorter than 6 is "too short", and one of 6 or more has no error. The record is empty exactly when both are acceptable |
| SignUpForm.AstralPasswordAccepted | src/components/SignUpForm.tsx:42-46 | a password of three emoji has no error: its UTF-16 `length` is 6 |
| SignUpForm.HandleSubmit | src/components/SignUpForm.tsx:51-93 | rejected data stores its errors and sends nothing, with nothing else changed. Otherwise the credentials are posted, errors are cleared, and loading ends. Success authenticates, writes the auth cookie and routes to "/". Failure shows `error` or "Signup failed". An exception shows "An unexpected error occurred." |
| SignUpForm.HandleChange | src/components/SignUpForm.tsx:95-109 | sets only the named field and hides only that field's error, by setting it to "" when it was shown. The other field and its error and all other state are untouched |
| SignUpForm.SubmitKeepsSession | src/components/SignUpForm.tsx:78-85 | a submission never clears `authenticated`, and a written auth cookie always comes with the flag set |
| SignUpForm.SubmitAuthenticatesIff | src/components/SignUpForm.tsx:51-85 | an unauthenticated page becomes authenticated exactly when the data is acceptable and the response reports success |
| SignUpForm.SuccessfulSignup | src/components/SignUpForm.tsx:78-82 | after a success, the page is authenticated and routed to "/", and the assigned cookie string, attributes included, parses to `auth` = `true` |
| SignUpForm.SignupScenario | src/components/SignUpForm.tsx:21-109 | from a freshly mounted form, typing acceptable credentials and receiving a success posts exactly those credentials and ends authenticated, not loading, with the auth cookie and on "/" |
| LoginForm.ValidateForm | src/components/LoginForm.tsx:29-45 | the same per-field rules and messages as the signup validator |
| LoginForm.HandleSubmit | src/components/LoginForm.tsx:47-88 | rejected data stores its errors and sends nothing. Otherwise `username`/`password` are posted. After any response, loading ends and the message becomes `error`, possibly absent. Only success authenticates and writes the cookie. After an exception the form stays loading, with message and session unchanged |
| LoginForm.HandleChange | src/components/LoginForm.tsx:90-105 | sets only the named field and hides only that field's error, leaving everything else untouched |
| LoginForm.SubmitKeepsSession | src/components/LoginForm.tsx:75-81 | a login submission never clears `authenticated`, and a written auth cookie always comes with the flag set |
| LoginForm.BadCredentialsScenario | src/components/LoginForm.tsx:29-54 | "bad-email" with password "123" is refused with both the invalid-e-mail and the too-short errors, and no request is sent |
| CompareForms.ValidatorsAgree | src/components/LoginForm.tsx:29-45 | the login and signup validators return the same record on every input |
| CompareForms.ChangeHandlersAgree | src/components/LoginForm.tsx:90-105 | the login and signup field-edit handlers are the same transition |
| CompareForms.SubmitsAgreeOnSession | src/components/LoginForm.tsx:47-88 | both forms refuse the same data with the same errors. For every outcome they leave the same `authenticated` flag and cookie |
| CompareForms.ExceptionDiffers | src/components/LoginForm.tsx:85-87 | after an exception the signup form stops loading and shows its message. The login form stays loading and keeps its old message |
| CompareForms.SuccessDiffers | src/components/LoginForm.tsx:75-84 | after a success the signup form keeps its message and routes to "/". The login form replaces the message with `error` and does not navigate |

## Left out

- Rendering is not modelled: the JSX, icons, the theme toggle and its
  `data-theme` attribute, the show-password toggle, and the `disabled`
  attribute of the submit button.
- `fetch`, JSON parsing, the API base URL, request headers and console
  logging are I/O. A submission's request is the `Outcome` parameter. The
  PUT and DELETE requests of `toggleTask` and `deleteTask` do not influence
  the local update, which is made whatever happens.
- The initial task load and the reload after `addTask` are not modelled.
  The list they install is whatever the server sends.
- Overlapping handlers and the stale `tasks` captured by their closures are
  not modelled. Each handler is one atomic step.
- The progress width is exact rational arithmetic (`real`), not a
  floating-point number formatted into a string.
- Names given to `getCookie` are matched literally. The source puts them
  into a regular expression unescaped, which matters only for names with
  metacharacters; the only caller passes `auth`.
- How the browser turns the string assigned to `document.cookie` into the
  string read back on the next load is not modelled. `cookie` records the
  last string written.
- `data.success` is a boolean, and `data.error` an optional string. The
  loose `==` of the login form and the strict `===` of the signup form
  therefore agree.
- `handleChange` takes one of the two input names, `email` or `password`.
  A `name` attribute other than these is not modelled.
- Navigation is recorded as the target path only.
- The cookie-consent banner (`src/components/CookieBanner.tsx`) only shows
  or hides itself from a `localStorage` flag.
- `App.tsx` has no logout handler, and tasks are kept only on the server.
