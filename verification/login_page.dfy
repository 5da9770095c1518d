/** The login page: `validateForm`, which checks both fields and leaves one
    message (or none) per field, and the gate in `handleSubmit` that
    dispatches `login` only for a valid form. */
module LoginPage {
  import opened Wrappers
  import opened FormRules

  datatype LoginForm = LoginForm(email: string, password: string)

  /** The two error messages the page shows; "" is no error. */
  datatype LoginErrors = LoginErrors(email: string, password: string)

  const NoErrors := LoginErrors("", "")

  /** What `login` is dispatched with. */
  datatype Credentials = Credentials(email: string, password: string)

  /** The forms the page accepts, stated as one condition: a matching email
      and any non-empty password (there is no length rule at login). */
  ghost predicate Acceptable(form: LoginForm) {
    MatchesEmailPattern(form.email) && form.password != ""
  }

  /** `validateForm`: both fields are reset, then both are checked; the form
      is valid exactly when neither got a message. */
  method ValidateForm(form: LoginForm) returns (errors: LoginErrors, isValid: bool)
    ensures errors.email ==
      if form.email == "" then EmailRequired
      else if !MatchesEmailPattern(form.email) then EmailInvalid
      else ""
    ensures errors.password == (if form.password == "" then PasswordRequired else "")
    ensures isValid <==> errors == NoErrors
    ensures isValid <==> Acceptable(form)
  {
    isValid := true;
    var emailError, passwordError := "", "";

    if form.email == "" {
      emailError := EmailRequired;
      isValid := false;
    } else if !MatchesEmailPattern(form.email) {
      emailError := EmailInvalid;
      isValid := false;
    }

    if form.password == "" {
      passwordError := PasswordRequired;
      isValid := false;
    }

    errors := LoginErrors(emailError, passwordError);
  }

  /** `handleSubmit`: `login` is dispatched with the entered email and
      password exactly when the form validates. */
  method HandleSubmit(form: LoginForm) returns (dispatched: Option<Credentials>)
    ensures dispatched.Some? <==> Acceptable(form)
    ensures dispatched.Some? ==> dispatched.value == Credentials(form.email, form.password)
  {
    var _, isValid := ValidateForm(form);
    if !isValid {
      return None;
    }
    dispatched := Some(Credentials(form.email, form.password));
  }
}
