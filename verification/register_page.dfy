/** The registration page: `validateForm`, which checks every field and
    leaves one message (or none) per field, and the gate in `handleSubmit`
    that dispatches `register` only for a valid form. */
module RegisterPage {
  import opened Wrappers
  import opened FormRules

  const NameRequired := "El nombre es requerido"
  const PasswordTooShort := "La contraseña debe tener al menos 6 caracteres"
  const ConfirmRequired := "Por favor confirma tu contraseña"
  const PasswordsDiffer := "Las contraseñas no coinciden"
  const MinPasswordLength := 6

  datatype RegisterForm = RegisterForm(
    name: string,
    email: string,
    password: string,
    confirmPassword: string)

  /** The four error messages the page shows; "" is no error. */
  datatype RegisterErrors = RegisterErrors(
    name: string,
    email: string,
    password: string,
    confirmPassword: string)

  const NoErrors := RegisterErrors("", "", "", "")

  /** What `register` is dispatched with; the confirmation is not sent. */
  datatype RegisterRequest = RegisterRequest(name: string, email: string, password: string)

  /** The forms the page accepts, stated as one condition. */
  ghost predicate Acceptable(form: RegisterForm) {
    && form.name != ""
    && MatchesEmailPattern(form.email)
    && Utf16Length(form.password) >= MinPasswordLength
    && form.confirmPassword == form.password
  }

  /** `validateForm`: every field is reset, then checked in turn without
      short-circuit; each field gets at most its first failing rule's
      message, and the form is valid exactly when no field got one. */
  method ValidateForm(form: RegisterForm) returns (errors: RegisterErrors, isValid: bool)
    ensures errors.name == (if form.name == "" then NameRequired else "")
    ensures errors.email ==
      if form.email == "" then EmailRequired
      else if !MatchesEmailPattern(form.email) then EmailInvalid
      else ""
    ensures errors.password ==
      if form.password == "" then PasswordRequired
      else if Utf16Length(form.password) < MinPasswordLength then PasswordTooShort
      else ""
    ensures errors.confirmPassword ==
      if form.confirmPassword == "" then ConfirmRequired
      else if form.password != form.confirmPassword then PasswordsDiffer
      else ""
    ensures isValid <==> errors == NoErrors
    ensures isValid <==> Acceptable(form)
  {
    isValid := true;
    var nameError, emailError, passwordError, confirmError := "", "", "", "";

    if form.name == "" {
      nameError := NameRequired;
      isValid := false;
    }

    if form.email == "" {
      emailError := EmailRequired;
      isValid := false;
    } else if !MatchesEmailPattern(form.email) {
      emailError := EmailInvalid;
      isValid := false;
    }

    if form.password == "" {
      passwordError := PasswordRequired;
      isValid := false;
    } else if Utf16Length(form.password) < MinPasswordLength {
      passwordError := PasswordTooShort;
      isValid := false;
    }

    if form.confirmPassword == "" {
      confirmError := ConfirmRequired;
      isValid := false;
    } else if form.password != form.confirmPassword {
      confirmError := PasswordsDiffer;
      isValid := false;
    }

    errors := RegisterErrors(nameError, emailError, passwordError, confirmError);
  }

  /** `handleSubmit`: `register` is dispatched, with name, email and
      password, exactly when the form validates. */
  method HandleSubmit(form: RegisterForm) returns (dispatched: Option<RegisterRequest>)
    ensures dispatched.Some? <==> Acceptable(form)
    ensures dispatched.Some? ==>
      dispatched.value == RegisterRequest(form.name, form.email, form.password)
  {
    var _, isValid := ValidateForm(form);
    if !isValid {
      return None;
    }
    dispatched := Some(RegisterRequest(form.name, form.email, form.password));
  }
}
