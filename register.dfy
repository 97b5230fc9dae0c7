/** The registration form: its field state, the validator and the submit handler.
    The call into the authentication context is a parameter giving its outcome. */
module Registration {
  import opened Wrappers
  import opened Text

  datatype FormField = Username | Password | ConfirmPassword

  datatype FormData = FormData(username: string, password: string, confirmPassword: string)
  {
    function Get(f: FormField): string {
      match f
      case Username => username
      case Password => password
      case ConfirmPassword => confirmPassword
    }

    /** `{...formData, [f]: v}`. */
    function With(f: FormField, v: string): (d: FormData)
      ensures d.Get(f) == v
      ensures forall g :: g != f ==> d.Get(g) == Get(g)
    {
      match f
      case Username => this.(username := v)
      case Password => this.(password := v)
      case ConfirmPassword => this.(confirmPassword := v)
    }
  }

  datatype FormError = MissingField | UsernameTooShort | PasswordTooShort | PasswordMismatch {
    function Message(): string {
      match this
      case MissingField => "Please fill in all fields"
      case UsernameTooShort => "Username must be at least 3 characters long"
      case PasswordTooShort => "Password must be at least 6 characters long"
      case PasswordMismatch => "Passwords do not match"
    }
  }

  /** `validateForm`: all fields present, username length, password length, then the
      confirmation; the first failing check decides. The length check reads the
      untrimmed username. */
  function ValidateForm(form: FormData): (r: Outcome<FormError>)
    ensures r == Fail(MissingField) <==>
      AllSpace(form.username) || form.password == [] || form.confirmPassword == []
    ensures r == Fail(UsernameTooShort) <==>
      !AllSpace(form.username) && form.password != [] && form.confirmPassword != [] && |form.username| < 3
    ensures r == Fail(PasswordTooShort) <==>
      !AllSpace(form.username) && form.confirmPassword != [] && |form.username| >= 3 && 0 < |form.password| < 6
    ensures r == Fail(PasswordMismatch) <==>
      !AllSpace(form.username) && form.confirmPassword != [] && |form.username| >= 3 && |form.password| >= 6
      && form.password != form.confirmPassword
    ensures r == Pass <==>
      !AllSpace(form.username) && |form.username| >= 3 && |form.password| >= 6 && form.password == form.confirmPassword
  {
    if AllSpace(form.username) || form.password == [] || form.confirmPassword == [] then Fail(MissingField)
    else if |form.username| < 3 then Fail(UsernameTooShort)
    else if |form.password| < 6 then Fail(PasswordTooShort)
    else if form.password != form.confirmPassword then Fail(PasswordMismatch)
    else Pass
  }

  /** A two-character username is rejected by length even though it is not blank. */
  lemma TwoCharacterUsernameRejected(password: string)
    requires password != []
    ensures ValidateForm(FormData("ab", password, password)) == Fail(UsernameTooShort)
  {
    assert !IsSpace("ab"[0]);
  }

  /** A padded username passes the untrimmed length check, and the name then sent to
      `register` is shorter than three characters. */
  lemma PaddedShortUsernameAccepted()
    ensures ValidateForm(FormData(" ab", "secret", "secret")) == Pass
    ensures Trim(" ab") == "ab"
  {
    PaddedUsernamePasses();
    PaddedUsernameTrims();
  }

  lemma PaddedUsernamePasses()
    ensures ValidateForm(FormData(" ab", "secret", "secret")) == Pass
  {
    assert !AllSpace(" ab") by {
      assert !IsSpace(" ab"[1]);
    }
  }

  lemma PaddedUsernameTrims()
    ensures Trim(" ab") == "ab"
  {
    var padded := [' '] + "ab";
    assert padded == " ab";
    TrimLeadingSpace(' ', "ab");
  }

  /** The validator as evidently intended: the length check reads the trimmed username,
      so every accepted form registers a username of at least three characters. */
  function ValidateFormIntended(form: FormData): (r: Outcome<FormError>)
    ensures r == Fail(MissingField) <==>
      AllSpace(form.username) || form.password == [] || form.confirmPassword == []
    ensures r == Fail(UsernameTooShort) <==>
      !AllSpace(form.username) && form.password != [] && form.confirmPassword != [] && |Trim(form.username)| < 3
    ensures r == Fail(PasswordTooShort) <==>
      !AllSpace(form.username) && form.confirmPassword != [] && |Trim(form.username)| >= 3 && 0 < |form.password| < 6
    ensures r == Fail(PasswordMismatch) <==>
      !AllSpace(form.username) && form.confirmPassword != [] && |Trim(form.username)| >= 3 && |form.password| >= 6
      && form.password != form.confirmPassword
    ensures r == Pass <==>
      |Trim(form.username)| >= 3 && |form.password| >= 6 && form.password == form.confirmPassword
  {
    if AllSpace(form.username) || form.password == [] || form.confirmPassword == [] then Fail(MissingField)
    else if |Trim(form.username)| < 3 then Fail(UsernameTooShort)
    else if |form.password| < 6 then Fail(PasswordTooShort)
    else if form.password != form.confirmPassword then Fail(PasswordMismatch)
    else Pass
  }

  /** The intended validator accepts exactly the forms the written one accepts whose
      trimmed username has at least three characters. */
  lemma IntendedIsStricter(form: FormData)
    ensures ValidateFormIntended(form) == Pass <==>
      ValidateForm(form) == Pass && |Trim(form.username)| >= 3
  {
  }

  /** What the authentication context's `register` answered. */
  datatype RegisterResult = Registered | NotRegistered(message: string)

  const SuccessText := "Registration successful! Redirecting to login..."

  class RegisterForm {
    var formData: FormData
    var message: string
    var loading: bool

    constructor ()
      ensures formData == FormData("", "", "") && message == "" && !loading
    {
      formData := FormData("", "", "");
      message := "";
      loading := false;
    }

    /** `handleChange`: only the named field changes. */
    method HandleChange(f: FormField, v: string)
      modifies this`formData
      ensures formData == old(formData).With(f, v)
    {
      formData := formData.With(f, v);
    }

    /** `handleSubmit`. `result` is what `register` answers when it is called; the
        returned pair is the (username, password) it was called with, if it was. */
    method HandleSubmit(result: RegisterResult) returns (call: Option<(string, string)>)
      modifies this`message, this`loading
      ensures ValidateForm(formData).Fail? ==>
        call == None && message == ValidateForm(formData).error.Message() && loading == old(loading)
      ensures ValidateForm(formData).Pass? ==>
        && call == Some((Trim(formData.username), formData.password))
        && !loading
        && message == (if result.Registered? then SuccessText else result.message)
    {
      var verdict := ValidateForm(formData);
      if verdict.Fail? {
        message := verdict.error.Message();
        call := None;
        return;
      }
      loading := true;
      message := "";
      call := Some((Trim(formData.username), formData.password));
      if result.Registered? {
        message := SuccessText;
      } else {
        message := result.message;
      }
      loading := false;
    }
  }
}
